/** The stored procedures as they run: statement by statement on a stored table,
    row by row within a statement. Each is proved to do what `Bulk.Exec` says. */
module Procedures {
  import opened Feed
  import opened Bulk
  import opened BulkLaws
  import opened TableLaws

  // ------------------------------------------------------------------- modes

  /** The option mode is the given verb; only Postgres has no short spelling. */
  predicate Asks(d: Dialect, optionMode: string, verb: string) {
    || SameText(d, optionMode, verb + "NewsFeed")
    || (!d.engine.Postgres? && SameText(d, optionMode, verb + "Feed"))
  }

  function ModeOf(d: Dialect, optionMode: string): Option<Mode> {
    if Asks(d, optionMode, "insert") then Some(Insert)
    else if Asks(d, optionMode, "update") then Some(Update)
    else if Asks(d, optionMode, "delete") then Some(Delete)
    else None
  }

  /** What a call must do. An unknown mode is an error status on MariaDB and an
      empty answer elsewhere; MSSQL parses the payload even then. */
  function CallOf(d: Dialect, optionMode: string, rows: seq<Row>, items: seq<Item>, now: int): Answer {
    var mode := ModeOf(d, optionMode);
    if mode.Some? then Exec(d, mode.value, rows, items, now)
    else match d.engine
      case Postgres => Done(rows, [])
      case MariaDb => Done(rows, [InvalidMode])
      case MsSql => if Parsed(d, Insert, items).None? then Failed else Done(rows, [])
  }

  /** A caller sees the new table and the statuses, or an error and the old table. */
  predicate Answers(a: Answer, before: seq<Row>, after: seq<Row>, status: Option<seq<Outcome>>) {
    match a
    case Done(rows, outcomes) => after == rows && status == Some(outcomes)
    case Failed => after == before && status == None
  }

  // --------------------------------------------------------- RETURNING, OUTPUT

  /** The item joins one of the titles a statement gave back. */
  predicate Gave(d: Dialect, titles: seq<string>, p: Item) {
    p.title.Some? && exists k :: 0 <= k < |titles| && SameText(d, p.title.value, titles[k])
  }

  function Reported(d: Dialect, mode: Mode, before: seq<Row>, titles: seq<string>, p: Item): Outcome {
    match mode
    case Insert => if Gave(d, titles, p) then Inserted else SkippedExists
    case Update => if Gave(d, titles, p) then Updated else if Named(d, before, p) then SkippedExists else SkippedNotFound
    case Delete => if Gave(d, titles, p) then Deleted else SkippedNotFound
  }

  predicate InsertedTitles(titles: seq<string>, admitted: seq<Item>) {
    && |titles| == |admitted|
    && forall k :: 0 <= k < |titles| ==> admitted[k].title == Some(titles[k])
  }

  /** An update or delete touches the row. */
  predicate Touches(d: Dialect, mode: Mode, parsed: seq<Item>, r: Row) {
    if mode.Update? then HitOn(d, r, parsed).Some? else Doomed(d, r, parsed)
  }

  /** The titles that an update or delete gives back, in the order of the rows. */
  function TouchedTitles(d: Dialect, mode: Mode, rows: seq<Row>, parsed: seq<Item>): seq<string> {
    if rows == [] then [] else
    var n := |rows| - 1;
    TouchedTitles(d, mode, rows[..n], parsed) + if Touches(d, mode, parsed, rows[n]) then [rows[n].title] else []
  }

  lemma {:induction false} TouchedMore(d: Dialect, mode: Mode, rows: seq<Row>, i: nat, parsed: seq<Item>)
    requires i < |rows|
    ensures TouchedTitles(d, mode, rows[..i + 1], parsed)
         == TouchedTitles(d, mode, rows[..i], parsed) + if Touches(d, mode, parsed, rows[i]) then [rows[i].title] else []
  {
    assert rows[..i + 1][..i] == rows[..i];
  }

  /** The titles given back are those of the rows the statement inserted or touched. */
  predicate TitlesTell(d: Dialect, mode: Mode, rows: seq<Row>, parsed: seq<Item>, titles: seq<string>) {
    if mode.Insert? then InsertedTitles(titles, Admitted(d, rows, parsed))
    else titles == TouchedTitles(d, mode, rows, parsed)
  }

  lemma {:induction false} GaveAppend(d: Dialect, titles: seq<string>, t: string, p: Item)
    ensures Gave(d, titles + [t], p) <==> Gave(d, titles, p) || (p.title.Some? && SameText(d, p.title.value, t))
  {
    var all := titles + [t];
    assert all[|titles|] == t;
    assert forall k :: 0 <= k < |titles| ==> all[k] == titles[k];
  }

  /** The item names a row that the statement touches. */
  predicate NamesTouched(d: Dialect, mode: Mode, rows: seq<Row>, parsed: seq<Item>, p: Item) {
    exists k :: 0 <= k < |rows| && Names(d, p, rows[k]) && Touches(d, mode, parsed, rows[k])
  }

  lemma {:induction false} NamesTouchedAppend(d: Dialect, mode: Mode, rows: seq<Row>, r: Row, parsed: seq<Item>, p: Item)
    ensures NamesTouched(d, mode, rows + [r], parsed, p) <==>
            NamesTouched(d, mode, rows, parsed, p) || (Names(d, p, r) && Touches(d, mode, parsed, r))
  {
    var all := rows + [r];
    assert all[|rows|] == r;
    assert forall k :: 0 <= k < |rows| ==> all[k] == rows[k];
  }

  /** An item joins the titles given back exactly when it names a touched row. */
  lemma {:induction false} GaveTouched(d: Dialect, mode: Mode, rows: seq<Row>, parsed: seq<Item>, p: Item)
    ensures Gave(d, TouchedTitles(d, mode, rows, parsed), p) <==> NamesTouched(d, mode, rows, parsed, p)
  {
    if rows != [] {
      var n := |rows| - 1;
      var titles := TouchedTitles(d, mode, rows[..n], parsed);
      GaveTouched(d, mode, rows[..n], parsed, p);
      assert rows == rows[..n] + [rows[n]];
      NamesTouchedAppend(d, mode, rows[..n], rows[n], parsed, p);
      GaveAppend(d, titles, rows[n].title, p);
      assert titles + [] == titles;
    }
  }

  lemma {:induction false} GaveInserted(d: Dialect, titles: seq<string>, admitted: seq<Item>, p: Item)
    requires InsertedTitles(titles, admitted)
    ensures Gave(d, titles, p) <==> Met(d, admitted, p)
  {
    if Gave(d, titles, p) {
      var k :| 0 <= k < |titles| && SameText(d, p.title.value, titles[k]);
      assert admitted[k] in admitted && Meets(d, admitted[k], p);
    }
    if q :| q in admitted && Meets(d, q, p) {
      var k :| 0 <= k < |admitted| && admitted[k] == q;
      assert SameText(d, p.title.value, titles[k]);
    }
  }

  /** Joining the items with those titles yields the statuses of the call. */
  lemma {:induction false} ReportedIsReturned(d: Dialect, mode: Mode, rows: seq<Row>, parsed: seq<Item>, titles: seq<string>, p: Item)
    requires TitlesTell(d, mode, rows, parsed, titles) && p in parsed
    ensures Reported(d, mode, rows, titles, p) == Returned(d, mode, rows, parsed, p)
  {
    if mode.Insert? {
      GaveInserted(d, titles, Admitted(d, rows, parsed), p);
    } else {
      GaveTouched(d, mode, rows, parsed, p);
      if mode.Delete? {
        assert forall k :: 0 <= k < |rows| && Names(d, p, rows[k]) ==> Doomed(d, rows[k], parsed);
      }
    }
  }

  /** What the next item of an insert meets: the rows already added stand for the
      items already seen. */
  lemma {:induction false} InsertStep(d: Dialect, before: seq<Row>, parsed: seq<Item>, i: nat, now: int)
    requires i < |parsed|
    requires forall q :: q in Admitted(d, before, parsed[..i]) ==> Storable(q)
    ensures var admitted := Admitted(d, before, parsed[..i]);
      && Admitted(d, before, parsed[..i + 1])
           == admitted + (if Admits(d, before, parsed[..i], parsed[i]) then [parsed[i]] else [])
      && (Fresh(d, before + NewRows(admitted, now), parsed[i]) <==>
            Fresh(d, before, parsed[i]) && forall q :: q in admitted ==> !Rivals(d, q, parsed[i]))
      && (d.engine.Postgres? && parsed[i].title.Some? ==>
            (Fresh(d, before + NewRows(admitted, now), parsed[i]) <==> Admits(d, before, parsed[..i], parsed[i])))
  {
    var p, earlier := parsed[i], parsed[..i];
    var admitted := Admitted(d, before, earlier);
    assert parsed[..i + 1][..i] == earlier;
    FreshAfter(d, before, admitted, now, p);
    AdmittedAreItems(d, before, earlier);
    if Fresh(d, before, p) {
      if q :| q in earlier && Rivals(d, q, p) {
        assert Fresh(d, before, q);
        RivalAdmitted(d, before, earlier, q);
      }
    }
  }

  lemma {:induction false} AddNoRival(d: Dialect, admitted: seq<Item>, p: Item)
    ensures NoRivals(d, admitted + [p]) <==> NoRivals(d, admitted) && forall q :: q in admitted ==> !Rivals(d, q, p)
  {
    var all := admitted + [p];
    if NoRivals(d, all) {
      forall q | q in admitted
        ensures !Rivals(d, q, p)
      {
        var k :| 0 <= k < |admitted| && admitted[k] == q;
        assert !Rivals(d, all[k], all[|admitted|]);
      }
      assert forall k :: 0 <= k < |admitted| ==> all[k] == admitted[k];
    }
  }

  lemma {:induction false} NewRowsAppend(ps: seq<Item>, p: Item, now: int)
    requires forall q :: q in ps + [p] ==> Storable(q)
    ensures (forall q :: q in ps ==> Storable(q)) && Storable(p)
    ensures NewRows(ps + [p], now) == NewRows(ps, now) + [NewRow(p, now)]
  {
    assert p in ps + [p];
    forall q | q in ps
      ensures Storable(q)
    {
      assert q in ps + [p];
    }
  }

  /** An insert that stops at one item fails as a whole. */
  lemma {:induction false} InsertStops(d: Dialect, before: seq<Row>, parsed: seq<Item>, i: nat)
    requires i < |parsed|
    requires
      || (!Storable(parsed[i]) && (d.engine.Postgres? || Admits(d, before, parsed[..i], parsed[i])))
      || (d.engine.MsSql? && !NoRivals(d, Admitted(d, before, parsed[..i + 1])))
    ensures InsertFails(d, before, parsed)
  {
    var upTo := parsed[..i + 1];
    assert upTo[..i] == parsed[..i] && upTo + parsed[i + 1..] == parsed;
    AdmittedPrefix(d, before, upTo, parsed[i + 1..]);
    var part, all := Admitted(d, before, upTo), Admitted(d, before, parsed);
    if Admits(d, before, parsed[..i], parsed[i]) {
      assert part[|part| - 1] == parsed[i];
      assert all[|part| - 1] in all;
    }
    if !NoRivals(d, part) {
      var j, k :| 0 <= j < k < |part| && Rivals(d, part[j], part[k]);
      assert Rivals(d, all[j], all[k]);
    }
  }

  /** The insert has dealt with the first `i` items. */
  ghost predicate Partway(d: Dialect, before: seq<Row>, parsed: seq<Item>, i: nat, now: int, rows: seq<Row>, titles: seq<string>) {
    && i <= |parsed|
    && var admitted := Admitted(d, before, parsed[..i]);
      && (forall q :: q in (if d.engine.Postgres? then parsed[..i] else admitted) ==> Storable(q))
      && (forall q :: q in admitted ==> Storable(q))
      && (d.engine.MsSql? ==> NoRivals(d, admitted))
      && rows == before + NewRows(admitted, now)
      && InsertedTitles(titles, admitted)
  }

  lemma {:induction false} PartwayStops(d: Dialect, before: seq<Row>, parsed: seq<Item>, i: nat, now: int, rows: seq<Row>, titles: seq<string>)
    requires !d.engine.MariaDb? && i < |parsed| && Partway(d, before, parsed, i, now, rows, titles)
    requires d.engine.Postgres? || Fresh(d, before, parsed[i])
    requires !Storable(parsed[i]) || (d.engine.MsSql? && !Fresh(d, rows, parsed[i]))
    ensures InsertFails(d, before, parsed)
  {
    InsertStep(d, before, parsed, i, now);
    if Storable(parsed[i]) {
      AddNoRival(d, Admitted(d, before, parsed[..i]), parsed[i]);
    }
    InsertStops(d, before, parsed, i);
  }

  lemma {:induction false} PartwayOn(d: Dialect, before: seq<Row>, parsed: seq<Item>, i: nat, now: int, rows: seq<Row>, titles: seq<string>)
    requires !d.engine.MariaDb? && i < |parsed| && Partway(d, before, parsed, i, now, rows, titles)
    requires d.engine.Postgres? || Fresh(d, before, parsed[i]) ==> Storable(parsed[i]) && (d.engine.MsSql? ==> Fresh(d, rows, parsed[i]))
    ensures Fresh(d, rows, parsed[i]) ==> Storable(parsed[i])
    ensures
      var p := parsed[i];
      if Fresh(d, rows, p) then Partway(d, before, parsed, i + 1, now, rows + [NewRow(p, now)], titles + [p.title.value])
      else Partway(d, before, parsed, i + 1, now, rows, titles)
  {
    var p, admitted := parsed[i], Admitted(d, before, parsed[..i]);
    InsertStep(d, before, parsed, i, now);
    AddNoRival(d, admitted, p);
    assert parsed[..i + 1] == parsed[..i] + [p];
    if Fresh(d, rows, p) {
      assert Admitted(d, before, parsed[..i + 1]) == admitted + [p];
      NewRowsAppend(admitted, p, now);
    } else {
      assert Admitted(d, before, parsed[..i + 1]) == admitted;
    }
  }

  lemma {:induction false} PartwayDone(d: Dialect, before: seq<Row>, parsed: seq<Item>, now: int, rows: seq<Row>, titles: seq<string>)
    requires !d.engine.MariaDb? && Partway(d, before, parsed, |parsed|, now, rows, titles)
    ensures !InsertFails(d, before, parsed) && rows == Written(d, Insert, before, parsed, now)
    ensures TitlesTell(d, Insert, before, parsed, titles)
  {
    assert parsed[..|parsed|] == parsed;
  }

  /** The update has dealt with the first `i` rows. */
  ghost predicate Updating(d: Dialect, before: seq<Row>, parsed: seq<Item>, i: nat, now: int, rows: seq<Row>, titles: seq<string>) {
    && i <= |before| == |rows|
    && (forall k :: 0 <= k < |before| ==> rows[k] == if k < i then Touched(d, before[k], parsed, now) else before[k])
    && (forall k :: 0 <= k < i && HitOn(d, before[k], parsed).Some? ==> Writable(HitOn(d, before[k], parsed).value))
    && titles == TouchedTitles(d, Update, before[..i], parsed)
  }

  lemma {:induction false} UpdatingOn(d: Dialect, before: seq<Row>, parsed: seq<Item>, i: nat, now: int, rows: seq<Row>, titles: seq<string>)
    requires i < |before| && Updating(d, before, parsed, i, now, rows, titles)
    ensures
      var p := HitOn(d, before[i], parsed);
      if p.None? then Updating(d, before, parsed, i + 1, now, rows, titles)
      else if !Writable(p.value) then UpdateFails(d, before, parsed)
      else Updating(d, before, parsed, i + 1, now, rows[i := Overwrite(rows[i], p.value, now)], titles + [before[i].title])
  {
    TouchedMore(d, Update, before, i, parsed);
  }

  lemma {:induction false} UpdatingDone(d: Dialect, before: seq<Row>, parsed: seq<Item>, now: int, rows: seq<Row>, titles: seq<string>)
    requires Updating(d, before, parsed, |before|, now, rows, titles)
    ensures !UpdateFails(d, before, parsed) && rows == UpdateRows(d, before, parsed, now)
    ensures TitlesTell(d, Update, before, parsed, titles)
  {
    assert before[..|before|] == before;
  }

  /** The delete has dealt with the first `i` rows. */
  ghost predicate Deleting(d: Dialect, before: seq<Row>, parsed: seq<Item>, i: nat, rows: seq<Row>, titles: seq<string>) {
    && i <= |before|
    && rows == DeleteRows(d, before[..i], parsed)
    && titles == TouchedTitles(d, Delete, before[..i], parsed)
  }

  lemma {:induction false} DeletingOn(d: Dialect, before: seq<Row>, parsed: seq<Item>, i: nat, rows: seq<Row>, titles: seq<string>)
    requires i < |before| && Deleting(d, before, parsed, i, rows, titles)
    ensures
      if Doomed(d, before[i], parsed) then Deleting(d, before, parsed, i + 1, rows, titles + [before[i].title])
      else Deleting(d, before, parsed, i + 1, rows + [before[i]], titles)
  {
    TouchedMore(d, Delete, before, i, parsed);
    assert before[..i + 1] == before[..i] + [before[i]];
    DeleteAppend(d, before[..i], before[i], parsed);
  }

  /** Postgres and MSSQL, whose write statements give back the titles they touched. */
  class ReturningDatabase {
    const d: Dialect
    var newsfeed: seq<Row>

    /** The primary key holds. */
    ghost predicate Valid()
      reads this
    {
      !d.engine.MariaDb? && Keyed(d.key, newsfeed)
    }

    constructor (d: Dialect)
      requires !d.engine.MariaDb?
      ensures Valid() && this.d == d && newsfeed == []
    {
      this.d, newsfeed := d, [];
    }

    /** The insert, row by row. Postgres skips a row that meets the unique key;
        MSSQL selects by the table before the statement and fails on the key. A
        failing statement leaves the table as it was. */
    method InsertFresh(parsed: seq<Item>, now: int) returns (inserted: Option<seq<string>>)
      requires Valid()
      modifies this
      ensures inserted.None? <==> InsertFails(d, old(newsfeed), parsed)
      ensures inserted.None? ==> newsfeed == old(newsfeed)
      ensures inserted.Some? ==>
        && newsfeed == Written(d, Insert, old(newsfeed), parsed, now)
        && TitlesTell(d, Insert, old(newsfeed), parsed, inserted.value)
    {
      var before := newsfeed;
      var titles := [];
      for i := 0 to |parsed|
        invariant Partway(d, before, parsed, i, now, newsfeed, titles)
      {
        var p := parsed[i];
        var selected := d.engine.Postgres? || Fresh(d, before, p);
        if selected && (!Storable(p) || (d.engine.MsSql? && !Fresh(d, newsfeed, p))) {
          PartwayStops(d, before, parsed, i, now, newsfeed, titles);
          newsfeed := before;
          return None;
        }
        PartwayOn(d, before, parsed, i, now, newsfeed, titles);
        if Fresh(d, newsfeed, p) {
          newsfeed := newsfeed + [NewRow(p, now)];
          titles := titles + [p.title.value];
        }
      }
      PartwayDone(d, before, parsed, now, newsfeed, titles);
      return Some(titles);
    }

    /** The update, row by row. */
    method UpdateChanged(parsed: seq<Item>, now: int) returns (updated: Option<seq<string>>)
      requires Valid()
      modifies this
      ensures updated.None? <==> UpdateFails(d, old(newsfeed), parsed)
      ensures updated.None? ==> newsfeed == old(newsfeed)
      ensures updated.Some? ==>
        && newsfeed == Written(d, Update, old(newsfeed), parsed, now)
        && TitlesTell(d, Update, old(newsfeed), parsed, updated.value)
    {
      var before := newsfeed;
      var titles := [];
      for i := 0 to |before|
        invariant Updating(d, before, parsed, i, now, newsfeed, titles)
      {
        UpdatingOn(d, before, parsed, i, now, newsfeed, titles);
        var p := HitOn(d, before[i], parsed);
        if p.Some? {
          if !Writable(p.value) {
            newsfeed := before;
            return None;
          }
          newsfeed := newsfeed[i := Overwrite(newsfeed[i], p.value, now)];
          titles := titles + [before[i].title];
        }
      }
      UpdatingDone(d, before, parsed, now, newsfeed, titles);
      return Some(titles);
    }

    /** The delete, row by row. */
    method DeleteNamed(parsed: seq<Item>) returns (deleted: seq<string>)
      requires Valid()
      modifies this
      ensures newsfeed == DeleteRows(d, old(newsfeed), parsed)
      ensures TitlesTell(d, Delete, old(newsfeed), parsed, deleted)
    {
      var before := newsfeed;
      deleted := [];
      newsfeed := [];
      for i := 0 to |before|
        invariant Deleting(d, before, parsed, i, newsfeed, deleted)
      {
        DeletingOn(d, before, parsed, i, newsfeed, deleted);
        if Doomed(d, before[i], parsed) {
          deleted := deleted + [before[i].title];
        } else {
          newsfeed := newsfeed + [before[i]];
        }
      }
      assert before[..|before|] == before;
    }

    /** The final select: every item joined with the titles given back. */
    method Report(mode: Mode, before: seq<Row>, parsed: seq<Item>, titles: seq<string>) returns (status: seq<Outcome>)
      requires !d.engine.MariaDb? && TitlesTell(d, mode, before, parsed, titles)
      ensures status == Outcomes(d, mode, before, parsed)
    {
      status := [];
      for i := 0 to |parsed|
        invariant |status| == i
        invariant forall k :: 0 <= k < i ==> status[k] == Returned(d, mode, before, parsed, parsed[k])
      {
        ReportedIsReturned(d, mode, before, parsed, titles, parsed[i]);
        status := status + [Reported(d, mode, before, titles, parsed[i])];
      }
    }

    /** `cud_bulk_json_newsfeed` */
    method CudBulkJson(optionMode: string, payload: seq<Item>, now: int) returns (status: Option<seq<Outcome>>)
      requires Valid()
      modifies this
      ensures Valid()
      ensures Answers(CallOf(d, optionMode, old(newsfeed), payload, now), old(newsfeed), newsfeed, status)
    {
      var before := newsfeed;
      var mode := ModeOf(d, optionMode);
      if mode.None? && d.engine.Postgres? {
        return Some([]);
      }
      var parsed := Parsed(d, if mode.Some? then mode.value else Insert, payload);
      if parsed.None? {
        return None;
      }
      if mode.None? {
        return Some([]);
      }
      var titles := None;
      match mode.value {
        case Insert => titles := InsertFresh(parsed.value, now);
        case Update => titles := UpdateChanged(parsed.value, now);
        case Delete =>
          var deleted := DeleteNamed(parsed.value);
          titles := Some(deleted);
      }
      if titles.None? {
        return None;
      }
      KeyedLaw(d, mode.value, before, parsed.value, now);
      var report := Report(mode.value, before, parsed.value, titles.value);
      return Some(report);
    }
  }

  lemma {:induction false} DeleteAppend(d: Dialect, rows: seq<Row>, r: Row, parsed: seq<Item>)
    ensures DeleteRows(d, rows + [r], parsed) == DeleteRows(d, rows, parsed) + if Doomed(d, r, parsed) then [] else [r]
  {
    var all := rows + [r];
    if rows == [] {
      assert all[1..] == [];
      assert DeleteRows(d, all, parsed) == (if Doomed(d, r, parsed) then [] else [r]) + [];
    } else {
      assert all[1..] == rows[1..] + [r] && all[0] == rows[0];
      DeleteAppend(d, rows[1..], r, parsed);
    }
  }
}
