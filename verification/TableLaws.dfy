/** What every bulk call keeps: unique titles, one answer per item, a row count
    that moves by the number of successes, and stamps that tell what changed. */
module TableLaws {
  import opened Feed
  import opened Sql
  import opened Bulk
  import opened BulkLaws

  // ---------------------------------------------------------- unique titles

  lemma {:induction false} NewKeys(d: Dialect, rows: seq<Row>, added: seq<Item>, now: int)
    requires Keyed(d.key, rows)
    requires forall p :: p in added ==> Storable(p) && Fresh(d, rows, p)
    ensures Keyed(d.key, rows + NewRows(added, now)) <==> NoRivals(d, added)
  {
    var all := rows + NewRows(added, now);
    assert forall k :: 0 <= k < |added| ==> added[k] in added;
    assert forall k :: 0 <= k < |added| ==> all[|rows| + k] == NewRow(added[k], now);
    if NoRivals(d, added) {
      forall i, j | 0 <= i < j < |all|
        ensures d.key(all[i].title) != d.key(all[j].title)
      {
        if j >= |rows| {
          var q := added[j - |rows|];
          if i < |rows| {
            assert !Clashes(d, q, rows[i]);
          } else {
            assert !Rivals(d, added[i - |rows|], q);
          }
        }
      }
    }
    if Keyed(d.key, all) {
      forall i, j | 0 <= i < j < |added|
        ensures !Rivals(d, added[i], added[j])
      {
        assert d.key(all[|rows| + i].title) != d.key(all[|rows| + j].title);
      }
    }
  }

  lemma {:induction false} AdmittedNoRivals(d: Dialect, rows: seq<Row>, ps: seq<Item>)
    requires d.engine.Postgres?
    ensures NoRivals(d, Admitted(d, rows, ps))
  {
    if ps != [] {
      var before := ps[..|ps| - 1];
      AdmittedNoRivals(d, rows, before);
      AdmittedAreItems(d, rows, before);
      assert forall k :: 0 <= k < |Admitted(d, rows, before)| ==> Admitted(d, rows, before)[k] in before;
    }
  }

  lemma {:induction false} DeleteKeyed(d: Dialect, rows: seq<Row>, ps: seq<Item>)
    requires Keyed(d.key, rows)
    ensures Keyed(d.key, DeleteRows(d, rows, ps))
  {
    if rows != [] {
      var tail := rows[1..];
      var rest := DeleteRows(d, tail, ps);
      DeleteKeyed(d, tail, ps);
      assert forall k :: 0 <= k < |tail| ==> d.key(tail[k].title) != d.key(rows[0].title);
      assert forall k :: 0 <= k < |rest| ==> rest[k] in rest && rest[k] in tail;
    }
  }

  lemma {:induction false} DeleteDistinct(d: Dialect, rows: seq<Row>, ps: seq<Item>)
    requires Distinct(rows)
    ensures Distinct(DeleteRows(d, rows, ps))
  {
    if rows != [] {
      var tail := rows[1..];
      var rest := DeleteRows(d, tail, ps);
      DeleteDistinct(d, tail, ps);
      assert forall k :: 0 <= k < |tail| ==> tail[k].title != rows[0].title;
      assert forall k :: 0 <= k < |rest| ==> rest[k] in rest && rest[k] in tail;
    }
  }

  /** Every call keeps titles unique under the collation, but for one: a MariaDB
      insert, whose table has no key, does so exactly when no two new titles are
      equal under the collation. */
  lemma {:induction false} KeyedLaw(d: Dialect, mode: Mode, rows: seq<Row>, ps: seq<Item>, now: int)
    requires Keyed(d.key, rows) && Apply(d, mode, rows, ps, now).Done?
    ensures Keyed(d.key, Apply(d, mode, rows, ps, now).rows) <==>
            (mode.Insert? && d.engine.MariaDb? ==> NoRivals(d, Admitted(d, rows, ps)))
  {
    match mode
    case Insert =>
      AdmittedAreItems(d, rows, ps);
      NewKeys(d, rows, Admitted(d, rows, ps), now);
      if d.engine.Postgres? {
        AdmittedNoRivals(d, rows, ps);
      }
    case Update =>
    case Delete =>
      DeleteKeyed(d, rows, ps);
  }

  /** No two items carry the very same title: what the handler checks. */
  predicate DistinctTitles(items: seq<Item>) {
    forall i, j :: 0 <= i < j < |items| ==>
      !(items[i].title.Some? && items[i].title == items[j].title)
  }

  lemma {:induction false} AdmittedDistinct(d: Dialect, rows: seq<Row>, ps: seq<Item>)
    requires DistinctTitles(ps)
    ensures DistinctTitles(Admitted(d, rows, ps))
  {
    if ps != [] {
      var before := ps[..|ps| - 1];
      AdmittedDistinct(d, rows, before);
      AdmittedAreItems(d, rows, before);
      assert forall k :: 0 <= k < |Admitted(d, rows, before)| ==> Admitted(d, rows, before)[k] in before;
    }
  }

  /** A batch without repeated titles keeps titles distinct on every engine,
      whatever the collation and even without a key. */
  lemma {:induction false} DistinctLaw(d: Dialect, mode: Mode, rows: seq<Row>, ps: seq<Item>, now: int)
    requires Distinct(rows) && DistinctTitles(ps) && Apply(d, mode, rows, ps, now).Done?
    ensures Distinct(Apply(d, mode, rows, ps, now).rows)
  {
    match mode
    case Insert =>
      var added := Admitted(d, rows, ps);
      AdmittedAreItems(d, rows, ps);
      var all := rows + NewRows(added, now);
      AdmittedDistinct(d, rows, ps);
      forall i, j | 0 <= i < j < |all|
        ensures all[i].title != all[j].title
      {
        if i < |rows| <= j {
          var q := added[j - |rows|];
          assert q in added && !Clashes(d, q, rows[i]);
        } else if |rows| <= i {
          assert added[i - |rows|] in added && added[j - |rows|] in added;
        }
      }
    case Update =>
    case Delete =>
      DeleteDistinct(d, rows, ps);
  }

  /** The rows of a table, without their physical order. */
  function RowSet(rows: seq<Row>): set<Row> {
    set r | r in rows
  }

  lemma {:induction false} KeyedCount(key: Collation, rows: seq<Row>)
    requires Keyed(key, rows)
    ensures |RowSet(rows)| == |rows|
  {
    if rows != [] {
      KeyedCount(key, rows[1..]);
      assert RowSet(rows) == RowSet(rows[1..]) + {rows[0]};
      assert rows[0] !in rows[1..];
    }
  }

  // ---------------------------------------------------- one answer per item

  lemma {:induction false} AdmittedAtIndex(d: Dialect, rows: seq<Row>, ps: seq<Item>, p: Item)
    ensures p in Admitted(d, rows, ps) <==> exists k :: 0 <= k < |ps| && ps[k] == p && Admits(d, rows, ps[..k], p)
  {
    if ps != [] {
      var n := |ps| - 1;
      AdmittedAtIndex(d, rows, ps[..n], p);
      assert forall k :: 0 <= k < n ==> ps[..n][k] == ps[k] && ps[..n][..k] == ps[..k];
    }
  }

  /** The answer to one item, seen against the table before the call. */
  function Verdict(d: Dialect, mode: Mode, rows: seq<Row>, ps: seq<Item>, p: Item): Outcome {
    match mode
    case Insert => if p in Admitted(d, rows, ps) then Inserted else SkippedExists
    case Update =>
      if exists k :: 0 <= k < |rows| && Hits(d, p, rows[k]) then Updated
      else if Named(d, rows, p) then SkippedExists else SkippedNotFound
    case Delete => if Named(d, rows, p) then Deleted else SkippedNotFound
  }

  /** A keyed table joins an item at most once. */
  lemma {:induction false} JoinedOnce(d: Dialect, mode: Mode, rows: seq<Row>, p: Item, k: nat)
    requires Keyed(d.key, rows) && k < |rows| && Names(d, p, rows[k])
    ensures Joined(d, mode, rows, p) == [OnRow(d, mode, rows[k], p)]
  {
    if k == 0 {
      forall i | 0 <= i < |rows[1..]|
        ensures !Names(d, p, rows[1..][i])
      {
        assert rows[1..][i] == rows[i + 1];
      }
      JoinedNothing(d, mode, rows[1..], p);
    } else {
      JoinedOnce(d, mode, rows[1..], p, k - 1);
    }
  }

  lemma {:induction false} AdmittedFresh(d: Dialect, rows: seq<Row>, ps: seq<Item>, p: Item)
    requires !d.engine.Postgres?
    ensures p in Admitted(d, rows, ps) <==> p in ps && Fresh(d, rows, p)
  {
    if ps != [] {
      AdmittedFresh(d, rows, ps[..|ps| - 1], p);
      assert ps == ps[..|ps| - 1] + [ps[|ps| - 1]];
    }
  }

  lemma {:induction false} PredictedVerdict(d: Dialect, mode: Mode, rows: seq<Row>, ps: seq<Item>, p: Item)
    requires d.engine.MariaDb? && Keyed(d.key, rows) && p in ps && p.title.Some?
    ensures Predicted(d, mode, rows, p) == [Verdict(d, mode, rows, ps, p)]
  {
    JoinedNothing(d, mode, rows, p);
    AdmittedFresh(d, rows, ps, p);
    if k :| 0 <= k < |rows| && Names(d, p, rows[k]) {
      JoinedOnce(d, mode, rows, p, k);
      assert Clashes(d, p, rows[k]);
      assert mode.Update? ==> (Changed(d, rows[k], p) <==> exists j :: 0 <= j < |rows| && Hits(d, p, rows[j])) by {
        assert Changed(d, rows[k], p) ==> Hits(d, p, rows[k]);
        assert forall j :: 0 <= j < |rows| && Names(d, p, rows[j]) ==> j == k;
      }
    }
  }

  lemma {:induction false} PredictedVerdicts(d: Dialect, mode: Mode, rows: seq<Row>, all: seq<Item>, ps: seq<Item>)
    requires d.engine.MariaDb? && Keyed(d.key, rows)
    requires forall p :: p in ps ==> p in all && p.title.Some?
    ensures var os := PredictedAll(d, mode, rows, ps);
            |os| == |ps| && forall k :: 0 <= k < |ps| ==> os[k] == Verdict(d, mode, rows, all, ps[k])
  {
    if ps != [] {
      PredictedVerdict(d, mode, rows, all, ps[0]);
      PredictedVerdicts(d, mode, rows, all, ps[1..]);
    }
  }

  lemma {:induction false} ReturnedVerdict(d: Dialect, mode: Mode, rows: seq<Row>, ps: seq<Item>, p: Item)
    requires Apart(d, ps) && p in ps && p.title.Some?
    ensures Returned(d, mode, rows, ps, p) == Verdict(d, mode, rows, ps, p)
  {
    OnlyItself(d, ps, p);
    AdmittedAreItems(d, rows, ps);
  }

  lemma {:induction false} OnlyItself(d: Dialect, ps: seq<Item>, p: Item)
    requires Apart(d, ps) && p in ps && p.title.Some?
    ensures forall q :: q in ps && Meets(d, q, p) ==> q == p
    ensures forall r, q :: Names(d, p, r) && q in ps && Names(d, q, r) ==> q == p
  {
    forall q | q in ps && Meets(d, q, p)
      ensures q == p
    {
      var i :| 0 <= i < |ps| && ps[i] == p;
      var j :| 0 <= j < |ps| && ps[j] == q;
    }
  }

  /** Each item gets exactly one answer, and it tells what happened to that item. */
  lemma {:induction false} AnswerLaw(d: Dialect, mode: Mode, rows: seq<Row>, ps: seq<Item>)
    requires Keyed(d.key, rows) && Apart(d, ps)
    requires forall p :: p in ps ==> p.title.Some?
    ensures var os := Outcomes(d, mode, rows, ps);
            |os| == |ps| && forall k :: 0 <= k < |ps| ==> os[k] == Verdict(d, mode, rows, ps, ps[k])
  {
    if d.engine.MariaDb? {
      PredictedVerdicts(d, mode, rows, ps, ps);
    } else {
      forall k | 0 <= k < |ps|
        ensures Returned(d, mode, rows, ps, ps[k]) == Verdict(d, mode, rows, ps, ps[k])
      {
        ReturnedVerdict(d, mode, rows, ps, ps[k]);
      }
    }
  }

  lemma {:induction false} DeleteOutcomes(d: Dialect, rows: seq<Row>, ps: seq<Item>)
    requires Keyed(d.key, rows) && forall k :: 0 <= k < |ps| ==> ps[k].title.Some?
    ensures var os := Outcomes(d, Delete, rows, ps);
            && |os| == |ps|
            && forall k :: 0 <= k < |ps| ==> os[k] == if Named(d, rows, ps[k]) then Deleted else SkippedNotFound
  {
    if d.engine.MariaDb? {
      assert forall p :: p in ps ==> p.title.Some?;
      PredictedVerdicts(d, Delete, rows, ps, ps);
    }
  }

  /** Some item lacks a feed URL and names a stored row. */
  predicate FeedlessNamed(d: Dialect, rows: seq<Row>, ps: seq<Item>) {
    exists i :: 0 <= i < |ps| && ps[i].feedUrl.None? && Named(d, rows, ps[i])
  }

  /** An update of dated items that are apart fails on Postgres exactly when one
      without a feed URL names a stored row. */
  lemma {:induction false} FeedlessFails(d: Dialect, rows: seq<Row>, ps: seq<Item>)
    requires d.engine.Postgres? && Apart(d, ps) && forall k :: 0 <= k < |ps| ==> ps[k].title.Some? && ps[k].publishDate.Some?
    ensures UpdateFails(d, rows, ps) <==> FeedlessNamed(d, rows, ps)
  {
    if i :| 0 <= i < |ps| && ps[i].feedUrl.None? && Named(d, rows, ps[i]) {
      var k :| 0 <= k < |rows| && Names(d, ps[i], rows[k]);
      OnlyItself(d, ps, ps[i]);
      assert Hits(d, ps[i], rows[k]);
      assert HitOn(d, rows[k], ps) == Some(ps[i]);
    }
    if k :| 0 <= k < |rows| && HitOn(d, rows[k], ps).Some? && !Writable(HitOn(d, rows[k], ps).value) {
      var i :| 0 <= i < |ps| && ps[i] == HitOn(d, rows[k], ps).value;
      assert Named(d, rows, ps[i]);
    }
  }

  /** Items that the handler lets through, apart from each other on this engine. */
  predicate Tidy(d: Dialect, ps: seq<Item>) {
    Apart(d, ps) && forall p :: p in ps ==> p.title.Some?
  }

  lemma {:induction false} TidyKeyed(d: Dialect, mode: Mode, rows: seq<Row>, ps: seq<Item>, now: int)
    requires Keyed(d.key, rows) && Apart(d, ps) && Apply(d, mode, rows, ps, now).Done?
    ensures Keyed(d.key, Apply(d, mode, rows, ps, now).rows)
  {
    KeyedLaw(d, mode, rows, ps, now);
    AdmittedApart(d, rows, ps);
  }

  // ------------------------------------------------------------------ stamps

  /** `MAX(modified_date)` */
  function MaxModified(rows: seq<Row>): Option<int> {
    if rows == [] then None else
    var rest := MaxModified(rows[1..]);
    if rest.Some? && rest.value > rows[0].modified then rest else Some(rows[0].modified)
  }

  /** The maximum is carried by some row and exceeded by none. */
  predicate IsMax(rows: seq<Row>, m: int) {
    && (exists k :: 0 <= k < |rows| && rows[k].modified == m)
    && (forall k :: 0 <= k < |rows| ==> rows[k].modified <= m)
  }

  lemma {:induction false} MaxModifiedIsMax(rows: seq<Row>, m: int)
    ensures MaxModified(rows) == Some(m) <==> IsMax(rows, m)
  {
    if rows != [] {
      var tail := rows[1..];
      assert forall k :: 1 <= k < |rows| ==> rows[k] == tail[k - 1];
      MaxModifiedIsMax(tail, rows[0].modified);
      MaxModifiedIsMax(tail, m);
      if MaxModified(tail).Some? {
        MaxModifiedIsMax(tail, MaxModified(tail).value);
      }
      if IsMax(tail, m) {
        var k :| 0 <= k < |tail| && tail[k].modified == m;
        assert rows[k + 1].modified == m;
      }
      if tail == [] {
        assert rows[0].modified == rows[0].modified;
      }
    }
  }

  predicate Before(rows: seq<Row>, now: int) {
    forall k :: 0 <= k < |rows| ==> rows[k].modified < now
  }

  /** A call leaves rows alone or stamps them with its own time. */
  lemma {:induction false} StampLaw(d: Dialect, mode: Mode, rows: seq<Row>, ps: seq<Item>, now: int)
    requires Apply(d, mode, rows, ps, now).Done?
    ensures forall r :: r in Apply(d, mode, rows, ps, now).rows ==> r in rows || r.modified == now
  {
    if mode.Insert? {
      AdmittedAreItems(d, rows, ps);
    }
  }

  /** Insert and update lose no title. */
  lemma {:induction false} TitleLaw(d: Dialect, mode: Mode, rows: seq<Row>, ps: seq<Item>, now: int)
    requires Apply(d, mode, rows, ps, now).Done? && !mode.Delete?
    ensures var rows' := Apply(d, mode, rows, ps, now).rows;
            |rows| <= |rows'| && forall k :: 0 <= k < |rows| ==> rows'[k].title == rows[k].title
  {
  }

  predicate Succeeded(os: seq<Outcome>) {
    exists k :: 0 <= k < |os| && StatusOf(os[k]) == Success
  }

  predicate AllSkipped(os: seq<Outcome>) {
    forall k :: 0 <= k < |os| ==> StatusOf(os[k]) == Skipped
  }

  /** With a clock ahead of every stamp, an insert or update either changes the
      table and makes its own time the new maximum, or changes nothing and says so. */
  lemma {:induction false} EffectLaw(d: Dialect, mode: Mode, rows: seq<Row>, ps: seq<Item>, now: int)
    requires Keyed(d.key, rows) && Tidy(d, ps) && Before(rows, now)
    requires !mode.Delete? && Apply(d, mode, rows, ps, now).Done?
    ensures var a := Apply(d, mode, rows, ps, now);
            if Succeeded(a.outcomes) then a.rows != rows && MaxModified(a.rows) == Some(now)
            else a.rows == rows && AllSkipped(a.outcomes)
  {
    AnswerLaw(d, mode, rows, ps);
    SuccessMeans(d, mode, rows, ps);
    if mode.Insert? {
      InsertEffect(d, rows, ps, now);
    } else {
      UpdateEffect(d, rows, ps, now);
    }
  }

  /** A success is an admitted item or a hit row. */
  lemma {:induction false} SuccessMeans(d: Dialect, mode: Mode, rows: seq<Row>, ps: seq<Item>)
    requires !mode.Delete?
    requires |Outcomes(d, mode, rows, ps)| == |ps|
    requires forall k :: 0 <= k < |ps| ==> Outcomes(d, mode, rows, ps)[k] == Verdict(d, mode, rows, ps, ps[k])
    ensures var os := Outcomes(d, mode, rows, ps);
            && (Succeeded(os) || AllSkipped(os))
            && (Succeeded(os) <==> if mode.Insert? then exists k :: 0 <= k < |ps| && ps[k] in Admitted(d, rows, ps)
                else exists k, j :: 0 <= k < |ps| && 0 <= j < |rows| && Hits(d, ps[k], rows[j]))
  {
  }

  lemma {:induction false} InsertEffect(d: Dialect, rows: seq<Row>, ps: seq<Item>, now: int)
    requires Before(rows, now) && Apply(d, Insert, rows, ps, now).Done?
    ensures var rows' := Apply(d, Insert, rows, ps, now).rows;
            if exists k :: 0 <= k < |ps| && ps[k] in Admitted(d, rows, ps)
            then rows' != rows && MaxModified(rows') == Some(now)
            else rows' == rows
  {
    AdmittedAreItems(d, rows, ps);
    var added := Admitted(d, rows, ps);
    var rows' := rows + NewRows(added, now);
    if added != [] {
      assert added[0] in added && added[0] in ps;
      assert rows'[|rows|] == NewRow(added[0], now);
      MaxModifiedIsMax(rows', now);
    }
  }

  lemma {:induction false} UpdateEffect(d: Dialect, rows: seq<Row>, ps: seq<Item>, now: int)
    requires Before(rows, now) && Apply(d, Update, rows, ps, now).Done?
    ensures var rows' := Apply(d, Update, rows, ps, now).rows;
            if exists k, j :: 0 <= k < |ps| && 0 <= j < |rows| && Hits(d, ps[k], rows[j])
            then rows' != rows && MaxModified(rows') == Some(now)
            else rows' == rows
  {
    var rows' := UpdateRows(d, rows, ps, now);
    if k, j :| 0 <= k < |ps| && 0 <= j < |rows| && Hits(d, ps[k], rows[j]) {
      assert HitOn(d, rows[j], ps).Some?;
      assert rows'[j].modified == now;
      MaxModifiedIsMax(rows', now);
    } else {
      assert forall p :: p in ps ==> exists k :: 0 <= k < |ps| && ps[k] == p;
    }
  }

  /** On a clock that does not run backwards an insert or update moves the
      newest stamp exactly when it succeeds somewhere and the clock has ticked
      since that stamp. */
  lemma {:induction false} NewestStampMoves(d: Dialect, mode: Mode, rows: seq<Row>, ps: seq<Item>, now: int, m: int)
    requires Keyed(d.key, rows) && Tidy(d, ps) && MaxModified(rows) == Some(m) && m <= now
    requires !mode.Delete? && Apply(d, mode, rows, ps, now).Done?
    ensures var a := Apply(d, mode, rows, ps, now);
            MaxModified(a.rows) != Some(m) <==> Succeeded(a.outcomes) && m < now
  {
    var a := Apply(d, mode, rows, ps, now);
    MaxModifiedIsMax(rows, m);
    if m < now {
      EffectLaw(d, mode, rows, ps, now);
    } else {
      StampLaw(d, mode, rows, ps, now);
      OneTick(d, mode, rows, ps, m);
    }
  }

  lemma {:induction false} OneTick(d: Dialect, mode: Mode, rows: seq<Row>, ps: seq<Item>, m: int)
    requires IsMax(rows, m) && !mode.Delete? && Apply(d, mode, rows, ps, m).Done?
    ensures MaxModified(Apply(d, mode, rows, ps, m).rows) == Some(m)
  {
    var rows' := Apply(d, mode, rows, ps, m).rows;
    StampLaw(d, mode, rows, ps, m);
    var k :| 0 <= k < |rows| && rows[k].modified == m;
    assert rows'[k].modified == m by {
      if mode.Insert? {
        AdmittedAreItems(d, rows, ps);
      }
    }
    forall j | 0 <= j < |rows'|
      ensures rows'[j].modified <= m
    {
      assert rows'[j] in rows';
      if rows'[j] in rows {
        var i :| 0 <= i < |rows| && rows[i] == rows'[j];
      }
    }
    MaxModifiedIsMax(rows', m);
  }

  // --------------------------------------------------------------- repeating

  /** Repeating a call at any later time changes nothing and skips every item. */
  lemma {:induction false} RepeatLaw(d: Dialect, mode: Mode, rows: seq<Row>, ps: seq<Item>, now: int, later: int)
    requires Keyed(d.key, rows) && Tidy(d, ps) && Apply(d, mode, rows, ps, now).Done?
    ensures var rows' := Apply(d, mode, rows, ps, now).rows;
            var again := Apply(d, mode, rows', ps, later);
            again.Done? && again.rows == rows' && |again.outcomes| == |ps| && AllSkipped(again.outcomes)
  {
    var rows' := Apply(d, mode, rows, ps, now).rows;
    TidyKeyed(d, mode, rows, ps, now);
    AnswerLaw(d, mode, rows', ps);
    NothingLeft(d, mode, rows, ps, now, later);
  }

  /** After a call no item has anything left to do. */
  lemma {:induction false} NothingLeft(d: Dialect, mode: Mode, rows: seq<Row>, ps: seq<Item>, now: int, later: int)
    requires Tidy(d, ps) && Apply(d, mode, rows, ps, now).Done?
    ensures var rows' := Apply(d, mode, rows, ps, now).rows;
            var again := Apply(d, mode, rows', ps, later);
            && again.Done? && again.rows == rows'
            && forall p :: p in ps ==> StatusOf(Verdict(d, mode, rows', ps, p)) == Skipped
  {
    var rows' := Apply(d, mode, rows, ps, now).rows;
    match mode
    case Insert =>
      NothingFresh(d, rows, ps, now);
      NoneAdmitted(d, rows', ps);
    case Update =>
      NothingHit(d, rows, ps, now);
    case Delete =>
      NothingDoomed(d, rows, ps);
      DeleteNone(d, rows', ps);
  }

  lemma {:induction false} NoneAdmitted(d: Dialect, rows: seq<Row>, ps: seq<Item>)
    requires forall p :: p in ps ==> !Fresh(d, rows, p)
    ensures Admitted(d, rows, ps) == []
  {
    if ps != [] {
      NoneAdmitted(d, rows, ps[..|ps| - 1]);
    }
  }

  lemma {:induction false} NothingDoomed(d: Dialect, rows: seq<Row>, ps: seq<Item>)
    ensures var rows' := DeleteRows(d, rows, ps);
            forall k :: 0 <= k < |rows'| ==> !Doomed(d, rows'[k], ps)
  {
    var rows' := DeleteRows(d, rows, ps);
    assert forall k :: 0 <= k < |rows'| ==> rows'[k] in rows';
  }

  lemma {:induction false} NothingHit(d: Dialect, rows: seq<Row>, ps: seq<Item>, now: int)
    requires Tidy(d, ps) && Apply(d, Update, rows, ps, now).Done?
    ensures var rows' := Apply(d, Update, rows, ps, now).rows;
            forall k, p :: 0 <= k < |rows'| && p in ps ==> !Hits(d, p, rows'[k])
  {
    var rows' := UpdateRows(d, rows, ps, now);
    forall k, p | 0 <= k < |rows'| && p in ps
      ensures !Hits(d, p, rows'[k])
    {
      if Names(d, p, rows[k]) {
        OnlyItself(d, ps, p);
        assert HitOn(d, rows[k], ps).Some? ==> Writable(p) && !Changed(d, Overwrite(rows[k], p, now), p);
      }
    }
  }

  lemma {:induction false} NothingFresh(d: Dialect, rows: seq<Row>, ps: seq<Item>, now: int)
    requires Tidy(d, ps) && Apply(d, Insert, rows, ps, now).Done?
    ensures forall p :: p in ps ==> !Fresh(d, Apply(d, Insert, rows, ps, now).rows, p)
  {
    AdmittedAreItems(d, rows, ps);
    var added := Admitted(d, rows, ps);
    forall p | p in ps
      ensures !Fresh(d, rows + NewRows(added, now), p)
    {
      FreshAfter(d, rows, added, now, p);
      if Fresh(d, rows, p) {
        RivalAdmitted(d, rows, ps, p);
      }
    }
  }

  lemma {:induction false} DeleteNone(d: Dialect, rows: seq<Row>, ps: seq<Item>)
    requires forall k :: 0 <= k < |rows| ==> !Doomed(d, rows[k], ps)
    ensures DeleteRows(d, rows, ps) == rows
  {
    if rows != [] {
      DeleteNone(d, rows[1..], ps);
    }
  }
}
