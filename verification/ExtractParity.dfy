/** When any two of the three engines return the same page for the same request. */
module ExtractParity {
  import opened Feed
  import opened Bulk
  import opened TableLaws
  import opened Ordering
  import opened Query
  import opened Extract

  /** Where titles differ, the placement of nulls cannot matter. */
  lemma {:induction false} NullsPlaceNothing(o: Order, desc: bool, a: Row, b: Row, first: bool)
    requires o.text(a.title) != o.text(b.title)
    ensures Ahead(o, desc, a, b) <==> Ahead(o.(nullsFirst := first), desc, a, b)
  {
  }

  /** On tables with unique titles, sorting depends on the set of rows alone:
      neither on their physical order nor on the placement of nulls. */
  lemma {:induction false} SortNullsFree(o: Order, desc: bool, rows: seq<Row>, rows': seq<Row>, first: bool)
    requires Keyed(o.text, rows) && Keyed(o.text, rows') && RowSet(rows) == RowSet(rows')
    ensures Sort(o, desc, rows) == Sort(o.(nullsFirst := first), desc, rows')
  {
    var o' := o.(nullsFirst := first);
    var s, s' := Sort(o, desc, rows), Sort(o', desc, rows');
    SortSorts(o, desc, rows);
    SortKeeps(o, desc, rows);
    SortSorts(o', desc, rows');
    SortKeeps(o', desc, rows');
    forall i, j | 0 <= i < j < |s'|
      ensures Ahead(o, desc, s'[i], s'[j])
    {
      SortedApart(o', desc, rows', i, j);
      NullsPlaceNothing(o, desc, s'[i], s'[j], first);
    }
    SortedUnique(o, desc, s, s');
  }

  // ----------------------------------------------------------------- readings

  /** How an engine reads a request: it refuses it, or takes each nullable filter
      for the word null or for a text, and sorts one way. */
  datatype Reading = Refused | Reads(imageNull: bool, actualNull: bool, desc: bool)

  predicate IsWord(isNull: NullWord, given: Option<string>) {
    given.Some? && isNull(given.value)
  }

  function ReadingOf(e: Engine, key: Collation, f: Filters, sort: Option<string>): Reading {
    match e
    case Postgres =>
      if Shouted(f.imageUrl) || Shouted(f.actualUrl) then Refused
      else Reads(IsWord(PostgresNull, f.imageUrl), IsWord(PostgresNull, f.actualUrl), Descending(sort))
    case MariaDb =>
      if Unlowered(key, f.imageUrl) || Unlowered(key, f.actualUrl) then Refused
      else Reads(IsWord(CollatedWord(key), f.imageUrl), IsWord(CollatedWord(key), f.actualUrl), CollatedDescending(key, sort))
    case MsSql =>
      Reads(ImageNull(key, f), ImageNull(key, f), CollatedDescending(key, sort))
  }

  function ExtractOn(e: Engine, o: Order, f: Filters, sort: Option<string>, limit: Option<int>, rows: seq<Row>): Option<seq<Row>> {
    match e
    case Postgres => PostgresRun(o, f, sort, limit, rows)
    case MariaDb => MariaRun(o, f, sort, limit, rows)
    case MsSql => MssqlRun(o, f, sort, limit, rows)
  }

  predicate UrlMeant(o: Order, given: Option<string>, asNull: bool, url: Option<string>) {
    given.Some? ==> if asNull then url.None? else url.Some? && o.text(url.value) == o.text(given.value)
  }

  /** The row passes the filters as they are read. */
  predicate Meant(o: Order, f: Filters, rd: Reading, r: Row)
    requires rd.Reads?
  {
    && TextMatches(o, f.title, r.title) && UrlMeant(o, f.imageUrl, rd.imageNull, r.imageUrl)
    && TextMatches(o, f.feedUrl, r.feedUrl) && UrlMeant(o, f.actualUrl, rd.actualNull, r.actualUrl)
  }

  function MeantRows(o: Order, f: Filters, rd: Reading, rows: seq<Row>): seq<Row>
    requires rd.Reads?
  {
    if rows == [] then []
    else (if Meant(o, f, rd, rows[0]) then [rows[0]] else []) + MeantRows(o, f, rd, rows[1..])
  }

  function MeantPage(o: Order, f: Filters, rd: Reading, limit: nat, rows: seq<Row>): Option<seq<Row>> {
    if rd.Refused? then None else Some(Take(limit, Sort(o, rd.desc, MeantRows(o, f, rd, rows))))
  }

  lemma {:induction false} MatchingMeant(o: Order, isNull: NullWord, f: Filters, rd: Reading, rows: seq<Row>)
    requires rd.Reads? && rd.imageNull == IsWord(isNull, f.imageUrl) && rd.actualNull == IsWord(isNull, f.actualUrl)
    ensures Matching(o, isNull, f, rows) == MeantRows(o, f, rd, rows)
  {
    if rows != [] {
      MatchingMeant(o, isNull, f, rd, rows[1..]);
      WantedReads(o, isNull, f, rows[0]);
    }
  }

  lemma {:induction false} MssqlMeant(o: Order, f: Filters, rd: Reading, rows: seq<Row>)
    requires rd.Reads? && rd.imageNull == rd.actualNull == ImageNull(o.text, f)
    ensures MssqlMatching(o, f, rows) == MeantRows(o, f, rd, rows)
  {
    if rows != [] {
      MssqlMeant(o, f, rd, rows[1..]);
    }
  }

  /** Every engine's procedure means filter, sort, take under its own reading. */
  lemma {:induction false} ExtractMeans(e: Engine, o: Order, f: Filters, sort: Option<string>, limit: Option<int>, rows: seq<Row>)
    ensures ExtractOn(e, o, f, sort, limit, rows) == MeantPage(o, f, ReadingOf(e, o.text, f, sort), LimitOf(limit), rows)
  {
    var rd := ReadingOf(e, o.text, f, sort);
    match e {
      case Postgres =>
        PostgresMeans(o, f, sort, limit, rows);
        if rd.Reads? {
          MatchingMeant(o, PostgresNull, f, rd, rows);
        }
      case MariaDb =>
        MariaMeans(o, f, sort, limit, rows);
        if rd.Reads? {
          MatchingMeant(o, CollatedWord(o.text), f, rd, rows);
        }
      case MsSql =>
        MssqlRuns(o, f, sort, limit, rows);
        MssqlMeant(o, f, rd, rows);
    }
  }

  lemma {:induction false} MeantKeeps(o: Order, f: Filters, rd: Reading, rows: seq<Row>)
    requires rd.Reads?
    ensures RowSet(MeantRows(o, f, rd, rows)) == set r | r in RowSet(rows) && Meant(o, f, rd, r)
  {
    if rows != [] {
      var m, rest := MeantRows(o, f, rd, rows), MeantRows(o, f, rd, rows[1..]);
      MeantKeeps(o, f, rd, rows[1..]);
      assert RowSet(rows) == {rows[0]} + RowSet(rows[1..]);
      if Meant(o, f, rd, rows[0]) {
        assert m == [rows[0]] + rest;
        assert RowSet(m) == {rows[0]} + RowSet(rest);
      } else {
        assert m == rest;
      }
    }
  }

  lemma {:induction false} MeantKeyed(o: Order, f: Filters, rd: Reading, rows: seq<Row>)
    requires rd.Reads? && Keyed(o.text, rows)
    ensures Keyed(o.text, MeantRows(o, f, rd, rows))
  {
    if rows != [] {
      var rest := MeantRows(o, f, rd, rows[1..]);
      MeantKeyed(o, f, rd, rows[1..]);
      MeantKeeps(o, f, rd, rows[1..]);
      forall k | 0 <= k < |rest|
        ensures o.text(rest[k].title) != o.text(rows[0].title)
      {
        assert rest[k] in RowSet(rest);
        var l :| 0 <= l < |rows[1..]| && rows[1..][l] == rest[k];
      }
    }
  }

  // ------------------------------------------------------------------- parity

  /** Two engines hold the same rows, each in its own physical order. */
  predicate SameTable(key: Collation, rows: seq<Row>, rows': seq<Row>) {
    Keyed(key, rows) && Keyed(key, rows') && RowSet(rows) == RowSet(rows')
  }

  /** The collation takes all texts for one. */
  ghost predicate OneKey(key: Collation) {
    forall s: string, t: string :: key(s) == key(t)
  }

  /** Two readings of the given filters are one. The sort direction is of no
      account where at most one row can pass. */
  ghost predicate SameReading(key: Collation, f: Filters, a: Reading, b: Reading) {
    if a.Refused? || b.Refused? then a == b
    else
      && (f.imageUrl.Some? ==> a.imageNull == b.imageNull)
      && (f.actualUrl.Some? ==> a.actualNull == b.actualNull)
      && (a.desc == b.desc || f.title.Some? || OneKey(key))
  }

  lemma {:induction false} MeantAlike(o: Order, f: Filters, a: Reading, b: Reading, r: Row, first: bool)
    requires a.Reads? && b.Reads?
    requires (f.imageUrl.Some? ==> a.imageNull == b.imageNull) && (f.actualUrl.Some? ==> a.actualNull == b.actualNull)
    ensures Meant(o, f, a, r) <==> Meant(o.(nullsFirst := first), f, b, r)
  {
  }

  /** Where a title is asked for, or all texts are one, at most one row passes. */
  lemma {:induction false} AtMostOne(o: Order, f: Filters, rd: Reading, rows: seq<Row>)
    requires rd.Reads? && Keyed(o.text, rows) && (f.title.Some? || OneKey(o.text))
    ensures |MeantRows(o, f, rd, rows)| <= 1
  {
    var m := MeantRows(o, f, rd, rows);
    MeantKeyed(o, f, rd, rows);
    MeantKeeps(o, f, rd, rows);
    assert |m| > 1 ==> o.text(m[0].title) != o.text(m[1].title);
    forall k | 0 <= k < |m|
      ensures f.title.Some? ==> o.text(m[k].title) == o.text(f.title.value)
    {
      assert m[k] in RowSet(m);
    }
  }

  lemma {:induction false} SortOne(o: Order, desc: bool, rows: seq<Row>)
    requires |rows| <= 1
    ensures Sort(o, desc, rows) == rows
  {
    if rows != [] {
      assert rows == [rows[0]] && rows[1..] == [];
    }
  }

  lemma {:induction false} ReadAlike(o: Order, f: Filters, a: Reading, b: Reading, limit: nat, rows: seq<Row>, rows': seq<Row>, first: bool)
    requires SameTable(o.text, rows, rows') && SameReading(o.text, f, a, b)
    ensures MeantPage(o, f, a, limit, rows) == MeantPage(o.(nullsFirst := first), f, b, limit, rows')
  {
    if a.Reads? && b.Reads? {
      var o' := o.(nullsFirst := first);
      var m, m' := MeantRows(o, f, a, rows), MeantRows(o', f, b, rows');
      MeantKeeps(o, f, a, rows);
      MeantKeeps(o', f, b, rows');
      MeantKeyed(o, f, a, rows);
      MeantKeyed(o', f, b, rows');
      forall r: Row
        ensures Meant(o, f, a, r) <==> Meant(o', f, b, r)
      {
        MeantAlike(o, f, a, b, r, first);
      }
      assert RowSet(m) == RowSet(m');
      SortNullsFree(o, a.desc, m, m', first);
      if a.desc != b.desc {
        AtMostOne(o', f, b, rows');
        SortOne(o', a.desc, m');
        SortOne(o', b.desc, m');
      }
    }
  }

  /** A row of any given title that passes the filters as `rd` reads them. */
  function Passing(f: Filters, rd: Reading, title: string): Row
    requires rd.Reads?
  {
    Row(if f.title.Some? then f.title.value else title,
        if rd.imageNull then None else f.imageUrl,
        if f.feedUrl.Some? then f.feedUrl.value else "",
        if rd.actualNull then None else f.actualUrl,
        "", 0, 0)
  }

  lemma {:induction false} PassingPasses(o: Order, f: Filters, rd: Reading, title: string)
    requires rd.Reads?
    ensures Meant(o, f, rd, Passing(f, rd, title))
    ensures forall other: Reading :: other.Reads? && Meant(o, f, other, Passing(f, rd, title)) ==>
      (f.imageUrl.Some? ==> rd.imageNull == other.imageNull) && (f.actualUrl.Some? ==> rd.actualNull == other.actualNull)
  {
  }

  /** Two engines return the same page for this request from these tables. */
  predicate Agree(e: Engine, e': Engine, o: Order, first: bool, f: Filters, sort: Option<string>, limit: Option<int>,
                  rows: seq<Row>, rows': seq<Row>) {
    ExtractOn(e, o, f, sort, limit, rows) == ExtractOn(e', o.(nullsFirst := first), f, sort, limit, rows')
  }

  lemma {:induction false} MeantOne(o: Order, f: Filters, rd: Reading, limit: nat, r: Row)
    requires rd.Reads? && limit >= 1
    ensures MeantPage(o, f, rd, limit, [r]) == Some(if Meant(o, f, rd, r) then [r] else [])
  {
    assert [r][1..] == [];
    assert MeantRows(o, f, rd, [r]) == if Meant(o, f, rd, r) then [r] else [];
    SortOne(o, rd.desc, MeantRows(o, f, rd, [r]));
  }

  /** Where the directions differ and two titles can pass, two rows tell. */
  lemma {:induction false} DirectionTells(o: Order, f: Filters, a: Reading, b: Reading, limit: nat, first: bool, s: string, t: string)
    requires a.Reads? && b.Reads? && a.desc != b.desc && f.title.None? && o.text(s) != o.text(t) && limit >= 1
    requires (f.imageUrl.Some? ==> a.imageNull == b.imageNull) && (f.actualUrl.Some? ==> a.actualNull == b.actualNull)
    ensures var rows := [Passing(f, a, s), Passing(f, a, t)];
            Keyed(o.text, rows) && MeantPage(o, f, a, limit, rows) != MeantPage(o.(nullsFirst := first), f, b, limit, rows)
  {
    var o' := o.(nullsFirst := first);
    var rows := [Passing(f, a, s), Passing(f, a, t)];
    AllPass(o, f, a, rows, s, t);
    MeantAlike(o, f, a, b, rows[0], first);
    MeantAlike(o, f, a, b, rows[1], first);
    AllPassing(o', f, b, rows);
    SortNullsFree(o, b.desc, rows, rows, first);
    FirstRowsDiffer(o, rows);
  }

  /** Two rows come in opposite orders in the two directions. */
  lemma {:induction false} FirstRowsDiffer(o: Order, rows: seq<Row>)
    requires |rows| == 2 && Keyed(o.text, rows)
    ensures |Sort(o, false, rows)| == |Sort(o, true, rows)| == 2 && Sort(o, false, rows)[0] != Sort(o, true, rows)[0]
  {
    DescendingIsReversed(o, rows);
    SortKeeps(o, false, rows);
    SortedApart(o, false, rows, 0, 1);
    var up := Sort(o, false, rows);
    assert Reversed(up)[0] == up[1];
  }

  lemma {:induction false} AllPass(o: Order, f: Filters, rd: Reading, rows: seq<Row>, s: string, t: string)
    requires rd.Reads? && rows == [Passing(f, rd, s), Passing(f, rd, t)]
    ensures Meant(o, f, rd, rows[0]) && Meant(o, f, rd, rows[1]) && MeantRows(o, f, rd, rows) == rows
  {
    PassingPasses(o, f, rd, s);
    PassingPasses(o, f, rd, t);
    AllPassing(o, f, rd, rows);
  }

  lemma {:induction false} AllPassing(o: Order, f: Filters, rd: Reading, rows: seq<Row>)
    requires rd.Reads? && |rows| == 2 && Meant(o, f, rd, rows[0]) && Meant(o, f, rd, rows[1])
    ensures MeantRows(o, f, rd, rows) == rows
  {
    assert rows[1..] == [rows[1]] && rows[1..][1..] == [];
    assert MeantRows(o, f, rd, rows[1..]) == [rows[1]];
  }

  /** Different readings show on some table. */
  lemma {:induction false} ReadingsTell(o: Order, f: Filters, a: Reading, b: Reading, limit: nat, first: bool) returns (rows: seq<Row>)
    requires !SameReading(o.text, f, a, b) && limit >= 1
    ensures Keyed(o.text, rows) && MeantPage(o, f, a, limit, rows) != MeantPage(o.(nullsFirst := first), f, b, limit, rows)
  {
    if a.Refused? || b.Refused? {
      rows := [];
    } else if (f.imageUrl.Some? && a.imageNull != b.imageNull) || (f.actualUrl.Some? && a.actualNull != b.actualNull) {
      var o' := o.(nullsFirst := first);
      var r := Passing(f, a, "");
      PassingPasses(o, f, a, "");
      PassingPasses(o', f, a, "");
      rows := [r];
      MeantOne(o, f, a, limit, r);
      MeantOne(o', f, b, limit, r);
    } else {
      var s: string, t: string :| o.text(s) != o.text(t);
      DirectionTells(o, f, a, b, limit, first, s, t);
      rows := [Passing(f, a, s), Passing(f, a, t)];
    }
  }

  /** Any two engines, one with nulls first or last and each with its own physical
      order, return the same page from every table that they share exactly when
      they read the request alike. */
  lemma {:induction false} ExtractParityLaw(e: Engine, e': Engine, o: Order, first: bool, f: Filters, sort: Option<string>, limit: Option<int>)
    ensures (forall rows, rows' :: SameTable(o.text, rows, rows') ==> Agree(e, e', o, first, f, sort, limit, rows, rows'))
        <==> SameReading(o.text, f, ReadingOf(e, o.text, f, sort), ReadingOf(e', o.text, f, sort))
  {
    var a, b := ReadingOf(e, o.text, f, sort), ReadingOf(e', o.text, f, sort);
    if SameReading(o.text, f, a, b) {
      forall rows, rows' | SameTable(o.text, rows, rows')
        ensures Agree(e, e', o, first, f, sort, limit, rows, rows')
      {
        ExtractMeans(e, o, f, sort, limit, rows);
        ExtractMeans(e', o.(nullsFirst := first), f, sort, limit, rows');
        ReadAlike(o, f, a, b, LimitOf(limit), rows, rows', first);
      }
    } else {
      var rows := ReadingsTell(o, f, a, b, LimitOf(limit), first);
      ExtractMeans(e, o, f, sort, limit, rows);
      ExtractMeans(e', o.(nullsFirst := first), f, sort, limit, rows);
      assert SameTable(o.text, rows, rows) && !Agree(e, e', o, first, f, sort, limit, rows, rows);
    }
  }

  /** The sort texts that the server sends mean one direction on all engines,
      unless a collation takes the two words for one. */
  lemma {:induction false} SentSortsAlike(key: Collation, sort: Option<string>)
    requires sort in {None, Some("asc"), Some("desc")} && key("asc") != key("desc")
    ensures Descending(sort) <==> sort == Some("desc")
    ensures CollatedDescending(key, sort) <==> sort == Some("desc")
  {
    assert Lower("asc") == "asc" && Lower("desc") == "desc";
    assert "asc"[0] != "desc"[0];
  }
}
