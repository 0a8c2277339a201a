/** What a reported success means to a later reader: the row is there, exactly as
    sent, and a GET for its title returns it exactly when cleaning keeps the title. */
module Visibility {
  import opened Feed
  import opened Sql
  import opened Bulk
  import opened BulkLaws
  import opened TableLaws
  import opened Ordering
  import Q = Query
  import X = Extract
  import opened ExtractParity
  import opened Json
  import opened ConditionalGet
  import opened Sanitiser

  /** Row `k` is the item as sent, written by the call. */
  predicate StoredAt(d: Dialect, rows: seq<Row>, p: Item, now: int, k: int) {
    0 <= k < |rows| && Names(d, p, rows[k]) && IsStored(rows[k], p) && rows[k].modified == now
  }

  /** A row that an insert stores has the title of its item. */
  lemma {:induction false} InsertTitled(d: Dialect, rows: seq<Row>, ps: seq<Item>, now: int, p: Item, k: nat)
    requires Apply(d, Insert, rows, ps, now).Done? && Keyed(d.key, Apply(d, Insert, rows, ps, now).rows)
    requires p in Admitted(d, rows, ps) && StoredAt(d, Apply(d, Insert, rows, ps, now).rows, p, now, k)
    ensures p.title == Some(Apply(d, Insert, rows, ps, now).rows[k].title)
  {
    var admitted := Admitted(d, rows, ps);
    AdmittedAreItems(d, rows, ps);
    var j :| 0 <= j < |admitted| && admitted[j] == p;
    assert Apply(d, Insert, rows, ps, now).rows[|rows| + j] == NewRow(p, now);
  }

  lemma {:induction false} InsertStores(d: Dialect, rows: seq<Row>, ps: seq<Item>, now: int, p: Item) returns (k: nat)
    requires Apply(d, Insert, rows, ps, now).Done? && p in Admitted(d, rows, ps)
    ensures var rows' := Apply(d, Insert, rows, ps, now).rows;
            StoredAt(d, rows', p, now, k) && rows'[k].created == now
  {
    var admitted := Admitted(d, rows, ps);
    AdmittedAreItems(d, rows, ps);
    var j :| 0 <= j < |admitted| && admitted[j] == p;
    k := |rows| + j;
    assert Apply(d, Insert, rows, ps, now).rows[k] == NewRows(admitted, now)[j] == NewRow(p, now);
  }

  lemma {:induction false} UpdateStores(d: Dialect, rows: seq<Row>, ps: seq<Item>, now: int, p: Item) returns (k: nat)
    requires Tidy(d, ps) && Apply(d, Update, rows, ps, now).Done? && p in ps
    requires exists k :: 0 <= k < |rows| && Hits(d, p, rows[k])
    ensures var rows' := Apply(d, Update, rows, ps, now).rows;
            |rows'| == |rows| && StoredAt(d, rows', p, now, k)
            && rows'[k].created == rows[k].created && rows'[k].title == rows[k].title
  {
    k :| 0 <= k < |rows| && Hits(d, p, rows[k]);
    OnlyItself(d, ps, p);
    assert HitOn(d, rows[k], ps) == Some(p);
  }

  /** An item answered with a success stands in the table in exactly one row, with
      every value as sent and the time of the call. */
  lemma {:induction false} SuccessIsStored(d: Dialect, mode: Mode, rows: seq<Row>, ps: seq<Item>, now: int, i: nat) returns (k: nat)
    requires Keyed(d.key, rows) && Tidy(d, ps) && !mode.Delete? && i < |ps|
    requires var a := Apply(d, mode, rows, ps, now);
             a.Done? && i < |a.outcomes| && StatusOf(a.outcomes[i]) == Success
    ensures var rows' := Apply(d, mode, rows, ps, now).rows;
            && Keyed(d.key, rows') && StoredAt(d, rows', ps[i], now, k)
            && forall j :: 0 <= j < |rows'| && Clashes(d, ps[i], rows'[j]) ==> j == k
  {
    AnswerLaw(d, mode, rows, ps);
    TidyKeyed(d, mode, rows, ps, now);
    if mode.Insert? {
      k := InsertStores(d, rows, ps, now, ps[i]);
    } else {
      k := UpdateStores(d, rows, ps, now, ps[i]);
    }
  }

  /** An update that skips an item as existing leaves its row alone, and the row
      differs from the item in no way that the engine can see. */
  lemma {:induction false} SkipIsSeen(d: Dialect, rows: seq<Row>, ps: seq<Item>, now: int, i: nat) returns (k: nat)
    requires Keyed(d.key, rows) && Tidy(d, ps) && i < |ps|
    requires var a := Apply(d, Update, rows, ps, now);
             a.Done? && i < |a.outcomes| && a.outcomes[i] == SkippedExists
    ensures var rows' := Apply(d, Update, rows, ps, now).rows;
      && k < |rows| == |rows'| && Names(d, ps[i], rows[k]) && rows'[k] == rows[k]
      && match d.engine
         case Postgres => IsStored(rows[k], ps[i])
         case MariaDb => LooksStored(d.key, rows[k], ps[i])
         case MsSql =>
           && !Differ(d.key, Some(rows[k].feedUrl), ps[i].feedUrl)
           && !Differ(d.key, rows[k].imageUrl, ps[i].imageUrl)
           && !Differ(d.key, rows[k].actualUrl, ps[i].actualUrl)
           && (ps[i].publishDate.Some? ==> ps[i].publishDate.value == rows[k].publishDate)
  {
    AnswerLaw(d, Update, rows, ps);
    k :| 0 <= k < |rows| && Names(d, ps[i], rows[k]);
    OnlyItself(d, ps, ps[i]);
    assert !Hits(d, ps[i], rows[k]);
    assert HitOn(d, rows[k], ps).None?;
    if d.engine.MsSql? {
      MssqlSeesOnlyValueChanges(d.key, rows[k], ps[i]);
    }
  }

  // ------------------------------------------------------------ reading it back

  /** The cleaned title filter still equals the title under the collation. */
  predicate TitleKept(reader: Reader, title: string) {
    && reader.clean(Q.Title, title).Some?
    && reader.dialect.key(reader.clean(Q.Title, title).value) == reader.dialect.key(title)
  }

  function ReadingFor(reader: Reader, p: ExtractParams): Reading {
    ReadingOf(reader.dialect.engine, reader.dialect.key, FiltersOf(reader, p), SortText(p))
  }

  lemma {:induction false} FetchMeans(reader: Reader, p: ExtractParams, rows: seq<Row>)
    ensures Fetch(reader, p, rows)
         == MeantPage(OrderOf(reader), FiltersOf(reader, p), ReadingFor(reader, p), X.LimitOf(LimitArgument(p)), rows)
  {
    ExtractMeans(reader.dialect.engine, OrderOf(reader), FiltersOf(reader, p), SortText(p), LimitArgument(p), rows);
  }

  lemma {:induction false} NoneMeant(o: Order, f: Q.Filters, rd: Reading, rows: seq<Row>)
    requires rd.Reads? && f.title.Some?
    requires forall j :: 0 <= j < |rows| ==> o.text(rows[j].title) != o.text(f.title.value)
    ensures MeantRows(o, f, rd, rows) == []
  {
    if rows != [] {
      NoneMeant(o, f, rd, rows[1..]);
    }
  }

  lemma {:induction false} OneMeant(o: Order, f: Q.Filters, rd: Reading, rows: seq<Row>, k: nat)
    requires rd.Reads? && f.title.Some? && Keyed(o.text, rows)
    requires k < |rows| && o.text(rows[k].title) == o.text(f.title.value)
    ensures MeantRows(o, f, rd, rows) == if Meant(o, f, rd, rows[k]) then [rows[k]] else []
  {
    if k == 0 {
      NoneMeant(o, f, rd, rows[1..]);
    } else {
      OneMeant(o, f, rd, rows[1..], k - 1);
    }
  }

  /** A kept title finds its row, whatever the other filters are: alone when the row
      passes them, nothing when it does not, unless the engine refuses them. */
  lemma {:induction false} KeptTitleFinds(reader: Reader, p: ExtractParams, rows: seq<Row>, k: nat)
    requires Keyed(reader.dialect.key, rows) && k < |rows|
    requires p.title.Some? && TitleKept(reader, p.title.value)
    requires reader.dialect.key(p.title.value) == reader.dialect.key(rows[k].title)
    ensures var f, rd := FiltersOf(reader, p), ReadingFor(reader, p);
      Fetch(reader, p, rows)
        == if rd.Refused? then None
           else Some(if Meant(OrderOf(reader), f, rd, rows[k]) then [rows[k]] else [])
  {
    var o, f, rd := OrderOf(reader), FiltersOf(reader, p), ReadingFor(reader, p);
    FetchMeans(reader, p, rows);
    if rd.Reads? {
      OneMeant(o, f, rd, rows, k);
      SortOne(o, rd.desc, MeantRows(o, f, rd, rows));
    }
  }

  /** A request for a title and nothing else. */
  predicate AsksTitle(p: ExtractParams, title: string) {
    p.title == Some(title) && p.imageUrl.None? && p.feedUrl.None? && p.actualUrl.None?
  }

  lemma {:induction false} TitleReading(reader: Reader, p: ExtractParams, title: string)
    requires AsksTitle(p, title)
    ensures ReadingFor(reader, p).Reads?
    ensures forall r :: Meant(OrderOf(reader), FiltersOf(reader, p), ReadingFor(reader, p), r)
                   <==> Q.TextMatches(OrderOf(reader), reader.clean(Q.Title, title), r.title)
  {
  }

  lemma {:induction false} AllMeant(o: Order, f: Q.Filters, rd: Reading, rows: seq<Row>)
    requires rd.Reads? && forall r :: Meant(o, f, rd, r)
    ensures MeantRows(o, f, rd, rows) == rows
  {
    if rows != [] {
      AllMeant(o, f, rd, rows[1..]);
    }
  }

  /** A title that cleaning drops is not asked for at all: any rows come back. */
  lemma {:induction false} DroppedTitleShowsAll(reader: Reader, p: ExtractParams, rows: seq<Row>, title: string)
    requires AsksTitle(p, title) && reader.clean(Q.Title, title).None?
    ensures var limit, page := X.LimitOf(LimitArgument(p)), Fetch(reader, p, rows);
            page.Some? && |page.value| == if |rows| <= limit then |rows| else limit
  {
    var o, f, rd := OrderOf(reader), FiltersOf(reader, p), ReadingFor(reader, p);
    FetchMeans(reader, p, rows);
    TitleReading(reader, p, title);
    AllMeant(o, f, rd, rows);
    SortKeeps(o, rd.desc, rows);
  }

  /** A title that cleaning changes under the collation finds only other rows. */
  lemma {:induction false} ChangedTitleMisses(reader: Reader, p: ExtractParams, rows: seq<Row>, title: string, r: Row)
    requires AsksTitle(p, title) && reader.clean(Q.Title, title).Some? && !TitleKept(reader, title)
    requires reader.dialect.key(r.title) == reader.dialect.key(title)
    ensures Fetch(reader, p, rows).Some? && r !in Fetch(reader, p, rows).value
  {
    var o, f, rd := OrderOf(reader), FiltersOf(reader, p), ReadingFor(reader, p);
    FetchMeans(reader, p, rows);
    TitleReading(reader, p, title);
    var m := MeantRows(o, f, rd, rows);
    MeantKeeps(o, f, rd, rows);
    SortKeeps(o, rd.desc, m);
    assert forall x :: x in Fetch(reader, p, rows).value ==> x in RowSet(Sort(o, rd.desc, m));
  }

  /** Whoever reads a success and then asks for the title gets the row, with the
      values sent, alone. On a table of two or more rows and a limit of two or more
      this is so exactly when cleaning keeps the title under the collation. */
  lemma {:induction false} ReadYourWrites(reader: Reader, p: ExtractParams, mode: Mode, rows: seq<Row>, ps: seq<Item>, now: int, i: nat)
    returns (k: nat)
    requires Keyed(reader.dialect.key, rows) && Tidy(reader.dialect, ps) && !mode.Delete? && i < |ps|
    requires var a := Apply(reader.dialect, mode, rows, ps, now);
             a.Done? && i < |a.outcomes| && StatusOf(a.outcomes[i]) == Success
    requires AsksTitle(p, ps[i].title.value)
    ensures var d, rows' := reader.dialect, Apply(reader.dialect, mode, rows, ps, now).rows;
      && StoredAt(d, rows', ps[i], now, k)
      && (TitleKept(reader, ps[i].title.value) ==> Fetch(reader, p, rows') == Some([rows'[k]]))
      && (|rows'| >= 2 && X.LimitOf(LimitArgument(p)) >= 2 ==>
            (Fetch(reader, p, rows') == Some([rows'[k]]) <==> TitleKept(reader, ps[i].title.value)))
  {
    var rows' := Apply(reader.dialect, mode, rows, ps, now).rows;
    var title := ps[i].title.value;
    k := SuccessIsStored(reader.dialect, mode, rows, ps, now, i);
    TitleReading(reader, p, title);
    if TitleKept(reader, title) {
      KeptTitleFinds(reader, p, rows', k);
    } else if reader.clean(Q.Title, title).Some? {
      ChangedTitleMisses(reader, p, rows', title, rows'[k]);
    } else {
      DroppedTitleShowsAll(reader, p, rows', title);
    }
  }

  // ------------------------------------------------------------------- on MSSQL

  /** The title filter of MSSQL: 255 characters of a whitelist that is not blank. */
  ghost predicate MssqlTitles(reader: Reader, list: string) {
    reader.dialect.engine.MsSql? && TrimEnd(list) != "" && forall s: string :: reader.clean(Q.Title, s) == Sanitised(list, 255, s)
  }

  /** A clean title is kept; where the collation tells all texts apart, no other is. */
  lemma {:induction false} MssqlKeepsClean(reader: Reader, list: string, title: string)
    requires MssqlTitles(reader, list)
    ensures Clean(list, 255, title) ==> TitleKept(reader, title)
    ensures (forall s: string :: reader.dialect.key(s) == reader.dialect.key(title) ==> s == title) ==>
              (TitleKept(reader, title) <==> Clean(list, 255, title))
  {
    CleanIsFixed(list, 255, title);
  }

  /** A title without any listed character is dropped, and so shows the table. */
  lemma {:induction false} MssqlDropsUnlisted(reader: Reader, list: string, p: ExtractParams, rows: seq<Row>, title: string)
    requires MssqlTitles(reader, list) && AsksTitle(p, title)
    requires forall j :: 0 <= j < |title| ==> title[j] == ' ' || title[j] !in Whitelist(list)
    ensures var limit, page := X.LimitOf(LimitArgument(p)), Fetch(reader, p, rows);
            page.Some? && |page.value| == if |rows| <= limit then |rows| else limit
  {
    SanitisedNull(list, 255, title);
    DroppedTitleShowsAll(reader, p, rows, title);
  }
}
