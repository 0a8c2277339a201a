/** One small request, or run of requests, for each way in which reading parts from
    what is expected. */
module ReadExamples {
  import opened Feed
  import opened Bulk
  import opened TableLaws
  import opened Ordering
  import Q = Query
  import X = Extract
  import opened ExtractParity
  import opened Json
  import opened Sanitiser
  import opened Survivors
  import opened ConditionalGet
  import opened CacheSafety
  import opened CacheLimits
  import opened Visibility
  import opened Examples

  // -------------------------------------------------------------- the word null

  /** An image filter NULL: Postgres fails on every table, MariaDB finds the rows
      without image. */
  lemma {:induction false} CapitalNull(o: Order, f: Q.Filters, sort: Option<string>, limit: Option<int>, r: Row)
    requires f == Q.Filters(None, Some("NULL"), None, None) && r.imageUrl.None? && X.CaseBlindOrExact(o.text)
    ensures forall rows :: ExtractOn(Postgres, o, f, sort, limit, rows) == None
    ensures ExtractOn(MariaDb, o, f, sort, limit, [r]) == Some([r])
  {
    NullWords(o.text, f);
    forall rows
      ensures ExtractOn(Postgres, o, f, sort, limit, rows) == None
    {
      ExtractMeans(Postgres, o, f, sort, limit, rows);
    }
    X.NoneUnlowered(o.text, f.imageUrl);
    ExtractMeans(MariaDb, o, f, sort, limit, [r]);
    MeantOne(o, f, ReadingOf(MariaDb, o.text, f, sort), X.LimitOf(limit), r);
  }

  lemma {:induction false} NullWords(key: Collation, f: Q.Filters)
    requires f == Q.Filters(None, Some("NULL"), None, None)
    ensures X.Shouted(f.imageUrl) && X.CollatedNull(key, f.imageUrl.value)
  {
    assert X.Lower("NULL") == "null";
    assert "NULL"[0] != "null"[0];
  }

  /** An image filter "n\U{FC}ll" where the collation is blind to accents: a text that no
      row has on Postgres, the null word on MariaDB. */
  lemma {:induction false} AccentedNull(o: Order, f: Q.Filters, sort: Option<string>, limit: Option<int>, r: Row)
    requires f == Q.Filters(None, Some("n\U{FC}ll"), None, None) && r.imageUrl.None?
    requires o.text("n\U{FC}ll") == o.text("null")
    ensures ExtractOn(Postgres, o, f, sort, limit, [r]) == Some([])
    ensures ExtractOn(MariaDb, o, f, sort, limit, [r]) == Some([r])
  {
    assert X.Lower("n\U{FC}ll") == "n\U{FC}ll";
    assert "n\U{FC}ll"[1] != "null"[1];
    var a, b := ReadingOf(Postgres, o.text, f, sort), ReadingOf(MariaDb, o.text, f, sort);
    assert a.Reads? && !a.imageNull && b.Reads? && b.imageNull;
    ExtractMeans(Postgres, o, f, sort, limit, [r]);
    ExtractMeans(MariaDb, o, f, sort, limit, [r]);
    MeantOne(o, f, a, X.LimitOf(limit), r);
    MeantOne(o, f, b, X.LimitOf(limit), r);
  }

  /** An actual URL filter null: Postgres finds a row without actual URL, MSSQL asks
      for the text. */
  lemma {:induction false} ActualNull(o: Order, f: Q.Filters, sort: Option<string>, limit: Option<int>, r: Row)
    requires f == Q.Filters(None, None, None, Some("null")) && r.actualUrl.None?
    ensures ExtractOn(Postgres, o, f, sort, limit, [r]) == Some([r])
    ensures ExtractOn(MsSql, o, f, sort, limit, [r]) == Some([])
  {
    assert X.Lower("null") == "null";
    var a, b := ReadingOf(Postgres, o.text, f, sort), ReadingOf(MsSql, o.text, f, sort);
    assert a.Reads? && a.actualNull && !b.actualNull;
    ExtractMeans(Postgres, o, f, sort, limit, [r]);
    ExtractMeans(MsSql, o, f, sort, limit, [r]);
    MeantOne(o, f, a, X.LimitOf(limit), r);
    MeantOne(o, f, b, X.LimitOf(limit), r);
  }

  // ------------------------------------------------------ titles not read back

  /** A title with two inner spaces, stored as sent, is not what MSSQL's cleaned
      filter asks for: where the collation tells texts apart its row is not found. */
  lemma {:induction false} DoubleSpaceLost(reader: Reader, list: string, p: ExtractParams, rows: seq<Row>, k: nat, title: string)
    requires title == "A  B" && MssqlTitles(reader, list) && AsksTitle(p, title)
    requires forall s: string :: reader.dialect.key(s) == reader.dialect.key(title) ==> s == title
    requires Keyed(reader.dialect.key, rows) && k < |rows| && rows[k].title == title
    requires |rows| >= 2 && X.LimitOf(LimitArgument(p)) >= 2
    ensures !TitleKept(reader, title) && Fetch(reader, p, rows) != Some([rows[k]])
  {
    assert title[1] == ' ' && title[1 + 1] == ' ';
    MssqlKeepsClean(reader, list, title);
    if reader.clean(Q.Title, title).Some? {
      ChangedTitleMisses(reader, p, rows, title, rows[k]);
    } else {
      DroppedTitleShowsAll(reader, p, rows, title);
    }
  }

  /** A title of which no character is listed brings up the table. */
  lemma {:induction false} UnlistedTitleShowsAll(reader: Reader, list: string, p: ExtractParams, rows: seq<Row>, title: string)
    requires title == "\U{65E5}\U{672C}" && title[0] !in Whitelist(list) && title[1] !in Whitelist(list)
    requires MssqlTitles(reader, list) && AsksTitle(p, title)
    ensures var limit, page := X.LimitOf(LimitArgument(p)), Fetch(reader, p, rows);
            page.Some? && |page.value| == if |rows| <= limit then |rows| else limit
  {
    MssqlDropsUnlisted(reader, list, p, rows, title);
  }

  // --------------------------------------------------------------- stale bodies

  lemma {:induction false} ThreeSteps(site: Site, s: State, events: seq<Event>)
    requires s.versions != [] && |events| == 3 && Enabled(s, events[0])
    requires Enabled(Next(site, s, events[0]), events[1])
    requires Enabled(Next(site, Next(site, s, events[0]), events[1]), events[2])
    ensures Legal(site, s, events)
    ensures Run(site, s, events) == Next(site, Next(site, Next(site, s, events[0]), events[1]), events[2])
  {
    var e1, e2 := events[1..], events[1..][1..];
    assert e1[0] == events[1] && e2[0] == events[2] && e2[1..] == [];
    var s1 := Next(site, s, events[0]);
    var s2 := Next(site, s1, e1[0]);
    var s3 := Next(site, s2, e2[0]);
    assert Legal(site, s3, e2[1..]) && Run(site, s3, e2[1..]) == s3;
    assert Legal(site, s2, e2) && Run(site, s2, e2) == s3;
    assert Legal(site, s1, e1) && Run(site, s1, e1) == s3;
  }

  /** The table after the older of two rows has been deleted. */
  lemma {:induction false} OlderDeleted(d: Dialect, rows: seq<Row>, p: Item, now: int)
    requires PlainItem(d.cast, p) && |rows| == 2 && Names(d, p, rows[0]) && !Names(d, p, rows[1])
    ensures AfterCall(d, Delete, rows, [p], now) == [rows[1]]
  {
    ReadPlain(d, Delete, rows, [p], now);
    assert p in [p] && Doomed(d, rows[0], [p]) && !Doomed(d, rows[1], [p]);
    assert rows[1..] == [rows[1]] && rows[1..][1..] == [];
    assert DeleteRows(d, rows[1..], [p]) == [rows[1]];
  }

  /** The client asks, gets the table, the older row is deleted, and the client asks
      again with its tag. */
  function AskDelete(p: ExtractParams, item: Item): seq<Event> {
    [Ask(p, None, true), Finish(0, true), Write(Delete, [item], 3)]
  }

  lemma {:induction false} AskedAndDeleted(site: Site, p: ExtractParams, item: Item, rows: seq<Row>)
    requires PlainItem(site.dialect.cast, item) && |rows| == 2 && Names(site.dialect, item, rows[0]) && !Names(site.dialect, item, rows[1])
    requires MaxModified(rows) == Some(2) && site.read(p, rows).Some?
    ensures Legal(site, Start(rows, 2), AskDelete(p, item))
    ensures var s := Run(site, Start(rows, 2), AskDelete(p, item));
      && s.versions == [Version(2, rows), Version(3, [rows[1]])]
      && s.held == [Entry(p, site.dateTag(2, p), site.body(site.read(p, rows).value), Some(0), 0)]
  {
    var events := AskDelete(p, item);
    var s0 := Start(rows, 2);
    var s1 := Next(site, s0, events[0]);
    assert s1.versions == s0.versions && s1.held == [];
    assert s1.pending == [Pending(p, None, Some(site.dateTag(2, p)), 0)];
    var s2 := Next(site, s1, events[1]);
    assert s2.versions == s0.versions;
    assert s2.held == [Entry(p, site.dateTag(2, p), site.body(site.read(p, rows).value), Some(0), 0)];
    OlderDeleted(site.dialect, rows, item, 3);
    ThreeSteps(site, s0, events);
  }

  /** The client is told by 304 that its body is current when it is not. */
  predicate GoesStale(site: Site, p: ExtractParams, rows: seq<Row>, item: Item) {
    && Legal(site, Start(rows, 2), AskDelete(p, item))
    && var s := Run(site, Start(rows, 2), AskDelete(p, item));
      && |s.held| == 1 && s.held[0].params == p
      && Sent(site, s, Ask(p, Some(s.held[0].tag), true)) == Some(NotModified(s.held[0].tag))
      && !Truthful(site, Newest(s), p, s.held[0].body)
  }

  lemma {:induction false} StaleRun(site: Site, p: ExtractParams, item: Item, rows: seq<Row>)
    requires PlainItem(site.dialect.cast, item) && |rows| == 2 && Names(site.dialect, item, rows[0]) && !Names(site.dialect, item, rows[1])
    requires MaxModified(rows) == Some(2) && MaxModified([rows[1]]) == Some(2) && site.read(p, rows).Some?
    requires site.read(p, [rows[1]]).Some? ==> site.body(site.read(p, [rows[1]]).value) != site.body(site.read(p, rows).value)
    ensures GoesStale(site, p, rows, item)
  {
    AskedAndDeleted(site, p, item, rows);
  }

  /** Of the rows "A" and "B" a client has seen, "A" is deleted; its tag, made from the
      date of "B", still answers 304 while the table gives another body. */
  lemma {:induction false} StaleAfterDelete(reader: Reader, show: string -> string, stamp: int -> string, hash: string -> string,
                         site: Site, p: ExtractParams, item: Item, rows: seq<Row>)
    requires site == SiteOf(reader, show, stamp, hash) && p == ExtractParams(None, None, None, None, Some(25), None)
    requires item == Sample("A") && rows == [Stored("A", 1), Stored("B", 2)] && StoresDate(reader.dialect.cast)
    requires reader.dialect.key("A") != reader.dialect.key("B")
    ensures GoesStale(site, p, rows, item)
  {
    TwoStored(reader.dialect, item, rows);
    OneRowMissing(reader, show, p, rows);
    StaleRun(site, p, item, rows);
  }

  lemma {:induction false} TwoStored(d: Dialect, item: Item, rows: seq<Row>)
    requires item == Sample("A") && rows == [Stored("A", 1), Stored("B", 2)] && StoresDate(d.cast) && d.key("A") != d.key("B")
    ensures PlainItem(d.cast, item) && Names(d, item, rows[0]) && !Names(d, item, rows[1])
    ensures MaxModified(rows) == Some(2) && MaxModified([rows[1]]) == Some(2)
  {
    SamplePlain(d.cast, "A");
    assert "A"[0] != "B"[0];
    MaxModifiedIsMax(rows, 2);
    MaxModifiedIsMax([rows[1]], 2);
  }

  /** One row and two rows give two bodies. */
  lemma {:induction false} OneRowMissing(reader: Reader, show: string -> string, p: ExtractParams, rows: seq<Row>)
    requires |rows| == 2 && p == ExtractParams(None, None, None, None, Some(25), None)
    ensures var now, shown := Fetch(reader, p, [rows[1]]), Fetch(reader, p, rows);
            now.Some? && shown.Some? && BodyText(show, now.value) != BodyText(show, shown.value)
  {
    UnfilteredCount(reader, p, rows);
    UnfilteredCount(reader, p, [rows[1]]);
    var now, shown := Fetch(reader, p, [rows[1]]).value, Fetch(reader, p, rows).value;
    if BodyText(show, now) == BodyText(show, shown) {
      BodyTellsCount(show, now, shown);
    }
  }

  /** Two inserts within one tick of the clock: the table changes, its newest date does
      not. */
  lemma {:induction false} OneTickTwoWrites(d: Dialect, p: Item, q: Item, t: int)
    requires p == Sample("A") && q == Sample("B") && d.key("A") != d.key("B") && StoresDate(d.cast)
    ensures Storable(p) && Storable(q)
    ensures Exec(d, Insert, [NewRow(p, t)], [q], t) == Done([NewRow(p, t), NewRow(q, t)], [Inserted])
    ensures MaxModified([NewRow(p, t)]) == MaxModified([NewRow(p, t), NewRow(q, t)]) == Some(t)
  {
    SamplePlain(d.cast, "B");
    ReadPlain(d, Insert, [NewRow(p, t)], [q], t);
    NewBeside(d, p, q, t);
    MaxModifiedIsMax([NewRow(p, t)], t);
    MaxModifiedIsMax([NewRow(p, t), NewRow(q, t)], t);
  }

  lemma {:induction false} NewBeside(d: Dialect, p: Item, q: Item, t: int)
    requires Storable(p) && Storable(q) && d.key(p.title.value) != d.key(q.title.value)
    ensures Apply(d, Insert, [NewRow(p, t)], [q], t) == Done([NewRow(p, t), NewRow(q, t)], [Inserted])
  {
    var rows := [NewRow(p, t)];
    OneAdmitted(d, rows, q);
    InsertKnown(d, rows, [q], [q], [Inserted], t);
    assert rows + NewRows([q], t) == [NewRow(p, t), NewRow(q, t)];
  }

  lemma {:induction false} OneAdmitted(d: Dialect, rows: seq<Row>, q: Item)
    requires q.title.Some? && Fresh(d, rows, q) && Keyed(d.key, rows)
    ensures Admitted(d, rows, [q]) == [q] && Outcomes(d, Insert, rows, [q]) == [Inserted]
  {
    AdmitsOne(d, rows, q);
    AnswerLaw(d, Insert, rows, [q]);
    assert Outcomes(d, Insert, rows, [q])[0] == Inserted;
  }

  lemma {:induction false} AdmitsOne(d: Dialect, rows: seq<Row>, q: Item)
    requires Fresh(d, rows, q)
    ensures Admitted(d, rows, [q]) == [q]
  {
    assert [q][..0] == [];
  }
}
