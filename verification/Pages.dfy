/** The pages that clients get: which rows, in which order, and how many. */
module Pages {
  import opened Feed
  import opened Bulk
  import opened TableLaws
  import opened Ordering
  import Q = Query
  import X = Extract
  import opened ExtractParity
  import opened Json
  import opened ConditionalGet
  import opened Visibility
  import L = Limit

  // ------------------------------------------------------- what a request asks

  /** The word that asks for a missing URL: exactly `null` on Postgres, whatever is
      that in lower case under the collation on the others. */
  predicate AsksNone(e: Engine, key: Collation, given: string) {
    if e.Postgres? then given == "null" else key(X.Lower(given)) == key("null")
  }

  /** The spelling of that word on which an engine fails: capitals on Postgres, on
      MariaDB what is that word under the collation but not in lower case. */
  predicate Trips(e: Engine, key: Collation, given: Option<string>) {
    given.Some? &&
    match e
    case Postgres => X.Lower(given.value) == "null" && given.value != "null"
    case MariaDb => key(given.value) == key("null") && key(X.Lower(given.value)) != key("null")
    case MsSql => false
  }

  predicate HasText(key: Collation, given: Option<string>, text: string) {
    given.Some? ==> key(text) == key(given.value)
  }

  predicate HasUrl(key: Collation, given: Option<string>, none: bool, url: Option<string>) {
    given.Some? ==> if none then url.None? else url.Some? && key(url.value) == key(given.value)
  }

  /** The row passes the cleaned filters. MSSQL takes the actual URL filter for the
      null word when the image filter is that. */
  predicate Passes(e: Engine, key: Collation, title: Option<string>, image: Option<string>, feed: Option<string>,
                   actual: Option<string>, r: Row) {
    && HasText(key, title, r.title)
    && HasUrl(key, image, image.Some? && AsksNone(e, key, image.value), r.imageUrl)
    && HasText(key, feed, r.feedUrl)
    && HasUrl(key, actual,
              if e.MsSql? then image.Some? && AsksNone(e, key, image.value) else actual.Some? && AsksNone(e, key, actual.value),
              r.actualUrl)
  }

  // --------------------------------------------------------------- the procedures

  lemma {:induction false} PassesIsMeant(e: Engine, o: Order, f: Q.Filters, sort: Option<string>, r: Row)
    requires ReadingOf(e, o.text, f, sort).Reads?
    ensures Meant(o, f, ReadingOf(e, o.text, f, sort), r)
       <==> Passes(e, o.text, f.title, f.imageUrl, f.feedUrl, f.actualUrl, r)
  {
    assert X.Lower("null") == "null";
  }

  /** Every engine's procedure, for the sort texts that the server sends: it fails on a
      spelling that it trips on, and else returns the first rows of those that pass. */
  lemma {:induction false} ExtractPage(e: Engine, o: Order, f: Q.Filters, sort: Option<string>, limit: Option<int>, rows: seq<Row>)
    requires Keyed(o.text, rows) && sort in {None, Some("asc"), Some("desc")}
    requires e.Postgres? || o.text("asc") != o.text("desc")
    ensures ExtractOn(e, o, f, sort, limit, rows).None? <==> Trips(e, o.text, f.imageUrl) || Trips(e, o.text, f.actualUrl)
    ensures ExtractOn(e, o, f, sort, limit, rows).Some? ==>
      FirstRows(o, sort == Some("desc"), if limit.Some? && 1 <= limit.value <= 100 then limit.value else 25,
                (set r | r in rows && Passes(e, o.text, f.title, f.imageUrl, f.feedUrl, f.actualUrl, r)),
                ExtractOn(e, o, f, sort, limit, rows).value)
  {
    var rd := ReadingOf(e, o.text, f, sort);
    ExtractMeans(e, o, f, sort, limit, rows);
    SortsAsSent(e, o.text, f, sort);
    if rd.Reads? {
      forall r: Row
        ensures Meant(o, f, rd, r) <==> Passes(e, o.text, f.title, f.imageUrl, f.feedUrl, f.actualUrl, r)
      {
        PassesIsMeant(e, o, f, sort, r);
      }
      MeantFirst(o, f, rd, X.LimitOf(limit), rows, set r | r in rows && Passes(e, o.text, f.title, f.imageUrl, f.feedUrl, f.actualUrl, r));
    }
  }

  lemma {:induction false} SortsAsSent(e: Engine, key: Collation, f: Q.Filters, sort: Option<string>)
    requires sort in {None, Some("asc"), Some("desc")} && (e.Postgres? || key("asc") != key("desc"))
    ensures ReadingOf(e, key, f, sort).Reads? ==> (ReadingOf(e, key, f, sort).desc <==> sort == Some("desc"))
  {
    assert X.Lower("asc") == "asc" && X.Lower("desc") == "desc";
    assert "asc"[0] != "desc"[0];
  }

  lemma {:induction false} MeantFirst(o: Order, f: Q.Filters, rd: Reading, limit: nat, rows: seq<Row>, passing: set<Row>)
    requires rd.Reads? && Keyed(o.text, rows) && passing == set r | r in rows && Meant(o, f, rd, r)
    ensures FirstRows(o, rd.desc, limit, passing, MeantPage(o, f, rd, limit, rows).value)
  {
    var m := MeantRows(o, f, rd, rows);
    MeantKeeps(o, f, rd, rows);
    MeantKeyed(o, f, rd, rows);
    assert RowSet(m) == passing;
    TakeIsFirst(o, rd.desc, limit, m);
  }

  // ------------------------------------------------------------------ the request

  /** A parameter as cleaned for its column. */
  function Kept(reader: Reader, c: Q.Column, given: Option<string>): Option<string> {
    if given.Some? then reader.clean(c, given.value) else None
  }

  predicate AskedRow(reader: Reader, p: ExtractParams, r: Row) {
    Passes(reader.dialect.engine, reader.dialect.key, Kept(reader, Q.Title, p.title), Kept(reader, Q.ImageUrl, p.imageUrl),
           Kept(reader, Q.FeedUrl, p.feedUrl), Kept(reader, Q.ActualUrl, p.actualUrl), r)
  }

  /** What a GET reads from a keyed table: newest first exactly when `desc` is asked for,
      25 rows unless a limit of 1 to 100 is given, and of the rows that pass the cleaned
      filters, each on its own column, the first. There is only one such page. */
  lemma {:induction false} FetchPage(reader: Reader, p: ExtractParams, rows: seq<Row>)
    requires Keyed(reader.dialect.key, rows)
    requires reader.dialect.engine.Postgres? || reader.dialect.key("asc") != reader.dialect.key("desc")
    ensures Fetch(reader, p, rows).None? <==>
      || Trips(reader.dialect.engine, reader.dialect.key, Kept(reader, Q.ImageUrl, p.imageUrl))
      || Trips(reader.dialect.engine, reader.dialect.key, Kept(reader, Q.ActualUrl, p.actualUrl))
    ensures Fetch(reader, p, rows).Some? ==>
      FirstRows(Order(reader.dialect.key, reader.dateKey, reader.nullsFirst), p.sort == Some(Desc),
                if p.limit.Some? && 1 <= p.limit.value <= 100 then p.limit.value else 25,
                (set r | r in rows && AskedRow(reader, p, r)), Fetch(reader, p, rows).value)
  {
    var f, sort, limit := FiltersOf(reader, p), SortText(p), LimitArgument(p);
    RequestMeans(reader, p, f, sort, limit);
    FetchExtracts(reader, p, rows, f, sort, limit);
    assert (set r | r in rows && AskedRow(reader, p, r))
        == (set r | r in rows && Passes(reader.dialect.engine, reader.dialect.key, f.title, f.imageUrl, f.feedUrl, f.actualUrl, r));
  }

  /** How the parameters reach the procedure. */
  lemma {:induction false} RequestMeans(reader: Reader, p: ExtractParams, f: Q.Filters, sort: Option<string>, limit: Option<int>)
    requires f == FiltersOf(reader, p) && sort == SortText(p) && limit == LimitArgument(p)
    ensures f.title == Kept(reader, Q.Title, p.title) && f.imageUrl == Kept(reader, Q.ImageUrl, p.imageUrl)
    ensures f.feedUrl == Kept(reader, Q.FeedUrl, p.feedUrl) && f.actualUrl == Kept(reader, Q.ActualUrl, p.actualUrl)
    ensures sort in {None, Some("asc"), Some("desc")} && (sort == Some("desc") <==> p.sort == Some(Desc))
    ensures (limit.Some? <==> p.limit.Some?) && (limit.Some? ==> limit.value == p.limit.value)
  {
    assert "asc"[0] != "desc"[0];
  }

  lemma {:induction false} FetchExtracts(reader: Reader, p: ExtractParams, rows: seq<Row>, f: Q.Filters, sort: Option<string>, limit: Option<int>)
    requires f == FiltersOf(reader, p) && sort == SortText(p) && limit == LimitArgument(p)
    requires Keyed(reader.dialect.key, rows) && sort in {None, Some("asc"), Some("desc")}
    requires reader.dialect.engine.Postgres? || reader.dialect.key("asc") != reader.dialect.key("desc")
    ensures Fetch(reader, p, rows).None? <==>
      Trips(reader.dialect.engine, reader.dialect.key, f.imageUrl) || Trips(reader.dialect.engine, reader.dialect.key, f.actualUrl)
    ensures Fetch(reader, p, rows).Some? ==>
      FirstRows(Order(reader.dialect.key, reader.dateKey, reader.nullsFirst), sort == Some("desc"),
                if limit.Some? && 1 <= limit.value <= 100 then limit.value else 25,
                (set r | r in rows && Passes(reader.dialect.engine, reader.dialect.key, f.title, f.imageUrl, f.feedUrl, f.actualUrl, r)),
                Fetch(reader, p, rows).value)
  {
    ExtractPage(reader.dialect.engine, OrderOf(reader), f, sort, limit, rows);
  }

  // ------------------------------------------------------------------- any table

  lemma {:induction false} MeantCounts(o: Order, f: Q.Filters, rd: Reading, rows: seq<Row>, r: Row)
    requires rd.Reads?
    ensures multiset(MeantRows(o, f, rd, rows))[r] == if Meant(o, f, rd, r) then multiset(rows)[r] else 0
  {
    if rows != [] {
      MeantCounts(o, f, rd, rows[1..], r);
      assert rows == [rows[0]] + rows[1..];
      assert MeantRows(o, f, rd, rows) == (if Meant(o, f, rd, rows[0]) then [rows[0]] else []) + MeantRows(o, f, rd, rows[1..]);
    }
  }

  /** Page and remainder are the rows of the table that the request asks for, each as
      often as the table holds it. */
  ghost predicate Splits(reader: Reader, p: ExtractParams, rows: seq<Row>, page: seq<Row>, out: seq<Row>) {
    forall r :: (multiset(page) + multiset(out))[r] == if AskedRow(reader, p, r) then multiset(rows)[r] else 0
  }

  /** What a GET reads from any table, with or without a key: the front of the rows that
      pass, in the order of date, title, image, feed and actual URL. */
  lemma {:induction false} FetchAnyTable(reader: Reader, p: ExtractParams, rows: seq<Row>) returns (out: seq<Row>)
    requires reader.dialect.engine.Postgres? || reader.dialect.key("asc") != reader.dialect.key("desc")
    requires Fetch(reader, p, rows).Some?
    ensures FrontOf(Order(reader.dialect.key, reader.dateKey, reader.nullsFirst), p.sort == Some(Desc),
                    if p.limit.Some? && 1 <= p.limit.value <= 100 then p.limit.value else 25, Fetch(reader, p, rows).value, out)
    ensures Splits(reader, p, rows, Fetch(reader, p, rows).value, out)
  {
    var f, sort, limit := FiltersOf(reader, p), SortText(p), LimitArgument(p);
    RequestMeans(reader, p, f, sort, limit);
    out := ExtractAnyTable(reader.dialect.engine, OrderOf(reader), f, sort, limit, rows);
  }

  lemma {:induction false} ExtractAnyTable(e: Engine, o: Order, f: Q.Filters, sort: Option<string>, limit: Option<int>, rows: seq<Row>)
    returns (out: seq<Row>)
    requires sort in {None, Some("asc"), Some("desc")} && (e.Postgres? || o.text("asc") != o.text("desc"))
    requires ExtractOn(e, o, f, sort, limit, rows).Some?
    ensures var page := ExtractOn(e, o, f, sort, limit, rows).value;
      && FrontOf(o, sort == Some("desc"), if limit.Some? && 1 <= limit.value <= 100 then limit.value else 25, page, out)
      && forall r :: (multiset(page) + multiset(out))[r]
                  == if Passes(e, o.text, f.title, f.imageUrl, f.feedUrl, f.actualUrl, r) then multiset(rows)[r] else 0
  {
    var rd := ReadingOf(e, o.text, f, sort);
    ExtractMeans(e, o, f, sort, limit, rows);
    SortsAsSent(e, o.text, f, sort);
    out := TakeIsFront(o, rd.desc, X.LimitOf(limit), MeantRows(o, f, rd, rows));
    forall r: Row
      ensures multiset(MeantRows(o, f, rd, rows))[r]
           == if Passes(e, o.text, f.title, f.imageUrl, f.feedUrl, f.actualUrl, r) then multiset(rows)[r] else 0
    {
      PassesIsMeant(e, o, f, sort, r);
      MeantCounts(o, f, rd, rows, r);
    }
  }

  // ------------------------------------------------------------ the query string

  function Looked(query: map<string, string>, name: string): Option<string> {
    if name in query then Some(query[name]) else None
  }

  /** The sort word in any letter case; every other text is like none. */
  function SortFrom(given: Option<string>): Option<SortOrder> {
    if given.None? then None
    else match X.Lower(given.value)
      case "asc" => Some(Asc)
      case "desc" => Some(Desc)
      case _ => None
  }

  function FromMap(query: map<string, string>): ExtractParams {
    ExtractParams(Looked(query, "title"), Looked(query, "image_url"), Looked(query, "feed_url"), Looked(query, "actual_url"),
                  Some(L.FromMap(Looked(query, "limit"))), SortFrom(Looked(query, "sort")))
  }

  /** A parameter of the query string as cleaned for its column. */
  function Asked(reader: Reader, c: Q.Column, query: map<string, string>, name: string): Option<string> {
    if name in query then reader.clean(c, query[name]) else None
  }

  predicate QueriedRow(reader: Reader, query: map<string, string>, r: Row) {
    Passes(reader.dialect.engine, reader.dialect.key, Asked(reader, Q.Title, query, "title"), Asked(reader, Q.ImageUrl, query, "image_url"),
           Asked(reader, Q.FeedUrl, query, "feed_url"), Asked(reader, Q.ActualUrl, query, "actual_url"), r)
  }

  /** What a query string gets from a keyed table: newest first exactly when its sort is
      `desc` in any letter case, as many rows as its limit is read for, and the first of
      those that pass the filters named in it. */
  lemma {:induction false} QueryPage(reader: Reader, query: map<string, string>, rows: seq<Row>)
    requires Keyed(reader.dialect.key, rows)
    requires reader.dialect.engine.Postgres? || reader.dialect.key("asc") != reader.dialect.key("desc")
    ensures Fetch(reader, FromMap(query), rows).None? <==>
      || Trips(reader.dialect.engine, reader.dialect.key, Asked(reader, Q.ImageUrl, query, "image_url"))
      || Trips(reader.dialect.engine, reader.dialect.key, Asked(reader, Q.ActualUrl, query, "actual_url"))
    ensures Fetch(reader, FromMap(query), rows).Some? ==>
      FirstRows(Order(reader.dialect.key, reader.dateKey, reader.nullsFirst),
                "sort" in query && X.Lower(query["sort"]) == "desc",
                L.FromMap(if "limit" in query then Some(query["limit"]) else None),
                (set r | r in rows && QueriedRow(reader, query, r)), Fetch(reader, FromMap(query), rows).value)
  {
    QueryPageOf(reader, query, FromMap(query), rows);
  }

  lemma {:induction false} QueryPageOf(reader: Reader, query: map<string, string>, p: ExtractParams, rows: seq<Row>)
    requires Keyed(reader.dialect.key, rows) && p == FromMap(query)
    requires reader.dialect.engine.Postgres? || reader.dialect.key("asc") != reader.dialect.key("desc")
    ensures Fetch(reader, p, rows).None? <==>
      || Trips(reader.dialect.engine, reader.dialect.key, Asked(reader, Q.ImageUrl, query, "image_url"))
      || Trips(reader.dialect.engine, reader.dialect.key, Asked(reader, Q.ActualUrl, query, "actual_url"))
    ensures Fetch(reader, p, rows).Some? ==>
      FirstRows(Order(reader.dialect.key, reader.dateKey, reader.nullsFirst),
                "sort" in query && X.Lower(query["sort"]) == "desc",
                L.FromMap(if "limit" in query then Some(query["limit"]) else None),
                (set r | r in rows && QueriedRow(reader, query, r)), Fetch(reader, p, rows).value)
  {
    FetchPage(reader, p, rows);
    QueryMeans(query, p);
    QueryKept(reader, query, p);
    assert (set r | r in rows && QueriedRow(reader, query, r)) == (set r | r in rows && AskedRow(reader, p, r));
  }

  lemma {:induction false} QueryKept(reader: Reader, query: map<string, string>, p: ExtractParams)
    requires p == FromMap(query)
    ensures Asked(reader, Q.ImageUrl, query, "image_url") == Kept(reader, Q.ImageUrl, p.imageUrl)
    ensures Asked(reader, Q.ActualUrl, query, "actual_url") == Kept(reader, Q.ActualUrl, p.actualUrl)
    ensures forall r :: QueriedRow(reader, query, r) <==> AskedRow(reader, p, r)
  {
    assert Asked(reader, Q.Title, query, "title") == Kept(reader, Q.Title, p.title);
    assert Asked(reader, Q.FeedUrl, query, "feed_url") == Kept(reader, Q.FeedUrl, p.feedUrl);
  }

  lemma {:induction false} QueryMeans(query: map<string, string>, p: ExtractParams)
    requires p == FromMap(query)
    ensures p.limit == Some(L.FromMap(if "limit" in query then Some(query["limit"]) else None))
    ensures p.sort == Some(Desc) <==> "sort" in query && X.Lower(query["sort"]) == "desc"
  {
  }
}
