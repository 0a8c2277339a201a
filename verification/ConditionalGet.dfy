/** The GET handler and its entity tags, run against a table that changes
    between and within requests. */
module ConditionalGet {
  import opened Feed
  import opened Bulk
  import opened TableLaws
  import opened Survivors
  import opened Ordering
  import Q = Query
  import X = Extract
  import opened Json

  /** What the read side of a deployment fixes: the engine and its collations,
      its order of dates and nulls, and the sanitiser of each filter column. */
  datatype Reader = Reader(dialect: Dialect, dateKey: string -> real, nullsFirst: bool,
                           clean: (Q.Column, string) -> Option<string>)

  /** A deployment as the handler sees it: the engine, its extract procedure, the
      body for a result, and the two kinds of entity tag, made of the newest date
      with the parameters, or of the body. */
  datatype Site = Site(
    dialect: Dialect,
    read: (ExtractParams, seq<Row>) -> Option<seq<Row>>,
    body: seq<Row> -> string,
    dateTag: (int, ExtractParams) -> string,
    bodyTag: string -> string)

  /** What is read depends on the set of rows only. */
  ghost predicate ReadsSets(site: Site) {
    forall p, rows, rows' :: Keyed(site.dialect.key, rows) && Keyed(site.dialect.key, rows') && RowSet(rows) == RowSet(rows')
      ==> site.read(p, rows) == site.read(p, rows')
  }

  /** Tags of one kind tell their inputs apart, and no tag is of both kinds. */
  ghost predicate TagsApart(site: Site) {
    && (forall m, p, n, q :: site.dateTag(m, p) == site.dateTag(n, q) ==> m == n && p == q)
    && (forall x, y :: site.bodyTag(x) == site.bodyTag(y) ==> x == y)
    && (forall m, p, rows :: site.dateTag(m, p) != site.bodyTag(site.body(rows)))
  }

  // ----------------------------------------------------------------- reading

  function OrderOf(reader: Reader): Order {
    Order(reader.dialect.key, reader.dateKey, reader.nullsFirst)
  }

  function CleanOption(reader: Reader, c: Q.Column, o: Option<string>): Option<string> {
    if o.None? then None else reader.clean(c, o.value)
  }

  function FiltersOf(reader: Reader, p: ExtractParams): Q.Filters {
    Q.Filters(CleanOption(reader, Q.Title, p.title), CleanOption(reader, Q.ImageUrl, p.imageUrl),
              CleanOption(reader, Q.FeedUrl, p.feedUrl), CleanOption(reader, Q.ActualUrl, p.actualUrl))
  }

  function SortText(p: ExtractParams): Option<string> {
    match p.sort
    case None => None
    case Some(Asc) => Some("asc")
    case Some(Desc) => Some("desc")
  }

  function LimitArgument(p: ExtractParams): Option<int> {
    match p.limit
    case None => None
    case Some(n) => Some(n)
  }

  /** The rows that the engine's extract procedure returns, or an error. */
  function Fetch(reader: Reader, p: ExtractParams, rows: seq<Row>): Option<seq<Row>> {
    var o, f := OrderOf(reader), FiltersOf(reader, p);
    match reader.dialect.engine
    case Postgres => X.PostgresRun(o, f, SortText(p), LimitArgument(p), rows)
    case MariaDb => X.MariaRun(o, f, SortText(p), LimitArgument(p), rows)
    case MsSql => X.MssqlRun(o, f, SortText(p), LimitArgument(p), rows)
  }

  lemma {:induction false} SelectKeyed(o: Order, q: Q.Query, args: seq<Q.Argument>, rows: seq<Row>)
    requires Q.WellBound(q, args) && Keyed(o.text, rows)
    ensures Keyed(o.text, Q.Select(o, q, args, rows))
  {
    if rows != [] {
      var rest := Q.Select(o, q, args, rows[1..]);
      SelectKeyed(o, q, args, rows[1..]);
      assert forall k :: 0 <= k < |rest| ==> rest[k] in rest && rest[k] in rows[1..];
    }
  }

  lemma {:induction false} EvaluateOrderFree(o: Order, exact: bool, q: Q.Query, args: seq<Q.Argument>, rows: seq<Row>, rows': seq<Row>)
    requires Keyed(o.text, rows) && Keyed(o.text, rows') && RowSet(rows) == RowSet(rows')
    ensures Q.Evaluate(o, exact, q, args, rows) == Q.Evaluate(o, exact, q, args, rows')
  {
    if Q.WellBound(q, args) {
      SelectKeyed(o, q, args, rows);
      SelectKeyed(o, q, args, rows');
      assert forall r :: r in rows <==> r in RowSet(rows);
      assert forall r :: r in rows' <==> r in RowSet(rows');
      assert RowSet(Q.Select(o, q, args, rows)) == RowSet(Q.Select(o, q, args, rows'));
      SortOrderFree(o, q.desc, Q.Select(o, q, args, rows), Q.Select(o, q, args, rows'));
    }
  }

  /** What an engine reads depends on the set of rows only. */
  lemma {:induction false} FetchOrderFree(reader: Reader, p: ExtractParams, rows: seq<Row>, rows': seq<Row>)
    requires Keyed(reader.dialect.key, rows) && Keyed(reader.dialect.key, rows') && RowSet(rows) == RowSet(rows')
    ensures Fetch(reader, p, rows) == Fetch(reader, p, rows')
  {
    var o, f := OrderOf(reader), FiltersOf(reader, p);
    var limit := X.LimitOf(LimitArgument(p));
    match reader.dialect.engine
    case Postgres =>
      EvaluateOrderFree(o, false, Q.QueryFor(X.PostgresNull, f, X.Descending(SortText(p))),
                        X.PostgresDispatch(f, limit), rows, rows');
    case MariaDb =>
      EvaluateOrderFree(o, true, Q.QueryFor(X.CollatedWord(o.text), f, X.CollatedDescending(o.text, SortText(p))),
                        X.MariaDispatch(o.text, f, X.SessionFilters(o.text, f), limit), rows, rows');
    case MsSql =>
      EvaluateOrderFree(o, false, Q.Query(X.MssqlClauses(o.text, f), X.CollatedDescending(o.text, SortText(p)), 5),
                        X.MssqlArguments(f, limit), rows, rows');
  }

  // -------------------------------------------------------------------- tags

  /** `{max_date}_{params}`: the text whose hash is the date tag. */
  function DateInput(stamp: int -> string, m: int, p: ExtractParams): string {
    stamp(m) + "_" + ParamsText(p)
  }

  /** A print of stamps that tells them apart, is not empty, does not start like
      a JSON object and has no underscore. */
  ghost predicate PlainStamps(stamp: int -> string) {
    && (forall m, n :: stamp(m) == stamp(n) ==> m == n)
    && (forall m :: stamp(m) != "" && stamp(m)[0] != '{' && '_' !in stamp(m))
  }

  ghost predicate Injective(hash: string -> string) {
    forall x, y :: hash(x) == hash(y) ==> x == y
  }

  lemma {:induction false} InputsNeverCoincide(stamp: int -> string, show: string -> string, m: int, p: ExtractParams, rows: seq<Row>)
    requires PlainStamps(stamp)
    ensures DateInput(stamp, m, p) != BodyText(show, rows)
  {
    assert DateInput(stamp, m, p)[0] == stamp(m)[0];
    assert BodyText(show, rows)[0] == '{';
  }

  lemma {:induction false} DateInputUnique(stamp: int -> string, m: int, p: ExtractParams, n: int, q: ExtractParams)
    requires PlainStamps(stamp) && DateInput(stamp, m, p) == DateInput(stamp, n, q)
    ensures m == n && p == q
  {
    SplitAtUnderscore(stamp(m), ParamsText(p), stamp(n), ParamsText(q));
    ParamsUnique(p, q);
  }

  lemma {:induction false} SplitAtUnderscore(a: string, x: string, b: string, y: string)
    requires a + "_" + x == b + "_" + y && '_' !in a && '_' !in b
    ensures a == b && x == y
  {
    assert a + ("_" + x) == a + "_" + x && b + ("_" + y) == b + "_" + y;
    UnderscoreAt(a, "_" + x, b, "_" + y);
    UnderscoreAt(b, "_" + y, a, "_" + x);
    assert a == (a + "_" + x)[..|a|] && b == (b + "_" + y)[..|b|];
    assert x == (a + "_" + x)[|a| + 1..] && y == (b + "_" + y)[|b| + 1..];
  }

  lemma {:induction false} UnderscoreAt(a: string, x: string, b: string, y: string)
    requires a + x == b + y && x != "" && x[0] == '_' && '_' !in b
    ensures |b| <= |a|
  {
    assert (a + x)[|a|] == '_';
    assert forall k :: 0 <= k < |b| ==> (b + y)[k] == b[k];
  }

  /** The deployment of an engine with a print of dates and stamps and a hash. */
  function SiteOf(reader: Reader, show: string -> string, stamp: int -> string, hash: string -> string): Site {
    Site(reader.dialect,
         (p, rows) => Fetch(reader, p, rows),
         rows => BodyText(show, rows),
         (m, p) => hash(DateInput(stamp, m, p)),
         hash)
  }

  /** What a deployment hashes for its date tags. */
  lemma {:induction false} DateTagReads(site: Site, reader: Reader, show: string -> string, stamp: int -> string,
                                        hash: string -> string, m: int, p: ExtractParams)
    requires site == SiteOf(reader, show, stamp, hash)
    ensures site.dateTag(m, p) == hash(stamp(m) + "_" + ParamsText(p))
  {
    assert DateInput(stamp, m, p) == stamp(m) + "_" + ParamsText(p);
  }

  /** What a deployment reads, sends and hashes for its body tags. */
  lemma {:induction false} SiteReads(site: Site, reader: Reader, show: string -> string, stamp: int -> string,
                                     hash: string -> string, p: ExtractParams, rows: seq<Row>, body: string)
    requires site == SiteOf(reader, show, stamp, hash)
    ensures site.bodyTag(body) == hash(body)
    ensures site.read(p, rows) == Fetch(reader, p, rows) && site.body(rows) == BodyText(show, rows)
  {
  }

  /** In every deployment of every engine with an injective hash tags tell their
      inputs apart, and what is read depends on the set of rows only. */
  lemma {:induction false} DeploymentsAreSound(reader: Reader, show: string -> string, stamp: int -> string, hash: string -> string)
    requires PlainStamps(stamp) && Injective(hash)
    ensures TagsApart(SiteOf(reader, show, stamp, hash)) && ReadsSets(SiteOf(reader, show, stamp, hash))
  {
    var site := SiteOf(reader, show, stamp, hash);
    forall p, rows, rows' | Keyed(reader.dialect.key, rows) && Keyed(reader.dialect.key, rows') && RowSet(rows) == RowSet(rows')
      ensures site.read(p, rows) == site.read(p, rows')
    {
      FetchOrderFree(reader, p, rows, rows');
    }
    forall m, p, n, q | site.dateTag(m, p) == site.dateTag(n, q)
      ensures m == n && p == q
    {
      DateInputUnique(stamp, m, p, n, q);
    }
    forall m, p, rows
      ensures site.dateTag(m, p) != site.bodyTag(site.body(rows))
    {
      InputsNeverCoincide(stamp, show, m, p, rows);
    }
  }

  // ------------------------------------------------------------- the handler

  datatype Response = NotModified(tag: string) | Full(tag: string, body: string) | ServerError

  /** The tag of the fast path; none when the date read fails or finds no date. */
  function DbTag(site: Site, p: ExtractParams, maxDate: Option<int>): Option<string> {
    if maxDate.Some? then Some(site.dateTag(maxDate.value, p)) else None
  }

  /** The answer once the rows have been read, or their read has failed. */
  function AfterRows(site: Site, dbTag: Option<string>, rows: Option<seq<Row>>, ifNoneMatch: Option<string>): Response {
    if rows.None? then ServerError else
    var body := site.body(rows.value);
    var tag := if dbTag.Some? then dbTag.value else site.bodyTag(body);
    if ifNoneMatch == Some(tag) then NotModified(tag) else Full(tag, body)
  }

  /** The handler, given what its two database reads return. */
  method Handler(site: Site, p: ExtractParams, ifNoneMatch: Option<string>, maxDate: Option<int>, rows: Option<seq<Row>>)
    returns (response: Response)
    ensures response == HandlerAnswer(site, p, ifNoneMatch, maxDate, rows)
    ensures response.ServerError? <==> rows.None? && !(maxDate.Some? && ifNoneMatch == Some(site.dateTag(maxDate.value, p)))
    ensures response.NotModified? ==> ifNoneMatch == Some(response.tag)
    ensures response.Full? ==> rows.Some? && response.body == site.body(rows.value) && ifNoneMatch != Some(response.tag)
    ensures !response.ServerError? && maxDate.Some? ==> response.tag == site.dateTag(maxDate.value, p)
    ensures !response.ServerError? && maxDate.None? ==> rows.Some? && response.tag == site.bodyTag(site.body(rows.value))
  {
    var dbEtag := None;
    if maxDate.Some? {
      var etag := site.dateTag(maxDate.value, p);
      if ifNoneMatch == Some(etag) {
        return NotModified(etag);
      }
      dbEtag := Some(etag);
    }
    match rows {
      case None =>
        return ServerError;
      case Some(found) =>
        var body := site.body(found);
        var etag;
        if dbEtag.Some? {
          etag := dbEtag.value;
        } else {
          etag := site.bodyTag(body);
        }
        if ifNoneMatch == Some(etag) {
          return NotModified(etag);
        }
        return Full(etag, body);
    }
  }

  // --------------------------------------------------------- the state machine

  /** A version of the table, and the clock when it came to be. */
  datatype Version = Version(time: int, rows: seq<Row>)

  /** A response some client holds: `filled` is the version its body shows, and
      `asked` the version whose date made its tag, if a date did. */
  datatype Entry = Entry(params: ExtractParams, tag: string, body: string, asked: Option<nat>, filled: nat)

  /** A request between its two reads. */
  datatype Pending = Pending(params: ExtractParams, ifNoneMatch: Option<string>, dbTag: Option<string>, asked: nat)

  datatype State = State(versions: seq<Version>, held: seq<Entry>, pending: seq<Pending>)

  /** A bulk call, the first half of a GET or its second half; `up` says whether
      the database answers the read. */
  datatype Event =
    | Write(mode: Mode, items: seq<Item>, now: int)
    | Ask(params: ExtractParams, ifNoneMatch: Option<string>, up: bool)
    | Finish(k: nat, up: bool)

  function Latest(s: State): Version
    requires s.versions != []
  {
    s.versions[|s.versions| - 1]
  }

  function Newest(s: State): seq<Row>
    requires s.versions != []
  {
    Latest(s).rows
  }

  /** The clock moves forward; a request that finishes has begun. */
  predicate Enabled(s: State, e: Event)
    requires s.versions != []
  {
    match e
    case Write(_, _, now) => Latest(s).time < now
    case Ask(_, _, _) => true
    case Finish(k, _) => k < |s.pending|
  }

  function DateRead(s: State, up: bool): Option<int>
    requires s.versions != []
  {
    if up then MaxModified(Newest(s)) else None
  }

  /** The answer of the fast path, if the tag of the newest date is the client's. */
  function AskAnswer(site: Site, s: State, params: ExtractParams, ifNoneMatch: Option<string>, up: bool): Option<Response>
    requires s.versions != []
  {
    var tag := DbTag(site, params, DateRead(s, up));
    if tag.Some? && ifNoneMatch == tag then Some(NotModified(tag.value)) else None
  }

  function FinishAnswer(site: Site, s: State, r: Pending, up: bool): Response
    requires s.versions != []
  {
    AfterRows(site, r.dbTag, if up then site.read(r.params, Newest(s)) else None, r.ifNoneMatch)
  }

  /** The response that an event sends, if it sends one. */
  function Sent(site: Site, s: State, e: Event): Option<Response>
    requires s.versions != [] && Enabled(s, e)
  {
    match e
    case Write(_, _, _) => None
    case Ask(params, ifNoneMatch, up) => AskAnswer(site, s, params, ifNoneMatch, up)
    case Finish(k, up) => Some(FinishAnswer(site, s, s.pending[k], up))
  }

  /** The parameters of the request that an event serves. */
  function ParamsOf(s: State, e: Event): ExtractParams
    requires !e.Write? && (e.Finish? ==> e.k < |s.pending|)
  {
    if e.Ask? then e.params else s.pending[e.k].params
  }

  function Recorded(s: State, now: int, rows: seq<Row>): State {
    s.(versions := s.versions + [Version(now, rows)])
  }

  function AfterAsk(site: Site, s: State, params: ExtractParams, ifNoneMatch: Option<string>, up: bool): State
    requires s.versions != []
  {
    if AskAnswer(site, s, params, ifNoneMatch, up).Some? then s
    else s.(pending := s.pending + [Pending(params, ifNoneMatch, DbTag(site, params, DateRead(s, up)), |s.versions| - 1)])
  }

  function AfterFinish(site: Site, s: State, k: nat, up: bool): State
    requires s.versions != [] && k < |s.pending|
  {
    var r := s.pending[k];
    var response := FinishAnswer(site, s, r, up);
    var rest := s.(pending := s.pending[..k] + s.pending[k + 1..]);
    if response.Full?
    then rest.(held := s.held + [Entry(r.params, response.tag, response.body,
                                       if r.dbTag.Some? then Some(r.asked) else None, |s.versions| - 1)])
    else rest
  }

  function Next(site: Site, s: State, e: Event): (s': State)
    requires s.versions != [] && Enabled(s, e)
    ensures s'.versions != []
  {
    match e
    case Write(mode, items, now) => Recorded(s, now, AfterCall(site.dialect, mode, Newest(s), items, now))
    case Ask(params, ifNoneMatch, up) => AfterAsk(site, s, params, ifNoneMatch, up)
    case Finish(k, up) => AfterFinish(site, s, k, up)
  }

  /** The answer that the handler gives for what its two reads return. */
  function HandlerAnswer(site: Site, p: ExtractParams, ifNoneMatch: Option<string>, maxDate: Option<int>, rows: Option<seq<Row>>): Response {
    if maxDate.Some? && ifNoneMatch == Some(site.dateTag(maxDate.value, p)) then NotModified(site.dateTag(maxDate.value, p))
    else AfterRows(site, DbTag(site, p, maxDate), rows, ifNoneMatch)
  }

  /** The two steps of a request are the handler with the date of the first state and
      the rows of the second; in between the request waits as it was asked. */
  lemma {:induction false} StepsAreHandler(site: Site, s: State, s': State, p: ExtractParams, ifNoneMatch: Option<string>, up: bool, up': bool)
    requires s.versions != [] && s'.versions != []
    ensures
      var maxDate := if up then MaxModified(s.versions[|s.versions| - 1].rows) else None;
      var rows := if up' then site.read(p, s'.versions[|s'.versions| - 1].rows) else None;
      var answer := HandlerAnswer(site, p, ifNoneMatch, maxDate, rows);
      var asked := Next(site, s, Ask(p, ifNoneMatch, up));
      match Sent(site, s, Ask(p, ifNoneMatch, up))
      case Some(first) => answer == first && asked == s
      case None =>
        && asked.versions == s.versions && asked.held == s.held && |asked.pending| == |s.pending| + 1
        && asked.pending[..|s.pending|] == s.pending
        && (s'.pending == [asked.pending[|s.pending|]] ==> Sent(site, s', Finish(0, up')) == Some(answer))
  {
  }

  /** A request that finishes waits no longer, and a full answer is what the client then
      holds, with the version that it shows and the one whose date made its tag. */
  lemma {:induction false} FinishRecords(site: Site, s: State, k: nat, up: bool)
    requires s.versions != [] && k < |s.pending|
    ensures var s' := Next(site, s, Finish(k, up));
      && s'.versions == s.versions && s'.pending == s.pending[..k] + s.pending[k + 1..]
      && match Sent(site, s, Finish(k, up))
         case Some(Full(tag, body)) =>
           && |s'.held| == |s.held| + 1 && s'.held[..|s.held|] == s.held
           && var h := s'.held[|s.held|];
             && h.params == s.pending[k].params && h.tag == tag && h.body == body && h.filled == |s.versions| - 1
             && h.asked == if s.pending[k].dbTag.Some? then Some(s.pending[k].asked) else None
         case _ => s'.held == s.held
  {
  }

  /** A bulk call makes a new version of the newest table, at its time. */
  lemma {:induction false} WriteRecords(site: Site, s: State, mode: Mode, items: seq<Item>, now: int)
    requires s.versions != [] && s.versions[|s.versions| - 1].time < now
    ensures var s' := Next(site, s, Write(mode, items, now));
      && s'.held == s.held && s'.pending == s.pending && |s'.versions| == |s.versions| + 1
      && s'.versions[..|s.versions|] == s.versions && s'.versions[|s.versions|].time == now
      && s'.versions[|s.versions|].rows ==
           match Exec(site.dialect, mode, s.versions[|s.versions| - 1].rows, items, now)
           case Done(rows, _) => rows
           case Failed => s.versions[|s.versions| - 1].rows
  {
  }
}
