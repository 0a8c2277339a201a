/** The POST, PUT and DELETE handlers: checks before the call, flattening of the
    status rows, and the response. */
module Handlers {
  import opened Feed
  import opened Bulk
  import opened BulkLaws
  import opened TableLaws
  import opened Procedures
  import opened MariaSession

  /** One flattened status. `item` is present only when a procedure sends it. */
  datatype CudResult = CudResult(status: CudStatus, message: string, item: Option<Item>)

  // ------------------------------------------------------ check_duplicates

  function TitlesOf(items: seq<Item>): seq<string> {
    if items == [] then [] else
    var n := |items| - 1;
    TitlesOf(items[..n]) + if items[n].title.Some? then [items[n].title.value] else []
  }

  /** The titles that were there before, in the order of the batch. */
  function Repeats(items: seq<Item>): seq<string> {
    if items == [] then [] else
    var n := |items| - 1;
    var t := items[n].title;
    Repeats(items[..n]) + if t.Some? && t.value in TitlesOf(items[..n]) then [t.value] else []
  }

  /** Every title is reported once for each time it occurs again. */
  lemma {:induction false} RepeatsCount(items: seq<Item>, t: string)
    ensures multiset(Repeats(items))[t]
         == if t in TitlesOf(items) then multiset(TitlesOf(items))[t] - 1 else 0
  {
    if items != [] {
      RepeatsCount(items[..|items| - 1], t);
    }
  }

  lemma {:induction false} TitlesIndexed(items: seq<Item>, t: string)
    ensures t in TitlesOf(items) <==> exists k :: 0 <= k < |items| && items[k].title == Some(t)
  {
    if items != [] {
      var init := items[..|items| - 1];
      TitlesIndexed(init, t);
      assert forall k :: 0 <= k < |init| ==> init[k] == items[k];
    }
  }

  lemma {:induction false} DistinctAppend(items: seq<Item>, p: Item)
    ensures DistinctTitles(items + [p]) <==>
            DistinctTitles(items) && !(p.title.Some? && exists k :: 0 <= k < |items| && items[k].title == Some(p.title.value))
  {
    var all := items + [p];
    assert forall k :: 0 <= k < |items| ==> all[k] == items[k];
    if k :| p.title.Some? && 0 <= k < |items| && items[k].title == Some(p.title.value) {
      assert all[k].title == all[|items|].title;
    }
    if DistinctTitles(all) {
      forall i, j | 0 <= i < j < |items|
        ensures !(items[i].title.Some? && items[i].title == items[j].title)
      {
        assert !(all[i].title.Some? && all[i].title == all[j].title);
      }
    }
  }

  /** Nothing is reported exactly when no title occurs twice. */
  lemma {:induction false} NoRepeats(items: seq<Item>)
    ensures Repeats(items) == [] <==> DistinctTitles(items)
  {
    if items != [] {
      var n := |items| - 1;
      NoRepeats(items[..n]);
      assert items == items[..n] + [items[n]];
      DistinctAppend(items[..n], items[n]);
      if items[n].title.Some? {
        TitlesIndexed(items[..n], items[n].title.value);
      }
    }
  }

  method CheckDuplicates(items: seq<Item>) returns (duplicates: seq<string>)
    ensures duplicates == Repeats(items)
  {
    var seen := {};
    duplicates := [];
    for i := 0 to |items|
      invariant seen == set t | t in TitlesOf(items[..i])
      invariant duplicates == Repeats(items[..i])
    {
      assert items[..i + 1][..i] == items[..i];
      var title := items[i].title;
      if title.Some? {
        if title.value in seen {
          duplicates := duplicates + [title.value];
        }
        seen := seen + {title.value};
      }
    }
    assert items[..|items|] == items;
  }

  // ------------------------------------------------ validate_required_fields

  datatype Field = TitleField | FeedUrlField | PublishDateField

  /** The first mandatory field that the item lacks. */
  function MissingField(item: Item, mode: Mode): Option<Field> {
    if item.title.None? then Some(TitleField)
    else if mode.Insert? && item.feedUrl.None? then Some(FeedUrlField)
    else if !mode.Delete? && item.publishDate.None? then Some(PublishDateField)
    else None
  }

  predicate Complete(items: seq<Item>, mode: Mode) {
    forall k :: 0 <= k < |items| ==> MissingField(items[k], mode).None?
  }

  /** What passes is what an insert can store; an update may lack its feed URL, and
      then cannot be written. */
  lemma {:induction false} CompleteStorable(items: seq<Item>)
    ensures Complete(items, Insert) <==> forall p :: p in items ==> Storable(p)
  {
    if forall p :: p in items ==> Storable(p) {
      forall k | 0 <= k < |items|
        ensures MissingField(items[k], Insert).None?
      {
        assert items[k] in items;
      }
    }
  }

  /** The check lets updates without a feed URL pass. On Postgres such an item fails
      its whole batch exactly when it names a stored row. */
  lemma {:induction false} UpdateWithoutFeedUrl(d: Dialect, rows: seq<Row>, ps: seq<Item>)
    requires d.engine.Postgres? && DistinctTitles(ps) && Complete(ps, Update)
    ensures UpdateFails(d, rows, ps) <==> FeedlessNamed(d, rows, ps)
  {
    assert forall k :: 0 <= k < |ps| ==> MissingField(ps[k], Update).None?;
    FeedlessFails(d, rows, ps);
  }

  // ------------------------------------------------------ parse_status_rows

  /** One JSON value of a status column, well-formed as a status or not. */
  datatype Entry = Entry(result: CudResult) | Malformed

  /** The status column of one row: null, no JSON text, one value or an array. */
  datatype Cell = Null | NotJson | Single(entry: Entry) | Array(entries: seq<Entry>)

  function EntriesOf(cell: Cell): seq<Entry> {
    match cell
    case Null => [Malformed]
    case NotJson => [Malformed]
    case Single(entry) => [entry]
    case Array(entries) => entries
  }

  function AllEntries(cells: seq<Cell>): seq<Entry> {
    if cells == [] then [] else AllEntries(cells[..|cells| - 1]) + EntriesOf(cells[|cells| - 1])
  }

  function Wrapped(results: seq<CudResult>): (es: seq<Entry>)
    ensures |es| == |results| && forall k :: 0 <= k < |results| ==> es[k] == Entry(results[k])
  {
    seq(|results|, k requires 0 <= k < |results| => Entry(results[k]))
  }

  lemma {:induction false} EntriesInside(cells: seq<Cell>, i: nat)
    requires i < |cells|
    ensures forall e :: e in EntriesOf(cells[i]) ==> e in AllEntries(cells)
  {
    if i < |cells| - 1 {
      EntriesInside(cells[..|cells| - 1], i);
    }
  }

  /** All or nothing: every status of every row in order, unless a column is null,
      is no JSON, or holds a value that is no status. */
  method ParseStatusRows(rows: seq<Cell>) returns (results: Option<seq<CudResult>>)
    ensures results.None? <==> Malformed in AllEntries(rows)
    ensures results.Some? ==> Wrapped(results.value) == AllEntries(rows)
  {
    var found: seq<CudResult> := [];
    for i := 0 to |rows|
      invariant Wrapped(found) == AllEntries(rows[..i])
    {
      assert rows[..i + 1][..i] == rows[..i];
      EntriesInside(rows, i);
      if rows[i].Null? || rows[i].NotJson? {
        assert Malformed in EntriesOf(rows[i]);
        return None;
      }
      var vals := if rows[i].Array? then rows[i].entries else [rows[i].entry];
      for j := 0 to |vals|
        invariant Wrapped(found) == AllEntries(rows[..i]) + vals[..j]
      {
        if vals[j].Malformed? {
          assert vals[j] in EntriesOf(rows[i]);
          return None;
        }
        found := found + [vals[j].result];
      }
      assert vals[..|vals|] == vals;
    }
    assert rows[..|rows|] == rows;
    return Some(found);
  }

  /** The message text of a status. */
  function MessageOf(o: Outcome): string {
    match o
    case Inserted => "Record(s) inserted"
    case Updated => "Record(s) updated"
    case Deleted => "Record(s) deleted"
    case SkippedExists => "SKIPPED_EXISTS"
    case SkippedNotFound => "SKIPPED_NOT_FOUND"
    case InvalidMode => "Invalid optionMode"
  }

  function ResultOf(o: Outcome): CudResult {
    CudResult(StatusOf(o), MessageOf(o), None)
  }

  function ResultsOf(os: seq<Outcome>): (rs: seq<CudResult>)
    ensures |rs| == |os| && forall k :: 0 <= k < |os| ==> rs[k] == ResultOf(os[k])
  {
    seq(|os|, k requires 0 <= k < |os| => ResultOf(os[k]))
  }

  /** The one row that a bulk procedure returns: an array of its statuses. */
  function StatusRow(os: seq<Outcome>): seq<Cell> {
    [Array(Wrapped(ResultsOf(os)))]
  }

  // ------------------------------------------------------- handle_cud_logic

  datatype FailedItem = FailedItem(item: Item, reason: string)

  datatype Response = Response(code: nat, isPartial: bool, count: nat, result: seq<CudResult>, failedItems: seq<FailedItem>)

  const EMPTY_ITEM := Item(None, None, None, None, None)

  function FailureOf(r: CudResult): FailedItem {
    FailedItem(if r.item.Some? then r.item.value else EMPTY_ITEM, r.message)
  }

  /** The statuses that are not errors, and the errors, each in their order. */
  function Passed(results: seq<CudResult>): seq<CudResult> {
    if results == [] then [] else
    var n := |results| - 1;
    Passed(results[..n]) + if results[n].status.Error? then [] else [results[n]]
  }

  function Failures(results: seq<CudResult>): seq<FailedItem> {
    if results == [] then [] else
    var n := |results| - 1;
    Failures(results[..n]) + if results[n].status.Error? then [FailureOf(results[n])] else []
  }

  predicate AnyOf(results: seq<CudResult>, status: CudStatus) {
    exists k :: 0 <= k < |results| && results[k].status == status
  }

  /** Nothing is lost between the two lists. */
  lemma {:induction false} PartitionComplete(results: seq<CudResult>)
    ensures |Passed(results)| + |Failures(results)| == |results|
    ensures Failures(results) == [] <==> !AnyOf(results, Error)
    ensures Passed(results) == [] <==> !AnyOf(results, Success) && !AnyOf(results, Skipped)
  {
    if results != [] {
      var n := |results| - 1;
      var init := results[..n];
      PartitionComplete(init);
      assert results == init + [results[n]];
      AnyAppend(init, results[n], Error);
      AnyAppend(init, results[n], Success);
      AnyAppend(init, results[n], Skipped);
    }
  }

  lemma {:induction false} AnyAppend(results: seq<CudResult>, r: CudResult, status: CudStatus)
    ensures AnyOf(results + [r], status) <==> AnyOf(results, status) || r.status == status
  {
    var all := results + [r];
    assert all[|results|] == r;
    assert forall k :: 0 <= k < |results| ==> all[k] == results[k];
  }

  /** The response keeps the order, counts what it keeps, and its code tells: 400
      when there are errors only, 201 when a POST inserted something and nothing
      failed, 200 otherwise. */
  method HandleCudLogic(results: seq<CudResult>, mode: Mode) returns (r: Response)
    ensures r.result == Passed(results) && r.failedItems == Failures(results)
    ensures r.count == |r.result|
    ensures r.isPartial <==> AnyOf(results, Error) && (AnyOf(results, Success) || AnyOf(results, Skipped))
    ensures r.code ==
      if AnyOf(results, Error) && !r.isPartial then 400
      else if mode.Insert? && !AnyOf(results, Error) && AnyOf(results, Success) then 201
      else 200
  {
    var allSkipped := forall k :: 0 <= k < |results| ==> results[k].status.Skipped?;
    var successes, failed := [], [];
    for i := 0 to |results|
      invariant successes == Passed(results[..i]) && failed == Failures(results[..i])
    {
      assert results[..i + 1][..i] == results[..i];
      if results[i].status.Error? {
        failed := failed + [FailureOf(results[i])];
      } else {
        successes := successes + [results[i]];
      }
    }
    assert results[..|results|] == results;
    PartitionComplete(results);
    var isPartial := successes != [] && failed != [];
    var code :=
      if successes == [] && failed != [] then 400
      else if failed != [] then 200
      else if mode.Insert? && !allSkipped then 201
      else 200;
    return Response(code, isPartial, |successes|, successes, failed);
  }

  // ------------------------------------------------------------ process_cud

  datatype HeaderCheck = HeadersOk | WrongContentType | InvalidHeader

  datatype Reply =
    | HeaderError(check: HeaderCheck)
    | Duplicates(titles: seq<string>)
    | Missing(field: Field)
    | DatabaseError
    | Answered(response: Response)

  function CodeOf(r: Reply): nat {
    match r
    case HeaderError(check) => if check.WrongContentType? then 415 else 400
    case Duplicates(_) => 422
    case Missing(_) => 422
    case DatabaseError => 500
    case Answered(response) => response.code
  }

  function ModeText(mode: Mode): string {
    match mode
    case Insert => "insertNewsFeed"
    case Update => "updateNewsFeed"
    case Delete => "deleteNewsFeed"
  }

  /** The first item that lacks a field decides. */
  function FirstMissing(items: seq<Item>, mode: Mode): (f: Option<Field>)
    ensures f.None? <==> Complete(items, mode)
  {
    if items == [] then None
    else if MissingField(items[0], mode).Some? then MissingField(items[0], mode)
    else
      assert Complete(items[1..], mode) ==> Complete(items, mode) by {
        assert forall k :: 1 <= k < |items| ==> items[k] == items[1..][k - 1];
      }
      FirstMissing(items[1..], mode)
  }

  /** A request that a check stops, in the order of the checks. */
  function Gate(headers: HeaderCheck, items: seq<Item>, mode: Mode): Option<Reply> {
    if !headers.HeadersOk? then Some(HeaderError(headers))
    else if Repeats(items) != [] then Some(Duplicates(Repeats(items)))
    else if FirstMissing(items, mode).Some? then Some(Missing(FirstMissing(items, mode).value))
    else None
  }

  predicate Responds(reply: Reply, mode: Mode, results: seq<CudResult>) {
    && reply.Answered?
    && reply.response.result == Passed(results) && reply.response.failedItems == Failures(results)
    && reply.response.count == |reply.response.result|
    && (reply.response.isPartial <==> AnyOf(results, Error) && (AnyOf(results, Success) || AnyOf(results, Skipped)))
    && reply.response.code ==
         if AnyOf(results, Error) && !AnyOf(results, Success) && !AnyOf(results, Skipped) then 400
         else if mode.Insert? && !AnyOf(results, Error) && AnyOf(results, Success) then 201
         else 200
  }

  // --------------------------------------------- what stops a request, spelled out

  /** The item has what its mode makes mandatory: always a title, a feed URL to be
      created, a date to be created or updated. */
  predicate HasMandatory(item: Item, mode: Mode) {
    match mode
    case Insert => item.title.Some? && item.feedUrl.Some? && item.publishDate.Some?
    case Update => item.title.Some? && item.publishDate.Some?
    case Delete => item.title.Some?
  }

  predicate AllMandatory(items: seq<Item>, mode: Mode) {
    forall k :: 0 <= k < |items| ==> HasMandatory(items[k], mode)
  }

  /** Item `k` is the first that lacks something, and `field` the first that it lacks. */
  predicate FirstLack(items: seq<Item>, mode: Mode, k: int, field: Field) {
    && 0 <= k < |items| && !HasMandatory(items[k], mode) && (forall j :: 0 <= j < k ==> HasMandatory(items[j], mode))
    && match field
       case TitleField => items[k].title.None?
       case FeedUrlField => items[k].title.Some? && mode.Insert? && items[k].feedUrl.None?
       case PublishDateField =>
         items[k].title.Some? && items[k].publishDate.None? && (mode.Update? || (mode.Insert? && items[k].feedUrl.Some?))
  }

  /** Two items share the title. */
  predicate Shared(items: seq<Item>, t: string) {
    exists i, j :: 0 <= i < j < |items| && items[i].title == items[j].title == Some(t)
  }

  lemma {:induction false} RepeatsAreShared(items: seq<Item>, t: string)
    ensures t in Repeats(items) <==> Shared(items, t)
  {
    if items != [] {
      var n := |items| - 1;
      var init, last := items[..n], items[n];
      RepeatsAreShared(init, t);
      TitlesIndexed(init, t);
      assert forall k :: 0 <= k < n ==> init[k] == items[k];
      if Shared(items, t) && !Shared(init, t) {
        var i, j :| 0 <= i < j < |items| && items[i].title == items[j].title == Some(t);
        assert j == n;
      }
    }
  }

  /** The titles are listed in the order in which they come again. */
  lemma {:induction false} RepeatsInOrder(items: seq<Item>, p: Item)
    ensures Repeats([]) == []
    ensures Repeats(items + [p])
         == Repeats(items) + if p.title.Some? && exists k :: 0 <= k < |items| && items[k].title == p.title then [p.title.value] else []
  {
    assert (items + [p])[..|items|] == items;
    if p.title.Some? {
      TitlesIndexed(items, p.title.value);
    }
  }

  lemma {:induction false} MandatoryIsComplete(items: seq<Item>, mode: Mode)
    ensures Complete(items, mode) <==> AllMandatory(items, mode)
  {
    assert forall k :: 0 <= k < |items| ==> (MissingField(items[k], mode).None? <==> HasMandatory(items[k], mode));
  }

  lemma {:induction false} MissingIsFirst(items: seq<Item>, mode: Mode) returns (k: nat)
    requires !AllMandatory(items, mode)
    ensures FirstMissing(items, mode).Some? && FirstLack(items, mode, k, FirstMissing(items, mode).value)
  {
    if !HasMandatory(items[0], mode) {
      k := 0;
    } else {
      var tail := items[1..];
      assert forall j :: 1 <= j < |items| ==> items[j] == tail[j - 1];
      var l := MissingIsFirst(tail, mode);
      k := l + 1;
    }
  }

  /** What stops a request: bad headers whatever the items are, then a title shared by
      two items whatever else they lack, then the first item that lacks something. */
  ghost predicate Stops(headers: HeaderCheck, items: seq<Item>, mode: Mode, stopped: Option<Reply>) {
    && (stopped.None? <==> headers.HeadersOk? && DistinctTitles(items) && AllMandatory(items, mode))
    && (!headers.HeadersOk? ==> stopped == Some(HeaderError(headers)))
    && (headers.HeadersOk? && !DistinctTitles(items) ==>
          stopped.Some? && stopped.value.Duplicates? && forall t :: t in stopped.value.titles <==> Shared(items, t))
    && (headers.HeadersOk? && DistinctTitles(items) && !AllMandatory(items, mode) ==>
          stopped.Some? && stopped.value.Missing? && exists k :: FirstLack(items, mode, k, stopped.value.field))
  }

  lemma {:induction false} GateStops(headers: HeaderCheck, items: seq<Item>, mode: Mode)
    ensures Stops(headers, items, mode, Gate(headers, items, mode))
  {
    NoRepeats(items);
    MandatoryIsComplete(items, mode);
    forall t: string
      ensures t in Repeats(items) <==> Shared(items, t)
    {
      RepeatsAreShared(items, t);
    }
    if !AllMandatory(items, mode) {
      var k := MissingIsFirst(items, mode);
      assert FirstLack(items, mode, k, FirstMissing(items, mode).value);
    }
  }

  /** The checks before the call; the first one that fails decides. */
  method CheckRequest(headers: HeaderCheck, items: seq<Item>, mode: Mode) returns (stopped: Option<Reply>)
    ensures stopped == Gate(headers, items, mode) && Stops(headers, items, mode, stopped)
  {
    GateStops(headers, items, mode);
    if !headers.HeadersOk? {
      return Some(HeaderError(headers));
    }
    var duplicates := CheckDuplicates(items);
    if duplicates != [] {
      return Some(Duplicates(duplicates));
    }
    for i := 0 to |items|
      invariant FirstMissing(items, mode) == FirstMissing(items[i..], mode)
    {
      var missing := MissingField(items[i], mode);
      assert items[i..][1..] == items[i + 1..];
      if missing.Some? {
        return Some(Missing(missing.value));
      }
    }
    return None;
  }

  /** The status row that comes back, flattened and answered. */
  method Respond(status: seq<Outcome>, mode: Mode) returns (reply: Reply)
    ensures Responds(reply, mode, ResultsOf(status))
  {
    var cells := StatusRow(status);
    OneRow(status);
    var results := ParseStatusRows(cells);
    SameWrapped(results.value, ResultsOf(status));
    var response := HandleCudLogic(results.value, mode);
    return Answered(response);
  }

  /** What a request does and answers. One that a check stops, or whose call fails,
      leaves the table as it was; any other makes the table and the answer of the call. */
  ghost predicate Processed(d: Dialect, headers: HeaderCheck, items: seq<Item>, mode: Mode, now: int,
                            before: seq<Row>, after: seq<Row>, reply: Reply) {
    var passes := headers.HeadersOk? && DistinctTitles(items) && AllMandatory(items, mode);
    var a := CallOf(d, ModeText(mode), before, items, now);
    && (!passes ==> after == before && Stops(headers, items, mode, Some(reply)))
    && (passes && a.Failed? ==> after == before && reply == DatabaseError)
    && (passes && a.Done? ==> after == a.rows && Responds(reply, mode, ResultsOf(a.outcomes)))
  }

  /** The status codes of such a reply. */
  lemma {:induction false} CodesTell(d: Dialect, headers: HeaderCheck, items: seq<Item>, mode: Mode, now: int,
                                     before: seq<Row>, after: seq<Row>, reply: Reply)
    requires Processed(d, headers, items, mode, now, before, after, reply)
    ensures headers.WrongContentType? ==> CodeOf(reply) == 415
    ensures headers.InvalidHeader? ==> CodeOf(reply) == 400
    ensures headers.HeadersOk? && !(DistinctTitles(items) && AllMandatory(items, mode)) ==> CodeOf(reply) == 422
    ensures headers.HeadersOk? && DistinctTitles(items) && AllMandatory(items, mode) ==>
      match CallOf(d, ModeText(mode), before, items, now)
      case Failed => CodeOf(reply) == 500
      case Done(_, os) =>
        CodeOf(reply) ==
          if AnyOf(ResultsOf(os), Error) && !AnyOf(ResultsOf(os), Success) && !AnyOf(ResultsOf(os), Skipped) then 400
          else if mode.Insert? && AnyOf(ResultsOf(os), Success) && !AnyOf(ResultsOf(os), Error) then 201
          else 200
  {
  }

  /** The statuses are split as they come: errors to one side, all else to the other,
      unchanged and in order. */
  lemma {:induction false} PartitionReads(a: seq<CudResult>, b: seq<CudResult>, r: CudResult)
    ensures Passed([]) == [] && Failures([]) == []
    ensures Passed([r]) == (if r.status.Error? then [] else [r])
    ensures Failures([r]) == (if r.status.Error? then [FailedItem(if r.item.Some? then r.item.value else Item(None, None, None, None, None), r.message)] else [])
    ensures Passed(a + b) == Passed(a) + Passed(b) && Failures(a + b) == Failures(a) + Failures(b)
  {
    assert [r][..0] == [];
    if b == [] {
      assert a + b == a;
    } else {
      assert (a + b)[..|a + b| - 1] == a + b[..|b| - 1];
      PartitionReads(a, b[..|b| - 1], r);
    }
  }

  lemma {:induction false} AllPassed(results: seq<CudResult>)
    requires !AnyOf(results, Error)
    ensures Passed(results) == results && Failures(results) == []
  {
    if results != [] {
      var n := |results| - 1;
      assert results == results[..n] + [results[n]];
      AnyAppend(results[..n], results[n], Error);
      AllPassed(results[..n]);
    }
  }

  /** The response lists one result for each outcome of the call, with its status and
      message. */
  lemma {:induction false} ResponseTells(reply: Reply, mode: Mode, os: seq<Outcome>, k: nat)
    requires Responds(reply, mode, ResultsOf(os)) && Errorless(os) && k < |os|
    ensures reply.response.failedItems == [] && !reply.response.isPartial
    ensures reply.response.count == |os| == |reply.response.result|
    ensures var r := reply.response.result[k];
      && r.item.None?
      && match os[k]
         case Inserted => r.status == Success && r.message == "Record(s) inserted"
         case Updated => r.status == Success && r.message == "Record(s) updated"
         case Deleted => r.status == Success && r.message == "Record(s) deleted"
         case SkippedExists => r.status == Skipped && r.message == "SKIPPED_EXISTS"
         case SkippedNotFound => r.status == Skipped && r.message == "SKIPPED_NOT_FOUND"
         case InvalidMode => true
  {
    assert !AnyOf(ResultsOf(os), Error);
    AllPassed(ResultsOf(os));
  }

  /** A whole request on Postgres or MSSQL. */
  method ProcessCud(db: ReturningDatabase, headers: HeaderCheck, items: seq<Item>, mode: Mode, now: int) returns (reply: Reply)
    requires db.Valid()
    modifies db
    ensures db.Valid() && Processed(db.d, headers, items, mode, now, old(db.newsfeed), db.newsfeed, reply)
  {
    var stopped := CheckRequest(headers, items, mode);
    if stopped.Some? {
      assert stopped == Some(stopped.value);
      return stopped.value;
    }
    var status := db.CudBulkJson(ModeText(mode), items, now);
    if status.None? {
      return DatabaseError;
    }
    reply := Respond(status.value, mode);
  }

  /** A whole request on a MariaDB connection. */
  method ProcessCudMaria(session: Session, headers: HeaderCheck, items: seq<Item>, mode: Mode, now: int) returns (reply: Reply)
    requires session.Valid()
    modifies session
    ensures session.Valid() && Processed(session.d, headers, items, mode, now, old(session.newsfeed), session.newsfeed, reply)
  {
    var stopped := CheckRequest(headers, items, mode);
    if stopped.Some? {
      assert stopped == Some(stopped.value);
      return stopped.value;
    }
    var status := session.CudBulkJson(ModeText(mode), items, now);
    reply := Respond(status, mode);
  }

  lemma {:induction false} OneRow(os: seq<Outcome>)
    ensures AllEntries(StatusRow(os)) == Wrapped(ResultsOf(os))
    ensures Malformed !in AllEntries(StatusRow(os))
  {
    assert StatusRow(os)[..0] == [];
  }

  lemma {:induction false} SameWrapped(a: seq<CudResult>, b: seq<CudResult>)
    requires Wrapped(a) == Wrapped(b)
    ensures a == b
  {
    forall k | 0 <= k < |a|
      ensures a[k] == b[k]
    {
      assert Wrapped(a)[k] == Entry(a[k]) && Wrapped(b)[k] == Entry(b[k]);
    }
  }

  // -------------------------------------------------- what 201 tells a client

  /** On every engine an insert reports a success exactly when the table grew. */
  lemma {:induction false} SuccessMeansGrown(d: Dialect, rows: seq<Row>, ps: seq<Item>, now: int)
    requires Apply(d, Insert, rows, ps, now).Done? && forall p :: p in ps ==> p.title.Some?
    ensures var a := Apply(d, Insert, rows, ps, now);
            Succeeded(a.outcomes) <==> |a.rows| > |rows|
  {
    var admitted := Admitted(d, rows, ps);
    AdmittedAreItems(d, rows, ps);
    if d.engine.MariaDb? {
      PredictedSucceeds(d, rows, ps);
      if admitted != [] {
        assert admitted[0] in admitted;
      }
      forall p | p in ps && Fresh(d, rows, p)
        ensures admitted != []
      {
        AdmittedFresh(d, rows, ps, p);
      }
    } else {
      var os := Outcomes(d, Insert, rows, ps);
      if admitted != [] {
        var p := admitted[0];
        assert p in admitted && Meets(d, p, p);
        var k :| 0 <= k < |ps| && ps[k] == p;
        assert StatusOf(os[k]) == Success;
      }
    }
  }

  lemma {:induction false} PredictedSucceeds(d: Dialect, rows: seq<Row>, ps: seq<Item>)
    requires d.engine.MariaDb? && forall p :: p in ps ==> p.title.Some?
    ensures Succeeded(PredictedAll(d, Insert, rows, ps)) <==> exists p :: p in ps && Fresh(d, rows, p)
  {
    if ps != [] {
      var first, rest := Predicted(d, Insert, rows, ps[0]), PredictedAll(d, Insert, rows, ps[1..]);
      PredictedSucceeds(d, rows, ps[1..]);
      assert forall p :: p in ps <==> p == ps[0] || p in ps[1..];
      SucceededAppend(first, rest);
      PredictedSuccess(d, rows, ps[0]);
    }
  }

  lemma {:induction false} SucceededAppend(xs: seq<Outcome>, ys: seq<Outcome>)
    ensures Succeeded(xs + ys) <==> Succeeded(xs) || Succeeded(ys)
  {
    var all := xs + ys;
    assert forall k :: 0 <= k < |xs| ==> all[k] == xs[k];
    assert forall k :: 0 <= k < |ys| ==> all[|xs| + k] == ys[k];
  }

  lemma {:induction false} PredictedSuccess(d: Dialect, rows: seq<Row>, p: Item)
    requires d.engine.MariaDb? && p.title.Some?
    ensures Succeeded(Predicted(d, Insert, rows, p)) <==> Fresh(d, rows, p)
  {
    JoinedNothing(d, Insert, rows, p);
    JoinedSkips(d, rows, p);
    assert forall k :: 0 <= k < |rows| ==> (Clashes(d, p, rows[k]) <==> Names(d, p, rows[k]));
    if Joined(d, Insert, rows, p) == [] {
      assert Predicted(d, Insert, rows, p)[0] == Inserted;
    }
  }

  lemma {:induction false} JoinedSkips(d: Dialect, rows: seq<Row>, p: Item)
    ensures !Succeeded(Joined(d, Insert, rows, p))
  {
    if rows != [] {
      JoinedSkips(d, rows[1..], p);
      if Names(d, p, rows[0]) {
        SucceededAppend([SkippedExists], Joined(d, Insert, rows[1..], p));
      }
    }
  }

  /** The titles parsed are titles sent. */
  lemma {:induction false} ParsedTitled(d: Dialect, items: seq<Item>)
    requires Complete(items, Insert) && Parsed(d, Insert, items).Some?
    ensures forall p :: p in Parsed(d, Insert, items).value ==> p.title.Some?
  {
    var ps := Parsed(d, Insert, items).value;
    CompleteStorable(items);
    forall p | p in ps
      ensures p.title.Some?
    {
      var k :| 0 <= k < |ps| && ps[k] == p;
      assert d.engine.Postgres? ==> items[k] in items;
      assert !d.engine.Postgres? ==> KeptOf(items)[k] in items;
    }
  }

  /** No status of a procedure run with a known mode is an error. */
  lemma {:induction false} NoErrors(d: Dialect, mode: Mode, rows: seq<Row>, ps: seq<Item>)
    ensures !AnyOf(ResultsOf(Outcomes(d, mode, rows, ps)), Error)
  {
    if d.engine.MariaDb? {
      PredictedNoErrors(d, mode, rows, ps);
    }
  }

  predicate Errorless(os: seq<Outcome>) {
    forall k :: 0 <= k < |os| ==> !os[k].InvalidMode?
  }

  lemma {:induction false} PredictedNoErrors(d: Dialect, mode: Mode, rows: seq<Row>, ps: seq<Item>)
    ensures Errorless(PredictedAll(d, mode, rows, ps))
  {
    if ps != [] {
      JoinedNoErrors(d, mode, rows, ps[0]);
      PredictedNoErrors(d, mode, rows, ps[1..]);
    }
  }

  lemma {:induction false} JoinedNoErrors(d: Dialect, mode: Mode, rows: seq<Row>, p: Item)
    ensures Errorless(Joined(d, mode, rows, p))
  {
    if rows != [] {
      JoinedNoErrors(d, mode, rows[1..], p);
    }
  }

  /** A POST whose call succeeds is answered with 201 exactly when the table grew. */
  lemma {:induction false} CreatedMeansGrown(d: Dialect, mode: Mode, rows: seq<Row>, items: seq<Item>, now: int, reply: Reply)
    requires Complete(items, mode) && Exec(d, mode, rows, items, now).Done?
    requires Responds(reply, mode, ResultsOf(Exec(d, mode, rows, items, now).outcomes))
    ensures CodeOf(reply) == 201 <==> mode.Insert? && |Exec(d, mode, rows, items, now).rows| > |rows|
  {
    var ps := Parsed(d, mode, items).value;
    var os := Outcomes(d, mode, rows, ps);
    NoErrors(d, mode, rows, ps);
    assert Succeeded(os) <==> AnyOf(ResultsOf(os), Success);
    if mode.Insert? {
      ParsedTitled(d, items);
      SuccessMeansGrown(d, rows, ps, now);
    }
  }

  /** The collation tells the option modes apart. */
  ghost predicate TellsModes(key: Collation) {
    forall m, n: Mode :: m != n ==> key(ModeText(m)) != key(ModeText(n)) && key(ModeText(m)) != key(ShortText(n))
  }

  function ShortText(mode: Mode): string {
    match mode
    case Insert => "insertFeed"
    case Update => "updateFeed"
    case Delete => "deleteFeed"
  }

  /** The mode text that a handler sends makes the procedure run in that mode. */
  lemma {:induction false} HandlersCallExec(d: Dialect, mode: Mode, rows: seq<Row>, items: seq<Item>, now: int)
    requires d.engine.Postgres? || TellsModes(d.key)
    ensures CallOf(d, ModeText(mode), rows, items, now) == Exec(d, mode, rows, items, now)
  {
    assert "insert" + "NewsFeed" == ModeText(Insert) && "insert" + "Feed" == ShortText(Insert);
    assert "update" + "NewsFeed" == ModeText(Update) && "update" + "Feed" == ShortText(Update);
    assert "delete" + "NewsFeed" == ModeText(Delete) && "delete" + "Feed" == ShortText(Delete);
    assert ModeText(Insert)[0] == 'i' && ModeText(Update)[0] == 'u' && ModeText(Delete)[0] == 'd';
    assert ModeOf(d, ModeText(mode)) == Some(mode);
  }
}
