/** Sequential runs of bulk calls, with any mix of modes, on one table. */
module Runs {
  import opened Feed
  import opened Bulk
  import opened BulkLaws
  import opened Refinement
  import opened TableLaws
  import opened Conservation
  import opened Procedures

  datatype Call = Call(optionMode: string, items: seq<Item>, now: int)

  function AnswerTo(d: Dialect, rows: seq<Row>, c: Call): Answer {
    CallOf(d, c.optionMode, rows, c.items, c.now)
  }

  /** The table after one call, and after a run of calls. */
  function Next(d: Dialect, rows: seq<Row>, c: Call): seq<Row> {
    if AnswerTo(d, rows, c).Done? then AnswerTo(d, rows, c).rows else rows
  }

  function After(d: Dialect, rows: seq<Row>, calls: seq<Call>): seq<Row> {
    if calls == [] then rows
    else Next(d, After(d, rows, calls[..|calls| - 1]), calls[|calls| - 1])
  }

  /** To repeat no title is to be apart for an engine that compares exact text. */
  lemma {:induction false} DistinctIsApart(d: Dialect, items: seq<Item>)
    ensures DistinctTitles(items) <==> Apart(d.(engine := Postgres), items)
  {
    if Apart(d.(engine := Postgres), items) {
      forall i, j | 0 <= i < j < |items|
        ensures !(items[i].title.Some? && items[i].title == items[j].title)
      {
        assert !Meets(d.(engine := Postgres), items[i], items[j]);
      }
    }
  }

  lemma {:induction false} ParsedDistinct(d: Dialect, mode: Mode, items: seq<Item>)
    requires DistinctTitles(items) && Parsed(d, mode, items).Some?
    ensures DistinctTitles(Parsed(d, mode, items).value)
  {
    DistinctIsApart(d, items);
    KeptApart(d.(engine := Postgres), items);
    DistinctIsApart(d, KeptOf(items));
  }

  /** Whatever calls are made, with batches that repeat no title, the table never
      holds one title twice: MariaDB needs no key for it. */
  lemma {:induction false} RunKeepsTitles(d: Dialect, rows: seq<Row>, calls: seq<Call>)
    requires Distinct(rows) && forall k :: 0 <= k < |calls| ==> DistinctTitles(calls[k].items)
    ensures Distinct(After(d, rows, calls))
  {
    if calls != [] {
      var c, before := calls[|calls| - 1], After(d, rows, calls[..|calls| - 1]);
      RunKeepsTitles(d, rows, calls[..|calls| - 1]);
      var mode := ModeOf(d, c.optionMode);
      if mode.Some? && AnswerTo(d, before, c).Done? {
        ParsedDistinct(d, mode.value, c.items);
        DistinctLaw(d, mode.value, before, Parsed(d, mode.value, c.items).value, c.now);
      }
    }
  }

  /** A batch of titled items, no two of which join as one title on this engine. */
  predicate Orderly(d: Dialect, items: seq<Item>) {
    Apart(d, items) && Titled(items)
  }

  lemma {:induction false} OrderlyTidy(d: Dialect, mode: Mode, items: seq<Item>)
    requires Orderly(d, items) && Parsed(d, mode, items).Some?
    ensures Tidy(d, Parsed(d, mode, items).value)
  {
    ParsedApart(d, mode, items);
    var ps := Parsed(d, mode, items).value;
    forall p | p in ps
      ensures p.title.Some?
    {
      var k :| 0 <= k < |ps| && ps[k] == p;
      assert !d.engine.Postgres? ==> KeptOf(items)[k] in items;
    }
  }

  /** The statuses tell, item by item, what the call did to the table. */
  ghost predicate Honest(d: Dialect, rows: seq<Row>, c: Call) {
    var mode, a := ModeOf(d, c.optionMode), AnswerTo(d, rows, c);
    mode.Some? && a.Done? ==>
      var ps := Parsed(d, mode.value, c.items).value;
      && |a.outcomes| == |ps|
      && (forall k :: 0 <= k < |ps| ==> a.outcomes[k] == Verdict(d, mode.value, rows, ps, ps[k]))
      && |a.rows| == |rows| + Step(mode.value) * Count(a.outcomes, Success)
  }

  /** In every run of orderly batches the statuses of every call are honest: those
      MariaDB predicts before it writes come true, on every engine each item gets
      one, and titles stay unique under the collation. */
  lemma {:induction false} RunIsHonest(d: Dialect, rows: seq<Row>, calls: seq<Call>, c: Call)
    requires Keyed(d.key, rows) && Orderly(d, c.items)
    requires forall k :: 0 <= k < |calls| ==> Orderly(d, calls[k].items)
    ensures Keyed(d.key, After(d, rows, calls)) && Honest(d, After(d, rows, calls), c)
  {
    if calls != [] {
      var before, last := After(d, rows, calls[..|calls| - 1]), calls[|calls| - 1];
      RunIsHonest(d, rows, calls[..|calls| - 1], last);
      CallIsHonest(d, before, last);
    }
    CallIsHonest(d, After(d, rows, calls), c);
  }

  /** On Postgres these are all batches that the handler accepts: complete for their
      mode and repeating no title. */
  lemma {:induction false} PostgresRunIsHonest(d: Dialect, rows: seq<Row>, calls: seq<Call>, c: Call)
    requires d.engine.Postgres? && Keyed(d.key, rows) && DistinctTitles(c.items) && Titled(c.items)
    requires forall k :: 0 <= k < |calls| ==> DistinctTitles(calls[k].items) && Titled(calls[k].items)
    ensures Keyed(d.key, After(d, rows, calls)) && Honest(d, After(d, rows, calls), c)
  {
    ApartNamesOnce(d, rows, c.items);
    forall k | 0 <= k < |calls|
      ensures Orderly(d, calls[k].items)
    {
      ApartNamesOnce(d, rows, calls[k].items);
    }
    RunIsHonest(d, rows, calls, c);
  }

  lemma {:induction false} CallIsHonest(d: Dialect, rows: seq<Row>, c: Call)
    requires Keyed(d.key, rows) && Orderly(d, c.items)
    ensures Keyed(d.key, Next(d, rows, c)) && Honest(d, rows, c)
  {
    var mode := ModeOf(d, c.optionMode);
    if mode.Some? && AnswerTo(d, rows, c).Done? {
      var ps := Parsed(d, mode.value, c.items).value;
      OrderlyTidy(d, mode.value, c.items);
      TidyKeyed(d, mode.value, rows, ps, c.now);
      AnswerLaw(d, mode.value, rows, ps);
      ApartNamesOnce(d, rows, ps);
      ConservationLaw(d, mode.value, rows, ps, c.now);
    }
  }
}
