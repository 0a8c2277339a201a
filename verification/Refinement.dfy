/** One bulk call equals one call per item, and so splits and permutes freely. */
module Refinement {
  import opened Feed
  import opened Sql
  import opened Bulk
  import opened BulkLaws

  // ---------------------------------------------------------------- parsing

  lemma {:induction false} KeptAppend(xs: seq<Item>, ys: seq<Item>)
    ensures KeptOf(xs + ys) == KeptOf(xs) + KeptOf(ys)
  {
    if xs == [] {
      assert xs + ys == ys;
    } else {
      assert (xs + ys)[1..] == xs[1..] + ys;
      KeptAppend(xs[1..], ys);
    }
  }

  /** Two parsed batches read as one, unless one of them cannot be read. */
  function Joint(a: Option<seq<Item>>, b: Option<seq<Item>>): Option<seq<Item>> {
    if a.Some? && b.Some? then Some(a.value + b.value) else None
  }

  lemma {:induction false} ParsedAppend(d: Dialect, mode: Mode, xs: seq<Item>, ys: seq<Item>)
    ensures Parsed(d, mode, xs + ys) == Joint(Parsed(d, mode, xs), Parsed(d, mode, ys))
  {
    match d.engine
    case Postgres =>
      MapsAppend(d, xs, ys);
      ChecksAppend(d, xs, ys);
    case MariaDb =>
      KeptAppend(xs, ys);
      MapsAppend(d, KeptOf(xs), KeptOf(ys));
    case MsSql =>
      KeptAppend(xs, ys);
      MapsAppend(d, KeptOf(xs), KeptOf(ys));
      ChecksAppend(d, KeptOf(xs), KeptOf(ys));
  }

  lemma {:induction false} MapsAppend(d: Dialect, xs: seq<Item>, ys: seq<Item>)
    ensures DatedAll(d, xs + ys) == DatedAll(d, xs) + DatedAll(d, ys)
    ensures CleanedAll(xs + ys) == CleanedAll(xs) + CleanedAll(ys)
  {
    var all := xs + ys;
    forall k | 0 <= k < |all|
      ensures DatedAll(d, all)[k] == (DatedAll(d, xs) + DatedAll(d, ys))[k]
      ensures CleanedAll(all)[k] == (CleanedAll(xs) + CleanedAll(ys))[k]
    {
      assert all[k] == if k < |xs| then xs[k] else ys[k - |xs|];
    }
  }

  lemma {:induction false} ChecksAppend(d: Dialect, xs: seq<Item>, ys: seq<Item>)
    ensures AllCastable(d, xs + ys) <==> AllCastable(d, xs) && AllCastable(d, ys)
    ensures AllFit(xs + ys) <==> AllFit(xs) && AllFit(ys)
  {
    assert forall p :: p in xs + ys <==> p in xs || p in ys;
  }

  lemma {:induction false} KeptApart(d: Dialect, items: seq<Item>)
    requires Apart(d, items)
    ensures Apart(d, KeptOf(items))
  {
    if items != [] {
      KeptApart(d, items[1..]);
      var rest := KeptOf(items[1..]);
      forall j | 0 <= j < |rest|
        ensures !Meets(d, items[0], rest[j])
      {
        assert rest[j] in items[1..];
      }
    }
  }

  lemma {:induction false} ParsedApart(d: Dialect, mode: Mode, items: seq<Item>)
    requires Apart(d, items) && Parsed(d, mode, items).Some?
    ensures Apart(d, Parsed(d, mode, items).value)
  {
    KeptApart(d, items);
  }

  // ------------------------------------------------------------------ stamps

  function Erase(r: Row): Row {
    r.(created := 0, modified := 0)
  }

  /** The table without its `created_date` and `modified_date` columns. */
  function Erased(rows: seq<Row>): seq<Row> {
    seq(|rows|, k requires 0 <= k < |rows| => Erase(rows[k]))
  }

  function ErasedAnswer(a: Answer): Answer {
    match a
    case Done(rows, outcomes) => Done(Erased(rows), outcomes)
    case Failed => Failed
  }

  lemma {:induction false} HitOnErased(d: Dialect, r: Row, ps: seq<Item>)
    ensures HitOn(d, Erase(r), ps) == HitOn(d, r, ps)
  {
    if ps != [] {
      HitOnErased(d, r, ps[1..]);
    }
  }

  lemma {:induction false} AdmittedErased(d: Dialect, rows: seq<Row>, ps: seq<Item>)
    ensures Admitted(d, Erased(rows), ps) == Admitted(d, rows, ps)
  {
    if ps != [] {
      AdmittedErased(d, rows, ps[..|ps| - 1]);
      var p := ps[|ps| - 1];
      assert forall k :: 0 <= k < |rows| ==> (Clashes(d, p, rows[k]) <==> Clashes(d, p, Erased(rows)[k]));
    }
  }

  lemma {:induction false} DoomedErased(d: Dialect, r: Row, ps: seq<Item>)
    ensures Doomed(d, Erase(r), ps) <==> Doomed(d, r, ps)
  {
    assert forall p: Item :: Names(d, p, Erase(r)) <==> Names(d, p, r);
  }

  lemma {:induction false} DeleteErased(d: Dialect, rows: seq<Row>, ps: seq<Item>)
    ensures DeleteRows(d, Erased(rows), ps) == Erased(DeleteRows(d, rows, ps))
  {
    if rows != [] {
      DeleteErased(d, rows[1..], ps);
      assert Erased(rows)[1..] == Erased(rows[1..]) && Erased(rows)[0] == Erase(rows[0]);
      DoomedErased(d, rows[0], ps);
      DeleteHead(d, rows, ps);
      DeleteHead(d, Erased(rows), ps);
    }
  }

  lemma {:induction false} JoinedErased(d: Dialect, mode: Mode, rows: seq<Row>, p: Item)
    ensures Joined(d, mode, Erased(rows), p) == Joined(d, mode, rows, p)
  {
    if rows != [] {
      JoinedErased(d, mode, rows[1..], p);
      assert Erased(rows)[1..] == Erased(rows[1..]);
    }
  }

  lemma {:induction false} OutcomesErased(d: Dialect, mode: Mode, rows: seq<Row>, ps: seq<Item>)
    ensures Outcomes(d, mode, Erased(rows), ps) == Outcomes(d, mode, rows, ps)
  {
    if d.engine.MariaDb? {
      forall p | p in ps
        ensures Joined(d, mode, Erased(rows), p) == Joined(d, mode, rows, p)
      {
        JoinedErased(d, mode, rows, p);
      }
      PredictedSame(d, mode, Erased(rows), rows, ps);
    } else {
      AdmittedErased(d, rows, ps);
      forall p, k | p in ps && 0 <= k < |rows|
        ensures Names(d, p, Erased(rows)[k]) <==> Names(d, p, rows[k])
        ensures HitOn(d, Erased(rows)[k], ps) == HitOn(d, rows[k], ps)
      {
        HitOnErased(d, rows[k], ps);
      }
      forall p | p in ps
        ensures Returned(d, mode, Erased(rows), ps, p) == Returned(d, mode, rows, ps, p)
      {
        assert Named(d, Erased(rows), p) <==> Named(d, rows, p);
      }
    }
  }

  /** The clock and the stored stamps influence nothing but the stamps. */
  lemma {:induction false} ClockOnlyStamps(d: Dialect, mode: Mode, rows: seq<Row>, items: seq<Item>, now: int)
    ensures ErasedAnswer(Exec(d, mode, rows, items, now)) == ErasedAnswer(Exec(d, mode, Erased(rows), items, 0))
  {
    var parsed := Parsed(d, mode, items);
    if parsed.Some? {
      var ps := parsed.value;
      AdmittedErased(d, rows, ps);
      DeleteErased(d, rows, ps);
      assert Erased(Erased(rows)) == Erased(rows);
      forall k | 0 <= k < |rows|
        ensures HitOn(d, Erased(rows)[k], ps) == HitOn(d, rows[k], ps)
      {
        HitOnErased(d, rows[k], ps);
      }
      if !WriteFails(d, mode, rows, ps) {
        OutcomesErased(d, mode, rows, ps);
        WrittenErased(d, mode, rows, ps, now);
      }
    }
  }

  lemma {:induction false} WrittenErased(d: Dialect, mode: Mode, rows: seq<Row>, ps: seq<Item>, now: int)
    requires !WriteFails(d, mode, rows, ps) && !WriteFails(d, mode, Erased(rows), ps)
    ensures Erased(Written(d, mode, rows, ps, now)) == Erased(Written(d, mode, Erased(rows), ps, 0))
  {
    match mode
    case Insert =>
      AdmittedErased(d, rows, ps);
      AdmittedAreItems(d, rows, ps);
    case Update =>
      forall k | 0 <= k < |rows|
        ensures Erase(Touched(d, rows[k], ps, now)) == Erase(Touched(d, Erased(rows)[k], ps, 0))
      {
        HitOnErased(d, rows[k], ps);
      }
    case Delete =>
      DeleteErased(d, rows, ps);
      assert Erased(Erased(DeleteRows(d, rows, ps))) == Erased(DeleteRows(d, rows, ps));
  }

  // -------------------------------------------------------------- refinement

  /** The simple form: one call per item, each at its own clock reading. */
  function Each(d: Dialect, mode: Mode, rows: seq<Row>, items: seq<Item>, clocks: seq<int>): Answer
    requires |clocks| == |items|
    decreases |items|
  {
    if items == [] then Done(rows, []) else
    var a := Exec(d, mode, rows, [items[0]], clocks[0]);
    if a.Failed? then Failed else Chain(a, Each(d, mode, a.rows, items[1..], clocks[1..]))
  }

  /** One call on xs + ys is a call on xs and then a call on ys. */
  lemma {:induction false} SplitLaw(d: Dialect, mode: Mode, rows: seq<Row>, xs: seq<Item>, ys: seq<Item>, now: int)
    requires Apart(d, xs + ys)
    ensures var a := Exec(d, mode, rows, xs, now);
            Exec(d, mode, rows, xs + ys, now)
            == if a.Failed? then Failed else Chain(a, Exec(d, mode, a.rows, ys, now))
  {
    ParsedAppend(d, mode, xs, ys);
    if Parsed(d, mode, xs + ys).Some? {
      ParsedApart(d, mode, xs + ys);
      var ps, qs := Parsed(d, mode, xs).value, Parsed(d, mode, ys).value;
      SplitApply(d, mode, rows, ps, qs, now);
    }
  }

  lemma {:induction false} EachErased(d: Dialect, mode: Mode, rows: seq<Row>, rows': seq<Row>, items: seq<Item>, clocks: seq<int>)
    requires |clocks| == |items| && Erased(rows) == Erased(rows')
    requires Apart(d, items)
    ensures ErasedAnswer(Each(d, mode, rows, items, clocks)) == ErasedAnswer(Exec(d, mode, rows', items, 0))
    decreases |items|
  {
    if items == [] {
      EmptyCall(d, mode, rows', 0);
    } else {
      var first, rest := [items[0]], items[1..];
      assert items == first + rest;
      SplitLaw(d, mode, rows', first, rest, 0);
      ClockOnlyStamps(d, mode, rows, first, clocks[0]);
      ClockOnlyStamps(d, mode, rows', first, 0);
      var a, a' := Exec(d, mode, rows, first, clocks[0]), Exec(d, mode, rows', first, 0);
      if a.Done? {
        EachErased(d, mode, a.rows, a'.rows, rest, clocks[1..]);
      }
    }
  }

  lemma {:induction false} EmptyCall(d: Dialect, mode: Mode, rows: seq<Row>, now: int)
    ensures Exec(d, mode, rows, [], now) == Done(rows, [])
  {
    if mode.Delete? {
      DeleteNothing(d, rows);
    }
  }

  lemma {:induction false} DeleteNothing(d: Dialect, rows: seq<Row>)
    ensures DeleteRows(d, rows, []) == rows
  {
    if rows != [] {
      DeleteNothing(d, rows[1..]);
    }
  }

  /** A bulk call has the effect and the answers of one call per item in order,
      at whatever times those calls are made, stamps aside. */
  lemma {:induction false} RefinementLaw(d: Dialect, mode: Mode, rows: seq<Row>, items: seq<Item>, now: int, clocks: seq<int>)
    requires Apart(d, items) && |clocks| == |items|
    ensures ErasedAnswer(Exec(d, mode, rows, items, now)) == ErasedAnswer(Each(d, mode, rows, items, clocks))
  {
    EachErased(d, mode, rows, Erased(rows), items, clocks) by {
      assert Erased(Erased(rows)) == Erased(rows);
    }
    ClockOnlyStamps(d, mode, rows, items, now);
  }
}
