/** What remains of a table: the rows that later calls have neither rewritten nor
    deleted, in their old order. No key is needed for any of this. */
module Survivors {
  import opened Feed
  import opened Bulk
  import opened BulkLaws
  import opened TableLaws

  /** `a` is `b` with some rows taken out. */
  predicate Remains(a: seq<Row>, b: seq<Row>) {
    a == [] || (b != [] && (Remains(a, b[1..]) || (a[0] == b[0] && Remains(a[1..], b[1..]))))
  }

  lemma {:induction false} RemainsSelf(a: seq<Row>)
    ensures Remains(a, a)
  {
    if a != [] {
      RemainsSelf(a[1..]);
    }
  }

  lemma {:induction false} RemainsThrough(a: seq<Row>, b: seq<Row>, c: seq<Row>)
    requires Remains(a, b) && Remains(b, c)
    ensures Remains(a, c)
    decreases |c|
  {
    if a != [] {
      if Remains(b, c[1..]) {
        RemainsThrough(a, b, c[1..]);
      } else if Remains(a, b[1..]) {
        RemainsThrough(a, b[1..], c[1..]);
      } else {
        RemainsThrough(a[1..], b[1..], c[1..]);
      }
    }
  }

  /** It is shorter unless nothing was taken out. */
  lemma {:induction false} RemainsCount(a: seq<Row>, b: seq<Row>)
    requires Remains(a, b)
    ensures |a| <= |b| && (|a| == |b| <==> a == b)
  {
    if a != [] {
      if Remains(a, b[1..]) {
        RemainsCount(a, b[1..]);
      } else {
        RemainsCount(a[1..], b[1..]);
      }
    }
  }

  /** The rows that carry no later stamp than `t`. */
  function Until(rows: seq<Row>, t: int): seq<Row> {
    if rows == [] then []
    else if rows[0].modified <= t then [rows[0]] + Until(rows[1..], t)
    else Until(rows[1..], t)
  }

  lemma {:induction false} UntilAll(rows: seq<Row>, t: int)
    requires forall k :: 0 <= k < |rows| ==> rows[k].modified <= t
    ensures Until(rows, t) == rows
  {
    if rows != [] {
      UntilAll(rows[1..], t);
    }
  }

  lemma {:induction false} UntilRemains(a: seq<Row>, b: seq<Row>, t: int)
    requires Remains(a, b)
    ensures Remains(Until(a, t), Until(b, t))
  {
    if a != [] {
      if Remains(a, b[1..]) {
        UntilRemains(a, b[1..], t);
        MoreRemains(Until(a, t), b[0], Until(b[1..], t));
      } else {
        UntilRemains(a[1..], b[1..], t);
        SameHeadRemains(b[0], Until(a[1..], t), Until(b[1..], t));
      }
    }
  }

  lemma {:induction false} MoreRemains(a: seq<Row>, r: Row, b: seq<Row>)
    requires Remains(a, b)
    ensures Remains(a, [r] + b)
  {
    assert ([r] + b)[1..] == b;
  }

  lemma {:induction false} SameHeadRemains(r: Row, a: seq<Row>, b: seq<Row>)
    requires Remains(a, b)
    ensures Remains([r] + a, [r] + b)
  {
    assert ([r] + a)[1..] == a && ([r] + b)[1..] == b;
  }

  /** Rows rewritten after `t` are taken out, rows added after `t` do not count. */
  lemma {:induction false} UntilRewritten(rows: seq<Row>, rows': seq<Row>, t: int)
    requires |rows| <= |rows'|
    requires forall k :: 0 <= k < |rows| ==> rows'[k] == rows[k] || rows'[k].modified > t
    requires forall k :: |rows| <= k < |rows'| ==> rows'[k].modified > t
    ensures Remains(Until(rows', t), Until(rows, t))
  {
    if rows' != [] {
      if rows == [] {
        UntilRewritten([], rows'[1..], t);
      } else {
        UntilRewritten(rows[1..], rows'[1..], t);
        if rows'[0].modified <= t {
          SameHeadRemains(rows[0], Until(rows'[1..], t), Until(rows[1..], t));
        } else if rows[0].modified <= t {
          MoreRemains(Until(rows'[1..], t), rows[0], Until(rows[1..], t));
        }
      }
    }
  }

  lemma {:induction false} DeleteRemains(d: Dialect, rows: seq<Row>, ps: seq<Item>)
    ensures Remains(DeleteRows(d, rows, ps), rows)
  {
    if rows != [] {
      DeleteRemains(d, rows[1..], ps);
      DeleteHead(d, rows, ps);
      if Doomed(d, rows[0], ps) {
        MoreRemains(DeleteRows(d, rows[1..], ps), rows[0], rows[1..]);
      } else {
        SameHeadRemains(rows[0], DeleteRows(d, rows[1..], ps), rows[1..]);
      }
      assert [rows[0]] + rows[1..] == rows;
    }
  }

  /** The table after a bulk call; a call that fails leaves it as it was. */
  function AfterCall(d: Dialect, mode: Mode, rows: seq<Row>, items: seq<Item>, now: int): seq<Row> {
    var a := Exec(d, mode, rows, items, now);
    if a.Done? then a.rows else rows
  }

  lemma {:induction false} InsertPositions(d: Dialect, rows: seq<Row>, ps: seq<Item>, now: int, t: int)
    requires t < now && Apply(d, Insert, rows, ps, now).Done?
    ensures Remains(Until(Apply(d, Insert, rows, ps, now).rows, t), Until(rows, t))
  {
    var added := Admitted(d, rows, ps);
    AdmittedAreItems(d, rows, ps);
    UntilRewritten(rows, rows + NewRows(added, now), t);
  }

  lemma {:induction false} UpdatePositions(d: Dialect, rows: seq<Row>, ps: seq<Item>, now: int, t: int)
    requires t < now
    ensures Remains(Until(UpdateRows(d, rows, ps, now), t), Until(rows, t))
  {
    UntilRewritten(rows, UpdateRows(d, rows, ps, now), t);
  }

  /** Whatever a call does, of the rows stamped before it only some are taken out:
      on every engine, for every batch and every table. */
  lemma {:induction false} CallOnlyTakes(d: Dialect, mode: Mode, rows: seq<Row>, items: seq<Item>, now: int, t: int)
    requires t < now
    ensures Remains(Until(AfterCall(d, mode, rows, items, now), t), Until(rows, t))
  {
    if Exec(d, mode, rows, items, now).Done? {
      var ps := Parsed(d, mode, items).value;
      match mode {
        case Insert => InsertPositions(d, rows, ps, now, t);
        case Update => UpdatePositions(d, rows, ps, now, t);
        case Delete =>
          DeleteRemains(d, rows, ps);
          UntilRemains(DeleteRows(d, rows, ps), rows, t);
      }
    } else {
      RemainsSelf(Until(rows, t));
    }
  }

  lemma {:induction false} CallStamps(d: Dialect, mode: Mode, rows: seq<Row>, items: seq<Item>, now: int)
    ensures var rows' := AfterCall(d, mode, rows, items, now);
            && (forall k :: 0 <= k < |rows'| ==> rows'[k] in rows || rows'[k].modified == now)
            && (!mode.Delete? ==> |rows| <= |rows'|)
  {
    if Exec(d, mode, rows, items, now).Done? {
      var rows' := AfterCall(d, mode, rows, items, now);
      StampLaw(d, mode, rows, Parsed(d, mode, items).value, now);
      assert forall k :: 0 <= k < |rows'| ==> rows'[k] in rows';
    }
  }
}
