/** How the number of rows moves with the number of successes reported. */
module Conservation {
  import opened Feed
  import opened Bulk
  import opened BulkLaws
  import opened TableLaws

  function Count(os: seq<Outcome>, s: CudStatus): (n: nat) {
    if os == [] then 0 else Count(os[..|os| - 1], s) + if StatusOf(os[|os| - 1]) == s then 1 else 0
  }

  lemma {:induction false} CountAppend(xs: seq<Outcome>, ys: seq<Outcome>, s: CudStatus)
    ensures Count(xs + ys, s) == Count(xs, s) + Count(ys, s)
  {
    if ys == [] {
      assert xs + ys == xs;
    } else {
      assert (xs + ys)[..|xs + ys| - 1] == xs + ys[..|ys| - 1];
      CountAppend(xs, ys[..|ys| - 1], s);
    }
  }

  /** By how many rows one success of the mode changes the table. */
  function Step(mode: Mode): int {
    match mode
    case Insert => 1
    case Update => 0
    case Delete => -1
  }

  lemma {:induction false} DeleteOne(d: Dialect, rows: seq<Row>, p: Item)
    requires Keyed(d.key, rows)
    ensures |DeleteRows(d, rows, [p])| == |rows| - if Named(d, rows, p) then 1 else 0
  {
    if rows != [] {
      DeleteOne(d, rows[1..], p);
      DeleteHead(d, rows, [p]);
      assert Doomed(d, rows[0], [p]) <==> Names(d, p, rows[0]) by {
        assert p in [p];
      }
      assert forall k :: 1 <= k < |rows| ==> rows[k] == rows[1..][k - 1];
      if Names(d, p, rows[0]) {
        assert !Named(d, rows[1..], p);
      } else if Named(d, rows, p) {
        var k :| 0 <= k < |rows| && Names(d, p, rows[k]);
        assert Names(d, p, rows[1..][k - 1]);
      }
    }
  }

  /** The answer accounts for the number of rows it leaves. */
  predicate Conserves(mode: Mode, n: nat, a: Answer) {
    a.Done? ==> |a.rows| == n + Step(mode) * Count(a.outcomes, Success)
  }

  predicate Titled(ps: seq<Item>) {
    forall k :: 0 <= k < |ps| ==> ps[k].title.Some?
  }

  // ------------------------------------------------------------------- inserts

  /** An item is answered as inserted exactly when it becomes a row. */
  lemma {:induction false} ReturnedAdmits(d: Dialect, rows: seq<Row>, ps: seq<Item>, k: nat)
    requires k < |ps| && ps[k].title.Some?
    requires d.engine.Postgres? ==> DistinctTitles(ps)
    ensures Met(d, Admitted(d, rows, ps), ps[k]) <==> Admits(d, rows, ps[..k], ps[k])
  {
    AdmittedAtIndex(d, rows, ps, ps[k]);
    if Admits(d, rows, ps[..k], ps[k]) {
      assert ps[k] in Admitted(d, rows, ps) && Meets(d, ps[k], ps[k]);
    }
    if q :| q in Admitted(d, rows, ps) && Meets(d, q, ps[k]) {
      AdmittedAreItems(d, rows, ps);
      AdmittedAtIndex(d, rows, ps, q);
      var j :| 0 <= j < |ps| && ps[j] == q && Admits(d, rows, ps[..j], q);
      assert d.engine.Postgres? ==> ps[j].title == ps[k].title;
      assert d.engine.Postgres? ==> j == k;
    }
  }

  lemma {:induction false} CountAdmitted(d: Dialect, rows: seq<Row>, ps: seq<Item>, os: seq<Outcome>)
    requires |os| == |ps|
    requires forall k :: 0 <= k < |ps| ==> os[k] == if Admits(d, rows, ps[..k], ps[k]) then Inserted else SkippedExists
    ensures Count(os, Success) == |Admitted(d, rows, ps)|
  {
    if ps != [] {
      var n := |ps| - 1;
      assert forall k :: 0 <= k < n ==> ps[..n][..k] == ps[..k];
      CountAdmitted(d, rows, ps[..n], os[..n]);
    }
  }

  lemma {:induction false} CountNone(os: seq<Outcome>, s: CudStatus)
    requires forall k :: 0 <= k < |os| ==> StatusOf(os[k]) != s
    ensures Count(os, s) == 0
  {
    if os != [] {
      CountNone(os[..|os| - 1], s);
    }
  }

  lemma {:induction false} JoinedInsertSkips(d: Dialect, rows: seq<Row>, p: Item)
    ensures forall k :: 0 <= k < |Joined(d, Insert, rows, p)| ==> Joined(d, Insert, rows, p)[k] == SkippedExists
  {
    if rows != [] {
      JoinedInsertSkips(d, rows[1..], p);
    }
  }

  lemma {:induction false} PredictedCount(d: Dialect, rows: seq<Row>, p: Item)
    requires d.engine.MariaDb? && p.title.Some?
    ensures Count(Predicted(d, Insert, rows, p), Success) == if Fresh(d, rows, p) then 1 else 0
  {
    var found := Joined(d, Insert, rows, p);
    JoinedNothing(d, Insert, rows, p);
    JoinedInsertSkips(d, rows, p);
    assert forall k :: 0 <= k < |rows| ==> (Clashes(d, p, rows[k]) <==> Names(d, p, rows[k]));
    if found == [] {
      assert Count([], Success) == 0 && [Inserted][..0] == [];
      assert Count([Inserted], Success) == 1;
    } else {
      CountNone(found, Success);
    }
  }

  /** On MariaDB this needs neither a key nor a check of the batch. */
  lemma {:induction false} MariaInsertCounts(d: Dialect, rows: seq<Row>, ps: seq<Item>)
    requires d.engine.MariaDb? && Titled(ps)
    ensures Count(PredictedAll(d, Insert, rows, ps), Success) == |Admitted(d, rows, ps)|
  {
    if ps != [] {
      var n := |ps| - 1;
      var last := ps[n];
      MariaInsertCounts(d, rows, ps[..n]);
      assert ps == ps[..n] + [last];
      PredictedAppend(d, Insert, rows, ps[..n], [last]);
      assert PredictedAll(d, Insert, rows, [last]) == Predicted(d, Insert, rows, last) by {
        assert [last][1..] == [];
      }
      CountAppend(PredictedAll(d, Insert, rows, ps[..n]), Predicted(d, Insert, rows, last), Success);
      PredictedCount(d, rows, last);
    }
  }

  lemma {:induction false} InsertConserves(d: Dialect, rows: seq<Row>, ps: seq<Item>, now: int)
    requires Titled(ps) && (d.engine.Postgres? ==> DistinctTitles(ps))
    ensures Conserves(Insert, |rows|, Apply(d, Insert, rows, ps, now))
  {
    var os := Outcomes(d, Insert, rows, ps);
    AdmittedAreItems(d, rows, ps);
    if d.engine.MariaDb? {
      MariaInsertCounts(d, rows, ps);
    } else {
      forall k | 0 <= k < |ps|
        ensures os[k] == if Admits(d, rows, ps[..k], ps[k]) then Inserted else SkippedExists
      {
        ReturnedAdmits(d, rows, ps, k);
      }
      CountAdmitted(d, rows, ps, os);
    }
  }

  // ------------------------------------------------------------------- deletes

  /** One stored row is named by both items. */
  predicate BothName(d: Dialect, rows: seq<Row>, p: Item, q: Item) {
    exists k :: 0 <= k < |rows| && Names(d, p, rows[k]) && Names(d, q, rows[k])
  }

  /** Two items of the batch name one stored row. */
  predicate NamedTwice(d: Dialect, rows: seq<Row>, ps: seq<Item>) {
    exists i, j :: 0 <= i < j < |ps| && BothName(d, rows, ps[i], ps[j])
  }

  /** An item of the batch and `p` name one stored row. */
  predicate NamedAgain(d: Dialect, rows: seq<Row>, ps: seq<Item>, p: Item) {
    exists i :: 0 <= i < |ps| && BothName(d, rows, ps[i], p)
  }

  lemma {:induction false} NamedTwiceAppend(d: Dialect, rows: seq<Row>, ps: seq<Item>, p: Item)
    ensures NamedTwice(d, rows, ps + [p]) <==> NamedTwice(d, rows, ps) || NamedAgain(d, rows, ps, p)
  {
    var all := ps + [p];
    assert all[|ps|] == p;
    assert forall i :: 0 <= i < |ps| ==> all[i] == ps[i];
    if NamedAgain(d, rows, ps, p) {
      var i :| 0 <= i < |ps| && BothName(d, rows, ps[i], p);
      assert BothName(d, rows, all[i], all[|ps|]);
    }
    if NamedTwice(d, rows, ps) {
      var i, j :| 0 <= i < j < |ps| && BothName(d, rows, ps[i], ps[j]);
      assert BothName(d, rows, all[i], all[j]);
    }
  }

  /** How many items name a stored row. */
  function Finds(d: Dialect, rows: seq<Row>, ps: seq<Item>): nat {
    if ps == [] then 0 else
    var n := |ps| - 1;
    Finds(d, rows, ps[..n]) + if Named(d, rows, ps[n]) then 1 else 0
  }

  lemma {:induction false} CountFinds(d: Dialect, rows: seq<Row>, ps: seq<Item>, os: seq<Outcome>)
    requires |os| == |ps|
    requires forall k :: 0 <= k < |ps| ==> os[k] == if Named(d, rows, ps[k]) then Deleted else SkippedNotFound
    ensures Count(os, Success) == Finds(d, rows, ps)
  {
    if ps != [] {
      CountFinds(d, rows, ps[..|ps| - 1], os[..|os| - 1]);
    }
  }

  /** After a delete the last item finds its row unless an earlier one named it too. */
  lemma {:induction false} StillFound(d: Dialect, rows: seq<Row>, ps: seq<Item>, p: Item)
    requires Keyed(d.key, rows)
    ensures var rest := DeleteRows(d, rows, ps);
      && (Named(d, rest, p) ==> Named(d, rows, p))
      && (Named(d, rows, p) && !Named(d, rest, p) <==> NamedAgain(d, rows, ps, p))
  {
    var rest := DeleteRows(d, rows, ps);
    if j :| 0 <= j < |rest| && Names(d, p, rest[j]) {
      assert rest[j] in rest && rest[j] in rows && !Doomed(d, rest[j], ps);
      var k :| 0 <= k < |rows| && rows[k] == rest[j];
      assert Names(d, p, rows[k]);
      forall i | 0 <= i < |ps|
        ensures !BothName(d, rows, ps[i], p)
      {
        assert ps[i] in ps && !Names(d, ps[i], rows[k]);
      }
    } else if k :| 0 <= k < |rows| && Names(d, p, rows[k]) {
      assert forall r :: r in rest ==> !Names(d, p, r);
      assert rows[k] in rows && Doomed(d, rows[k], ps);
      var q :| q in ps && Names(d, q, rows[k]);
      var i :| 0 <= i < |ps| && ps[i] == q;
      assert BothName(d, rows, ps[i], p);
    }
  }

  /** A delete takes no more rows than items name one, and as many exactly when no
      row is named twice. */
  lemma {:induction false} DeleteTakes(d: Dialect, rows: seq<Row>, ps: seq<Item>)
    requires Keyed(d.key, rows)
    ensures |rows| - |DeleteRows(d, rows, ps)| <= Finds(d, rows, ps)
    ensures |rows| - |DeleteRows(d, rows, ps)| == Finds(d, rows, ps) <==> !NamedTwice(d, rows, ps)
  {
    if ps == [] {
      DeleteNone(d, rows, ps);
    } else {
      var n := |ps| - 1;
      var init, last := ps[..n], ps[n];
      var rest := DeleteRows(d, rows, init);
      DeleteTakes(d, rows, init);
      assert ps == init + [last];
      DeleteSplit(d, rows, init, [last]);
      DeleteKeyed(d, rows, init);
      DeleteOne(d, rest, last);
      StillFound(d, rows, init, last);
      NamedTwiceAppend(d, rows, init, last);
    }
  }

  // ----------------------------------------------------------------------- law

  /** On a keyed table, for every batch that the handler accepts and on every engine:
      the table grows on insert, and shrinks on delete, by exactly the number of
      successes reported, and an update keeps its size. The one exception is a
      delete in which two items name one row, and it always is one. */
  lemma {:induction false} ConservationLaw(d: Dialect, mode: Mode, rows: seq<Row>, ps: seq<Item>, now: int)
    requires Keyed(d.key, rows) && Titled(ps) && DistinctTitles(ps)
    ensures Conserves(mode, |rows|, Apply(d, mode, rows, ps, now)) <==> !(mode.Delete? && NamedTwice(d, rows, ps))
  {
    match mode
    case Insert =>
      InsertConserves(d, rows, ps, now);
    case Update =>
    case Delete =>
      DeleteOutcomes(d, rows, ps);
      CountFinds(d, rows, ps, Outcomes(d, Delete, rows, ps));
      DeleteTakes(d, rows, ps);
  }

  /** Items that are apart never name one row twice; on Postgres that is what the
      duplicate check asks for. */
  lemma {:induction false} ApartNamesOnce(d: Dialect, rows: seq<Row>, ps: seq<Item>)
    ensures Apart(d, ps) ==> !NamedTwice(d, rows, ps) && DistinctTitles(ps)
    ensures d.engine.Postgres? && DistinctTitles(ps) ==> Apart(d, ps)
  {
    if Apart(d, ps) {
      forall i, j | 0 <= i < j < |ps|
        ensures !(ps[i].title.Some? && ps[i].title == ps[j].title)
      {
        assert !Meets(d, ps[i], ps[j]);
      }
      forall i, j | 0 <= i < j < |ps|
        ensures !BothName(d, rows, ps[i], ps[j])
      {
        assert !Meets(d, ps[i], ps[j]);
      }
    }
  }
}
