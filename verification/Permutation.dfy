/** The order of a batch does not matter, but for one case on Postgres. */
module Permutation {
  import opened Feed
  import opened Bulk
  import opened BulkLaws
  import opened TableLaws
  import opened Parity

  predicate IsPermutation(perm: seq<nat>, n: nat) {
    && |perm| == n
    && (forall k :: 0 <= k < n ==> perm[k] < n)
    && (forall j, k :: 0 <= j < k < n ==> perm[j] != perm[k])
    && (forall j :: 0 <= j < n ==> j in perm)
  }

  function Permuted<T>(s: seq<T>, perm: seq<nat>): (t: seq<T>)
    requires IsPermutation(perm, |s|)
    ensures |t| == |s| && forall k :: 0 <= k < |s| ==> t[k] == s[perm[k]]
  {
    seq(|perm|, k requires 0 <= k < |perm| => s[perm[k]])
  }

  lemma {:induction false} PermutedItems(ps: seq<Item>, perm: seq<nat>)
    requires IsPermutation(perm, |ps|)
    ensures forall p :: p in Permuted(ps, perm) <==> p in ps
  {
    var qs := Permuted(ps, perm);
    forall p | p in ps
      ensures p in qs
    {
      var j: nat :| j < |ps| && ps[j] == p;
      assert j in perm;
      var k :| 0 <= k < |perm| && perm[k] == j;
      assert qs[k] == p;
    }
  }

  lemma {:induction false} MeetsSymmetric(d: Dialect, p: Item, q: Item)
    ensures Meets(d, p, q) <==> Meets(d, q, p)
    ensures Rivals(d, p, q) <==> Rivals(d, q, p)
  {
  }

  lemma {:induction false} PermutedApart(d: Dialect, rows: seq<Row>, ps: seq<Item>, perm: seq<nat>)
    requires IsPermutation(perm, |ps|)
    ensures Apart(d, ps) ==> Apart(d, Permuted(ps, perm))
    ensures FreshApart(d, rows, ps) ==> FreshApart(d, rows, Permuted(ps, perm))
  {
    var qs := Permuted(ps, perm);
    forall i, j | 0 <= i < j < |qs|
      ensures Apart(d, ps) ==> !Meets(d, qs[i], qs[j])
      ensures FreshApart(d, rows, ps) && Fresh(d, rows, qs[i]) ==> !Rivals(d, qs[i], qs[j])
    {
      MeetsSymmetric(d, qs[i], qs[j]);
      if Rivals(d, qs[i], qs[j]) && Fresh(d, rows, qs[i]) {
        assert Fresh(d, rows, qs[j]);
      }
    }
  }

  lemma {:induction false} HitOnPermuted(d: Dialect, r: Row, ps: seq<Item>, qs: seq<Item>)
    requires Tidy(d, ps) && forall p :: p in ps <==> p in qs
    ensures HitOn(d, r, ps) == HitOn(d, r, qs)
  {
    var a, b := HitOn(d, r, ps), HitOn(d, r, qs);
    if a.Some? {
      assert a.value in qs;
      OnlyItself(d, ps, a.value);
    }
  }

  lemma {:induction false} DeletePermuted(d: Dialect, rows: seq<Row>, ps: seq<Item>, qs: seq<Item>)
    requires forall p :: p in ps <==> p in qs
    ensures DeleteRows(d, rows, ps) == DeleteRows(d, rows, qs)
  {
    if rows != [] {
      DeletePermuted(d, rows[1..], ps, qs);
      assert Doomed(d, rows[0], ps) <==> Doomed(d, rows[0], qs);
    }
  }

  /** The two answers leave the same rows, whatever their physical order. */
  predicate SameRows(a: Answer, b: Answer) {
    a.Done? && b.Done? && |a.rows| == |b.rows| && RowSet(a.rows) == RowSet(b.rows)
  }

  lemma {:induction false} SameVerdicts(d: Dialect, mode: Mode, rows: seq<Row>, ps: seq<Item>, qs: seq<Item>)
    requires forall p :: p in ps <==> p in qs
    requires mode.Insert? ==> FreshApart(d, rows, ps) && FreshApart(d, rows, qs)
    ensures forall p :: p in ps ==> Verdict(d, mode, rows, ps, p) == Verdict(d, mode, rows, qs, p)
  {
    if mode.Insert? {
      forall p | p in ps
        ensures p in Admitted(d, rows, ps) <==> p in Admitted(d, rows, qs)
      {
        AdmittedWhenApart(d, rows, ps, p);
        AdmittedWhenApart(d, rows, qs, p);
      }
    }
  }

  lemma {:induction false} InsertPermuted(d: Dialect, rows: seq<Row>, ps: seq<Item>, qs: seq<Item>, now: int)
    requires Tidy(d, ps) && Tidy(d, qs) && forall p :: p in ps <==> p in qs
    requires FreshApart(d, rows, ps) && FreshApart(d, rows, qs)
    ensures InsertFails(d, rows, ps) <==> InsertFails(d, rows, qs)
    ensures var a, b := Apply(d, Insert, rows, ps, now), Apply(d, Insert, rows, qs, now);
            a.Done? ==> forall r :: r in a.rows ==> r in b.rows
  {
    FailsByLack(d, rows, ps);
    FailsByLack(d, rows, qs);
    AdmittedAreItems(d, rows, ps);
    AdmittedAreItems(d, rows, qs);
    forall p
      ensures p in Admitted(d, rows, ps) <==> p in Admitted(d, rows, qs)
    {
      AdmittedWhenApart(d, rows, ps, p);
      AdmittedWhenApart(d, rows, qs, p);
    }
    if !InsertFails(d, rows, ps) {
      var added, added' := Admitted(d, rows, ps), Admitted(d, rows, qs);
      forall r | r in NewRows(added, now)
        ensures r in NewRows(added', now)
      {
        var k :| 0 <= k < |added| && NewRow(added[k], now) == r;
        assert added[k] in added';
        var j :| 0 <= j < |added'| && added'[j] == added[k];
        assert NewRows(added', now)[j] == r;
      }
    }
  }

  /** A permuted batch leaves the same rows and gives each item the same answer,
      provided an insert repeats no new title under the collation. */
  lemma {:induction false} PermutationLaw(d: Dialect, mode: Mode, rows: seq<Row>, ps: seq<Item>, perm: seq<nat>, now: int)
    requires Keyed(d.key, rows) && Tidy(d, ps) && IsPermutation(perm, |ps|)
    requires mode.Insert? ==> FreshApart(d, rows, ps)
    ensures var a, b := Apply(d, mode, rows, ps, now), Apply(d, mode, rows, Permuted(ps, perm), now);
            && (a.Failed? <==> b.Failed?)
            && (a.Done? ==> SameRows(a, b) && |a.outcomes| == |ps| && b.outcomes == Permuted(a.outcomes, perm))
  {
    var qs := Permuted(ps, perm);
    PermutedItems(ps, perm);
    PermutedApart(d, rows, ps, perm);
    match mode {
      case Insert =>
        InsertPermuted(d, rows, ps, qs, now);
        InsertPermuted(d, rows, qs, ps, now);
      case Update =>
        UpdatePermuted(d, rows, ps, qs, now);
      case Delete =>
        DeletePermuted(d, rows, ps, qs);
    }
    if Apply(d, mode, rows, ps, now).Done? {
      PermutedAnswers(d, mode, rows, ps, perm);
      SameCount(d, mode, rows, ps, qs, now);
    }
  }

  lemma {:induction false} UpdatePermuted(d: Dialect, rows: seq<Row>, ps: seq<Item>, qs: seq<Item>, now: int)
    requires Tidy(d, ps) && forall p :: p in ps <==> p in qs
    ensures UpdateFails(d, rows, ps) <==> UpdateFails(d, rows, qs)
    ensures UpdateRows(d, rows, ps, now) == UpdateRows(d, rows, qs, now)
  {
    forall k | 0 <= k < |rows|
      ensures HitOn(d, rows[k], ps) == HitOn(d, rows[k], qs)
    {
      HitOnPermuted(d, rows[k], ps, qs);
    }
  }

  lemma {:induction false} SameCount(d: Dialect, mode: Mode, rows: seq<Row>, ps: seq<Item>, qs: seq<Item>, now: int)
    requires Keyed(d.key, rows) && Apart(d, ps) && Apart(d, qs)
    requires var a, b := Apply(d, mode, rows, ps, now), Apply(d, mode, rows, qs, now);
             a.Done? && b.Done? && forall r :: r in a.rows <==> r in b.rows
    ensures SameRows(Apply(d, mode, rows, ps, now), Apply(d, mode, rows, qs, now))
  {
    TidyKeyed(d, mode, rows, ps, now);
    TidyKeyed(d, mode, rows, qs, now);
    var a, b := Apply(d, mode, rows, ps, now), Apply(d, mode, rows, qs, now);
    KeyedCount(d.key, a.rows);
    KeyedCount(d.key, b.rows);
    assert RowSet(a.rows) == RowSet(b.rows);
  }

  lemma {:induction false} PermutedAnswers(d: Dialect, mode: Mode, rows: seq<Row>, ps: seq<Item>, perm: seq<nat>)
    requires Keyed(d.key, rows) && Tidy(d, ps) && IsPermutation(perm, |ps|)
    requires mode.Insert? ==> FreshApart(d, rows, ps)
    ensures var os, os' := Outcomes(d, mode, rows, ps), Outcomes(d, mode, rows, Permuted(ps, perm));
            |os| == |ps| && os' == Permuted(os, perm)
  {
    var qs := Permuted(ps, perm);
    PermutedItems(ps, perm);
    PermutedApart(d, rows, ps, perm);
    SameVerdicts(d, mode, rows, ps, qs);
    AnswerLaw(d, mode, rows, ps);
    AnswerLaw(d, mode, rows, qs);
  }

  // -------------------------------------------------- the exception on Postgres

  function Backwards(n: nat): seq<nat> {
    seq(n, k requires 0 <= k < n => n - 1 - k)
  }

  lemma {:induction false} BackwardsIsPermutation(n: nat)
    ensures IsPermutation(Backwards(n), n)
  {
    forall j | 0 <= j < n
      ensures j in Backwards(n)
    {
      assert Backwards(n)[n - 1 - j] == j;
    }
  }

  /** An item that becomes a row has no rival before it. */
  lemma {:induction false} FirstOfItsKind(d: Dialect, rows: seq<Row>, ps: seq<Item>, m: nat, i: nat)
    requires d.engine.Postgres? && Tidy(d, ps) && m < |ps| && i < m
    requires ps[m] in Admitted(d, rows, ps)
    ensures !Rivals(d, ps[i], ps[m])
  {
    AdmittedAtIndex(d, rows, ps, ps[m]);
    var k :| 0 <= k < |ps| && ps[k] == ps[m] && Admits(d, rows, ps[..k], ps[m]);
    assert k == m;
    assert ps[..m][i] == ps[i];
  }

  /** On Postgres a batch can be reversed without changing the table exactly when
      it repeats no new title under the collation: of two such items the first
      one is stored. */
  lemma {:induction false} ReversalTells(d: Dialect, rows: seq<Row>, ps: seq<Item>, now: int)
    requires d.engine.Postgres? && Keyed(d.key, rows) && Tidy(d, ps) && forall p :: p in ps ==> Storable(p)
    ensures IsPermutation(Backwards(|ps|), |ps|)
    ensures SameRows(Apply(d, Insert, rows, ps, now), Apply(d, Insert, rows, Permuted(ps, Backwards(|ps|)), now))
            <==> FreshApart(d, rows, ps)
  {
    var perm := Backwards(|ps|);
    BackwardsIsPermutation(|ps|);
    PermutedItems(ps, perm);
    if FreshApart(d, rows, ps) {
      PermutationLaw(d, Insert, rows, ps, perm, now);
    } else {
      var i, j :| 0 <= i < j < |ps| && Fresh(d, rows, ps[i]) && Rivals(d, ps[i], ps[j]);
      RivalAdmitted(d, rows, ps, ps[i]);
      var a :| a in Admitted(d, rows, ps) && Rivals(d, a, ps[i]);
      if a in Admitted(d, rows, Permuted(ps, perm)) {
        WinsBothWays(d, rows, ps, a, i, j);
      } else {
        LosesItsRow(d, rows, ps, Permuted(ps, perm), a, now);
      }
    }
  }

  /** An item with a rival after it does not become a row when the batch is reversed. */
  lemma {:induction false} LosesBackwards(d: Dialect, rows: seq<Row>, ps: seq<Item>, m: nat, j: nat)
    requires d.engine.Postgres? && Tidy(d, ps) && m < j < |ps| && Rivals(d, ps[j], ps[m])
    requires IsPermutation(Backwards(|ps|), |ps|)
    ensures ps[m] !in Admitted(d, rows, Permuted(ps, Backwards(|ps|)))
  {
    var n, qs := |ps|, Permuted(ps, Backwards(|ps|));
    PermutedApart(d, rows, ps, Backwards(n));
    PermutedItems(ps, Backwards(n));
    assert qs[n - 1 - m] == ps[m] && qs[n - 1 - j] == ps[j];
    if qs[n - 1 - m] in Admitted(d, rows, qs) {
      FirstOfItsKind(d, rows, qs, n - 1 - m, n - 1 - j);
    }
  }

  lemma {:induction false} WinsBothWays(d: Dialect, rows: seq<Row>, ps: seq<Item>, a: Item, i: nat, j: nat)
    requires d.engine.Postgres? && Tidy(d, ps) && IsPermutation(Backwards(|ps|), |ps|)
    requires i < j < |ps| && Rivals(d, ps[i], ps[j]) && Rivals(d, a, ps[i])
    requires a in Admitted(d, rows, ps)
    ensures a !in Admitted(d, rows, Permuted(ps, Backwards(|ps|)))
  {
    AdmittedAreItems(d, rows, ps);
    var m :| 0 <= m < |ps| && ps[m] == a;
    if i < m {
      FirstOfItsKind(d, rows, ps, m, i);
    }
    LosesBackwards(d, rows, ps, m, j);
  }

  lemma {:induction false} LosesItsRow(d: Dialect, rows: seq<Row>, ps: seq<Item>, qs: seq<Item>, a: Item, now: int)
    requires d.engine.Postgres? && Tidy(d, ps) && forall p :: p in ps <==> p in qs
    requires forall p :: p in ps ==> Storable(p)
    requires a in Admitted(d, rows, ps) && a !in Admitted(d, rows, qs)
    ensures !SameRows(Apply(d, Insert, rows, ps, now), Apply(d, Insert, rows, qs, now))
  {
    AdmittedAreItems(d, rows, ps);
    AdmittedAreItems(d, rows, qs);
    var added, added' := Admitted(d, rows, ps), Admitted(d, rows, qs);
    var r := NewRow(a, now);
    var k :| 0 <= k < |added| && added[k] == a;
    assert NewRows(added, now)[k] == r;
    if !InsertFails(d, rows, qs) {
      NotAdded(d, rows, ps, added', a, now);
      assert r in RowSet(rows + NewRows(added, now)) && r !in RowSet(rows + NewRows(added', now));
    }
  }

  lemma {:induction false} NotAdded(d: Dialect, rows: seq<Row>, ps: seq<Item>, added: seq<Item>, a: Item, now: int)
    requires d.engine.Postgres? && Tidy(d, ps) && a in ps && Fresh(d, rows, a) && Storable(a)
    requires a !in added && forall p :: p in added ==> p in ps && Storable(p)
    ensures NewRow(a, now) !in rows + NewRows(added, now)
  {
    assert forall j :: 0 <= j < |rows| ==> !Clashes(d, a, rows[j]);
    OnlyItself(d, ps, a);
    forall j | 0 <= j < |added|
      ensures NewRow(added[j], now) != NewRow(a, now)
    {
      var q := added[j];
      assert q in added && (q.title == a.title ==> Meets(d, q, a));
    }
  }
}
