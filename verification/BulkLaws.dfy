/** The set-oriented statements refine one-item-at-a-time processing. */
module BulkLaws {
  import opened Feed
  import opened Sql
  import opened Bulk

  // ---------------------------------------------------------------- answers

  /** The answer of a first call continued by a second call on its table. */
  function Chain(a: Answer, b: Answer): Answer {
    if a.Done? && b.Done? then Done(b.rows, a.outcomes + b.outcomes) else Failed
  }

  /** `Apply` on xs, then on ys. */
  function ApplyBoth(d: Dialect, mode: Mode, rows: seq<Row>, xs: seq<Item>, ys: seq<Item>, now: int): Answer {
    var a := Apply(d, mode, rows, xs, now);
    if a.Failed? then Failed else Chain(a, Apply(d, mode, a.rows, ys, now))
  }

  // ----------------------------------------------------------------- insert

  lemma {:induction false} RivalAdmitted(d: Dialect, rows: seq<Row>, ps: seq<Item>, p: Item)
    requires p in ps && Fresh(d, rows, p) && p.title.Some?
    ensures exists a :: a in Admitted(d, rows, ps) && Rivals(d, a, p)
  {
    var n := |ps| - 1;
    var before := ps[..n];
    if p !in before && Admits(d, rows, before, p) {
      assert ps[n] == p && p in Admitted(d, rows, ps) && Rivals(d, p, p);
    } else {
      var q := p;
      if p !in before {
        q :| q in before && Rivals(d, q, p);
      }
      RivalAdmitted(d, rows, before, q);
      var a :| a in Admitted(d, rows, before) && Rivals(d, a, q);
      assert a in Admitted(d, rows, ps) && Rivals(d, a, p);
    }
  }

  lemma {:induction false} FreshAfter(d: Dialect, rows: seq<Row>, added: seq<Item>, now: int, p: Item)
    requires forall q :: q in added ==> Storable(q)
    ensures Fresh(d, rows + NewRows(added, now), p) <==>
            Fresh(d, rows, p) && forall q :: q in added ==> !Rivals(d, q, p)
  {
    var all := rows + NewRows(added, now);
    forall k | 0 <= k < |added|
      ensures Clashes(d, p, all[|rows| + k]) <==> Rivals(d, added[k], p)
    {
      assert added[k] in added;
    }
    if Fresh(d, rows, p) && forall q :: q in added ==> !Rivals(d, q, p) {
      forall k | 0 <= k < |all|
        ensures !Clashes(d, p, all[k])
      {
        assert k >= |rows| ==> added[k - |rows|] in added;
      }
    }
    if Fresh(d, all, p) {
      forall k | 0 <= k < |rows|
        ensures !Clashes(d, p, rows[k])
      {
        assert all[k] == rows[k];
      }
    }
  }

  lemma {:induction false} AdmittedSplit(d: Dialect, rows: seq<Row>, xs: seq<Item>, ys: seq<Item>, now: int)
    requires Apart(d, xs + ys)
    requires forall p :: p in Admitted(d, rows, xs) ==> Storable(p)
    ensures Admitted(d, rows, xs + ys)
         == Admitted(d, rows, xs) + Admitted(d, rows + NewRows(Admitted(d, rows, xs), now), ys)
  {
    if ys == [] {
      assert xs + ys == xs;
    } else {
      var n := |ys| - 1;
      assert (xs + ys)[..|xs + ys| - 1] == xs + ys[..n];
      ApartPrefix(d, xs, ys);
      AdmittedSplit(d, rows, xs, ys[..n], now);
      AdmitsAfter(d, rows, xs, ys, now);
    }
  }

  lemma {:induction false} ApartPrefix(d: Dialect, xs: seq<Item>, ys: seq<Item>)
    requires Apart(d, xs + ys) && ys != []
    ensures Apart(d, xs + ys[..|ys| - 1])
  {
    assert xs + ys[..|ys| - 1] == (xs + ys)[..|xs + ys| - 1];
  }

  /** The last item of ys fares in one statement as it does in a second one. */
  lemma {:induction false} AdmitsAfter(d: Dialect, rows: seq<Row>, xs: seq<Item>, ys: seq<Item>, now: int)
    requires Apart(d, xs + ys) && ys != []
    requires forall p :: p in Admitted(d, rows, xs) ==> Storable(p)
    ensures var n := |ys| - 1;
            Admits(d, rows, xs + ys[..n], ys[n])
            <==> Admits(d, rows + NewRows(Admitted(d, rows, xs), now), ys[..n], ys[n])
  {
    var y := ys[|ys| - 1];
    var first := Admitted(d, rows, xs);
    AdmittedAreItems(d, rows, xs);
    FreshAfter(d, rows, first, now, y);
    if Fresh(d, rows, y) {
      if q :| q in xs && Rivals(d, q, y) {
        if d.engine.Postgres? {
          RivalAdmitted(d, rows, xs, q);
        } else {
          ApartAcross(d, xs, ys, q, y);
        }
      }
    }
  }

  lemma {:induction false} ApartAcross(d: Dialect, xs: seq<Item>, ys: seq<Item>, x: Item, y: Item)
    requires Apart(d, xs + ys) && x in xs && y in ys
    ensures !Meets(d, x, y) && !Meets(d, y, x)
  {
    var i :| 0 <= i < |xs| && xs[i] == x;
    var j :| 0 <= j < |ys| && ys[j] == y;
    assert (xs + ys)[i] == x && (xs + ys)[|xs| + j] == y;
  }

  lemma {:induction false} AdmittedApart(d: Dialect, rows: seq<Row>, ps: seq<Item>)
    requires Apart(d, ps)
    ensures Apart(d, Admitted(d, rows, ps))
  {
    if ps != [] {
      var n := |ps| - 1;
      var kept := Admitted(d, rows, ps[..n]);
      AdmittedApart(d, rows, ps[..n]);
      AdmittedAreItems(d, rows, ps[..n]);
      forall i | 0 <= i < |kept|
        ensures !Meets(d, kept[i], ps[n])
      {
        assert kept[i] in ps[..n];
      }
    }
  }

  lemma {:induction false} JoinedAppend(d: Dialect, mode: Mode, rows: seq<Row>, more: seq<Row>, p: Item)
    ensures Joined(d, mode, rows + more, p) == Joined(d, mode, rows, p) + Joined(d, mode, more, p)
  {
    if rows == [] {
      assert rows + more == more;
    } else {
      assert (rows + more)[1..] == rows[1..] + more;
      JoinedAppend(d, mode, rows[1..], more, p);
    }
  }

  lemma {:induction false} JoinedNothing(d: Dialect, mode: Mode, rows: seq<Row>, p: Item)
    ensures Joined(d, mode, rows, p) == [] <==> !Named(d, rows, p)
  {
    if rows != [] {
      JoinedNothing(d, mode, rows[1..], p);
      assert forall k :: 1 <= k < |rows| ==> rows[k] == rows[1..][k - 1];
    }
  }

  lemma {:induction false} PredictedAppend(d: Dialect, mode: Mode, rows: seq<Row>, xs: seq<Item>, ys: seq<Item>)
    ensures PredictedAll(d, mode, rows, xs + ys)
         == PredictedAll(d, mode, rows, xs) + PredictedAll(d, mode, rows, ys)
  {
    if xs == [] {
      assert xs + ys == ys;
    } else {
      assert (xs + ys)[1..] == xs[1..] + ys;
      PredictedAppend(d, mode, rows, xs[1..], ys);
    }
  }

  /** Predictions depend on the table only through the rows each item joins. */
  lemma {:induction false} PredictedSame(d: Dialect, mode: Mode, rows: seq<Row>, rows': seq<Row>, ps: seq<Item>)
    requires forall p :: p in ps ==> Joined(d, mode, rows, p) == Joined(d, mode, rows', p)
    ensures PredictedAll(d, mode, rows, ps) == PredictedAll(d, mode, rows', ps)
  {
    if ps != [] {
      PredictedSame(d, mode, rows, rows', ps[1..]);
    }
  }

  lemma {:induction false} NewRowsJoin(rows: seq<Row>, first: seq<Item>, second: seq<Item>, now: int)
    requires (forall p :: p in first ==> Storable(p)) && (forall p :: p in second ==> Storable(p))
    ensures forall p :: p in first + second ==> Storable(p)
    ensures rows + NewRows(first + second, now) == rows + NewRows(first, now) + NewRows(second, now)
  {
    assert forall p :: p in first + second ==> p in first || p in second;
    assert NewRows(first + second, now) == NewRows(first, now) + NewRows(second, now);
  }

  lemma {:induction false} SplitInsertRows(d: Dialect, rows: seq<Row>, xs: seq<Item>, ys: seq<Item>, now: int)
    requires Apart(d, xs + ys) && !InsertFails(d, rows, xs) && !InsertFails(d, rows, xs + ys)
    requires forall p :: p in Admitted(d, rows, xs) ==> Storable(p)
    requires !InsertFails(d, rows + NewRows(Admitted(d, rows, xs), now), ys)
    ensures Written(d, Insert, rows, xs + ys, now) == Written(d, Insert, Written(d, Insert, rows, xs, now), ys, now)
  {
    var first := Admitted(d, rows, xs);
    var rows' := rows + NewRows(first, now);
    AdmittedSplit(d, rows, xs, ys, now);
    AdmittedAreItems(d, rows', ys);
    NewRowsJoin(rows, first, Admitted(d, rows', ys), now);
  }

  lemma {:induction false} SplitInsert(d: Dialect, rows: seq<Row>, xs: seq<Item>, ys: seq<Item>, now: int)
    requires Apart(d, xs + ys)
    ensures Apply(d, Insert, rows, xs + ys, now) == ApplyBoth(d, Insert, rows, xs, ys, now)
  {
    SplitInsertFails(d, rows, xs, ys, now);
    if !InsertFails(d, rows, xs + ys) {
      SplitInsertRows(d, rows, xs, ys, now);
      InsertOutcomesSplit(d, rows, xs, ys, now);
    }
  }

  /** On items that are apart only a missing value can make an insert fail. */
  lemma {:induction false} FailsByLack(d: Dialect, rows: seq<Row>, ps: seq<Item>)
    requires Apart(d, ps)
    ensures InsertFails(d, rows, ps) <==>
            exists p :: p in (if d.engine.Postgres? then ps else Admitted(d, rows, ps)) && !Storable(p)
  {
    AdmittedApart(d, rows, ps);
  }

  lemma {:induction false} SplitInsertFails(d: Dialect, rows: seq<Row>, xs: seq<Item>, ys: seq<Item>, now: int)
    requires Apart(d, xs + ys)
    ensures InsertFails(d, rows, xs) ==> InsertFails(d, rows, xs + ys)
    ensures !InsertFails(d, rows, xs) ==>
              && (forall p :: p in Admitted(d, rows, xs) ==> Storable(p))
              && (InsertFails(d, rows, xs + ys) <==> InsertFails(d, rows + NewRows(Admitted(d, rows, xs), now), ys))
  {
    ApartParts(d, xs, ys);
    FailsByLack(d, rows, xs + ys);
    FailsByLack(d, rows, xs);
    AdmittedAreItems(d, rows, xs);
    if InsertFails(d, rows, xs) {
      AdmittedPrefix(d, rows, xs, ys);
      var p :| p in (if d.engine.Postgres? then xs else Admitted(d, rows, xs)) && !Storable(p);
      assert p in (if d.engine.Postgres? then xs + ys else Admitted(d, rows, xs + ys));
    } else {
      var rows' := rows + NewRows(Admitted(d, rows, xs), now);
      FailsByLack(d, rows', ys);
      AdmittedSplit(d, rows, xs, ys, now);
      LacksAppend(Admitted(d, rows, xs), Admitted(d, rows', ys));
      LacksAppend(xs, ys);
    }
  }

  lemma {:induction false} AdmittedPrefix(d: Dialect, rows: seq<Row>, xs: seq<Item>, ys: seq<Item>)
    ensures Admitted(d, rows, xs) <= Admitted(d, rows, xs + ys)
  {
    if ys == [] {
      assert xs + ys == xs;
    } else {
      assert (xs + ys)[..|xs + ys| - 1] == xs + ys[..|ys| - 1];
      AdmittedPrefix(d, rows, xs, ys[..|ys| - 1]);
    }
  }

  lemma {:induction false} LacksAppend(xs: seq<Item>, ys: seq<Item>)
    ensures (exists p :: p in xs + ys && !Storable(p)) <==>
            (exists p :: p in xs && !Storable(p)) || (exists p :: p in ys && !Storable(p))
  {
    assert forall p :: p in xs + ys <==> p in xs || p in ys;
  }

  lemma {:induction false} ApartParts(d: Dialect, xs: seq<Item>, ys: seq<Item>)
    requires Apart(d, xs + ys)
    ensures Apart(d, xs) && Apart(d, ys)
  {
    forall i, j | 0 <= i < j < |xs|
      ensures !Meets(d, xs[i], xs[j])
    {
      assert (xs + ys)[i] == xs[i] && (xs + ys)[j] == xs[j];
    }
    forall i, j | 0 <= i < j < |ys|
      ensures !Meets(d, ys[i], ys[j])
    {
      assert (xs + ys)[|xs| + i] == ys[i] && (xs + ys)[|xs| + j] == ys[j];
    }
  }

  lemma {:induction false} InsertOutcomesSplit(d: Dialect, rows: seq<Row>, xs: seq<Item>, ys: seq<Item>, now: int)
    requires Apart(d, xs + ys)
    requires forall p :: p in Admitted(d, rows, xs) ==> Storable(p)
    ensures Outcomes(d, Insert, rows, xs + ys)
         == Outcomes(d, Insert, rows, xs)
          + Outcomes(d, Insert, rows + NewRows(Admitted(d, rows, xs), now), ys)
  {
    AdmittedAreItems(d, rows, xs);
    var added := NewRows(Admitted(d, rows, xs), now);
    if d.engine.MariaDb? {
      PredictedAppend(d, Insert, rows, xs, ys);
      forall y | y in ys
        ensures Joined(d, Insert, rows, y) == Joined(d, Insert, rows + added, y)
      {
        JoinedAppend(d, Insert, rows, added, y);
        JoinedNothing(d, Insert, added, y);
        forall k | 0 <= k < |added|
          ensures !Names(d, y, added[k])
        {
          ApartAcross(d, xs, ys, Admitted(d, rows, xs)[k], y);
        }
      }
      PredictedSame(d, Insert, rows, rows + added, ys);
    } else {
      MetSplit(d, rows, xs, ys, now);
    }
  }

  lemma {:induction false} MetSplit(d: Dialect, rows: seq<Row>, xs: seq<Item>, ys: seq<Item>, now: int)
    requires Apart(d, xs + ys)
    requires forall p :: p in Admitted(d, rows, xs) ==> Storable(p)
    ensures forall x :: x in xs ==>
      (Met(d, Admitted(d, rows, xs + ys), x) <==> Met(d, Admitted(d, rows, xs), x))
    ensures forall y :: y in ys ==>
      (Met(d, Admitted(d, rows, xs + ys), y) <==> Met(d, Admitted(d, rows + NewRows(Admitted(d, rows, xs), now), ys), y))
  {
    var first := Admitted(d, rows, xs);
    var rows' := rows + NewRows(first, now);
    AdmittedSplit(d, rows, xs, ys, now);
    AdmittedAreItems(d, rows, xs);
    AdmittedAreItems(d, rows', ys);
    forall x, y | x in xs && y in ys
      ensures !Meets(d, x, y) && !Meets(d, y, x)
    {
      ApartAcross(d, xs, ys, x, y);
    }
    MetAppend(d, first, Admitted(d, rows', ys));
  }

  lemma {:induction false} MetAppend(d: Dialect, ps: seq<Item>, qs: seq<Item>)
    ensures forall p :: Met(d, ps + qs, p) <==> Met(d, ps, p) || Met(d, qs, p)
  {
    forall p
      ensures Met(d, ps + qs, p) <==> Met(d, ps, p) || Met(d, qs, p)
    {
      assert forall q :: q in ps + qs <==> q in ps || q in qs;
    }
  }

  // ----------------------------------------------------------------- update

  lemma {:induction false} HitOnAppend(d: Dialect, r: Row, xs: seq<Item>, ys: seq<Item>)
    ensures HitOn(d, r, xs + ys) == if HitOn(d, r, xs).Some? then HitOn(d, r, xs) else HitOn(d, r, ys)
  {
    if xs == [] {
      assert xs + ys == ys;
    } else {
      assert (xs + ys)[1..] == xs[1..] + ys;
      HitOnAppend(d, r, xs[1..], ys);
    }
  }

  /** Once an item of xs has rewritten a row, no item of ys joins that row. */
  lemma {:induction false} TouchedOnce(d: Dialect, r: Row, xs: seq<Item>, ys: seq<Item>, now: int)
    requires Apart(d, xs + ys)
    ensures HitOn(d, r, xs).Some? ==> forall y :: y in ys ==> !Names(d, y, r) && !Names(d, y, Touched(d, r, xs, now))
    ensures HitOn(d, r, xs).Some? ==> HitOn(d, r, ys).None? && HitOn(d, Touched(d, r, xs, now), ys).None?
    ensures HitOn(d, r, xs).None? ==> Touched(d, r, xs, now) == r
  {
    if HitOn(d, r, xs).Some? {
      forall y | y in ys
        ensures !Names(d, y, r)
      {
        ApartAcross(d, xs, ys, HitOn(d, r, xs).value, y);
      }
    }
  }

  lemma {:induction false} SplitUpdate(d: Dialect, rows: seq<Row>, xs: seq<Item>, ys: seq<Item>, now: int)
    requires Apart(d, xs + ys)
    ensures Apply(d, Update, rows, xs + ys, now) == ApplyBoth(d, Update, rows, xs, ys, now)
  {
    var rows' := UpdateRows(d, rows, xs, now);
    forall k | 0 <= k < |rows|
      ensures HitOn(d, rows[k], xs + ys)
           == if HitOn(d, rows[k], xs).Some? then HitOn(d, rows[k], xs) else HitOn(d, rows'[k], ys)
      ensures HitOn(d, rows[k], xs).Some? ==> HitOn(d, rows'[k], ys).None?
      ensures HitOn(d, rows[k], xs).None? ==> rows'[k] == rows[k]
    {
      HitOnAppend(d, rows[k], xs, ys);
      TouchedOnce(d, rows[k], xs, ys, now);
    }
    assert UpdateFails(d, rows, xs + ys) <==> UpdateFails(d, rows, xs) || UpdateFails(d, rows', ys);
    if !UpdateFails(d, rows, xs + ys) {
      assert UpdateRows(d, rows, xs + ys, now) == UpdateRows(d, rows', ys, now);
      UpdateOutcomesSplit(d, rows, xs, ys, now);
    }
  }

  lemma {:induction false} JoinedUpdated(d: Dialect, rows: seq<Row>, xs: seq<Item>, ys: seq<Item>, now: int, y: Item)
    requires Apart(d, xs + ys) && y in ys
    ensures Joined(d, Update, UpdateRows(d, rows, xs, now), y) == Joined(d, Update, rows, y)
  {
    if rows != [] {
      var rows' := UpdateRows(d, rows, xs, now);
      assert rows'[1..] == UpdateRows(d, rows[1..], xs, now);
      JoinedUpdated(d, rows[1..], xs, ys, now, y);
      TouchedOnce(d, rows[0], xs, ys, now);
    }
  }

  lemma {:induction false} UpdateOutcomesSplit(d: Dialect, rows: seq<Row>, xs: seq<Item>, ys: seq<Item>, now: int)
    requires Apart(d, xs + ys)
    ensures Outcomes(d, Update, rows, xs + ys)
         == Outcomes(d, Update, rows, xs) + Outcomes(d, Update, UpdateRows(d, rows, xs, now), ys)
  {
    var rows' := UpdateRows(d, rows, xs, now);
    if d.engine.MariaDb? {
      PredictedAppend(d, Update, rows, xs, ys);
      forall y | y in ys
        ensures Joined(d, Update, rows, y) == Joined(d, Update, rows', y)
      {
        JoinedUpdated(d, rows, xs, ys, now, y);
      }
      PredictedSame(d, Update, rows, rows', ys);
    } else {
      forall x | x in xs
        ensures Returned(d, Update, rows, xs + ys, x) == Returned(d, Update, rows, xs, x)
      {
        forall r | r in rows && Names(d, x, r)
          ensures HitOn(d, r, xs + ys) == HitOn(d, r, xs)
        {
          HitOnAppend(d, r, xs, ys);
          if HitOn(d, r, ys).Some? {
            ApartAcross(d, xs, ys, x, HitOn(d, r, ys).value);
          }
        }
      }
      forall y | y in ys
        ensures Returned(d, Update, rows, xs + ys, y) == Returned(d, Update, rows', ys, y)
      {
        ReturnedUpdated(d, rows, xs, ys, now, y);
      }
    }
  }

  lemma {:induction false} ReturnedUpdated(d: Dialect, rows: seq<Row>, xs: seq<Item>, ys: seq<Item>, now: int, y: Item)
    requires Apart(d, xs + ys) && y in ys
    ensures Returned(d, Update, rows, xs + ys, y) == Returned(d, Update, UpdateRows(d, rows, xs, now), ys, y)
  {
    var rows' := UpdateRows(d, rows, xs, now);
    forall k | 0 <= k < |rows|
      ensures Names(d, y, rows[k]) <==> Names(d, y, rows'[k])
      ensures Names(d, y, rows[k]) ==> HitOn(d, rows[k], xs + ys) == HitOn(d, rows'[k], ys)
    {
      TouchedOnce(d, rows[k], xs, ys, now);
      HitOnAppend(d, rows[k], xs, ys);
    }
  }

  // ----------------------------------------------------------------- delete

  lemma {:induction false} DeleteSplit(d: Dialect, rows: seq<Row>, xs: seq<Item>, ys: seq<Item>)
    ensures DeleteRows(d, rows, xs + ys) == DeleteRows(d, DeleteRows(d, rows, xs), ys)
  {
    if rows != [] {
      DeleteSplit(d, rows[1..], xs, ys);
      assert Doomed(d, rows[0], xs + ys) <==> Doomed(d, rows[0], xs) || Doomed(d, rows[0], ys) by {
        assert forall p :: p in xs + ys <==> p in xs || p in ys;
      }
      DeleteHead(d, rows, xs);
    }
  }

  lemma {:induction false} DeleteHead(d: Dialect, rows: seq<Row>, xs: seq<Item>)
    requires rows != []
    ensures Doomed(d, rows[0], xs) ==> DeleteRows(d, rows, xs) == DeleteRows(d, rows[1..], xs)
    ensures !Doomed(d, rows[0], xs) ==>
              && DeleteRows(d, rows, xs) == [rows[0]] + DeleteRows(d, rows[1..], xs)
              && DeleteRows(d, rows, xs)[1..] == DeleteRows(d, rows[1..], xs)
  {
  }

  lemma {:induction false} JoinedDeleted(d: Dialect, rows: seq<Row>, xs: seq<Item>, ys: seq<Item>, y: Item)
    requires Apart(d, xs + ys) && y in ys
    ensures Joined(d, Delete, DeleteRows(d, rows, xs), y) == Joined(d, Delete, rows, y)
  {
    if rows != [] {
      JoinedDeleted(d, rows[1..], xs, ys, y);
      DeleteHead(d, rows, xs);
      if x :| x in xs && Names(d, x, rows[0]) {
        ApartAcross(d, xs, ys, x, y);
      }
    }
  }

  lemma {:induction false} SplitDelete(d: Dialect, rows: seq<Row>, xs: seq<Item>, ys: seq<Item>, now: int)
    requires Apart(d, xs + ys)
    ensures Apply(d, Delete, rows, xs + ys, now) == ApplyBoth(d, Delete, rows, xs, ys, now)
  {
    DeleteSplit(d, rows, xs, ys);
    DeleteOutcomesSplit(d, rows, xs, ys);
  }

  lemma {:induction false} DeleteOutcomesSplit(d: Dialect, rows: seq<Row>, xs: seq<Item>, ys: seq<Item>)
    requires Apart(d, xs + ys)
    ensures Outcomes(d, Delete, rows, xs + ys)
         == Outcomes(d, Delete, rows, xs) + Outcomes(d, Delete, DeleteRows(d, rows, xs), ys)
  {
    var rows' := DeleteRows(d, rows, xs);
    forall y | y in ys
      ensures Joined(d, Delete, rows, y) == Joined(d, Delete, rows', y)
      ensures Named(d, rows, y) <==> Named(d, rows', y)
    {
      JoinedDeleted(d, rows, xs, ys, y);
      JoinedNothing(d, Delete, rows, y);
      JoinedNothing(d, Delete, rows', y);
    }
    if d.engine.MariaDb? {
      PredictedAppend(d, Delete, rows, xs, ys);
      PredictedSame(d, Delete, rows, rows', ys);
    }
  }

  /** For parsed items too: one write on ps + qs is a write on ps and then one on qs. */
  lemma {:induction false} SplitApply(d: Dialect, mode: Mode, rows: seq<Row>, ps: seq<Item>, qs: seq<Item>, now: int)
    requires Apart(d, ps + qs)
    ensures Apply(d, mode, rows, ps + qs, now) == ApplyBoth(d, mode, rows, ps, qs, now)
  {
    match mode
    case Insert => SplitInsert(d, rows, ps, qs, now);
    case Update => SplitUpdate(d, rows, ps, qs, now);
    case Delete => SplitDelete(d, rows, ps, qs, now);
  }
}
