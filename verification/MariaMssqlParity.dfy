/** When MariaDB and MSSQL, which keep the same items, do the same with them. */
module MariaMssqlParity {
  import opened Feed
  import opened Sql
  import opened Bulk
  import opened BulkLaws
  import opened TableLaws
  import opened Parity

  /** What the two engines make of the items that both keep. */
  lemma {:induction false} KeptRead(key: Collation, cast: string -> Option<string>, mode: Mode, rows: seq<Row>, items: seq<Item>, now: int)
    requires Canonical(cast, KeptOf(items))
    ensures Exec(Maria(key, cast), mode, rows, items, now) == Apply(Maria(key, cast), mode, rows, CleanedAll(KeptOf(items)), now)
    ensures Exec(Ms(key, cast), mode, rows, items, now)
         == if AllFit(KeptOf(items)) then Apply(Ms(key, cast), mode, rows, CleanedAll(KeptOf(items)), now) else Failed
    ensures Exec(Maria(key, cast), mode, rows, items, now).Done?
  {
    KeptDated(cast, items);
    AdmittedAreItems(Maria(key, cast), rows, CleanedAll(KeptOf(items)));
  }

  /** MariaDB and MSSQL inserts agree exactly when the texts kept fit their columns
      and no new title is repeated under the collation. */
  lemma {:induction false} InsertParityMariaMssql(key: Collation, cast: string -> Option<string>, rows: seq<Row>, items: seq<Item>, now: int)
    requires Keyed(key, rows) && Canonical(cast, KeptOf(items))
    ensures Exec(Maria(key, cast), Insert, rows, items, now) == Exec(Ms(key, cast), Insert, rows, items, now)
            <==> AllFit(KeptOf(items)) && FreshApart(Ms(key, cast), rows, CleanedAll(KeptOf(items)))
  {
    var maria, ms, ps := Maria(key, cast), Ms(key, cast), CleanedAll(KeptOf(items));
    KeptRead(key, cast, Insert, rows, items, now);
    KeptDated(cast, items);
    AdmittedAreItems(ms, rows, ps);
    NoRivalsAdmitted(ms, rows, ps);
    SameAdmitted(maria, ms, rows, ps);
    SameInsertAnswers(maria, ms, rows, ps);
  }

  lemma {:induction false} SameInsertAnswers(maria: Dialect, ms: Dialect, rows: seq<Row>, ps: seq<Item>)
    requires maria.engine.MariaDb? && ms.engine.MsSql? && maria.key == ms.key && Keyed(ms.key, rows)
    requires forall p :: p in ps ==> p.title.Some?
    ensures Outcomes(maria, Insert, rows, ps) == Outcomes(ms, Insert, rows, ps)
  {
    PredictedVerdicts(maria, Insert, rows, ps, ps);
    SameAdmitted(maria, ms, rows, ps);
    forall k | 0 <= k < |ps|
      ensures Met(ms, Admitted(ms, rows, ps), ps[k]) <==> ps[k] in Admitted(ms, rows, ps)
    {
      AdmittedFresh(ms, rows, ps, ps[k]);
      if q :| q in Admitted(ms, rows, ps) && Meets(ms, q, ps[k]) {
        AdmittedFresh(ms, rows, ps, q);
      }
      assert Meets(ms, ps[k], ps[k]);
    }
    assert Outcomes(maria, Insert, rows, ps) == Outcomes(ms, Insert, rows, ps);
  }

  /** Both change tests say the same of every item and the row it names. */
  predicate SeenAlike(key: Collation, rows: seq<Row>, ps: seq<Item>) {
    forall k, p :: 0 <= k < |rows| && p in ps && p.title.Some? && key(p.title.value) == key(rows[k].title) ==>
      (MariaChanged(key, rows[k], p) <==> MssqlChanged(key, rows[k], p))
  }

  /** MariaDB and MSSQL updates of items that are apart agree exactly when the texts
      kept fit their columns and both see the same changes. */
  lemma {:induction false} UpdateParityMariaMssql(key: Collation, cast: string -> Option<string>, rows: seq<Row>, items: seq<Item>, now: int)
    requires Keyed(key, rows) && Canonical(cast, KeptOf(items)) && Apart(Ms(key, cast), CleanedAll(KeptOf(items)))
    ensures Exec(Maria(key, cast), Update, rows, items, now) == Exec(Ms(key, cast), Update, rows, items, now)
            <==> AllFit(KeptOf(items)) && SeenAlike(key, rows, CleanedAll(KeptOf(items)))
  {
    var maria, ms, ps := Maria(key, cast), Ms(key, cast), CleanedAll(KeptOf(items));
    KeptRead(key, cast, Update, rows, items, now);
    KeptDated(cast, items);
    SeenAlikeTells(maria, ms, rows, ps, now);
  }

  lemma {:induction false} SeenAlikeTells(maria: Dialect, ms: Dialect, rows: seq<Row>, ps: seq<Item>, now: int)
    requires maria.engine.MariaDb? && ms.engine.MsSql? && maria.key == ms.key && Keyed(ms.key, rows)
    requires Apart(ms, ps) && forall p :: p in ps ==> Storable(p)
    ensures Apply(maria, Update, rows, ps, now) == Apply(ms, Update, rows, ps, now) <==> SeenAlike(ms.key, rows, ps)
  {
    UpdateDone(maria, rows, ps, now);
    UpdateDone(ms, rows, ps, now);
    assert Apart(maria, ps) by {
      assert forall p, q :: Meets(maria, p, q) <==> Meets(ms, p, q);
    }
    AnswerLaw(maria, Update, rows, ps);
    AnswerLaw(ms, Update, rows, ps);
    if SeenAlike(ms.key, rows, ps) {
      SeenAlikeSame(maria, ms, rows, ps, now);
    } else {
      var k, i := UnlikeAt(maria, ms, rows, ps);
      ToldApart(Apply(maria, Update, rows, ps, now), Apply(ms, Update, rows, ps, now), i);
    }
  }

  lemma {:induction false} SeenAlikeSame(maria: Dialect, ms: Dialect, rows: seq<Row>, ps: seq<Item>, now: int)
    requires maria.engine.MariaDb? && ms.engine.MsSql? && maria.key == ms.key && SeenAlike(ms.key, rows, ps)
    ensures UpdateRows(maria, rows, ps, now) == UpdateRows(ms, rows, ps, now)
    ensures forall p :: p in ps ==> Verdict(maria, Update, rows, ps, p) == Verdict(ms, Update, rows, ps, p)
  {
    forall k | 0 <= k < |rows|
      ensures HitOn(maria, rows[k], ps) == HitOn(ms, rows[k], ps)
    {
      SameHit(maria, ms, rows[k], ps);
    }
    forall p | p in ps
      ensures Verdict(maria, Update, rows, ps, p) == Verdict(ms, Update, rows, ps, p)
    {
      SameVerdict(maria, ms, rows, ps, p);
    }
  }

  lemma {:induction false} UnlikeAt(maria: Dialect, ms: Dialect, rows: seq<Row>, ps: seq<Item>) returns (k: nat, i: nat)
    requires maria.engine.MariaDb? && ms.engine.MsSql? && maria.key == ms.key && Keyed(ms.key, rows) && !SeenAlike(ms.key, rows, ps)
    ensures i < |ps| && Verdict(maria, Update, rows, ps, ps[i]) != Verdict(ms, Update, rows, ps, ps[i])
  {
    var p;
    k, p :| 0 <= k < |rows| && p in ps && p.title.Some? && ms.key(p.title.value) == ms.key(rows[k].title)
            && MariaChanged(ms.key, rows[k], p) != MssqlChanged(ms.key, rows[k], p);
    i :| 0 <= i < |ps| && ps[i] == p;
    HitsOnlyThere(maria, rows, k, p);
    HitsOnlyThere(ms, rows, k, p);
    assert Hits(maria, p, rows[k]) != Hits(ms, p, rows[k]);
  }

  lemma {:induction false} SameDeletes(maria: Dialect, ms: Dialect, rows: seq<Row>, ps: seq<Item>, now: int)
    requires maria.engine.MariaDb? && ms.engine.MsSql? && maria.key == ms.key && Keyed(ms.key, rows)
    requires forall p :: p in ps ==> Storable(p)
    ensures Apply(ms, Delete, rows, ps, now).Done?
    ensures Apply(maria, Delete, rows, ps, now) == Apply(ms, Delete, rows, ps, now)
  {
    assert forall k :: 0 <= k < |ps| ==> ps[k] in ps;
    DeleteOutcomes(maria, rows, ps);
    DeleteOutcomes(ms, rows, ps);
    SameDelete(maria, ms, rows, ps, ps);
    forall k | 0 <= k < |ps|
      ensures Named(maria, rows, ps[k]) <==> Named(ms, rows, ps[k])
    {
      assert forall j :: 0 <= j < |rows| ==> (Names(maria, ps[k], rows[j]) <==> Names(ms, ps[k], rows[j]));
    }
    assert Outcomes(maria, Delete, rows, ps) == Outcomes(ms, Delete, rows, ps);
  }

  /** MariaDB and MSSQL deletes agree exactly when the texts kept fit their columns. */
  lemma {:induction false} DeleteParityMariaMssql(key: Collation, cast: string -> Option<string>, rows: seq<Row>, items: seq<Item>, now: int)
    requires Keyed(key, rows) && Canonical(cast, KeptOf(items))
    ensures Exec(Maria(key, cast), Delete, rows, items, now) == Exec(Ms(key, cast), Delete, rows, items, now)
            <==> AllFit(KeptOf(items))
  {
    var ps := CleanedAll(KeptOf(items));
    KeptRead(key, cast, Delete, rows, items, now);
    KeptDated(cast, items);
    SameDeletes(Maria(key, cast), Ms(key, cast), rows, ps, now);
  }
}
