/** When the three engines agree: for each mode, the exact condition on the
    stored titles and the batch under which they end with the same table and
    give the same answers. */
module Parity {
  import opened Feed
  import opened Sql
  import opened Bulk
  import opened BulkLaws
  import opened TableLaws

  function Pg(key: Collation, cast: string -> Option<string>): Dialect {
    Dialect(Postgres, key, cast)
  }

  function Maria(key: Collation, cast: string -> Option<string>): Dialect {
    Dialect(MariaDb, key, cast)
  }

  function Ms(key: Collation, cast: string -> Option<string>): Dialect {
    Dialect(MsSql, key, cast)
  }

  /** Every date is already in the form in which the engines store it. */
  predicate Canonical(cast: string -> Option<string>, items: seq<Item>) {
    forall p :: p in items && p.publishDate.Some? ==> cast(p.publishDate.value) == p.publishDate
  }

  predicate AllKept(items: seq<Item>) {
    forall p :: p in items ==> Kept(p)
  }

  lemma {:induction false} KeptAll(items: seq<Item>)
    ensures |KeptOf(items)| == |items| <==> AllKept(items)
    ensures AllKept(items) ==> KeptOf(items) == items
  {
    if items != [] {
      KeptAll(items[1..]);
      assert AllKept(items) <==> Kept(items[0]) && AllKept(items[1..]);
    }
  }

  /** Of complete items with canonical dates every engine reads the same. */
  lemma {:induction false} ReadAlike(d: Dialect, mode: Mode, rows: seq<Row>, items: seq<Item>, now: int)
    requires AllKept(items) && Canonical(d.cast, items) && !mode.Delete?
    ensures Exec(d, mode, rows, items, now)
         == if d.engine.MsSql? && !AllFit(items) then Failed else Apply(d, mode, rows, CleanedAll(items), now)
  {
    KeptAll(items);
    if !d.engine.MariaDb? {
      forall k | 0 <= k < |items|
        ensures Dated(d, Cleaned(items[k])) == Cleaned(items[k])
      {
        assert items[k] in items;
      }
      assert DatedAll(d, items) == CleanedAll(items);
    }
  }

  lemma {:induction false} CleanedItems(d: Dialect, items: seq<Item>)
    requires d.engine.Postgres? && AllKept(items) && DistinctTitles(items)
    ensures var ps := CleanedAll(items);
            DistinctTitles(ps) && Apart(d, ps) && forall p :: p in ps ==> Storable(p)
  {
    var ps := CleanedAll(items);
    forall p | p in ps
      ensures Storable(p)
    {
      var k :| 0 <= k < |ps| && ps[k] == p;
      assert items[k] in items;
    }
  }

  // ----------------------------------------------------------------- insert

  /** No title of a new item is repeated under the collation. */
  predicate FreshApart(d: Dialect, rows: seq<Row>, ps: seq<Item>) {
    forall i, j :: 0 <= i < j < |ps| && Fresh(d, rows, ps[i]) ==> !Rivals(d, ps[i], ps[j])
  }

  /** With no repeated new title, an item becomes a row exactly when it is new. */
  lemma {:induction false} AdmittedWhenApart(d: Dialect, rows: seq<Row>, ps: seq<Item>, p: Item)
    requires FreshApart(d, rows, ps)
    ensures p in Admitted(d, rows, ps) <==> p in ps && Fresh(d, rows, p)
  {
    AdmittedAreItems(d, rows, ps);
    if p in ps && Fresh(d, rows, p) {
      AdmittedAtIndex(d, rows, ps, p);
      var k :| 0 <= k < |ps| && ps[k] == p;
      forall q | q in ps[..k]
        ensures !Rivals(d, q, p)
      {
        var i :| 0 <= i < k && ps[i] == q;
        assert Rivals(d, q, p) ==> Fresh(d, rows, q);
      }
      assert Admits(d, rows, ps[..k], p);
    }
  }

  lemma {:induction false} SameAdmitted(d: Dialect, d': Dialect, rows: seq<Row>, ps: seq<Item>)
    requires d.key == d'.key
    requires FreshApart(d, rows, ps) || (!d.engine.Postgres? && !d'.engine.Postgres?)
    ensures Admitted(d, rows, ps) == Admitted(d', rows, ps)
  {
    if ps != [] {
      var n := |ps| - 1;
      SameAdmitted(d, d', rows, ps[..n]);
      assert Fresh(d, rows, ps[n]) <==> Fresh(d', rows, ps[n]);
      if FreshApart(d, rows, ps) && Fresh(d, rows, ps[n]) {
        forall q | q in ps[..n]
          ensures !Rivals(d, q, ps[n]) && !Rivals(d', q, ps[n])
        {
          var i :| 0 <= i < n && ps[i] == q;
          assert Rivals(d, q, ps[n]) ==> Fresh(d, rows, q);
        }
      }
    }
  }

  lemma {:induction false} NoRivalsAdmitted(d: Dialect, rows: seq<Row>, ps: seq<Item>)
    requires !d.engine.Postgres?
    ensures NoRivals(d, Admitted(d, rows, ps)) <==> FreshApart(d, rows, ps)
  {
    if FreshApart(d, rows, ps) {
      ApartAdmits(d, rows, ps);
    } else {
      var i, j :| 0 <= i < j < |ps| && Fresh(d, rows, ps[i]) && Rivals(d, ps[i], ps[j]);
      RivalsAdmitted(d, rows, ps, i, j);
    }
  }

  lemma {:induction false} ApartAdmits(d: Dialect, rows: seq<Row>, ps: seq<Item>)
    requires !d.engine.Postgres? && FreshApart(d, rows, ps)
    ensures NoRivals(d, Admitted(d, rows, ps))
  {
    if ps != [] {
      var n := |ps| - 1;
      var before := Admitted(d, rows, ps[..n]);
      ApartAdmits(d, rows, ps[..n]);
      AdmittedAreItems(d, rows, ps[..n]);
      forall i | 0 <= i < |before|
        ensures !Rivals(d, before[i], ps[n])
      {
        assert before[i] in before && before[i] in ps[..n];
        var k :| 0 <= k < n && ps[k] == before[i];
      }
    }
  }

  lemma {:induction false} RivalsAdmitted(d: Dialect, rows: seq<Row>, ps: seq<Item>, i: nat, j: nat)
    requires !d.engine.Postgres? && i < j < |ps| && Fresh(d, rows, ps[i]) && Rivals(d, ps[i], ps[j])
    ensures !NoRivals(d, Admitted(d, rows, ps))
  {
    var n := |ps| - 1;
    var before := Admitted(d, rows, ps[..n]);
    if j < n {
      RivalsAdmitted(d, rows, ps[..n], i, j);
      var k, l :| 0 <= k < l < |before| && Rivals(d, before[k], before[l]);
      assert Admitted(d, rows, ps)[k] == before[k] && Admitted(d, rows, ps)[l] == before[l];
    } else {
      assert Fresh(d, rows, ps[n]) && ps[..n][i] == ps[i];
      AdmittedFresh(d, rows, ps[..n], ps[i]);
      var m :| 0 <= m < |before| && before[m] == ps[i];
      assert Admitted(d, rows, ps) == before + [ps[n]];
      assert Rivals(d, (before + [ps[n]])[m], (before + [ps[n]])[|before|]);
    }
  }

  lemma {:induction false} InsertAgree(pg: Dialect, maria: Dialect, rows: seq<Row>, ps: seq<Item>, now: int)
    requires pg.engine.Postgres? && maria.engine.MariaDb? && pg.key == maria.key
    requires Keyed(pg.key, rows) && Apart(pg, ps) && forall p :: p in ps ==> Storable(p)
    requires FreshApart(pg, rows, ps)
    ensures Apply(pg, Insert, rows, ps, now) == Apply(maria, Insert, rows, ps, now)
  {
    AdmittedAreItems(pg, rows, ps);
    SameAdmitted(pg, maria, rows, ps);
    AnswerLaw(pg, Insert, rows, ps);
    PredictedVerdicts(maria, Insert, rows, ps, ps);
    assert Outcomes(pg, Insert, rows, ps) == Outcomes(maria, Insert, rows, ps);
  }

  lemma {:induction false} InsertDisagree(pg: Dialect, maria: Dialect, rows: seq<Row>, ps: seq<Item>, now: int)
    requires pg.engine.Postgres? && maria.engine.MariaDb? && pg.key == maria.key
    requires Keyed(pg.key, rows) && forall p :: p in ps ==> Storable(p)
    requires !FreshApart(pg, rows, ps)
    ensures Apply(pg, Insert, rows, ps, now) != Apply(maria, Insert, rows, ps, now)
  {
    AdmittedAreItems(pg, rows, ps);
    AdmittedAreItems(maria, rows, ps);
    KeyedLaw(pg, Insert, rows, ps, now);
    KeyedLaw(maria, Insert, rows, ps, now);
    NoRivalsAdmitted(maria, rows, ps);
    SameFreshApart(pg, maria, rows, ps);
  }

  /** Complete items inserted into a keyed table: Postgres and MariaDB agree
      exactly when no new title is repeated under the collation. */
  lemma {:induction false} InsertParityMaria(key: Collation, cast: string -> Option<string>, rows: seq<Row>, items: seq<Item>, now: int)
    requires Keyed(key, rows) && AllKept(items) && Canonical(cast, items) && DistinctTitles(items)
    ensures Exec(Pg(key, cast), Insert, rows, items, now) == Exec(Maria(key, cast), Insert, rows, items, now)
            <==> FreshApart(Pg(key, cast), rows, CleanedAll(items))
  {
    var pg, maria := Pg(key, cast), Maria(key, cast);
    CleanedItems(pg, items);
    ReadAlike(pg, Insert, rows, items, now);
    ReadAlike(maria, Insert, rows, items, now);
    if FreshApart(pg, rows, CleanedAll(items)) {
      InsertAgree(pg, maria, rows, CleanedAll(items), now);
    } else {
      InsertDisagree(pg, maria, rows, CleanedAll(items), now);
    }
  }

  lemma {:induction false} SameFreshApart(d: Dialect, d': Dialect, rows: seq<Row>, ps: seq<Item>)
    requires d.key == d'.key
    ensures FreshApart(d, rows, ps) <==> FreshApart(d', rows, ps)
  {
    assert forall p :: Fresh(d, rows, p) <==> Fresh(d', rows, p);
    assert forall p, q :: Rivals(d, p, q) <==> Rivals(d', p, q);
  }

  /** MSSQL commits what Postgres does, or its key rejects the whole batch. */
  lemma {:induction false} InsertMssql(pg: Dialect, ms: Dialect, rows: seq<Row>, ps: seq<Item>, now: int)
    requires pg.engine.Postgres? && ms.engine.MsSql? && pg.key == ms.key
    requires forall p :: p in ps ==> Storable(p)
    ensures Apply(ms, Insert, rows, ps, now)
         == if FreshApart(pg, rows, ps) then Apply(pg, Insert, rows, ps, now) else Failed
  {
    AdmittedAreItems(pg, rows, ps);
    AdmittedAreItems(ms, rows, ps);
    NoRivalsAdmitted(ms, rows, ps);
    SameFreshApart(pg, ms, rows, ps);
    if FreshApart(pg, rows, ps) {
      SameAdmitted(pg, ms, rows, ps);
      forall k | 0 <= k < |ps|
        ensures Returned(pg, Insert, rows, ps, ps[k]) == Returned(ms, Insert, rows, ps, ps[k])
      {
        SameMet(pg, ms, rows, ps, ps[k]);
      }
      assert Outcomes(pg, Insert, rows, ps) == Outcomes(ms, Insert, rows, ps);
    }
  }

  /** Postgres and MSSQL agree exactly when moreover every text fits its column. */
  lemma {:induction false} InsertParityMssql(key: Collation, cast: string -> Option<string>, rows: seq<Row>, items: seq<Item>, now: int)
    requires AllKept(items) && Canonical(cast, items) && DistinctTitles(items)
    ensures Exec(Pg(key, cast), Insert, rows, items, now) == Exec(Ms(key, cast), Insert, rows, items, now)
            <==> FreshApart(Pg(key, cast), rows, CleanedAll(items)) && AllFit(items)
  {
    var pg, ms := Pg(key, cast), Ms(key, cast);
    CleanedItems(pg, items);
    ReadAlike(pg, Insert, rows, items, now);
    ReadAlike(ms, Insert, rows, items, now);
    InsertMssql(pg, ms, rows, CleanedAll(items), now);
  }

  lemma {:induction false} SameMet(d: Dialect, d': Dialect, rows: seq<Row>, ps: seq<Item>, p: Item)
    requires d.key == d'.key && d.engine.Postgres? && !d'.engine.Postgres?
    requires FreshApart(d, rows, ps) && p in ps && p.title.Some?
    ensures Met(d, Admitted(d, rows, ps), p) <==> Met(d', Admitted(d, rows, ps), p)
  {
    AdmittedAreItems(d, rows, ps);
    forall q | q in Admitted(d, rows, ps) && Meets(d', q, p)
      ensures q == p
    {
      var i :| 0 <= i < |ps| && ps[i] == q;
      var j :| 0 <= j < |ps| && ps[j] == p;
      assert Fresh(d, rows, p);
      assert Rivals(d, q, p) && Rivals(d, p, q);
    }
  }

  // ----------------------------------------------------------------- update

  lemma {:induction false} SameHit(d: Dialect, d': Dialect, r: Row, ps: seq<Item>)
    requires forall p :: p in ps ==> (Hits(d, p, r) <==> Hits(d', p, r))
    ensures HitOn(d, r, ps) == HitOn(d', r, ps)
  {
    if ps != [] {
      SameHit(d, d', r, ps[1..]);
    }
  }

  /** Every item that means a stored row spells its title as stored. */
  predicate SpelledAsStored(d: Dialect, rows: seq<Row>, ps: seq<Item>) {
    forall k, p :: 0 <= k < |rows| && p in ps && Clashes(d, p, rows[k]) ==> p.title == Some(rows[k].title)
  }

  /** No item differs from its row only in ways the collation does not see. */
  predicate NoRespelling(d: Dialect, rows: seq<Row>, ps: seq<Item>) {
    forall k, p :: 0 <= k < |rows| && p in ps && Clashes(d, p, rows[k]) ==>
      (LooksStored(d.key, rows[k], p) ==> IsStored(rows[k], p))
  }

  /** No item differs from its row only in ways that MSSQL's test does not see:
      besides spelling, a nullable column that moves between NULL and a value. */
  predicate NoSilentChange(d: Dialect, rows: seq<Row>, ps: seq<Item>) {
    forall k, p :: 0 <= k < |rows| && p in ps && Clashes(d, p, rows[k]) ==>
      (&& !Differ(d.key, Some(rows[k].feedUrl), p.feedUrl)
       && p.publishDate == Some(rows[k].publishDate)
       && !Differ(d.key, rows[k].imageUrl, p.imageUrl)
       && !Differ(d.key, rows[k].actualUrl, p.actualUrl)
       ==> IsStored(rows[k], p))
  }

  /** Where all items are spelled as stored and all tests agree, two engines
      rewrite the same rows and name the same ones. */
  lemma {:induction false} SameUpdate(d: Dialect, d': Dialect, rows: seq<Row>, ps: seq<Item>, now: int)
    requires d.key == d'.key && SpelledAsStored(d, rows, ps)
    requires forall k, p :: 0 <= k < |rows| && p in ps && Clashes(d, p, rows[k]) ==>
               (Changed(d, rows[k], p) <==> Changed(d', rows[k], p))
    ensures forall k :: 0 <= k < |rows| ==> HitOn(d, rows[k], ps) == HitOn(d', rows[k], ps)
    ensures forall k, p :: 0 <= k < |rows| && p in ps ==>
               (Names(d, p, rows[k]) <==> Names(d', p, rows[k])) && (Hits(d, p, rows[k]) <==> Hits(d', p, rows[k]))
    ensures UpdateRows(d, rows, ps, now) == UpdateRows(d', rows, ps, now)
  {
    forall k, p | 0 <= k < |rows| && p in ps
      ensures Names(d, p, rows[k]) <==> Names(d', p, rows[k])
      ensures Hits(d, p, rows[k]) <==> Hits(d', p, rows[k])
    {
      assert Names(d, p, rows[k]) || Names(d', p, rows[k]) ==> Clashes(d, p, rows[k]);
    }
    forall k | 0 <= k < |rows|
      ensures HitOn(d, rows[k], ps) == HitOn(d', rows[k], ps)
    {
      SameHit(d, d', rows[k], ps);
    }
  }

  /** An item spelled otherwise than its row is not found by Postgres but is by the others. */
  lemma {:induction false} MisspelledDiffers(pg: Dialect, other: Dialect, rows: seq<Row>, k: nat, p: Item)
    requires pg.engine.Postgres? && !other.engine.Postgres? && other.key == pg.key && Keyed(pg.key, rows)
    requires k < |rows| && Clashes(pg, p, rows[k]) && p.title != Some(rows[k].title)
    ensures !Named(pg, rows, p) && Named(other, rows, p)
  {
    assert Names(other, p, rows[k]);
  }

  /** In a keyed table an item can hit only the row it clashes with. */
  lemma {:induction false} HitsOnlyThere(d: Dialect, rows: seq<Row>, k: nat, p: Item)
    requires Keyed(d.key, rows) && k < |rows| && Clashes(d, p, rows[k])
    ensures forall j :: 0 <= j < |rows| && Names(d, p, rows[j]) ==> j == k
  {
  }

  lemma {:induction false} UpdateDone(d: Dialect, rows: seq<Row>, ps: seq<Item>, now: int)
    requires forall p :: p in ps ==> Storable(p)
    ensures Apply(d, Update, rows, ps, now) == Done(UpdateRows(d, rows, ps, now), Outcomes(d, Update, rows, ps))
  {
  }

  /** Two answers that tell one item different things are different. */
  lemma {:induction false} ToldApart(a: Answer, b: Answer, i: nat)
    requires a.Done? && b.Done? && i < |a.outcomes| && i < |b.outcomes| && a.outcomes[i] != b.outcomes[i]
    ensures a != b
  {
  }

  lemma {:induction false} UpdateMisspelled(pg: Dialect, other: Dialect, rows: seq<Row>, ps: seq<Item>, now: int)
    requires pg.engine.Postgres? && !other.engine.Postgres? && pg.key == other.key
    requires Keyed(pg.key, rows) && Apart(pg, ps) && forall p :: p in ps ==> Storable(p)
    requires !SpelledAsStored(pg, rows, ps)
    ensures Apply(pg, Update, rows, ps, now) != Apply(other, Update, rows, ps, now)
  {
    UpdateDone(pg, rows, ps, now);
    UpdateDone(other, rows, ps, now);
    var k, p :| 0 <= k < |rows| && p in ps && Clashes(pg, p, rows[k]) && p.title != Some(rows[k].title);
    MisspelledDiffers(pg, other, rows, k, p);
    var i :| 0 <= i < |ps| && ps[i] == p;
    AnswerLaw(pg, Update, rows, ps);
    FoundAnswer(other, rows, ps, i);
    ToldApart(Apply(pg, Update, rows, ps, now), Apply(other, Update, rows, ps, now), i);
  }

  /** An item that joins a row is never answered as not found. */
  lemma {:induction false} FoundAnswer(d: Dialect, rows: seq<Row>, ps: seq<Item>, i: nat)
    requires Keyed(d.key, rows) && forall p :: p in ps ==> p.title.Some?
    requires i < |ps| && Named(d, rows, ps[i])
    ensures |Outcomes(d, Update, rows, ps)| == |ps| && Outcomes(d, Update, rows, ps)[i] != SkippedNotFound
  {
    if d.engine.MariaDb? {
      PredictedVerdicts(d, Update, rows, ps, ps);
    }
  }

  lemma {:induction false} UpdateRespelled(pg: Dialect, maria: Dialect, rows: seq<Row>, ps: seq<Item>, now: int)
    requires pg.engine.Postgres? && maria.engine.MariaDb? && pg.key == maria.key
    requires Keyed(pg.key, rows) && Apart(pg, ps) && forall p :: p in ps ==> Storable(p)
    requires SpelledAsStored(pg, rows, ps) && !NoRespelling(pg, rows, ps)
    ensures Apply(pg, Update, rows, ps, now) != Apply(maria, Update, rows, ps, now)
  {
    UpdateDone(pg, rows, ps, now);
    UpdateDone(maria, rows, ps, now);
    AnswerLaw(pg, Update, rows, ps);
    PredictedVerdicts(maria, Update, rows, ps, ps);
    var i := RespelledAt(pg, maria, rows, ps);
    ToldApart(Apply(pg, Update, rows, ps, now), Apply(maria, Update, rows, ps, now), i);
  }

  lemma {:induction false} RespelledAt(pg: Dialect, maria: Dialect, rows: seq<Row>, ps: seq<Item>) returns (i: nat)
    requires pg.engine.Postgres? && maria.engine.MariaDb? && pg.key == maria.key
    requires Keyed(pg.key, rows) && SpelledAsStored(pg, rows, ps) && !NoRespelling(pg, rows, ps)
    ensures i < |ps| && Verdict(pg, Update, rows, ps, ps[i]) == Updated
    ensures i < |ps| && Verdict(maria, Update, rows, ps, ps[i]) == SkippedExists
  {
    var k, p :| 0 <= k < |rows| && p in ps && Clashes(pg, p, rows[k])
                && LooksStored(pg.key, rows[k], p) && !IsStored(rows[k], p);
    assert Hits(pg, p, rows[k]);
    HitsOnlyThere(maria, rows, k, p);
    assert Names(maria, p, rows[k]);
    i :| 0 <= i < |ps| && ps[i] == p;
  }

  lemma {:induction false} UpdateAgree(pg: Dialect, maria: Dialect, rows: seq<Row>, ps: seq<Item>, now: int)
    requires pg.engine.Postgres? && maria.engine.MariaDb? && pg.key == maria.key
    requires Keyed(pg.key, rows) && Apart(pg, ps) && forall p :: p in ps ==> Storable(p)
    requires SpelledAsStored(pg, rows, ps) && NoRespelling(pg, rows, ps)
    ensures Apply(pg, Update, rows, ps, now) == Apply(maria, Update, rows, ps, now)
  {
    SameUpdate(pg, maria, rows, ps, now);
    AnswerLaw(pg, Update, rows, ps);
    PredictedVerdicts(maria, Update, rows, ps, ps);
    forall p | p in ps
      ensures Verdict(pg, Update, rows, ps, p) == Verdict(maria, Update, rows, ps, p)
    {
      SameVerdict(pg, maria, rows, ps, p);
    }
    UpdateDone(pg, rows, ps, now);
    UpdateDone(maria, rows, ps, now);
  }

  lemma {:induction false} SameVerdict(d: Dialect, d': Dialect, rows: seq<Row>, ps: seq<Item>, p: Item)
    requires forall k :: 0 <= k < |rows| ==> (Names(d, p, rows[k]) <==> Names(d', p, rows[k]))
    requires forall k :: 0 <= k < |rows| ==> (Hits(d, p, rows[k]) <==> Hits(d', p, rows[k]))
    ensures Verdict(d, Update, rows, ps, p) == Verdict(d', Update, rows, ps, p)
  {
  }

  /** What the update check and the payload reader ask for: a title and a date. */
  predicate Updatable(items: seq<Item>) {
    forall k :: 0 <= k < |items| ==> Present(items[k].title) && Present(items[k].publishDate)
  }

  /** Postgres fails or answers every item. */
  lemma {:induction false} PostgresAnswers(key: Collation, cast: string -> Option<string>, rows: seq<Row>, items: seq<Item>, now: int)
    requires Updatable(items) && Canonical(cast, items) && DistinctTitles(items)
    ensures var a := Exec(Pg(key, cast), Update, rows, items, now);
            if FeedlessNamed(Pg(key, cast), rows, items) then a.Failed? else a.Done? && |a.outcomes| == |items|
  {
    PostgresRead(key, cast, items);
    PostgresUpdates(key, cast, rows, items, now);
  }

  /** MariaDB answers the items that it keeps. */
  lemma {:induction false} MariaAnswers(key: Collation, cast: string -> Option<string>, rows: seq<Row>, items: seq<Item>, now: int)
    requires Keyed(key, rows) && Canonical(cast, KeptOf(items))
    ensures var a := Exec(Maria(key, cast), Update, rows, items, now);
            a.Done? && |a.outcomes| == |KeptOf(items)|
  {
    var ps := CleanedAll(KeptOf(items));
    KeptDated(cast, items);
    UpdateDone(Maria(key, cast), rows, ps, now);
    PredictedVerdicts(Maria(key, cast), Update, rows, ps, ps);
  }

  /** MSSQL answers the items that it keeps, or fails on their width. */
  lemma {:induction false} MssqlAnswers(key: Collation, cast: string -> Option<string>, rows: seq<Row>, items: seq<Item>, now: int)
    requires Canonical(cast, KeptOf(items))
    ensures var a := Exec(Ms(key, cast), Update, rows, items, now);
            if AllFit(KeptOf(items)) then a.Done? && |a.outcomes| == |KeptOf(items)| else a.Failed?
  {
    KeptDated(cast, items);
    UpdateDone(Ms(key, cast), rows, CleanedAll(KeptOf(items)), now);
  }

  lemma {:induction false} PostgresRead(key: Collation, cast: string -> Option<string>, items: seq<Item>)
    requires Canonical(cast, items)
    ensures Parsed(Pg(key, cast), Update, items) == Some(CleanedAll(items))
  {
    var pg := Pg(key, cast);
    forall k | 0 <= k < |items|
      ensures Dated(pg, Cleaned(items[k])) == Cleaned(items[k])
    {
      assert items[k] in items;
    }
    assert DatedAll(pg, items) == CleanedAll(items);
  }

  lemma {:induction false} PostgresUpdates(key: Collation, cast: string -> Option<string>, rows: seq<Row>, items: seq<Item>, now: int)
    requires Updatable(items) && DistinctTitles(items) && Parsed(Pg(key, cast), Update, items) == Some(CleanedAll(items))
    ensures var a := Exec(Pg(key, cast), Update, rows, items, now);
            if FeedlessNamed(Pg(key, cast), rows, items) then a.Failed? else a.Done? && |a.outcomes| == |items|
  {
    var pg, ps := Pg(key, cast), CleanedAll(items);
    assert Apart(pg, ps);
    FeedlessFails(pg, rows, ps);
    assert forall i :: 0 <= i < |items| ==> (Named(pg, rows, ps[i]) <==> Named(pg, rows, items[i]));
  }

  /** The items that MariaDB and MSSQL keep can be written, and MSSQL reads them as
      MariaDB does. */
  lemma {:induction false} KeptDated(cast: string -> Option<string>, items: seq<Item>)
    requires Canonical(cast, KeptOf(items))
    ensures forall d: Dialect :: d.cast == cast ==> DatedAll(d, KeptOf(items)) == CleanedAll(KeptOf(items))
    ensures forall p :: p in CleanedAll(KeptOf(items)) ==> Storable(p)
  {
    var kept := KeptOf(items);
    assert forall k :: 0 <= k < |kept| ==> kept[k] in kept;
    forall d: Dialect | d.cast == cast
      ensures DatedAll(d, kept) == CleanedAll(kept)
    {
      assert forall k :: 0 <= k < |kept| ==> Dated(d, Cleaned(kept[k])) == Cleaned(kept[k]);
    }
  }

  /** Updates of a keyed table: Postgres and MariaDB agree exactly when every item has
      a feed URL, titles are spelled as stored and no item is a mere respelling of
      its row. */
  lemma {:induction false} UpdateParityMaria(key: Collation, cast: string -> Option<string>, rows: seq<Row>, items: seq<Item>, now: int)
    requires Keyed(key, rows) && Updatable(items) && Canonical(cast, items) && DistinctTitles(items)
    ensures var pg, ps := Pg(key, cast), CleanedAll(items);
            Exec(pg, Update, rows, items, now) == Exec(Maria(key, cast), Update, rows, items, now)
            <==> AllKept(items) && SpelledAsStored(pg, rows, ps) && NoRespelling(pg, rows, ps)
  {
    KeptAll(items);
    if AllKept(items) {
      KeptUpdateMaria(key, cast, rows, items, now);
    } else {
      PostgresAnswers(key, cast, rows, items, now);
      MariaAnswers(key, cast, rows, items, now);
    }
  }

  lemma {:induction false} KeptUpdateMaria(key: Collation, cast: string -> Option<string>, rows: seq<Row>, items: seq<Item>, now: int)
    requires Keyed(key, rows) && AllKept(items) && Canonical(cast, items) && DistinctTitles(items)
    ensures var pg, ps := Pg(key, cast), CleanedAll(items);
            Exec(pg, Update, rows, items, now) == Exec(Maria(key, cast), Update, rows, items, now)
            <==> SpelledAsStored(pg, rows, ps) && NoRespelling(pg, rows, ps)
  {
    var pg, maria := Pg(key, cast), Maria(key, cast);
    CleanedItems(pg, items);
    ReadAlike(pg, Update, rows, items, now);
    ReadAlike(maria, Update, rows, items, now);
    if !SpelledAsStored(pg, rows, CleanedAll(items)) {
      UpdateMisspelled(pg, maria, rows, CleanedAll(items), now);
    } else if !NoRespelling(pg, rows, CleanedAll(items)) {
      UpdateRespelled(pg, maria, rows, CleanedAll(items), now);
    } else {
      UpdateAgree(pg, maria, rows, CleanedAll(items), now);
    }
  }

  lemma {:induction false} UpdateSilent(pg: Dialect, ms: Dialect, rows: seq<Row>, ps: seq<Item>, now: int)
    requires pg.engine.Postgres? && ms.engine.MsSql? && pg.key == ms.key
    requires Keyed(pg.key, rows) && Apart(pg, ps) && forall p :: p in ps ==> Storable(p)
    requires SpelledAsStored(pg, rows, ps) && !NoSilentChange(pg, rows, ps)
    ensures Apply(pg, Update, rows, ps, now) != Apply(ms, Update, rows, ps, now)
  {
    UpdateDone(pg, rows, ps, now);
    UpdateDone(ms, rows, ps, now);
    AnswerLaw(pg, Update, rows, ps);
    var i := SilentAt(pg, ms, rows, ps);
    ToldApart(Apply(pg, Update, rows, ps, now), Apply(ms, Update, rows, ps, now), i);
  }

  lemma {:induction false} UpdateAgreeMssql(pg: Dialect, ms: Dialect, rows: seq<Row>, ps: seq<Item>, now: int)
    requires pg.engine.Postgres? && ms.engine.MsSql? && pg.key == ms.key
    requires forall p :: p in ps ==> Storable(p)
    requires SpelledAsStored(pg, rows, ps) && NoSilentChange(pg, rows, ps)
    ensures Apply(pg, Update, rows, ps, now) == Apply(ms, Update, rows, ps, now)
  {
    SameUpdate(pg, ms, rows, ps, now);
    forall i | 0 <= i < |ps|
      ensures Returned(pg, Update, rows, ps, ps[i]) == Returned(ms, Update, rows, ps, ps[i])
    {
      assert Named(pg, rows, ps[i]) <==> Named(ms, rows, ps[i]);
    }
    assert Outcomes(pg, Update, rows, ps) == Outcomes(ms, Update, rows, ps);
  }

  lemma {:induction false} SilentAt(pg: Dialect, ms: Dialect, rows: seq<Row>, ps: seq<Item>) returns (i: nat)
    requires pg.engine.Postgres? && ms.engine.MsSql? && pg.key == ms.key
    requires Keyed(pg.key, rows) && Apart(pg, ps) && SpelledAsStored(pg, rows, ps) && !NoSilentChange(pg, rows, ps)
    ensures i < |ps| && Verdict(pg, Update, rows, ps, ps[i]) == Updated
    ensures i < |ps| && Returned(ms, Update, rows, ps, ps[i]) == SkippedExists
  {
    var k, p :| 0 <= k < |rows| && p in ps && Clashes(pg, p, rows[k])
                && !MssqlChanged(pg.key, rows[k], p) && !IsStored(rows[k], p);
    assert Hits(pg, p, rows[k]);
    OnlyItself(pg, ps, p);
    HitsOnlyThere(ms, rows, k, p);
    assert HitOn(ms, rows[k], ps).None?;
    assert Names(ms, p, rows[k]);
    i :| 0 <= i < |ps| && ps[i] == p;
  }

  /** Postgres and MSSQL agree exactly when every item has a feed URL, titles are
      spelled as stored, every text fits its column, and no item changes its row
      unseen by MSSQL; or else when both fail: Postgres for want of a feed URL of a
      stored row, MSSQL for the width of a text that it keeps. */
  lemma {:induction false} UpdateParityMssql(key: Collation, cast: string -> Option<string>, rows: seq<Row>, items: seq<Item>, now: int)
    requires Keyed(key, rows) && Updatable(items) && Canonical(cast, items) && DistinctTitles(items)
    ensures var pg, ps := Pg(key, cast), CleanedAll(items);
            Exec(pg, Update, rows, items, now) == Exec(Ms(key, cast), Update, rows, items, now)
            <==> if AllKept(items) then SpelledAsStored(pg, rows, ps) && NoSilentChange(pg, rows, ps) && AllFit(items)
                 else FeedlessNamed(pg, rows, items) && !AllFit(KeptOf(items))
  {
    KeptAll(items);
    if AllKept(items) {
      KeptUpdateMssql(key, cast, rows, items, now);
    } else {
      PostgresAnswers(key, cast, rows, items, now);
      MssqlAnswers(key, cast, rows, items, now);
    }
  }

  lemma {:induction false} KeptUpdateMssql(key: Collation, cast: string -> Option<string>, rows: seq<Row>, items: seq<Item>, now: int)
    requires Keyed(key, rows) && AllKept(items) && Canonical(cast, items) && DistinctTitles(items)
    ensures var pg, ps := Pg(key, cast), CleanedAll(items);
            Exec(pg, Update, rows, items, now) == Exec(Ms(key, cast), Update, rows, items, now)
            <==> SpelledAsStored(pg, rows, ps) && NoSilentChange(pg, rows, ps) && AllFit(items)
  {
    var pg, ms := Pg(key, cast), Ms(key, cast);
    CleanedItems(pg, items);
    ReadAlike(pg, Update, rows, items, now);
    ReadAlike(ms, Update, rows, items, now);
    if !SpelledAsStored(pg, rows, CleanedAll(items)) {
      UpdateMisspelled(pg, ms, rows, CleanedAll(items), now);
    } else if !NoSilentChange(pg, rows, CleanedAll(items)) {
      UpdateSilent(pg, ms, rows, CleanedAll(items), now);
    } else {
      UpdateAgreeMssql(pg, ms, rows, CleanedAll(items), now);
    }
    UpdateDone(pg, rows, CleanedAll(items), now);
  }

  // ----------------------------------------------------------------- delete

  lemma {:induction false} SameDelete(d: Dialect, d': Dialect, rows: seq<Row>, ps: seq<Item>, qs: seq<Item>)
    requires |ps| == |qs|
    requires forall i, k :: 0 <= i < |ps| && 0 <= k < |rows| ==> (Names(d, ps[i], rows[k]) <==> Names(d', qs[i], rows[k]))
    ensures DeleteRows(d, rows, ps) == DeleteRows(d', rows, qs)
  {
    if rows != [] {
      SameDelete(d, d', rows[1..], ps, qs);
      if p :| p in ps && Names(d, p, rows[0]) {
        var i :| 0 <= i < |ps| && ps[i] == p;
        assert qs[i] in qs;
      }
      if q :| q in qs && Names(d', q, rows[0]) {
        var i :| 0 <= i < |qs| && qs[i] == q;
        assert ps[i] in ps;
      }
    }
  }

  /** The answers to a delete tell one item apart exactly when a title is misspelled. */
  lemma {:induction false} DeleteAnswers(pg: Dialect, other: Dialect, rows: seq<Row>, items: seq<Item>, ps: seq<Item>)
    requires SameTitles(items, ps)
    requires pg.engine.Postgres? && !other.engine.Postgres? && pg.key == other.key && Keyed(pg.key, rows)
    ensures SpelledAsStored(pg, rows, items) <==>
            forall i :: 0 <= i < |items| ==> (Named(pg, rows, items[i]) <==> Named(other, rows, ps[i]))
  {
    if SpelledAsStored(pg, rows, items) {
      SameNames(pg, other, rows, items, ps);
    } else {
      var k, p :| 0 <= k < |rows| && p in items && Clashes(pg, p, rows[k]) && p.title != Some(rows[k].title);
      var i :| 0 <= i < |items| && items[i] == p;
      MisspelledDiffers(pg, other, rows, k, p);
      assert Names(other, ps[i], rows[k]);
    }
  }

  /** What MariaDB and MSSQL make of a delete they read in full. */
  lemma {:induction false} DeleteRead(pg: Dialect, other: Dialect, rows: seq<Row>, items: seq<Item>, ps: seq<Item>, now: int)
    requires SameTitles(items, ps)
    requires pg.engine.Postgres? && !other.engine.Postgres? && pg.key == other.key
    requires Keyed(pg.key, rows) && DistinctTitles(items) && forall p :: p in items ==> p.title.Some?
    ensures var a, b := Apply(pg, Delete, rows, items, now), Apply(other, Delete, rows, ps, now);
            a == b <==> SpelledAsStored(pg, rows, items)
  {
    var a, b := Apply(pg, Delete, rows, items, now), Apply(other, Delete, rows, ps, now);
    DeleteOutcomes(pg, rows, items);
    DeleteOutcomes(other, rows, ps);
    DeleteAnswers(pg, other, rows, items, ps);
    if SpelledAsStored(pg, rows, items) {
      SameNames(pg, other, rows, items, ps);
      SameDelete(pg, other, rows, items, ps);
      assert a.outcomes == b.outcomes;
    } else {
      var i :| 0 <= i < |items| && !(Named(pg, rows, items[i]) <==> Named(other, rows, ps[i]));
      ToldApart(a, b, i);
    }
  }

  /** A delete drops items that lack a feed URL or a date on MariaDB and MSSQL;
      the engines agree exactly when there is no such item, titles are spelled
      as stored and, for MSSQL, every text fits its column. */
  lemma {:induction false} DeleteParity(engine: Engine, key: Collation, cast: string -> Option<string>, rows: seq<Row>, items: seq<Item>, now: int)
    requires Keyed(key, rows) && DistinctTitles(items) && !engine.Postgres?
    requires forall p :: p in items ==> Present(p.title)
    ensures var pg := Pg(key, cast);
            Exec(pg, Delete, rows, items, now) == Exec(Dialect(engine, key, cast), Delete, rows, items, now)
            <==> AllKept(items) && SpelledAsStored(pg, rows, items) && (engine.MsSql? ==> AllFit(items))
  {
    var pg, other := Pg(key, cast), Dialect(engine, key, cast);
    KeptAll(items);
    if AllKept(items) {
      DeleteRead(pg, other, rows, items, if engine.MsSql? then DatedAll(other, items) else CleanedAll(items), now);
    } else {
      FewerAnswers(other, rows, items, now);
    }
  }

  lemma {:induction false} FewerAnswers(d: Dialect, rows: seq<Row>, items: seq<Item>, now: int)
    requires !d.engine.Postgres? && Keyed(d.key, rows)
    ensures var a := Exec(d, Delete, rows, items, now);
            a.Done? ==> |a.outcomes| == |KeptOf(items)|
  {
    var kept := KeptOf(items);
    assert forall k :: 0 <= k < |kept| ==> kept[k] in kept;
    DeleteOutcomes(d, rows, CleanedAll(kept));
  }

  predicate SameTitles(ps: seq<Item>, qs: seq<Item>) {
    |ps| == |qs| && forall i :: 0 <= i < |ps| ==> ps[i].title == qs[i].title
  }

  lemma {:induction false} SameNames(d: Dialect, d': Dialect, rows: seq<Row>, items: seq<Item>, ps: seq<Item>)
    requires d.key == d'.key && SpelledAsStored(d, rows, items) && SameTitles(items, ps)
    ensures forall i, k :: 0 <= i < |items| && 0 <= k < |rows| ==>
              (Names(d, items[i], rows[k]) <==> Names(d', ps[i], rows[k]))
  {
    forall i, k | 0 <= i < |items| && 0 <= k < |rows|
      ensures Names(d, items[i], rows[k]) <==> Names(d', ps[i], rows[k])
    {
      assert items[i] in items && (Clashes(d, items[i], rows[k]) ==> items[i].title == Some(rows[k].title));
    }
  }
}
