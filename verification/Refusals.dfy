/** When a bulk call fails as a whole, told of the items as clients send them. */
module Refusals {
  import opened Feed
  import opened Sql
  import opened Bulk
  import opened BulkLaws
  import opened TableLaws
  import opened Conservation
  import opened Parity
  import opened Sent
  import opened Procedures

  // ------------------------------------------------------------------- MariaDB

  /** A MariaDB call never fails. */
  lemma {:induction false} MariaNeverFails(d: Dialect, mode: Mode, rows: seq<Row>, items: seq<Item>, now: int)
    requires d.engine.MariaDb?
    ensures Exec(d, mode, rows, items, now).Done?
  {
    var ps := CleanedAll(KeptOf(items));
    forall p | p in ps
      ensures Storable(p)
    {
      var k :| 0 <= k < |ps| && ps[k] == p;
      assert KeptOf(items)[k] in KeptOf(items);
    }
    AdmittedAreItems(d, rows, ps);
  }

  // ------------------------------------------------------------------ Postgres

  predicate DateFails(d: Dialect, o: Option<string>) {
    o.Some? && d.cast(o.value).None?
  }

  /** The item lacks what an insert needs, or its date is none. */
  predicate Unstorable(d: Dialect, p: Item) {
    p.title.None? || p.feedUrl.None? || p.publishDate.None? || DateFails(d, p.publishDate)
  }

  /** A Postgres insert fails exactly when some item lacks a title, a feed URL or a
      date, or has one that is no date: whether or not its title is stored. */
  lemma {:induction false} PostgresInsertFails(d: Dialect, rows: seq<Row>, items: seq<Item>, now: int)
    requires d.engine.Postgres?
    ensures Exec(d, Insert, rows, items, now).Failed? <==> exists i :: 0 <= i < |items| && Unstorable(d, items[i])
  {
    PostgresCasts(d, Insert, items);
    if AllCastable(d, items) {
      var ps := DatedAll(d, items);
      AdmittedAreItems(d, rows, ps);
      forall i | 0 <= i < |items|
        ensures Storable(ps[i]) <==> !Unstorable(d, items[i])
      {
        assert items[i] in items && ps[i] == Dated(d, Cleaned(items[i]));
      }
      assert (exists p :: p in ps && !Storable(p)) <==> exists i :: 0 <= i < |items| && Unstorable(d, items[i]) by {
        if i :| 0 <= i < |items| && Unstorable(d, items[i]) {
          assert ps[i] in ps;
        }
      }
    } else {
      var p :| p in items && !Castable(d, p);
      var i :| 0 <= i < |items| && items[i] == p;
      assert Unstorable(d, items[i]);
    }
  }

  lemma {:induction false} PostgresCasts(d: Dialect, mode: Mode, items: seq<Item>)
    requires d.engine.Postgres? && !mode.Delete?
    ensures Parsed(d, mode, items) == if AllCastable(d, items) then Some(DatedAll(d, items)) else None
    ensures AllCastable(d, items) <==> forall i :: 0 <= i < |items| ==> !DateFails(d, items[i].publishDate)
  {
    if forall i :: 0 <= i < |items| ==> !DateFails(d, items[i].publishDate) {
      forall p | p in items
        ensures Castable(d, p)
      {
        var i :| 0 <= i < |items| && items[i] == p;
      }
    } else {
      var i :| 0 <= i < |items| && DateFails(d, items[i].publishDate);
      assert items[i] in items;
    }
  }

  /** An item without feed URL or date names a stored row. */
  predicate LacksForRow(d: Dialect, rows: seq<Row>, p: Item) {
    (p.feedUrl.None? || p.publishDate.None?) && IsThere(d, rows, p)
  }

  /** A Postgres update of items that are apart fails exactly when some item has what
      is no date, or names a stored row and lacks a feed URL or a date. */
  lemma {:induction false} PostgresUpdateFails(d: Dialect, rows: seq<Row>, items: seq<Item>, now: int)
    requires d.engine.Postgres? && Apart(d, items) && Titled(items)
    ensures Exec(d, Update, rows, items, now).Failed? <==>
            exists i :: 0 <= i < |items| && (DateFails(d, items[i].publishDate) || LacksForRow(d, rows, items[i]))
  {
    PostgresCasts(d, Update, items);
    if AllCastable(d, items) {
      var ps := DatedAll(d, items);
      assert Tidy(d, ps) by {
        SentTidy(d, Update, items);
      }
      forall i | 0 <= i < |items|
        ensures LacksForRow(d, rows, items[i]) <==> (ps[i].feedUrl.None? || ps[i].publishDate.None?) && Named(d, rows, ps[i])
      {
        assert items[i] in items && ps[i] == Dated(d, Cleaned(items[i]));
        ThereIsNamed(d, rows, items[i], ps[i]);
      }
      LackFails(d, rows, ps);
    }
  }

  /** The same of parsed items. */
  lemma {:induction false} LackFails(d: Dialect, rows: seq<Row>, ps: seq<Item>)
    requires d.engine.Postgres? && Tidy(d, ps)
    ensures UpdateFails(d, rows, ps) <==>
            exists i :: 0 <= i < |ps| && (ps[i].feedUrl.None? || ps[i].publishDate.None?) && Named(d, rows, ps[i])
  {
    if i :| 0 <= i < |ps| && (ps[i].feedUrl.None? || ps[i].publishDate.None?) && Named(d, rows, ps[i]) {
      var k :| 0 <= k < |rows| && Names(d, ps[i], rows[k]);
      assert ps[i] in ps;
      OnlyItself(d, ps, ps[i]);
      assert Hits(d, ps[i], rows[k]);
      assert HitOn(d, rows[k], ps) == Some(ps[i]);
    }
    if k :| 0 <= k < |rows| && HitOn(d, rows[k], ps).Some? && !Writable(HitOn(d, rows[k], ps).value) {
      var i :| 0 <= i < |ps| && ps[i] == HitOn(d, rows[k], ps).value;
      assert Named(d, rows, ps[i]);
    }
  }

  /** A Postgres delete never fails. */
  lemma {:induction false} PostgresDeletes(d: Dialect, rows: seq<Row>, items: seq<Item>, now: int)
    requires d.engine.Postgres?
    ensures Exec(d, Delete, rows, items, now).Done?
  {
  }

  // --------------------------------------------------------------------- MSSQL

  predicate Longer(o: Option<string>, n: nat) {
    o.Some? && |o.value| > n
  }

  /** Two characters other than a space stand `n` or more places apart. */
  predicate Spreads(o: Option<string>, n: nat) {
    o.Some? && exists i, j :: 0 <= i <= j < |o.value| && o.value[i] != ' ' && o.value[j] != ' ' && j - i >= n
  }

  /** A text of the item does not fit its column. */
  predicate TooWide(p: Item) {
    Longer(p.title, 255) || Spreads(p.imageUrl, 255) || Longer(p.feedUrl, 768) || Spreads(p.actualUrl, 255)
  }

  lemma {:induction false} SpreadIsWide(sent: Option<string>, stored: Option<string>, n: nat)
    requires StoredText(sent, stored)
    ensures Within(stored, n) <==> !Spreads(sent, n)
  {
    if Filled(sent) {
      var s := sent.value;
      var i, j :| CutAt(s, i, j) && stored.value == s[i..j];
      if j - i > n {
        assert s[i] != ' ' && s[j - 1] != ' ' && (j - 1) - i >= n;
      }
      forall a, b | 0 <= a <= b < |s| && s[a] != ' ' && s[b] != ' '
        ensures i <= a && b < j
      {
        InsideCut(s, i, j, a);
        InsideCut(s, i, j, b);
      }
    }
  }

  lemma {:induction false} FitsIsNarrow(p: Item)
    ensures Fits(Cleaned(p)) <==> !TooWide(p)
  {
    BlankStored(p.imageUrl);
    BlankStored(p.actualUrl);
    SpreadIsWide(p.imageUrl, Cleaned(p).imageUrl, 255);
    SpreadIsWide(p.actualUrl, Cleaned(p).actualUrl, 255);
  }

  /** Some item that MSSQL reads is too wide. */
  predicate AnyTooWide(items: seq<Item>) {
    exists i :: 0 <= i < |items| && Full(items[i]) && TooWide(items[i])
  }

  lemma {:induction false} MssqlReads(d: Dialect, mode: Mode, items: seq<Item>)
    requires d.engine.MsSql?
    ensures Parsed(d, mode, items).None? <==> AnyTooWide(items)
  {
    var kept := KeptOf(items);
    if i :| 0 <= i < |items| && Full(items[i]) && TooWide(items[i]) {
      KeptIsFull(items[i]);
      FitsIsNarrow(items[i]);
      assert items[i] in items && items[i] in kept;
    }
    if !AllFit(kept) {
      var p :| p in kept && !Fits(Cleaned(p));
      var i :| 0 <= i < |items| && items[i] == p;
      KeptIsFull(p);
      FitsIsNarrow(p);
      assert Full(items[i]) && TooWide(items[i]);
    }
  }

  /** A new item that is full but has what is no date. */
  predicate NewUndated(d: Dialect, rows: seq<Row>, items: seq<Item>, i: int) {
    0 <= i < |items| && Full(items[i]) && IsNew(d, rows, items, i) && DateFails(d, items[i].publishDate)
  }

  /** Two new items that are full have one title under the collation. */
  predicate NewTwice(d: Dialect, rows: seq<Row>, items: seq<Item>, i: int, j: int) {
    0 <= i < j < |items| && Full(items[i]) && Full(items[j]) && IsNew(d, rows, items, i) && SameKey(d, items[i], items[j])
  }

  /** A MSSQL insert fails exactly when a text of a full item is too wide, or a new one
      has what is no date, or two new ones have one title under the collation. */
  lemma {:induction false} MssqlInsertFails(d: Dialect, rows: seq<Row>, items: seq<Item>, now: int)
    requires d.engine.MsSql?
    ensures Exec(d, Insert, rows, items, now).Failed? <==>
      || AnyTooWide(items)
      || (exists i :: NewUndated(d, rows, items, i))
      || (exists i, j :: NewTwice(d, rows, items, i, j))
  {
    MssqlReads(d, Insert, items);
    if Parsed(d, Insert, items).Some? {
      var ps := Parsed(d, Insert, items).value;
      UndatedFails(d, rows, items, ps);
      TwiceFails(d, rows, items, ps);
      NoRivalsAdmitted(d, rows, ps);
    }
  }

  lemma {:induction false} FreshIsNew(d: Dialect, rows: seq<Row>, items: seq<Item>, ps: seq<Item>, i: nat)
    requires d.engine.MsSql? && Parsed(d, Insert, items) == Some(ps) && i < |items| && Full(items[i])
    ensures Place(d, items, i) < |ps| && ParsedFrom(d, Insert, items[i], ps[Place(d, items, i)])
    ensures Fresh(d, rows, ps[Place(d, items, i)]) <==> IsNew(d, rows, items, i)
  {
    ParsedAt(d, Insert, items, i);
    var p := ps[Place(d, items, i)];
    assert forall k :: 0 <= k < |rows| ==>
      (Clashes(d, p, rows[k]) <==> items[i].title.Some? && d.key(items[i].title.value) == d.key(rows[k].title));
  }

  lemma {:induction false} UndatedFails(d: Dialect, rows: seq<Row>, items: seq<Item>, ps: seq<Item>)
    requires d.engine.MsSql? && Parsed(d, Insert, items) == Some(ps)
    ensures (exists p :: p in Admitted(d, rows, ps) && !Storable(p)) <==> exists i :: NewUndated(d, rows, items, i)
  {
    ParsedCount(d, Insert, items);
    if p :| p in Admitted(d, rows, ps) && !Storable(p) {
      AdmittedFresh(d, rows, ps, p);
      var n :| 0 <= n < |ps| && ps[n] == p;
      var i := ItemAt(d, items, |items|, n);
      FreshIsNew(d, rows, items, ps, i);
      assert NewUndated(d, rows, items, i);
    }
    if i :| NewUndated(d, rows, items, i) {
      FreshIsNew(d, rows, items, ps, i);
      AdmittedFresh(d, rows, ps, ps[Place(d, items, i)]);
      assert !Storable(ps[Place(d, items, i)]);
    }
  }

  lemma {:induction false} TwiceFails(d: Dialect, rows: seq<Row>, items: seq<Item>, ps: seq<Item>)
    requires d.engine.MsSql? && Parsed(d, Insert, items) == Some(ps)
    ensures !FreshApart(d, rows, ps) <==> exists i, j :: NewTwice(d, rows, items, i, j)
  {
    if m, n :| 0 <= m < n < |ps| && Fresh(d, rows, ps[m]) && Rivals(d, ps[m], ps[n]) {
      RivalsAreTwice(d, rows, items, ps, m, n);
    }
    if i, j :| NewTwice(d, rows, items, i, j) {
      FreshIsNew(d, rows, items, ps, i);
      FreshIsNew(d, rows, items, ps, j);
      PlaceGrows(d, items, i, j);
      assert Rivals(d, ps[Place(d, items, i)], ps[Place(d, items, j)]);
    }
  }

  lemma {:induction false} RivalsAreTwice(d: Dialect, rows: seq<Row>, items: seq<Item>, ps: seq<Item>, m: nat, n: nat)
    requires d.engine.MsSql? && Parsed(d, Insert, items) == Some(ps)
    requires m < n < |ps| && Fresh(d, rows, ps[m]) && Rivals(d, ps[m], ps[n])
    ensures exists i, j :: NewTwice(d, rows, items, i, j)
  {
    ParsedCount(d, Insert, items);
    var i := ItemAt(d, items, |items|, m);
    var j := ItemAt(d, items, |items|, n);
    FreshIsNew(d, rows, items, ps, i);
    FreshIsNew(d, rows, items, ps, j);
    if j < i {
      PlaceGrows(d, items, j, i);
    }
    assert NewTwice(d, rows, items, i, j);
  }

  /** A full item that has what is no date names a stored row, from which MSSQL sees it
      differ. */
  ghost predicate UndatedHit(d: Dialect, rows: seq<Row>, items: seq<Item>, i: int, k: int) {
    && 0 <= i < |items| && 0 <= k < |rows| && Full(items[i]) && Means(d, items[i], rows[k].title)
    && DateFails(d, items[i].publishDate)
    && (|| Differ(d.key, Some(rows[k].feedUrl), items[i].feedUrl)
        || DiffersOnceStored(d, rows[k].imageUrl, items[i].imageUrl)
        || DiffersOnceStored(d, rows[k].actualUrl, items[i].actualUrl))
  }

  /** The stored text differs from the sent one without the spaces around it. */
  ghost predicate DiffersOnceStored(d: Dialect, stored: Option<string>, sent: Option<string>) {
    && stored.Some? && sent.Some?
    && exists i, j :: CutAt(sent.value, i, j) && d.key(stored.value) != d.key(sent.value[i..j])
  }

  lemma {:induction false} DifferIsOnceStored(d: Dialect, stored: Option<string>, sent: Option<string>, cut: Option<string>)
    requires StoredText(sent, cut)
    ensures Differ(d.key, stored, cut) <==> DiffersOnceStored(d, stored, sent)
  {
    if stored.Some? && Filled(sent) {
      var s := sent.value;
      var i, j :| CutAt(s, i, j) && cut.value == s[i..j];
      forall a, b | CutAt(s, a, b)
        ensures a == i && b == j
      {
        CutUnique(s, i, j, a, b);
      }
    }
  }

  /** A MSSQL update of items that are apart fails exactly when a text of a full item is
      too wide, or a full item that has what is no date differs from its row. */
  lemma {:induction false} MssqlUpdateFails(d: Dialect, rows: seq<Row>, items: seq<Item>, now: int)
    requires d.engine.MsSql? && Apart(d, items) && Titled(items)
    ensures Exec(d, Update, rows, items, now).Failed? <==>
            AnyTooWide(items) || exists i, k :: UndatedHit(d, rows, items, i, k)
  {
    MssqlReads(d, Update, items);
    if Parsed(d, Update, items).Some? {
      var ps := Parsed(d, Update, items).value;
      SentTidy(d, Update, items);
      ParsedCount(d, Update, items);
      if k :| 0 <= k < |rows| && HitOn(d, rows[k], ps).Some? && !Writable(HitOn(d, rows[k], ps).value) {
        UnwritableHit(d, rows, items, ps, k);
      }
      if i, k :| UndatedHit(d, rows, items, i, k) {
        UndatedIsHit(d, rows, items, ps, i, k);
        var p := ps[Place(d, items, i)];
        OnlyItself(d, ps, p);
        assert HitOn(d, rows[k], ps) == Some(p);
      }
    }
  }

  lemma {:induction false} UnwritableHit(d: Dialect, rows: seq<Row>, items: seq<Item>, ps: seq<Item>, k: nat)
    requires d.engine.MsSql? && Parsed(d, Update, items) == Some(ps)
    requires k < |rows| && HitOn(d, rows[k], ps).Some? && !Writable(HitOn(d, rows[k], ps).value)
    ensures exists i :: UndatedHit(d, rows, items, i, k)
  {
    ParsedCount(d, Update, items);
    var p := HitOn(d, rows[k], ps).value;
    var n :| 0 <= n < |ps| && ps[n] == p;
    var i := ItemAt(d, items, |items|, n);
    UndatedIsHit(d, rows, items, ps, i, k);
  }

  lemma {:induction false} UndatedIsHit(d: Dialect, rows: seq<Row>, items: seq<Item>, ps: seq<Item>, i: nat, k: nat)
    requires d.engine.MsSql? && Parsed(d, Update, items) == Some(ps)
    requires i < |items| && k < |rows| && Full(items[i])
    ensures Place(d, items, i) < |ps|
    ensures UndatedHit(d, rows, items, i, k) <==>
            Hits(d, ps[Place(d, items, i)], rows[k]) && !Writable(ps[Place(d, items, i)])
  {
    ParsedAt(d, Update, items, i);
    var p := ps[Place(d, items, i)];
    MssqlSeesOnlyValueChanges(d.key, rows[k], p);
    DifferIsOnceStored(d, rows[k].imageUrl, items[i].imageUrl, p.imageUrl);
    DifferIsOnceStored(d, rows[k].actualUrl, items[i].actualUrl, p.actualUrl);
  }

  /** A MSSQL delete fails exactly when a text of a full item is too wide. */
  lemma {:induction false} MssqlDeleteFails(d: Dialect, rows: seq<Row>, items: seq<Item>, now: int)
    requires d.engine.MsSql?
    ensures Exec(d, Delete, rows, items, now).Failed? <==> AnyTooWide(items)
  {
    MssqlReads(d, Delete, items);
  }

  // -------------------------------------------------------------- option modes

  /** The text is one of the mode's names: a long one on every engine, a short one on
      MariaDB and MSSQL. */
  predicate IsName(d: Dialect, text: string, long: string, short: string) {
    SameText(d, text, long) || (!d.engine.Postgres? && SameText(d, text, short))
  }

  /** A mode text selects the first mode that it names. One that names none changes
      nothing: no status on Postgres, an error status on MariaDB, and on MSSQL no status
      or, as in every mode, an error for a text that is too wide. */
  lemma {:induction false} ModesRead(d: Dialect, text: string, rows: seq<Row>, items: seq<Item>, now: int)
    ensures CallOf(d, text, rows, items, now)
         == if IsName(d, text, "insertNewsFeed", "insertFeed") then Exec(d, Insert, rows, items, now)
            else if IsName(d, text, "updateNewsFeed", "updateFeed") then Exec(d, Update, rows, items, now)
            else if IsName(d, text, "deleteNewsFeed", "deleteFeed") then Exec(d, Delete, rows, items, now)
            else if d.engine.MsSql? && AnyTooWide(items) then Failed
            else Done(rows, if d.engine.MariaDb? then [InvalidMode] else [])
  {
    assert "insert" + "NewsFeed" == "insertNewsFeed" && "insert" + "Feed" == "insertFeed";
    assert "update" + "NewsFeed" == "updateNewsFeed" && "update" + "Feed" == "updateFeed";
    assert "delete" + "NewsFeed" == "deleteNewsFeed" && "delete" + "Feed" == "deleteFeed";
    if d.engine.MsSql? {
      MssqlReads(d, Insert, items);
    }
  }
}
