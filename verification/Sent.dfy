/** What a bulk call does with the items as clients send them: which it reads, how it
    answers them, and what then stands in the table. */
module Sent {
  import opened Feed
  import opened Bulk
  import opened BulkLaws
  import opened Refinement
  import opened TableLaws
  import opened Conservation
  import opened Runs
  import opened Sanitiser
  import opened Sql
  import opened Visibility

  // ------------------------------------------------------------ which are read

  predicate Filled(o: Option<string>) {
    o.Some? && !AllSpaces(o.value)
  }

  /** Title, feed URL and date are given and not blank. */
  predicate Full(p: Item) {
    Filled(p.title) && Filled(p.feedUrl) && Filled(p.publishDate)
  }

  /** Postgres reads every item, the others those that are full. */
  predicate IsRead(d: Dialect, p: Item) {
    d.engine.Postgres? || Full(p)
  }

  /** How many of the first `i` items are read: the place of the answer to item `i`. */
  function Place(d: Dialect, items: seq<Item>, i: nat): (n: nat)
    requires i <= |items|
    ensures n <= i && (d.engine.Postgres? ==> n == i)
  {
    if i == 0 then 0 else Place(d, items, i - 1) + if IsRead(d, items[i - 1]) then 1 else 0
  }

  // ------------------------------------------------------------- what is stored

  /** The spaces around `s` end at `i` and begin at `j`. */
  predicate CutAt(s: string, i: int, j: int) {
    0 <= i < j <= |s| && s[i] != ' ' && s[j - 1] != ' ' && AllSpaces(s[..i]) && AllSpaces(s[j..])
  }

  /** `t` is `s` without the spaces around it. */
  ghost predicate CutOut(s: string, t: string) {
    exists i, j :: CutAt(s, i, j) && t == s[i..j]
  }

  lemma {:induction false} CutUnique(s: string, i: int, j: int, a: int, b: int)
    requires CutAt(s, i, j) && CutAt(s, a, b)
    ensures i == a && j == b
  {
    InsideCut(s, i, j, a);
    InsideCut(s, i, j, b - 1);
    InsideCut(s, a, b, i);
    InsideCut(s, a, b, j - 1);
  }

  lemma {:induction false} InsideCut(s: string, i: int, j: int, a: int)
    requires CutAt(s, i, j) && 0 <= a < |s| && s[a] != ' '
    ensures i <= a < j
  {
  }

  /** A nullable text that is absent or blank is stored as null, any other without
      the spaces around it. */
  ghost predicate StoredText(sent: Option<string>, stored: Option<string>) {
    if Filled(sent) then stored.Some? && CutOut(sent.value, stored.value) else stored.None?
  }

  /** In particular a text without spaces around it is stored as sent. */
  lemma {:induction false} BareTextStored(s: string, stored: Option<string>)
    requires StoredText(Some(s), stored) && s != "" && s[0] != ' ' && s[|s| - 1] != ' '
    ensures stored == Some(s)
  {
    var i, j :| CutAt(s, i, j) && stored.value == s[i..j];
    InsideCut(s, i, j, 0);
    InsideCut(s, i, j, |s| - 1);
    assert s[0..|s|] == s;
  }

  /** A date is stored in the form of the engine's column, as the text itself on MariaDB. */
  predicate StoredDate(d: Dialect, sent: Option<string>, stored: string) {
    && sent.Some?
    && if d.engine.MariaDb? then stored == sent.value else d.cast(sent.value) == Some(stored)
  }

  /** Every column but title and stamps holds what the item says. */
  ghost predicate LikeSent(d: Dialect, p: Item, r: Row) {
    && StoredText(p.imageUrl, r.imageUrl)
    && p.feedUrl == Some(r.feedUrl)
    && StoredText(p.actualUrl, r.actualUrl)
    && StoredDate(d, p.publishDate, r.publishDate)
  }

  // -------------------------------------------------------------------- parsing

  lemma {:induction false} TrimCutsOut(s: string)
    requires !AllSpaces(s)
    ensures CutOut(s, Trim(s)) && Trim(s) != ""
  {
    var i := TrimStartTakes(s);
    var t := s[i..];
    var j := TrimEndTakes(t);
    TrimBlank(s);
    assert t[..j] == s[i..i + j] && t[j..] == s[i + j..];
    assert CutAt(s, i, i + j);
  }

  lemma {:induction false} BlankStored(o: Option<string>)
    ensures StoredText(o, NullIfBlank(o))
  {
    if o.Some? {
      TrimBlank(o.value);
      if !AllSpaces(o.value) {
        TrimCutsOut(o.value);
      }
    }
  }

  lemma {:induction false} KeptIsFull(p: Item)
    ensures Kept(p) <==> Full(p)
  {
    if p.title.Some? {
      TrimBlank(p.title.value);
    }
    if p.feedUrl.Some? {
      TrimBlank(p.feedUrl.value);
    }
    if p.publishDate.Some? {
      TrimBlank(p.publishDate.value);
    }
  }

  /** What the parsing step makes of an item that it reads. */
  ghost predicate ParsedFrom(d: Dialect, mode: Mode, p: Item, q: Item) {
    && q.title == p.title && q.feedUrl == p.feedUrl
    && (!mode.Delete? ==>
          && StoredText(p.imageUrl, q.imageUrl) && StoredText(p.actualUrl, q.actualUrl)
          && q.publishDate == if d.engine.MariaDb? || p.publishDate.None? then p.publishDate else d.cast(p.publishDate.value))
  }

  lemma {:induction false} CleanedFrom(d: Dialect, mode: Mode, p: Item)
    ensures !d.engine.MariaDb? ==> ParsedFrom(d, mode, p, Dated(d, Cleaned(p)))
    ensures d.engine.MariaDb? ==> ParsedFrom(d, mode, p, Cleaned(p))
  {
    BlankStored(p.imageUrl);
    BlankStored(p.actualUrl);
  }

  lemma {:induction false} PlaceIsKept(d: Dialect, items: seq<Item>, i: nat)
    requires !d.engine.Postgres? && i <= |items|
    ensures Place(d, items, i) == |KeptOf(items[..i])|
  {
    if i > 0 {
      PlaceIsKept(d, items, i - 1);
      KeptIsFull(items[i - 1]);
      KeptStep(items, i - 1);
    }
  }

  /** The items kept before item `i` determine the place of item `i`. */
  lemma {:induction false} KeptPlace(d: Dialect, items: seq<Item>, i: nat)
    requires !d.engine.Postgres? && i < |items| && IsRead(d, items[i])
    ensures Place(d, items, i) < |KeptOf(items)| && KeptOf(items)[Place(d, items, i)] == items[i]
  {
    PlaceIsKept(d, items, i);
    KeptIsFull(items[i]);
    KeptStep(items, i);
    assert items[..i + 1] + items[i + 1..] == items;
    KeptAppend(items[..i + 1], items[i + 1..]);
  }

  lemma {:induction false} KeptStep(items: seq<Item>, i: nat)
    requires i < |items|
    ensures KeptOf(items[..i + 1]) == KeptOf(items[..i]) + if Kept(items[i]) then [items[i]] else []
  {
    assert items[..i + 1] == items[..i] + [items[i]];
    KeptAppend(items[..i], [items[i]]);
    assert [items[i]][1..] == [];
  }

  /** Each item read is parsed at its place. */
  lemma {:induction false} ParsedAt(d: Dialect, mode: Mode, items: seq<Item>, i: nat)
    requires Parsed(d, mode, items).Some? && i < |items| && IsRead(d, items[i])
    ensures var ps := Parsed(d, mode, items).value;
            Place(d, items, i) < |ps| && ParsedFrom(d, mode, items[i], ps[Place(d, items, i)])
  {
    CleanedFrom(d, mode, items[i]);
    if !d.engine.Postgres? {
      KeptPlace(d, items, i);
    }
  }

  lemma {:induction false} ParsedCount(d: Dialect, mode: Mode, items: seq<Item>)
    requires Parsed(d, mode, items).Some?
    ensures |Parsed(d, mode, items).value| == Place(d, items, |items|)
  {
    if !d.engine.Postgres? {
      PlaceIsKept(d, items, |items|);
      assert items[..|items|] == items;
    }
  }

  /** And nothing else is parsed. */
  lemma {:induction false} ItemAt(d: Dialect, items: seq<Item>, n: nat, k: nat) returns (i: nat)
    requires n <= |items| && k < Place(d, items, n)
    ensures i < n && IsRead(d, items[i]) && Place(d, items, i) == k
  {
    if k < Place(d, items, n - 1) {
      i := ItemAt(d, items, n - 1, k);
    } else {
      i := n - 1;
    }
  }

  lemma {:induction false} PlaceGrows(d: Dialect, items: seq<Item>, i: nat, j: nat)
    requires i < j <= |items|
    ensures Place(d, items, i) <= Place(d, items, j)
    ensures IsRead(d, items[i]) ==> Place(d, items, i) < Place(d, items, j)
  {
    if i < j - 1 {
      PlaceGrows(d, items, i, j - 1);
    }
  }

  lemma {:induction false} SentTidy(d: Dialect, mode: Mode, items: seq<Item>)
    requires Apart(d, items) && Titled(items) && Parsed(d, mode, items).Some?
    ensures Tidy(d, Parsed(d, mode, items).value)
  {
    OrderlyTidy(d, mode, items);
  }

  // -------------------------------------------------------------------- answers

  /** Every item read has its answer, in order, and there are no others. */
  lemma {:induction false} AnswersSent(d: Dialect, mode: Mode, rows: seq<Row>, items: seq<Item>, now: int)
    requires Keyed(d.key, rows) && Apart(d, items) && Titled(items) && Exec(d, mode, rows, items, now).Done?
    ensures |Exec(d, mode, rows, items, now).outcomes| == Place(d, items, |items|)
  {
    SentTidy(d, mode, items);
    AnswerLaw(d, mode, rows, Parsed(d, mode, items).value);
    ParsedCount(d, mode, items);
  }

  /** The item's title is `t`: as exact text on Postgres, under the collation on the
      others. */
  predicate Means(d: Dialect, p: Item, t: string) {
    p.title.Some? && if d.engine.Postgres? then p.title.value == t else d.key(p.title.value) == d.key(t)
  }

  predicate IsThere(d: Dialect, rows: seq<Row>, p: Item) {
    exists k :: 0 <= k < |rows| && Means(d, p, rows[k].title)
  }

  predicate SameKey(d: Dialect, p: Item, q: Item) {
    p.title.Some? && q.title.Some? && d.key(p.title.value) == d.key(q.title.value)
  }

  /** No stored row has the title under the collation, and on Postgres no earlier
      item of the batch. */
  predicate IsNew(d: Dialect, rows: seq<Row>, items: seq<Item>, i: nat)
    requires i < |items|
  {
    && (forall k :: 0 <= k < |rows| ==> !(items[i].title.Some? && d.key(items[i].title.value) == d.key(rows[k].title)))
    && (d.engine.Postgres? ==> forall j :: 0 <= j < i ==> !SameKey(d, items[j], items[i]))
  }

  lemma {:induction false} ThereIsNamed(d: Dialect, rows: seq<Row>, p: Item, q: Item)
    requires p.title == q.title
    ensures IsThere(d, rows, p) <==> Named(d, rows, q)
  {
    assert forall k :: 0 <= k < |rows| ==> (Means(d, p, rows[k].title) <==> Names(d, q, rows[k]));
  }

  lemma {:induction false} NewIsAdmitted(d: Dialect, rows: seq<Row>, items: seq<Item>, ps: seq<Item>, i: nat)
    requires Parsed(d, Insert, items) == Some(ps) && Tidy(d, ps) && i < |items| && IsRead(d, items[i])
    ensures Place(d, items, i) < |ps|
    ensures IsNew(d, rows, items, i) <==> ps[Place(d, items, i)] in Admitted(d, rows, ps)
  {
    ParsedAt(d, Insert, items, i);
    var n := Place(d, items, i);
    var p := ps[n];
    assert Fresh(d, rows, p) <==> forall k :: 0 <= k < |rows| ==> !(items[i].title.Some? && d.key(items[i].title.value) == d.key(rows[k].title)) by {
      assert forall k :: 0 <= k < |rows| ==> (Clashes(d, p, rows[k]) <==> items[i].title.Some? && d.key(items[i].title.value) == d.key(rows[k].title));
    }
    if d.engine.Postgres? {
      NewOnPostgres(d, rows, items, ps, i);
    } else {
      AdmittedFresh(d, rows, ps, p);
    }
  }

  lemma {:induction false} NewOnPostgres(d: Dialect, rows: seq<Row>, items: seq<Item>, ps: seq<Item>, i: nat)
    requires d.engine.Postgres? && Parsed(d, Insert, items) == Some(ps) && Tidy(d, ps) && i < |items| == |ps|
    requires Fresh(d, rows, ps[i]) <==> forall k :: 0 <= k < |rows| ==> !(items[i].title.Some? && d.key(items[i].title.value) == d.key(rows[k].title))
    ensures IsNew(d, rows, items, i) <==> ps[i] in Admitted(d, rows, ps)
  {
    AdmittedAtIndex(d, rows, ps, ps[i]);
    forall j | 0 <= j < i
      ensures SameKey(d, items[j], items[i]) <==> Rivals(d, ps[j], ps[i])
    {
      ParsedAt(d, Insert, items, j);
      ParsedAt(d, Insert, items, i);
    }
    assert (forall q :: q in ps[..i] ==> !Rivals(d, q, ps[i])) <==> forall j :: 0 <= j < i ==> !Rivals(d, ps[j], ps[i]) by {
      assert forall j :: 0 <= j < i ==> ps[..i][j] == ps[j] && ps[j] in ps[..i];
    }
    forall k | 0 <= k < |ps| && ps[k] == ps[i]
      ensures k == i
    {
      assert Meets(d, ps[k], ps[i]);
    }
  }

  /** How the titles, as sent, decide the answers. */
  lemma {:induction false} TitlesDecide(d: Dialect, mode: Mode, rows: seq<Row>, items: seq<Item>, now: int, i: nat)
    requires Keyed(d.key, rows) && Apart(d, items) && Titled(items) && Exec(d, mode, rows, items, now).Done?
    requires i < |items| && IsRead(d, items[i])
    ensures var os := Exec(d, mode, rows, items, now).outcomes;
      && Place(d, items, i) < |os|
      && match mode
         case Insert => os[Place(d, items, i)] == if IsNew(d, rows, items, i) then Inserted else SkippedExists
         case Update =>
           os[Place(d, items, i)] in (if IsThere(d, rows, items[i]) then {Updated, SkippedExists} else {SkippedNotFound})
         case Delete => os[Place(d, items, i)] == if IsThere(d, rows, items[i]) then Deleted else SkippedNotFound
  {
    var ps := Parsed(d, mode, items).value;
    SentTidy(d, mode, items);
    AnswerLaw(d, mode, rows, ps);
    ParsedAt(d, mode, items, i);
    var p := ps[Place(d, items, i)];
    ThereIsNamed(d, rows, items[i], p);
    match mode {
      case Insert =>
        NewIsAdmitted(d, rows, items, ps, i);
      case Update =>
        assert (exists k :: 0 <= k < |rows| && Hits(d, p, rows[k])) ==> Named(d, rows, p);
      case Delete =>
    }
  }

  // ------------------------------------------------------------- what then stands

  lemma {:induction false} StoredLikeSent(d: Dialect, mode: Mode, p: Item, q: Item, r: Row)
    requires !mode.Delete? && ParsedFrom(d, mode, p, q) && IsStored(r, q)
    ensures LikeSent(d, p, r)
  {
  }

  /** An item answered with a success stands in one row, under the title sent for an
      insert and that of the row for an update: every column holds what was sent. */
  lemma {:induction false} SuccessStoresSent(d: Dialect, mode: Mode, rows: seq<Row>, items: seq<Item>, now: int, i: nat)
    returns (k: nat)
    requires Keyed(d.key, rows) && Apart(d, items) && Titled(items) && !mode.Delete?
    requires var a := Exec(d, mode, rows, items, now);
      && a.Done? && i < |items| && IsRead(d, items[i]) && Place(d, items, i) < |a.outcomes|
      && StatusOf(a.outcomes[Place(d, items, i)]) == Success
    ensures var rows' := Exec(d, mode, rows, items, now).rows;
      && k < |rows'| && LikeSent(d, items[i], rows'[k]) && rows'[k].modified == now
      && (mode.Insert? ==> items[i].title == Some(rows'[k].title) && rows'[k].created == now)
      && (mode.Update? ==> k < |rows| && Means(d, items[i], rows[k].title)
                           && rows'[k].title == rows[k].title && rows'[k].created == rows[k].created)
      && forall j :: 0 <= j < |rows'| && d.key(rows'[j].title) == d.key(rows'[k].title) ==> j == k
  {
    var ps := Parsed(d, mode, items).value;
    SentTidy(d, mode, items);
    ParsedAt(d, mode, items, i);
    k := SuccessRow(d, mode, rows, ps, now, Place(d, items, i));
    StoredLikeSent(d, mode, items[i], ps[Place(d, items, i)], Exec(d, mode, rows, items, now).rows[k]);
  }

  /** The same of the items as parsed. */
  lemma {:induction false} SuccessRow(d: Dialect, mode: Mode, rows: seq<Row>, ps: seq<Item>, now: int, n: nat) returns (k: nat)
    requires Keyed(d.key, rows) && Tidy(d, ps) && !mode.Delete? && n < |ps|
    requires var a := Apply(d, mode, rows, ps, now);
             a.Done? && n < |a.outcomes| && StatusOf(a.outcomes[n]) == Success
    ensures var rows' := Apply(d, mode, rows, ps, now).rows;
      && StoredAt(d, rows', ps[n], now, k)
      && (mode.Insert? ==> ps[n].title == Some(rows'[k].title) && rows'[k].created == now)
      && (mode.Update? ==> k < |rows| && Names(d, ps[n], rows[k])
                           && rows'[k].title == rows[k].title && rows'[k].created == rows[k].created)
      && forall j :: 0 <= j < |rows'| && d.key(rows'[j].title) == d.key(rows'[k].title) ==> j == k
  {
    AnswerLaw(d, mode, rows, ps);
    TidyKeyed(d, mode, rows, ps, now);
    if mode.Insert? {
      k := InsertStores(d, rows, ps, now, ps[n]);
      InsertTitled(d, rows, ps, now, ps[n], k);
    } else {
      k := UpdateStores(d, rows, ps, now, ps[n]);
    }
  }

  /** An update that skips an item as existing leaves its row alone, and the row
      differs from what was sent in no way that the engine can see. */
  lemma {:induction false} SkipMeansSeen(d: Dialect, rows: seq<Row>, items: seq<Item>, now: int, i: nat)
    returns (k: nat, image: Option<string>, actual: Option<string>)
    requires Keyed(d.key, rows) && Apart(d, items) && Titled(items)
    requires var a := Exec(d, Update, rows, items, now);
      && a.Done? && i < |items| && IsRead(d, items[i]) && Place(d, items, i) < |a.outcomes|
      && a.outcomes[Place(d, items, i)] == SkippedExists
    ensures StoredText(items[i].imageUrl, image) && StoredText(items[i].actualUrl, actual)
    ensures var p, rows' := items[i], Exec(d, Update, rows, items, now).rows;
      && k < |rows| == |rows'| && Means(d, p, rows[k].title) && rows'[k] == rows[k]
      && match d.engine
         case Postgres => rows[k].imageUrl == image && p.feedUrl == Some(rows[k].feedUrl) && rows[k].actualUrl == actual
                          && StoredDate(d, p.publishDate, rows[k].publishDate)
         case MariaDb =>
           && KeyOf(d.key, rows[k].imageUrl) == KeyOf(d.key, image)
           && KeyOf(d.key, Some(rows[k].feedUrl)) == KeyOf(d.key, p.feedUrl)
           && KeyOf(d.key, rows[k].actualUrl) == KeyOf(d.key, actual)
           && KeyOf(d.key, Some(rows[k].publishDate)) == KeyOf(d.key, p.publishDate)
         case MsSql =>
           && !Differ(d.key, Some(rows[k].feedUrl), p.feedUrl)
           && !Differ(d.key, rows[k].imageUrl, image)
           && !Differ(d.key, rows[k].actualUrl, actual)
           && d.cast(p.publishDate.value) in {None, Some(rows[k].publishDate)}
  {
    var ps := Parsed(d, Update, items).value;
    SentTidy(d, Update, items);
    ParsedAt(d, Update, items, i);
    var p := ps[Place(d, items, i)];
    image, actual := p.imageUrl, p.actualUrl;
    k := SkipIsSeen(d, rows, ps, now, Place(d, items, i));
  }

  // -------------------------------------------------------------- and nothing else

  /** Item `i` was read, and row `r` is what it asks for. */
  ghost predicate AskedFor(d: Dialect, items: seq<Item>, r: Row, i: int) {
    0 <= i < |items| && IsRead(d, items[i]) && LikeSent(d, items[i], r)
  }

  /** An insert keeps all rows and adds rows that items ask for. */
  lemma {:induction false} InsertOnlyAdds(d: Dialect, rows: seq<Row>, items: seq<Item>, now: int)
    requires Exec(d, Insert, rows, items, now).Done?
    ensures var rows' := Exec(d, Insert, rows, items, now).rows;
      && |rows| <= |rows'| && rows'[..|rows|] == rows
      && forall k :: |rows| <= k < |rows'| ==>
           && rows'[k].created == rows'[k].modified == now
           && exists i :: AskedFor(d, items, rows'[k], i) && items[i].title == Some(rows'[k].title)
  {
    var rows' := Exec(d, Insert, rows, items, now).rows;
    forall k | |rows| <= k < |rows'|
      ensures rows'[k].created == rows'[k].modified == now
      ensures exists i :: AskedFor(d, items, rows'[k], i) && items[i].title == Some(rows'[k].title)
    {
      var p := Admitted(d, rows, Parsed(d, Insert, items).value)[k - |rows|];
      AddedRow(d, rows, items, now, p);
    }
  }

  lemma {:induction false} AddedRow(d: Dialect, rows: seq<Row>, items: seq<Item>, now: int, p: Item)
    requires Exec(d, Insert, rows, items, now).Done? && p in Admitted(d, rows, Parsed(d, Insert, items).value)
    ensures Storable(p)
    ensures exists i :: AskedFor(d, items, NewRow(p, now), i) && items[i].title == Some(NewRow(p, now).title)
  {
    var ps := Parsed(d, Insert, items).value;
    AdmittedAreItems(d, rows, ps);
    ParsedCount(d, Insert, items);
    var n :| 0 <= n < |ps| && ps[n] == p;
    var i := ItemAt(d, items, |items|, n);
    ParsedAt(d, Insert, items, i);
    StoredLikeSent(d, Insert, items[i], p, NewRow(p, now));
    assert AskedFor(d, items, NewRow(p, now), i);
  }

  /** An update keeps every row but those that it makes what an item of that title
      asks for, and of these the title and the date of creation. */
  lemma {:induction false} UpdateOnlyRewrites(d: Dialect, rows: seq<Row>, items: seq<Item>, now: int)
    requires Exec(d, Update, rows, items, now).Done?
    ensures var rows' := Exec(d, Update, rows, items, now).rows;
      && |rows'| == |rows|
      && forall k :: 0 <= k < |rows| && rows'[k] != rows[k] ==>
           (&& rows'[k].title == rows[k].title && rows'[k].created == rows[k].created && rows'[k].modified == now
            && exists i :: AskedFor(d, items, rows'[k], i) && Means(d, items[i], rows[k].title))
  {
    var ps, rows' := Parsed(d, Update, items).value, Exec(d, Update, rows, items, now).rows;
    ParsedCount(d, Update, items);
    forall k | 0 <= k < |rows| && rows'[k] != rows[k]
      ensures rows'[k].title == rows[k].title && rows'[k].created == rows[k].created && rows'[k].modified == now
      ensures exists i :: AskedFor(d, items, rows'[k], i) && Means(d, items[i], rows[k].title)
    {
      var p := HitOn(d, rows[k], ps).value;
      var n :| 0 <= n < |ps| && ps[n] == p;
      var i := ItemAt(d, items, |items|, n);
      ParsedAt(d, Update, items, i);
      StoredLikeSent(d, Update, items[i], p, rows'[k]);
      assert AskedFor(d, items, rows'[k], i);
    }
  }

  /** A delete keeps exactly the rows whose title no item read means. */
  lemma {:induction false} DeleteOnlyTakes(d: Dialect, rows: seq<Row>, items: seq<Item>, now: int, r: Row)
    requires Exec(d, Delete, rows, items, now).Done?
    ensures r in Exec(d, Delete, rows, items, now).rows <==>
            r in rows && forall i :: 0 <= i < |items| && IsRead(d, items[i]) ==> !Means(d, items[i], r.title)
  {
    var ps := Parsed(d, Delete, items).value;
    ParsedCount(d, Delete, items);
    if p :| p in ps && Names(d, p, r) {
      var n :| 0 <= n < |ps| && ps[n] == p;
      var i := ItemAt(d, items, |items|, n);
      ParsedAt(d, Delete, items, i);
      assert Means(d, items[i], r.title);
    }
    if i :| 0 <= i < |items| && IsRead(d, items[i]) && Means(d, items[i], r.title) {
      ParsedAt(d, Delete, items, i);
      assert Names(d, ps[Place(d, items, i)], r);
    }
  }
}
