/** The `order by` of every extract: publish date, title, image, feed and actual
    URL, all ascending or all descending, then `limit`. */
module Ordering {
  import opened Feed
  import opened Bulk
  import opened TableLaws

  /** How an engine orders texts and dates, and where it puts nulls. */
  datatype Order = Order(text: Collation, date: string -> real, nullsFirst: bool)

  predicate LessOptional(o: Order, a: Option<string>, b: Option<string>) {
    if a.Some? && b.Some? then o.text(a.value) < o.text(b.value)
    else if o.nullsFirst then a.None? && b.Some?
    else a.Some? && b.None?
  }

  predicate EqualOptional(o: Order, a: Option<string>, b: Option<string>) {
    (a.None? && b.None?) || (a.Some? && b.Some? && o.text(a.value) == o.text(b.value))
  }

  /** Row `a` comes strictly before row `b` in ascending order. */
  predicate Precedes(o: Order, a: Row, b: Row) {
    || o.date(a.publishDate) < o.date(b.publishDate)
    || (o.date(a.publishDate) == o.date(b.publishDate) &&
        (|| o.text(a.title) < o.text(b.title)
         || (o.text(a.title) == o.text(b.title) && PrecedesUrls(o, a, b))))
  }

  predicate PrecedesUrls(o: Order, a: Row, b: Row) {
    || LessOptional(o, a.imageUrl, b.imageUrl)
    || (EqualOptional(o, a.imageUrl, b.imageUrl) &&
        (|| o.text(a.feedUrl) < o.text(b.feedUrl)
         || (o.text(a.feedUrl) == o.text(b.feedUrl) && LessOptional(o, a.actualUrl, b.actualUrl))))
  }

  predicate Ahead(o: Order, desc: bool, a: Row, b: Row) {
    if desc then Precedes(o, b, a) else Precedes(o, a, b)
  }

  /** The five-key order is a strict order on all rows. */
  lemma {:induction false} StrictOrder(o: Order, a: Row, b: Row, c: Row)
    ensures !Precedes(o, a, a)
    ensures Precedes(o, a, b) ==> !Precedes(o, b, a)
    ensures Precedes(o, a, b) && Precedes(o, b, c) ==> Precedes(o, a, c)
  {
  }

  /** It is total on rows whose titles are unique under the collation. */
  lemma {:induction false} TotalOrder(o: Order, a: Row, b: Row)
    requires o.text(a.title) != o.text(b.title)
    ensures Precedes(o, a, b) || Precedes(o, b, a)
  {
  }

  predicate Sorted(o: Order, desc: bool, rows: seq<Row>) {
    forall i, j :: 0 <= i < j < |rows| ==> Ahead(o, desc, rows[i], rows[j])
  }

  function Place(o: Order, desc: bool, r: Row, rows: seq<Row>): seq<Row> {
    if rows == [] || Ahead(o, desc, r, rows[0]) then [r] + rows
    else [rows[0]] + Place(o, desc, r, rows[1..])
  }

  function Sort(o: Order, desc: bool, rows: seq<Row>): seq<Row> {
    if rows == [] then [] else Place(o, desc, rows[0], Sort(o, desc, rows[1..]))
  }

  lemma {:induction false} PlaceKeeps(o: Order, desc: bool, r: Row, rows: seq<Row>)
    ensures RowSet(Place(o, desc, r, rows)) == RowSet(rows) + {r}
    ensures |Place(o, desc, r, rows)| == |rows| + 1
  {
    if rows != [] && !Ahead(o, desc, r, rows[0]) {
      PlaceKeeps(o, desc, r, rows[1..]);
      assert RowSet(rows) == {rows[0]} + RowSet(rows[1..]);
      assert RowSet(Place(o, desc, r, rows)) == {rows[0]} + RowSet(Place(o, desc, r, rows[1..]));
    } else {
      assert RowSet([r] + rows) == {r} + RowSet(rows);
    }
  }

  lemma {:induction false} SortKeeps(o: Order, desc: bool, rows: seq<Row>)
    ensures RowSet(Sort(o, desc, rows)) == RowSet(rows) && |Sort(o, desc, rows)| == |rows|
  {
    if rows != [] {
      SortKeeps(o, desc, rows[1..]);
      PlaceKeeps(o, desc, rows[0], Sort(o, desc, rows[1..]));
      assert RowSet(rows) == {rows[0]} + RowSet(rows[1..]);
    }
  }

  lemma {:induction false} PlaceSorts(o: Order, desc: bool, r: Row, rows: seq<Row>)
    requires Sorted(o, desc, rows)
    requires forall k :: 0 <= k < |rows| ==> o.text(rows[k].title) != o.text(r.title)
    ensures Sorted(o, desc, Place(o, desc, r, rows))
  {
    if rows != [] {
      TotalOrder(o, r, rows[0]);
      if Ahead(o, desc, r, rows[0]) {
        forall k | 0 <= k < |rows|
          ensures Ahead(o, desc, r, rows[k])
        {
          StrictOrder(o, r, rows[0], rows[k]);
          StrictOrder(o, rows[k], rows[0], r);
        }
      } else {
        PlaceSorts(o, desc, r, rows[1..]);
        PlaceKeeps(o, desc, r, rows[1..]);
        var rest := Place(o, desc, r, rows[1..]);
        forall k | 0 <= k < |rest|
          ensures Ahead(o, desc, rows[0], rest[k])
        {
          assert rest[k] in RowSet(rows[1..]) + {r};
        }
      }
    }
  }

  lemma {:induction false} SortSorts(o: Order, desc: bool, rows: seq<Row>)
    requires Keyed(o.text, rows)
    ensures Sorted(o, desc, Sort(o, desc, rows))
  {
    if rows != [] {
      SortSorts(o, desc, rows[1..]);
      SortKeeps(o, desc, rows[1..]);
      var rest := Sort(o, desc, rows[1..]);
      forall k | 0 <= k < |rest|
        ensures o.text(rest[k].title) != o.text(rows[0].title)
      {
        assert rest[k] in RowSet(rows[1..]);
      }
      PlaceSorts(o, desc, rows[0], rest);
    }
  }

  /** There is only one way to sort a set of rows. */
  lemma {:induction false} SortedUnique(o: Order, desc: bool, a: seq<Row>, b: seq<Row>)
    requires Sorted(o, desc, a) && Sorted(o, desc, b) && RowSet(a) == RowSet(b)
    ensures a == b
  {
    if a == [] || b == [] {
      EmptySet(a);
      EmptySet(b);
    } else {
      assert a[0] in RowSet(b) && b[0] in RowSet(a);
      var i :| 0 <= i < |b| && b[i] == a[0];
      var j :| 0 <= j < |a| && a[j] == b[0];
      StrictOrder(o, a[0], b[0], a[0]);
      assert a[0] == b[0];
      SortedTail(o, desc, a);
      SortedTail(o, desc, b);
      SortedUnique(o, desc, a[1..], b[1..]);
    }
  }

  lemma {:induction false} EmptySet(rows: seq<Row>)
    ensures RowSet(rows) == {} <==> rows == []
  {
    if rows != [] {
      assert rows[0] in RowSet(rows);
    }
  }

  lemma {:induction false} SortedTail(o: Order, desc: bool, a: seq<Row>)
    requires Sorted(o, desc, a) && a != []
    ensures Sorted(o, desc, a[1..]) && RowSet(a[1..]) == RowSet(a) - {a[0]}
  {
    StrictOrder(o, a[0], a[0], a[0]);
    assert a[0] !in a[1..];
    assert RowSet(a) == {a[0]} + RowSet(a[1..]);
  }

  /** The result of sorting does not depend on the physical order of the table. */
  lemma {:induction false} SortOrderFree(o: Order, desc: bool, rows: seq<Row>, rows': seq<Row>)
    requires Keyed(o.text, rows) && Keyed(o.text, rows') && RowSet(rows) == RowSet(rows')
    ensures Sort(o, desc, rows) == Sort(o, desc, rows')
  {
    SortSorts(o, desc, rows);
    SortSorts(o, desc, rows');
    SortKeeps(o, desc, rows);
    SortKeeps(o, desc, rows');
    SortedUnique(o, desc, Sort(o, desc, rows), Sort(o, desc, rows'));
  }

  /** A sorted table still has unique titles. */
  lemma {:induction false} SortedApart(o: Order, desc: bool, rows: seq<Row>, i: nat, j: nat)
    requires Keyed(o.text, rows) && i < j < |Sort(o, desc, rows)|
    ensures o.text(Sort(o, desc, rows)[i].title) != o.text(Sort(o, desc, rows)[j].title)
  {
    var s := Sort(o, desc, rows);
    SortSorts(o, desc, rows);
    SortKeeps(o, desc, rows);
    assert s[i] in RowSet(rows) && s[j] in RowSet(rows);
    var k :| 0 <= k < |rows| && rows[k] == s[i];
    var l :| 0 <= l < |rows| && rows[l] == s[j];
    StrictOrder(o, s[i], s[j], s[i]);
    assert Ahead(o, desc, s[i], s[j]);
  }

  /** With unique titles the page is ordered by date and then title alone: the
      three URL keys never decide. */
  lemma {:induction false} SortReads(o: Order, desc: bool, rows: seq<Row>, i: nat, j: nat)
    requires Keyed(o.text, rows) && i < j < |Sort(o, desc, rows)|
    ensures var s := Sort(o, desc, rows);
            var a, b := if desc then s[j] else s[i], if desc then s[i] else s[j];
            || o.date(a.publishDate) < o.date(b.publishDate)
            || (o.date(a.publishDate) == o.date(b.publishDate) && o.text(a.title) < o.text(b.title))
  {
    SortSorts(o, desc, rows);
    SortedApart(o, desc, rows, i, j);
  }

  function Reversed(rows: seq<Row>): (t: seq<Row>)
    ensures |t| == |rows| && forall k :: 0 <= k < |rows| ==> t[k] == rows[|rows| - 1 - k]
  {
    seq(|rows|, k requires 0 <= k < |rows| => rows[|rows| - 1 - k])
  }

  /** The full descending result is the ascending one reversed. */
  lemma {:induction false} DescendingIsReversed(o: Order, rows: seq<Row>)
    requires Keyed(o.text, rows)
    ensures Sort(o, true, rows) == Reversed(Sort(o, false, rows))
  {
    var up := Sort(o, false, rows);
    SortSorts(o, false, rows);
    SortSorts(o, true, rows);
    SortKeeps(o, false, rows);
    SortKeeps(o, true, rows);
    forall r | r in up
      ensures r in Reversed(up)
    {
      var k :| 0 <= k < |up| && up[k] == r;
      assert Reversed(up)[|up| - 1 - k] == r;
    }
    assert RowSet(Reversed(up)) == RowSet(up);
    SortedUnique(o, true, Sort(o, true, rows), Reversed(up));
  }

  /** `limit n` */
  function Take(n: nat, rows: seq<Row>): seq<Row> {
    if n <= |rows| then rows[..n] else rows
  }

  /** A smaller page is the beginning of a larger one. */
  lemma {:induction false} TakePrefix(m: nat, n: nat, rows: seq<Row>)
    requires m <= n
    ensures Take(m, rows) <= Take(n, rows)
  {
  }

  // ------------------------------------------------------------ the first rows

  /** By date, then by title. */
  predicate Earlier(o: Order, a: Row, b: Row) {
    || o.date(a.publishDate) < o.date(b.publishDate)
    || (o.date(a.publishDate) == o.date(b.publishDate) && o.text(a.title) < o.text(b.title))
  }

  predicate Comes(o: Order, desc: bool, a: Row, b: Row) {
    if desc then Earlier(o, b, a) else Earlier(o, a, b)
  }

  /** The page holds the first rows, up to the limit, of those that pass, in order. */
  ghost predicate FirstRows(o: Order, desc: bool, limit: nat, passing: set<Row>, page: seq<Row>) {
    && (forall i, j :: 0 <= i < j < |page| ==> Comes(o, desc, page[i], page[j]))
    && (forall i :: 0 <= i < |page| ==> page[i] in passing)
    && |page| == (if |passing| <= limit then |passing| else limit)
    && (forall r, i :: r in passing && r !in page && 0 <= i < |page| ==> Comes(o, desc, page[i], r))
  }

  /** Sorting a keyed table and taking from the front gives its first rows. */
  lemma {:induction false} TakeIsFirst(o: Order, desc: bool, limit: nat, rows: seq<Row>)
    requires Keyed(o.text, rows)
    ensures FirstRows(o, desc, limit, RowSet(rows), Take(limit, Sort(o, desc, rows)))
  {
    var s := Sort(o, desc, rows);
    var page := Take(limit, s);
    SortKeeps(o, desc, rows);
    KeyedCount(o.text, rows);
    forall i, j | 0 <= i < j < |s|
      ensures Comes(o, desc, s[i], s[j])
    {
      SortReads(o, desc, rows, i, j);
    }
    forall i | 0 <= i < |page|
      ensures page[i] in RowSet(rows)
    {
      assert page[i] in RowSet(s);
    }
    forall r, i | r in RowSet(rows) && r !in page && 0 <= i < |page|
      ensures Comes(o, desc, page[i], r)
    {
      assert r in RowSet(s);
      var j :| 0 <= j < |s| && s[j] == r;
      assert forall l :: 0 <= l < |page| ==> page[l] == s[l] && page[l] in page;
    }
  }

  lemma {:induction false} ComesIsAhead(o: Order, desc: bool, page: seq<Row>)
    requires forall i, j :: 0 <= i < j < |page| ==> Comes(o, desc, page[i], page[j])
    ensures Sorted(o, desc, page) && |RowSet(page)| == |page|
    decreases |page|
  {
    if page != [] {
      var n := |page| - 1;
      ComesIsAhead(o, desc, page[..n]);
      assert RowSet(page) == RowSet(page[..n]) + {page[n]};
      assert page[n] !in page[..n];
    }
  }

  lemma {:induction false} NoFewer<T>(a: set<T>, b: set<T>)
    requires |a| == |b| && a != b
    ensures exists x :: x in a && x !in b
  {
    assert a <= b ==> b == a + (b - a);
  }

  /** There is only one such page. */
  lemma {:induction false} FirstRowsUnique(o: Order, desc: bool, limit: nat, passing: set<Row>, a: seq<Row>, b: seq<Row>)
    requires FirstRows(o, desc, limit, passing, a) && FirstRows(o, desc, limit, passing, b)
    ensures a == b
  {
    ComesIsAhead(o, desc, a);
    ComesIsAhead(o, desc, b);
    if RowSet(a) != RowSet(b) {
      NoFewer(RowSet(a), RowSet(b));
      NoFewer(RowSet(b), RowSet(a));
      assert false;
    }
    SortedUnique(o, desc, a, b);
  }

  // --------------------------------------------------------- tables without key

  /** Where a value stands in its column: nulls before or after all texts. */
  datatype Rank = Rank(band: int, key: real)

  function Ranked(o: Order, t: Option<string>): Rank {
    if t.Some? then Rank(1, o.text(t.value)) else Rank(if o.nullsFirst then 0 else 2, 0.0)
  }

  /** The five columns of the `order by`, as ranks. */
  function Ranks(o: Order, r: Row): (ranks: seq<Rank>)
    ensures |ranks| == 5
  {
    [Rank(1, o.date(r.publishDate)), Ranked(o, Some(r.title)), Ranked(o, r.imageUrl), Ranked(o, Some(r.feedUrl)), Ranked(o, r.actualUrl)]
  }

  predicate Under(a: Rank, b: Rank) {
    a.band < b.band || (a.band == b.band && a.key < b.key)
  }

  /** The first column in which the rows differ decides. */
  predicate DecidedAt(a: seq<Rank>, b: seq<Rank>, k: nat)
    requires k < |a| == |b|
  {
    Under(a[k], b[k]) && a[..k] == b[..k]
  }

  predicate Lexically(a: seq<Rank>, b: seq<Rank>)
    requires |a| == |b|
  {
    exists k :: 0 <= k < |a| && DecidedAt(a, b, k)
  }

  /** The order is the lexicographic one of the five columns. */
  lemma {:induction false} PrecedesLexically(o: Order, a: Row, b: Row)
    ensures Precedes(o, a, b) <==> Lexically(Ranks(o, a), Ranks(o, b))
  {
    var x, y := Ranks(o, a), Ranks(o, b);
    assert x[..1] == y[..1] <==> x[0] == y[0];
    assert x[..2] == y[..2] <==> x[..1] == y[..1] && x[1] == y[1];
    assert x[..3] == y[..3] <==> x[..2] == y[..2] && x[2] == y[2];
    assert x[..4] == y[..4] <==> x[..3] == y[..3] && x[3] == y[3];
    if Precedes(o, a, b) {
      assert DecidedAt(x, y, 0) || DecidedAt(x, y, 1) || DecidedAt(x, y, 2) || DecidedAt(x, y, 3) || DecidedAt(x, y, 4);
    }
  }

  /** No row comes before one that stands further in front. */
  predicate InOrder(o: Order, desc: bool, rows: seq<Row>) {
    forall i, j :: 0 <= i < j < |rows| ==> !Ahead(o, desc, rows[j], rows[i])
  }

  lemma {:induction false} PlaceCounts(o: Order, desc: bool, r: Row, rows: seq<Row>)
    ensures multiset(Place(o, desc, r, rows)) == multiset(rows) + multiset{r}
  {
    if rows == [] || Ahead(o, desc, r, rows[0]) {
      assert [r] + rows == Place(o, desc, r, rows);
    } else {
      PlaceCounts(o, desc, r, rows[1..]);
      assert rows == [rows[0]] + rows[1..];
    }
  }

  lemma {:induction false} PlaceInOrder(o: Order, desc: bool, r: Row, rows: seq<Row>)
    requires InOrder(o, desc, rows)
    ensures InOrder(o, desc, Place(o, desc, r, rows))
  {
    if rows != [] {
      if Ahead(o, desc, r, rows[0]) {
        forall k | 0 <= k < |rows|
          ensures !Ahead(o, desc, rows[k], r)
        {
          StrictOrder(o, rows[k], r, rows[0]);
          StrictOrder(o, rows[0], r, rows[k]);
        }
      } else {
        var rest := Place(o, desc, r, rows[1..]);
        PlaceInOrder(o, desc, r, rows[1..]);
        PlaceCounts(o, desc, r, rows[1..]);
        forall k | 0 <= k < |rest|
          ensures !Ahead(o, desc, rest[k], rows[0])
        {
          assert rest[k] in multiset(rest);
        }
      }
    }
  }

  /** Sorting any table at all keeps its rows, as often as they are there, and puts
      them in order. */
  lemma {:induction false} SortInOrder(o: Order, desc: bool, rows: seq<Row>)
    ensures InOrder(o, desc, Sort(o, desc, rows)) && multiset(Sort(o, desc, rows)) == multiset(rows)
  {
    if rows != [] {
      SortInOrder(o, desc, rows[1..]);
      PlaceInOrder(o, desc, rows[0], Sort(o, desc, rows[1..]));
      PlaceCounts(o, desc, rows[0], Sort(o, desc, rows[1..]));
      assert rows == [rows[0]] + rows[1..];
    }
  }

  /** Row `b` may stand after row `a`. */
  predicate MayFollow(o: Order, desc: bool, a: Row, b: Row) {
    if desc then !Lexically(Ranks(o, a), Ranks(o, b)) else !Lexically(Ranks(o, b), Ranks(o, a))
  }

  /** The page and the rows left out, in the five columns' order, no longer than the
      limit, and leaving out nothing while there is room. */
  predicate FrontOf(o: Order, desc: bool, limit: nat, page: seq<Row>, out: seq<Row>) {
    && (forall i, j :: 0 <= i < j < |page| ==> MayFollow(o, desc, page[i], page[j]))
    && (forall i, j :: 0 <= i < |page| && 0 <= j < |out| ==> MayFollow(o, desc, page[i], out[j]))
    && |page| <= limit && (out != [] ==> |page| == limit)
  }

  lemma {:induction false} InOrderFollows(o: Order, desc: bool, rows: seq<Row>, i: nat, j: nat)
    requires InOrder(o, desc, rows) && i < j < |rows|
    ensures MayFollow(o, desc, rows[i], rows[j])
  {
    PrecedesLexically(o, rows[i], rows[j]);
    PrecedesLexically(o, rows[j], rows[i]);
    assert !Ahead(o, desc, rows[j], rows[i]);
  }

  lemma {:induction false} TakeIsFront(o: Order, desc: bool, limit: nat, rows: seq<Row>) returns (out: seq<Row>)
    ensures FrontOf(o, desc, limit, Take(limit, Sort(o, desc, rows)), out)
    ensures multiset(Take(limit, Sort(o, desc, rows))) + multiset(out) == multiset(rows)
  {
    SortInOrder(o, desc, rows);
    out := TakeSplits(o, desc, limit, Sort(o, desc, rows));
  }

  lemma {:induction false} TakeSplits(o: Order, desc: bool, limit: nat, s: seq<Row>) returns (out: seq<Row>)
    requires InOrder(o, desc, s)
    ensures FrontOf(o, desc, limit, Take(limit, s), out)
    ensures multiset(Take(limit, s)) + multiset(out) == multiset(s)
  {
    var page := Take(limit, s);
    out := s[|page|..];
    assert s == page + out;
    forall i, j | 0 <= i < j < |page|
      ensures MayFollow(o, desc, page[i], page[j])
    {
      InOrderFollows(o, desc, s, i, j);
    }
    forall i, j | 0 <= i < |page| && 0 <= j < |out|
      ensures MayFollow(o, desc, page[i], out[j])
    {
      InOrderFollows(o, desc, s, i, |page| + j);
    }
  }
}
