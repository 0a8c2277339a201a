/** `extractnewsfeed`: the query that each engine builds from the filters, the
    arguments it binds, and what running them returns. */
module Query {
  import opened Feed
  import opened Bulk
  import opened TableLaws
  import opened Ordering

  datatype Column = Title | ImageUrl | FeedUrl | ActualUrl

  /** The sanitised filters; `None` is a parameter that is not given. */
  datatype Filters = Filters(title: Option<string>, imageUrl: Option<string>, feedUrl: Option<string>, actualUrl: Option<string>)

  function Given(f: Filters, c: Column): Option<string> {
    match c
    case Title => f.title
    case ImageUrl => f.imageUrl
    case FeedUrl => f.feedUrl
    case ActualUrl => f.actualUrl
  }

  function ValueOf(r: Row, c: Column): Option<string> {
    match c
    case Title => Some(r.title)
    case ImageUrl => r.imageUrl
    case FeedUrl => Some(r.feedUrl)
    case ActualUrl => r.actualUrl
  }

  /** One conjunct of the WHERE text: `nf.c = $slot` or `nf.c is null`. MariaDB's
      question marks are numbered by their position, MSSQL's names by column. */
  datatype Clause = EqualTo(column: Column, slot: nat) | IsNull(column: Column)

  /** The built statement: WHERE conjuncts, sort direction and the slot of `limit`. */
  datatype Query = Query(clauses: seq<Clause>, desc: bool, limitSlot: nat)

  datatype Argument = Text(text: string) | Number(n: nat) | Null

  // -------------------------------------------------------------- evaluation

  predicate Bound(args: seq<Argument>, slot: nat) {
    1 <= slot <= |args|
  }

  predicate Satisfies(o: Order, args: seq<Argument>, r: Row, c: Clause)
    requires c.EqualTo? ==> Bound(args, c.slot)
  {
    match c
    case IsNull(column) => ValueOf(r, column).None?
    case EqualTo(column, slot) =>
      var arg := args[slot - 1];
      arg.Text? && ValueOf(r, column).Some? && o.text(ValueOf(r, column).value) == o.text(arg.text)
  }

  /** Every placeholder has an argument of the right type: a text (or a null) for
      a column, a number for the limit. */
  predicate WellBound(q: Query, args: seq<Argument>) {
    && (forall k :: 0 <= k < |q.clauses| && q.clauses[k].EqualTo? ==>
          Bound(args, q.clauses[k].slot) && !args[q.clauses[k].slot - 1].Number?)
    && Bound(args, q.limitSlot) && args[q.limitSlot - 1].Number?
  }

  predicate Selected(o: Order, q: Query, args: seq<Argument>, r: Row)
    requires WellBound(q, args)
  {
    forall k :: 0 <= k < |q.clauses| ==> Satisfies(o, args, r, q.clauses[k])
  }

  function Select(o: Order, q: Query, args: seq<Argument>, rows: seq<Row>): (s: seq<Row>)
    requires WellBound(q, args)
    ensures forall r :: r in s <==> r in rows && Selected(o, q, args, r)
  {
    if rows == [] then []
    else (if Selected(o, q, args, rows[0]) then [rows[0]] else []) + Select(o, q, args, rows[1..])
  }

  /** Runs the statement; `None` is an error. `exact` engines refuse arguments
      that no placeholder uses. */
  function Evaluate(o: Order, exact: bool, q: Query, args: seq<Argument>, rows: seq<Row>): Option<seq<Row>> {
    if WellBound(q, args) && (exact ==> |args| == q.limitSlot)
    then Some(Take(args[q.limitSlot - 1].n, Sort(o, q.desc, Select(o, q, args, rows))))
    else None
  }

  // --------------------------------------------------------- what is intended

  /** How an engine recognises the word that stands for SQL null. */
  type NullWord = string -> bool

  predicate Nullable(c: Column) {
    c.ImageUrl? || c.ActualUrl?
  }

  predicate AsksNull(isNull: NullWord, f: Filters, c: Column) {
    Nullable(c) && Given(f, c).Some? && isNull(Given(f, c).value)
  }

  predicate ColumnWanted(o: Order, isNull: NullWord, f: Filters, c: Column, r: Row) {
    var given := Given(f, c);
    given.Some? ==>
      if AsksNull(isNull, f, c) then ValueOf(r, c).None?
      else ValueOf(r, c).Some? && o.text(ValueOf(r, c).value) == o.text(given.value)
  }

  /** The row passes every given filter. */
  predicate Wanted(o: Order, isNull: NullWord, f: Filters, r: Row) {
    forall c :: ColumnWanted(o, isNull, f, c, r)
  }

  predicate TextMatches(o: Order, given: Option<string>, text: string) {
    given.Some? ==> o.text(text) == o.text(given.value)
  }

  predicate NullableMatches(o: Order, isNull: NullWord, given: Option<string>, text: Option<string>) {
    given.Some? ==>
      if isNull(given.value) then text.None?
      else text.Some? && o.text(text.value) == o.text(given.value)
  }

  /** Each filter speaks of its own column; only the two nullable ones know the
      null word. */
  lemma {:induction false} WantedReads(o: Order, isNull: NullWord, f: Filters, r: Row)
    ensures Wanted(o, isNull, f, r) <==>
      && TextMatches(o, f.title, r.title) && NullableMatches(o, isNull, f.imageUrl, r.imageUrl)
      && TextMatches(o, f.feedUrl, r.feedUrl) && NullableMatches(o, isNull, f.actualUrl, r.actualUrl)
  {
    FourColumns(o, isNull, f, r);
  }

  function Matching(o: Order, isNull: NullWord, f: Filters, rows: seq<Row>): seq<Row> {
    if rows == [] then []
    else (if Wanted(o, isNull, f, rows[0]) then [rows[0]] else []) + Matching(o, isNull, f, rows[1..])
  }

  /** Filter, sort, take. */
  function Page(o: Order, isNull: NullWord, f: Filters, desc: bool, limit: nat, rows: seq<Row>): seq<Row> {
    Take(limit, Sort(o, desc, Matching(o, isNull, f, rows)))
  }

  // --------------------------------------------------------- the built clauses

  /** The conjunct for one filter, if it is given. */
  function ClauseFor(isNull: NullWord, f: Filters, c: Column, slot: nat): seq<Clause> {
    if Given(f, c).None? then [] else if AsksNull(isNull, f, c) then [IsNull(c)] else [EqualTo(c, slot)]
  }

  /** The argument that conjunct needs, if any. */
  function TextFor(isNull: NullWord, f: Filters, c: Column): seq<Argument> {
    if Given(f, c).None? || AsksNull(isNull, f, c) then [] else [Text(Given(f, c).value)]
  }

  /** The arguments needed by all columns, in order. */
  function TextsFor(isNull: NullWord, f: Filters): seq<Argument> {
    TextFor(isNull, f, Title) + TextFor(isNull, f, ImageUrl) + TextFor(isNull, f, FeedUrl) + TextFor(isNull, f, ActualUrl)
  }

  /** The conjuncts for all columns, each numbered after the arguments before it. */
  function ClausesFor(isNull: NullWord, f: Filters): seq<Clause> {
    var slot1 := 1 + |TextFor(isNull, f, Title)|;
    var slot2 := slot1 + |TextFor(isNull, f, ImageUrl)|;
    var slot3 := slot2 + |TextFor(isNull, f, FeedUrl)|;
    ClauseFor(isNull, f, Title, 1) + ClauseFor(isNull, f, ImageUrl, slot1)
    + ClauseFor(isNull, f, FeedUrl, slot2) + ClauseFor(isNull, f, ActualUrl, slot3)
  }

  function QueryFor(isNull: NullWord, f: Filters, desc: bool): Query {
    Query(ClausesFor(isNull, f), desc, 1 + |TextsFor(isNull, f)|)
  }

  function ArgumentsFor(isNull: NullWord, f: Filters, limit: nat): seq<Argument> {
    TextsFor(isNull, f) + [Number(limit)]
  }

  predicate Slotted(args: seq<Argument>, cs: seq<Clause>) {
    forall k :: 0 <= k < |cs| && cs[k].EqualTo? ==> Bound(args, cs[k].slot) && !args[cs[k].slot - 1].Number?
  }

  predicate SatisfiesAll(o: Order, args: seq<Argument>, r: Row, cs: seq<Clause>)
    requires Slotted(args, cs)
  {
    forall k :: 0 <= k < |cs| ==> Satisfies(o, args, r, cs[k])
  }

  lemma {:induction false} SatisfiesAppend(o: Order, args: seq<Argument>, r: Row, cs: seq<Clause>, cs': seq<Clause>)
    requires Slotted(args, cs) && Slotted(args, cs')
    ensures Slotted(args, cs + cs')
    ensures SatisfiesAll(o, args, r, cs + cs') <==> SatisfiesAll(o, args, r, cs) && SatisfiesAll(o, args, r, cs')
  {
    var all := cs + cs';
    assert forall k :: 0 <= k < |cs| ==> all[k] == cs[k];
    assert forall k :: 0 <= k < |cs'| ==> all[|cs| + k] == cs'[k];
  }

  /** The slot of a conjunct holds the text of its column. */
  predicate Holds(isNull: NullWord, f: Filters, c: Column, slot: nat, args: seq<Argument>) {
    TextFor(isNull, f, c) == [] || (Bound(args, slot) && [args[slot - 1]] == TextFor(isNull, f, c))
  }

  /** A conjunct whose slot holds its text asks what the filter asks. */
  lemma {:induction false} ClauseMeans(o: Order, isNull: NullWord, f: Filters, c: Column, slot: nat, args: seq<Argument>, r: Row)
    requires Holds(isNull, f, c, slot, args)
    ensures Slotted(args, ClauseFor(isNull, f, c, slot))
    ensures SatisfiesAll(o, args, r, ClauseFor(isNull, f, c, slot)) <==> ColumnWanted(o, isNull, f, c, r)
  {
    var clause := ClauseFor(isNull, f, c, slot);
    if clause != [] {
      assert clause == [clause[0]];
    }
  }

  lemma {:induction false} SlotsHold(isNull: NullWord, f: Filters, limit: nat)
    ensures
      var args := ArgumentsFor(isNull, f, limit);
      var slot1 := 1 + |TextFor(isNull, f, Title)|;
      var slot2 := slot1 + |TextFor(isNull, f, ImageUrl)|;
      var slot3 := slot2 + |TextFor(isNull, f, FeedUrl)|;
      && Holds(isNull, f, Title, 1, args) && Holds(isNull, f, ImageUrl, slot1, args)
      && Holds(isNull, f, FeedUrl, slot2, args) && Holds(isNull, f, ActualUrl, slot3, args)
  {
  }

  lemma {:induction false} FourPieces(o: Order, args: seq<Argument>, r: Row, c1: seq<Clause>, c2: seq<Clause>, c3: seq<Clause>, c4: seq<Clause>)
    requires Slotted(args, c1) && Slotted(args, c2) && Slotted(args, c3) && Slotted(args, c4)
    ensures Slotted(args, c1 + c2 + c3 + c4)
    ensures SatisfiesAll(o, args, r, c1 + c2 + c3 + c4) <==>
            && SatisfiesAll(o, args, r, c1) && SatisfiesAll(o, args, r, c2)
            && SatisfiesAll(o, args, r, c3) && SatisfiesAll(o, args, r, c4)
  {
    SatisfiesAppend(o, args, r, c1, c2);
    SatisfiesAppend(o, args, r, c1 + c2, c3);
    SatisfiesAppend(o, args, r, c1 + c2 + c3, c4);
  }

  /** Four conjuncts whose slots hold their texts ask what the filters ask. */
  lemma {:induction false} FourMean(o: Order, isNull: NullWord, f: Filters, args: seq<Argument>, r: Row, slot1: nat, slot2: nat, slot3: nat)
    requires Holds(isNull, f, Title, 1, args) && Holds(isNull, f, ImageUrl, slot1, args)
    requires Holds(isNull, f, FeedUrl, slot2, args) && Holds(isNull, f, ActualUrl, slot3, args)
    ensures var cs := ClauseFor(isNull, f, Title, 1) + ClauseFor(isNull, f, ImageUrl, slot1)
                    + ClauseFor(isNull, f, FeedUrl, slot2) + ClauseFor(isNull, f, ActualUrl, slot3);
      Slotted(args, cs) && (SatisfiesAll(o, args, r, cs) <==> Wanted(o, isNull, f, r))
  {
    ClauseMeans(o, isNull, f, Title, 1, args, r);
    ClauseMeans(o, isNull, f, ImageUrl, slot1, args, r);
    ClauseMeans(o, isNull, f, FeedUrl, slot2, args, r);
    ClauseMeans(o, isNull, f, ActualUrl, slot3, args, r);
    FourPieces(o, args, r, ClauseFor(isNull, f, Title, 1), ClauseFor(isNull, f, ImageUrl, slot1),
               ClauseFor(isNull, f, FeedUrl, slot2), ClauseFor(isNull, f, ActualUrl, slot3));
    FourColumns(o, isNull, f, r);
  }

  lemma {:induction false} ClausesMean(o: Order, isNull: NullWord, f: Filters, limit: nat, r: Row)
    ensures var args := ArgumentsFor(isNull, f, limit);
            && Slotted(args, ClausesFor(isNull, f))
            && (SatisfiesAll(o, args, r, ClausesFor(isNull, f)) <==> Wanted(o, isNull, f, r))
  {
    var slot1 := 1 + |TextFor(isNull, f, Title)|;
    var slot2 := slot1 + |TextFor(isNull, f, ImageUrl)|;
    var slot3 := slot2 + |TextFor(isNull, f, FeedUrl)|;
    SlotsHold(isNull, f, limit);
    FourMean(o, isNull, f, ArgumentsFor(isNull, f, limit), r, slot1, slot2, slot3);
  }

  lemma {:induction false} FourColumns(o: Order, isNull: NullWord, f: Filters, r: Row)
    ensures Wanted(o, isNull, f, r) <==>
            && ColumnWanted(o, isNull, f, Title, r) && ColumnWanted(o, isNull, f, ImageUrl, r)
            && ColumnWanted(o, isNull, f, FeedUrl, r) && ColumnWanted(o, isNull, f, ActualUrl, r)
  {
  }

  /** The statement with exactly the arguments it needs means: filter, sort, take. */
  lemma {:induction false} QueryMeansPage(o: Order, exact: bool, isNull: NullWord, f: Filters, desc: bool, limit: nat, rows: seq<Row>)
    ensures Evaluate(o, exact, QueryFor(isNull, f, desc), ArgumentsFor(isNull, f, limit), rows)
         == Some(Page(o, isNull, f, desc, limit, rows))
  {
    var q, args := QueryFor(isNull, f, desc), ArgumentsFor(isNull, f, limit);
    assert WellBound(q, args) by {
      ClausesMean(o, isNull, f, limit, Row("", None, "", None, "", 0, 0));
    }
    forall r: Row
      ensures Selected(o, q, args, r) <==> Wanted(o, isNull, f, r)
    {
      ClausesMean(o, isNull, f, limit, r);
    }
    SelectIsMatching(o, isNull, f, q, args, rows);
  }

  lemma {:induction false} SelectIsMatching(o: Order, isNull: NullWord, f: Filters, q: Query, args: seq<Argument>, rows: seq<Row>)
    requires WellBound(q, args) && forall r :: Selected(o, q, args, r) <==> Wanted(o, isNull, f, r)
    ensures Select(o, q, args, rows) == Matching(o, isNull, f, rows)
  {
    if rows != [] {
      SelectIsMatching(o, isNull, f, q, args, rows[1..]);
    }
  }

  lemma {:induction false} MatchingKeyed(o: Order, isNull: NullWord, f: Filters, rows: seq<Row>)
    requires Keyed(o.text, rows)
    ensures Keyed(o.text, Matching(o, isNull, f, rows))
    ensures RowSet(Matching(o, isNull, f, rows)) == set r | r in RowSet(rows) && Wanted(o, isNull, f, r)
  {
    if rows != [] {
      var m, rest := Matching(o, isNull, f, rows), Matching(o, isNull, f, rows[1..]);
      MatchingKeyed(o, isNull, f, rows[1..]);
      assert RowSet(rows) == {rows[0]} + RowSet(rows[1..]);
      if Wanted(o, isNull, f, rows[0]) {
        assert m == [rows[0]] + rest;
        assert RowSet(m) == {rows[0]} + RowSet(rest);
        forall k | 0 <= k < |rest|
          ensures o.text(rest[k].title) != o.text(rows[0].title)
        {
          assert rest[k] in RowSet(rest);
          var l :| 0 <= l < |rows[1..]| && rows[1..][l] == rest[k];
        }
      } else {
        assert m == rest;
      }
    }
  }

  /** On a keyed table the page holds the first rows of those wanted. */
  lemma {:induction false} PageIsFirst(o: Order, isNull: NullWord, f: Filters, desc: bool, limit: nat, rows: seq<Row>)
    requires Keyed(o.text, rows)
    ensures FirstRows(o, desc, limit, (set r | r in rows && Wanted(o, isNull, f, r)), Page(o, isNull, f, desc, limit, rows))
  {
    MatchingKeyed(o, isNull, f, rows);
    TakeIsFirst(o, desc, limit, Matching(o, isNull, f, rows));
    assert RowSet(Matching(o, isNull, f, rows)) == set r | r in rows && Wanted(o, isNull, f, r);
  }
}
