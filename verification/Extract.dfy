/** The three `extractnewsfeed` procedures: building, dispatch and execution. */
module Extract {
  import opened Feed
  import opened Bulk
  import opened TableLaws
  import opened Ordering
  import opened Query

  function LowerChar(c: char): char {
    if 'A' <= c <= 'Z' then (c as int + 32) as char else c
  }

  function Lower(s: string): (t: string)
    ensures |t| == |s| && forall k :: 0 <= k < |s| ==> t[k] == LowerChar(s[k])
  {
    seq(|s|, k requires 0 <= k < |s| => LowerChar(s[k]))
  }

  /** Capitals become the small letters in their place, and nothing else changes. */
  lemma {:induction false} LowerReads(s: string, k: nat)
    requires k < |s|
    ensures 'A' <= s[k] <= 'Z' ==> Lower(s)[k] == "abcdefghijklmnopqrstuvwxyz"[s[k] as int - 'A' as int]
    ensures !('A' <= s[k] <= 'Z') ==> Lower(s)[k] == s[k]
  {
    if 'A' <= s[k] <= 'Z' {
      LetterReads(s[k]);
    }
  }

  lemma {:induction false} LetterReads(c: char)
    requires 'A' <= c <= 'Z'
    ensures "abcdefghijklmnopqrstuvwxyz"[c as int - 'A' as int] == (c as int + 32) as char
  {
  }

  /** The limit that reaches the query: 25 unless one between 1 and 100 is given. */
  function LimitOf(limit: Option<int>): (n: nat)
    ensures 1 <= n <= 100
  {
    if limit.None? || !(1 <= limit.value <= 100) then 25 else limit.value
  }

  /** A parameter as a bound argument. */
  function Bind(o: Option<string>): Argument {
    if o.Some? then Text(o.value) else Null
  }

  // ---------------------------------------------------------------- Postgres

  /** `lower(x) = 'null'`, as the builder asks. */
  predicate PostgresNull(s: string) {
    Lower(s) == "null"
  }

  /** `x = 'null'`, as the dispatch asks. */
  predicate ExactNull(s: string) {
    s == "null"
  }

  function Descending(sort: Option<string>): bool {
    sort.Some? && Lower(sort.value) == "desc"
  }

  /** The word null in a spelling that only the builder recognises. */
  predicate Shouted(x: Option<string>) {
    x.Some? && PostgresNull(x.value) && !ExactNull(x.value)
  }

  /** The dispatch, the same text on Postgres and MariaDB: sixteen combinations of
      the values `v` that are set, and within them one branch for each nullable
      one that is the word null and not a text. */
  function Dispatch(v: Filters, imageText: bool, actualText: bool, limit: nat): seq<Argument> {
    var title, image, feed, actual := v.title.Some?, v.imageUrl.Some?, v.feedUrl.Some?, v.actualUrl.Some?;
    var t, i, u, a, n := Bind(v.title), Bind(v.imageUrl), Bind(v.feedUrl), Bind(v.actualUrl), Number(limit);
    if title && !image && !feed && !actual then [t, n]
    else if title && image && !feed && !actual then
      if imageText then [t, i, n] else [t, n]
    else if title && image && feed && !actual then
      if imageText then [t, i, u, n] else [t, u, n]
    else if title && image && !feed && actual then
      if imageText && actualText then [t, i, a, n]
      else if !imageText && actualText then [t, a, n]
      else if imageText && !actualText then [t, i, n]
      else [t, n]
    else if title && !image && feed && actual then
      if actualText then [t, u, a, n] else [t, u, n]
    else if title && !image && feed && !actual then [t, u, n]
    else if title && !image && !feed && actual then
      if actualText then [t, a, n] else [t, n]
    else if !title && image && feed && actual then
      if imageText && actualText then [i, u, a, n]
      else if !imageText && actualText then [u, a, n]
      else if imageText && !actualText then [i, u, n]
      else [u, n]
    else if !title && image && feed && !actual then
      if imageText then [i, u, n] else [u, n]
    else if !title && image && !feed && actual then
      if imageText && actualText then [i, a, n]
      else if !imageText && actualText then [a, n]
      else if imageText && !actualText then [i, n]
      else [n]
    else if !title && !image && feed && actual then
      if actualText then [u, a, n] else [u, n]
    else if !title && image && !feed && !actual then
      if imageText then [i, n] else [n]
    else if !title && !image && feed && !actual then [u, n]
    else if !title && !image && !feed && actual then
      if actualText then [a, n] else [n]
    else if title && image && feed && actual then
      if imageText && actualText then [t, i, u, a, n]
      else if !imageText && actualText then [t, u, a, n]
      else if imageText && !actualText then [t, i, u, n]
      else [t, u, n]
    else [n]
  }

  /** Postgres dispatches on its parameters. */
  function PostgresDispatch(f: Filters, limit: nat): seq<Argument> {
    Dispatch(f, f.imageUrl != Some("null"), f.actualUrl != Some("null"), limit)
  }

  /** Every branch binds the given filters in column order, then the limit. */
  lemma {:induction false} PostgresDispatchAligned(f: Filters, limit: nat)
    ensures PostgresDispatch(f, limit) == ArgumentsFor(ExactNull, f, limit)
  {
    assert TextFor(ExactNull, f, Title) == if f.title.Some? then [Bind(f.title)] else [];
    assert TextFor(ExactNull, f, ImageUrl) == if f.imageUrl.Some? && f.imageUrl != Some("null") then [Bind(f.imageUrl)] else [];
    assert TextFor(ExactNull, f, FeedUrl) == if f.feedUrl.Some? then [Bind(f.feedUrl)] else [];
    assert TextFor(ExactNull, f, ActualUrl) == if f.actualUrl.Some? && f.actualUrl != Some("null") then [Bind(f.actualUrl)] else [];
  }

  /** Running the built text with the dispatched arguments. */
  function PostgresRun(o: Order, f: Filters, sort: Option<string>, limit: Option<int>, rows: seq<Row>): Option<seq<Row>> {
    Evaluate(o, false, QueryFor(PostgresNull, f, Descending(sort)), PostgresDispatch(f, LimitOf(limit)), rows)
  }

  /** A shouted null leaves an argument without a placeholder, so that the limit
      placeholder receives a text. */
  lemma {:induction false} ShoutingFails(o: Order, f: Filters, sort: Option<string>, limit: Option<int>, rows: seq<Row>)
    requires Shouted(f.imageUrl) || Shouted(f.actualUrl)
    ensures PostgresRun(o, f, sort, limit, rows) == None
  {
    PostgresDispatchAligned(f, LimitOf(limit));
    MoreTexts(f);
    assert forall k :: 0 <= k < |TextsFor(ExactNull, f)| ==> TextsFor(ExactNull, f)[k].Text?;
  }

  lemma {:induction false} MoreTexts(f: Filters)
    requires Shouted(f.imageUrl) || Shouted(f.actualUrl)
    ensures |TextsFor(ExactNull, f)| > |TextsFor(PostgresNull, f)|
  {
    forall c: Column
      ensures |TextFor(ExactNull, f, c)| >= |TextFor(PostgresNull, f, c)|
    {
      assert Given(f, c) == Some("null") ==> PostgresNull("null");
    }
  }

  lemma {:induction false} SameTexts(isNull: NullWord, isNull': NullWord, f: Filters)
    requires forall c: Column :: AsksNull(isNull, f, c) <==> AsksNull(isNull', f, c)
    ensures TextsFor(isNull, f) == TextsFor(isNull', f)
  {
    assert forall c: Column :: TextFor(isNull, f, c) == TextFor(isNull', f, c);
  }

  /** Postgres answers every filter combination with filter, sort, take, and
      fails exactly when a nullable filter spells the word null with capitals. */
  lemma {:induction false} PostgresMeans(o: Order, f: Filters, sort: Option<string>, limit: Option<int>, rows: seq<Row>)
    ensures PostgresRun(o, f, sort, limit, rows)
         == if Shouted(f.imageUrl) || Shouted(f.actualUrl) then None
            else Some(Page(o, PostgresNull, f, Descending(sort), LimitOf(limit), rows))
  {
    if Shouted(f.imageUrl) || Shouted(f.actualUrl) {
      ShoutingFails(o, f, sort, limit, rows);
    } else {
      PostgresDispatchAligned(f, LimitOf(limit));
      SameTexts(ExactNull, PostgresNull, f);
      QueryMeansPage(o, false, PostgresNull, f, Descending(sort), LimitOf(limit), rows);
    }
  }

  /** The builder, which extends the WHERE text and the placeholder counter. */
  method BuildPostgres(f: Filters) returns (dSqlWhere: seq<Clause>, countInput: nat)
    ensures dSqlWhere == ClausesFor(PostgresNull, f)
    ensures countInput == 1 + |TextsFor(PostgresNull, f)|
  {
    dSqlWhere, countInput := [], 1;
    if f.title.Some? {
      dSqlWhere := [EqualTo(Title, countInput)];
      countInput := countInput + 1;
    }
    assert dSqlWhere == ClauseFor(PostgresNull, f, Title, 1);
    ghost var first, slot := dSqlWhere, countInput;
    if f.imageUrl.Some? {
      if Lower(f.imageUrl.value) == "null" {
        dSqlWhere := dSqlWhere + [IsNull(ImageUrl)];
      } else {
        dSqlWhere := dSqlWhere + [EqualTo(ImageUrl, countInput)];
        countInput := countInput + 1;
      }
    }
    assert dSqlWhere == first + ClauseFor(PostgresNull, f, ImageUrl, slot);
    first, slot := dSqlWhere, countInput;
    if f.feedUrl.Some? {
      dSqlWhere := dSqlWhere + [EqualTo(FeedUrl, countInput)];
      countInput := countInput + 1;
    }
    assert dSqlWhere == first + ClauseFor(PostgresNull, f, FeedUrl, slot);
    first, slot := dSqlWhere, countInput;
    if f.actualUrl.Some? {
      if Lower(f.actualUrl.value) == "null" {
        dSqlWhere := dSqlWhere + [IsNull(ActualUrl)];
      } else {
        dSqlWhere := dSqlWhere + [EqualTo(ActualUrl, countInput)];
        countInput := countInput + 1;
      }
    }
    assert dSqlWhere == first + ClauseFor(PostgresNull, f, ActualUrl, slot);
  }

  /** The whole procedure: it puts defaults in its parameters, builds and dispatches. */
  method ExtractPostgres(o: Order, f: Filters, sort: Option<string>, limit: Option<int>, rows: seq<Row>)
    returns (page: Option<seq<Row>>)
    ensures page == if Shouted(f.imageUrl) || Shouted(f.actualUrl) then None
                    else Some(Page(o, PostgresNull, f, Descending(sort), LimitOf(limit), rows))
    ensures page.Some? && Keyed(o.text, rows) ==>
              FirstRows(o, Descending(sort), LimitOf(limit), (set r | r in rows && Wanted(o, PostgresNull, f, r)), page.value)
  {
    if Keyed(o.text, rows) {
      PageIsFirst(o, PostgresNull, f, Descending(sort), LimitOf(limit), rows);
    }
    var effectiveLimit := 25;
    if limit.Some? && 1 <= limit.value <= 100 {
      effectiveLimit := limit.value;
    }
    var effectiveSort := sort;
    if sort.None? || Lower(sort.value) !in {"desc", "asc"} {
      effectiveSort := Some("asc");
    }
    assert Lower("asc") == "asc";
    var dSqlWhere, countInput := BuildPostgres(f);
    var dSql := Query(dSqlWhere, Lower(effectiveSort.value) == "desc", countInput);
    PostgresMeans(o, f, sort, limit, rows);
    page := Evaluate(o, false, dSql, PostgresDispatch(f, effectiveLimit), rows);
  }

  // ----------------------------------------------------------------- MariaDB

  /** `LOWER(x) = 'null'` under the collation. */
  predicate CollatedNull(key: Collation, s: string) {
    key(Lower(s)) == key("null")
  }

  function CollatedWord(key: Collation): NullWord {
    s => CollatedNull(key, s)
  }

  /** A text that the dispatch takes for the word null and the builder does not:
      equal to it under the collation, but no longer when put in lower case. */
  predicate Unlowered(key: Collation, x: Option<string>) {
    x.Some? && key(x.value) == key("null") && !CollatedNull(key, x.value)
  }

  /** `@sort = 'desc'` after the default has been put in place. */
  predicate CollatedDescending(key: Collation, sort: Option<string>) {
    key(if sort.Some? && key(Lower(sort.value)) in {key("desc"), key("asc")} then sort.value else "asc") == key("desc")
  }

  /** MariaDB dispatches on the session variables `v`, with inner tests on the
      parameters, each `<> 'null'` under the collation. */
  function MariaDispatch(key: Collation, f: Filters, v: Filters, limit: nat): seq<Argument> {
    Dispatch(v, f.imageUrl.Some? && key(f.imageUrl.value) != key("null"),
             f.actualUrl.Some? && key(f.actualUrl.value) != key("null"), limit)
  }

  /** The session variables that the builder sets: none for a null word. */
  function SessionFilters(key: Collation, f: Filters): Filters {
    f.(imageUrl := if f.imageUrl.Some? && !CollatedNull(key, f.imageUrl.value) then f.imageUrl else None,
       actualUrl := if f.actualUrl.Some? && !CollatedNull(key, f.actualUrl.value) then f.actualUrl else None)
  }

  lemma {:induction false} MariaDispatchAligned(key: Collation, f: Filters, limit: nat)
    requires !Unlowered(key, f.imageUrl) && !Unlowered(key, f.actualUrl)
    ensures MariaDispatch(key, f, SessionFilters(key, f), limit) == ArgumentsFor(CollatedWord(key), f, limit)
  {
    SessionTexts(key, f);
    var v := SessionFilters(key, f);
    assert v.imageUrl.Some? ==> key(f.imageUrl.value) != key("null");
    assert v.actualUrl.Some? ==> key(f.actualUrl.value) != key("null");
  }

  /** The builder's question marks ask for the session variables that are set. */
  lemma {:induction false} SessionTexts(key: Collation, f: Filters)
    ensures var v, isNull := SessionFilters(key, f), CollatedWord(key);
      && TextFor(isNull, f, Title) == (if v.title.Some? then [Bind(v.title)] else [])
      && TextFor(isNull, f, ImageUrl) == (if v.imageUrl.Some? then [Bind(v.imageUrl)] else [])
      && TextFor(isNull, f, FeedUrl) == (if v.feedUrl.Some? then [Bind(v.feedUrl)] else [])
      && TextFor(isNull, f, ActualUrl) == (if v.actualUrl.Some? then [Bind(v.actualUrl)] else [])
  {
  }

  lemma {:induction false} MariaDispatchShort(key: Collation, f: Filters, limit: nat)
    requires Unlowered(key, f.imageUrl) || Unlowered(key, f.actualUrl)
    ensures |MariaDispatch(key, f, SessionFilters(key, f), limit)| < 1 + |TextsFor(CollatedWord(key), f)|
  {
    SessionTexts(key, f);
  }

  function MariaRun(o: Order, f: Filters, sort: Option<string>, limit: Option<int>, rows: seq<Row>): Option<seq<Row>> {
    Evaluate(o, true, QueryFor(CollatedWord(o.text), f, CollatedDescending(o.text, sort)),
             MariaDispatch(o.text, f, SessionFilters(o.text, f), LimitOf(limit)), rows)
  }

  /** MariaDB answers every filter combination with filter, sort, take, and fails
      exactly when lower case makes a word null unrecognisable under the collation. */
  lemma {:induction false} MariaMeans(o: Order, f: Filters, sort: Option<string>, limit: Option<int>, rows: seq<Row>)
    ensures MariaRun(o, f, sort, limit, rows)
         == if Unlowered(o.text, f.imageUrl) || Unlowered(o.text, f.actualUrl) then None
            else Some(Page(o, CollatedWord(o.text), f, CollatedDescending(o.text, sort), LimitOf(limit), rows))
  {
    if Unlowered(o.text, f.imageUrl) || Unlowered(o.text, f.actualUrl) {
      MariaDispatchShort(o.text, f, LimitOf(limit));
    } else {
      MariaDispatchAligned(o.text, f, LimitOf(limit));
      QueryMeansPage(o, true, CollatedWord(o.text), f, CollatedDescending(o.text, sort), LimitOf(limit), rows);
    }
  }

  /** The collation ignores letter case, or tells all texts apart. */
  ghost predicate CaseBlindOrExact(key: Collation) {
    || (forall s: string :: key(s) == key(Lower(s)))
    || (forall s: string, t: string :: key(s) == key(t) ==> s == t)
  }

  /** Under every such collation question marks and arguments are aligned for every
      input: MariaDB always answers, with filter, sort, take. */
  lemma {:induction false} MariaAnswersAll(o: Order, f: Filters, sort: Option<string>, limit: Option<int>, rows: seq<Row>)
    requires CaseBlindOrExact(o.text)
    ensures MariaDispatch(o.text, f, SessionFilters(o.text, f), LimitOf(limit)) == ArgumentsFor(CollatedWord(o.text), f, LimitOf(limit))
    ensures MariaRun(o, f, sort, limit, rows)
         == Some(Page(o, CollatedWord(o.text), f, CollatedDescending(o.text, sort), LimitOf(limit), rows))
  {
    NoneUnlowered(o.text, f.imageUrl);
    NoneUnlowered(o.text, f.actualUrl);
    MariaDispatchAligned(o.text, f, LimitOf(limit));
    MariaMeans(o, f, sort, limit, rows);
  }

  lemma {:induction false} NoneUnlowered(key: Collation, x: Option<string>)
    requires CaseBlindOrExact(key)
    ensures !Unlowered(key, x)
  {
    if x.Some? && key(x.value) == key("null") && x.value == "null" {
      assert Lower("null") == "null";
    }
  }

  // ------------------------------------------------------------------- MSSQL

  /** One conjunct of the MSSQL text; each column has its own named parameter. */
  function MssqlPiece(c: Column, slot: nat, given: Option<string>, asNull: bool): seq<Clause> {
    if given.None? then [] else if asNull then [IsNull(c)] else [EqualTo(c, slot)]
  }

  predicate ImageNull(key: Collation, f: Filters) {
    f.imageUrl.Some? && CollatedNull(key, f.imageUrl.value)
  }

  /** The conjuncts of the MSSQL text; the last one asks whether the image
      filter is the word null, not whether the actual URL filter is. */
  function MssqlClauses(key: Collation, f: Filters): seq<Clause> {
    MssqlPiece(Title, 1, f.title, false)
    + MssqlPiece(ImageUrl, 2, f.imageUrl, ImageNull(key, f))
    + MssqlPiece(FeedUrl, 3, f.feedUrl, false)
    + MssqlPiece(ActualUrl, 4, f.actualUrl, ImageNull(key, f))
  }

  function MssqlArguments(f: Filters, limit: nat): seq<Argument> {
    [Bind(f.title), Bind(f.imageUrl), Bind(f.feedUrl), Bind(f.actualUrl), Number(limit)]
  }

  function MssqlRun(o: Order, f: Filters, sort: Option<string>, limit: Option<int>, rows: seq<Row>): Option<seq<Row>> {
    Evaluate(o, false, Query(MssqlClauses(o.text, f), CollatedDescending(o.text, sort), 5),
             MssqlArguments(f, LimitOf(limit)), rows)
  }

  /** The actual URL filter is the word null when the image filter is not, or
      the other way round. */
  predicate ActualMisread(key: Collation, f: Filters) {
    f.actualUrl.Some? && CollatedNull(key, f.actualUrl.value) != ImageNull(key, f)
  }

  /** What one conjunct of the MSSQL text asks of a row. */
  predicate PieceWanted(o: Order, c: Column, given: Option<string>, asNull: bool, r: Row) {
    given.Some? ==>
      if asNull then ValueOf(r, c).None?
      else ValueOf(r, c).Some? && o.text(ValueOf(r, c).value) == o.text(given.value)
  }

  /** What the MSSQL text selects. */
  predicate MssqlWanted(o: Order, f: Filters, r: Row) {
    && PieceWanted(o, Title, f.title, false, r)
    && PieceWanted(o, ImageUrl, f.imageUrl, ImageNull(o.text, f), r)
    && PieceWanted(o, FeedUrl, f.feedUrl, false, r)
    && PieceWanted(o, ActualUrl, f.actualUrl, ImageNull(o.text, f), r)
  }

  lemma {:induction false} PieceMeans(o: Order, args: seq<Argument>, r: Row, c: Column, slot: nat, given: Option<string>, asNull: bool)
    requires Bound(args, slot) && args[slot - 1] == Bind(given)
    ensures Slotted(args, MssqlPiece(c, slot, given, asNull))
    ensures SatisfiesAll(o, args, r, MssqlPiece(c, slot, given, asNull)) <==> PieceWanted(o, c, given, asNull, r)
  {
    var piece := MssqlPiece(c, slot, given, asNull);
    if piece != [] {
      assert piece == [piece[0]];
    }
  }

  lemma {:induction false} MssqlSelects(o: Order, f: Filters, limit: nat, r: Row)
    ensures var args, cs := MssqlArguments(f, limit), MssqlClauses(o.text, f);
            Slotted(args, cs) && (SatisfiesAll(o, args, r, cs) <==> MssqlWanted(o, f, r))
  {
    var args := MssqlArguments(f, limit);
    var imageNull := ImageNull(o.text, f);
    PieceMeans(o, args, r, Title, 1, f.title, false);
    PieceMeans(o, args, r, ImageUrl, 2, f.imageUrl, imageNull);
    PieceMeans(o, args, r, FeedUrl, 3, f.feedUrl, false);
    PieceMeans(o, args, r, ActualUrl, 4, f.actualUrl, imageNull);
    var c1, c2 := MssqlPiece(Title, 1, f.title, false), MssqlPiece(ImageUrl, 2, f.imageUrl, imageNull);
    var c3, c4 := MssqlPiece(FeedUrl, 3, f.feedUrl, false), MssqlPiece(ActualUrl, 4, f.actualUrl, imageNull);
    FourPieces(o, args, r, c1, c2, c3, c4);
  }

  function MssqlMatching(o: Order, f: Filters, rows: seq<Row>): seq<Row> {
    if rows == [] then []
    else (if MssqlWanted(o, f, rows[0]) then [rows[0]] else []) + MssqlMatching(o, f, rows[1..])
  }

  lemma {:induction false} MssqlSelection(o: Order, f: Filters, q: Query, args: seq<Argument>, rows: seq<Row>)
    requires WellBound(q, args) && forall r :: Selected(o, q, args, r) <==> MssqlWanted(o, f, r)
    ensures Select(o, q, args, rows) == MssqlMatching(o, f, rows)
  {
    if rows != [] {
      MssqlSelection(o, f, q, args, rows[1..]);
    }
  }

  lemma {:induction false} MssqlRuns(o: Order, f: Filters, sort: Option<string>, limit: Option<int>, rows: seq<Row>)
    ensures MssqlRun(o, f, sort, limit, rows)
         == Some(Take(LimitOf(limit), Sort(o, CollatedDescending(o.text, sort), MssqlMatching(o, f, rows))))
  {
    var q := Query(MssqlClauses(o.text, f), CollatedDescending(o.text, sort), 5);
    var args := MssqlArguments(f, LimitOf(limit));
    var someRow := Row("", None, "", None, "", 0, 0);
    MssqlSelects(o, f, LimitOf(limit), someRow);
    assert WellBound(q, args);
    forall r: Row
      ensures Selected(o, q, args, r) <==> MssqlWanted(o, f, r)
    {
      MssqlSelects(o, f, LimitOf(limit), r);
    }
    MssqlSelection(o, f, q, args, rows);
  }

  lemma {:induction false} MssqlWantedMeans(o: Order, f: Filters, r: Row)
    requires !ActualMisread(o.text, f)
    ensures MssqlWanted(o, f, r) <==> Wanted(o, CollatedWord(o.text), f, r)
  {
    var isNull := CollatedWord(o.text);
    if MssqlWanted(o, f, r) {
      forall c: Column
        ensures ColumnWanted(o, isNull, f, c, r)
      {
        match c
        case Title => assert PieceWanted(o, Title, f.title, false, r);
        case ImageUrl => assert PieceWanted(o, ImageUrl, f.imageUrl, ImageNull(o.text, f), r);
        case FeedUrl => assert PieceWanted(o, FeedUrl, f.feedUrl, false, r);
        case ActualUrl => assert PieceWanted(o, ActualUrl, f.actualUrl, ImageNull(o.text, f), r);
      }
    }
    if Wanted(o, isNull, f, r) {
      assert ColumnWanted(o, isNull, f, Title, r) && ColumnWanted(o, isNull, f, ImageUrl, r);
      assert ColumnWanted(o, isNull, f, FeedUrl, r) && ColumnWanted(o, isNull, f, ActualUrl, r);
    }
  }

  lemma {:induction false} SameMatching(o: Order, f: Filters, rows: seq<Row>)
    requires !ActualMisread(o.text, f)
    ensures MssqlMatching(o, f, rows) == Matching(o, CollatedWord(o.text), f, rows)
  {
    if rows != [] {
      SameMatching(o, f, rows[1..]);
      MssqlWantedMeans(o, f, rows[0]);
    }
  }

  /** A row that passes all other filters and has no actual URL. */
  function Witness(key: Collation, f: Filters): Row {
    Row(if f.title.Some? then f.title.value else "",
        if ImageNull(key, f) then None else f.imageUrl,
        if f.feedUrl.Some? then f.feedUrl.value else "",
        None, "", 0, 0)
  }

  lemma {:induction false} WitnessTells(o: Order, f: Filters)
    requires ActualMisread(o.text, f)
    ensures MssqlWanted(o, f, Witness(o.text, f)) != Wanted(o, CollatedWord(o.text), f, Witness(o.text, f))
  {
    var isNull := CollatedWord(o.text);
    var r := Witness(o.text, f);
    assert ColumnWanted(o, isNull, f, Title, r) && ColumnWanted(o, isNull, f, ImageUrl, r);
    assert ColumnWanted(o, isNull, f, FeedUrl, r);
    assert ColumnWanted(o, isNull, f, ActualUrl, r) <==> CollatedNull(o.text, f.actualUrl.value);
    if CollatedNull(o.text, f.actualUrl.value) {
      forall c: Column
        ensures ColumnWanted(o, isNull, f, c, r)
      {
        match c
        case Title =>
        case ImageUrl =>
        case FeedUrl =>
        case ActualUrl =>
      }
    }
  }

  /** MSSQL answers with filter, sort, take on every table exactly when the
      actual URL filter is not misread. */
  lemma {:induction false} MssqlMeans(o: Order, f: Filters, sort: Option<string>, limit: Option<int>)
    ensures (forall rows :: MssqlRun(o, f, sort, limit, rows)
               == Some(Page(o, CollatedWord(o.text), f, CollatedDescending(o.text, sort), LimitOf(limit), rows)))
            <==> !ActualMisread(o.text, f)
  {
    var isNull := CollatedWord(o.text);
    if ActualMisread(o.text, f) {
      var rows := [Witness(o.text, f)];
      WitnessTells(o, f);
      MssqlRuns(o, f, sort, limit, rows);
      assert rows[1..] == [];
      assert |MssqlMatching(o, f, rows)| != |Matching(o, isNull, f, rows)|;
      assert MssqlRun(o, f, sort, limit, rows)
          != Some(Page(o, isNull, f, CollatedDescending(o.text, sort), LimitOf(limit), rows)) by {
        SortKeeps(o, CollatedDescending(o.text, sort), MssqlMatching(o, f, rows));
        SortKeeps(o, CollatedDescending(o.text, sort), Matching(o, isNull, f, rows));
      }
    } else {
      forall rows
        ensures MssqlRun(o, f, sort, limit, rows)
             == Some(Page(o, isNull, f, CollatedDescending(o.text, sort), LimitOf(limit), rows))
      {
        MssqlRuns(o, f, sort, limit, rows);
        SameMatching(o, f, rows);
      }
    }
  }
}
