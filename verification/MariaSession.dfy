/** A MariaDB connection: its procedures work through temporary tables and session
    variables that outlive a call, over a table without any unique key. */
module MariaSession {
  import opened Feed
  import opened Bulk
  import opened BulkLaws
  import opened Refinement
  import opened TableLaws
  import opened Procedures
  import opened Ordering
  import opened Query
  import opened Extract

  lemma {:induction false} KeptStorable(items: seq<Item>)
    ensures forall p :: p in CleanedAll(KeptOf(items)) ==> Storable(p)
  {
    forall p | p in CleanedAll(KeptOf(items))
      ensures Storable(p)
    {
      var k :| 0 <= k < |KeptOf(items)| && CleanedAll(KeptOf(items))[k] == p;
      assert KeptOf(items)[k] in KeptOf(items);
    }
  }

  /** With its filter, no write of a MariaDB call can lack a value. */
  lemma {:induction false} NeverFails(d: Dialect, mode: Mode, rows: seq<Row>, items: seq<Item>)
    requires d.engine.MariaDb?
    ensures !WriteFails(d, mode, rows, CleanedAll(KeptOf(items)))
  {
    KeptStorable(items);
    AdmittedAreItems(d, rows, CleanedAll(KeptOf(items)));
  }

  lemma {:induction false} CleanedMore(items: seq<Item>, i: nat)
    requires i < |items|
    ensures CleanedAll(items[..i + 1]) == CleanedAll(items[..i]) + [Cleaned(items[i])]
  {
  }

  /** One more row joined to an item. */
  lemma {:induction false} JoinedMore(d: Dialect, mode: Mode, rows: seq<Row>, k: nat, p: Item)
    requires k < |rows|
    ensures Joined(d, mode, rows[..k + 1], p)
         == Joined(d, mode, rows[..k], p) + if Names(d, p, rows[k]) then [OnRow(d, mode, rows[k], p)] else []
  {
    assert rows[..k + 1] == rows[..k] + [rows[k]];
    JoinedAppend(d, mode, rows[..k], [rows[k]], p);
    assert [rows[k]][1..] == [];
  }

  lemma {:induction false} KeptMore(items: seq<Item>, i: nat)
    requires i < |items|
    ensures KeptOf(items[..i + 1]) == KeptOf(items[..i]) + if Kept(items[i]) then [items[i]] else []
  {
    assert items[..i + 1] == items[..i] + [items[i]];
    KeptAppend(items[..i], [items[i]]);
    assert [items[i]][1..] == [];
  }

  lemma {:induction false} PredictedMore(d: Dialect, mode: Mode, rows: seq<Row>, items: seq<Item>, i: nat)
    requires i < |items|
    ensures PredictedAll(d, mode, rows, CleanedAll(items[..i + 1]))
         == PredictedAll(d, mode, rows, CleanedAll(items[..i])) + Predicted(d, mode, rows, Cleaned(items[i]))
  {
    var t := Cleaned(items[i]);
    CleanedMore(items, i);
    PredictedAppend(d, mode, rows, CleanedAll(items[..i]), [t]);
    assert [t][1..] == [];
  }

  /** The insert has dealt with the first `i` items. */
  ghost predicate Absorbed(d: Dialect, before: seq<Row>, parsed: seq<Item>, i: nat, now: int, rows: seq<Row>) {
    && i <= |parsed|
    && (forall q :: q in Admitted(d, before, parsed[..i]) ==> Storable(q))
    && rows == before + NewRows(Admitted(d, before, parsed[..i]), now)
  }

  lemma {:induction false} AbsorbedOn(d: Dialect, before: seq<Row>, parsed: seq<Item>, i: nat, now: int, rows: seq<Row>)
    requires d.engine.MariaDb? && i < |parsed| && Absorbed(d, before, parsed, i, now, rows)
    requires forall p :: p in parsed ==> Storable(p)
    ensures Storable(parsed[i])
    ensures Absorbed(d, before, parsed, i + 1, now, if Fresh(d, before, parsed[i]) then rows + [NewRow(parsed[i], now)] else rows)
  {
    var t := parsed[i];
    assert t in parsed;
    assert parsed[..i + 1][..i] == parsed[..i];
    if Fresh(d, before, t) {
      assert Admitted(d, before, parsed[..i + 1]) == Admitted(d, before, parsed[..i]) + [t];
      NewRowsAppend(Admitted(d, before, parsed[..i]), t, now);
    } else {
      assert Admitted(d, before, parsed[..i + 1]) == Admitted(d, before, parsed[..i]);
    }
  }

  lemma {:induction false} AbsorbedAll(d: Dialect, before: seq<Row>, parsed: seq<Item>, now: int, rows: seq<Row>)
    requires d.engine.MariaDb? && Absorbed(d, before, parsed, |parsed|, now, rows)
    ensures !WriteFails(d, Insert, before, parsed) && rows == Written(d, Insert, before, parsed, now)
  {
    assert parsed[..|parsed|] == parsed;
  }

  /** The first `i` items have been joined, after `first`. */
  ghost predicate Foreseen(d: Dialect, mode: Mode, rows: seq<Row>, input: seq<Item>, i: nat, first: seq<Outcome>, os: seq<Outcome>) {
    i <= |input| && os == first + PredictedAll(d, mode, rows, CleanedAll(input[..i]))
  }

  lemma {:induction false} ForeseenOn(d: Dialect, mode: Mode, rows: seq<Row>, input: seq<Item>, i: nat,
                                      first: seq<Outcome>, os: seq<Outcome>, os': seq<Outcome>)
    requires i < |input| && Foreseen(d, mode, rows, input, i, first, os)
    requires os' == os + Predicted(d, mode, rows, Cleaned(input[i]))
    ensures Foreseen(d, mode, rows, input, i + 1, first, os')
  {
    PredictedMore(d, mode, rows, input, i);
    JoinThree(first, PredictedAll(d, mode, rows, CleanedAll(input[..i])), Predicted(d, mode, rows, Cleaned(input[i])));
  }

  lemma {:induction false} JoinThree(a: seq<Outcome>, b: seq<Outcome>, c: seq<Outcome>)
    ensures a + b + c == a + (b + c)
  {
  }

  class Session {
    const d: Dialect
    const o: Order
    var newsfeed: seq<Row>
    var tempBulkResults: seq<Outcome>
    var tmpParsedInput: seq<Item>
    var dSqlWhere: seq<Clause>
    var variables: Filters

    ghost predicate Valid()
      reads this
    {
      d.engine.MariaDb? && o.text == d.key
    }

    constructor (d: Dialect, o: Order)
      requires d.engine.MariaDb? && o.text == d.key
      ensures Valid() && this.d == d && this.o == o && newsfeed == []
    {
      this.d, this.o := d, o;
      newsfeed, tempBulkResults, tmpParsedInput := [], [], [];
      dSqlWhere, variables := [], Filters(None, None, None, None);
    }

    /** Truncates and fills the parsed input. */
    method Parse(payload: seq<Item>)
      modifies this`tmpParsedInput
      ensures tmpParsedInput == KeptOf(payload)
    {
      tmpParsedInput := [];
      for i := 0 to |payload|
        invariant tmpParsedInput == KeptOf(payload[..i])
      {
        KeptMore(payload, i);
        if Kept(payload[i]) {
          tmpParsedInput := tmpParsedInput + [payload[i]];
        }
      }
      assert payload[..|payload|] == payload;
    }

    /** Predicts the statuses: the input left-joined with the table before the write. */
    method Predict(mode: Mode)
      requires Valid()
      modifies this`tempBulkResults
      ensures tempBulkResults == old(tempBulkResults) + PredictedAll(d, mode, newsfeed, CleanedAll(tmpParsedInput))
    {
      ghost var first := tempBulkResults;
      var input := tmpParsedInput;
      for i := 0 to |input|
        invariant Foreseen(d, mode, newsfeed, input, i, first, tempBulkResults)
      {
        ghost var before := tempBulkResults;
        PredictOne(mode, Cleaned(input[i]));
        ForeseenOn(d, mode, newsfeed, input, i, first, before, tempBulkResults);
      }
      assert input[..|input|] == input;
    }

    /** One item of that join. */
    method PredictOne(mode: Mode, t: Item)
      requires Valid()
      modifies this`tempBulkResults
      ensures tempBulkResults == old(tempBulkResults) + Predicted(d, mode, newsfeed, t)
    {
      ghost var done := tempBulkResults;
      var joined := false;
      for k := 0 to |newsfeed|
        invariant tempBulkResults == done + Joined(d, mode, newsfeed[..k], t)
        invariant joined <==> Joined(d, mode, newsfeed[..k], t) != []
      {
        JoinedMore(d, mode, newsfeed, k, t);
        if Names(d, t, newsfeed[k]) {
          tempBulkResults := tempBulkResults + [OnRow(d, mode, newsfeed[k], t)];
          joined := true;
        }
      }
      assert newsfeed[..|newsfeed|] == newsfeed;
      if !joined {
        tempBulkResults := tempBulkResults + [if mode.Insert? then Inserted else SkippedNotFound];
      }
    }

    /** Inserts what the table, as the statement finds it, does not have. */
    method InsertAbsent(now: int)
      requires Valid() && forall p :: p in CleanedAll(tmpParsedInput) ==> Storable(p)
      modifies this`newsfeed
      ensures !WriteFails(d, Insert, old(newsfeed), CleanedAll(tmpParsedInput))
      ensures newsfeed == Written(d, Insert, old(newsfeed), CleanedAll(tmpParsedInput), now)
    {
      var before, parsed := newsfeed, CleanedAll(tmpParsedInput);
      for i := 0 to |parsed|
        invariant Absorbed(d, before, parsed, i, now, newsfeed)
      {
        AbsorbedOn(d, before, parsed, i, now, newsfeed);
        if Fresh(d, before, parsed[i]) {
          newsfeed := newsfeed + [NewRow(parsed[i], now)];
        }
      }
      AbsorbedAll(d, before, parsed, now, newsfeed);
    }

    /** Updates the rows that the input joins and changes. */
    method UpdateChanged(now: int)
      requires Valid() && !UpdateFails(d, newsfeed, CleanedAll(tmpParsedInput))
      modifies this`newsfeed
      ensures newsfeed == UpdateRows(d, old(newsfeed), CleanedAll(tmpParsedInput), now)
    {
      var before, parsed := newsfeed, CleanedAll(tmpParsedInput);
      ghost var titles := [];
      for i := 0 to |before|
        invariant Updating(d, before, parsed, i, now, newsfeed, titles)
      {
        UpdatingOn(d, before, parsed, i, now, newsfeed, titles);
        var p := HitOn(d, before[i], parsed);
        if p.Some? {
          newsfeed := newsfeed[i := Overwrite(newsfeed[i], p.value, now)];
          titles := titles + [before[i].title];
        }
      }
      UpdatingDone(d, before, parsed, now, newsfeed, titles);
    }

    method DeleteNamed()
      requires Valid()
      modifies this`newsfeed
      ensures newsfeed == DeleteRows(d, old(newsfeed), CleanedAll(tmpParsedInput))
    {
      var before, parsed := newsfeed, CleanedAll(tmpParsedInput);
      ghost var titles := [];
      newsfeed := [];
      for i := 0 to |before|
        invariant Deleting(d, before, parsed, i, newsfeed, titles)
      {
        DeletingOn(d, before, parsed, i, newsfeed, titles);
        if Doomed(d, before[i], parsed) {
          titles := titles + [before[i].title];
        } else {
          newsfeed := newsfeed + [before[i]];
        }
      }
      assert before[..|before|] == before;
    }

    /** `cud_bulk_json_newsfeed`: whatever the temporary tables held before, the
        table and the statuses are those of the call. It never fails. */
    method CudBulkJson(optionMode: string, payload: seq<Item>, now: int) returns (status: seq<Outcome>)
      requires Valid()
      modifies this
      ensures Valid() && dSqlWhere == old(dSqlWhere) && variables == old(variables)
      ensures Answers(CallOf(d, optionMode, old(newsfeed), payload, now), old(newsfeed), newsfeed, Some(status))
    {
      tempBulkResults := [];
      Parse(payload);
      var mode := ModeOf(d, optionMode);
      if mode.None? {
        tempBulkResults := tempBulkResults + [InvalidMode];
        assert tempBulkResults == [InvalidMode];
        return tempBulkResults;
      }
      NeverFails(d, mode.value, newsfeed, payload);
      KeptStorable(payload);
      Predict(mode.value);
      assert tempBulkResults == PredictedAll(d, mode.value, newsfeed, CleanedAll(tmpParsedInput));
      match mode.value {
        case Insert => InsertAbsent(now);
        case Update => UpdateChanged(now);
        case Delete => DeleteNamed();
      }
      return tempBulkResults;
    }

    /** `extractnewsfeed`: the builder extends the text and sets session variables,
        none for a null word, and the dispatch reads them back. What earlier calls
        left in the session is of no effect. */
    method ExtractNewsFeed(f: Filters, sort: Option<string>, limit: Option<int>) returns (page: Option<seq<Row>>)
      requires Valid()
      modifies this`dSqlWhere, this`variables
      ensures Valid()
      ensures page == if Unlowered(o.text, f.imageUrl) || Unlowered(o.text, f.actualUrl) then None
        else Some(Page(o, CollatedWord(o.text), f, CollatedDescending(o.text, sort), LimitOf(limit), newsfeed))
      ensures page.Some? && Keyed(o.text, newsfeed) ==>
        FirstRows(o, CollatedDescending(o.text, sort), LimitOf(limit),
                  (set r | r in newsfeed && Wanted(o, CollatedWord(o.text), f, r)), page.value)
    {
      if Keyed(o.text, newsfeed) {
        PageIsFirst(o, CollatedWord(o.text), f, CollatedDescending(o.text, sort), LimitOf(limit), newsfeed);
      }
      var effectiveLimit := 25;
      if limit.Some? && 1 <= limit.value <= 100 {
        effectiveLimit := limit.value;
      }
      var effectiveSort := "asc";
      if sort.Some? && (o.text(Lower(sort.value)) == o.text("desc") || o.text(Lower(sort.value)) == o.text("asc")) {
        effectiveSort := sort.value;
      }
      var marks := Build(f);
      var dSql := Query(dSqlWhere, o.text(effectiveSort) == o.text("desc"), marks + 1);
      MariaMeans(o, f, sort, limit, newsfeed);
      page := Evaluate(o, true, dSql, MariaDispatch(o.text, f, variables, effectiveLimit), newsfeed);
    }

    /** The builder; `marks` counts the question marks, which are numbered by position. */
    method Build(f: Filters) returns (marks: nat)
      requires Valid()
      modifies this`dSqlWhere, this`variables
      ensures dSqlWhere == ClausesFor(CollatedWord(o.text), f)
      ensures marks == |TextsFor(CollatedWord(o.text), f)|
      ensures variables == SessionFilters(o.text, f)
    {
      marks := BuildFirst(f);
      marks := AddFilter(f, FeedUrl, marks);
      marks := AddFilter(f, ActualUrl, marks);
    }

    /** Its first half, from the empty text and variables. */
    method BuildFirst(f: Filters) returns (marks: nat)
      requires Valid()
      modifies this`dSqlWhere, this`variables
      ensures marks == |TextFor(CollatedWord(o.text), f, Title)| + |TextFor(CollatedWord(o.text), f, ImageUrl)|
      ensures dSqlWhere == ClauseFor(CollatedWord(o.text), f, Title, 1)
                         + ClauseFor(CollatedWord(o.text), f, ImageUrl, 1 + |TextFor(CollatedWord(o.text), f, Title)|)
      ensures variables == Filters(f.title, SessionFilters(o.text, f).imageUrl, None, None)
    {
      dSqlWhere, variables := [], Filters(None, None, None, None);
      marks := AddFilter(f, Title, 0);
      marks := AddFilter(f, ImageUrl, marks);
    }

    /** The block of one parameter: its conjunct and its session variable. */
    method AddFilter(f: Filters, c: Column, marks: nat) returns (marks': nat)
      requires Valid()
      modifies this`dSqlWhere, this`variables
      ensures dSqlWhere == old(dSqlWhere) + ClauseFor(CollatedWord(o.text), f, c, marks + 1)
      ensures marks' == marks + |TextFor(CollatedWord(o.text), f, c)|
      ensures variables == if Given(SessionFilters(o.text, f), c).Some? then Setting(old(variables), c, Given(f, c)) else old(variables)
    {
      marks' := marks;
      if Given(f, c).Some? {
        if Nullable(c) && CollatedNull(o.text, Given(f, c).value) {
          dSqlWhere := dSqlWhere + [IsNull(c)];
        } else {
          marks' := marks + 1;
          dSqlWhere := dSqlWhere + [EqualTo(c, marks')];
          variables := Setting(variables, c, Given(f, c));
        }
      }
    }
  }

  /** The session variables with one of them set. */
  function Setting(v: Filters, c: Column, value: Option<string>): Filters {
    match c
    case Title => v.(title := value)
    case ImageUrl => v.(imageUrl := value)
    case FeedUrl => v.(feedUrl := value)
    case ActualUrl => v.(actualUrl := value)
  }
}
