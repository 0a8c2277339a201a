/** Exactly when a 304 made from a date is right, and when a write escapes it. */
module CacheLimits {
  import opened Feed
  import opened Bulk
  import opened TableLaws
  import opened Survivors
  import opened Ordering
  import Q = Query
  import X = Extract
  import opened Json
  import opened ConditionalGet
  import opened CacheSafety

  /** A request without filters that survive sanitising. */
  predicate Unfiltered(reader: Reader, p: ExtractParams) {
    FiltersOf(reader, p) == Q.Filters(None, None, None, None)
  }

  lemma {:induction false} MatchingAll(o: Order, isNull: Q.NullWord, f: Q.Filters, rows: seq<Row>)
    requires f == Q.Filters(None, None, None, None)
    ensures Q.Matching(o, isNull, f, rows) == rows
  {
    if rows != [] {
      MatchingAll(o, isNull, f, rows[1..]);
      assert Q.Wanted(o, isNull, f, rows[0]) by {
        assert forall c: Q.Column :: Q.Given(f, c).None?;
      }
    }
  }

  lemma {:induction false} PageOfAll(o: Order, isNull: Q.NullWord, f: Q.Filters, desc: bool, limit: nat, rows: seq<Row>)
    requires f == Q.Filters(None, None, None, None)
    ensures |Q.Page(o, isNull, f, desc, limit, rows)| == if |rows| <= limit then |rows| else limit
  {
    MatchingAll(o, isNull, f, rows);
    SortKeeps(o, desc, rows);
  }

  /** Without filters every engine returns as many rows as there are, up to the limit. */
  lemma {:induction false} UnfilteredCount(reader: Reader, p: ExtractParams, rows: seq<Row>)
    requires Unfiltered(reader, p)
    ensures var limit := X.LimitOf(LimitArgument(p));
            var page := Fetch(reader, p, rows);
            page.Some? && |page.value| == if |rows| <= limit then |rows| else limit
  {
    var o, f := OrderOf(reader), FiltersOf(reader, p);
    var limit := X.LimitOf(LimitArgument(p));
    match reader.dialect.engine
    case Postgres =>
      X.PostgresMeans(o, f, SortText(p), LimitArgument(p), rows);
      PageOfAll(o, X.PostgresNull, f, X.Descending(SortText(p)), limit, rows);
    case MariaDb =>
      X.MariaMeans(o, f, SortText(p), LimitArgument(p), rows);
      PageOfAll(o, X.CollatedWord(o.text), f, X.CollatedDescending(o.text, SortText(p)), limit, rows);
    case MsSql =>
      X.MssqlMeans(o, f, SortText(p), LimitArgument(p));
      PageOfAll(o, X.CollatedWord(o.text), f, X.CollatedDescending(o.text, SortText(p)), limit, rows);
  }

  /** For a request that shows the whole table, a date tag that still matches is
      right exactly when the table has kept its number of rows. */
  lemma {:induction false} WholeTableExactly(reader: Reader, show: string -> string, stamp: int -> string, hash: string -> string,
                          vs: seq<Version>, h: Entry, m: int)
    requires PlainStamps(stamp) && Injective(hash)
    requires var site := SiteOf(reader, show, stamp, hash);
             HistoryOk(vs) && EntryOk(site, vs, h) && h.asked.Some?
    requires MaxModified(vs[|vs| - 1].rows) == Some(m) && MaxModified(vs[h.asked.value].rows) == Some(m)
    requires Unfiltered(reader, h.params) && |vs[h.filled].rows| <= X.LimitOf(LimitArgument(h.params))
    ensures var now, shown := vs[|vs| - 1].rows, vs[h.filled].rows;
            Truthful(SiteOf(reader, show, stamp, hash), now, h.params, h.body) <==> |now| == |shown|
  {
    var site := SiteOf(reader, show, stamp, hash);
    var now, shown := vs[|vs| - 1].rows, vs[h.filled].rows;
    DeploymentsAreSound(reader, show, stamp, hash);
    SameDateMeans(site, vs, h, m);
    RemainsCount(now, shown);
    CountTells(reader, show, h.params, h.body, now, shown);
  }

  lemma {:induction false} CountTells(reader: Reader, show: string -> string, p: ExtractParams, body: string, now: seq<Row>, shown: seq<Row>)
    requires Unfiltered(reader, p)
    requires |now| <= |shown| <= X.LimitOf(LimitArgument(p))
    requires Fetch(reader, p, shown).Some? && body == BodyText(show, Fetch(reader, p, shown).value)
    ensures Fetch(reader, p, now).Some?
    ensures body == BodyText(show, Fetch(reader, p, now).value) ==> |now| == |shown|
  {
    UnfilteredCount(reader, p, now);
    UnfilteredCount(reader, p, shown);
    if body == BodyText(show, Fetch(reader, p, now).value) {
      BodyTellsCount(show, Fetch(reader, p, now).value, Fetch(reader, p, shown).value);
    }
  }

  /** A delete goes unnoticed by a fresh date tag exactly when some row with the
      newest stamp survives it. */
  lemma {:induction false} DeleteUnnoticed(site: Site, vs: seq<Version>, h: Entry, items: seq<Item>, now: int, m: int)
    requires TagsApart(site) && vs != [] && EntryOk(site, vs, h) && h.asked == Some(|vs| - 1)
    requires MaxModified(vs[|vs| - 1].rows) == Some(m)
    ensures var rows := AfterCall(site.dialect, Delete, vs[|vs| - 1].rows, items, now);
            (MaxModified(rows).Some? && h.tag == site.dateTag(MaxModified(rows).value, h.params))
            <==> exists k :: 0 <= k < |rows| && rows[k].modified == m
  {
    var before := vs[|vs| - 1].rows;
    var rows := AfterCall(site.dialect, Delete, before, items, now);
    MaxModifiedIsMax(before, m);
    MaxModifiedIsMax(rows, m);
    forall k | 0 <= k < |rows|
      ensures rows[k].modified <= m
    {
      assert rows[k] in rows && rows[k] in before;
      var j :| 0 <= j < |before| && before[j] == rows[k];
    }
  }
}
