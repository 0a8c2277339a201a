/** One small input for each way in which the engines, or a cached response, part
    from what is expected of them. All of them are inputs that clients can send. */
module Examples {
  import opened Feed
  import opened Bulk
  import opened BulkLaws
  import opened TableLaws
  import opened Conservation
  import opened Parity
  import Payload

  const DATE := "2026-08-01T12:00:00Z"
  const URL := "http://x"

  /** An item with all that is mandatory. */
  function Sample(title: string): Item {
    Item(Some(title), None, Some(URL), None, Some(DATE))
  }

  /** The row that stores it. */
  function Stored(title: string, now: int): Row {
    Row(title, None, URL, None, DATE, now, now)
  }

  // ------------------------------------------------------ what clients can send

  /** Printable ASCII is one byte a character and no white space but for the blank. */
  ghost predicate Plain(r: Payload.Rules) {
    && (forall c: char :: ' ' <= c <= '~' ==> r.bytes(c) == 1)
    && (forall c: char :: '!' <= c <= '~' ==> !r.isSpace(c))
    && r.isDate(DATE)
  }

  predicate Printable(s: string) {
    && s != "" && s[0] != ' ' && s[|s| - 1] != ' '
    && forall k :: 0 <= k < |s| ==> ' ' <= s[k] <= '~'
  }

  lemma {:induction false} PrintableBytes(r: Payload.Rules, s: string)
    requires Plain(r) && forall k :: 0 <= k < |s| ==> ' ' <= s[k] <= '~'
    ensures Payload.Bytes(r, s) == |s|
  {
    if s != "" {
      PrintableBytes(r, s[1..]);
    }
  }

  lemma {:induction false} PrintableSettles(r: Payload.Rules, f: Payload.FieldName, s: string)
    requires Plain(r) && Printable(s) && |s| <= Payload.MaxLen(f) && Payload.Accepts(r, f, s)
    ensures Payload.Settled(r, f, Some(s))
  {
    PrintableBytes(r, s);
  }

  predicate PrintableUrl(o: Option<string>) {
    o.Some? ==> Printable(o.value) && |o.value| <= 2048 && Payload.HasScheme(o.value)
  }

  /** The payload reader accepts such items as they are. */
  lemma {:induction false} PrintableAccepted(r: Payload.Rules, title: string, image: Option<string>, feed: Option<string>, date: Option<string>)
    requires Plain(r) && Printable(title) && |title| <= 255 && PrintableUrl(image) && PrintableUrl(feed)
    requires date in {None, Some(DATE)}
    ensures Payload.SettledItem(r, Item(Some(title), image, feed, None, date))
  {
    PrintableSettles(r, Payload.Title, title);
    if image.Some? {
      PrintableSettles(r, Payload.ImageUrl, image.value);
    }
    if feed.Some? {
      PrintableSettles(r, Payload.FeedUrl, feed.value);
    }
    PrintableSettles(r, Payload.PublishDate, DATE);
  }

  /** A feed URL of 769 characters. */
  function LongUrl(): string {
    "http://" + seq(762, _ => 'x')
  }

  /** Every item of the examples below is one that the payload reader accepts. */
  lemma {:induction false} InputsAccepted(r: Payload.Rules, p: Item)
    requires Plain(r)
    requires
      || p == Sample("A") || p == Sample("a") || p == Sample("B")
      || p == Sample("A").(feedUrl := Some("http://X")) || p == Sample("A").(imageUrl := Some(URL))
      || p == Sample("A").(feedUrl := Some(LongUrl()))
      || p == Item(Some("A"), None, None, None, None) || p == Item(Some("A"), None, None, None, Some(DATE))
      || p == Sample("B").(imageUrl := Some(URL)).(feedUrl := Some("http://y"))
      || p == Sample("A  B")
    ensures Payload.SettledItem(r, p)
  {
    assert "http://" <= LongUrl();
    PrintableAccepted(r, p.title.value, p.imageUrl, p.feedUrl, p.publishDate);
  }

  /** And it accepts them as a batch. */
  lemma {:induction false} BatchAccepted(r: Payload.Rules, ps: seq<Item>)
    requires 1 <= |ps| <= 1000 && Payload.SettledAll(r, ps)
    ensures Payload.Decode(r, Payload.Encode(ps)) == Some(ps)
  {
    Payload.RoundTrip(r, ps);
  }

  // ----------------------------------------------------------- how they are read

  predicate StoresDate(cast: string -> Option<string>) {
    cast(DATE) == Some(DATE)
  }

  /** The item is read as it is by every engine, in every mode. */
  predicate PlainItem(cast: string -> Option<string>, p: Item) {
    Kept(p) && Cleaned(p) == p && cast(p.publishDate.value) == p.publishDate && Fits(p)
  }

  lemma {:induction false} BareTrim(s: string)
    requires s != "" && s[0] != ' ' && s[|s| - 1] != ' '
    ensures Trim(s) == s
  {
  }

  lemma {:induction false} SamplePlain(cast: string -> Option<string>, title: string)
    requires StoresDate(cast) && Printable(title) && |title| <= 255
    ensures PlainItem(cast, Sample(title))
  {
    BareTrim(title);
    BareTrim(URL);
    BareTrim(DATE);
  }

  lemma {:induction false} ParsedPlain(d: Dialect, mode: Mode, ps: seq<Item>)
    requires forall k :: 0 <= k < |ps| ==> PlainItem(d.cast, ps[k])
    ensures Parsed(d, mode, ps) == Some(ps)
  {
    forall p | p in ps
      ensures PlainItem(d.cast, p)
    {
      var k :| 0 <= k < |ps| && ps[k] == p;
    }
    KeptAll(ps);
    assert CleanedAll(ps) == ps;
    assert forall k :: 0 <= k < |ps| ==> Dated(d, Cleaned(ps[k])) == ps[k];
    assert DatedAll(d, ps) == ps;
  }

  lemma {:induction false} ReadPlain(d: Dialect, mode: Mode, rows: seq<Row>, ps: seq<Item>, now: int)
    requires forall k :: 0 <= k < |ps| ==> PlainItem(d.cast, ps[k])
    ensures Exec(d, mode, rows, ps, now) == Apply(d, mode, rows, ps, now)
  {
    ParsedPlain(d, mode, ps);
  }

  // ------------------------------------------------- titles equal but for case

  /** Two items whose titles are one under the collation and two as texts. */
  predicate Variants(d: Dialect, p: Item, q: Item) {
    && p.title.Some? && q.title.Some? && p.title != q.title && d.key(p.title.value) == d.key(q.title.value)
    && PlainItem(d.cast, p) && PlainItem(d.cast, q)
  }

  lemma {:induction false} SampleVariants(d: Dialect, p: Item, q: Item)
    requires p == Sample("A") && q == Sample("a") && d.key("A") == d.key("a") && StoresDate(d.cast)
    ensures Variants(d, p, q) && DistinctTitles([p, q])
  {
    assert "A"[0] != "a"[0];
    SamplePlain(d.cast, "A");
    SamplePlain(d.cast, "a");
  }

  /** An insert that is known to admit some items and to answer in some way. */
  lemma {:induction false} InsertKnown(d: Dialect, rows: seq<Row>, ps: seq<Item>, admitted: seq<Item>, os: seq<Outcome>, now: int)
    requires Admitted(d, rows, ps) == admitted && Outcomes(d, Insert, rows, ps) == os
    requires (forall p :: p in ps ==> Storable(p)) && (forall p :: p in admitted ==> Storable(p)) && NoRivals(d, admitted)
    ensures Apply(d, Insert, rows, ps, now) == Done(rows + NewRows(admitted, now), os)
  {
  }

  lemma {:induction false} AdmittedTwo(d: Dialect, p: Item, q: Item)
    requires Variants(d, p, q)
    ensures Admitted(d, [], [p, q]) == if d.engine.Postgres? then [p] else [p, q]
  {
    assert [p, q][..1] == [p] && [p][..0] == [];
    assert Admitted(d, [], [p]) == [p];
    assert Rivals(d, p, q);
  }

  lemma {:induction false} TwoAnswers(d: Dialect, p: Item, q: Item)
    requires Variants(d, p, q) && !d.engine.MsSql?
    ensures Outcomes(d, Insert, [], [p, q]) == if d.engine.Postgres? then [Inserted, SkippedExists] else [Inserted, Inserted]
  {
    AdmittedTwo(d, p, q);
    if d.engine.MariaDb? {
      PredictedVerdicts(d, Insert, [], [p, q], [p, q]);
    } else {
      assert Met(d, [p], p) && !Met(d, [p], q);
      assert Returned(d, Insert, [], [p, q], [p, q][0]) == Inserted && Returned(d, Insert, [], [p, q], [p, q][1]) == SkippedExists;
    }
  }

  /** "A" and "a" pass the duplicate check. Postgres stores the first, MariaDB both,
      and MSSQL rejects the batch. */
  lemma {:induction false} CaseVariants(d: Dialect, p: Item, q: Item, now: int)
    requires p == Sample("A") && q == Sample("a") && d.key("A") == d.key("a") && StoresDate(d.cast)
    ensures DistinctTitles([p, q]) && Storable(p) && Storable(q)
    ensures Exec(d, Insert, [], [p, q], now) == match d.engine
      case Postgres => Done([NewRow(p, now)], [Inserted, SkippedExists])
      case MariaDb => Done([NewRow(p, now), NewRow(q, now)], [Inserted, Inserted])
      case MsSql => Failed
  {
    SampleVariants(d, p, q);
    VariantsInserted(d, p, q, now);
  }

  lemma {:induction false} VariantsInserted(d: Dialect, p: Item, q: Item, now: int)
    requires Variants(d, p, q)
    ensures Storable(p) && Storable(q)
    ensures Exec(d, Insert, [], [p, q], now) == match d.engine
      case Postgres => Done([NewRow(p, now)], [Inserted, SkippedExists])
      case MariaDb => Done([NewRow(p, now), NewRow(q, now)], [Inserted, Inserted])
      case MsSql => Failed
  {
    ReadPlain(d, Insert, [], [p, q], now);
    VariantsApplied(d, p, q, now);
  }

  lemma {:induction false} VariantsApplied(d: Dialect, p: Item, q: Item, now: int)
    requires Variants(d, p, q) && Storable(p) && Storable(q)
    ensures Apply(d, Insert, [], [p, q], now) == match d.engine
      case Postgres => Done([NewRow(p, now)], [Inserted, SkippedExists])
      case MariaDb => Done([NewRow(p, now), NewRow(q, now)], [Inserted, Inserted])
      case MsSql => Failed
  {
    AdmittedTwo(d, p, q);
    match d.engine {
      case Postgres =>
        TwoAnswers(d, p, q);
        InsertKnown(d, [], [p, q], [p], [Inserted, SkippedExists], now);
        OneNewRow(p, now);
      case MariaDb =>
        TwoAnswers(d, p, q);
        MariaStoresBoth(d, p, q, now);
      case MsSql =>
        assert Rivals(d, [p, q][0], [p, q][1]);
    }
  }

  lemma {:induction false} OneNewRow(p: Item, now: int)
    requires Storable(p)
    ensures [] + NewRows([p], now) == [NewRow(p, now)]
  {
  }

  lemma {:induction false} TwoNewRows(p: Item, q: Item, now: int)
    requires Storable(p) && Storable(q)
    ensures [] + NewRows([p, q], now) == [NewRow(p, now), NewRow(q, now)]
  {
  }

  lemma {:induction false} MariaStoresBoth(d: Dialect, p: Item, q: Item, now: int)
    requires d.engine.MariaDb? && Storable(p) && Storable(q)
    requires Admitted(d, [], [p, q]) == [p, q] && Outcomes(d, Insert, [], [p, q]) == [Inserted, Inserted]
    ensures Apply(d, Insert, [], [p, q], now) == Done([NewRow(p, now), NewRow(q, now)], [Inserted, Inserted])
  {
    TwoNewRows(p, q, now);
  }

  /** A delete of "A" and "a" removes one row and reports two successes on MariaDB and
      MSSQL: the row count and the answer part. */
  lemma {:induction false} TwoSuccessesOneRow(d: Dialect, p: Item, q: Item, at: int, now: int)
    requires p == Sample("A") && q == Sample("a") && d.key("A") == d.key("a") && StoresDate(d.cast) && !d.engine.Postgres?
    ensures DistinctTitles([p, q]) && Storable(p)
    ensures Exec(d, Delete, [NewRow(p, at)], [p, q], now) == Done([], [Deleted, Deleted])
    ensures !Conserves(Delete, 1, Exec(d, Delete, [NewRow(p, at)], [p, q], now))
  {
    SampleVariants(d, p, q);
    VariantsDeleted(d, p, q, at, now);
    assert [Deleted, Deleted][..1] == [Deleted] && [Deleted][..0] == [];
    assert Count([Deleted], Success) == 1;
  }

  lemma {:induction false} VariantsDeleted(d: Dialect, p: Item, q: Item, at: int, now: int)
    requires Variants(d, p, q) && !d.engine.Postgres?
    ensures Storable(p) && Exec(d, Delete, [NewRow(p, at)], [p, q], now) == Done([], [Deleted, Deleted])
  {
    ReadPlain(d, Delete, [NewRow(p, at)], [p, q], now);
    BothDelete(d, NewRow(p, at), p, q, now);
  }

  lemma {:induction false} BothDelete(d: Dialect, r: Row, p: Item, q: Item, now: int)
    requires Names(d, p, r) && Names(d, q, r)
    ensures Apply(d, Delete, [r], [p, q], now) == Done([], [Deleted, Deleted])
  {
    DeleteOutcomes(d, [r], [p, q]);
    assert Names(d, p, [r][0]) && Names(d, q, [r][0]);
    assert Outcomes(d, Delete, [r], [p, q]) == [Deleted, Deleted];
    DeleteIf(d, r, [p, q], 0);
  }

  lemma {:induction false} DeleteIf(d: Dialect, r: Row, ps: seq<Item>, i: nat)
    requires i < |ps| && Names(d, ps[i], r)
    ensures DeleteRows(d, [r], ps) == []
  {
    assert ps[i] in ps && Doomed(d, r, ps);
    assert [r][1..] == [];
  }

  // ------------------------------------------- one row and one item sent for it

  /** An update of one row by one item. */
  lemma {:induction false} UpdateOne(d: Dialect, r: Row, p: Item, now: int)
    requires Storable(p)
    ensures Apply(d, Update, [r], [p], now)
         == Done([if Hits(d, p, r) then Overwrite(r, p, now) else r],
                 [if Hits(d, p, r) then Updated else if Names(d, p, r) then SkippedExists else SkippedNotFound])
  {
    assert [p][1..] == [];
    assert HitOn(d, r, [p]) == if Hits(d, p, r) then Some(p) else None;
    assert UpdateRows(d, [r], [p], now) == [if Hits(d, p, r) then Overwrite(r, p, now) else r];
    UpdateDone(d, [r], [p], now);
    AnswerLaw(d, Update, [r], [p]);
    OneRow(d, r, p);
  }

  lemma {:induction false} OneRow(d: Dialect, r: Row, p: Item)
    ensures Named(d, [r], p) <==> Names(d, p, r)
    ensures (exists k :: 0 <= k < |[r]| && Hits(d, p, [r][k])) <==> Hits(d, p, r)
  {
    assert [r][0] == r;
  }

  /** A delete of one row by one item. */
  lemma {:induction false} DeleteOneItem(d: Dialect, r: Row, p: Item, now: int)
    requires p.title.Some?
    ensures Apply(d, Delete, [r], [p], now)
         == if Names(d, p, r) then Done([], [Deleted]) else Done([r], [SkippedNotFound])
  {
    DeleteOne(d, [r], p);
    DeleteOutcomes(d, [r], [p]);
    OneRow(d, r, p);
    if Names(d, p, r) {
      DeleteIf(d, r, [p], 0);
    } else {
      DeleteNone(d, [r], [p]);
    }
  }

  /** An update or delete of "a" misses the stored "A" on Postgres and finds it on the
      others. */
  lemma {:induction false} OtherSpelling(d: Dialect, p: Item, q: Item, at: int, now: int)
    requires p == Sample("A") && q == Sample("a") && d.key("A") == d.key("a") && StoresDate(d.cast)
    ensures Storable(p)
    ensures Exec(d, Delete, [NewRow(p, at)], [q], now)
         == if d.engine.Postgres? then Done([NewRow(p, at)], [SkippedNotFound]) else Done([], [Deleted])
    ensures Exec(d, Update, [NewRow(p, at)], [q], now)
         == Done([NewRow(p, at)], [if d.engine.Postgres? then SkippedNotFound else SkippedExists])
  {
    SampleVariants(d, p, q);
    SpelledOtherwise(d, p, q, NewRow(p, at), now);
  }

  lemma {:induction false} SpelledOtherwise(d: Dialect, p: Item, q: Item, r: Row, now: int)
    requires Variants(d, p, q) && Storable(p) && r == NewRow(p, r.modified)
    requires q.imageUrl == p.imageUrl && q.feedUrl == p.feedUrl && q.actualUrl == p.actualUrl && q.publishDate == p.publishDate
    ensures Exec(d, Delete, [r], [q], now)
         == if d.engine.Postgres? then Done([r], [SkippedNotFound]) else Done([], [Deleted])
    ensures Exec(d, Update, [r], [q], now) == Done([r], [if d.engine.Postgres? then SkippedNotFound else SkippedExists])
  {
    ReadPlain(d, Delete, [r], [q], now);
    ReadPlain(d, Update, [r], [q], now);
    DeleteOneItem(d, r, q, now);
    UpdateOne(d, r, q, now);
  }

  /** A feed URL sent with a capital is an update on Postgres and none elsewhere. */
  lemma {:induction false} Respelling(d: Dialect, p: Item, q: Item, at: int, now: int)
    requires p == Sample("A") && q == Sample("A").(feedUrl := Some("http://X"))
    requires d.key("http://X") == d.key(URL) && StoresDate(d.cast)
    ensures Storable(p) && Writable(q)
    ensures Exec(d, Update, [NewRow(p, at)], [q], now)
         == if d.engine.Postgres? then Done([Overwrite(NewRow(p, at), q, now)], [Updated])
            else Done([NewRow(p, at)], [SkippedExists])
  {
    assert "http://X"[7] != URL[7];
    OtherPlain(d.cast, q, "A", None, "http://X");
    ReadPlain(d, Update, [NewRow(p, at)], [q], now);
    UpdateOne(d, NewRow(p, at), q, now);
  }

  lemma {:induction false} OtherPlain(cast: string -> Option<string>, p: Item, title: string, image: Option<string>, feed: string)
    requires StoresDate(cast) && Printable(title) && |title| <= 255 && Printable(feed) && |feed| <= 255
    requires image.Some? ==> Printable(image.value) && |image.value| <= 255
    requires p == Item(Some(title), image, Some(feed), None, Some(DATE))
    ensures PlainItem(cast, p)
  {
    BareTrim(title);
    BareTrim(feed);
    BareTrim(DATE);
    if image.Some? {
      BareTrim(image.value);
    }
  }

  /** An image URL sent for a row without one is an update on Postgres and MariaDB,
      and skipped by MSSQL, which stays without it. */
  lemma {:induction false} NullMove(d: Dialect, p: Item, q: Item, at: int, now: int)
    requires p == Sample("A") && q == Sample("A").(imageUrl := Some(URL)) && StoresDate(d.cast)
    ensures Storable(p) && Writable(q)
    ensures Exec(d, Update, [NewRow(p, at)], [q], now)
         == if d.engine.MsSql? then Done([NewRow(p, at)], [SkippedExists])
            else Done([Overwrite(NewRow(p, at), q, now)], [Updated])
  {
    OtherPlain(d.cast, q, "A", Some(URL), URL);
    ReadPlain(d, Update, [NewRow(p, at)], [q], now);
    UpdateOne(d, NewRow(p, at), q, now);
  }

  /** MSSQL rejects a batch with an over-long text whole; the others store both items. */
  lemma {:induction false} LongText(d: Dialect, p: Item, q: Item, now: int)
    requires p == Sample("A").(feedUrl := Some(LongUrl())) && q == Sample("B") && StoresDate(d.cast) && d.key("A") != d.key("B")
    ensures Storable(p) && Storable(q)
    ensures Exec(d, Insert, [], [p, q], now)
         == if d.engine.MsSql? then Failed else Done([NewRow(p, now), NewRow(q, now)], [Inserted, Inserted])
  {
    BareTrim("A");
    BareTrim(LongUrl());
    BareTrim(DATE);
    SamplePlain(d.cast, "B");
    TwoNew(d, p, q, now);
  }

  lemma {:induction false} TwoNew(d: Dialect, p: Item, q: Item, now: int)
    requires Kept(p) && Cleaned(p) == p && d.cast(p.publishDate.value) == p.publishDate && !Fits(p)
    requires PlainItem(d.cast, q) && d.key(p.title.value) != d.key(q.title.value)
    ensures Storable(p) && Storable(q)
    ensures Exec(d, Insert, [], [p, q], now)
         == if d.engine.MsSql? then Failed else Done([NewRow(p, now), NewRow(q, now)], [Inserted, Inserted])
  {
    var ps := [p, q];
    assert AllKept(ps) && Canonical(d.cast, ps);
    assert CleanedAll(ps) == ps;
    ReadAlike(d, Insert, [], ps, now);
    assert p in ps && !AllFit(ps);
    if !d.engine.MsSql? {
      BothApplied(d, p, q, now);
    }
  }

  lemma {:induction false} BothApplied(d: Dialect, p: Item, q: Item, now: int)
    requires Storable(p) && Storable(q) && d.key(p.title.value) != d.key(q.title.value)
    ensures Apply(d, Insert, [], [p, q], now) == Done([NewRow(p, now), NewRow(q, now)], [Inserted, Inserted])
  {
    BothAdmitted(d, p, q);
    AnswerLaw(d, Insert, [], [p, q]);
    assert Outcomes(d, Insert, [], [p, q]) == [Inserted, Inserted];
    InsertKnown(d, [], [p, q], [p, q], [Inserted, Inserted], now);
    TwoNewRows(p, q, now);
  }

  lemma {:induction false} BothAdmitted(d: Dialect, p: Item, q: Item)
    requires p.title.Some? && q.title.Some? && d.key(p.title.value) != d.key(q.title.value)
    ensures Admitted(d, [], [p, q]) == [p, q] && Apart(d, [p, q]) && NoRivals(d, [p, q])
  {
    assert [p, q][..1] == [p] && [p][..0] == [];
    assert Admitted(d, [], [p]) == [p];
  }

  // -------------------------------------------------------- items that lack a URL

  /** A delete by title alone works on Postgres; the others drop the item unanswered. */
  lemma {:induction false} DeleteByTitle(d: Dialect, p: Item, q: Item, at: int, now: int)
    requires p == Sample("A") && q == Item(Some("A"), None, None, None, None)
    ensures Storable(p)
    ensures Exec(d, Delete, [NewRow(p, at)], [q], now)
         == if d.engine.Postgres? then Done([], [Deleted]) else Done([NewRow(p, at)], [])
  {
    var r := NewRow(p, at);
    DeleteOneItem(d, r, q, now);
    assert [q][1..] == [] && KeptOf([q]) == [];
    DeleteNone(d, [r], []);
  }

  /** An update of the stored "A" without feed URL fails its whole batch on Postgres,
      with the change of "B" in it; the others drop it and update "B". */
  lemma {:induction false} UpdateWithoutUrl(d: Dialect, p: Item, q: Item, rows: seq<Row>, now: int)
    requires p == Item(Some("A"), None, None, None, Some(DATE)) && q == Sample("B").(imageUrl := Some(URL)).(feedUrl := Some("http://y"))
    requires rows == [Stored("A", 1), Stored("B", 1)] && StoresDate(d.cast)
    requires d.key("A") != d.key("B") && d.key("http://y") != d.key(URL)
    ensures Writable(q)
    ensures Exec(d, Update, rows, [p, q], now)
         == if d.engine.Postgres? then Failed else Done([rows[0], Overwrite(rows[1], q, now)], [Updated])
  {
    assert "A"[0] != "B"[0];
    OtherPlain(d.cast, q, "B", Some(URL), "http://y");
    if d.engine.Postgres? {
      assert "A"[0] != "B"[0] && Apart(d, [p, q]);
      FeedlessDrops(d, p, q, rows, now);
    } else {
      DroppedOne(d, p, q, rows, now);
    }
  }

  lemma {:induction false} FeedlessDrops(d: Dialect, p: Item, q: Item, rows: seq<Row>, now: int)
    requires d.engine.Postgres? && Apart(d, [p, q]) && p.title.Some? && p.feedUrl.None?
    requires p.publishDate.Some? && d.cast(p.publishDate.value) == p.publishDate && Cleaned(p) == p && PlainItem(d.cast, q)
    requires |rows| >= 1 && Names(d, p, rows[0])
    ensures Exec(d, Update, rows, [p, q], now) == Failed
  {
    var ps := [p, q];
    assert Dated(d, Cleaned(p)) == p && Dated(d, Cleaned(q)) == q;
    assert DatedAll(d, ps) == ps && AllCastable(d, ps);
    assert Named(d, rows, ps[0]);
    FeedlessFails(d, rows, ps);
  }

  lemma {:induction false} DroppedOne(d: Dialect, p: Item, q: Item, rows: seq<Row>, now: int)
    requires !d.engine.Postgres? && p.feedUrl.None? && PlainItem(d.cast, q)
    requires |rows| == 2 && Keyed(d.key, rows) && !Names(d, q, rows[0]) && Hits(d, q, rows[1])
    ensures Exec(d, Update, rows, [p, q], now) == Done([rows[0], Overwrite(rows[1], q, now)], [Updated])
  {
    assert [p, q][1..] == [q] && [q][1..] == [];
    assert KeptOf([q]) == [q];
    assert KeptOf([p, q]) == KeptOf([q]);
    ParsedPlain(d, Update, [q]);
    assert Parsed(d, Update, [p, q]) == Parsed(d, Update, [q]);
    assert HitOn(d, rows[0], [q]) == None && HitOn(d, rows[1], [q]) == Some(q);
    UpdateDone(d, rows, [q], now);
    AnswerLaw(d, Update, rows, [q]);
    assert UpdateRows(d, rows, [q], now) == [rows[0], Overwrite(rows[1], q, now)];
  }
}
