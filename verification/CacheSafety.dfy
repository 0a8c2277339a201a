/** What a 304 answer is worth, over every run of bulk calls and split GETs. */
module CacheSafety {
  import opened Feed
  import opened Bulk
  import opened TableLaws
  import opened Survivors
  import opened Json
  import opened ConditionalGet

  /** Of the rows stamped up to the earlier version only some are taken out. */
  predicate Follows(earlier: Version, later: Version) {
    Remains(Until(later.rows, earlier.time), earlier.rows)
  }

  predicate Dated(v: Version) {
    forall k :: 0 <= k < |v.rows| ==> v.rows[k].modified <= v.time
  }

  predicate HistoryOk(vs: seq<Version>) {
    && vs != []
    && (forall i :: 0 <= i < |vs| ==> Dated(vs[i]))
    && (forall i, j :: 0 <= i < j < |vs| ==> vs[i].time <= vs[j].time && Follows(vs[i], vs[j]))
  }

  /** The tag was made from the newest date of version `i`. */
  predicate TagOf(site: Site, vs: seq<Version>, i: nat, p: ExtractParams, tag: string) {
    i < |vs| && MaxModified(vs[i].rows).Some? && tag == site.dateTag(MaxModified(vs[i].rows).value, p)
  }

  /** The client's body is the one these rows give for the request. */
  predicate Truthful(site: Site, rows: seq<Row>, p: ExtractParams, body: string) {
    var found := site.read(p, rows);
    found.Some? && body == site.body(found.value)
  }

  /** The entry shows what its `filled` version held, and its tag is the one of
      its `asked` version, or that of its body. */
  predicate EntryOk(site: Site, vs: seq<Version>, e: Entry) {
    && e.filled < |vs|
    && Truthful(site, vs[e.filled].rows, e.params, e.body)
    && (e.asked.None? ==> e.tag == site.bodyTag(e.body))
    && (e.asked.Some? ==> e.asked.value <= e.filled && TagOf(site, vs, e.asked.value, e.params, e.tag))
  }

  predicate PendingOk(site: Site, vs: seq<Version>, r: Pending) {
    && r.asked < |vs|
    && (r.dbTag.Some? ==> TagOf(site, vs, r.asked, r.params, r.dbTag.value) && r.ifNoneMatch != r.dbTag)
  }

  predicate Inv(site: Site, s: State) {
    && HistoryOk(s.versions)
    && (forall k :: 0 <= k < |s.held| ==> EntryOk(site, s.versions, s.held[k]))
    && (forall k :: 0 <= k < |s.pending| ==> PendingOk(site, s.versions, s.pending[k]))
  }

  // ------------------------------------------------------- the invariant holds

  /** A version that takes out rows of the last one and stamps what is new extends
      the history. */
  lemma {:induction false} HistoryGrows(vs: seq<Version>, v: Version)
    requires HistoryOk(vs) && vs[|vs| - 1].time < v.time && Dated(v)
    requires forall t :: t < v.time ==> Remains(Until(v.rows, t), Until(vs[|vs| - 1].rows, t))
    ensures HistoryOk(vs + [v])
  {
    var last := vs[|vs| - 1];
    forall i | 0 <= i < |vs|
      ensures vs[i].time <= v.time && Follows(vs[i], v)
    {
      var t := vs[i].time;
      if i == |vs| - 1 {
        UntilAll(last.rows, t);
        RemainsSelf(last.rows);
      } else {
        assert Follows(vs[i], last);
      }
      RemainsThrough(Until(v.rows, t), Until(last.rows, t), vs[i].rows);
    }
  }

  /** What a call makes of the newest version extends the history: on every engine,
      for every batch and every table. */
  lemma {:induction false} CallExtends(d: Dialect, mode: Mode, vs: seq<Version>, items: seq<Item>, now: int)
    requires HistoryOk(vs) && vs[|vs| - 1].time < now
    ensures HistoryOk(vs + [Version(now, AfterCall(d, mode, vs[|vs| - 1].rows, items, now))])
  {
    var last := vs[|vs| - 1];
    var v := Version(now, AfterCall(d, mode, last.rows, items, now));
    CallStamps(d, mode, last.rows, items, now);
    forall k | 0 <= k < |v.rows|
      ensures v.rows[k].modified <= now
    {
      if v.rows[k] in last.rows {
        var j :| 0 <= j < |last.rows| && last.rows[j] == v.rows[k];
      }
    }
    forall t | t < now
      ensures Remains(Until(v.rows, t), Until(last.rows, t))
    {
      CallOnlyTakes(d, mode, last.rows, items, now, t);
    }
    HistoryGrows(vs, v);
  }

  lemma {:induction false} MoreVersions(site: Site, vs: seq<Version>, v: Version)
    ensures forall e :: EntryOk(site, vs, e) ==> EntryOk(site, vs + [v], e)
    ensures forall r :: PendingOk(site, vs, r) ==> PendingOk(site, vs + [v], r)
  {
    assert forall i :: 0 <= i < |vs| ==> (vs + [v])[i] == vs[i];
  }

  /** Every step keeps the invariant. */
  lemma {:induction false} StepKeepsInv(site: Site, s: State, e: Event)
    requires Inv(site, s) && Enabled(s, e)
    ensures Inv(site, Next(site, s, e))
  {
    match e
    case Write(mode, items, now) =>
      CallExtends(site.dialect, mode, s.versions, items, now);
      MoreVersions(site, s.versions, Version(now, AfterCall(site.dialect, mode, Newest(s), items, now)));
    case Ask(params, ifNoneMatch, up) =>
      AskKeepsInv(site, s, params, ifNoneMatch, up);
    case Finish(k, up) =>
      FinishKeepsInv(site, s, k, up);
  }

  lemma {:induction false} AskKeepsInv(site: Site, s: State, params: ExtractParams, ifNoneMatch: Option<string>, up: bool)
    requires Inv(site, s)
    ensures Inv(site, AfterAsk(site, s, params, ifNoneMatch, up))
  {
    var s' := AfterAsk(site, s, params, ifNoneMatch, up);
    if s'.pending != s.pending {
      assert PendingOk(site, s.versions, s'.pending[|s.pending|]);
    }
  }

  lemma {:induction false} FinishKeepsInv(site: Site, s: State, k: nat, up: bool)
    requires Inv(site, s) && k < |s.pending|
    ensures Inv(site, AfterFinish(site, s, k, up))
  {
    var s' := AfterFinish(site, s, k, up);
    assert s'.versions == s.versions;
    assert PendingOk(site, s.versions, s.pending[k]);
    if FinishAnswer(site, s, s.pending[k], up).Full? {
      AnswerIsOk(site, s, k, up);
    }
    forall j | 0 <= j < |s'.pending|
      ensures PendingOk(site, s.versions, s'.pending[j])
    {
      assert s'.pending[j] == if j < k then s.pending[j] else s.pending[j + 1];
    }
  }

  /** A full response shows the newest version under the right tag. */
  lemma {:induction false} AnswerIsOk(site: Site, s: State, k: nat, up: bool)
    requires s.versions != [] && k < |s.pending| && PendingOk(site, s.versions, s.pending[k])
    requires FinishAnswer(site, s, s.pending[k], up).Full?
    ensures var r, full := s.pending[k], FinishAnswer(site, s, s.pending[k], up);
            EntryOk(site, s.versions,
                    Entry(r.params, full.tag, full.body, if r.dbTag.Some? then Some(r.asked) else None, |s.versions| - 1))
  {
  }

  // ---------------------------------------------------------------- 304 answers

  /** Since the version that `h` shows rows have only been taken out of the table;
      none has exactly when it has kept its number of rows, and then what `h`
      shows is what the table gives. */
  predicate OnlyLost(site: Site, vs: seq<Version>, h: Entry)
    requires vs != [] && h.filled < |vs|
  {
    var now, shown := vs[|vs| - 1].rows, vs[h.filled].rows;
    && Remains(now, shown)
    && (|now| == |shown| <==> now == shown)
    && (now == shown ==> Truthful(site, now, h.params, h.body))
  }

  /** The two ways in which the server answers a request for `p` with 304 and
      `tag`: by the date it reads first, or by the rows it reads second. */
  predicate Sends304(site: Site, s: State, p: ExtractParams, tag: string)
    requires s.versions != []
  {
    var m := MaxModified(Newest(s));
    || (m.Some? && tag == site.dateTag(m.value, p))
    || (exists n :: 0 <= n < |s.pending| && s.pending[n].params == p && Sends304Late(site, s, s.pending[n], tag))
  }

  predicate Sends304Late(site: Site, s: State, r: Pending, tag: string)
    requires s.versions != []
  {
    FinishAnswer(site, s, r, true) == NotModified(tag)
  }

  /** There are no other 304 answers. */
  lemma {:induction false} SentIs304(site: Site, s: State, e: Event, tag: string)
    requires s.versions != [] && Enabled(s, e) && Sent(site, s, e) == Some(NotModified(tag))
    ensures Sends304(site, s, ParamsOf(s, e), tag)
  {
    match e
    case Ask(p, ifNoneMatch, up) =>
    case Finish(n, up) =>
      assert Sends304Late(site, s, s.pending[n], tag);
  }

  /** A 304 to a client that holds its tag. With a body tag the client's body is
      the current one. With a date tag the table has only lost rows. */
  lemma {:induction false} NotModifiedMeans(site: Site, s: State, p: ExtractParams, h: Entry)
    requires TagsApart(site) && HistoryOk(s.versions) && EntryOk(site, s.versions, h)
    requires forall n :: 0 <= n < |s.pending| ==> PendingOk(site, s.versions, s.pending[n])
    requires Sends304(site, s, p, h.tag)
    ensures h.asked.None? ==> Truthful(site, Newest(s), p, h.body)
    ensures h.asked.Some? ==> h.params == p && OnlyLost(site, s.versions, h)
  {
    var m := MaxModified(Newest(s));
    if m.Some? && h.tag == site.dateTag(m.value, p) {
      FastPathMeans(site, s.versions, h, p, m.value);
    } else {
      var n :| 0 <= n < |s.pending| && s.pending[n].params == p && Sends304Late(site, s, s.pending[n], h.tag);
      SlowPathMeans(site, s, s.pending[n], h);
    }
  }

  lemma {:induction false} FastPathMeans(site: Site, vs: seq<Version>, h: Entry, p: ExtractParams, m: int)
    requires TagsApart(site) && HistoryOk(vs) && EntryOk(site, vs, h)
    requires MaxModified(vs[|vs| - 1].rows) == Some(m) && h.tag == site.dateTag(m, p)
    ensures h.asked.Some? && h.params == p && OnlyLost(site, vs, h)
  {
    DateMatches(site, vs, h, p, m);
    SameDateMeans(site, vs, h, m);
  }

  /** Two versions with one newest date differ by rows taken out, and by nothing else. */
  lemma {:induction false} SameDateMeans(site: Site, vs: seq<Version>, h: Entry, m: int)
    requires HistoryOk(vs) && h.asked.Some? && h.asked.value <= h.filled < |vs|
    requires MaxModified(vs[|vs| - 1].rows) == Some(m) && MaxModified(vs[h.asked.value].rows) == Some(m)
    requires Truthful(site, vs[h.filled].rows, h.params, h.body)
    ensures OnlyLost(site, vs, h)
  {
    var asked, shown, now := vs[h.asked.value], vs[h.filled], vs[|vs| - 1];
    MaxModifiedIsMax(asked.rows, m);
    MaxModifiedIsMax(now.rows, m);
    assert m <= asked.time <= shown.time;
    UntilAll(now.rows, shown.time);
    if h.filled == |vs| - 1 {
      RemainsSelf(now.rows);
    } else {
      assert Follows(shown, now);
    }
    RemainsCount(now.rows, shown.rows);
  }

  /** An entry whose tag is a date tag got it from that date and those parameters. */
  lemma {:induction false} DateMatches(site: Site, vs: seq<Version>, h: Entry, p: ExtractParams, m: int)
    requires TagsApart(site) && EntryOk(site, vs, h) && h.tag == site.dateTag(m, p)
    ensures h.asked.Some? && h.params == p && MaxModified(vs[h.asked.value].rows) == Some(m)
  {
  }

  /** The second comparison can succeed with a body tag only. */
  lemma {:induction false} SlowPathMeans(site: Site, s: State, r: Pending, h: Entry)
    requires TagsApart(site) && s.versions != [] && EntryOk(site, s.versions, h) && PendingOk(site, s.versions, r)
    requires Sends304Late(site, s, r, h.tag)
    ensures h.asked.None? && Truthful(site, Newest(s), r.params, h.body)
  {
  }

  // --------------------------------------------------------------------- runs

  /** A table before the first request. */
  function Start(rows: seq<Row>, time: int): State {
    State([Version(time, rows)], [], [])
  }

  predicate Legal(site: Site, s: State, events: seq<Event>)
    requires s.versions != []
    decreases |events|
  {
    events == [] || (Enabled(s, events[0]) && Legal(site, Next(site, s, events[0]), events[1..]))
  }

  function Run(site: Site, s: State, events: seq<Event>): (s': State)
    requires s.versions != [] && Legal(site, s, events)
    ensures s'.versions != []
    decreases |events|
  {
    if events == [] then s else Run(site, Next(site, s, events[0]), events[1..])
  }

  lemma {:induction false} RunKeepsInv(site: Site, s: State, events: seq<Event>)
    requires Inv(site, s) && Legal(site, s, events)
    ensures Inv(site, Run(site, s, events))
    decreases |events|
  {
    if events != [] {
      StepKeepsInv(site, s, events[0]);
      RunKeepsInv(site, Next(site, s, events[0]), events[1..]);
    }
  }

  /** The client's body is current, or rows have been taken out of the table since. */
  predicate CurrentOrShrunk(site: Site, s: State, p: ExtractParams, h: Entry)
    requires s.versions != [] && h.filled < |s.versions|
  {
    || Truthful(site, Newest(s), p, h.body)
    || (&& h.asked.Some? && Remains(Newest(s), s.versions[h.filled].rows)
        && |Newest(s)| < |s.versions[h.filled].rows|)
  }

  lemma {:induction false} NotModifiedInState(site: Site, s: State, p: ExtractParams, h: Entry)
    requires TagsApart(site) && HistoryOk(s.versions) && EntryOk(site, s.versions, h)
    requires forall n :: 0 <= n < |s.pending| ==> PendingOk(site, s.versions, s.pending[n])
    requires Sends304(site, s, p, h.tag)
    ensures CurrentOrShrunk(site, s, p, h)
  {
    NotModifiedMeans(site, s, p, h);
    if h.asked.Some? {
      RemainsCount(Newest(s), s.versions[h.filled].rows);
    }
  }

  /** In every run on every table, whatever is inserted, updated or deleted between
      requests or between the two reads of one: after a 304 the client's body is
      current, or rows have been taken out of the table, and nothing else has
      happened to it, since the client's version. */
  lemma {:induction false} EveryNotModified(site: Site, rows: seq<Row>, time: int, events: seq<Event>, p: ExtractParams, k: nat)
    requires TagsApart(site) && Dated(Version(time, rows))
    requires Legal(site, Start(rows, time), events)
    requires var s := Run(site, Start(rows, time), events);
             k < |s.held| && Sends304(site, s, p, s.held[k].tag)
    ensures var s := Run(site, Start(rows, time), events);
            s.held[k].filled < |s.versions| && CurrentOrShrunk(site, s, p, s.held[k])
  {
    RunKeepsInv(site, Start(rows, time), events);
    var s := Run(site, Start(rows, time), events);
    NotModifiedInState(site, s, p, s.held[k]);
  }

  // ---------------------------------------------------------- without deletes

  predicate NoDeletes(events: seq<Event>) {
    forall e :: e in events && e.Write? ==> !e.mode.Delete?
  }

  predicate Growing(vs: seq<Version>) {
    forall i, j :: 0 <= i < j < |vs| ==> |vs[i].rows| <= |vs[j].rows|
  }

  lemma {:induction false} RunGrows(site: Site, s: State, events: seq<Event>)
    requires Inv(site, s) && Growing(s.versions) && Legal(site, s, events) && NoDeletes(events)
    ensures Growing(Run(site, s, events).versions)
    decreases |events|
  {
    if events != [] {
      var e := events[0];
      assert e in events;
      if e.Write? {
        CallStamps(site.dialect, e.mode, Newest(s), e.items, e.now);
        StillGrowing(s, e.now, AfterCall(site.dialect, e.mode, Newest(s), e.items, e.now));
      }
      assert NoDeletes(events[1..]);
      StepKeepsInv(site, s, e);
      RunGrows(site, Next(site, s, e), events[1..]);
    }
  }

  lemma {:induction false} StillGrowing(s: State, now: int, rows: seq<Row>)
    requires s.versions != [] && Growing(s.versions) && |Newest(s)| <= |rows|
    ensures Growing(Recorded(s, now, rows).versions)
  {
    assert forall i :: 0 <= i < |s.versions| ==> |s.versions[i].rows| <= |Newest(s)|;
  }

  /** In every run without deletes, on every engine and table, a 304 always leaves the client with exactly
      the body that the current table gives for its parameters. */
  lemma {:induction false} NotModifiedIsTrue(site: Site, rows: seq<Row>, time: int, events: seq<Event>, p: ExtractParams, k: nat)
    requires TagsApart(site) && Dated(Version(time, rows))
    requires Legal(site, Start(rows, time), events) && NoDeletes(events)
    requires var s := Run(site, Start(rows, time), events);
             k < |s.held| && Sends304(site, s, p, s.held[k].tag)
    ensures var s := Run(site, Start(rows, time), events);
            Truthful(site, Newest(s), p, s.held[k].body)
  {
    EveryNotModified(site, rows, time, events, p, k);
    RunGrows(site, Start(rows, time), events);
    var s := Run(site, Start(rows, time), events);
    NothingLost(site, s, p, s.held[k]);
  }

  lemma {:induction false} NothingLost(site: Site, s: State, p: ExtractParams, h: Entry)
    requires s.versions != [] && Growing(s.versions) && h.filled < |s.versions|
    requires CurrentOrShrunk(site, s, p, h)
    ensures Truthful(site, Newest(s), p, h.body)
  {
    assert h.filled < |s.versions| - 1 ==> |s.versions[h.filled].rows| <= |Newest(s)|;
  }
}
