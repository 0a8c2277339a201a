/** Concurrent inserts. On Postgres every row of an insert settles by itself against
    the unique key, so that statements of several callers may interleave row by row. */
module Race {
  import opened Feed
  import opened Bulk
  import opened BulkLaws
  import opened TableLaws
  import opened Procedures

  /** One row of one caller's insert. */
  datatype Attempt = Attempt(caller: nat, index: nat)

  /** The table, how far each caller has come, and the attempts that inserted a
      row, in the order of those rows. */
  datatype World = World(rows: seq<Row>, next: seq<nat>, wins: seq<Attempt>)

  type Batches = seq<seq<Item>>

  predicate Possible(batches: Batches, a: Attempt) {
    a.caller < |batches| && a.index < |batches[a.caller]|
  }

  function ItemOf(batches: Batches, a: Attempt): Item
    requires Possible(batches, a)
  {
    batches[a.caller][a.index]
  }

  /** What the handler and the parsing step let through. */
  ghost predicate AllStorable(batches: Batches) {
    forall a :: Possible(batches, a) ==> Storable(ItemOf(batches, a))
  }

  predicate CanStep(batches: Batches, w: World, c: nat) {
    c < |batches| == |w.next| && w.next[c] < |batches[c]|
  }

  /** Caller `c` settles its next row: insert if absent. */
  function Step(d: Dialect, batches: Batches, w: World, c: nat, now: int): World
    requires CanStep(batches, w, c) && Storable(batches[c][w.next[c]])
  {
    var p := batches[c][w.next[c]];
    var next := w.next[c := w.next[c] + 1];
    if Fresh(d, w.rows, p) then World(w.rows + [NewRow(p, now)], next, w.wins + [Attempt(c, w.next[c])])
    else World(w.rows, next, w.wins)
  }

  function Begin(batches: Batches, start: seq<Row>): World {
    World(start, seq(|batches|, k requires 0 <= k < |batches| => 0), [])
  }

  /** The world after a schedule of steps; steps of callers that are done are idle. */
  function Play(d: Dialect, batches: Batches, start: seq<Row>, schedule: seq<(nat, int)>): World
    requires AllStorable(batches)
  {
    if schedule == [] then Begin(batches, start) else
    var n := |schedule| - 1;
    var w := Play(d, batches, start, schedule[..n]);
    if CanStep(batches, w, schedule[n].0) then
      assert Possible(batches, Attempt(schedule[n].0, w.next[schedule[n].0]));
      assert Storable(ItemOf(batches, Attempt(schedule[n].0, w.next[schedule[n].0])));
      Step(d, batches, w, schedule[n].0, schedule[n].1)
    else w
  }

  predicate Made(batches: Batches, w: World, a: Attempt) {
    Possible(batches, a) && a.caller < |w.next| && a.index < w.next[a.caller]
  }

  /** The row `k` has the title of the attempt, under the collation. */
  predicate Holds(d: Dialect, batches: Batches, w: World, a: Attempt, k: int) {
    Possible(batches, a) && 0 <= k < |w.rows| && Clashes(d, ItemOf(batches, a), w.rows[k])
  }

  ghost predicate Inv(d: Dialect, batches: Batches, start: seq<Row>, w: World) {
    && |w.next| == |batches|
    && Keyed(d.key, w.rows)
    && |w.rows| == |start| + |w.wins| && w.rows[..|start|] == start
    && (forall k :: 0 <= k < |w.wins| ==>
          Made(batches, w, w.wins[k]) && ItemOf(batches, w.wins[k]).title == Some(w.rows[|start| + k].title))
    && (forall a :: Made(batches, w, a) ==> exists k :: Holds(d, batches, w, a, k))
  }

  lemma {:induction false} StepKeepsInv(d: Dialect, batches: Batches, start: seq<Row>, w: World, c: nat, now: int)
    requires Inv(d, batches, start, w) && CanStep(batches, w, c) && Storable(batches[c][w.next[c]])
    ensures Inv(d, batches, start, Step(d, batches, w, c, now))
  {
    var mine := Attempt(c, w.next[c]);
    var p := ItemOf(batches, mine);
    var w' := Step(d, batches, w, c, now);
    forall a | Made(batches, w', a)
      ensures exists k :: Holds(d, batches, w', a, k)
    {
      if a == mine {
        if Fresh(d, w.rows, p) {
          assert Holds(d, batches, w', a, |w.rows|);
        } else {
          var k :| 0 <= k < |w.rows| && Clashes(d, p, w.rows[k]);
          assert Holds(d, batches, w', a, k);
        }
      } else {
        assert Made(batches, w, a);
        var k :| Holds(d, batches, w, a, k);
        assert Holds(d, batches, w', a, k);
      }
    }
    if Fresh(d, w.rows, p) {
      forall k | 0 <= k < |w.rows|
        ensures d.key(w'.rows[k].title) != d.key(p.title.value)
      {
        assert !Clashes(d, p, w.rows[k]);
      }
    }
  }

  lemma {:induction false} PlayKeepsInv(d: Dialect, batches: Batches, start: seq<Row>, schedule: seq<(nat, int)>)
    requires AllStorable(batches) && Keyed(d.key, start)
    ensures Inv(d, batches, start, Play(d, batches, start, schedule))
  {
    if schedule != [] {
      var n := |schedule| - 1;
      PlayKeepsInv(d, batches, start, schedule[..n]);
      var w := Play(d, batches, start, schedule[..n]);
      if CanStep(batches, w, schedule[n].0) {
        assert Possible(batches, Attempt(schedule[n].0, w.next[schedule[n].0]));
        assert Storable(ItemOf(batches, Attempt(schedule[n].0, w.next[schedule[n].0])));
        StepKeepsInv(d, batches, start, w, schedule[n].0, schedule[n].1);
      }
    }
  }

  /** The winning attempts for the title of `a`. */
  predicate WinsFor(d: Dialect, batches: Batches, w: World, a: Attempt, k: int) {
    && 0 <= k < |w.wins| && Possible(batches, a) && Possible(batches, w.wins[k])
    && Rivals(d, ItemOf(batches, w.wins[k]), ItemOf(batches, a))
  }

  ghost predicate Won(d: Dialect, batches: Batches, w: World, a: Attempt) {
    exists k :: WinsFor(d, batches, w, a, k)
  }

  /** In every interleaving of any number of callers: for a title the table did
      not have, exactly one of the attempts made inserts it; for a title it had,
      none does. */
  lemma {:induction false} ExactlyOneWins(d: Dialect, batches: Batches, start: seq<Row>, schedule: seq<(nat, int)>, a: Attempt)
    requires AllStorable(batches) && Keyed(d.key, start)
    requires Made(batches, Play(d, batches, start, schedule), a)
    ensures var w := Play(d, batches, start, schedule);
      && (forall k, l :: WinsFor(d, batches, w, a, k) && WinsFor(d, batches, w, a, l) ==> k == l)
      && (Won(d, batches, w, a) <==> Fresh(d, start, ItemOf(batches, a)))
  {
    PlayKeepsInv(d, batches, start, schedule);
    OneWinner(d, batches, start, Play(d, batches, start, schedule), a);
  }

  lemma {:induction false} OneWinner(d: Dialect, batches: Batches, start: seq<Row>, w: World, a: Attempt)
    requires Inv(d, batches, start, w) && Made(batches, w, a)
    ensures forall k, l :: WinsFor(d, batches, w, a, k) && WinsFor(d, batches, w, a, l) ==> k == l
    ensures Won(d, batches, w, a) <==> Fresh(d, start, ItemOf(batches, a))
  {
    var p := ItemOf(batches, a);
    var n := |start|;
    assert forall k :: 0 <= k < n ==> w.rows[k] == w.rows[..n][k];
    forall k, l | WinsFor(d, batches, w, a, k) && WinsFor(d, batches, w, a, l)
      ensures k == l
    {
      assert d.key(w.rows[n + k].title) == d.key(w.rows[n + l].title);
    }
    var m :| Holds(d, batches, w, a, m);
    if m < n {
      assert Clashes(d, p, start[m]);
      forall k
        ensures !WinsFor(d, batches, w, a, k)
      {
        if 0 <= k < |w.wins| {
          assert d.key(w.rows[m].title) != d.key(w.rows[n + k].title);
        }
      }
    } else {
      assert WinsFor(d, batches, w, a, m - n);
      forall k | 0 <= k < n
        ensures !Clashes(d, p, start[k])
      {
        assert d.key(w.rows[k].title) != d.key(w.rows[m].title);
      }
    }
  }

  // ---------------------------------------------------------- what callers see

  /** The titles that the caller's statement gives back. */
  function Gained(batches: Batches, w: World, c: nat, n: nat): seq<string>
    requires n <= |w.wins|
    requires forall k :: 0 <= k < |w.wins| ==> Possible(batches, w.wins[k]) && ItemOf(batches, w.wins[k]).title.Some?
  {
    if n == 0 then [] else
    Gained(batches, w, c, n - 1) + if w.wins[n - 1].caller == c then [ItemOf(batches, w.wins[n - 1]).title.value] else []
  }

  predicate OwnWin(d: Dialect, batches: Batches, w: World, a: Attempt, k: int) {
    && WinsFor(d, batches, w, a, k) && w.wins[k].caller == a.caller
    && SameText(d, ItemOf(batches, a).title.value, ItemOf(batches, w.wins[k]).title.value)
  }

  lemma {:induction false} GainedTells(d: Dialect, batches: Batches, w: World, a: Attempt, n: nat)
    requires d.engine.Postgres? && n <= |w.wins| && Possible(batches, a) && ItemOf(batches, a).title.Some?
    requires forall k :: 0 <= k < |w.wins| ==> Possible(batches, w.wins[k]) && ItemOf(batches, w.wins[k]).title.Some?
    ensures Gave(d, Gained(batches, w, a.caller, n), ItemOf(batches, a)) <==>
            exists k :: 0 <= k < n && OwnWin(d, batches, w, a, k)
  {
    if n > 0 {
      GainedTells(d, batches, w, a, n - 1);
      var gained := Gained(batches, w, a.caller, n - 1);
      if w.wins[n - 1].caller == a.caller {
        var t := ItemOf(batches, w.wins[n - 1]).title.value;
        GaveAppend(d, gained, t, ItemOf(batches, a));
        if SameText(d, ItemOf(batches, a).title.value, t) {
          assert OwnWin(d, batches, w, a, n - 1);
        }
      } else {
        assert gained + [] == gained;
      }
    }
  }

  /** A caller whose batch repeats no title reads Success for exactly the rows
      that its own statement inserted, and Skipped for all others. */
  lemma {:induction false} StatusTellsWin(d: Dialect, batches: Batches, start: seq<Row>, schedule: seq<(nat, int)>, a: Attempt)
    requires d.engine.Postgres? && AllStorable(batches) && Keyed(d.key, start)
    requires Possible(batches, a) && Apart(d, batches[a.caller])
    ensures var w := Play(d, batches, start, schedule);
      && (forall k :: 0 <= k < |w.wins| ==> Possible(batches, w.wins[k]) && ItemOf(batches, w.wins[k]).title.Some?)
      && Reported(d, Insert, start, Gained(batches, w, a.caller, |w.wins|), ItemOf(batches, a))
           == if a in w.wins then Inserted else SkippedExists
  {
    var w := Play(d, batches, start, schedule);
    PlayKeepsInv(d, batches, start, schedule);
    forall k | 0 <= k < |w.wins|
      ensures Possible(batches, w.wins[k]) && ItemOf(batches, w.wins[k]).title.Some?
    {
      assert Made(batches, w, w.wins[k]);
    }
    assert Storable(ItemOf(batches, a));
    GainedTells(d, batches, w, a, |w.wins|);
    if a in w.wins {
      var k :| 0 <= k < |w.wins| && w.wins[k] == a;
      assert OwnWin(d, batches, w, a, k);
    }
    if k :| 0 <= k < |w.wins| && OwnWin(d, batches, w, a, k) {
      var b := w.wins[k];
      if b.index != a.index {
        var i, j := if a.index < b.index then a.index else b.index, if a.index < b.index then b.index else a.index;
        assert Meets(d, batches[a.caller][i], batches[a.caller][j]);
        assert false;
      }
      assert b == a;
    }
  }

  // ------------------------------------------------------------ final tables

  predicate Finished(batches: Batches, w: World) {
    |w.next| == |batches| && forall c :: 0 <= c < |batches| ==> w.next[c] >= |batches[c]|
  }

  ghost function Keys(d: Dialect, rows: seq<Row>): set<real> {
    set r | r in rows :: d.key(r.title)
  }

  ghost predicate Requested(d: Dialect, batches: Batches, x: real) {
    exists a :: Possible(batches, a) && ItemOf(batches, a).title.Some? && d.key(ItemOf(batches, a).title.value) == x
  }

  lemma {:induction false} TitlesKnown(d: Dialect, batches: Batches, start: seq<Row>, w: World, k: nat)
    requires Inv(d, batches, start, w) && k < |w.rows|
    ensures d.key(w.rows[k].title) in Keys(d, start) || Requested(d, batches, d.key(w.rows[k].title))
  {
    var n := |start|;
    if k < n {
      assert w.rows[k] == w.rows[..n][k] == start[k];
    } else {
      var a := w.wins[k - n];
      assert Made(batches, w, a) && ItemOf(batches, a).title == Some(w.rows[n + (k - n)].title);
    }
  }

  lemma {:induction false} TitlesThere(d: Dialect, batches: Batches, start: seq<Row>, w: World, x: real)
    requires Inv(d, batches, start, w) && Finished(batches, w)
    requires x in Keys(d, start) || Requested(d, batches, x)
    ensures x in Keys(d, w.rows)
  {
    if x in Keys(d, start) {
      var k :| 0 <= k < |start| && d.key(start[k].title) == x;
      assert w.rows[k] == w.rows[..|start|][k] && w.rows[k] in w.rows;
    } else {
      var a :| Possible(batches, a) && ItemOf(batches, a).title.Some? && d.key(ItemOf(batches, a).title.value) == x;
      assert Made(batches, w, a);
      var k :| Holds(d, batches, w, a, k);
      assert w.rows[k] in w.rows;
    }
  }

  /** When all callers are done the table holds the old titles and all requested
      ones, whatever the interleaving was. */
  lemma {:induction false} FinalTitles(d: Dialect, batches: Batches, start: seq<Row>, schedule: seq<(nat, int)>, x: real)
    requires AllStorable(batches) && Keyed(d.key, start)
    requires Finished(batches, Play(d, batches, start, schedule))
    ensures x in Keys(d, Play(d, batches, start, schedule).rows) <==> x in Keys(d, start) || Requested(d, batches, x)
  {
    var w := Play(d, batches, start, schedule);
    PlayKeepsInv(d, batches, start, schedule);
    if x in Keys(d, w.rows) {
      var k :| 0 <= k < |w.rows| && d.key(w.rows[k].title) == x;
      TitlesKnown(d, batches, start, w, k);
    } else if x in Keys(d, start) || Requested(d, batches, x) {
      TitlesThere(d, batches, start, w, x);
    }
  }

  lemma {:induction false} KeysCount(d: Dialect, rows: seq<Row>)
    requires Keyed(d.key, rows)
    ensures |Keys(d, rows)| == |rows|
  {
    if rows != [] {
      KeysCount(d, rows[1..]);
      assert Keys(d, rows) == Keys(d, rows[1..]) + {d.key(rows[0].title)};
      assert d.key(rows[0].title) !in Keys(d, rows[1..]);
    }
  }

  /** All interleavings report the same number of successes in total. */
  lemma {:induction false} SameSuccesses(d: Dialect, batches: Batches, start: seq<Row>, schedule: seq<(nat, int)>, schedule': seq<(nat, int)>)
    requires AllStorable(batches) && Keyed(d.key, start)
    requires Finished(batches, Play(d, batches, start, schedule)) && Finished(batches, Play(d, batches, start, schedule'))
    ensures |Play(d, batches, start, schedule).wins| == |Play(d, batches, start, schedule').wins|
  {
    var w, w' := Play(d, batches, start, schedule), Play(d, batches, start, schedule');
    PlayKeepsInv(d, batches, start, schedule);
    PlayKeepsInv(d, batches, start, schedule');
    forall x
      ensures x in Keys(d, w.rows) <==> x in Keys(d, w'.rows)
    {
      FinalTitles(d, batches, start, schedule, x);
      FinalTitles(d, batches, start, schedule', x);
    }
    assert Keys(d, w.rows) == Keys(d, w'.rows);
    KeysCount(d, w.rows);
    KeysCount(d, w'.rows);
  }

  function Solo(n: nat, now: int): seq<(nat, int)> {
    seq(n, k => (0, now))
  }

  lemma {:induction false} SoloStorable(ps: seq<Item>)
    requires AllStorable([ps])
    ensures forall q :: q in ps ==> Storable(q)
  {
    forall q | q in ps
      ensures Storable(q)
    {
      var k :| 0 <= k < |ps| && ps[k] == q;
      assert Possible([ps], Attempt(0, k)) && Storable(ItemOf([ps], Attempt(0, k)));
    }
  }

  /** The world of one caller that has dealt with the first `n` items. */
  ghost predicate SoloAt(d: Dialect, ps: seq<Item>, start: seq<Row>, n: nat, now: int, w: World) {
    && n <= |ps| && (forall q :: q in Admitted(d, start, ps[..n]) ==> Storable(q))
    && w.next == [n] && w.rows == start + NewRows(Admitted(d, start, ps[..n]), now)
  }

  lemma {:induction false} SoloStep(d: Dialect, ps: seq<Item>, start: seq<Row>, n: nat, now: int, w: World)
    requires d.engine.Postgres? && n < |ps| && Storable(ps[n]) && SoloAt(d, ps, start, n, now, w)
    ensures CanStep([ps], w, 0) && SoloAt(d, ps, start, n + 1, now, Step(d, [ps], w, 0, now))
  {
    var p, admitted := ps[n], Admitted(d, start, ps[..n]);
    InsertStep(d, start, ps, n, now);
    assert w.next[0 := n + 1] == [n + 1];
    if Fresh(d, w.rows, p) {
      NewRowsAppend(admitted, p, now);
    } else {
      assert admitted + [] == admitted;
    }
  }

  /** A caller alone does what its whole insert statement does. */
  lemma {:induction false} AloneIsOneStatement(d: Dialect, ps: seq<Item>, start: seq<Row>, n: nat, now: int)
    requires d.engine.Postgres? && AllStorable([ps]) && n <= |ps|
    ensures SoloAt(d, ps, start, n, now, Play(d, [ps], start, Solo(n, now)))
  {
    if n > 0 {
      AloneIsOneStatement(d, ps, start, n - 1, now);
      assert Solo(n, now)[..n - 1] == Solo(n - 1, now);
      SoloStorable(ps);
      SoloStep(d, ps, start, n - 1, now, Play(d, [ps], start, Solo(n - 1, now)));
    }
  }

  // ------------------------------------------------------------------ MariaDB

  /** The item joins a row alike, and for an update sees the same need for change. */
  predicate SeesAlike(d: Dialect, mode: Mode, seen: seq<Row>, rows: seq<Row>, p: Item) {
    && (Named(d, seen, p) <==> Named(d, rows, p))
    && (mode.Update? ==>
          ((exists k :: 0 <= k < |seen| && Hits(d, p, seen[k])) <==> (exists k :: 0 <= k < |rows| && Hits(d, p, rows[k]))))
  }

  /** MariaDB predicts statuses from one table and writes to another when a
      different caller writes in between. The statuses tell what the write does
      exactly when every item sees both tables alike. */
  lemma {:induction false} PredictionsComeTrue(d: Dialect, mode: Mode, seen: seq<Row>, rows: seq<Row>, ps: seq<Item>)
    requires d.engine.MariaDb? && Keyed(d.key, seen) && Keyed(d.key, rows) && Tidy(d, ps)
    ensures |PredictedAll(d, mode, seen, ps)| == |ps|
    ensures (forall k :: 0 <= k < |ps| ==> PredictedAll(d, mode, seen, ps)[k] == Verdict(d, mode, rows, ps, ps[k]))
       <==> forall k :: 0 <= k < |ps| ==> SeesAlike(d, mode, seen, rows, ps[k])
  {
    PredictedVerdicts(d, mode, seen, ps, ps);
    forall k | 0 <= k < |ps|
      ensures Verdict(d, mode, seen, ps, ps[k]) == Verdict(d, mode, rows, ps, ps[k]) <==> SeesAlike(d, mode, seen, rows, ps[k])
    {
      VerdictsAlike(d, mode, seen, rows, ps, ps[k]);
    }
  }

  lemma {:induction false} VerdictsAlike(d: Dialect, mode: Mode, seen: seq<Row>, rows: seq<Row>, ps: seq<Item>, p: Item)
    requires d.engine.MariaDb? && p in ps && p.title.Some?
    ensures Verdict(d, mode, seen, ps, p) == Verdict(d, mode, rows, ps, p) <==> SeesAlike(d, mode, seen, rows, p)
  {
    AdmittedFresh(d, seen, ps, p);
    AdmittedFresh(d, rows, ps, p);
    FreshIsUnnamed(d, seen, p);
    FreshIsUnnamed(d, rows, p);
  }

  lemma {:induction false} FreshIsUnnamed(d: Dialect, rows: seq<Row>, p: Item)
    requires !d.engine.Postgres? && p.title.Some?
    ensures Fresh(d, rows, p) <==> !Named(d, rows, p)
    ensures (exists k :: 0 <= k < |rows| && Hits(d, p, rows[k])) ==> Named(d, rows, p)
  {
    assert forall k :: 0 <= k < |rows| ==> (Clashes(d, p, rows[k]) <==> Names(d, p, rows[k]));
    if k :| 0 <= k < |rows| && Hits(d, p, rows[k]) {
      assert Names(d, p, rows[k]);
    }
  }
}
