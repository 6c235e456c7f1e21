/** Two loops put through the pass: the summation of its own test program, and one whose latch goes on inside. */
module LoopExample {
  import opened Wrappers
  import opened Cfg
  import opened LoopShape
  import opened LoopPass
  import opened LoopSim
  import opened LoopRuns

  datatype Locals = Locals(n: int, i: int, s: int)

  /** for (i = 0; i < n; ++i) s += i, as basic blocks with PHIs in the header. */
  function Summation(): Graph<Locals> {
    map[0 := Source(map[], (v: Locals) => v, Goto(1)),
        1 := Source(map[0 := (v: Locals) => v.(i := 0, s := 0), 3 := (v: Locals) => v.(i := v.i + 1)],
                    (v: Locals) => v, If((v: Locals) => v.i < v.n, 2, 4)),
        2 := Source(map[], (v: Locals) => v.(s := v.s + v.i), Goto(3)),
        3 := Source(map[], (v: Locals) => v, Goto(1)),
        4 := Source(map[], (v: Locals) => v, Leave)]
  }

  /** What the language makes of it: the k-th time at the header, i is k and s is the sum of the numbers below k. */
  lemma {:induction false} SummationRun(v: Locals, k: nat)
    requires k == 0 || k <= v.n
    ensures var r := Original(Summation(), Start(0, v), 3 * k + 1);
            && r.Run? && r.at == 1 && After(Summation()[1], r.prev, r.s) == Locals(v.n, k, Below(k))
  {
    hide Summation, Below, After, RunStep;
    if k == 0 {
      FirstRound(v);
    } else {
      SummationRun(v, k - 1);
      var m := 3 * k - 2;
      OneRound(Original(Summation(), Start(0, v), m), v.n, k - 1, Below(k - 1));
      ThreeSteps(Summation(), Start(0, v), m);
      OneMore(k - 1);
    }
  }

  /** The sum of the numbers below k. */
  function Below(k: nat): int {
    k * (k - 1) / 2
  }

  lemma OneMore(k: nat)
    ensures Below(k + 1) == Below(k) + k
  {
    assert (k + 1) * k == k * (k - 1) + 2 * k;
  }

  lemma FirstRound(v: Locals)
    ensures var r := Original(Summation(), Start(0, v), 1);
            && r.Run? && r.at == 1 && After(Summation()[1], r.prev, r.s) == Locals(v.n, 0, Below(0))
  {
    assert Original(Summation(), Start(0, v), 1) == RunStep(Summation(), Start(0, v));
  }

  lemma ThreeSteps<S>(g: Graph<S>, r: Run<S>, m: nat)
    ensures Original(g, r, m + 3) == RunStep(g, RunStep(g, RunStep(g, Original(g, r, m))))
  {
    assert Original(g, r, m + 2) == RunStep(g, Original(g, r, m + 1));
    assert Original(g, r, m + 1) == RunStep(g, Original(g, r, m));
  }

  lemma OneRound(r: Run<Locals>, n: int, i: int, s: int)
    requires r.Run? && r.at == 1 && After(Summation()[1], r.prev, r.s) == Locals(n, i, s) && i < n
    ensures var q := RunStep(Summation(), RunStep(Summation(), RunStep(Summation(), r)));
            q.Run? && q.at == 1 && After(Summation()[1], q.prev, q.s) == Locals(n, i + 1, s + i)
  {
    var g := Summation();
    assert RunStep(g, r) == Run.Run(Some(1), 2, Locals(n, i, s));
    assert RunStep(g, RunStep(g, r)) == Run.Run(Some(2), 3, Locals(n, i, s + i));
  }

  /** So the program leaves the sum of the numbers below n. */
  lemma SummationSums(v: Locals)
    requires v.n >= 0
    ensures Original(Summation(), Start(0, v), 3 * v.n + 3) == Over(Locals(v.n, v.n, Below(v.n)))
  {
    hide Summation, Below;
    SummationRun(v, v.n);
    var r := Original(Summation(), Start(0, v), 3 * v.n + 1);
    LastRound(r, v.n, Below(v.n));
    assert Original(Summation(), Start(0, v), 3 * v.n + 2) == RunStep(Summation(), r);
  }

  lemma LastRound(r: Run<Locals>, n: int, s: int)
    requires r.Run? && r.at == 1 && After(Summation()[1], r.prev, r.s) == Locals(n, n, s)
    ensures RunStep(Summation(), RunStep(Summation(), r)) == Over(Locals(n, n, s))
  {
    assert RunStep(Summation(), r) == Run.Run(Some(1), 4, Locals(n, n, s));
  }

  function TheLoop(): Loop {
    Loop.Loop(Some(0), 1, [3], {1, 2, 3}, Empty)
  }

  lemma SummationTargets()
    ensures var g := Summation();
            && g.Keys == {0, 1, 2, 3, 4} && Targets(g[0].exit) == {1} && Targets(g[1].exit) == {2, 4}
            && Targets(g[2].exit) == {3} && Targets(g[3].exit) == {1} && Targets(g[4].exit) == {}
  {
  }

  lemma SummationIsSound()
    ensures Closed(Summation()) && Sound(Summation(), TheLoop())
    ensures forall d, breakMode :: Matches(Summation(), TheLoop(), d, breakMode) ==>
        Natural(Summation(), d, 0) && LatchesLeave(Summation(), d)
  {
    hide Summation;
    SummationTargets();
  }

  lemma OnlyLoop(l: Loop)
    ensures Within(Add(Empty, TheLoop()), l) ==> l == TheLoop()
    ensures forall h: nat :: Times(Add(Empty, TheLoop()), h) == if h == 1 then 1 else 0
    ensures Everywhere(Add(Empty, TheLoop()), SoundIn(Summation()))
  {
    SummationIsSound();
    assert !Within(Empty, l) && TheLoop().subs == Empty;
  }

  lemma OneDone(ls: seq<Done>)
    requires forall h: nat :: TimesDone(ls, h) == if h == 1 then 1 else 0
    ensures |ls| == 1 && ls[0].header == 1
  {
    var n := |ls| - 1;
    assert TimesDone(ls, 1) == 1;
    TimesDoneHas(ls, n);
    if n > 0 {
      TimesDoneHas(ls[..n], n - 1);
      assert TimesDone(ls, ls[n - 1].header) > 0;
    }
  }

  /**
   * The summation loop is instrumented, alone and once, and meets every condition of the theorems, in either mode and
   * for every limit; its count is that of its back-edges.
   */
  method InstrumentSummation(limit: int, breakMode: bool) returns (l: LoopLimiter<Locals>)
    requires 0 <= limit < 0x8000_0000
    ensures Analysed(l.g, l.done, l.limit, l.code, l.next, 0) && l.g == Summation() && l.limit == limit
    ensures |l.done| == 1 && l.done[0].header == 1 && LatchesLeave(l.g, l.done[0]) && l.done[0].broken == breakMode
  {
    hide Summation, LoopLimiter.Valid, Natural, LatchesLeave, TimesDone, Sound, Closed, Everywhere, Times, Within;
    hide Analysed;
    SummationIsSound();
    SummationSize();
    l := new LoopLimiter<Locals>(Summation(), limit, breakMode, 5);
    OnlyLoop(TheLoop());
    l.Run(Add(Empty, TheLoop()));
    OneDone(l.done);
    OnlyLoop(l.origin[0]);
    assert Behind(l.g, l.origin[0], l.done[0], l.breakMode);
    SummationMode(l.done[0], l.breakMode);
    PassResult(l, 0);
  }

  /** The header's branch has one way on and one way out, so break mode applies. */
  lemma SummationMode(d: Done, breakMode: bool)
    requires Matches(Summation(), TheLoop(), d, breakMode)
    ensures d.broken == breakMode
  {
  }

  lemma SummationSize()
    ensures forall b :: b in Summation() ==> b < 5 && Summation()[b].phis.Keys <= Summation().Keys
    ensures 0 in Summation()
  {
  }

  /** The bound is checked before the loop's own test: a run that would leave after exactly limit rounds is cut too. */
  lemma CutBeforeTest(v: Locals, limit: int, prev: Option<nat>)
    requires var w := After(Summation()[1], prev, v); w.i >= w.n && 0 <= limit
    ensures var d := Done(0, 1, [3], {1, 2, 3}, false, 5, 6);
            && Fits(Summation(), d) && Natural(Summation(), d, 0)
            && Watch(Summation(), [d], limit, Watching(prev, 1, v, [limit])) == Stopped(0, v)
            && RunStep(Summation(), Run.Run(prev, 1, v)) == Run.Run(Some(1), 4, After(Summation()[1], prev, v))
  {
    var d := Done(0, 1, [3], {1, 2, 3}, false, 5, 6);
    assert HeaderOf([d], 1) == Some(0);
  }

  // ---- a latch that goes on inside the loop ---------------------------------------------------------------------

  /** Loop-simplify form: a preheader of its own, a single latch, and exits entered from the loop only. */
  ghost predicate Simplified<S>(g: Graph<S>, d: Done) {
    && d.preheader in g && Targets(g[d.preheader].exit) == {d.header} && |d.latches| == 1
    && forall b, c :: b in g && c in g && b in d.body && c !in d.body ==>
         Targets(g[b].exit) * Targets(g[c].exit) <= d.body
  }

  /** The single latch, block 3, also leads to block 2, which leads back to it. */
  function StrayingLatch(): Graph<int> {
    map[0 := Source(map[], s => s, Goto(1)),
        1 := Source(map[], s => s, If(s => s < 0, 2, 3)),
        2 := Source(map[], s => s, If(s => s < 0, 4, 3)),
        3 := Source(map[], s => s + 1, If(s => s == 1, 2, 1)),
        4 := Source(map[], s => s, Leave)]
  }

  function StrayingLoop(exit: nat, cont: nat): Done {
    Done(0, 1, [3], {1, 2, 3}, false, exit, cont)
  }

  lemma StrayingFits(exit: nat, cont: nat)
    ensures Closed(StrayingLatch()) && Fits(StrayingLatch(), StrayingLoop(exit, cont))
  {
  }

  lemma StrayingNatural(exit: nat, cont: nat)
    ensures Natural(StrayingLatch(), StrayingLoop(exit, cont), 0)
  {
    hide StrayingLatch;
    StrayingTargets();
  }

  lemma StrayingSimplified(exit: nat, cont: nat)
    ensures Simplified(StrayingLatch(), StrayingLoop(exit, cont))
  {
    hide StrayingLatch;
    StrayingTargets();
  }

  lemma StrayingTargets()
    ensures var g := StrayingLatch();
            && g.Keys == {0, 1, 2, 3, 4} && Targets(g[0].exit) == {1} && Targets(g[1].exit) == {2, 3}
            && Targets(g[2].exit) == {4, 3} && Targets(g[3].exit) == {2, 1} && Targets(g[4].exit) == {}
  {
  }

  lemma StrayingWatch(exit: nat, cont: nat, prev: Option<nat>, at: nat, s: int, count: int)
    requires at < 4 && 0 <= count < 2 && s >= 0
    ensures Watch(StrayingLatch(), [StrayingLoop(exit, cont)], 2, Watching(prev, at, s, [count]))
         == Watching(Some(at), if at == 0 then 1 else if at == 3 then (if s == 0 then 2 else 1) else 3,
                     if at == 3 then s + 1 else s,
                     [if at == 0 then 0 else if at == 3 then count + 1 else count])
  {
    var ls := [StrayingLoop(exit, cont)];
    assert ls[..0] == [];
    var r := Watch(StrayingLatch(), ls, 2, Watching(prev, at, s, [count]));
    assert r.counts == [Tick(StrayingLoop(exit, cont), at, count)];
  }

  lemma StrayingStop(exit: nat, cont: nat, prev: Option<nat>, s: int)
    ensures Watch(StrayingLatch(), [StrayingLoop(exit, cont)], 2, Watching(prev, 1, s, [2])) == Stopped(0, s)
  {
  }

  /** The path up to the stop. */
  function StrayingPath(): seq<Visit<int>> {
    [Visit(0, 0), Visit(1, 0), Visit(3, 0), Visit(2, 1), Visit(3, 1), Visit(1, 2)]
  }

  lemma StrayingCounts(exit: nat, cont: nat)
    ensures BackEdges(StrayingPath(), StrayingLoop(exit, cont)) == 1
    ensures Strays(StrayingPath(), StrayingLoop(exit, cont)) == 1
  {
    hide BackEdges, Strays, LatchRuns, Entered;
    var t, d := StrayingPath(), StrayingLoop(exit, cont);
    assert t[..1] + [t[1]] == t[..2] && t[..2] + [t[2]] == t[..3] && t[..3] + [t[3]] == t[..4];
    assert t[..4] + [t[4]] == t[..5] && t[..5] + [t[5]] == t;
    Longer(t[..1], t[1], d);
    Longer(t[..2], t[2], d);
    Longer(t[..3], t[3], d);
    Longer(t[..4], t[4], d);
    Longer(t[..5], t[5], d);
  }

  /** The monitored run stops at the header after one back-edge: the latch has run twice. */
  lemma StrayingRun(exit: nat, cont: nat)
    ensures var g, ls, m0 := StrayingLatch(), [StrayingLoop(exit, cont)], Watching(None, 0, 0, [0]);
            && Closed(g) && Fits(g, ls[0]) && Natural(g, ls[0], 0) && Simplified(g, ls[0]) && Inside(g, ls, m0)
            && Monitored(g, ls, 2, m0, 6) == Stopped(0, 2)
            && MonitoredPath(g, ls, 2, m0, 6) == StrayingPath()
            && BackEdges(StrayingPath(), ls[0]) == 1 && Strays(StrayingPath(), ls[0]) == 1
  {
    hide Watch, Closed, Fits, Natural, Simplified, BackEdges, Strays;
    var g, ls, m0 := StrayingLatch(), [StrayingLoop(exit, cont)], Watching(None, 0, 0, [0]);
    StrayingFits(exit, cont);
    StrayingNatural(exit, cont);
    StrayingSimplified(exit, cont);
    StrayingWatch(exit, cont, None, 0, 0, 0);
    StrayingWatch(exit, cont, Some(0), 1, 0, 0);
    StrayingWatch(exit, cont, Some(1), 3, 0, 0);
    StrayingWatch(exit, cont, Some(3), 2, 1, 1);
    StrayingWatch(exit, cont, Some(2), 3, 1, 1);
    StrayingStop(exit, cont, Some(3), 2);
    assert Monitored(g, ls, 2, m0, 1) == Watching(Some(0), 1, 0, [0]);
    assert Monitored(g, ls, 2, m0, 2) == Watching(Some(1), 3, 0, [0]);
    assert Monitored(g, ls, 2, m0, 3) == Watching(Some(3), 2, 1, [1]);
    assert Monitored(g, ls, 2, m0, 4) == Watching(Some(2), 3, 1, [1]);
    assert Monitored(g, ls, 2, m0, 5) == Watching(Some(3), 1, 2, [2]);
    assert MonitoredPath(g, ls, 2, m0, 1) == [Visit(0, 0)] + [Visit(1, 0)];
    assert MonitoredPath(g, ls, 2, m0, 2) == MonitoredPath(g, ls, 2, m0, 1) + [Visit(3, 0)];
    assert MonitoredPath(g, ls, 2, m0, 3) == MonitoredPath(g, ls, 2, m0, 2) + [Visit(2, 1)];
    assert MonitoredPath(g, ls, 2, m0, 4) == MonitoredPath(g, ls, 2, m0, 3) + [Visit(3, 1)];
    assert MonitoredPath(g, ls, 2, m0, 5) == MonitoredPath(g, ls, 2, m0, 4) + [Visit(1, 2)];
    assert MonitoredPath(g, ls, 2, m0, 6) == StrayingPath();
    StrayingCounts(exit, cont);
  }

  /** So the code stops: it exits silently with this path behind it. */
  lemma StrayingExits(p: Code<int>, bound: nat, exit: nat, cont: nat) returns (k: nat)
    requires Analysed(StrayingLatch(), [StrayingLoop(exit, cont)], 2, p, bound, 0)
    ensures Instrumented(p, Begin(0, State(0, map[], map[])), k).Exited?
    ensures ErasedPath(StrayingLatch(), p, Begin(0, State(0, map[], map[])), k) == StrayingPath()
  {
    hide StrayingLatch, StrayingLoop, StrayingPath, Shape, Ids, Natural, Closed, Fits, Monitored, MonitoredPath, Step;
    hide Match;
    var g, ls, st := StrayingLatch(), [StrayingLoop(exit, cont)], State(0, map[], map[]);
    var m0 := BeginWatch(ls, 0, st);
    Begins(g, ls, 2, 0, st);
    StrayingRun(exit, cont);
    assert m0 == Watching(None, 0, 0, [0]);
    k := MonitoredIsErased(g, ls, 2, p, bound, m0, Begin(0, st), 6);
    StoppedExits(g, ls, 2, p, bound, Stopped(0, 2), Instrumented(p, Begin(0, st), k));
    if !Instrumented(p, Begin(0, st), k).Exited? {
      k := k + 1;
      assert StrayingPath() + [] == StrayingPath();
    }
  }

  function TheStrayingLoop(): Loop {
    Loop.Loop(Some(0), 1, [3], {1, 2, 3}, Empty)
  }

  lemma StrayingIsSound()
    ensures Sound(StrayingLatch(), TheStrayingLoop())
    ensures Everywhere(Add(Empty, TheStrayingLoop()), SoundIn(StrayingLatch()))
    ensures forall b :: b in StrayingLatch() ==> b < 5 && StrayingLatch()[b].phis.Keys <= StrayingLatch().Keys
    ensures 0 in StrayingLatch()
  {
  }

  lemma OnlyStrayingLoop(l: Loop)
    ensures Within(Add(Empty, TheStrayingLoop()), l) ==> l == TheStrayingLoop()
    ensures forall h: nat :: Times(Add(Empty, TheStrayingLoop()), h) == if h == 1 then 1 else 0
  {
    assert !Within(Empty, l) && TheStrayingLoop().subs == Empty;
  }

  lemma StrayingDone(d: Done)
    requires Matches(StrayingLatch(), TheStrayingLoop(), d, false)
    ensures d == StrayingLoop(d.exit, d.cont)
  {
  }

  /**
   * A natural loop in loop-simplify form, put through the pass in split mode with limit 2: the code it leaves exits
   * silently after one back-edge, since its latch has run twice.
   */
  method LatchesCountTwice() returns (l: LoopLimiter<int>, ghost k: nat)
    ensures l.g == StrayingLatch() && l.limit == 2 && |l.done| == 1
    ensures Analysed(l.g, l.done, l.limit, l.code, l.next, 0) && Simplified(l.g, l.done[0])
    ensures Instrumented(l.code, Begin(0, State(0, map[], map[])), k).Exited?
    ensures var path := ErasedPath(l.g, l.code, Begin(0, State(0, map[], map[])), k);
            path == StrayingPath() && BackEdges(path, l.done[0]) == 1 && Strays(path, l.done[0]) == 1
  {
    hide StrayingLatch, StrayingPath, LoopLimiter.Valid, Natural, Simplified, TimesDone, Sound, Closed, Everywhere;
    hide Times, Within, Analysed, Matches, BackEdges, Strays;
    StrayingIsSound();
    l := new LoopLimiter<int>(StrayingLatch(), 2, false, 5);
    OnlyStrayingLoop(TheStrayingLoop());
    l.Run(Add(Empty, TheStrayingLoop()));
    OneDone(l.done);
    OnlyStrayingLoop(l.origin[0]);
    assert Behind(l.g, l.origin[0], l.done[0], l.breakMode);
    var d := l.done[0];
    StrayingDone(d);
    assert l.done == [d];
    StrayingFits(d.exit, d.cont);
    StrayingNatural(d.exit, d.cont);
    StrayingSimplified(d.exit, d.cont);
    StrayingCounts(d.exit, d.cont);
    PassResult(l, 0);
    k := StrayingExits(l.code, l.next, d.exit, d.cont);
  }
}
