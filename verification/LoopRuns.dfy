/** Runs of the instrumented code compared with runs of the original: prefixes, early stops, iteration counts. */
module LoopRuns {
  import opened Wrappers
  import opened Cfg
  import opened LoopShape
  import opened LoopSim
  import opened LoopPass

  // ---- runs and what is seen of them -----------------------------------------------------------------

  ghost function Original<S>(g: Graph<S>, r: Run<S>, n: nat): Run<S> {
    if n == 0 then r else RunStep(g, Original(g, r, n - 1))
  }

  ghost function Instrumented<S>(p: Code<S>, c: Config<S>, n: nat): Config<S> {
    if n == 0 then c else Step(p, Instrumented(p, c, n - 1))
  }

  /** A block and the state on arrival. */
  datatype Visit<S> = Visit(at: nat, s: S)

  ghost function OriginalPath<S>(g: Graph<S>, r: Run<S>, n: nat): seq<Visit<S>> {
    var now := Original(g, r, n);
    var here := if now.Run? then [Visit(now.at, now.s)] else [];
    if n == 0 then here else OriginalPath(g, r, n - 1) + here
  }

  /** Counters, checks and added blocks erased. */
  ghost function Seen<S>(g: Graph<S>, c: Config<S>): seq<Visit<S>> {
    if c.At? && c.at in g then [Visit(c.at, c.st.s)] else []
  }

  ghost function ErasedPath<S>(g: Graph<S>, p: Code<S>, c: Config<S>, n: nat): seq<Visit<S>> {
    if n == 0 then Seen(g, c) else ErasedPath(g, p, c, n - 1) + Seen(g, Instrumented(p, c, n))
  }

  ghost function Monitored<S>(g: Graph<S>, ls: seq<Done>, limit: int, m: Monitor<S>, n: nat): (r: Monitor<S>)
    requires Closed(g) && Inside(g, ls, m) && forall i :: 0 <= i < |ls| ==> Fits(g, ls[i])
    ensures Inside(g, ls, r)
  {
    if n == 0 then m
    else
      var before := Monitored(g, ls, limit, m, n - 1);
      InsideStep(g, ls, limit, before);
      Watch(g, ls, limit, before)
  }

  lemma InsideStep<S>(g: Graph<S>, ls: seq<Done>, limit: int, m: Monitor<S>)
    requires Closed(g) && Inside(g, ls, m) && forall i :: 0 <= i < |ls| ==> Fits(g, ls[i])
    ensures Inside(g, ls, Watch(g, ls, limit, m))
  {
    hide Closed, Fits;
    if m.Watching? {
      WatchStaysInside(g, ls, limit, m);
    }
  }

  function SeenBy<S>(m: Monitor<S>): seq<Visit<S>> {
    if m.Watching? then [Visit(m.at, m.s)] else []
  }

  ghost function MonitoredPath<S>(g: Graph<S>, ls: seq<Done>, limit: int, m: Monitor<S>, n: nat): seq<Visit<S>>
    requires Closed(g) && Inside(g, ls, m) && forall i :: 0 <= i < |ls| ==> Fits(g, ls[i])
  {
    if n == 0 then SeenBy(m) else MonitoredPath(g, ls, limit, m, n - 1) + SeenBy(Monitored(g, ls, limit, m, n))
  }

  // ---- lock step -------------------------------------------------------------------------------------------

  /** One step of the code is one step of the monitor, or goes from a header's check to its rest unseen. */
  lemma LockStep<S>(g: Graph<S>, ls: seq<Done>, limit: int, p: Code<S>, bound: nat, m: Monitor<S>, c: Config<S>)
    requires Setting(g, ls, limit, p, bound) && Match(g, ls, limit, m, c)
    ensures var d, r := Step(p, c), Watch(g, ls, limit, m);
            || (Match(g, ls, limit, m, d) && Seen(g, d) == [])
            || (Match(g, ls, limit, r, d) && Seen(g, d) == SeenBy(r))
    ensures var d := Step(p, c);
            m.Watching? ==>
              || (Match(g, ls, limit, Watch(g, ls, limit, m), d) && Seen(g, d) == SeenBy(Watch(g, ls, limit, m)))
              || (PastCheck(g, ls, limit, m, d) && Seen(g, d) == [])
    ensures m.Watching? && PastCheck(g, ls, limit, m, c) ==>
            var d, r := Step(p, c), Watch(g, ls, limit, m); Match(g, ls, limit, r, d) && Seen(g, d) == SeenBy(r)
  {
    hide Step, Watch, Closed, Shape, Fits;
    if m.Watching? {
      var h := HeaderOf(ls, m.at);
      if PastCheck(g, ls, limit, m, c) {
        StepRest(g, ls, limit, p, bound, m, c);
        SeenAlike(g, ls, limit, Watch(g, ls, limit, m), Step(p, c));
      } else if h.Some? && !ls[h.value].broken {
        StepTop(g, ls, limit, p, bound, m, c);
        StepTopUnseen(g, ls, limit, bound, m, Step(p, c));
      } else {
        StepPlain(g, ls, limit, p, bound, m, c);
        SeenAlike(g, ls, limit, Watch(g, ls, limit, m), Step(p, c));
      }
    } else {
      HaltedStep(g, ls, limit, p, bound, m, c);
    }
  }

  lemma SeenAlike<S>(g: Graph<S>, ls: seq<Done>, limit: int, r: Monitor<S>, d: Config<S>)
    requires !r.Stopped? && Match(g, ls, limit, r, d) && (r.Watching? ==> AtBlock(g, ls, r, d))
    ensures Seen(g, d) == SeenBy(r)
  {
  }

  /** Neither the rest of a header nor an exit block belongs to the source. */
  lemma StepTopUnseen<S>(g: Graph<S>, ls: seq<Done>, limit: int, bound: nat, m: Monitor<S>, d: Config<S>)
    requires Ids(g, ls, bound) && Inside(g, ls, m) && m.Watching?
    requires PastCheck(g, ls, limit, m, d)
        || (Watch(g, ls, limit, m).Stopped? && Match(g, ls, limit, Watch(g, ls, limit, m), d))
    ensures Seen(g, d) == []
  {
    hide Watch;
  }

  lemma HaltedStep<S>(g: Graph<S>, ls: seq<Done>, limit: int, p: Code<S>, bound: nat, m: Monitor<S>, c: Config<S>)
    requires Setting(g, ls, limit, p, bound) && Match(g, ls, limit, m, c) && !m.Watching?
    ensures Match(g, ls, limit, m, Step(p, c)) && Seen(g, Step(p, c)) == []
  {
    hide Closed, BlockShape, SplitTop, Shape, Fits, Exec, Branching;
    if m.Stopped? && c.At? {
      ExitStep<S>(c);
      TopOf(g, ls, limit, p, m.loop);
    }
  }

  /** An exit block ends the run. */
  lemma ExitStep<S>(c: Config<S>)
    requires c.At?
    ensures Branching(SilentExit, c.at, Exec([], c.st.(s := Phi(map[], c.prev, c.st.s)))).Exited?
  {
    ExecNone(c.st.(s := Phi(map[], c.prev, c.st.s)));
  }

  lemma MatchInside<S>(g: Graph<S>, ls: seq<Done>, limit: int, m: Monitor<S>, c: Config<S>)
    requires Match(g, ls, limit, m, c)
    ensures Inside(g, ls, m)
  {
  }

  /** Every erased path of the code is a path of the monitor. */
  lemma {:induction false} ErasedIsMonitored<S>(g: Graph<S>, ls: seq<Done>, limit: int, p: Code<S>, bound: nat,
      m: Monitor<S>, c: Config<S>, k: nat)
      returns (n: nat)
    requires Setting(g, ls, limit, p, bound) && Match(g, ls, limit, m, c) && Seen(g, c) == SeenBy(m)
    ensures n <= k && Match(g, ls, limit, Monitored(g, ls, limit, m, n), Instrumented(p, c, k))
    ensures ErasedPath(g, p, c, k) == MonitoredPath(g, ls, limit, m, n)
  {
    hide Step, Watch, Closed, Shape, Fits, Match, Ids, Seen, SeenBy;
    MatchInside(g, ls, limit, m, c);
    if k == 0 {
      n := 0;
    } else {
      n := ErasedIsMonitored(g, ls, limit, p, bound, m, c, k - 1);
      var before := Monitored(g, ls, limit, m, n);
      LockStep(g, ls, limit, p, bound, before, Instrumented(p, c, k - 1));
      if Match(g, ls, limit, before, Instrumented(p, c, k)) && Seen(g, Instrumented(p, c, k)) == [] {
      } else {
        n := n + 1;
        assert Monitored(g, ls, limit, m, n) == Watch(g, ls, limit, before);
      }
    }
  }

  /** Every path of the monitor is an erased path of the code. */
  lemma {:induction false} MonitoredIsErased<S>(g: Graph<S>, ls: seq<Done>, limit: int, p: Code<S>, bound: nat,
      m: Monitor<S>, c: Config<S>, n: nat)
      returns (k: nat)
    requires Setting(g, ls, limit, p, bound) && Match(g, ls, limit, m, c) && Seen(g, c) == SeenBy(m)
    ensures Match(g, ls, limit, Monitored(g, ls, limit, m, n), Instrumented(p, c, k))
    ensures ErasedPath(g, p, c, k) == MonitoredPath(g, ls, limit, m, n)
  {
    hide Step, Watch, Closed, Shape, Fits, Match, Ids, Seen, SeenBy, PastCheck;
    MatchInside(g, ls, limit, m, c);
    if n == 0 {
      k := 0;
    } else {
      k := MonitoredIsErased(g, ls, limit, p, bound, m, c, n - 1);
      var before := Monitored(g, ls, limit, m, n - 1);
      if before.Watching? {
        k := Advance(g, ls, limit, p, bound, before, c, k);
      } else {
        Halted(g, ls, limit, before);
      }
    }
  }

  /** The code catches up with a step of the monitor in one step or two. */
  lemma Advance<S>(g: Graph<S>, ls: seq<Done>, limit: int, p: Code<S>, bound: nat, before: Monitor<S>, c: Config<S>,
      k0: nat) returns (k: nat)
    requires Setting(g, ls, limit, p, bound) && before.Watching? && Match(g, ls, limit, before, Instrumented(p, c, k0))
    ensures Match(g, ls, limit, Watch(g, ls, limit, before), Instrumented(p, c, k))
    ensures ErasedPath(g, p, c, k) == ErasedPath(g, p, c, k0) + SeenBy(Watch(g, ls, limit, before))
  {
    hide Step, Watch, Closed, Shape, Fits, Ids, Seen, SeenBy, PastCheck;
    k := k0 + 1;
    LockStep(g, ls, limit, p, bound, before, Instrumented(p, c, k0));
    if !(Match(g, ls, limit, Watch(g, ls, limit, before), Instrumented(p, c, k))
         && Seen(g, Instrumented(p, c, k)) == SeenBy(Watch(g, ls, limit, before))) {
      k := k + 1;
      LockStep(g, ls, limit, p, bound, before, Instrumented(p, c, k - 1));
      assert ErasedPath(g, p, c, k - 1) == ErasedPath(g, p, c, k0);
    }
  }

  lemma Halted<S>(g: Graph<S>, ls: seq<Done>, limit: int, m: Monitor<S>)
    requires !m.Watching?
    ensures Watch(g, ls, limit, m) == m && SeenBy(m) == []
  {
  }

  // ---- the monitored run and the original run ------------------------------------------------------------

  ghost predicate AllSplit(ls: seq<Done>) {
    forall i :: 0 <= i < |ls| ==> !ls[i].broken
  }

  /** Without break mode the monitor runs the original until it stops. */
  lemma {:induction false} MonitoredIsPrefix<S>(g: Graph<S>, ls: seq<Done>, limit: int, entry: nat, s: S,
      counts: seq<int>, n: nat)
    requires Closed(g) && entry in g && |counts| == |ls| && AllSplit(ls) && forall i :: 0 <= i < |ls| ==> Fits(g, ls[i])
    ensures var m0, r0 := Watching(None, entry, s, counts), Start(entry, s);
            var m, r := Monitored(g, ls, limit, m0, n), Original(g, r0, n);
            && MonitoredPath(g, ls, limit, m0, n) <= OriginalPath(g, r0, n)
            && (!m.Stopped? ==> MonitoredPath(g, ls, limit, m0, n) == OriginalPath(g, r0, n))
            && (m.Watching? ==> r == Run.Run(m.prev, m.at, m.s))
            && (m.Finished? ==> r == Over(m.s))
  {
    hide Closed, Fits;
    if n > 0 {
      MonitoredIsPrefix(g, ls, limit, entry, s, counts, n - 1);
    }
  }

  // ---- what a path has done since the preheader --------------------------------------------------------------

  /** How many steps of a kind the path has taken since block p last ran. */
  function Taken<S>(t: seq<Visit<S>>, p: nat, kind: (nat, nat) -> bool): nat {
    if |t| < 2 then 0
    else
      var before, now := t[|t| - 2].at, t[|t| - 1].at;
      if before == p then 0 else Taken(t[..|t| - 1], p, kind) + (if kind(before, now) then 1 else 0)
  }

  /** Back to the header. */
  function BackEdges<S>(t: seq<Visit<S>>, d: Done): nat {
    Taken(t, d.preheader, (before, now) => now == d.header)
  }

  /** Out of a latch, wherever it goes. */
  function LatchRuns<S>(t: seq<Visit<S>>, d: Done): nat {
    Taken(t, d.preheader, (before, now) => before in d.latches)
  }

  /** Out of a latch to a block of the loop other than the header. */
  function Strays<S>(t: seq<Visit<S>>, d: Done): nat {
    Taken(t, d.preheader, (before, now) => before in d.latches && now in d.body && now != d.header)
  }

  /** From the header into the loop. */
  function Entered<S>(t: seq<Visit<S>>, d: Done): nat {
    Taken(t, d.preheader, (before, now) => before == d.header && now in d.body)
  }

  lemma Longer<S>(t: seq<Visit<S>>, v: Visit<S>, d: Done)
    requires |t| > 0
    ensures var before, now, u := t[|t| - 1].at, v.at, t + [v];
            && LatchRuns(u, d) ==
                 (if before == d.preheader then 0 else LatchRuns(t, d) + (if before in d.latches then 1 else 0))
            && BackEdges(u, d) ==
                 (if before == d.preheader then 0 else BackEdges(t, d) + (if now == d.header then 1 else 0))
            && Strays(u, d) ==
                 (if before == d.preheader then 0
                  else Strays(t, d) + (if before in d.latches && now in d.body && now != d.header then 1 else 0))
            && Entered(u, d) ==
                 (if before == d.preheader then 0
                  else Entered(t, d) + (if before == d.header && now in d.body then 1 else 0))
  {
    assert (t + [v])[..|t|] == t;
  }

  // ---- counting -----------------------------------------------------------------------------------------------

  /** A natural loop of the graph: one way in, through the header, which only the preheader and the latches lead to. */
  ghost predicate Natural<S>(g: Graph<S>, d: Done, entry: nat) {
    && d.header in d.body && d.preheader !in d.body && entry !in d.body
    && (forall l :: l in d.latches ==> l in d.body)
    && (forall b :: b in g ==>
          && (d.header in Targets(g[b].exit) ==> b == d.preheader || b in d.latches)
          && (forall t :: t in Targets(g[b].exit) && t in d.body && t != d.header ==> b in d.body))
  }

  /** The latches go nowhere in the loop but to its header. */
  ghost predicate LatchesLeave<S>(g: Graph<S>, d: Done) {
    forall b :: b in g && b in d.latches ==> forall t :: t in Targets(g[b].exit) && t in d.body ==> t == d.header
  }

  /**
   * Inside a loop the i32 count is the number of latch runs since the preheader, which are its back-edges and the times
   * a latch went on inside. Short of an overflow the back-edges stay within the limit.
   */
  ghost predicate Counts<S>(d: Done, limit: int, at: nat, count: int, path: seq<Visit<S>>) {
    at in d.body ==>
      && count == Wrap(LatchRuns(path, d)) && LatchRuns(path, d) == BackEdges(path, d) + Strays(path, d)
      && Entered(path, d) == BackEdges(path, d) + (if at == d.header then 0 else 1)
      && (LatchRuns(path, d) < 0x8000_0000 ==>
            BackEdges(path, d) <= limit && (at != d.header ==> BackEdges(path, d) < limit))
  }

  lemma WrapNext(x: int)
    ensures Wrap(Wrap(x) + 1) == Wrap(x + 1)
  {
  }

  lemma {:induction false} PathEnds<S>(g: Graph<S>, ls: seq<Done>, limit: int, m: Monitor<S>, n: nat)
    requires Closed(g) && Inside(g, ls, m) && m.Watching? && forall i :: 0 <= i < |ls| ==> Fits(g, ls[i])
    ensures var r, t := Monitored(g, ls, limit, m, n), MonitoredPath(g, ls, limit, m, n);
            |t| > 0 && (r.Watching? ==> |t| == n + 1 && t[n] == Visit(r.at, r.s))
    ensures n > 0 && Monitored(g, ls, limit, m, n).Watching? ==> Monitored(g, ls, limit, m, n - 1).Watching?
  {
    hide Closed, Fits;
    if n > 0 {
      PathEnds(g, ls, limit, m, n - 1);
    }
  }

  /** One step of the monitor keeps the count right. */
  lemma CountStep<S>(g: Graph<S>, ls: seq<Done>, limit: int, m: Monitor<S>, i: nat, entry: nat, path: seq<Visit<S>>)
    requires Closed(g) && Inside(g, ls, m) && m.Watching? && i < |ls| && 0 <= limit < 0x8000_0000
    requires forall j :: 0 <= j < |ls| ==> Fits(g, ls[j])
    requires forall j, k :: 0 <= j < k < |ls| ==> ls[j].header != ls[k].header
    requires Natural(g, ls[i], entry) && |path| > 0 && path[|path| - 1] == Visit(m.at, m.s)
    requires Counts(ls[i], limit, m.at, m.counts[i], path)
    ensures var r := Watch(g, ls, limit, m);
            r.Watching? ==> Counts(ls[i], limit, r.at, r.counts[i], path + [Visit(r.at, r.s)])
  {
    hide Closed, Fits, Taken, BackEdges, LatchRuns, Strays, Entered;
    var r := Watch(g, ls, limit, m);
    if r.Watching? && r.at in ls[i].body {
      var d := ls[i];
      Longer(path, Visit(r.at, r.s), d);
      WrapNext(LatchRuns(path, d));
      assert r.counts[i] == Tick(d, m.at, m.counts[i]);
      NextIsTarget(g, ls, limit, m);
      if m.at == d.header {
        HeaderUnique(ls, i);
        NotFull(g, ls, limit, m, i);
      }
    }
  }

  lemma NextIsTarget<S>(g: Graph<S>, ls: seq<Done>, limit: int, m: Monitor<S>)
    requires m.Watching? && m.at in g && |m.counts| == |ls| && forall j :: 0 <= j < |ls| ==> Fits(g, ls[j])
    ensures var r := Watch(g, ls, limit, m); r.Watching? ==> r.at in Targets(g[m.at].exit) && |r.counts| == |ls|
  {
    SuccessorIsTarget(g[m.at].exit, After(g[m.at], m.prev, m.s));
  }

  /** A loop whose header is passed into the loop is not exhausted. */
  lemma NotFull<S>(g: Graph<S>, ls: seq<Done>, limit: int, m: Monitor<S>, i: nat)
    requires m.Watching? && m.at in g && |m.counts| == |ls| && i < |ls| && HeaderOf(ls, m.at) == Some(i)
        && Fits(g, ls[i])
    ensures var r := Watch(g, ls, limit, m); r.Watching? && r.at in ls[i].body ==> m.counts[i] < limit
  {
  }

  /** The counts of a run, from the entry block on, whatever the counters hold at first. */
  lemma {:induction false} CountsHold<S>(g: Graph<S>, ls: seq<Done>, limit: int, entry: nat, s: S, counts: seq<int>,
      i: nat, n: nat)
    requires Closed(g) && entry in g && |counts| == |ls| && i < |ls| && 0 <= limit < 0x8000_0000
    requires forall j :: 0 <= j < |ls| ==> Fits(g, ls[j])
    requires forall j, k :: 0 <= j < k < |ls| ==> ls[j].header != ls[k].header
    requires Natural(g, ls[i], entry)
    ensures var m0 := Watching(None, entry, s, counts); var m := Monitored(g, ls, limit, m0, n);
            m.Watching? ==> Counts(ls[i], limit, m.at, m.counts[i], MonitoredPath(g, ls, limit, m0, n))
  {
    hide Closed, Fits, Natural, Counts, Watch;
    var m0 := Watching(None, entry, s, counts);
    if n > 0 {
      CountsHold(g, ls, limit, entry, s, counts, i, n - 1);
      PathEnds(g, ls, limit, m0, n - 1);
      PathEnds(g, ls, limit, m0, n);
      var before := Monitored(g, ls, limit, m0, n - 1);
      if before.Watching? {
        CountStep(g, ls, limit, before, i, entry, MonitoredPath(g, ls, limit, m0, n - 1));
      }
    } else {
      AtEntry(g, ls[i], limit, entry, counts[i], s);
    }
  }

  lemma AtEntry<S>(g: Graph<S>, d: Done, limit: int, entry: nat, count: int, s: S)
    requires Natural(g, d, entry)
    ensures Counts(d, limit, entry, count, [Visit(entry, s)])
  {
  }

  lemma WrapIs(x: nat, y: nat)
    ensures Wrap(x + y) == x <==> x < 0x8000_0000 && y % 0x1_0000_0000 == 0
  {
    var z, q := x + y + 0x8000_0000, (x + y + 0x8000_0000) / 0x1_0000_0000;
    assert z == 0x1_0000_0000 * q + z % 0x1_0000_0000;
    if Wrap(x + y) == x {
      assert y == 0x1_0000_0000 * q;
    }
  }

  /** With latches that leave the loop otherwise, the count is the number of back-edges, and at most the limit. */
  lemma {:induction false} LeavingLatchesCount<S>(g: Graph<S>, ls: seq<Done>, limit: int, entry: nat, s: S,
      counts: seq<int>, i: nat, n: nat)
    requires Closed(g) && entry in g && |counts| == |ls| && i < |ls| && 0 <= limit < 0x8000_0000
    requires forall j :: 0 <= j < |ls| ==> Fits(g, ls[j])
    requires forall j, k :: 0 <= j < k < |ls| ==> ls[j].header != ls[k].header
    requires Natural(g, ls[i], entry) && LatchesLeave(g, ls[i])
    ensures var m0 := Watching(None, entry, s, counts); var m := Monitored(g, ls, limit, m0, n);
            var path, d := MonitoredPath(g, ls, limit, m0, n), ls[i];
            m.Watching? && m.at in d.body ==>
              m.counts[i] == BackEdges(path, d) == LatchRuns(path, d) <= limit && Strays(path, d) == 0
  {
    hide Closed, Fits, Watch, Taken, BackEdges, LatchRuns, Strays, Entered;
    var m0, d := Watching(None, entry, s, counts), ls[i];
    CountsHold(g, ls, limit, entry, s, counts, i, n);
    if n > 0 {
      LeavingLatchesCount(g, ls, limit, entry, s, counts, i, n - 1);
      CountsHold(g, ls, limit, entry, s, counts, i, n - 1);
      PathEnds(g, ls, limit, m0, n - 1);
      PathEnds(g, ls, limit, m0, n);
      var before, m := Monitored(g, ls, limit, m0, n - 1), Monitored(g, ls, limit, m0, n);
      if m.Watching? && m.at in d.body {
        Longer(MonitoredPath(g, ls, limit, m0, n - 1), Visit(m.at, m.s), d);
        NextIsTarget(g, ls, limit, before);
        if before.at == d.header {
          HeaderUnique(ls, i);
          NotFull(g, ls, limit, before, i);
        }
      }
    }
  }

  // ---- early stops ----------------------------------------------------------------------------------------------

  /** A graph, its instrumented loops and the code, with everything the loop analysis promises. */
  ghost predicate Analysed<S>(g: Graph<S>, ls: seq<Done>, limit: int, p: Code<S>, bound: nat, entry: nat) {
    && Setting(g, ls, limit, p, bound) && entry in g && 0 <= limit < 0x8000_0000
    && forall i :: 0 <= i < |ls| ==> Natural(g, ls[i], entry)
  }

  /** The code at its entry, with anything in the counters. */
  function Begin<S>(entry: nat, st: State<S>): Config<S> {
    At(None, entry, st)
  }

  function BeginWatch<S>(ls: seq<Done>, entry: nat, st: State<S>): Monitor<S> {
    Watching(None, entry, st.s, seq(|ls|, i requires 0 <= i < |ls| => Get(st.counters, i)))
  }

  lemma Begins<S>(g: Graph<S>, ls: seq<Done>, limit: int, entry: nat, st: State<S>)
    requires entry in g
    ensures Match(g, ls, limit, BeginWatch(ls, entry, st), Begin(entry, st))
    ensures Inside(g, ls, BeginWatch(ls, entry, st))
    ensures Seen(g, Begin(entry, st)) == SeenBy(BeginWatch(ls, entry, st))
  {
  }

  /** A path that ends at the header of loop i with its iterations used up, as the i32 counter has it. */
  ghost predicate UsedUp<S>(ls: seq<Done>, limit: int, i: nat, path: seq<Visit<S>>) {
    && i < |ls| && |path| > 0 && path[|path| - 1].at == ls[i].header
    && Wrap(LatchRuns(path, ls[i])) >= limit
  }

  lemma HeadersDistinct<S>(g: Graph<S>, ls: seq<Done>, bound: nat)
    requires Ids(g, ls, bound)
    ensures forall j, k :: 0 <= j < k < |ls| ==> ls[j].header != ls[k].header
  {
  }

  lemma HeaderInside<S>(g: Graph<S>, d: Done, entry: nat)
    requires Natural(g, d, entry)
    ensures d.header in d.body
  {
  }

  /**
   * Anywhere inside a loop of a run, the count is the number of back-edges exactly when no latch has gone on inside the
   * loop since the preheader; without a bound on the latch runs, exactly when that happened a multiple of 2^32 times
   * and the back-edges fit an i32.
   */
  lemma CountIsBackEdgesExactlyWhen<S>(g: Graph<S>, ls: seq<Done>, limit: int, p: Code<S>, bound: nat, entry: nat,
      st: State<S>, i: nat, n: nat)
    requires Analysed(g, ls, limit, p, bound, entry) && i < |ls|
    ensures Inside(g, ls, BeginWatch(ls, entry, st))
    ensures var m0 := BeginWatch(ls, entry, st);
            var m, path, d := Monitored(g, ls, limit, m0, n), MonitoredPath(g, ls, limit, m0, n), ls[i];
            m.Watching? && m.at in d.body ==>
              && m.counts[i] == Wrap(LatchRuns(path, d)) && LatchRuns(path, d) == BackEdges(path, d) + Strays(path, d)
              && (m.counts[i] == BackEdges(path, d) <==>
                  BackEdges(path, d) < 0x8000_0000 && Strays(path, d) % 0x1_0000_0000 == 0)
              && (LatchRuns(path, d) < 0x8000_0000 ==> (m.counts[i] == BackEdges(path, d) <==> Strays(path, d) == 0))
  {
    hide Closed, Fits, Natural, Shape, Ids, BackEdges, Strays, LatchRuns, Entered, Monitored, MonitoredPath;
    Begins(g, ls, limit, entry, st);
    HeadersDistinct(g, ls, bound);
    var m0 := BeginWatch(ls, entry, st);
    CountsHold(g, ls, limit, entry, st.s, m0.counts, i, n);
    var path := MonitoredPath(g, ls, limit, m0, n);
    WrapIs(BackEdges(path, ls[i]), Strays(path, ls[i]));
  }

  /** At a header the count tells whether the iterations are used up. */
  lemma FullAtHeader<S>(g: Graph<S>, ls: seq<Done>, limit: int, p: Code<S>, bound: nat, entry: nat, st: State<S>,
      i: nat, n: nat)
    requires Analysed(g, ls, limit, p, bound, entry) && i < |ls|
    ensures Inside(g, ls, BeginWatch(ls, entry, st))
    ensures var m0 := BeginWatch(ls, entry, st);
            var m, path := Monitored(g, ls, limit, m0, n), MonitoredPath(g, ls, limit, m0, n);
            m.Watching? && m.at == ls[i].header ==>
              (UsedUp(ls, limit, i, path) <==> m.counts[i] >= limit) && HeaderOf(ls, m.at) == Some(i)
  {
    hide Closed, Fits, Natural, Shape, Watch, Ids, LatchRuns, Strays, BackEdges, Entered;
    Begins(g, ls, limit, entry, st);
    HeadersDistinct(g, ls, bound);
    HeaderUnique(ls, i);
    HeaderInside(g, ls[i], entry);
    CountsHold(g, ls, limit, entry, st.s, BeginWatch(ls, entry, st).counts, i, n);
    PathEnds(g, ls, limit, BeginWatch(ls, entry, st), n);
  }

  /** The monitor stops only at a header whose loop has used up its iterations. */
  lemma {:induction false} StopsUsedUp<S>(g: Graph<S>, ls: seq<Done>, limit: int, p: Code<S>, bound: nat, entry: nat,
      st: State<S>, n: nat)
    requires Analysed(g, ls, limit, p, bound, entry)
    ensures Inside(g, ls, BeginWatch(ls, entry, st))
    ensures var m0 := BeginWatch(ls, entry, st);
            var m, path := Monitored(g, ls, limit, m0, n), MonitoredPath(g, ls, limit, m0, n);
            m.Stopped? ==> CutShort(g, ls, limit, path)
  {
    hide Closed, Fits, Natural, Shape, Watch, UsedUp, Measured;
    Begins(g, ls, limit, entry, st);
    var m0 := BeginWatch(ls, entry, st);
    if n > 0 {
      StopsUsedUp(g, ls, limit, p, bound, entry, st, n - 1);
      var m, r := Monitored(g, ls, limit, m0, n - 1), Monitored(g, ls, limit, m0, n);
      if m.Watching? && r.Stopped? {
        StopAtHeader(g, ls, limit, m);
        FullAtHeader(g, ls, limit, p, bound, entry, st, r.loop, n - 1);
        MeasuredAt(g, ls, limit, p, bound, entry, st, r.loop, n - 1);
        assert MonitoredPath(g, ls, limit, m0, n) == MonitoredPath(g, ls, limit, m0, n - 1);
      } else if !m.Watching? {
        Halted(g, ls, limit, m);
        assert MonitoredPath(g, ls, limit, m0, n) == MonitoredPath(g, ls, limit, m0, n - 1);
      }
    }
  }

  /**
   * At a header: the latch runs are the back-edges and the times a latch went on inside, of which there are none if the
   * latches leave the loop otherwise.
   */
  ghost predicate Measured<S>(g: Graph<S>, d: Done, limit: int, path: seq<Visit<S>>) {
    && LatchRuns(path, d) == BackEdges(path, d) + Strays(path, d)
    && (LatchesLeave(g, d) ==> Strays(path, d) == 0 && BackEdges(path, d) <= limit)
  }

  /** A path that ends at the header of a loop with its iterations used up. */
  ghost predicate CutShort<S>(g: Graph<S>, ls: seq<Done>, limit: int, path: seq<Visit<S>>) {
    exists i: nat :: UsedUp(ls, limit, i, path) && Measured(g, ls[i], limit, path)
  }

  lemma MeasuredAt<S>(g: Graph<S>, ls: seq<Done>, limit: int, p: Code<S>, bound: nat, entry: nat, st: State<S>,
      i: nat, n: nat)
    requires Analysed(g, ls, limit, p, bound, entry) && i < |ls|
    ensures Inside(g, ls, BeginWatch(ls, entry, st))
    ensures var m0 := BeginWatch(ls, entry, st); var m := Monitored(g, ls, limit, m0, n);
            m.Watching? && m.at == ls[i].header ==> Measured(g, ls[i], limit, MonitoredPath(g, ls, limit, m0, n))
  {
    hide Closed, Fits, Natural, Shape, Watch, Ids, LatchesLeave, LatchRuns, Strays, BackEdges, Entered;
    Begins(g, ls, limit, entry, st);
    HeadersDistinct(g, ls, bound);
    HeaderInside(g, ls[i], entry);
    var counts := BeginWatch(ls, entry, st).counts;
    CountsHold(g, ls, limit, entry, st.s, counts, i, n);
    if LatchesLeave(g, ls[i]) {
      LeavingLatchesCount(g, ls, limit, entry, st.s, counts, i, n);
    }
  }

  lemma StopAtHeader<S>(g: Graph<S>, ls: seq<Done>, limit: int, m: Monitor<S>)
    requires m.Watching? && m.at in g && |m.counts| == |ls|
    ensures var r := Watch(g, ls, limit, m);
            r.Stopped? ==> r.loop < |ls| && m.at == ls[r.loop].header && m.counts[r.loop] >= limit
    ensures !Watch(g, ls, limit, m).Stopped? || HeaderOf(ls, m.at).Some?
  {
  }

  /** The step of the original that step k of the code has come to. */
  lemma SafeTrace<S>(g: Graph<S>, ls: seq<Done>, limit: int, p: Code<S>, bound: nat, entry: nat, st: State<S>, k: nat)
      returns (n: nat)
    requires Analysed(g, ls, limit, p, bound, entry) && AllSplit(ls)
    ensures var path, c := ErasedPath(g, p, Begin(entry, st), k), Instrumented(p, Begin(entry, st), k);
            var full, r := OriginalPath(g, Start(entry, st.s), n), Original(g, Start(entry, st.s), n);
            && n <= k && path <= full && (c.Returned? ==> path == full && r == Over(c.st.s))
            && (c.Exited? ==> CutShort(g, ls, limit, path))
  {
    hide Shape, Ids, Natural, Closed, Fits, CutShort, Match, Original, OriginalPath, Instrumented, ErasedPath;
    hide Monitored, MonitoredPath;
    var m0 := BeginWatch(ls, entry, st);
    Begins(g, ls, limit, entry, st);
    n := ErasedIsMonitored(g, ls, limit, p, bound, m0, Begin(entry, st), k);
    MatchEnds(g, ls, limit, Monitored(g, ls, limit, m0, n), Instrumented(p, Begin(entry, st), k));
    MonitoredIsPrefix(g, ls, limit, entry, st.s, m0.counts, n);
    StopsUsedUp(g, ls, limit, p, bound, entry, st, n);
  }

  /**
   * Split mode, safety: with counters and added blocks erased, any run of the instrumented code is a prefix of the
   * original run from the same state. It returns only where the original does, in the same state, and it exits silently
   * only at a header whose latches have run limit times since the preheader.
   */
  lemma SplitModeSafety<S>(g: Graph<S>, ls: seq<Done>, limit: int, p: Code<S>, bound: nat, entry: nat, st: State<S>,
      k: nat)
    requires Analysed(g, ls, limit, p, bound, entry) && AllSplit(ls)
    ensures var path, c := ErasedPath(g, p, Begin(entry, st), k), Instrumented(p, Begin(entry, st), k);
            && (exists n: nat :: n <= k && path <= OriginalPath(g, Start(entry, st.s), n))
            && (c.Returned? ==> exists n: nat :: n <= k && path == OriginalPath(g, Start(entry, st.s), n)
                                  && Original(g, Start(entry, st.s), n) == Over(c.st.s))
            && (c.Exited? ==> CutShort(g, ls, limit, path))
  {
    hide *;
    var n := SafeTrace(g, ls, limit, p, bound, entry, st, k);
  }

  /** Code that has ended tells how the monitor has. */
  lemma MatchEnds<S>(g: Graph<S>, ls: seq<Done>, limit: int, m: Monitor<S>, c: Config<S>)
    requires Match(g, ls, limit, m, c)
    ensures c.Returned? ==> m == Finished(c.st.s)
    ensures c.Exited? ==> m.Stopped?
  {
  }

  /** In terms of back-edges: limit of them if the latches leave the loop otherwise, else at least limit minus strays. */
  lemma UsedUpBackEdges<S>(g: Graph<S>, ls: seq<Done>, limit: int, i: nat, path: seq<Visit<S>>)
    requires UsedUp(ls, limit, i, path) && Measured(g, ls[i], limit, path) && 0 <= limit < 0x8000_0000
    ensures BackEdges(path, ls[i]) + Strays(path, ls[i]) >= limit
    ensures LatchesLeave(g, ls[i]) ==> BackEdges(path, ls[i]) == limit
  {
    hide BackEdges, Strays, LatchRuns, LatchesLeave;
    var n := LatchRuns(path, ls[i]);
    assert Wrap(n) <= n;
  }

  // ---- runs below the limit --------------------------------------------------------------------------------------

  /** The original run, up to step n, never meets a header whose loop has used up its iterations. */
  ghost predicate StaysBelow<S>(g: Graph<S>, ls: seq<Done>, limit: int, r: Run<S>, n: nat) {
    forall k, i :: 0 <= k < n && 0 <= i < |ls| && Original(g, r, k).Run? && Original(g, r, k).at == ls[i].header ==>
      !UsedUp(ls, limit, i, OriginalPath(g, r, k))
  }

  /** The monitor has run the original so far. */
  ghost predicate Alike<S>(g: Graph<S>, ls: seq<Done>, limit: int, entry: nat, st: State<S>, n: nat) {
    var m0, r0 := BeginWatch(ls, entry, st), Start(entry, st.s);
    Closed(g) && Inside(g, ls, m0) && (forall i :: 0 <= i < |ls| ==> Fits(g, ls[i])) &&
    var m, r := Monitored(g, ls, limit, m0, n), Original(g, r0, n);
    && !m.Stopped? && MonitoredPath(g, ls, limit, m0, n) == OriginalPath(g, r0, n)
    && (m.Watching? ==> r == Run.Run(m.prev, m.at, m.s))
    && (m.Finished? ==> r == Over(m.s))
  }

  /** In either mode a block whose loop is not exhausted is left as in the original. */
  lemma WatchIsRun<S>(g: Graph<S>, ls: seq<Done>, limit: int, m: Monitor<S>)
    requires m.Watching? && m.at in g && |m.counts| == |ls| && !Exhausted(ls, limit, m.at, m.counts)
    ensures var w, r := Watch(g, ls, limit, m), RunStep(g, Run.Run(m.prev, m.at, m.s));
            && !w.Stopped? && (w.Watching? ==> r == Run.Run(w.prev, w.at, w.s)) && (w.Finished? ==> r == Over(w.s))
  {
  }

  lemma {:induction false} BelowIsAlike<S>(g: Graph<S>, ls: seq<Done>, limit: int, p: Code<S>, bound: nat,
      entry: nat, st: State<S>, n: nat)
    requires Analysed(g, ls, limit, p, bound, entry)
    requires StaysBelow(g, ls, limit, Start(entry, st.s), n)
    ensures Alike(g, ls, limit, entry, st, n)
  {
    hide Closed, Fits, Natural, Shape, Watch, Ids, UsedUp, Exhausted, RunStep;
    Begins(g, ls, limit, entry, st);
    var m0 := BeginWatch(ls, entry, st);
    if n > 0 {
      BelowIsAlike(g, ls, limit, p, bound, entry, st, n - 1);
      var m := Monitored(g, ls, limit, m0, n - 1);
      if m.Watching? {
        BelowNotFull(g, ls, limit, p, bound, entry, st, n);
        WatchIsRun(g, ls, limit, m);
      } else {
        Halted(g, ls, limit, m);
        OverStays(g, Original(g, Start(entry, st.s), n - 1));
      }
    }
  }

  lemma OverStays<S>(g: Graph<S>, r: Run<S>)
    ensures r.Over? ==> RunStep(g, r) == r
  {
  }

  lemma BelowNotFull<S>(g: Graph<S>, ls: seq<Done>, limit: int, p: Code<S>, bound: nat, entry: nat, st: State<S>,
      n: nat)
    requires Analysed(g, ls, limit, p, bound, entry) && n > 0 && Alike(g, ls, limit, entry, st, n - 1)
    requires StaysBelow(g, ls, limit, Start(entry, st.s), n)
    ensures var m := Monitored(g, ls, limit, BeginWatch(ls, entry, st), n - 1);
            m.Watching? ==> !Exhausted(ls, limit, m.at, m.counts)
  {
    hide Closed, Fits, Natural, Shape, Watch, Ids, UsedUp, RunStep;
    var m := Monitored(g, ls, limit, BeginWatch(ls, entry, st), n - 1);
    if m.Watching? && HeaderOf(ls, m.at).Some? {
      var i := HeaderOf(ls, m.at).value;
      FullAtHeader(g, ls, limit, p, bound, entry, st, i, n - 1);
      assert Original(g, Start(entry, st.s), n - 1).at == ls[i].header;
    }
  }

  /**
   * Completeness, in either mode: an original run that never meets a header with its iterations used up is reproduced
   * in full, to the same final state.
   */
  lemma Completeness<S>(g: Graph<S>, ls: seq<Done>, limit: int, p: Code<S>, bound: nat, entry: nat,
      st: State<S>, n: nat)
      returns (k: nat)
    requires Analysed(g, ls, limit, p, bound, entry)
    requires StaysBelow(g, ls, limit, Start(entry, st.s), n)
    ensures ErasedPath(g, p, Begin(entry, st), k) == OriginalPath(g, Start(entry, st.s), n)
    ensures Original(g, Start(entry, st.s), n).Over? ==>
              Instrumented(p, Begin(entry, st), k).Returned?
              && Instrumented(p, Begin(entry, st), k).st.s == Original(g, Start(entry, st.s), n).s
  {
    hide Shape, Ids, Natural, Closed, Fits, StaysBelow;
    Begins(g, ls, limit, entry, st);
    BelowIsAlike(g, ls, limit, p, bound, entry, st, n);
    k := MonitoredIsErased(g, ls, limit, p, bound, BeginWatch(ls, entry, st), Begin(entry, st), n);
  }

  /** The original run, up to step n, never comes to a header by a back-edge once it has taken limit of them. */
  ghost predicate FewBackEdges<S>(g: Graph<S>, ls: seq<Done>, limit: int, r: Run<S>, n: nat) {
    forall k, i :: 0 <= k < n && 0 <= i < |ls| && Original(g, r, k).Run? && Original(g, r, k).at == ls[i].header ==>
      BackEdges(OriginalPath(g, r, k), ls[i]) < limit
  }

  /** With latches that leave their loops otherwise, fewer than limit back-edges in every loop keep a run below. */
  lemma {:induction false} FewStaysBelow<S>(g: Graph<S>, ls: seq<Done>, limit: int, p: Code<S>, bound: nat,
      entry: nat, st: State<S>, n: nat)
    requires Analysed(g, ls, limit, p, bound, entry) && forall i :: 0 <= i < |ls| ==> LatchesLeave(g, ls[i])
    requires FewBackEdges(g, ls, limit, Start(entry, st.s), n)
    ensures StaysBelow(g, ls, limit, Start(entry, st.s), n)
  {
    hide Analysed, LatchesLeave, BackEdges, Original, OriginalPath, UsedUp, Alike;
    if n > 0 {
      FewStaysBelow(g, ls, limit, p, bound, entry, st, n - 1);
      BelowIsAlike(g, ls, limit, p, bound, entry, st, n - 1);
      var r := Original(g, Start(entry, st.s), n - 1);
      forall i | 0 <= i < |ls| && r.Run? && r.at == ls[i].header
        ensures !UsedUp(ls, limit, i, OriginalPath(g, Start(entry, st.s), n - 1)) {
        FewAtHeader(g, ls, limit, p, bound, entry, st, i, n - 1);
      }
    }
  }

  lemma FewAtHeader<S>(g: Graph<S>, ls: seq<Done>, limit: int, p: Code<S>, bound: nat, entry: nat, st: State<S>,
      i: nat, n: nat)
    requires Analysed(g, ls, limit, p, bound, entry) && Alike(g, ls, limit, entry, st, n) && i < |ls|
    requires LatchesLeave(g, ls[i])
    requires var r := Original(g, Start(entry, st.s), n); r.Run? && r.at == ls[i].header
    requires BackEdges(OriginalPath(g, Start(entry, st.s), n), ls[i]) < limit
    ensures !UsedUp(ls, limit, i, OriginalPath(g, Start(entry, st.s), n))
  {
    hide Closed, Fits, Natural, Shape, Ids, LatchesLeave, BackEdges, LatchRuns, Strays, Original, OriginalPath;
    hide Monitored, MonitoredPath;
    HeadersDistinct(g, ls, bound);
    HeaderInside(g, ls[i], entry);
    LeavingLatchesCount(g, ls, limit, entry, st.s, BeginWatch(ls, entry, st).counts, i, n);
  }

  /** Split mode cuts no other runs: the monitor has stopped by step n exactly when the original did not stay below. */
  lemma {:induction false} CutExactlyWhen<S>(g: Graph<S>, ls: seq<Done>, limit: int, p: Code<S>, bound: nat,
      entry: nat, st: State<S>, n: nat)
    requires Analysed(g, ls, limit, p, bound, entry) && AllSplit(ls)
    ensures Inside(g, ls, BeginWatch(ls, entry, st))
    ensures Monitored(g, ls, limit, BeginWatch(ls, entry, st), n).Stopped?
       <==> !StaysBelow(g, ls, limit, Start(entry, st.s), n)
  {
    hide Closed, Fits, Natural, Shape, Watch, Ids, UsedUp, RunStep;
    Begins(g, ls, limit, entry, st);
    var m0, r0 := BeginWatch(ls, entry, st), Start(entry, st.s);
    if StaysBelow(g, ls, limit, r0, n) {
      BelowIsAlike(g, ls, limit, p, bound, entry, st, n);
    } else {
      CutExactlyWhen(g, ls, limit, p, bound, entry, st, n - 1);
      var m := Monitored(g, ls, limit, m0, n - 1);
      if m.Stopped? {
        Halted(g, ls, limit, m);
      } else {
        MonitoredIsPrefix(g, ls, limit, entry, st.s, m0.counts, n - 1);
        var i :| 0 <= i < |ls| && Original(g, r0, n - 1).Run? && Original(g, r0, n - 1).at == ls[i].header
              && UsedUp(ls, limit, i, OriginalPath(g, r0, n - 1));
        FullAtHeader(g, ls, limit, p, bound, entry, st, i, n - 1);
        FullStops(g, ls, limit, m, i);
      }
    }
  }

  lemma FullStops<S>(g: Graph<S>, ls: seq<Done>, limit: int, m: Monitor<S>, i: nat)
    requires m.Watching? && m.at in g && |m.counts| == |ls| && i < |ls| && HeaderOf(ls, m.at) == Some(i)
    requires m.counts[i] >= limit && !ls[i].broken
    ensures Watch(g, ls, limit, m).Stopped?
  {
  }

  lemma ExitCuts<S>(g: Graph<S>, ls: seq<Done>, limit: int, p: Code<S>, bound: nat, entry: nat, st: State<S>, k: nat)
      returns (n: nat)
    requires Analysed(g, ls, limit, p, bound, entry) && AllSplit(ls)
    requires Instrumented(p, Begin(entry, st), k).Exited?
    ensures !StaysBelow(g, ls, limit, Start(entry, st.s), n)
  {
    hide Shape, Ids, Natural, Closed, Fits, StaysBelow, Match, Instrumented, ErasedPath, MonitoredPath, Monitored;
    var m0 := BeginWatch(ls, entry, st);
    Begins(g, ls, limit, entry, st);
    n := ErasedIsMonitored(g, ls, limit, p, bound, m0, Begin(entry, st), k);
    MatchEnds(g, ls, limit, Monitored(g, ls, limit, m0, n), Instrumented(p, Begin(entry, st), k));
    CutExactlyWhen(g, ls, limit, p, bound, entry, st, n);
  }

  lemma CutExits<S>(g: Graph<S>, ls: seq<Done>, limit: int, p: Code<S>, bound: nat, entry: nat, st: State<S>, n: nat)
      returns (k: nat)
    requires Analysed(g, ls, limit, p, bound, entry) && AllSplit(ls)
    requires !StaysBelow(g, ls, limit, Start(entry, st.s), n)
    ensures Instrumented(p, Begin(entry, st), k).Exited?
  {
    hide Shape, Ids, Natural, Closed, Fits, StaysBelow, Match, ErasedPath, MonitoredPath, Monitored, Step;
    var m0 := BeginWatch(ls, entry, st);
    Begins(g, ls, limit, entry, st);
    CutExactlyWhen(g, ls, limit, p, bound, entry, st, n);
    k := MonitoredIsErased(g, ls, limit, p, bound, m0, Begin(entry, st), n);
    StoppedExits(g, ls, limit, p, bound, Monitored(g, ls, limit, m0, n), Instrumented(p, Begin(entry, st), k));
    if !Instrumented(p, Begin(entry, st), k).Exited? {
      k := k + 1;
    }
  }

  lemma StoppedExits<S>(g: Graph<S>, ls: seq<Done>, limit: int, p: Code<S>, bound: nat, m: Monitor<S>, c: Config<S>)
    requires Setting(g, ls, limit, p, bound) && Match(g, ls, limit, m, c) && m.Stopped?
    ensures c.Exited? || Step(p, c).Exited?
  {
    hide Closed, BlockShape, SplitTop, Shape, Fits, Exec, Branching;
    if c.At? {
      ExitStep<S>(c);
      TopOf(g, ls, limit, p, m.loop);
    }
  }

  /** Split mode: the code exits silently exactly when the original comes to a header with its iterations used up. */
  lemma ExitsExactlyWhen<S>(g: Graph<S>, ls: seq<Done>, limit: int, p: Code<S>, bound: nat, entry: nat, st: State<S>)
    requires Analysed(g, ls, limit, p, bound, entry) && AllSplit(ls)
    ensures (exists k: nat :: Instrumented(p, Begin(entry, st), k).Exited?)
       <==> (exists n: nat :: !StaysBelow(g, ls, limit, Start(entry, st.s), n))
  {
    hide *;
    if k: nat :| Instrumented(p, Begin(entry, st), k).Exited? {
      var n := ExitCuts(g, ls, limit, p, bound, entry, st, k);
    }
    if n: nat :| !StaysBelow(g, ls, limit, Start(entry, st.s), n) {
      var k := CutExits(g, ls, limit, p, bound, entry, st, n);
    }
  }

  // ---- how often a loop is gone into -----------------------------------------------------------------------------

  /** Somewhere on the path the latch runs no longer fit an i32. */
  ghost predicate Overflows<S>(path: seq<Visit<S>>, d: Done) {
    exists j :: 0 <= j <= |path| && LatchRuns(path[..j], d) >= 0x8000_0000
  }

  lemma {:induction false} EnteredBounded<S>(g: Graph<S>, ls: seq<Done>, limit: int, p: Code<S>, bound: nat,
      entry: nat, st: State<S>, i: nat, n: nat)
    requires Analysed(g, ls, limit, p, bound, entry) && i < |ls|
    ensures Inside(g, ls, BeginWatch(ls, entry, st))
    ensures var path := MonitoredPath(g, ls, limit, BeginWatch(ls, entry, st), n);
            LatchesLeave(g, ls[i]) || !Overflows(path, ls[i]) ==> Entered(path, ls[i]) <= limit
  {
    hide Closed, Fits, Natural, Shape, Watch, LatchesLeave, BackEdges, LatchRuns, Strays, Entered, Taken;
    Begins(g, ls, limit, entry, st);
    var m0, d := BeginWatch(ls, entry, st), ls[i];
    var t := MonitoredPath(g, ls, limit, m0, n);
    if n == 0 {
      assert Entered(t, d) == 0 by { EnteredNone(t, d); }
    } else if LatchesLeave(g, d) || !Overflows(t, d) {
      var u, m := MonitoredPath(g, ls, limit, m0, n - 1), Monitored(g, ls, limit, m0, n);
      PathEnds(g, ls, limit, m0, n - 1);
      PathEnds(g, ls, limit, m0, n);
      if !Overflows(t, d) {
        StillFits(u, t, d);
      }
      EnteredBounded(g, ls, limit, p, bound, entry, st, i, n - 1);
      if m.Watching? {
        HeadersDistinct(g, ls, bound);
        Longer(u, Visit(m.at, m.s), d);
        CountsHold(g, ls, limit, entry, st.s, m0.counts, i, n);
        if LatchesLeave(g, d) {
          LeavingLatchesCount(g, ls, limit, entry, st.s, m0.counts, i, n);
        }
        assert t[..|t|] == t;
      } else {
        assert t == u;
      }
    }
  }

  lemma EnteredNone<S>(t: seq<Visit<S>>, d: Done)
    ensures |t| < 2 ==> Entered(t, d) == 0
  {
  }

  lemma StillFits<S>(u: seq<Visit<S>>, t: seq<Visit<S>>, d: Done)
    requires u <= t && !Overflows(t, d)
    ensures !Overflows(u, d)
  {
    hide LatchRuns;
    forall j | 0 <= j <= |u| ensures LatchRuns(u[..j], d) < 0x8000_0000 {
      assert u[..j] == t[..j];
    }
  }

  /**
   * Either mode: between two runs of the preheader a loop is gone into from its header at most limit times, whatever
   * the original would do, as long as the latch runs fit an i32 or the latches leave the loop otherwise.
   */
  lemma EnteredAtMost<S>(g: Graph<S>, ls: seq<Done>, limit: int, p: Code<S>, bound: nat, entry: nat, st: State<S>,
      i: nat, k: nat)
    requires Analysed(g, ls, limit, p, bound, entry) && i < |ls|
    ensures var path := ErasedPath(g, p, Begin(entry, st), k);
            Entered(path, ls[i]) <= limit || (Overflows(path, ls[i]) && !LatchesLeave(g, ls[i]))
  {
    hide Shape, Ids, Natural, Closed, Fits, Entered, Overflows, LatchesLeave;
    Begins(g, ls, limit, entry, st);
    var n := ErasedIsMonitored(g, ls, limit, p, bound, BeginWatch(ls, entry, st), Begin(entry, st), k);
    EnteredBounded(g, ls, limit, p, bound, entry, st, i, n);
  }

  // ---- the pass and its theorems ---------------------------------------------------------------------------------

  /** What the pass leaves is code to which the theorems apply; without break mode every loop is split. */
  lemma PassResult<S>(l: LoopLimiter<S>, entry: nat)
    requires l.Valid() && l.Recorded() && Closed(l.g) && entry in l.g && 0 <= l.limit < 0x8000_0000
    requires forall i :: 0 <= i < |l.done| ==> Natural(l.g, l.done[i], entry)
    ensures Analysed(l.g, l.done, l.limit, l.code, l.next, entry)
    ensures !l.breakMode ==> AllSplit(l.done)
  {
    hide Natural, Closed, Shape, Ids, Bounded, Fits;
    forall i | 0 <= i < |l.done| ensures Fits(l.g, l.done[i]) && (!l.breakMode ==> !l.done[i].broken) {
      BehindFits(l.g, l.origin[i], l.done[i], l.breakMode);
    }
  }

  /**
   * Every loop of the function that has a preheader and a latch, at any depth, is bounded in the code: between two runs
   * of its preheader it is gone into from its header at most limit times, under the conditions of EnteredAtMost.
   */
  lemma EveryLoopBounded<S>(l: LoopLimiter<S>, forest: Forest, x: Loop, entry: nat, st: State<S>, k: nat)
      returns (i: nat)
    requires Analysed(l.g, l.done, l.limit, l.code, l.next, entry)
    requires forall y :: y in l.origin <==> Within(forest, y) && y.preheader.Some? && y.latches != []
    requires |l.done| == |l.origin| && forall j :: 0 <= j < |l.done| ==> Records(l.origin[j], l.done[j])
    requires Within(forest, x) && x.preheader.Some? && x.latches != []
    ensures i < |l.done| && Records(x, l.done[i])
    ensures var d, path := l.done[i], ErasedPath(l.g, l.code, Begin(entry, st), k);
            Entered(path, d) <= l.limit || (Overflows(path, d) && !LatchesLeave(l.g, d))
  {
    hide Analysed, Entered, Overflows, LatchesLeave, Within;
    i :| 0 <= i < |l.origin| && l.origin[i] == x;
    EnteredAtMost(l.g, l.done, l.limit, l.code, l.next, entry, st, i, k);
  }

  lemma BehindFits<S>(g: Graph<S>, l: Loop, d: Done, breakMode: bool)
    requires Behind(g, l, d, breakMode)
    ensures Fits(g, d) && (!breakMode ==> !d.broken)
  {
  }
}
