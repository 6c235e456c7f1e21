/** What instrumented code does, in terms of the original program. */
module LoopSim {
  import opened Wrappers
  import opened Cfg
  import opened LoopShape

  // ---- the monitored program -------------------------------------------------------------------------

  /** The original program with one i32 count per instrumented loop. */
  datatype Monitor<!S> =
    | Watching(prev: Option<nat>, at: nat, s: S, counts: seq<int>)
    | Finished(s: S)
    | Stopped(loop: nat, s: S)

  /** What executing block b does to the count of a loop. */
  function Tick(d: Done, b: nat, v: int): int {
    if b == d.preheader then 0 else if b in d.latches then Wrap(v + 1) else v
  }

  /** The successor of a conditional header outside its loop. */
  function WayOut<S>(e: Exit<S>, d: Done): Option<nat> {
    if e.If? then Some(if e.yes !in d.body then e.yes else e.no) else None
  }

  /** The loop with header b has used up its iterations. */
  predicate Exhausted(ls: seq<Done>, limit: int, b: nat, counts: seq<int>)
    requires |counts| == |ls|
  {
    var h := HeaderOf(ls, b);
    h.Some? && counts[h.value] >= limit
  }

  function Watch<S>(g: Graph<S>, ls: seq<Done>, limit: int, m: Monitor<S>): (r: Monitor<S>)
    requires m.Watching? ==> m.at in g && |m.counts| == |ls|
    ensures r.Watching? ==> |r.counts| == |ls|
  {
    if !m.Watching? then m
    else
      var h := HeaderOf(ls, m.at);
      var full := Exhausted(ls, limit, m.at, m.counts);
      if full && !ls[h.value].broken then Stopped(h.value, m.s)
      else
        var s := After(g[m.at], m.prev, m.s);
        var counts := seq(|ls|, i requires 0 <= i < |ls| => Tick(ls[i], m.at, m.counts[i]));
        var next := if full then WayOut(g[m.at].exit, ls[h.value]) else Successor(g[m.at].exit, s);
        if next.Some? then Watching(Some(m.at), next.value, s, counts) else Finished(s)
  }

  /** Everything a run of the instrumented code relies on. */
  ghost predicate Setting<S>(g: Graph<S>, ls: seq<Done>, limit: int, p: Code<S>, bound: nat) {
    && Closed(g) && Shape(g, ls, limit, p) && Ids(g, ls, bound)
    && forall i :: 0 <= i < |ls| ==> Fits(g, ls[i])
  }

  lemma WatchStaysInside<S>(g: Graph<S>, ls: seq<Done>, limit: int, m: Monitor<S>)
    requires Closed(g) && m.Watching? && m.at in g && |m.counts| == |ls|
    requires forall i :: 0 <= i < |ls| ==> Fits(g, ls[i])
    ensures var r := Watch(g, ls, limit, m);
            r.Watching? ==> r.at in g && r.prev == Some(m.at)
  {
    var s := After(g[m.at], m.prev, m.s);
    SuccessorIsTarget(g[m.at].exit, s);
  }

  // ---- the counter operations --------------------------------------------------------------------------

  /** What the appended operations do to the count of a loop; a split header that is its own latch counts at its top. */
  function TailTick(d: Done, b: nat, v: int): int {
    if b == d.preheader then 0 else if b in d.latches && (d.broken || b != d.header) then Wrap(v + 1) else v
  }

  lemma ExecOne<S>(i: Instr<S>, st: State<S>)
    ensures Exec([i], st) == Perform(i, st)
  {
    assert [i][..0] == [];
  }

  /** The operations of loop i touch nothing but its own counter and check. */
  lemma OpsOfEffect<S>(d: Done, i: nat, b: nat, limit: int, st: State<S>, k: nat)
    requires d.preheader != d.header && d.preheader !in d.latches
    ensures var r := Exec(OpsOf(d, i, b, limit), st);
            && r.s == st.s
            && Get(r.counters, k) == (if k == i then TailTick(d, b, Get(st.counters, k)) else Get(st.counters, k))
            && (k != i ==> Raised(r.flags, k) == Raised(st.flags, k))
            && (d.broken && b == d.header ==> Raised(r.flags, i) == (Get(st.counters, i) >= limit))
  {
    hide Exec;
    var check: seq<Instr<S>> := if d.broken && b == d.header then [Compare(i, limit)] else [];
    var count: seq<Instr<S>> := if b in d.latches && (d.broken || b != d.header) then [Inc(i)] else [];
    ExecNone(st);
    if b == d.preheader {
      assert OpsOf<S>(d, i, b, limit) == [Reset(i)];
      ExecOne(Reset(i), st);
    } else {
      assert OpsOf<S>(d, i, b, limit) == check + count;
      ExecAppend(check, count, st);
      ExecOne(Compare(i, limit), st);
      var mid := Exec(check, st);
      ExecNone(mid);
      ExecOne(Inc(i), mid);
    }
  }

  lemma ExecNone<S>(st: State<S>)
    ensures Exec([], st) == st
  {
  }

  /** The operations of all loops: each count ticks on its own. */
  lemma {:induction false} OpsEffect<S>(ls: seq<Done>, b: nat, limit: int, st: State<S>, k: nat)
    requires forall i :: 0 <= i < |ls| ==> ls[i].preheader != ls[i].header && ls[i].preheader !in ls[i].latches
    ensures var r := Exec(Ops(ls, b, limit), st);
            && r.s == st.s
            && Get(r.counters, k) == (if k < |ls| then TailTick(ls[k], b, Get(st.counters, k)) else Get(st.counters, k))
            && (k < |ls| && ls[k].broken && b == ls[k].header ==> Raised(r.flags, k) == (Get(st.counters, k) >= limit))
  {
    if ls != [] {
      hide OpsOf, TailTick, Exec, Get, Raised, Ops;
      var n := |ls| - 1;
      OpsGrow<S>(ls[..n], ls[n], b, limit);
      assert ls[..n] + [ls[n]] == ls;
      OpsEffect(ls[..n], b, limit, st, k);
      var mid := Exec(Ops(ls[..n], b, limit), st);
      ExecAppend(Ops(ls[..n], b, limit), OpsOf(ls[n], n, b, limit), st);
      OpsOfEffect(ls[n], n, b, limit, mid, k);
    } else {
      ExecNone(st);
    }
  }

  // ---- simulation ----------------------------------------------------------------------------------------

  /** The same state, with the counts in the counters. */
  ghost predicate SameState<S>(ls: seq<Done>, s: S, counts: seq<int>, st: State<S>) {
    |counts| == |ls| && st.s == s && forall i :: 0 <= i < |ls| ==> Get(st.counters, i) == counts[i]
  }

  ghost predicate SamePrev(ls: seq<Done>, prev: Option<nat>, held: Option<nat>) {
    held == if prev.Some? then Some(TailOf(ls, prev.value)) else None
  }

  ghost predicate Inside<S>(g: Graph<S>, ls: seq<Done>, m: Monitor<S>) {
    m.Watching? ==> m.at in g && |m.counts| == |ls| && (m.prev.Some? ==> m.prev.value in g)
  }

  /** About to execute the same source block. */
  ghost predicate AtBlock<S>(g: Graph<S>, ls: seq<Done>, m: Monitor<S>, c: Config<S>) {
    m.Watching? && c.At? && c.at == m.at && SamePrev(ls, m.prev, c.prev) && SameState(ls, m.s, m.counts, c.st)
  }

  /** The counts after the top of split header h. */
  function TopCounts(ls: seq<Done>, h: nat, counts: seq<int>): (r: seq<int>)
    requires h < |ls| == |counts|
    ensures |r| == |counts|
  {
    if ls[h].header in ls[h].latches then counts[h := Wrap(counts[h] + 1)] else counts
  }

  /** Past the bound check of a split header, before the rest of it. */
  ghost predicate PastCheck<S>(g: Graph<S>, ls: seq<Done>, limit: int, m: Monitor<S>, c: Config<S>)
    requires Inside(g, ls, m)
  {
    && m.Watching? && c.At?
    && var h := HeaderOf(ls, m.at);
       && h.Some? && !ls[h.value].broken && !Exhausted(ls, limit, m.at, m.counts)
       && c.at == ls[h.value].cont
       && SameState(ls, Phi(g[m.at].phis, m.prev, m.s), TopCounts(ls, h.value, m.counts), c.st)
  }

  ghost predicate Match<S>(g: Graph<S>, ls: seq<Done>, limit: int, m: Monitor<S>, c: Config<S>) {
    Inside(g, ls, m) &&
      match m
      case Watching(_, _, _, _) => AtBlock(g, ls, m, c) || PastCheck(g, ls, limit, m, c)
      case Finished(s) => c.Returned? && c.st.s == s
      case Stopped(i, _) => c.Exited? || (c.At? && i < |ls| && !ls[i].broken && c.at == ls[i].exit)
  }

  /** PHIs read the same value through the block that holds the predecessor's terminator. */
  lemma SamePhi<S>(g: Graph<S>, ls: seq<Done>, was: map<nat, S -> S>, phis: map<nat, S -> S>, prev: Option<nat>,
      held: Option<nat>, s: S)
    requires PhisMatch(g, ls, was, phis) && SamePrev(ls, prev, held) && (prev.Some? ==> prev.value in g)
    ensures Phi(phis, held, s) == Phi(was, prev, s)
  {
  }

  /** The operations of a source block bring the counts one block further. */
  lemma TailExec<S>(g: Graph<S>, ls: seq<Done>, limit: int, b: nat, st: State<S>, counts: seq<int>)
    requires b in g && forall i :: 0 <= i < |ls| ==> Fits(g, ls[i])
    requires |counts| == |ls| && forall i :: 0 <= i < |ls| ==> Get(st.counters, i) == counts[i]
    ensures var r := Exec([Op(g[b].effect)] + Ops(ls, b, limit), st);
            && SameState(ls, g[b].effect(st.s), seq(|ls|, i requires 0 <= i < |ls| => TailTick(ls[i], b, counts[i])), r)
            && var h := HeaderOf(ls, b);
               h.Some? && ls[h.value].broken ==> Raised(r.flags, h.value) == Exhausted(ls, limit, b, counts)
  {
    hide Exec, Ops;
    var mid := Perform(Op(g[b].effect), st);
    ExecOne(Op(g[b].effect), st);
    ExecAppend([Op(g[b].effect)], Ops(ls, b, limit), st);
    OpsEffect(ls, b, limit, mid, 0);
    forall i: nat | i < |ls|
      ensures Get(Exec(Ops(ls, b, limit), mid).counters, i) == TailTick(ls[i], b, counts[i])
      ensures ls[i].broken && b == ls[i].header
          ==> Raised(Exec(Ops(ls, b, limit), mid).flags, i) == (counts[i] >= limit) {
      OpsEffect(ls, b, limit, mid, i);
    }
  }

  lemma LeavingPlain<S>(e: Exit<S>, at: nat, st: State<S>)
    ensures Branching(LiftExit(e), at, st)
         == if Successor(e, st.s).Some? then At(Some(at), Successor(e, st.s).value, st) else Returned(st)
  {
  }

  /** The widened branch of either polarity leaves exactly when the original would or the bound is reached. */
  lemma LeavingWidened<S>(e: Exit<S>, d: Done, i: nat, at: nat, st: State<S>)
    requires e.If? && (e.yes in d.body) != (e.no in d.body)
    ensures Branching(Widen(LiftExit(e), d, i), at, st)
         == At(Some(at), if Raised(st.flags, i) then WayOut(e, d).value else Successor(e, st.s).value, st)
    ensures var target := Branching(Widen(LiftExit(e), d, i), at, st).at;
            target !in d.body <==> Raised(st.flags, i) || Successor(e, st.s).value !in d.body
  {
    var c := Test(e.test);
    assert Eval(c, st) == e.test(st.s);
    assert Eval(OrFlag(c, i), st) == (Eval(c, st) || Raised(st.flags, i));
    assert Eval(AndNotFlag(c, i), st) == (Eval(c, st) && !Raised(st.flags, i));
  }

  /** Leaving a source block: the branch goes where the monitor goes. */
  lemma Leaving<S>(g: Graph<S>, ls: seq<Done>, b: nat, at: nat, st: State<S>, full: bool)
    requires b in g && forall i :: 0 <= i < |ls| ==> Fits(g, ls[i])
    requires var h := HeaderOf(ls, b);
             h.Some? && ls[h.value].broken ==> Raised(st.flags, h.value) == full
    requires var h := HeaderOf(ls, b);
             full ==> h.Some? && ls[h.value].broken
    ensures var next := if full then WayOut(g[b].exit, ls[HeaderOf(ls, b).value]) else Successor(g[b].exit, st.s);
            Branching(Widened(ls, b, LiftExit(g[b].exit)), at, st)
              == if next.Some? then At(Some(at), next.value, st) else Returned(st)
  {
    hide Branching, Widen, LiftExit, Raised;
    var h := HeaderOf(ls, b);
    if h.Some? && ls[h.value].broken {
      LeavingWidened(g[b].exit, ls[h.value], h.value, at, st);
    } else {
      LeavingPlain(g[b].exit, at, st);
    }
  }

  /** Where the monitor goes from a block it does not stop at. */
  function NextBlock<S>(g: Graph<S>, ls: seq<Done>, limit: int, m: Monitor<S>): Option<nat>
    requires m.Watching? && m.at in g && |m.counts| == |ls|
  {
    if Exhausted(ls, limit, m.at, m.counts) then WayOut(g[m.at].exit, ls[HeaderOf(ls, m.at).value])
    else Successor(g[m.at].exit, After(g[m.at], m.prev, m.s))
  }

  /** The code arrives where the monitor does. */
  lemma Arrive<S>(g: Graph<S>, ls: seq<Done>, limit: int, m: Monitor<S>, st: State<S>)
    requires Closed(g) && (forall i :: 0 <= i < |ls| ==> Fits(g, ls[i])) && Inside(g, ls, m) && m.Watching?
    requires Exhausted(ls, limit, m.at, m.counts) ==> ls[HeaderOf(ls, m.at).value].broken
    requires SameState(ls, After(g[m.at], m.prev, m.s),
        seq(|ls|, i requires 0 <= i < |ls| => Tick(ls[i], m.at, m.counts[i])), st)
    ensures var r, next := Watch(g, ls, limit, m), NextBlock(g, ls, limit, m);
            var c := if next.Some? then At(Some(TailOf(ls, m.at)), next.value, st) else Returned(st);
            !r.Stopped? && Match(g, ls, limit, r, c) && (r.Watching? ==> AtBlock(g, ls, r, c))
  {
    hide Fits, TailOf, Closed;
    WatchStaysInside(g, ls, limit, m);
  }

  lemma BlockOf<S>(g: Graph<S>, ls: seq<Done>, limit: int, p: Code<S>, b: nat)
    requires Shape(g, ls, limit, p) && b in g
    ensures var t := TailOf(ls, b);
            && b in p && t in p && p[t].body == [Op(g[b].effect)] + Ops(ls, b, limit)
            && p[t].term == Widened(ls, b, LiftExit(g[b].exit))
  {
    assert BlockShape(g, ls, limit, p, b);
  }

  /** One step of an unsplit block is one step of the monitor. */
  lemma StepPlain<S>(g: Graph<S>, ls: seq<Done>, limit: int, p: Code<S>, bound: nat, m: Monitor<S>, c: Config<S>)
    requires Setting(g, ls, limit, p, bound) && Inside(g, ls, m) && AtBlock(g, ls, m, c) && TailOf(ls, m.at) == m.at
    requires HeaderOf(ls, m.at).Some? ==> ls[HeaderOf(ls, m.at).value].broken
    ensures var r := Watch(g, ls, limit, m);
        !r.Stopped? && Match(g, ls, limit, r, Step(p, c)) && (r.Watching? ==> AtBlock(g, ls, r, Step(p, c)))
  {
    hide Exec, Ops, Widened, Branching, Closed, Fits, Shape, Match, Watch, TailTick, Tick;
    var b := m.at;
    BlockOf(g, ls, limit, p, b);
    TopPhis(g, ls, limit, p, m, c);
    var st := c.st.(s := Phi(p[b].phis, c.prev, c.st.s));
    TailExec(g, ls, limit, b, st, m.counts);
    PlainTicks(ls, b, m.counts);
    var r := Exec(p[b].body, st);
    Leaving(g, ls, b, b, r, Exhausted(ls, limit, b, m.counts));
    Arrive(g, ls, limit, m, r);
  }

  lemma PlainTicks(ls: seq<Done>, b: nat, counts: seq<int>)
    requires |counts| == |ls|
    requires HeaderOf(ls, b).Some? ==> ls[HeaderOf(ls, b).value].broken
    requires forall i, j :: 0 <= i < j < |ls| ==> ls[i].header != ls[j].header
    ensures forall i :: 0 <= i < |ls| ==> TailTick(ls[i], b, counts[i]) == Tick(ls[i], b, counts[i])
  {
    forall i | 0 <= i < |ls| ensures TailTick(ls[i], b, counts[i]) == Tick(ls[i], b, counts[i]) {
      if b == ls[i].header {
        HeaderUnique(ls, i);
      }
    }
  }

  /** The top of split header h: the bound check and perhaps the increment. */
  lemma TopExec<S>(ls: seq<Done>, h: nat, limit: int, st: State<S>, counts: seq<int>)
    requires h < |ls| == |counts| && forall i :: 0 <= i < |ls| ==> Get(st.counters, i) == counts[i]
    ensures var r := Exec(TopBody(ls[h], h, limit), st);
            SameState(ls, st.s, TopCounts(ls, h, counts), r) && Raised(r.flags, h) == (counts[h] >= limit)
  {
    hide Exec;
    var count: seq<Instr<S>> := if ls[h].header in ls[h].latches then [Inc(h)] else [];
    ExecOne(Compare(h, limit), st);
    ExecAppend([Compare(h, limit)], count, st);
    var mid := Exec([Compare(h, limit)], st);
    ExecOne(Inc(h), mid);
    ExecNone(mid);
  }

  /** The top of a split header: into the exit block when the loop is exhausted, else past the check. */
  lemma StepTop<S>(g: Graph<S>, ls: seq<Done>, limit: int, p: Code<S>, bound: nat, m: Monitor<S>, c: Config<S>)
    requires Setting(g, ls, limit, p, bound) && Inside(g, ls, m) && AtBlock(g, ls, m, c)
    requires HeaderOf(ls, m.at).Some? && !ls[HeaderOf(ls, m.at).value].broken
    ensures if Exhausted(ls, limit, m.at, m.counts)
            then Watch(g, ls, limit, m).Stopped? && Match(g, ls, limit, Watch(g, ls, limit, m), Step(p, c))
            else PastCheck(g, ls, limit, m, Step(p, c))
  {
    hide Exec, TopBody, Closed, BlockShape, SplitTop, Fits;
    var h := HeaderOf(ls, m.at).value;
    TopOf(g, ls, limit, p, h);
    TopPhis(g, ls, limit, p, m, c);
    var st := c.st.(s := Phi(p[c.at].phis, c.prev, c.st.s));
    TopExec(ls, h, limit, st, m.counts);
  }

  lemma TopOf<S>(g: Graph<S>, ls: seq<Done>, limit: int, p: Code<S>, h: nat)
    requires Shape(g, ls, limit, p) && h < |ls| && !ls[h].broken
    ensures var d := ls[h];
            && d.header in p && d.exit in p && d.cont in p
            && p[d.header].body == TopBody(d, h, limit) && p[d.header].term == Branch(Flag(h), d.exit, d.cont)
            && p[d.exit] == ExitBlock() && p[d.cont].phis == map[]
  {
  }

  lemma TopPhis<S>(g: Graph<S>, ls: seq<Done>, limit: int, p: Code<S>, m: Monitor<S>, c: Config<S>)
    requires Shape(g, ls, limit, p) && Inside(g, ls, m) && AtBlock(g, ls, m, c)
    ensures m.at in p && Phi(p[m.at].phis, c.prev, c.st.s) == Phi(g[m.at].phis, m.prev, m.s)
  {
    assert BlockShape(g, ls, limit, p, m.at);
    SamePhi(g, ls, g[m.at].phis, p[m.at].phis, m.prev, c.prev, m.s);
  }

  /** The rest of a split header completes the step of the monitor. */
  lemma StepRest<S>(g: Graph<S>, ls: seq<Done>, limit: int, p: Code<S>, bound: nat, m: Monitor<S>, c: Config<S>)
    requires Setting(g, ls, limit, p, bound) && Inside(g, ls, m) && PastCheck(g, ls, limit, m, c)
    ensures var r := Watch(g, ls, limit, m);
        !r.Stopped? && Match(g, ls, limit, r, Step(p, c)) && (r.Watching? ==> AtBlock(g, ls, r, Step(p, c)))
  {
    hide Exec, Ops, Branching, Closed, Fits, Shape, Match, Watch, TailTick, Tick, TopCounts, LiftExit;
    var b := m.at;
    var h := HeaderOf(ls, b).value;
    BlockOf(g, ls, limit, p, b);
    TopOf(g, ls, limit, p, h);
    var counts := TopCounts(ls, h, m.counts);
    TailExec(g, ls, limit, b, c.st, counts);
    HeaderFits(g, ls[h]);
    SplitTicks(ls, h, m.counts);
    var r := Exec(p[c.at].body, c.st);
    assert c.st == c.st.(s := Phi(p[c.at].phis, c.prev, c.st.s));
    LeavingPlain(g[b].exit, c.at, r);
    Arrive(g, ls, limit, m, r);
  }

  lemma HeaderFits<S>(g: Graph<S>, d: Done)
    requires Fits(g, d)
    ensures d.preheader != d.header && d.preheader !in d.latches
  {
  }

  /** Top and rest together tick every count once. */
  lemma SplitTicks(ls: seq<Done>, h: nat, counts: seq<int>)
    requires h < |ls| == |counts| && !ls[h].broken && ls[h].preheader != ls[h].header
    requires forall i, j :: 0 <= i < j < |ls| ==> ls[i].header != ls[j].header
    ensures forall i :: 0 <= i < |ls| ==>
      TailTick(ls[i], ls[h].header, TopCounts(ls, h, counts)[i]) == Tick(ls[i], ls[h].header, counts[i])
  {
    forall i | 0 <= i < |ls|
      ensures TailTick(ls[i], ls[h].header, TopCounts(ls, h, counts)[i]) == Tick(ls[i], ls[h].header, counts[i]) {
      if ls[h].header == ls[i].header {
        HeaderUnique(ls, i);
        HeaderUnique(ls, h);
      }
    }
  }
}
