/** LoopLimiter::run: the worklist that instruments every loop of a function in place. */
module LoopPass {
  import opened Wrappers
  import opened Cfg
  import opened LoopShape

  /** A natural loop as the loop analysis reports it. */
  datatype Loop = Loop(preheader: Option<nat>, header: nat, latches: seq<nat>, body: set<nat>, subs: Forest)

  /** Loops in the order of a worklist: the top one is taken off next. */
  datatype Forest = Empty | Add(rest: Forest, top: Loop)

  /** b on top of a. */
  function Stacked(a: Forest, b: Forest): Forest {
    match b
    case Empty => a
    case Add(rest, top) => Add(Stacked(a, rest), top)
  }

  ghost predicate Bounded<S>(p: Code<S>, bound: nat) {
    forall x :: x in p ==> x < bound && forall k :: k in p[x].phis ==> k < bound
  }

  /** The code once one more loop is instrumented. */
  function Instrument<S>(p: Code<S>, ls: seq<Done>, d: Done, limit: int): Code<S>
    requires TailOf(ls, d.preheader) in p && d.header in p
    requires forall j :: 0 <= j < |d.latches| ==> TailOf(ls, d.latches[j]) in p
  {
    AppendAll(Limited(p, ls, d, limit), LatchBlocks(ls, d), Inc(|ls|))
  }

  /** Counter reset and bound check, before the increments. */
  function Limited<S>(p: Code<S>, ls: seq<Done>, d: Done, limit: int): (q: Code<S>)
    requires TailOf(ls, d.preheader) in p && d.header in p
    ensures p.Keys <= q.Keys
  {
    var q := Append(p, TailOf(ls, d.preheader), Reset(|ls|));
    if d.broken then WidenHeader(q, d, |ls|, limit) else SplitHeader(q, d, |ls|, limit)
  }

  /** A loop that can be instrumented next. */
  ghost predicate Next<S>(g: Graph<S>, ls: seq<Done>, d: Done, bound: nat) {
    && Ids(g, ls, bound) && Fits(g, d)
    && (forall j :: 0 <= j < |ls| ==> ls[j].header != d.header)
    && (!d.broken ==> d.exit == bound && d.cont == bound + 1)
  }

  lemma TailsPresent<S>(g: Graph<S>, ls: seq<Done>, d: Done, bound: nat, limit: int, p: Code<S>)
    requires Next(g, ls, d, bound) && Shape(g, ls, limit, p)
    ensures TailOf(ls, d.preheader) in p && d.header in p && TailOf(ls, d.header) == d.header
    ensures forall j :: 0 <= j < |d.latches| ==> TailOf(ls, d.latches[j]) in p
    ensures forall b :: b in g ==> TailOf(ls, b) in p && b in p
  {
    forall b | b in g ensures TailOf(ls, b) in p && b in p {
      assert BlockShape(g, ls, limit, p, b);
    }
  }

  /** No terminator is held by the top of a split header or by an exit block. */
  lemma TailsAvoid<S>(g: Graph<S>, ls: seq<Done>, bound: nat, i: nat, b: nat)
    requires Ids(g, ls, bound) && i < |ls| && !ls[i].broken && b in g
    ensures TailOf(ls, b) != ls[i].header && TailOf(ls, b) != ls[i].exit
  {
    HeaderUnique(ls, i);
    TailInjective(g, ls, bound, b, ls[i].header);
  }

  /** Which latch blocks get an increment. */
  lemma LatchTails<S>(g: Graph<S>, ls: seq<Done>, d: Done, bound: nat)
    requires Next(g, ls, d, bound)
    ensures forall b :: b in g ==> (TailOf(ls, b) in LatchBlocks(ls, d) <==> b in d.latches)
    ensures forall i, j :: 0 <= i < j < |d.latches| ==> LatchBlocks(ls, d)[i] != LatchBlocks(ls, d)[j]
    ensures forall x :: x in LatchBlocks(ls, d) ==> x < bound
  {
    var ids := LatchBlocks(ls, d);
    forall b | b in g ensures TailOf(ls, b) in ids <==> b in d.latches {
      if b in d.latches {
        var j :| 0 <= j < |d.latches| && d.latches[j] == b;
        assert ids[j] == TailOf(ls, b);
      }
      if TailOf(ls, b) in ids {
        var j :| 0 <= j < |ids| && ids[j] == TailOf(ls, b);
        TailInjective(g, ls, bound, b, d.latches[j]);
      }
    }
    forall i, j | 0 <= i < j < |d.latches| ensures ids[i] != ids[j] {
      TailInjective(g, ls, bound, d.latches[i], d.latches[j]);
    }
    forall x | x in ids ensures x < bound {
      var j :| 0 <= j < |ids| && ids[j] == x;
      TailInjective(g, ls, bound, d.latches[j], d.latches[j]);
    }
  }

  /** What happens to the block with b's terminator, before the increments. */
  lemma LimitedTail<S>(g: Graph<S>, ls: seq<Done>, d: Done, bound: nat, limit: int, p: Code<S>, b: nat)
    requires Next(g, ls, d, bound) && Bounded(p, bound) && b in g
    requires TailOf(ls, d.preheader) in p && d.header in p && TailOf(ls, b) in p
    ensures var q, t := Limited(p, ls, d, limit), TailOf(ls + [d], b);
            && t in q
            && q[t].body == p[TailOf(ls, b)].body + (if b == d.preheader then [Reset(|ls|)] else [])
                            + (if d.broken && b == d.header then [Compare(|ls|, limit)] else [])
            && q[t].term == if d.broken && b == d.header
                then Widen(p[TailOf(ls, b)].term, d, |ls|) else p[TailOf(ls, b)].term
  {
    hide Append, WidenHeader, SplitHeader, Widen;
    var e, x := TailOf(ls, d.preheader), TailOf(ls, b);
    var q := Append(p, e, Reset(|ls|));
    TailGrows(ls, d, b);
    TailsOf(g, ls, d, bound, b);
    AppendAt(p, e, Reset(|ls|), x);
    if d.broken {
      WidenAt(q, d, |ls|, limit, x);
    } else {
      SplitAt(q, d, |ls|, limit, x);
      SplitNew(q, d, |ls|, limit);
    }
  }

  /** How the terminators' blocks before this loop compare with its preheader and header. */
  lemma TailsOf<S>(g: Graph<S>, ls: seq<Done>, d: Done, bound: nat, b: nat)
    requires Next(g, ls, d, bound) && b in g
    ensures TailOf(ls, b) == TailOf(ls, d.preheader) <==> b == d.preheader
    ensures TailOf(ls, b) == d.header <==> b == d.header
    ensures TailOf(ls, b) < bound
  {
    TailInjective(g, ls, bound, b, d.preheader);
    TailInjective(g, ls, bound, b, d.header);
  }

  /** PHIs follow the terminators of their predecessors. */
  lemma LimitedPhis<S>(g: Graph<S>, ls: seq<Done>, d: Done, bound: nat, limit: int, p: Code<S>, b: nat)
    requires Next(g, ls, d, bound) && Bounded(p, bound) && b in g
    requires TailOf(ls, d.preheader) in p && d.header in p && b in p && PhisMatch(g, ls, g[b].phis, p[b].phis)
    ensures var q := Limited(p, ls, d, limit); b in q && PhisMatch(g, ls + [d], g[b].phis, q[b].phis)
  {
    hide Append, WidenHeader, SplitHeader, TailOf;
    var q := Append(p, TailOf(ls, d.preheader), Reset(|ls|));
    AppendAt(p, TailOf(ls, d.preheader), Reset(|ls|), b);
    if d.broken {
      WidenAt(q, d, |ls|, limit, b);
    } else {
      SplitAt(q, d, |ls|, limit, b);
    }
    forall k | k in g
      ensures TailOf(ls + [d], k) == if d.broken || k != d.header then TailOf(ls, k) else d.cont
      ensures TailOf(ls, k) == d.header <==> k == d.header
      ensures TailOf(ls, k) < bound {
      TailGrows(ls, d, k);
      TailsOf(g, ls, d, bound, k);
    }
  }

  /** Every source block keeps its shape when one more loop is instrumented. */
  lemma InstrumentBlock<S>(g: Graph<S>, ls: seq<Done>, d: Done, bound: nat, limit: int, p: Code<S>, b: nat)
    requires Next(g, ls, d, bound) && Bounded(p, bound) && b in g && BlockShape(g, ls, limit, p, b)
    requires TailOf(ls, d.preheader) in p && d.header in p
    requires forall j :: 0 <= j < |d.latches| ==> TailOf(ls, d.latches[j]) in p
    ensures BlockShape(g, ls + [d], limit, Instrument(p, ls, d, limit), b)
  {
    hide Limited, TailOf, LatchBlocks, AppendAll, PhisMatch, Widen;
    LatchTails(g, ls, d, bound);
    LimitedTail(g, ls, d, bound, limit, p, b);
    LimitedPhis(g, ls, d, bound, limit, p, b);
    var q, t := Limited(p, ls, d, limit), TailOf(ls + [d], b);
    var ids := LatchBlocks(ls, d);
    AppendAllAt(q, ids, Inc(|ls|), t);
    AppendAllAt(q, ids, Inc(|ls|), b);
    TailGrows(ls, d, b);
    TailsOf(g, ls, d, bound, b);
    OpsGrow<S>(ls, d, b, limit);
    WidenedGrows(ls, d, b, LiftExit(g[b].exit));
    GatherOps(g, ls, d, limit, b);
  }

  lemma WidenedGrows<S>(ls: seq<Done>, d: Done, b: nat, t: Term<S>)
    ensures Widened(ls + [d], b, t) ==
        if d.header != b then Widened(ls, b, t) else if d.broken then Widen(t, d, |ls|) else t
    ensures (forall j :: 0 <= j < |ls| ==> ls[j].header != d.header) && d.header == b ==> Widened(ls, b, t) == t
  {
    TailGrows(ls, d, b);
    if i: nat :| HeaderOf(ls, b) == Some(i) {
      assert (ls + [d])[i] == ls[i];
    }
    assert (ls + [d])[|ls|] == d;
  }

  lemma GatherOps<S>(g: Graph<S>, ls: seq<Done>, d: Done, limit: int, b: nat)
    requires b in g
    ensures [Op(g[b].effect)] + Ops(ls, b, limit) + (if b == d.preheader then [Reset(|ls|)] else [])
            + (if d.broken && b == d.header then [Compare(|ls|, limit)] else [])
            + (if b in d.latches && (d.broken || b != d.header) then [Inc(|ls|)] else [])
         == [Op(g[b].effect)] + (Ops(ls, b, limit) + OpsOf(d, |ls|, b, limit))
  {
    hide Ops;
  }

  lemma InstrumentTop<S>(g: Graph<S>, ls: seq<Done>, d: Done, bound: nat, limit: int, p: Code<S>, i: nat)
    requires Next(g, ls, d, bound) && Bounded(p, bound) && i < |ls| && !ls[i].broken && SplitTop(ls[i], i, limit, p)
    requires TailOf(ls, d.preheader) in p && d.header in p
    requires forall j :: 0 <= j < |d.latches| ==> TailOf(ls, d.latches[j]) in p
    ensures SplitTop(ls[i], i, limit, Instrument(p, ls, d, limit))
  {
    hide Append, WidenHeader, SplitHeader, TailOf, LatchBlocks, AppendAll, TopBody, Ids, Fits;
    LatchTails(g, ls, d, bound);
    EarlierTop(g, ls, d, bound, i);
    var e, ids := TailOf(ls, d.preheader), LatchBlocks(ls, d);
    KeepsTop(g, ls, d, bound, limit, p, i, ls[i].header);
    KeepsTop(g, ls, d, bound, limit, p, i, ls[i].exit);
    KeepsTop(g, ls, d, bound, limit, p, i, ls[i].cont);
    var q := Limited(p, ls, d, limit);
    AppendAllAt(q, ids, Inc(|ls|), ls[i].header);
    AppendAllAt(q, ids, Inc(|ls|), ls[i].exit);
    AppendAllAt(q, ids, Inc(|ls|), ls[i].cont);
  }

  /** Blocks of an earlier split are not the preheader or header of the next loop. */
  lemma KeepsTop<S>(g: Graph<S>, ls: seq<Done>, d: Done, bound: nat, limit: int, p: Code<S>, i: nat, x: nat)
    requires Next(g, ls, d, bound) && Bounded(p, bound) && i < |ls| && !ls[i].broken && x in p
    requires x == ls[i].header || x == ls[i].exit || x == ls[i].cont
    requires TailOf(ls, d.preheader) in p && d.header in p
    ensures var q := Limited(p, ls, d, limit);
            && x in q && (x != ls[i].cont ==> q[x].body == p[x].body && q[x].term == p[x].term)
            && (p[x].phis == map[] ==> q[x].phis == map[])
  {
    hide Append, WidenHeader, SplitHeader, TailOf;
    var e := TailOf(ls, d.preheader);
    var q := Append(p, e, Reset(|ls|));
    TailsAvoid(g, ls, bound, i, d.preheader);
    AppendAt(p, e, Reset(|ls|), x);
    if d.broken {
      WidenAt(q, d, |ls|, limit, x);
    } else {
      SplitAt(q, d, |ls|, limit, x);
    }
  }

  /** The blocks the split itself makes. */
  lemma InstrumentNew<S>(g: Graph<S>, ls: seq<Done>, d: Done, bound: nat, limit: int, p: Code<S>)
    requires Next(g, ls, d, bound) && Bounded(p, bound) && !d.broken
    requires TailOf(ls, d.preheader) in p && d.header in p
    requires forall j :: 0 <= j < |d.latches| ==> TailOf(ls, d.latches[j]) in p
    ensures SplitTop(d, |ls|, limit, Instrument(p, ls, d, limit))
  {
    hide Append, WidenHeader, SplitHeader, TailOf, LatchBlocks, AppendAll, Ids;
    LatchTails(g, ls, d, bound);
    TailsOf(g, ls, d, bound, d.header);
    var q, ids := Limited(p, ls, d, limit), LatchBlocks(ls, d);
    SplitNew(Append(p, TailOf(ls, d.preheader), Reset(|ls|)), d, |ls|, limit);
    AppendAllAt(q, ids, Inc(|ls|), d.header);
    AppendAllAt(q, ids, Inc(|ls|), d.exit);
    AppendAllAt(q, ids, Inc(|ls|), d.cont);
    HeaderTail(ls, d);
  }

  lemma HeaderTail(ls: seq<Done>, d: Done)
    requires forall j :: 0 <= j < |ls| ==> ls[j].header != d.header
    ensures TailOf(ls, d.header) == d.header
  {
  }

  /** The increments leave the tops and exit blocks of earlier loops alone. */
  lemma EarlierTop<S>(g: Graph<S>, ls: seq<Done>, d: Done, bound: nat, i: nat)
    requires Next(g, ls, d, bound) && i < |ls| && !ls[i].broken
    ensures ls[i].header !in LatchBlocks(ls, d) && ls[i].exit !in LatchBlocks(ls, d)
    ensures ls[i].header != ls[i].cont && ls[i].exit != ls[i].cont
  {
    forall j | 0 <= j < |d.latches|
      ensures LatchBlocks(ls, d)[j] != ls[i].header && LatchBlocks(ls, d)[j] != ls[i].exit {
      TailsAvoid(g, ls, bound, i, d.latches[j]);
    }
  }

  lemma InstrumentShape<S>(g: Graph<S>, ls: seq<Done>, d: Done, bound: nat, limit: int, p: Code<S>)
    requires Next(g, ls, d, bound) && Shape(g, ls, limit, p) && Bounded(p, bound)
    ensures TailOf(ls, d.preheader) in p && d.header in p
    ensures forall j :: 0 <= j < |d.latches| ==> TailOf(ls, d.latches[j]) in p
    ensures Shape(g, ls + [d], limit, Instrument(p, ls, d, limit))
    ensures Ids(g, ls + [d], bound + 2) && Bounded(Instrument(p, ls, d, limit), bound + 2)
  {
    hide Instrument, BlockShape, SplitTop, TailOf, Ids, Fits;
    TailsPresent(g, ls, d, bound, limit, p);
    var q := Instrument(p, ls, d, limit);
    forall b | b in g ensures BlockShape(g, ls + [d], limit, q, b) {
      InstrumentBlock(g, ls, d, bound, limit, p, b);
    }
    forall i | 0 <= i < |ls + [d]| && !(ls + [d])[i].broken ensures SplitTop((ls + [d])[i], i, limit, q) {
      if i < |ls| {
        InstrumentTop(g, ls, d, bound, limit, p, i);
      } else {
        InstrumentNew(g, ls, d, bound, limit, p);
      }
    }
    IdsGrow(g, ls, d, bound);
    InstrumentBounded(g, ls, d, bound, limit, p);
  }

  lemma IdsGrow<S>(g: Graph<S>, ls: seq<Done>, d: Done, bound: nat)
    requires Next(g, ls, d, bound)
    ensures Ids(g, ls + [d], bound + 2)
  {
  }

  lemma LimitedBounded<S>(g: Graph<S>, ls: seq<Done>, d: Done, bound: nat, limit: int, p: Code<S>, x: nat)
    requires Next(g, ls, d, bound) && Bounded(p, bound)
    requires TailOf(ls, d.preheader) in p && d.header in p && x in Limited(p, ls, d, limit)
    ensures x < bound + 2 && forall k :: k in Limited(p, ls, d, limit)[x].phis ==> k < bound + 2
  {
    hide Append, WidenHeader, SplitHeader, TailOf, Ids, Fits;
    var q := Append(p, TailOf(ls, d.preheader), Reset(|ls|));
    if x in p {
      AppendAt(p, TailOf(ls, d.preheader), Reset(|ls|), x);
      if d.broken {
        WidenAt(q, d, |ls|, limit, x);
      } else {
        SplitAt(q, d, |ls|, limit, x);
      }
    } else {
      SplitNew(q, d, |ls|, limit);
    }
  }

  lemma InstrumentBounded<S>(g: Graph<S>, ls: seq<Done>, d: Done, bound: nat, limit: int, p: Code<S>)
    requires Next(g, ls, d, bound) && Bounded(p, bound)
    requires TailOf(ls, d.preheader) in p && d.header in p
    requires forall j :: 0 <= j < |d.latches| ==> TailOf(ls, d.latches[j]) in p
    ensures Bounded(Instrument(p, ls, d, limit), bound + 2)
  {
    hide Limited, LatchBlocks, AppendAll, TailOf, Ids, Fits;
    var q, ids := Limited(p, ls, d, limit), LatchBlocks(ls, d);
    LatchTails(g, ls, d, bound);
    forall x | x in AppendAll(q, ids, Inc(|ls|))
      ensures x < bound + 2 && forall k :: k in AppendAll(q, ids, Inc(|ls|))[x].phis ==> k < bound + 2 {
      AppendAllAt(q, ids, Inc(|ls|), x);
      LimitedBounded(g, ls, d, bound, limit, p, x);
    }
  }

  // ---- the loop forest -----------------------------------------------------------------------------------

  /** Loops without a preheader or a latch are skipped with a warning. */
  predicate Eligible(l: Loop) {
    l.preheader.Some? && l.latches != []
  }

  /** How many loops of a forest have header h and can be instrumented. */
  ghost function Times(forest: Forest, h: nat): nat {
    match forest
    case Empty => 0
    case Add(rest, l) => Times(rest, h) + Times(l.subs, h) + (if Eligible(l) && l.header == h then 1 else 0)
  }

  /** A property of every loop that can be instrumented. */
  ghost predicate Everywhere(forest: Forest, good: Loop -> bool) {
    match forest
    case Empty => true
    case Add(rest, l) => Everywhere(rest, good) && Everywhere(l.subs, good) && (Eligible(l) ==> good(l))
  }

  ghost function Count(forest: Forest): nat {
    match forest
    case Empty => 0
    case Add(rest, l) => 1 + Count(l.subs) + Count(rest)
  }

  /** l is one of the loops of a forest, at any depth. */
  ghost predicate Within(forest: Forest, l: Loop) {
    match forest
    case Empty => false
    case Add(rest, top) => l == top || Within(top.subs, l) || Within(rest, l)
  }

  lemma {:induction false} StackedTotals(a: Forest, b: Forest, h: nat)
    ensures Times(Stacked(a, b), h) == Times(a, h) + Times(b, h)
    ensures Count(Stacked(a, b)) == Count(a) + Count(b)
  {
    if b.Add? {
      StackedTotals(a, b.rest, h);
    }
  }

  lemma {:induction false} StackedEverywhere(a: Forest, b: Forest, good: Loop -> bool)
    ensures Everywhere(Stacked(a, b), good) <==> Everywhere(a, good) && Everywhere(b, good)
  {
    if b.Add? {
      StackedEverywhere(a, b.rest, good);
    }
  }

  lemma {:induction false} StackedWithin(a: Forest, b: Forest, l: Loop)
    ensures Within(Stacked(a, b), l) <==> Within(a, l) || Within(b, l)
  {
    if b.Add? {
      StackedWithin(a, b.rest, l);
    }
  }

  ghost function TimesDone(ls: seq<Done>, h: nat): nat {
    if ls == [] then 0 else TimesDone(ls[..|ls| - 1], h) + (if ls[|ls| - 1].header == h then 1 else 0)
  }

  lemma {:induction false} TimesDoneHas(ls: seq<Done>, i: nat)
    requires i < |ls|
    ensures TimesDone(ls, ls[i].header) > 0
  {
    if i < |ls| - 1 {
      TimesDoneHas(ls[..|ls| - 1], i);
    }
  }

  /** What the loop analysis guarantees about one loop. */
  ghost predicate Sound<S>(g: Graph<S>, l: Loop)
    requires Eligible(l)
  {
    && l.preheader.value in g && l.header in g && l.preheader.value != l.header && l.preheader.value !in l.latches
    && (forall j :: 0 <= j < |l.latches| ==> l.latches[j] in g)
    && (forall i, j :: 0 <= i < j < |l.latches| ==> l.latches[i] != l.latches[j])
  }

  ghost function SoundIn<S>(g: Graph<S>): Loop -> bool {
    l => Eligible(l) ==> Sound(g, l)
  }

  /** The header's own branch is the exit test: one successor inside the loop and one outside. */
  predicate Canonical<S>(t: Term<S>, body: set<nat>) {
    t.Branch? && (t.yes in body) != (t.no in body)
  }

  ghost predicate Matches<S>(g: Graph<S>, l: Loop, d: Done, breakMode: bool) {
    && l.preheader == Some(d.preheader) && l.header == d.header && l.latches == d.latches && l.body == d.body
    && d.header in g
    && var e := g[d.header].exit;
       d.broken == (breakMode && e.If? && (e.yes in l.body) != (e.no in l.body))
  }

  /** In the code the exit test looks the same. */
  lemma CanonicalExit<S>(e: Exit<S>, body: set<nat>)
    ensures Canonical(LiftExit(e), body) <==> e.If? && (e.yes in body) != (e.no in body)
  {
  }

  /** Before any loop is instrumented the code is the source. */
  lemma Untouched<S>(g: Graph<S>, limit: int, bound: nat, p: Code<S>)
    requires forall b :: b in g ==> b < bound && g[b].phis.Keys <= g.Keys
    requires p.Keys == g.Keys && forall b :: b in g ==> p[b] == Lift(g[b])
    ensures Shape(g, [], limit, p) && Ids(g, [], bound) && Bounded(p, bound)
  {
    hide BlockShape;
    forall b | b in g ensures BlockShape(g, [], limit, p, b) {
      UntouchedBlock(g, limit, p, b);
    }
  }

  lemma UntouchedBlock<S>(g: Graph<S>, limit: int, p: Code<S>, b: nat)
    requires b in g && b in p && p[b] == Lift(g[b])
    ensures BlockShape(g, [], limit, p, b)
  {
    assert [Op(g[b].effect)] + Ops([], b, limit) == [Op(g[b].effect)];
  }

  /** The loops behind the records. */
  ghost predicate AllRecorded<S>(g: Graph<S>, origin: seq<Loop>, ls: seq<Done>, breakMode: bool) {
    |origin| == |ls| && forall i :: 0 <= i < |ls| ==> Behind(g, origin[i], ls[i], breakMode)
  }

  ghost predicate Behind<S>(g: Graph<S>, l: Loop, d: Done, breakMode: bool) {
    Eligible(l) && Sound(g, l) && Matches(g, l, d, breakMode)
  }

  lemma RecordOne<S>(g: Graph<S>, origin: seq<Loop>, before: seq<Done>, ls: seq<Done>, l: Loop, breakMode: bool)
    requires AllRecorded(g, origin, before, breakMode)
    requires |ls| == |before| + 1 && ls[..|before|] == before && Behind(g, l, ls[|before|], breakMode)
    ensures AllRecorded(g, origin + [l], ls, breakMode)
  {
    hide Behind;
    forall i | 0 <= i < |ls| ensures Behind(g, (origin + [l])[i], ls[i], breakMode) {
      assert i < |before| ==> ls[i] == before[i];
    }
  }

  lemma OneMoreDone(before: seq<Done>, ls: seq<Done>, h: nat)
    requires |ls| == |before| + 1 && ls[..|before|] == before && ls[|before|].header == h
    ensures forall x: nat :: TimesDone(ls, x) == TimesDone(before, x) + (if h == x then 1 else 0)
  {
  }

  // ---- the pass ------------------------------------------------------------------------------------------

  class LoopLimiter<!S> {
    const g: Graph<S>
    const limit: int
    const breakMode: bool
    var code: Code<S>
    var next: nat
    var loopIdx: nat
    var holder: map<nat, nat>
    ghost var done: seq<Done>
    ghost var origin: seq<Loop>

    /** The function before the pass; ids from next on are unused. */
    constructor (g: Graph<S>, limit: int, breakMode: bool, next: nat)
      requires forall b :: b in g ==> b < next && g[b].phis.Keys <= g.Keys
      ensures this.g == g && this.limit == limit && this.breakMode == breakMode && this.next == next
      ensures done == [] && origin == [] && Valid()
    {
      hide Shape, Ids, Bounded;
      this.g, this.limit, this.breakMode, this.next := g, limit, breakMode, next;
      var p := map b | b in g :: Lift(g[b]);
      code := p;
      loopIdx := 0;
      holder := map b | b in g :: b;
      done, origin := [], [];
      Untouched(g, limit, next, p);
    }

    ghost predicate Valid()
      reads `code, `next, `loopIdx, `holder, `done
    {
      && Shape(g, done, limit, code) && Ids(g, done, next) && Bounded(code, next) && loopIdx == |done|
      && holder.Keys == g.Keys && forall b :: b in g ==> holder[b] == TailOf(done, b)
    }

    /** Every instrumented loop is recorded with the loop it comes from. */
    ghost predicate Recorded()
      reads this
    {
      AllRecorded(g, origin, done, breakMode)
    }

    /** Resets, checks and counts one loop. */
    method InstrumentLoop(l: Loop)
      requires Valid() && Eligible(l) && Sound(g, l)
      requires forall j :: 0 <= j < |done| ==> done[j].header != l.header
      modifies this
      ensures Valid() && |done| == old(|done|) + 1 && done[..|done| - 1] == old(done)
      ensures Matches(g, l, done[|done| - 1], breakMode) && origin == old(origin)
    {
      hide Shape, Ids, Bounded, Instrument, TailOf;
      HeaderTerm(g, done, l.header, next, limit, code);
      CanonicalExit(g[l.header].exit, l.body);
      var broken := breakMode && Canonical(code[l.header].term, l.body);
      var d := Done(l.preheader.value, l.header, l.latches, l.body, broken, next, next + 1);
      InstrumentShape(g, done, d, next, limit, code);
      HoldersGrow(done, d);
      Rewrite(d, done);
      if !broken {
        holder := holder[l.header := d.cont];
      }
      next := next + 2;
      loopIdx := loopIdx + 1;
      done := done + [d];
    }

    /** The three rewriting steps. */
    method Rewrite(d: Done, ghost ls: seq<Done>)
      requires TailOf(ls, d.preheader) in code && d.header in code && d.preheader in g && loopIdx == |ls|
      requires forall j :: 0 <= j < |d.latches| ==> d.latches[j] in g && TailOf(ls, d.latches[j]) in code
      requires holder.Keys == g.Keys && forall b :: b in g ==> holder[b] == TailOf(ls, b)
      modifies this`code
      ensures forall j :: 0 <= j < |d.latches| ==> TailOf(ls, d.latches[j]) in old(code)
      ensures code == Instrument(old(code), ls, d, limit)
    {
      hide Append, AppendAll, WidenHeader, SplitHeader, TailOf;
      var h := holder;
      var latchBlocks := seq(|d.latches|, j requires 0 <= j < |d.latches| => h[d.latches[j]]);
      assert latchBlocks == LatchBlocks(ls, d);
      code := Append(code, holder[d.preheader], Reset(loopIdx));
      if d.broken {
        code := WidenHeader(code, d, loopIdx, limit);
      } else {
        code := SplitHeader(code, d, loopIdx, limit);
      }
      AppendToAll(latchBlocks, Inc(loopIdx));
    }

    /** An instruction before the terminator of every given block. */
    method AppendToAll(ids: seq<nat>, i: Instr<S>)
      requires forall j :: 0 <= j < |ids| ==> ids[j] in code
      modifies this`code
      ensures forall j :: 0 <= j < |ids| ==> ids[j] in old(code)
      ensures code == AppendAll(old(code), ids, i)
    {
      for k := 0 to |ids|
        invariant code.Keys == old(code).Keys && code == AppendAll(old(code), ids[..k], i)
      {
        code := Append(code, ids[k], i);
        assert ids[..k + 1][..k] == ids[..k];
      }
      assert ids[..|ids|] == ids;
    }

    /** LoopLimiter::run: the worklist over a forest of loops, outer loops before the loops they contain. */
    method Run(forest: Forest)
      requires Valid() && done == [] && origin == []
      requires Everywhere(forest, SoundIn(g))
      requires forall h :: Times(forest, h) <= 1
      modifies this
      ensures Valid() && Recorded()
      ensures forall h :: TimesDone(done, h) == Times(forest, h)
      ensures forall l :: l in origin <==> Within(forest, l) && l.preheader.Some? && l.latches != []
      ensures |done| == |origin| && forall i :: 0 <= i < |done| ==> Records(origin[i], done[i])
      ensures forall i :: 0 <= i < |done| ==>
        var e := g[done[i].header].exit;
        done[i].broken <==> breakMode && e.If? && (e.yes in done[i].body) != (e.no in done[i].body)
    {
      hide Valid, AllRecorded, SoundIn, Everywhere, Times, TimesDone, Within, Records;
      var worklist := forest;
      NoneDone(done);
      NoneRecorded(g, origin, done, breakMode);
      while worklist.Add?
        invariant Valid() && Recorded() && Everywhere(worklist, SoundIn(g))
        invariant forall h :: TimesDone(done, h) + Times(worklist, h) == Times(forest, h)
        invariant forall l :: Within(worklist, l) ==> Within(forest, l)
        invariant forall l :: l in origin ==> Within(forest, l) && l.preheader.Some? && l.latches != []
        invariant forall l :: Within(forest, l) && l.preheader.Some? && l.latches != [] ==>
            l in origin || Within(worklist, l)
        decreases Count(worklist)
      {
        var l := worklist.top;
        Popped(worklist, SoundIn(g));
        worklist := Stacked(worklist.rest, l.subs);
        Visit(l);
      }
      NoneLeft(worklist);
      RecordedFields(g, origin, done, breakMode);
    }

    /** One loop off the worklist. */
    method Visit(l: Loop)
      requires Valid() && Recorded() && (Eligible(l) ==> SoundIn(g)(l) && TimesDone(done, l.header) == 0)
      modifies this
      ensures Valid() && Recorded()
      ensures forall h ::
          TimesDone(done, h) == old(TimesDone(done, h)) + (if Eligible(l) && l.header == h then 1 else 0)
      ensures origin == if l.preheader.Some? && l.latches != [] then old(origin) + [l] else old(origin)
    {
      hide Valid, Sound, TimesDone, AllRecorded;
      if l.preheader.Some? && l.latches != [] {
        SoundHere(g, l);
        NotYet(done, l.header);
        ghost var before := done;
        InstrumentLoop(l);
        RecordOne(g, origin, before, done, l, breakMode);
        OneMoreDone(before, done, l.header);
        origin := origin + [l];
      }
    }
  }

  lemma NoneDone(ls: seq<Done>)
    requires ls == []
    ensures forall h :: TimesDone(ls, h) == 0
  {
  }

  lemma NoneRecorded<S>(g: Graph<S>, origin: seq<Loop>, ls: seq<Done>, breakMode: bool)
    requires origin == [] && ls == []
    ensures AllRecorded(g, origin, ls, breakMode)
  {
  }

  lemma NoneLeft(w: Forest)
    requires w.Empty?
    ensures forall h :: Times(w, h) == 0
    ensures forall l :: !Within(w, l)
  {
  }

  /** A record holds what the loop analysis says of its loop. */
  ghost predicate Records(l: Loop, d: Done) {
    l.preheader == Some(d.preheader) && l.header == d.header && l.latches == d.latches && l.body == d.body
  }

  lemma RecordedFields<S>(g: Graph<S>, origin: seq<Loop>, ls: seq<Done>, breakMode: bool)
    requires AllRecorded(g, origin, ls, breakMode)
    ensures |ls| == |origin| && forall i :: 0 <= i < |ls| ==> Records(origin[i], ls[i]) && ls[i].header in g
    ensures forall i :: 0 <= i < |ls| ==>
      var e := g[ls[i].header].exit;
      ls[i].broken <==> breakMode && e.If? && (e.yes in ls[i].body) != (e.no in ls[i].body)
  {
    forall i | 0 <= i < |ls| ensures Behind(g, origin[i], ls[i], breakMode) {
    }
  }

  lemma SoundHere<S>(g: Graph<S>, l: Loop)
    requires Eligible(l) && SoundIn(g)(l)
    ensures Sound(g, l)
  {
  }

  /** Replacing the top loop of the worklist by the loops it contains. */
  lemma Popped(w: Forest, good: Loop -> bool)
    requires w.Add? && Everywhere(w, good)
    ensures var l := w.top; var next := Stacked(w.rest, l.subs);
            && Everywhere(next, good) && (Eligible(l) ==> good(l)) && Count(next) < Count(w)
            && (forall x :: Within(w, x) <==> x == l || Within(next, x))
            && forall h: nat :: Times(w, h) == Times(next, h) + (if Eligible(l) && l.header == h then 1 else 0)
  {
    var l := w.top;
    StackedEverywhere(w.rest, l.subs, good);
    forall x ensures Within(w, x) <==> x == l || Within(Stacked(w.rest, l.subs), x) {
      StackedWithin(w.rest, l.subs, x);
    }
    StackedTotals(w.rest, l.subs, 0);
    forall h: nat ensures Times(w, h) == Times(Stacked(w.rest, l.subs), h)
        + (if Eligible(l) && l.header == h then 1 else 0) {
      StackedTotals(w.rest, l.subs, h);
    }
  }

  lemma NotYet(ls: seq<Done>, h: nat)
    requires TimesDone(ls, h) == 0
    ensures forall j :: 0 <= j < |ls| ==> ls[j].header != h
  {
    forall j | 0 <= j < |ls| ensures ls[j].header != h {
      TimesDoneHas(ls, j);
    }
  }

  lemma HoldersGrow(ls: seq<Done>, d: Done)
    ensures forall b: nat ::
        TailOf(ls + [d], b) == if d.header != b then TailOf(ls, b) else if d.broken then b else d.cont
  {
    forall b: nat ensures TailOf(ls + [d], b) ==
        if d.header != b then TailOf(ls, b) else if d.broken then b else d.cont {
      TailGrows(ls, d, b);
    }
  }

  /** The header still has its own terminator when its loop comes up. */
  lemma HeaderTerm<S>(g: Graph<S>, ls: seq<Done>, h: nat, bound: nat, limit: int, p: Code<S>)
    requires h in g && Shape(g, ls, limit, p) && Ids(g, ls, bound)
    requires forall j :: 0 <= j < |ls| ==> ls[j].header != h
    ensures TailOf(ls, h) == h && h in p && p[h].term == LiftExit(g[h].exit)
  {
    assert BlockShape(g, ls, limit, p, h);
  }
}
