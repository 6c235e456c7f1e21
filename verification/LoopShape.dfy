/** What the LoopLimiter pass makes of a control-flow graph, loop by loop. */
module LoopShape {
  import opened Wrappers
  import opened Cfg

  /** An instrumented loop; broken loops have a widened exit, the others a split header with two added blocks. */
  datatype Done = Done(preheader: nat, header: nat, latches: seq<nat>, body: set<nat>, broken: bool, exit: nat,
      cont: nat)

  /** The index of the loop with header b. */
  function HeaderOf(ls: seq<Done>, b: nat): (i: Option<nat>)
    ensures i.Some? ==> i.value < |ls| && ls[i.value].header == b
    ensures i.None? ==> forall j :: 0 <= j < |ls| ==> ls[j].header != b
  {
    if ls == [] then None
    else if ls[|ls| - 1].header == b then Some(|ls| - 1)
    else HeaderOf(ls[..|ls| - 1], b)
  }

  /** The block that now holds the terminator of source block b. */
  function TailOf(ls: seq<Done>, b: nat): nat {
    var i := HeaderOf(ls, b);
    if i.Some? && !ls[i.value].broken then ls[i.value].cont else b
  }

  /** What loop i appends to the block that holds the terminator of b. */
  function OpsOf<S>(d: Done, i: nat, b: nat, limit: int): seq<Instr<S>> {
    (if b == d.preheader then [Reset(i)] else [])
    + (if d.broken && b == d.header then [Compare(i, limit)] else [])
    + (if b in d.latches && (d.broken || b != d.header) then [Inc(i)] else [])
  }

  function Ops<S>(ls: seq<Done>, b: nat, limit: int): seq<Instr<S>> {
    if ls == [] then []
    else Ops(ls[..|ls| - 1], b, limit) + OpsOf(ls[|ls| - 1], |ls| - 1, b, limit)
  }

  /** Or-ing the bound check into a branch that leaves on true, and-ing its negation into one that stays on true. */
  function Widen<S>(t: Term<S>, d: Done, i: nat): Term<S> {
    match t
    case Branch(c, yes, no) =>
      if yes !in d.body then Branch(OrFlag(c, i), yes, no) else Branch(AndNotFlag(c, i), yes, no)
    case _ => t
  }

  function Widened<S>(ls: seq<Done>, b: nat, t: Term<S>): Term<S> {
    var i := HeaderOf(ls, b);
    if i.Some? && ls[i.value].broken then Widen(t, ls[i.value], i.value) else t
  }

  /** The header of split loop i: the PHIs, the bound check and, if it is its own latch, the increment. */
  function TopBody<S>(d: Done, i: nat, limit: int): seq<Instr<S>> {
    [Compare(i, limit)] + (if d.header in d.latches then [Inc(i)] else [])
  }

  function ExitBlock<S>(): Block<S> {
    Block(map[], [], SilentExit)
  }

  /** PHIs keyed by the blocks that now hold the predecessors' terminators. */
  ghost predicate PhisMatch<S>(g: Graph<S>, ls: seq<Done>, was: map<nat, S -> S>, phis: map<nat, S -> S>) {
    forall k :: k in g ==>
      (k in was <==> TailOf(ls, k) in phis) && (k in was ==> phis[TailOf(ls, k)] == was[k])
  }

  ghost predicate SplitTop<S>(d: Done, i: nat, limit: int, p: Code<S>) {
    && d.header in p && d.exit in p && d.cont in p
    && p[d.header].body == TopBody(d, i, limit)
    && p[d.header].term == Branch(Flag(i), d.exit, d.cont)
    && p[d.exit] == ExitBlock()
    && p[d.cont].phis == map[]
  }

  /** How source block b appears in the code once the loops ls are instrumented. */
  ghost predicate BlockShape<S>(g: Graph<S>, ls: seq<Done>, limit: int, p: Code<S>, b: nat)
    requires b in g
  {
    var t := TailOf(ls, b);
    && b in p && t in p
    && p[t].body == [Op(g[b].effect)] + Ops(ls, b, limit)
    && p[t].term == Widened(ls, b, LiftExit(g[b].exit))
    && PhisMatch(g, ls, g[b].phis, p[b].phis)
  }

  ghost predicate Shape<S>(g: Graph<S>, ls: seq<Done>, limit: int, p: Code<S>) {
    && (forall b :: b in g ==> BlockShape(g, ls, limit, p, b))
    && (forall i :: 0 <= i < |ls| && !ls[i].broken ==> SplitTop(ls[i], i, limit, p))
  }

  /** Added blocks are new and distinct; headers are those of source blocks, one loop each. */
  ghost predicate Ids<S>(g: Graph<S>, ls: seq<Done>, bound: nat) {
    && (forall b :: b in g ==> b < bound)
    && (forall i :: 0 <= i < |ls| ==> ls[i].header in g && (!ls[i].broken ==>
          ls[i].exit < bound && ls[i].cont < bound && ls[i].exit !in g && ls[i].cont !in g))
    && (forall i, j :: 0 <= i < |ls| && 0 <= j < |ls| && !ls[i].broken && !ls[j].broken ==> ls[i].exit != ls[j].cont)
    && (forall i, j :: 0 <= i < j < |ls| && !ls[i].broken && !ls[j].broken ==>
          ls[i].cont != ls[j].cont && ls[i].exit != ls[j].exit)
    && (forall i, j :: 0 <= i < j < |ls| ==> ls[i].header != ls[j].header)
  }

  /** A loop record that belongs to the graph; broken loops have a conditional header with one way out. */
  ghost predicate Fits<S>(g: Graph<S>, d: Done) {
    && d.preheader in g && d.header in g && d.preheader != d.header && d.preheader !in d.latches
    && (forall j :: 0 <= j < |d.latches| ==> d.latches[j] in g)
    && (forall i, j :: 0 <= i < j < |d.latches| ==> d.latches[i] != d.latches[j])
    && (d.broken ==> g[d.header].exit.If? && (g[d.header].exit.yes in d.body) != (g[d.header].exit.no in d.body))
  }

  // ---- facts about the bookkeeping -------------------------------------------------------------------

  lemma HeaderUnique(ls: seq<Done>, i: nat)
    requires i < |ls| && forall i, j :: 0 <= i < j < |ls| ==> ls[i].header != ls[j].header
    ensures HeaderOf(ls, ls[i].header) == Some(i)
  {
  }

  lemma TailInjective<S>(g: Graph<S>, ls: seq<Done>, bound: nat, a: nat, b: nat)
    requires Ids(g, ls, bound) && a in g && b in g
    ensures TailOf(ls, a) == TailOf(ls, b) ==> a == b
    ensures TailOf(ls, a) < bound && (TailOf(ls, a) in g ==> TailOf(ls, a) == a)
  {
  }

  lemma TailGrows(ls: seq<Done>, d: Done, b: nat)
    ensures TailOf(ls + [d], b) == if d.header != b then TailOf(ls, b) else if d.broken then b else d.cont
    ensures HeaderOf(ls + [d], b) == if d.header == b then Some(|ls|) else HeaderOf(ls, b)
  {
    assert (ls + [d])[..|ls|] == ls;
  }

  lemma OpsGrow<S>(ls: seq<Done>, d: Done, b: nat, limit: int)
    ensures Ops<S>(ls + [d], b, limit) == Ops<S>(ls, b, limit) + OpsOf(d, |ls|, b, limit)
  {
    assert (ls + [d])[..|ls|] == ls;
  }

  // ---- the rewriting steps -----------------------------------------------------------------------------

  /** An instruction before the terminator of a block. */
  function Append<S>(p: Code<S>, id: nat, i: Instr<S>): (q: Code<S>)
    requires id in p
    ensures q.Keys == p.Keys
  {
    p[id := p[id].(body := p[id].body + [i])]
  }

  function RenameKey<S>(phis: map<nat, S -> S>, from: nat, to: nat): map<nat, S -> S> {
    if from in phis then (phis - {from})[to := phis[from]] else phis
  }

  /** splitBasicBlock lets the PHIs of all successors name the new block. */
  function RenamePreds<S>(p: Code<S>, from: nat, to: nat): (q: Code<S>)
    ensures q.Keys == p.Keys
  {
    map b | b in p :: p[b].(phis := RenameKey(p[b].phis, from, to))
  }

  /** The header keeps its PHIs and gets the bound check; everything else moves to a new block. */
  function SplitHeader<S>(p: Code<S>, d: Done, i: nat, limit: int): (q: Code<S>)
    requires d.header in p
    ensures q.Keys == p.Keys + {d.exit, d.cont}
  {
    var q := RenamePreds(p, d.header, d.cont);
    q[d.exit := ExitBlock()]
     [d.cont := Block(map[], q[d.header].body, q[d.header].term)]
     [d.header := Block(q[d.header].phis, [Compare(i, limit)], Branch(Flag(i), d.exit, d.cont))]
  }

  function WidenHeader<S>(p: Code<S>, d: Done, i: nat, limit: int): (q: Code<S>)
    requires d.header in p
    ensures q.Keys == p.Keys
  {
    p[d.header := p[d.header].(body := p[d.header].body + [Compare(i, limit)], term := Widen(p[d.header].term, d, i))]
  }

  function AppendAll<S>(p: Code<S>, ids: seq<nat>, i: Instr<S>): (q: Code<S>)
    requires forall j :: 0 <= j < |ids| ==> ids[j] in p
    ensures q.Keys == p.Keys
  {
    if ids == [] then p else Append(AppendAll(p, ids[..|ids| - 1], i), ids[|ids| - 1], i)
  }

  /** The blocks that hold the terminators of the latches before this loop is touched. */
  function LatchBlocks(ls: seq<Done>, d: Done): (ids: seq<nat>)
    ensures |ids| == |d.latches| && forall j :: 0 <= j < |ids| ==> ids[j] == TailOf(ls, d.latches[j])
  {
    seq(|d.latches|, j requires 0 <= j < |d.latches| => TailOf(ls, d.latches[j]))
  }

  // ---- what the steps leave in each block --------------------------------------------------------------

  lemma AppendAt<S>(p: Code<S>, id: nat, i: Instr<S>, x: nat)
    requires id in p && x in p
    ensures var q := Append(p, id, i);
            && q[x].phis == p[x].phis && q[x].term == p[x].term
            && q[x].body == p[x].body + (if x == id then [i] else [])
  {
  }

  lemma WidenAt<S>(p: Code<S>, d: Done, i: nat, limit: int, x: nat)
    requires d.header in p && x in p
    ensures var q := WidenHeader(p, d, i, limit);
            && q[x].phis == p[x].phis
            && q[x].term == (if x == d.header then Widen(p[x].term, d, i) else p[x].term)
            && q[x].body == p[x].body + (if x == d.header then [Compare(i, limit)] else [])
  {
  }

  /** Splitting: an old block other than the header only has its PHIs renamed. */
  lemma SplitAt<S>(p: Code<S>, d: Done, i: nat, limit: int, x: nat)
    requires d.header in p && d.exit !in p && d.cont !in p && x in p
    ensures var q := SplitHeader(p, d, i, limit);
            && q[x].phis == RenameKey(p[x].phis, d.header, d.cont)
            && (x != d.header ==> q[x].term == p[x].term && q[x].body == p[x].body)
  {
  }

  /** Splitting: the header, its new rest and the exit block. */
  lemma SplitNew<S>(p: Code<S>, d: Done, i: nat, limit: int)
    requires d.header in p && d.exit !in p && d.cont !in p && d.exit != d.cont
    ensures var q := SplitHeader(p, d, i, limit);
            && q[d.header].body == [Compare(i, limit)] && q[d.header].term == Branch(Flag(i), d.exit, d.cont)
            && q[d.cont] == Block(map[], p[d.header].body, p[d.header].term)
            && q[d.exit] == ExitBlock()
  {
  }

  lemma {:induction false} AppendAllAt<S>(p: Code<S>, ids: seq<nat>, i: Instr<S>, id: nat)
    requires forall j :: 0 <= j < |ids| ==> ids[j] in p
    requires forall j, k :: 0 <= j < k < |ids| ==> ids[j] != ids[k]
    requires id in p
    ensures var q := AppendAll(p, ids, i);
            && q[id].phis == p[id].phis && q[id].term == p[id].term
            && q[id].body == p[id].body + (if id in ids then [i] else [])
            && (id !in ids ==> q[id] == p[id])
  {
    if ids != [] {
      AppendAllAt(p, ids[..|ids| - 1], i, id);
    }
  }
}
