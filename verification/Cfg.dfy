/** Control-flow graphs before and after the LoopLimiter pass, over an arbitrary program state S. */
module Cfg {
  import opened Wrappers

  // ---- the source ----------------------------------------------------------------------------------

  datatype Exit<!S> =
    | Goto(target: nat)
    | If(test: S -> bool, yes: nat, no: nat)
    | Switch(choose: S -> nat, targets: seq<nat>, otherwise: nat)
    | Leave

  /** A basic block: PHIs by predecessor, the effect of its other instructions, its terminator. */
  datatype Source<!S> = Source(phis: map<nat, S -> S>, effect: S -> S, exit: Exit<S>)

  type Graph<!S> = map<nat, Source<S>>

  function Phi<S>(phis: map<nat, S -> S>, prev: Option<nat>, s: S): S {
    if prev.Some? && prev.value in phis then phis[prev.value](s) else s
  }

  function Successor<S>(e: Exit<S>, s: S): Option<nat> {
    match e
    case Goto(t) => Some(t)
    case If(test, yes, no) => Some(if test(s) then yes else no)
    case Switch(choose, targets, otherwise) =>
      Some(if choose(s) < |targets| then targets[choose(s)] else otherwise)
    case Leave => None
  }

  function Targets<S>(e: Exit<S>): set<nat> {
    match e
    case Goto(t) => {t}
    case If(test, yes, no) => {yes, no}
    case Switch(choose, targets, otherwise) => (set t | t in targets) + {otherwise}
    case Leave => {}
  }

  lemma SuccessorIsTarget<S>(e: Exit<S>, s: S)
    ensures Successor(e, s).Some? ==> Successor(e, s).value in Targets(e)
  {
  }

  ghost predicate Closed<S>(g: Graph<S>) {
    forall b :: b in g ==> Targets(g[b].exit) <= g.Keys
  }

  /** The original program: where it is, where it came from, and its state on arrival. */
  datatype Run<!S> = Run(prev: Option<nat>, at: nat, s: S) | Over(s: S)

  function Start<S>(entry: nat, s: S): Run<S> {
    Run.Run(None, entry, s)
  }

  /** The state after the PHIs and the instructions of a block. */
  function After<S>(b: Source<S>, prev: Option<nat>, s: S): S {
    b.effect(Phi(b.phis, prev, s))
  }

  ghost function RunStep<S>(g: Graph<S>, r: Run<S>): Run<S> {
    if r.Over? || r.at !in g then r
    else
      var s := After(g[r.at], r.prev, r.s);
      var next := Successor(g[r.at].exit, s);
      if next.Some? then Run.Run(Some(r.at), next.value, s) else Over(s)
  }

  // ---- the instrumented code -------------------------------------------------------------------------

  datatype Instr<!S> = Op(effect: S -> S) | Reset(counter: nat) | Inc(counter: nat) | Compare(counter: nat, limit: int)

  datatype Cond<!S> = Test(test: S -> bool) | Flag(flag: nat)
      | OrFlag(cond: Cond<S>, flag: nat) | AndNotFlag(cond: Cond<S>, flag: nat)

  datatype Term<!S> =
    | Jump(target: nat)
    | Branch(cond: Cond<S>, yes: nat, no: nat)
    | Select(choose: S -> nat, targets: seq<nat>, otherwise: nat)
    | Return
    | SilentExit

  datatype Block<!S> = Block(phis: map<nat, S -> S>, body: seq<Instr<S>>, term: Term<S>)

  type Code<!S> = map<nat, Block<S>>

  /** Program state, the i32 counters and the results of the bound checks. */
  datatype State<!S> = State(s: S, counters: map<nat, int>, flags: map<nat, bool>)

  function Get(m: map<nat, int>, i: nat): int {
    if i in m then m[i] else 0
  }

  function Raised(m: map<nat, bool>, i: nat): bool {
    i in m && m[i]
  }

  /** Addition on i32. */
  function Wrap(x: int): (r: int)
    ensures -0x8000_0000 <= r < 0x8000_0000
    ensures -0x8000_0000 <= x < 0x8000_0000 ==> r == x
  {
    (x + 0x8000_0000) % 0x1_0000_0000 - 0x8000_0000
  }

  function Perform<S>(i: Instr<S>, st: State<S>): State<S> {
    match i
    case Op(f) => st.(s := f(st.s))
    case Reset(c) => st.(counters := st.counters[c := 0])
    case Inc(c) => st.(counters := st.counters[c := Wrap(Get(st.counters, c) + 1)])
    case Compare(c, limit) => st.(flags := st.flags[c := Get(st.counters, c) >= limit])
  }

  function Exec<S>(body: seq<Instr<S>>, st: State<S>): State<S> {
    if body == [] then st else Perform(body[|body| - 1], Exec(body[..|body| - 1], st))
  }

  lemma {:induction false} ExecAppend<S>(a: seq<Instr<S>>, b: seq<Instr<S>>, st: State<S>)
    ensures Exec(a + b, st) == Exec(b, Exec(a, st))
    decreases |b|
  {
    if b == [] {
      assert a + b == a;
    } else {
      var n := |b| - 1;
      ExecAppend(a, b[..n], st);
      assert (a + b)[..|a + b| - 1] == a + b[..n];
    }
  }

  function Eval<S>(c: Cond<S>, st: State<S>): bool {
    match c
    case Test(f) => f(st.s)
    case Flag(i) => Raised(st.flags, i)
    case OrFlag(d, i) => Eval(d, st) || Raised(st.flags, i)
    case AndNotFlag(d, i) => Eval(d, st) && !Raised(st.flags, i)
  }

  datatype Config<!S> = At(prev: Option<nat>, at: nat, st: State<S>) | Returned(st: State<S>) | Exited(st: State<S>)

  function Branching<S>(t: Term<S>, at: nat, st: State<S>): Config<S> {
    match t
    case Jump(next) => At(Some(at), next, st)
    case Branch(c, yes, no) => At(Some(at), if Eval(c, st) then yes else no, st)
    case Select(choose, targets, otherwise) =>
      At(Some(at), if choose(st.s) < |targets| then targets[choose(st.s)] else otherwise, st)
    case Return => Returned(st)
    case SilentExit => Exited(st)
  }

  ghost function Step<S>(p: Code<S>, c: Config<S>): Config<S> {
    if !c.At? || c.at !in p then c
    else
      var b := p[c.at];
      Branching(b.term, c.at, Exec(b.body, c.st.(s := Phi(b.phis, c.prev, c.st.s))))
  }

  // ---- source blocks as code ---------------------------------------------------------------------------

  function LiftExit<S>(e: Exit<S>): Term<S> {
    match e
    case Goto(t) => Jump(t)
    case If(test, yes, no) => Branch(Test(test), yes, no)
    case Switch(choose, targets, otherwise) => Select(choose, targets, otherwise)
    case Leave => Return
  }

  function Lift<S>(b: Source<S>): Block<S> {
    Block(b.phis, [Op(b.effect)], LiftExit(b.exit))
  }
}
