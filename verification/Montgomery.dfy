/** Montgomery multiplication: mpi_montg_init, mpi_montmul and mpi_montred. */
module Montgomery {
  import opened Bits
  import opened Limbs
  import opened MpiCore
  import opened MpiArith
  import opened Congruence

  // ---- the inverse modulo 2^32 -------------------------------------------------------------------

  /** The third bit of a word. */
  lemma AndFour(x: nat)
    ensures And(x, 4) == if x / 4 % 2 == 1 then 4 else 0
  {
    assert And(x, 4) == if x == 0 then 0 else 2 * And(x / 2, 2);
    assert And(x / 2, 2) == if x / 2 == 0 then 0 else 2 * And(x / 2 / 2, 1);
    AndOne(x / 2 / 2);
    assert x / 2 / 2 == x / 4;
  }

  /** The starting value is right modulo 16. */
  lemma FirstInverse(m0: Limb, x: Limb) returns (g: int)
    requires m0 % 2 == 1 && x == (m0 + And((m0 + 2) % BASE, 4) * 2) % BASE
    ensures m0 * x == 1 + 16 * g
  {
    hide And;
    AndFour((m0 + 2) % BASE);
    LowBits(m0);
    var h, l := m0 / 16, m0 % 16;
    var e := if (l + 2) / 4 % 2 == 1 then 8 else 0;
    var c := if m0 + e >= BASE then 1 else 0;
    var k, r := SmallInverse(l, e);
    g := InverseExpand(m0, x, h, l, e, c, k);
  }

  lemma LowBits(m0: Limb)
    ensures (m0 + 2) % BASE / 4 % 2 == (m0 % 16 + 2) / 4 % 2
    ensures m0 == 16 * (m0 / 16) + m0 % 16 && (m0 % 16) % 2 == m0 % 2
  {
    var h, l := m0 / 16, m0 % 16;
    var c := if m0 + 2 >= BASE then 1 else 0;
    var x := m0 + 2 - c * BASE;
    DivModUnique(m0 + 2, BASE, c, x);
    DivModUnique(x, 8, 2 * h - c * 0x2000_0000 + (l + 2) / 8, (l + 2) % 8);
    ThirdBit(x);
    ThirdBit(l + 2);
    DivModUnique(m0, 2, 8 * h + l / 2, l % 2);
  }

  lemma ThirdBit(x: nat)
    ensures x / 4 % 2 == x % 8 / 4
  {
    var a, b := x / 8, x % 8;
    DivModUnique(x, 4, 2 * a + b / 4, b % 4);
    DivModUnique(2 * a + b / 4, 2, a, b / 4);
  }

  lemma SmallInverse(l: int, e: int) returns (k: int, r: int)
    requires 0 <= l < 16 && l % 2 == 1 && e == if (l + 2) / 4 % 2 == 1 then 8 else 0
    ensures l * l + l * e == 1 + 16 * k
  {
    k := (l * l + l * e) / 16;
    r := 0;
    assert l in {1, 3, 5, 7, 9, 11, 13, 15};
  }

  lemma InverseExpand(m0: int, x: int, h: int, l: int, e: int, c: int, k: int) returns (g: int)
    requires m0 == 16 * h + l && l * l + l * e == 1 + 16 * k && x == m0 + e - c * 0x1_0000_0000
    ensures m0 * x == 1 + 16 * g
  {
    SquareSplit(m0, h, l, e);
    ThreeTerms(m0, m0, e, -c * 0x1_0000_0000);
    assert m0 * (-c * 0x1_0000_0000) == -0x1_0000_0000 * (c * m0);
    g := 16 * (h * h) + 2 * (h * l) + h * e + k - 0x1000_0000 * (c * m0);
  }

  lemma SquareSplit(m0: int, h: int, l: int, e: int)
    requires m0 == 16 * h + l
    ensures m0 * m0 == 256 * (h * h) + 32 * (h * l) + l * l && m0 * e == 16 * (h * e) + l * e
  {
    assert (16 * h + l) * (16 * h + l) == 256 * (h * h) + 32 * (h * l) + l * l;
    assert (16 * h + l) * e == 16 * (h * e) + l * e;
  }

  lemma ThreeTerms(m: int, a: int, b: int, c: int)
    ensures m * (a + b + c) == m * a + m * b + m * c
  {
  }

  /** One Newton step doubles the number of correct low bits: precision p becomes p * p. */
  lemma NewtonStep(m0: Limb, x: Limb, x1: Limb, p: int, k: int, g: int) returns (g1: int)
    requires p * p * k == BASE
    requires m0 * x == 1 + p * g && x1 == x * ((2 - m0 * x) % BASE) % BASE
    ensures m0 * x1 == 1 + p * p * g1
  {
    var pg := p * g;
    var a := (1 - pg) / BASE;
    var y := (1 - pg) % BASE;
    var c := x * y / BASE;
    assert x1 == x * (1 - pg - BASE * a) - BASE * c;
    NewtonExpand(m0, x, pg, a, c);
    g1 := NewtonClose(m0 * x1, p, k, g, m0 * (x * a) + m0 * c);
  }

  lemma NewtonClose(v: int, p: int, k: int, g: int, d: int) returns (g1: int)
    requires p * p * k == 0x1_0000_0000 && v == 1 - (p * g) * (p * g) - 0x1_0000_0000 * d
    ensures v == 1 + p * p * g1
  {
    g1 := -(g * g) - k * d;
    assert (p * g) * (p * g) == (p * p) * (g * g);
    assert 0x1_0000_0000 * d == (p * p) * (k * d);
    assert (p * p) * g1 == -((p * p) * (g * g)) - (p * p) * (k * d);
  }

  lemma NewtonExpand(m0: int, x: int, pg: int, a: int, c: int)
    requires m0 * x == 1 + pg
    ensures m0 * (x * (1 - pg - 0x1_0000_0000 * a) - 0x1_0000_0000 * c)
         == 1 - pg * pg - 0x1_0000_0000 * (m0 * (x * a) + m0 * c)
  {
    assert m0 * (x * (1 - pg - 0x1_0000_0000 * a)) == (m0 * x) * (1 - pg - 0x1_0000_0000 * a);
    assert (1 + pg) * (1 - pg - 0x1_0000_0000 * a) == 1 - pg * pg - 0x1_0000_0000 * (a + pg * a);
    assert m0 * (x * a) == (m0 * x) * a == a + pg * a;
  }

  /** mpi_montg_init: the negated inverse of the low limb of N modulo 2^32. */
  method MontgInit(N: Mpi) returns (mm: Limb)
    requires |N.p| > 0 && N.p[0] % 2 == 1
    ensures (mm * N.p[0] + 1) % BASE == 0
  {
    var m0 := N.p[0];
    var x: Limb := (m0 + And((m0 + 2) % BASE, 4) * 2) % BASE;
    ghost var g := FirstInverse(m0, x);
    ghost var p := 16;
    var i := 32;
    while i >= 8
      invariant i in {32, 16, 8, 4}
      invariant p == if i == 32 then 16 else if i == 16 then 0x100 else if i == 8 then 0x1_0000 else BASE
      invariant m0 * x == 1 + p * g
    {
      var x1: Limb := x * ((2 - m0 * x) % BASE) % BASE;
      g := NewtonStep(m0, x, x1, p, if i == 32 then 0x100_0000 else if i == 16 then 0x1_0000 else 1, g);
      p := p * p;
      x := x1;
      i := i / 2;
    }
    mm := (BASE - 1 - x + 1) % BASE;
    NegatedInverse(m0, x, mm, g);
  }

  lemma NegatedInverse(m0: Limb, x: Limb, mm: Limb, g: int)
    requires m0 * x == 1 + BASE * g && mm == (BASE - 1 - x + 1) % BASE
    ensures (mm * m0 + 1) % BASE == 0
  {
    var c := if x == 0 then 1 else 0;
    assert mm == BASE - x - c * BASE;
    var k := m0 - c * m0 - g;
    assert mm * m0 == BASE * (m0 - c * m0) - m0 * x;
    DivModUnique(mm * m0 + 1, BASE, k, 0);
  }

  // ---- the multiplication loop ----------------------------------------------------------------------

  /** After i rounds: t, held in the window at i, satisfies t * BASE^i = A[..i] * b + u * nn, u < BASE^i. */
  ghost predicate MontState(tp: seq<Limb>, n: nat, i: nat, ai: nat, b: nat, nn: nat, u: nat, t: nat) {
    && i <= n && 2 * n + 2 <= |tp|
    && t == Val(tp[i..i + n + 2])
    && (forall j :: i + n + 1 <= j < |tp| ==> tp[j] == 0)
    && u < Radix(i) && t * Radix(i) == ai * b + u * nn
  }

  /** The running value stays below nn + b. */
  lemma RunningBound(t: nat, ri: int, ai: nat, b: nat, nn: nat, u: nat)
    requires 0 <= ai < ri && u < ri && t * ri == ai * b + u * nn && (nn > 0 || b > 0)
    ensures t < nn + b
  {
    MulAtLeast(b, ri - 1, ai);
    MulAtLeast(nn, ri - 1, u);
    MulAtLeast(ri - 1, nn + b, 0);
    assert (ri - 1) * b + (ri - 1) * nn == (ri - 1) * (nn + b);
    assert (ri - 1) * (nn + b) == ri * (nn + b) - (nn + b);
    if t >= nn + b {
      MulAtLeast(ri, t, nn + b);
    }
  }

  /** The two accumulations of one round do not overflow the window of n + 2 limbs. */
  lemma RoundFits(t: nat, u0: Limb, u1: Limb, b: nat, nn: nat, rn: int)
    requires t < nn + b && b <= nn < rn
    ensures t + b * u0 + 0 < BASE * BASE * rn
    ensures t + b * u0 + nn * u1 + 0 < BASE * BASE * rn
  {
    MulAtLeast(b, BASE - 1, u0);
    MulAtLeast(nn, BASE - 1, u1);
  }

  /** The second digit is chosen so that the sum is divisible by BASE. */
  lemma DigitClears(t: nat, b: nat, nn: nat, d0: Limb, b0: Limb, n0: Limb, u0: Limb, mm: Limb, u1: Limb)
    requires t % BASE == d0 && b % BASE == b0 && nn % BASE == n0
    requires (mm * n0 + 1) % BASE == 0 && u1 == (d0 + u0 * b0) * mm % BASE
    ensures (t + b * u0 + nn * u1) % BASE == 0
  {
    var s := d0 + u0 * b0;
    var h := (mm * n0 + 1) / BASE;
    var q := s * mm / BASE;
    assert s * mm == BASE * q + u1;
    assert mm * n0 == BASE * h - 1;
    var bq, nq, tq := b / BASE, nn / BASE, t / BASE;
    MulSplit(b, bq, b0, u0);
    MulSplit(nn, nq, n0, u1);
    DigitProduct(s, mm, n0, u1, q, h);
    DivModUnique(t + b * u0 + nn * u1, BASE, tq + bq * u0 + nq * u1 + s * h - q * n0, 0);
  }

  lemma MulSplit(x: int, q: int, r: int, u: int)
    requires x == BASE * q + r
    ensures x * u == BASE * (q * u) + r * u
  {
  }

  lemma DigitProduct(s: int, mm: int, n0: int, u1: int, q: int, h: int)
    requires s * mm == BASE * q + u1 && mm * n0 == BASE * h - 1
    ensures n0 * u1 == BASE * (s * h - q * n0) - s
  {
    assert n0 * u1 == n0 * (s * mm) - n0 * (BASE * q);
    assert n0 * (s * mm) == s * (mm * n0);
    assert s * (BASE * h - 1) == BASE * (s * h) - s;
    assert n0 * (BASE * q) == BASE * (q * n0);
  }

  /** One round on the numbers. */
  lemma RoundValue(t: nat, ri: int, ai: nat, b: nat, nn: nat, u: nat, u0: int, u1: int, t1: nat)
    requires ri > 0 && 0 <= u < ri && 0 <= u1 < BASE
    requires t * ri == ai * b + u * nn && BASE * t1 == t + b * u0 + nn * u1
    ensures 0 <= u + ri * u1 < BASE * ri
    ensures t1 * (BASE * ri) == (ai + ri * u0) * b + (u + ri * u1) * nn
  {
    assert t1 * (BASE * ri) == (BASE * t1) * ri;
    assert (t + b * u0 + nn * u1) * ri == t * ri + (b * u0) * ri + (nn * u1) * ri;
    assert (ai + ri * u0) * b == ai * b + (b * u0) * ri;
    assert (u + ri * u1) * nn == u * nn + (nn * u1) * ri;
    MulAtLeast(ri, BASE - 1, u1);
    MulAtLeast(ri, u1, 0);
  }

  /** One round on the limbs: w2 is the window after both accumulations. */
  lemma RoundWindow(tp: seq<Limb>, tp2: seq<Limb>, w2: seq<Limb>, n: nat, i: nat) returns (t1: nat)
    requires i < n && 2 * n + 2 <= |tp| && |w2| == n + 2 && tp2 == Splice(tp, i, w2)
    requires forall j :: i + n + 1 <= j < |tp| ==> tp[j] == 0
    requires Val(w2) % BASE == 0
    ensures t1 == Val(tp2[i + 1..i + n + 3]) && BASE * t1 == Val(w2)
    ensures forall j :: i + n + 2 <= j < |tp2| ==> tp2[j] == 0
    ensures |tp2| == |tp|
  {
    t1 := Val(w2[1..]);
    assert Val(w2) == w2[0] + BASE * t1;
    var v := tp2[i + 1..i + n + 3];
    assert v == w2[1..] + [0];
    ValTrim(v, n + 1);
    assert v[..n + 1] == w2[1..];
  }

  lemma LowLimb(s: seq<Limb>)
    requires |s| > 0
    ensures Val(s) % BASE == s[0]
  {
  }

  /** The limbs of b that the loop reads hold all of b. */
  lemma OperandLimbs(p: seq<Limb>, n: nat, m: nat, rn: int)
    requires Val(p) < Radix(n) && m == if |p| < n then |p| else n
    ensures Val(p[..m]) == Val(p)
  {
    if |p| < n {
      assert p[..m] == p;
    } else {
      ValSmall(p, n);
    }
  }

  /** One round of mpi_montmul. */
  method MontRound(A: Mpi, B: Mpi, N: Mpi, mm: Limb, T: Mpi, n: nat, m: nat, i: nat,
                   ghost ai: nat, ghost u: nat, ghost t: nat)
    returns (ghost u1: nat, ghost t1: nat)
    requires T !in {A, B, N} && n == |N.p| && i < n <= |A.p| && m == (if |B.p| < n then |B.p| else n) > 0
    requires B.Mag() <= N.Mag() && N.Mag() > 0 && (mm * N.p[0] + 1) % BASE == 0
    requires ai < Radix(i) && MontState(T.p, n, i, ai, B.Mag(), N.Mag(), u, t)
    modifies T`p
    ensures |T.p| == |old(T.p)|
    ensures MontState(T.p, n, i + 1, ai + Radix(i) * A.p[i], B.Mag(), N.Mag(), u1, t1)
  {
    hide Val, MulAdd, Splice, Accumulating;
    ghost var tp, b, nn, w := T.p, B.Mag(), N.Mag(), T.p[i..i + n + 2];
    var u0: Limb := A.p[i];
    var v1: Limb := (T.p[i] + u0 * B.p[0]) * mm % BASE;
    ValBound(N.p);
    OperandLimbs(B.p, n, m, Radix(n));
    RunningBound(t, Radix(i), ai, b, nn, u);
    RoundFits(t, u0, v1, b, nn, Radix(n));
    LowLimb(w);
    LowLimb(B.p);
    LowLimb(N.p);
    DigitClears(t, b, nn, T.p[i], B.p[0], N.p[0], u0, mm, v1);
    ghost var w2 := MontAccumulate(B, N, T, n, m, i, u0, v1);
    t1 := RoundWindow(tp, T.p, w2, n, i);
    RoundValue(t, Radix(i), ai, b, nn, u, u0, v1, t1);
    u1 := u + Radix(i) * v1;
  }

  /** The two multiply-accumulates of a round. */
  method MontAccumulate(B: Mpi, N: Mpi, T: Mpi, n: nat, m: nat, i: nat, u0: Limb, u1: Limb)
      returns (ghost w2: seq<Limb>)
    requires T !in {B, N} && n == |N.p| && m <= n && m <= |B.p| && i + n + 2 <= |T.p|
    requires var w := Val(T.p[i..i + n + 2]) + Val(B.p[..m]) * u0;
             w + 0 < BASE * BASE * Radix(n) && w + N.Mag() * u1 + 0 < BASE * BASE * Radix(n)
    modifies T`p
    ensures |w2| == n + 2 && T.p == Splice(old(T.p), i, w2)
    ensures Val(w2) == Val(old(T.p[i..i + n + 2])) + Val(B.p[..m]) * u0 + N.Mag() * u1
  {
    hide Val, MulAdd;
    ghost var tp, w := T.p, T.p[i..i + n + 2];
    assert Radix(n + 2) == BASE * BASE * Radix(n) by {
      assert Radix(n + 2) == BASE * Radix(n + 1);
    }
    ghost var w1 := MulAdd(w, B.p[..m], u0, 0);
    MulAddExact(w, B.p[..m], u0, 0);
    T.CoreMla(i, n + 2, B, m, u0);
    assert T.p[i..i + n + 2] == w1;
    assert N.p[..n] == N.p;
    w2 := MulAdd(w1, N.p, u1, 0);
    MulAddExact(w1, N.p, u1, 0);
    T.CoreMla(i, n + 2, N, n, u1);
    assert Splice(Splice(tp, i, w1), i, w2) == Splice(tp, i, w2);
  }

  // ---- the final correction -------------------------------------------------------------------------

  /** mbedtls_ct_mpi_uint_cond_assign, an external helper: dest[..n) := src[off..off+n) if the condition is 1. */
  method CondAssign(n: nat, D: Mpi, S: Mpi, off: nat, condition: Limb)
    requires D != S && n <= |D.p| && off + n <= |S.p| && condition <= 1
    modifies D`p
    ensures D.p == if condition == 1 then S.p[off..off + n] + old(D.p[n..]) else old(D.p)
  {
    if condition == 1 {
      D.p := S.p[off..off + n] + D.p[n..];
    }
  }

  /** A <- the running value, reduced once if it reaches N: the borrow and the carry limb decide without branching. */
  method MontFinish(A: Mpi, N: Mpi, T: Mpi, n: nat)
    requires T !in {A, N} && A != N && n == |N.p| && 0 < n <= |A.p| && |T.p| >= 2 * n + 2
    requires T.p[2 * n + 1] == 0 && Val(T.p[n..2 * n + 2]) < 2 * N.Mag()
    modifies T`p, A`p
    ensures |A.p| == |old(A.p)| && A.p[n..] == old(A.p[n..]) && |T.p| == |old(T.p)|
    ensures Val(A.p[..n]) < N.Mag()
    ensures var t := old(Val(T.p[n..2 * n + 2]));
            Val(A.p[..n]) == if t < N.Mag() then t else t - N.Mag()
  {
    hide Val, SubLimbs, SubBorrow;
    ghost var lo, hi, tail := T.p[n..2 * n], T.p[2 * n], A.p[n..];
    CarrySplit(T.p[n..2 * n + 2], n, lo, hi);
    A.p := T.p[n..2 * n] + A.p[n..];
    T.p := T.p[2 * n := (T.p[2 * n] + 1) % BASE];
    assert T.p[n..n + n] == lo && N.p[..n] == N.p;
    var tmp := T.SubHlp(n, n, T, n, N);
    FinishCarry(lo, hi, N.p);
    assert T.p[n..2 * n] == SubLimbs(lo, N.p, 0);
    T.p := T.p[2 * n := (T.p[2 * n] - tmp) % BASE];
    assert T.p[n..2 * n] == SubLimbs(lo, N.p, 0);
    CondAssign(n, A, T, n, T.p[2 * n]);
    assert A.p[n..] == tail;
  }

  lemma CarrySplit(w: seq<Limb>, n: nat, lo: seq<Limb>, hi: Limb)
    requires |w| == n + 2 && w[n + 1] == 0 && lo == w[..n] && hi == w[n]
    ensures Val(w) == Val(lo) + Radix(n) * hi
  {
    hide Val, Radix;
    ValTrim(w, n + 1);
    ValTopSplit(w[..n + 1]);
    assert w[..n + 1][..n] == lo;
  }

  /** The carry limb after adding 1 and taking the borrow is 1 exactly when the value reaches N. */
  lemma FinishCarry(lo: seq<Limb>, hi: Limb, np: seq<Limb>)
    requires |lo| == |np| && Val(lo) + Radix(|np|) * hi < 2 * Val(np)
    ensures var t := Val(lo) + Radix(|np|) * hi;
            && ((hi + 1) % BASE - SubBorrow(lo, np, 0)) % BASE == (if t < Val(np) then 0 else 1)
            && (t < Val(np) ==> Val(lo) == t)
            && (t >= Val(np) ==> Val(SubLimbs(lo, np, 0)) == t - Val(np))
  {
    hide Val, Radix, SubLimbs, SubBorrow;
    SubLimbsVal(lo, np, 0);
    SubLimbsBorrow(lo, np, 0);
    ValBound(lo);
    ValBound(np);
    ValBound(SubLimbs(lo, np, 0));
    CarryCases(Val(lo), Val(np), Val(SubLimbs(lo, np, 0)), Radix(|np|), hi, SubBorrow(lo, np, 0));
    assert (hi + 1) % BASE == hi + 1;
  }

  lemma CarryCases(lo: nat, n: nat, d: nat, r: int, hi: nat, b: int)
    requires lo < r && n < r && d < r && lo + r * hi < 2 * n
    requires b == (if lo < n then 1 else 0) && d == lo - n + b * r
    ensures hi <= 1 && hi + 1 - b == (if lo + r * hi < n then 0 else 1)
    ensures lo + r * hi < n ==> hi == 0
    ensures lo + r * hi >= n ==> d == lo + r * hi - n
  {
    if hi >= 2 {
      MulAtLeast(r, hi, 2);
    }
  }

  // ---- the operations -------------------------------------------------------------------------------

  /** mpi_montmul: A <- A * B * BASE^-n mod N, for any n-limb A and B up to N. A may be B. */
  method Montmul(A: Mpi, B: Mpi, N: Mpi, mm: Limb, T: Mpi)
    requires T !in {A, B, N} && A != N && 0 < |N.p| <= |A.p| && |B.p| > 0 && |T.p| >= 2 * |N.p| + 2
    requires B.Mag() <= N.Mag() && N.Mag() > 0 && (mm * N.p[0] + 1) % BASE == 0
    modifies A`p, T`p
    ensures |A.p| == |old(A.p)| && |T.p| == |old(T.p)| && A.p[|N.p|..] == old(A.p[|N.p|..])
    ensures Val(A.p[..|N.p|]) < N.Mag()
    ensures Cong(Val(A.p[..|N.p|]) * Radix(|N.p|), Val(old(A.p[..|N.p|])) * old(B.Mag()), N.Mag())
  {
    hide Val;
    T.p := Zeros(|T.p|);
    var n := |N.p|;
    ghost var a := A.p[..n];
    ghost var u, t := MontLoop(A, B, N, mm, T, n);
    ghost var b, nn := B.Mag(), N.Mag();
    MontFinish(A, N, T, n);
    MontResult(Val(A.p[..n]), t, Radix(n), Val(a), b, nn, u);
  }

  /** The n rounds of mpi_montmul on a cleared T. */
  method MontLoop(A: Mpi, B: Mpi, N: Mpi, mm: Limb, T: Mpi, n: nat) returns (ghost u: nat, ghost t: nat)
    requires T !in {A, B, N} && 0 < n == |N.p| <= |A.p| && |B.p| > 0 && |T.p| >= 2 * n + 2
    requires B.Mag() <= N.Mag() && N.Mag() > 0 && (mm * N.p[0] + 1) % BASE == 0
    requires forall j :: 0 <= j < |T.p| ==> T.p[j] == 0
    modifies T`p
    ensures |T.p| == |old(T.p)|
    ensures t == Val(T.p[n..2 * n + 2]) < 2 * N.Mag() && T.p[2 * n + 1] == 0
    ensures t * Radix(n) == Val(A.p[..n]) * B.Mag() + u * N.Mag()
  {
    hide Val, MontState;
    var m := if |B.p| < n then |B.p| else n;
    ghost var a, b, nn, ai: nat := A.p, B.Mag(), N.Mag(), 0;
    u, t := 0, 0;
    MontStart(T.p, n, b, nn);
    assert a[..0] == [];
    var i := 0;
    while i < n
      invariant 0 <= i <= n && |T.p| == |old(T.p)|
      invariant ai == Val(a[..i]) < Radix(i)
      invariant MontState(T.p, n, i, ai, b, nn, u, t)
    {
      PrefixNext(a, i);
      u, t := MontRound(A, B, N, mm, T, n, m, i, ai, u, t);
      ai := Val(a[..i + 1]);
      i := i + 1;
    }
    MontEnd(T.p, n, ai, b, nn, u, t);
  }

  lemma MontStart(tp: seq<Limb>, n: nat, b: nat, nn: nat)
    requires |tp| >= 2 * n + 2 && forall j :: 0 <= j < |tp| ==> tp[j] == 0
    ensures MontState(tp, n, 0, 0, b, nn, 0, 0)
    ensures Val([]) == 0 < Radix(0)
  {
    ValZeros(tp[0..n + 2]);
  }

  lemma PrefixNext(a: seq<Limb>, i: nat)
    requires i < |a|
    ensures Val(a[..i + 1]) == Val(a[..i]) + Radix(i) * a[i] < Radix(i + 1)
  {
    hide Val, Radix;
    ValTopSplit(a[..i + 1]);
    assert a[..i + 1][..i] == a[..i];
    ValBound(a[..i + 1]);
  }

  lemma MontEnd(tp: seq<Limb>, n: nat, ai: nat, b: nat, nn: nat, u: nat, t: nat)
    requires MontState(tp, n, n, ai, b, nn, u, t) && b <= nn && nn > 0 && ai < Radix(n)
    ensures t == Val(tp[n..2 * n + 2]) < 2 * nn && tp[2 * n + 1] == 0
    ensures t * Radix(n) == ai * b + u * nn
  {
    RunningBound(t, Radix(n), ai, b, nn, u);
  }

  lemma MontResult(r: nat, t: nat, rn: int, a: nat, b: nat, nn: nat, u: nat)
    requires nn > 0 && t * rn == a * b + u * nn && r == if t < nn then t else t - nn
    ensures Cong(r * rn, a * b, nn)
  {
    if t < nn {
      CongFrom(r * rn, a * b, nn, u);
    } else {
      assert r * rn == t * rn - nn * rn;
      assert (u - rn) * nn == u * nn - nn * rn;
      CongFrom(r * rn, a * b, nn, u - rn);
    }
  }

  /** mpi_montred: A <- A * BASE^-n mod N. */
  method Montred(A: Mpi, N: Mpi, mm: Limb, T: Mpi)
    requires T !in {A, N} && A != N && 0 < |N.p| <= |A.p| && |T.p| >= 2 * |N.p| + 2
    requires N.Mag() > 0 && (mm * N.p[0] + 1) % BASE == 0
    modifies A`p, T`p
    ensures |A.p| == |old(A.p)| && |T.p| == |old(T.p)| && A.p[|N.p|..] == old(A.p[|N.p|..])
    ensures Val(A.p[..|N.p|]) < N.Mag()
    ensures Cong(Val(A.p[..|N.p|]) * Radix(|N.p|), Val(old(A.p[..|N.p|])), N.Mag())
  {
    hide Val;
    var U := new Mpi();
    U.p := [1];
    ValOne(1);
    Montmul(A, U, N, mm, T);
  }
}
