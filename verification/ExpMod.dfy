/** Sliding-window exponentiation in Montgomery form: mbedtls_mpi_exp_mod. */
module ExpMod {
  import opened Bits
  import opened Limbs
  import opened MpiCore
  import opened MpiArith
  import opened MpiAdd
  import opened MpiDiv
  import opened Congruence
  import opened Montgomery

  // ---- Montgomery form ------------------------------------------------------------------------------

  /** X holds v * BASE^n mod N, with zeros above its n limbs. */
  ghost predicate InMont(X: Mpi, N: Mpi, v: int)
    reads X`p, N`p
  {
    && 0 < |N.p| <= |X.p| && X.Mag() < N.Mag()
    && Cong(X.Mag(), v * Radix(|N.p|), N.Mag())
  }

  /** BASE^n cancels modulo an odd number. */
  lemma CancelRadix(x: int, y: int, n: nat, m: int)
    requires m > 0 && m % 2 == 1 && Cong(x * Radix(n), y * Radix(n), m)
    ensures Cong(x, y, m)
  {
    RadixPow2(n);
    CancelPow2(x, y, 32 * n, m);
  }

  lemma MontProduct(r: nat, x: int, y: int, v: int, w: int, n: nat, m: int)
    requires m > 0 && m % 2 == 1
    requires Cong(x, v * Radix(n), m) && Cong(y, w * Radix(n), m) && Cong(r * Radix(n), x * y, m)
    ensures Cong(r, v * w * Radix(n), m)
  {
    var R := Radix(n);
    CongMul2(x, v * R, y, w * R, m);
    ProductOfForms(v, w, R);
    CancelRadix(r, v * w * R, n, m);
  }

  lemma ProductOfForms(v: int, w: int, r: int)
    ensures (v * r) * (w * r) == (v * w * r) * r
  {
  }

  lemma OddLimb(p: seq<Limb>)
    requires |p| > 0
    ensures Val(p) % 2 == p[0] % 2
    ensures p[0] % 2 == 1 ==> Val(p) > 0
  {
  }

  /** What the whole routine relies on: an odd modulus, its negated inverse and a scratch buffer. */
  ghost predicate Setup(N: Mpi, mm: Limb, T: Mpi)
    reads N`p, T`p
  {
    && T != N && |N.p| > 0 && N.p[0] % 2 == 1 && (mm * N.p[0] + 1) % BASE == 0
    && |T.p| >= 2 * |N.p| + 2
  }

  lemma SmallInBuffer(p: seq<Limb>, n: nat, m: nat)
    requires n <= |p| && Val(p) < m && m < Radix(n)
    ensures Val(p[..n]) == Val(p) && forall i :: n <= i < |p| ==> p[i] == 0
  {
    ValSmall(p, n);
  }

  /** mpi_montmul on numbers in Montgomery form multiplies what they stand for. */
  method MulForms(A: Mpi, B: Mpi, N: Mpi, mm: Limb, T: Mpi, ghost v: int, ghost w: int)
    requires Setup(N, mm, T) && T !in {A, B} && A != N
    requires InMont(A, N, v) && |B.p| > 0 && B.Mag() < N.Mag() && Cong(B.Mag(), w * Radix(|N.p|), N.Mag())
    modifies A`p, T`p
    ensures InMont(A, N, v * w) && |A.p| == |old(A.p)| && Setup(N, mm, T)
  {
    hide Val, Radix, Cong;
    ghost var n, m, x, y := |N.p|, N.Mag(), A.Mag(), B.Mag();
    OddLimb(N.p);
    ValBound(N.p);
    SmallInBuffer(A.p, n, m);
    Montmul(A, B, N, mm, T);
    ghost var r := Val(A.p[..n]);
    assert forall i :: n <= i < |A.p| ==> A.p[i] == A.p[n..][i - n];
    ValTrim(A.p, n);
    MontProduct(r, x, y, v, w, n, m);
  }

  // ---- selecting from the table -----------------------------------------------------------------------

  /** mbedtls_mpi_safe_cond_assign, an external helper: X := Y if assign is 1; the buffer grows either way. */
  method SafeCondAssign(X: Mpi, Y: Mpi, assign: nat) returns (ret: int)
    requires X != Y && assign <= 1
    modifies X
    ensures ret == if |Y.p| > MAX_LIMBS then ERR_ALLOC_FAILED else 0
    ensures ret == 0 ==> X.Mag() == if assign == 1 then Y.Mag() else old(X.Mag())
    ensures ret == 0 ==> |X.p| == Max(|old(X.p)|, |Y.p|) && X.s == if assign == 1 then Y.s else old(X.s)
  {
    ret := X.Grow(|Y.p|);
    if ret == 0 && assign == 1 {
      X.s := Y.s;
      X.p := Y.p + Zeros(|X.p| - |Y.p|);
      ValTrim(X.p, |Y.p|);
      assert X.p[..|Y.p|] == Y.p;
    }
  }

  /** mpi_select: R := W[idx]; the buffer grows to that of every entry, since all of them are gone through. */
  method Select(R: Mpi, W: seq<Mpi>, size: nat, idx: nat) returns (ret: int)
    requires R !in W && idx < size <= |W|
    modifies R
    ensures ret == 0 ==> R.Mag() == W[idx].Mag() && R.s == W[idx].s
    ensures ret == 0 ==> forall i :: 0 <= i < size ==> |R.p| >= |W[i].p|
    ensures (forall i :: 0 <= i < size ==> |W[i].p| <= MAX_LIMBS) ==> ret == 0
  {
    ret := -0x6E;
    var i := 0;
    while i < size
      invariant 0 <= i <= size
      invariant i > 0 ==> ret == 0
      invariant i > idx ==> R.Mag() == W[idx].Mag() && R.s == W[idx].s
      invariant forall j :: 0 <= j < i ==> |R.p| >= |W[j].p|
    {
      hide Val;
      ret := SafeCondAssign(R, W[i], if i == idx then 1 else 0);
      if ret != 0 {
        return;
      }
      i := i + 1;
    }
  }

  // ---- the exponent, bit by bit -----------------------------------------------------------------------

  /** The part of the exponent read so far: all limbs from nb on, less the bs lowest bits of limb nb. */
  function Consumed(p: seq<Limb>, nb: nat, bs: nat): (c: int)
    requires nb <= |p|
    ensures c >= 0
  {
    NonNegQuotient(Val(p[nb..]), Pow2(bs));
    Val(p[nb..]) / Pow2(bs)
  }

  lemma ConsumedLimb(p: seq<Limb>, nb: nat)
    requires 0 < nb <= |p|
    ensures Consumed(p, nb - 1, 32) == Consumed(p, nb, 0)
  {
    assert p[nb - 1..][1..] == p[nb..];
    Pow2Words();
    assert Pow2(0) == 1;
    var v := Val(p[nb..]);
    assert v / 1 == v;
    DivModUnique(p[nb - 1] + BASE * v, BASE, v, p[nb - 1]);
  }

  /** Bit k of a limb. */
  function BitOf(x: Limb, k: nat): (b: int)
    ensures 0 <= b <= 1
  {
    x / Pow2(k) % 2
  }

  lemma ConsumedBit(p: seq<Limb>, nb: nat, bs: nat)
    requires nb < |p| && 0 < bs <= 32
    ensures Consumed(p, nb, bs - 1) == 2 * Consumed(p, nb, bs) + BitOf(p[nb], bs - 1)
  {
    var v, k := Val(p[nb..]), bs - 1;
    var rest := Val(p[nb..][1..]);
    assert v == p[nb] + BASE * rest;
    DivPow2(v, k, 1);
    assert Pow2(1) == 2;
    Pow2Add(k, 32 - k);
    Pow2Words();
    HighPart(v, p[nb], rest, Pow2(k), Pow2(31 - k));
    NonNegQuotient(v, Pow2(k));
  }

  /** The limbs above contribute an even number to v >> k. */
  lemma HighPart(v: int, x: int, rest: int, p: int, q: int)
    requires p > 0 && p * (2 * q) == BASE && v == x + BASE * rest
    ensures v / p % 2 == x / p % 2
  {
    var h, l := x / p, x % p;
    assert x == p * h + l;
    assert BASE * rest == p * (2 * (q * rest)) by {
      MulAssoc(p, 2 * q, rest);
      MulAssoc(2, q, rest);
    }
    HighQuotient(v, p, h, q * rest, l);
  }

  lemma HighQuotient(v: int, p: int, h: int, k: int, l: int)
    requires 0 <= l < p && v == p * h + l + p * (2 * k)
    ensures v / p % 2 == h % 2
  {
    assert v == p * (h + 2 * k) + l;
    DivModUnique(v, p, h + 2 * k, l);
  }

  lemma ConsumedAll(p: seq<Limb>)
    ensures Consumed(p, 0, 0) == Val(p) && Consumed(p, |p|, 0) == 0
  {
    assert p[0..] == p && p[|p|..] == [] && Pow2(0) == 1;
    assert Val(p) / 1 == Val(p);
  }

  /** Testing bit k of any word. */
  lemma {:induction false} AndBit(x: nat, k: nat)
    ensures And(x, Pow2(k)) != 0 <==> x / Pow2(k) % 2 == 1
  {
    if k == 0 {
      AndOne(x);
      assert x / 1 == x;
    } else {
      AndBit(x / 2, k - 1);
      DivDiv(x, 2, Pow2(k - 1));
      NonNegQuotient(x, Pow2(k));
    }
  }

  // ---- the window -------------------------------------------------------------------------------------

  /** The window state: the exponent read so far is pre followed by the nbits pending bits pend. */
  ghost predicate Window(state: int, nbits: nat, wbits: nat, wsize: nat, pre: nat, pend: nat, c: nat) {
    && nbits < wsize && c == pre * Pow2(nbits) + pend
    && wbits == pend * Pow2(wsize - nbits) && pend < Pow2(nbits)
    && (if nbits == 0 then state in {0, 1} else state == 2 && Pow2(nbits - 1) <= pend)
    && (state == 0 ==> c == 0)
  }

  /** A bit that opens or extends a window. */
  lemma WindowBit(state: int, nbits: nat, wbits: nat, wsize: nat, pre: nat, pend: nat, c: nat, ei: nat)
    requires Window(state, nbits, wbits, wsize, pre, pend, c) && ei <= 1 && (ei == 1 || state == 2)
    ensures Or(wbits, ei * Pow2(wsize - nbits - 1)) == (2 * pend + ei) * Pow2(wsize - nbits - 1)
    ensures Pow2(nbits) <= 2 * pend + ei < Pow2(nbits + 1)
    ensures 2 * c + ei == pre * Pow2(nbits + 1) + (2 * pend + ei)
  {
    var t := wsize - nbits - 1;
    WindowOr(wbits, pend, ei, t);
    if nbits > 0 {
      assert Pow2(nbits) == 2 * Pow2(nbits - 1);
    }
    DoublePow(pre, Pow2(nbits));
  }

  lemma WindowOr(wbits: nat, pend: nat, ei: nat, t: nat)
    requires ei <= 1 && wbits == pend * Pow2(t + 1)
    ensures Or(wbits, ei * Pow2(t)) == (2 * pend + ei) * Pow2(t)
  {
    hide Or, Pow2;
    var p := Pow2(t);
    Pow2Next(t);
    MulModZero(pend, 2 * p);
    var bit := if ei == 1 then p else 0;
    OrDisjoint(wbits, bit, t + 1);
    WindowSum(pend, ei, p);
  }

  lemma Pow2Next(t: nat)
    ensures Pow2(t + 1) == 2 * Pow2(t)
  {
  }

  lemma WindowSum(pend: int, ei: int, p: int)
    requires 0 <= ei <= 1
    ensures ei * p == if ei == 1 then p else 0
    ensures pend * (2 * p) + ei * p == (2 * pend + ei) * p
    ensures pend * (2 * p) == (2 * p) * pend
  {
  }

  lemma DoublePow(a: int, p: int)
    ensures a * (2 * p) == 2 * (a * p) == (2 * a) * p
  {
  }

  // ---- scanning ---------------------------------------------------------------------------------------

  /** W[1] and the window entries hold the powers of a in Montgomery form. */
  ghost predicate Table(W: seq<Mpi>, N: Mpi, a: int, wsize: nat)
    reads W, N`p
  {
    && wsize > 0 && 2 <= Pow2(wsize) <= |W|
    && InMont(W[1], N, a)
    && (forall k :: Pow2(wsize - 1) <= k < Pow2(wsize) ==> InMont(W[k], N, Pow(a, k)))
    && (forall k :: 0 <= k < |W| ==> |W[k].p| <= MAX_LIMBS)
  }

  lemma PowSquare(a: int, k: nat)
    ensures Pow(a, k) * Pow(a, k) == Pow(a, 2 * k)
  {
    PowAdd(a, k, k);
  }

  lemma PowOne(a: int)
    ensures Pow(a, 0) == 1 && Pow(a, 1) == a
  {
    assert Pow(a, 1) == a * Pow(a, 0);
  }

  method SquareForm(X: Mpi, N: Mpi, mm: Limb, T: Mpi, ghost a: int, ghost k: nat)
    requires Setup(N, mm, T) && X !in {T, N} && InMont(X, N, Pow(a, k))
    modifies X`p, T`p
    ensures InMont(X, N, Pow(a, 2 * k)) && |X.p| == |old(X.p)| && Setup(N, mm, T)
  {
    hide Val, Radix, Cong;
    MulForms(X, X, N, mm, T, Pow(a, k), Pow(a, k));
    PowSquare(a, k);
  }

  /** A full window: wsize squarings, then one multiplication by the table entry. */
  method AbsorbWindow(X: Mpi, N: Mpi, mm: Limb, T: Mpi, W: seq<Mpi>, WW: Mpi, wsize: nat, wbits: nat,
                      ghost a: int, ghost pre: nat)
    returns (ret: int)
    requires Setup(N, mm, T) && X !in {T, N, WW} && WW !in {T, N} && X !in W && T !in W && WW !in W
    requires Table(W, N, a, wsize) && Pow2(wsize - 1) <= wbits < Pow2(wsize)
    requires InMont(X, N, Pow(a, pre))
    modifies X`p, T`p, WW
    ensures ret == 0
    ensures InMont(X, N, Pow(a, pre * Pow2(wsize) + wbits)) && |X.p| == |old(X.p)|
    ensures Setup(N, mm, T) && Table(W, N, a, wsize)
  {
    hide Val, Radix, Cong, InMont;
    ghost var k := pre;
    var i := 0;
    assert Pow2(0) == 1;
    while i < wsize
      invariant 0 <= i <= wsize && k == pre * Pow2(i)
      invariant InMont(X, N, Pow(a, k)) && |X.p| == |old(X.p)|
      invariant Setup(N, mm, T)
    {
      SquareForm(X, N, mm, T, a, k);
      DoublePow(pre, Pow2(i));
      k := 2 * k;
      i := i + 1;
    }
    ret := Select(WW, W, Pow2(wsize), wbits);
    FormOf(WW, W[wbits], N, Pow(a, wbits));
    MulSelected(X, WW, N, mm, T, Pow(a, k), Pow(a, wbits));
    PowAdd(a, k, wbits);
  }

  lemma FormOf(WW: Mpi, V: Mpi, N: Mpi, v: int)
    requires InMont(V, N, v) && WW.Mag() == V.Mag() && |WW.p| >= |V.p|
    ensures InMont(WW, N, v)
  {
  }

  method MulSelected(X: Mpi, B: Mpi, N: Mpi, mm: Limb, T: Mpi, ghost v: int, ghost w: int)
    requires Setup(N, mm, T) && T !in {X, B} && X != N && InMont(X, N, v) && InMont(B, N, w)
    modifies X`p, T`p
    ensures InMont(X, N, v * w) && |X.p| == |old(X.p)| && Setup(N, mm, T)
  {
    hide Val, Radix, Cong;
    MulForms(X, B, N, mm, T, v, w);
  }

  method SquareKeepingTable(X: Mpi, N: Mpi, mm: Limb, T: Mpi, W: seq<Mpi>, wsize: nat, ghost a: int, ghost k: nat)
    requires Setup(N, mm, T) && X !in {T, N} && InMont(X, N, Pow(a, k)) && X !in W && T !in W && Table(W, N, a, wsize)
    modifies X`p, T`p
    ensures InMont(X, N, Pow(a, 2 * k)) && |X.p| == |old(X.p)| && Setup(N, mm, T) && Table(W, N, a, wsize)
  {
    hide Val, Radix, Cong, InMont;
    SquareForm(X, N, mm, T, a, k);
  }

  /** One bit of the exponent. */
  method ScanBit(X: Mpi, N: Mpi, mm: Limb, T: Mpi, W: seq<Mpi>, WW: Mpi, wsize: nat, ei: nat,
                 state: int, nbits: nat, wbits: nat, ghost a: int, ghost pre: nat, ghost pend: nat, ghost c: nat)
    returns (ret: int, state1: int, nbits1: nat, wbits1: nat, ghost pre1: nat, ghost pend1: nat)
    requires Setup(N, mm, T) && X !in {T, N, WW} && WW !in {T, N} && X !in W && T !in W && WW !in W
    requires Table(W, N, a, wsize) && InMont(X, N, Pow(a, pre)) && ei <= 1
    requires Window(state, nbits, wbits, wsize, pre, pend, c)
    modifies X`p, T`p, WW
    ensures ret == 0
    ensures Window(state1, nbits1, wbits1, wsize, pre1, pend1, 2 * c + ei)
    ensures InMont(X, N, Pow(a, pre1)) && |X.p| == |old(X.p)|
    ensures Setup(N, mm, T) && Table(W, N, a, wsize)
  {
    hide Val, Radix, Cong, InMont, Setup, Or, Window, Table;
    ret, state1, nbits1, wbits1, pre1, pend1 := 0, state, nbits, wbits, pre, pend;
    WindowStates(state, nbits, wbits, wsize, pre, pend, c);
    if ei == 0 && state == 0 {
      pre1 := 2 * pre;
      WindowIdle(nbits, wbits, wsize, pre, pend, c);
      return;
    }
    if ei == 0 && state == 1 {
      SquareKeepingTable(X, N, mm, T, W, wsize, a, pre);
      pre1 := 2 * pre;
      WindowRest(nbits, wbits, wsize, pre, pend, c);
      return;
    }
    WindowBit(state, nbits, wbits, wsize, pre, pend, c, ei);
    nbits1 := nbits + 1;
    wbits1 := Or(wbits, ei * Pow2(wsize - nbits1));
    pend1 := 2 * pend + ei;
    WindowExtended(nbits1, wbits1, wsize, pre, pend1, 2 * c + ei);
    if nbits1 == wsize {
      ret := AbsorbWindow(X, N, mm, T, W, WW, wsize, wbits1, a, pre);
      pre1 := pre * Pow2(wsize) + pend1;
      state1, nbits1, wbits1, pend1 := 1, 0, 0, 0;
    } else {
      state1 := 2;
    }
  }

  /** A window of nbits bits starting with a 1: either still open, or complete and ready to absorb. */
  lemma WindowExtended(nbits: nat, wbits: nat, wsize: nat, pre: nat, pend: nat, c: nat)
    requires 0 < nbits <= wsize && wbits == pend * Pow2(wsize - nbits)
    requires Pow2(nbits - 1) <= pend < Pow2(nbits) && c == pre * Pow2(nbits) + pend
    ensures nbits < wsize ==> Window(2, nbits, wbits, wsize, pre, pend, c)
    ensures nbits == wsize ==> Window(1, 0, 0, wsize, pre * Pow2(wsize) + pend, 0, c)
    ensures nbits == wsize ==> wbits == pend && Pow2(wsize - 1) <= wbits < Pow2(wsize)
  {
    assert Pow2(0) == 1;
  }

  lemma WindowStates(state: int, nbits: nat, wbits: nat, wsize: nat, pre: nat, pend: nat, c: nat)
    requires Window(state, nbits, wbits, wsize, pre, pend, c)
    ensures nbits < wsize && state in {0, 1, 2}
  {
  }

  lemma WindowIdle(nbits: nat, wbits: nat, wsize: nat, pre: nat, pend: nat, c: nat)
    requires Window(0, nbits, wbits, wsize, pre, pend, c)
    ensures nbits == 0 && pre == 0 && Window(0, nbits, wbits, wsize, 2 * pre, pend, 2 * c)
  {
    assert Pow2(0) == 1;
  }

  lemma WindowRest(nbits: nat, wbits: nat, wsize: nat, pre: nat, pend: nat, c: nat)
    requires Window(1, nbits, wbits, wsize, pre, pend, c)
    ensures nbits == 0 && Window(1, nbits, wbits, wsize, 2 * pre, pend, 2 * c)
  {
    assert Pow2(0) == 1;
  }

  /** The bits that are still pending when the exponent runs out. */
  datatype Pending = Pending(nbits: nat, wbits: nat)

  /** The main loop of mbedtls_mpi_exp_mod over the bits of E, most significant first. */
  method ScanExponent(X: Mpi, E: Mpi, N: Mpi, mm: Limb, T: Mpi, W: seq<Mpi>, WW: Mpi, wsize: nat, ghost a: int)
    returns (ret: int, p: Pending, ghost pre: nat, ghost pend: nat)
    requires Setup(N, mm, T) && X !in {T, N, WW, E} && WW !in {T, N, E} && E != T && X !in W && T !in W && WW !in W
    requires Table(W, N, a, wsize) && wsize > 0 && InMont(X, N, Pow(a, 0))
    modifies X`p, T`p, WW
    ensures ret == 0
    ensures InMont(X, N, Pow(a, pre)) && |X.p| == |old(X.p)|
    ensures E.Mag() == pre * Pow2(p.nbits) + pend
    ensures p.nbits < wsize && p.wbits == pend * Pow2(wsize - p.nbits) && pend < Pow2(p.nbits)
    ensures Setup(N, mm, T) && Table(W, N, a, wsize)
  {
    hide Val, Radix, Cong, InMont, Consumed, BitOf, Setup, Table;
    var nblimbs, bufsize, nbits, wbits, state := |E.p|, 0, 0, 0, 0;
    pre, pend := 0, 0;
    ConsumedAll(E.p);
    ghost var c := 0;
    WindowStart(wsize);
    while true
      invariant 0 <= nblimbs <= |E.p| && 0 <= bufsize <= 32 && (bufsize > 0 ==> nblimbs < |E.p|)
      invariant c == Consumed(E.p, nblimbs, bufsize)
      invariant Window(state, nbits, wbits, wsize, pre, pend, c)
      invariant InMont(X, N, Pow(a, pre)) && |X.p| == |old(X.p)|
      invariant Setup(N, mm, T) && Table(W, N, a, wsize)
      decreases nblimbs, bufsize
    {
      if bufsize == 0 {
        if nblimbs == 0 {
          break;
        }
        ConsumedLimb(E.p, nblimbs);
        nblimbs := nblimbs - 1;
        bufsize := 32;
      }
      ConsumedBit(E.p, nblimbs, bufsize);
      bufsize := bufsize - 1;
      var ei := BitOf(E.p[nblimbs], bufsize);
      ret, state, nbits, wbits, pre, pend :=
        ScanBit(X, N, mm, T, W, WW, wsize, ei, state, nbits, wbits, a, pre, pend, c);
      c := 2 * c + ei;
    }
    p := Pending(nbits, wbits);
    ret := 0;
  }

  lemma WindowStart(wsize: nat)
    requires wsize > 0
    ensures Window(0, 0, 0, wsize, 0, 0, 0)
  {
  }

  // ---- the bits left over -----------------------------------------------------------------------------

  lemma TrailingBit(pend: nat, wsize: nat, t: nat)
    requires t <= wsize
    ensures And(pend * Pow2(wsize - t), Pow2(wsize)) != 0 <==> pend / Pow2(t) % 2 == 1
    ensures pend / Pow2(t) == 2 * (pend / Pow2(t + 1)) + pend / Pow2(t) % 2
    ensures pend / Pow2(t + 1) >= 0
  {
    AndBit(pend * Pow2(wsize - t), wsize);
    Pow2Add(wsize - t, t);
    CancelDiv(pend, Pow2(wsize - t), Pow2(t));
    DivPow2(pend, t, 1);
    assert Pow2(1) == 2;
    NonNegQuotient(pend, Pow2(t));
    NonNegQuotient(pend, Pow2(t + 1));
  }

  lemma CancelDiv(x: nat, a: int, b: int)
    requires a > 0 && b > 0
    ensures a * b > 0 && x * a / (a * b) == x / b
  {
    MulModZero(x, a);
    DivModUnique(x * a, a, x, 0);
    DivDiv(x * a, a, b);
  }

  /** The trailing loop: the pending bits are absorbed one at a time. */
  method AbsorbPending(X: Mpi, N: Mpi, mm: Limb, T: Mpi, W1: Mpi, wsize: nat, p: Pending,
                       ghost a: int, ghost pre: nat, ghost pend: nat)
    requires Setup(N, mm, T) && X !in {T, N, W1} && W1 != T
    requires InMont(W1, N, a) && InMont(X, N, Pow(a, pre))
    requires p.nbits < wsize && p.wbits == pend * Pow2(wsize - p.nbits) && pend < Pow2(p.nbits)
    modifies X`p, T`p
    ensures InMont(X, N, Pow(a, pre * Pow2(p.nbits) + pend)) && |X.p| == |old(X.p)| && Setup(N, mm, T)
  {
    hide Val, Radix, Cong, InMont, And, Setup;
    var i, wbits := 0, p.wbits;
    ghost var k, d := pre, 0;
    assert Pow2(0) == 1;
    DivModUnique(pend, Pow2(p.nbits), 0, pend);
    while i < p.nbits
      invariant 0 <= i <= p.nbits
      invariant wbits == pend * Pow2(wsize - p.nbits + i)
      invariant d == pend / Pow2(p.nbits - i) && d >= 0 && k == pre * Pow2(i) + d
      invariant InMont(X, N, Pow(a, k)) && InMont(W1, N, a) && |X.p| == |old(X.p)| && Setup(N, mm, T)
    {
      ghost var t := p.nbits - i - 1;
      TrailingBit(pend, wsize, t);
      DoublePow(pend, Pow2(wsize - p.nbits + i));
      DoublePow(pre, Pow2(i));
      SquareBeside(X, N, mm, T, W1, a, k);
      wbits := 2 * wbits;
      if And(wbits, Pow2(wsize)) != 0 {
        MulBeside(X, N, mm, T, W1, a, 2 * k);
      }
      d := pend / Pow2(t);
      k := pre * Pow2(i + 1) + d;
      i := i + 1;
    }
    assert pend / 1 == pend;
  }

  method SquareBeside(X: Mpi, N: Mpi, mm: Limb, T: Mpi, W1: Mpi, ghost a: int, ghost k: nat)
    requires Setup(N, mm, T) && X !in {T, N, W1} && W1 != T && InMont(W1, N, a) && InMont(X, N, Pow(a, k))
    modifies X`p, T`p
    ensures InMont(X, N, Pow(a, 2 * k)) && InMont(W1, N, a) && |X.p| == |old(X.p)| && Setup(N, mm, T)
  {
    hide Val, Radix, Cong;
    SquareForm(X, N, mm, T, a, k);
  }

  method MulBeside(X: Mpi, N: Mpi, mm: Limb, T: Mpi, W1: Mpi, ghost a: int, ghost k: nat)
    requires Setup(N, mm, T) && X !in {T, N, W1} && W1 != T && InMont(W1, N, a) && InMont(X, N, Pow(a, k))
    modifies X`p, T`p
    ensures InMont(X, N, Pow(a, k + 1)) && InMont(W1, N, a) && |X.p| == |old(X.p)| && Setup(N, mm, T)
  {
    hide Val, Radix, Cong;
    MulForms(X, W1, N, mm, T, Pow(a, k), a);
    PowAdd(a, k, 1);
    PowOne(a);
  }

  // ---- the table --------------------------------------------------------------------------------------

  /** All buffers of the table are separate and within the limit. */
  ghost predicate FreshTable(W: seq<Mpi>)
    reads W
  {
    && (forall i, j :: 0 <= i < j < |W| ==> W[i] != W[j])
    && (forall k :: 0 <= k < |W| ==> |W[k].p| <= MAX_LIMBS)
  }

  /** D := V with room for n + 1 limbs. */
  method CopyForm(D: Mpi, V: Mpi, N: Mpi, ghost v: int) returns (ret: int)
    requires D !in {V, N} && InMont(V, N, v) && |D.p| <= MAX_LIMBS
    modifies D
    ensures ret == 0 ==> InMont(D, N, v)
    ensures |D.p| <= MAX_LIMBS
    ensures |N.p| < MAX_LIMBS ==> ret == 0
    ensures ret == 0 || ret == ERR_ALLOC_FAILED
  {
    hide Val, Radix, Cong;
    ValBound(N.p);
    UsedBelow(V.p, |N.p|);
    ret := D.Grow(|N.p| + 1);
    if ret != 0 {
      return;
    }
    ret := Copy(D, V);
  }

  /** The window entries W[2^(wsize-1)] .. W[2^wsize - 1] from W[1]. */
  method BuildTable(W: seq<Mpi>, N: Mpi, mm: Limb, T: Mpi, wsize: nat, ghost a: int) returns (ret: int)
    requires Setup(N, mm, T) && T !in W && N !in W && FreshTable(W)
    requires wsize > 0 && 2 <= Pow2(wsize) <= |W| && InMont(W[1], N, a)
    modifies W, T`p
    ensures ret == 0 ==> Table(W, N, a, wsize) && Setup(N, mm, T)
    ensures |N.p| < MAX_LIMBS ==> ret == 0
    ensures ret == 0 || ret == ERR_ALLOC_FAILED
  {
    hide Val, Radix, Cong, InMont, Setup;
    PowOne(a);
    if wsize == 1 {
      return 0;
    }
    var j := Pow2(wsize - 1);
    assert j == 2 * Pow2(wsize - 2) >= 2;
    ret := FirstEntry(W, N, mm, T, wsize, j, a);
    if ret != 0 {
      return;
    }
    var i := j + 1;
    while i < Pow2(wsize)
      invariant j < i <= Pow2(wsize) == 2 * j && ret == 0
      invariant Setup(N, mm, T) && FreshTable(W)
      invariant InMont(W[1], N, a)
      invariant forall k :: j <= k < i ==> InMont(W[k], N, Pow(a, k))
    {
      ret := NextEntry(W, N, mm, T, j, i, a);
      if ret != 0 {
        return;
      }
      i := i + 1;
    }
  }

  method FirstEntry(W: seq<Mpi>, N: Mpi, mm: Limb, T: Mpi, wsize: nat, j: nat, ghost a: int) returns (ret: int)
    requires Setup(N, mm, T) && T !in W && N !in W && FreshTable(W)
    requires wsize > 1 && 2 <= j == Pow2(wsize - 1) < |W| && InMont(W[1], N, a)
    modifies W[j], T`p
    ensures ret == 0 ==> InMont(W[j], N, Pow(a, j)) && InMont(W[1], N, a) && Setup(N, mm, T) && FreshTable(W)
    ensures |N.p| < MAX_LIMBS ==> ret == 0
    ensures ret == 0 || ret == ERR_ALLOC_FAILED
  {
    hide Val, Radix, Cong;
    ret := CopyForm(W[j], W[1], N, a);
    if ret != 0 {
      return;
    }
    PowOne(a);
    assert Pow2(0) == 1;
    var i := 0;
    while i < wsize - 1
      invariant 0 <= i <= wsize - 1
      invariant Setup(N, mm, T) && FreshTable(W) && InMont(W[1], N, a)
      invariant InMont(W[j], N, Pow(a, Pow2(i)))
    {
      hide InMont;
      SquareBeside(W[j], N, mm, T, W[1], a, Pow2(i));
      i := i + 1;
    }
  }

  method NextEntry(W: seq<Mpi>, N: Mpi, mm: Limb, T: Mpi, j: nat, i: nat, ghost a: int) returns (ret: int)
    requires Setup(N, mm, T) && T !in W && N !in W && FreshTable(W)
    requires 2 <= j < i < |W| && InMont(W[1], N, a) && forall k :: j <= k < i ==> InMont(W[k], N, Pow(a, k))
    modifies W[i], T`p
    ensures ret == 0 ==> Setup(N, mm, T) && FreshTable(W) && InMont(W[1], N, a)
    ensures ret == 0 ==> forall k :: j <= k < i + 1 ==> InMont(W[k], N, Pow(a, k))
    ensures |N.p| < MAX_LIMBS ==> ret == 0
    ensures ret == 0 || ret == ERR_ALLOC_FAILED
  {
    hide Val, Radix, Cong;
    ret := CopyForm(W[i], W[i - 1], N, Pow(a, i - 1));
    if ret != 0 {
      return;
    }
    MulBeside(W[i], N, mm, T, W[1], a, i - 1);
  }

  // ---- into and out of Montgomery form ----------------------------------------------------------------

  /** RR := BASE^(2n) mod N. */
  method SquaredRadix(RR: Mpi, N: Mpi) returns (ret: int)
    requires RR != N && RR.s == 1 && RR.p == [] && N.s == 1 && N.Mag() > 0
    modifies RR
    ensures ret == 0 ==> RR.s == 1 && |RR.p| > 0 && RR.Mag() < N.Mag()
    ensures ret == 0 ==> Cong(RR.Mag(), Radix(|N.p|) * Radix(|N.p|), N.Mag())
    ensures 2 * |N.p| + 3 <= MAX_LIMBS ==> ret == 0
    ensures ret !in {ERR_BAD_INPUT_DATA}
  {
    hide Val, Radix;
    ret := RadixSquare(RR, |N.p|);
    if ret != 0 {
      return;
    }
    RadixAbove(N.p);
    ret := ModMpi(RR, RR, N);
    CongMod(Radix(|N.p|) * Radix(|N.p|), N.Mag());
  }

  lemma RadixAbove(p: seq<Limb>)
    ensures Val(p) <= Radix(|p|) * Radix(|p|)
  {
    ValBound(p);
    MulAtLeast(Radix(|p|), Radix(|p|), 1);
  }

  /** RR := 1 shifted left by 2n limbs. */
  method RadixSquare(RR: Mpi, n: nat) returns (ret: int)
    requires RR.s == 1 && RR.p == []
    modifies RR
    ensures ret == if 2 * n + 1 <= MAX_LIMBS then 0 else ERR_ALLOC_FAILED
    ensures ret == 0 ==> RR.s == 1 && |RR.p| == 2 * n + 1 && RR.Mag() == Radix(n) * Radix(n)
  {
    hide Val, Radix, Pow2, BitLen;
    ret := Lset(RR, 1);
    BitLenOne();
    ret := ShiftL(RR, n * 2 * 32);
    RadixPow2(2 * n);
    RadixAdd(n, n);
  }

  lemma BitLenOne()
    ensures BitLen(1) == 1
  {
    assert BitLen(1) == BitLen(0) + 1;
  }

  /** W1 := A mod N, in a buffer of at least n + 1 limbs. */
  method BaseResidue(W1: Mpi, A: Mpi, N: Mpi) returns (ret: int)
    requires W1 !in {A, N} && A.s == 1 && N.s == 1 && N.Mag() > 0
    requires |N.p| < |W1.p| <= MAX_LIMBS
    modifies W1
    ensures ret == 0 ==> W1.Mag() == A.Mag() % N.Mag() && |N.p| < |W1.p| <= MAX_LIMBS
    ensures |A.p| + 2 <= MAX_LIMBS ==> ret == 0
    ensures ret !in {ERR_BAD_INPUT_DATA}
  {
    hide Val, Radix;
    var c := CmpMpi(A, N);
    if c >= 0 {
      ret := ModMpi(W1, A, N);
      if ret != 0 {
        return;
      }
      ret := W1.Grow(|N.p| + 1);
    } else {
      ValBound(N.p);
      UsedBelow(A.p, |N.p|);
      DivModUnique(A.Mag(), N.Mag(), 0, A.Mag());
      ret := Copy(W1, A);
    }
  }

  /** W1 holds a residue of a; multiplying by BASE^(2n) puts it into Montgomery form. */
  method EnterForm(W1: Mpi, RR: Mpi, N: Mpi, mm: Limb, T: Mpi, ghost a: int)
    requires Setup(N, mm, T) && T !in {W1, RR} && W1 !in {RR, N}
    requires |N.p| <= |W1.p| && W1.Mag() < N.Mag() && Cong(W1.Mag(), a, N.Mag())
    requires |RR.p| > 0 && RR.Mag() < N.Mag() && Cong(RR.Mag(), Radix(|N.p|) * Radix(|N.p|), N.Mag())
    modifies W1`p, T`p
    ensures InMont(W1, N, a) && |W1.p| == |old(W1.p)| && Setup(N, mm, T)
  {
    hide Val, Radix, Cong;
    ghost var n, m, x, y := |N.p|, N.Mag(), W1.Mag(), RR.Mag();
    OddLimb(N.p);
    ValBound(N.p);
    SmallInBuffer(W1.p, n, m);
    Montmul(W1, RR, N, mm, T);
    ghost var r := Val(W1.p[..n]);
    assert forall i :: n <= i < |W1.p| ==> W1.p[i] == W1.p[n..][i - n];
    ValTrim(W1.p, n);
    FormEntered(r, x, y, a, n, m);
  }

  lemma FormEntered(r: nat, x: int, y: int, a: int, n: nat, m: int)
    requires m > 0 && m % 2 == 1
    requires Cong(x, a, m) && Cong(y, Radix(n) * Radix(n), m) && Cong(r * Radix(n), x * y, m)
    ensures Cong(r, a * Radix(n), m)
  {
    var R := Radix(n);
    CongMul2(x, a, y, R * R, m);
    MulAssoc(a, R, R);
    CancelRadix(r, a * R, n, m);
  }

  /** mpi_montred takes v * BASE^n (mod N) to v mod N. */
  method LeaveForm(X: Mpi, N: Mpi, mm: Limb, T: Mpi, ghost v: int)
    requires Setup(N, mm, T) && X !in {T, N} && |N.p| <= |X.p| && X.Mag() < N.Mag()
    requires Cong(X.Mag(), v * Radix(|N.p|), N.Mag())
    modifies X`p, T`p
    ensures X.Mag() == v % N.Mag() && |X.p| == |old(X.p)| && Setup(N, mm, T)
  {
    hide Val, Radix;
    ghost var n, m, x := |N.p|, N.Mag(), X.Mag();
    OddLimb(N.p);
    ValBound(N.p);
    SmallInBuffer(X.p, n, m);
    Montred(X, N, mm, T);
    ghost var r := Val(X.p[..n]);
    assert forall i :: n <= i < |X.p| ==> X.p[i] == X.p[n..][i - n];
    ValTrim(X.p, n);
    CancelRadix(r, v, n, m);
    DivModUnique(r, m, 0, r);
  }

  // ---- the whole exponentiation -----------------------------------------------------------------------

  /** The scan, the trailing bits and the final reduction, given X = 1 and the table in Montgomery form. */
  method RaiseToExponent(X: Mpi, E: Mpi, N: Mpi, mm: Limb, T: Mpi, W: seq<Mpi>, WW: Mpi, wsize: nat, ghost a: int)
    returns (ret: int)
    requires Setup(N, mm, T) && X !in {T, N, WW, E} && WW !in {T, N, E} && E != T && X !in W && T !in W && WW !in W
    requires Table(W, N, a, wsize) && wsize > 0 && InMont(X, N, Pow(a, 0))
    modifies X`p, T`p, WW
    ensures ret == 0 && |X.p| == |old(X.p)|
    ensures N.Mag() > 0 && X.Mag() == Pow(a, E.Mag()) % N.Mag()
  {
    hide Val, Radix, Cong;
    ghost var e := E.Mag();
    var p: Pending;
    ghost var pre, pend;
    ret, p, pre, pend := ScanExponent(X, E, N, mm, T, W, WW, wsize, a);
    AbsorbPending(X, N, mm, T, W[1], wsize, p, a, pre, pend);
    LeaveForm(X, N, mm, T, Pow(a, e));
  }

  /** The 64 zeroed entries of the window table. */
  method NewTable() returns (W: seq<Mpi>)
    ensures |W| == 64 && fresh(W) && FreshTable(W)
    ensures forall k :: 0 <= k < |W| ==> W[k].p == []
  {
    W := [];
    while |W| < 64
      invariant |W| <= 64 && fresh(W)
      invariant forall i, j :: 0 <= i < j < |W| ==> W[i] != W[j]
      invariant forall k :: 0 <= k < |W| ==> W[k].p == []
    {
      var w := new Mpi();
      w.s := 0;
      W := W + [w];
    }
  }

  /** W[1] := A and X := 1, both in Montgomery form. */
  method EnterBoth(X: Mpi, A: Mpi, N: Mpi, mm: Limb, T: Mpi, W: seq<Mpi>) returns (ret: int)
    requires Setup(N, mm, T) && X !in {T, N} && A != T && T !in W && N !in W && X !in W && A !in W && FreshTable(W)
    requires A.s == 1 && N.s == 1 && |W| == 64 && |N.p| < |W[1].p| && |N.p| <= |X.p|
    modifies X, T`p, W[1]
    ensures ret == 0 ==> Setup(N, mm, T) && FreshTable(W) && InMont(W[1], N, old(A.Mag())) && InMont(X, N, 1)
    ensures ret == 0 ==> X.s == 1 && |X.p| >= |N.p|
    ensures 2 * |N.p| + 3 <= MAX_LIMBS && |old(A.p)| + 2 <= MAX_LIMBS ==> ret == 0
    ensures ret != ERR_BAD_INPUT_DATA
  {
    hide Val, Radix, Cong;
    ghost var a := A.Mag();
    OddLimb(N.p);
    var RR := new Mpi();
    ret := SquaredRadix(RR, N);
    if ret != 0 {
      return;
    }
    ret := BaseResidue(W[1], A, N);
    if ret != 0 {
      return;
    }
    CongMod(a, N.Mag());
    EnterForm(W[1], RR, N, mm, T, a);
    ret := EnterOne(X, RR, N, mm, T, W[1], a);
  }

  /** X := RR reduced once is BASE^n mod N, the form of 1. */
  method EnterOne(X: Mpi, RR: Mpi, N: Mpi, mm: Limb, T: Mpi, W1: Mpi, ghost a: int) returns (ret: int)
    requires Setup(N, mm, T) && X !in {T, N, RR, W1} && T !in {RR, W1} && |N.p| <= |X.p| && InMont(W1, N, a)
    requires RR.s == 1 && |RR.p| > 0 && RR.Mag() < N.Mag() && Cong(RR.Mag(), Radix(|N.p|) * Radix(|N.p|), N.Mag())
    modifies X, T`p
    ensures ret == 0 ==> Setup(N, mm, T) && InMont(W1, N, a) && InMont(X, N, 1) && X.s == 1 && |X.p| >= |N.p|
    ensures |N.p| <= MAX_LIMBS ==> ret == 0
    ensures ret != ERR_BAD_INPUT_DATA
  {
    hide Val, Radix, Cong;
    ValBound(N.p);
    UsedBelow(RR.p, |N.p|);
    ret := Copy(X, RR);
    if ret != 0 {
      return;
    }
    LeaveToForm(X, N, mm, T);
  }

  method LeaveToForm(X: Mpi, N: Mpi, mm: Limb, T: Mpi)
    requires Setup(N, mm, T) && X !in {T, N} && |N.p| <= |X.p| && X.Mag() < N.Mag()
    requires Cong(X.Mag(), Radix(|N.p|) * Radix(|N.p|), N.Mag())
    modifies X`p, T`p
    ensures Setup(N, mm, T) && InMont(X, N, 1) && |X.p| == |old(X.p)|
  {
    hide Val, Radix;
    ghost var v := Radix(|N.p|);
    LeaveForm(X, N, mm, T, v);
    CongMod(v, N.Mag());
    assert 1 * v == v;
  }

  /** What the routine leaves in X for a base of absolute value a, with the sign flag neg. */
  function ExpModResult(a: nat, neg: bool, e: nat, n: nat): int
    requires n > 0
  {
    var r := Pow(a, e) % n;
    if neg && e % 2 == 1 then n - r else r
  }

  /** The base itself. */
  function SignedBase(a: nat, neg: bool): int {
    if neg then 0 - a else a
  }

  /** mbedtls_mpi_exp_mod for an odd positive modulus and a non-negative exponent. */
  method ExpModOdd(X: Mpi, A: Mpi, E: Mpi, N: Mpi) returns (ret: int)
    requires X !in {E, N} && A.Signed()
    requires N.s == 1 && |N.p| > 0 && N.p[0] % 2 == 1
    modifies X
    ensures ret == 0 ==> N.Mag() > 0 && X.Int() == ExpModResult(old(A.Mag()), old(A.s) == -1, E.Mag(), N.Mag())
    ensures Max(|old(A.p)|, 2 * |N.p| + 1) + 2 <= MAX_LIMBS ==> ret == 0
    ensures ret != ERR_BAD_INPUT_DATA
  {
    hide Val, Radix, Cong, BitLen;
    ghost var a := A.Mag();
    var mm := MontgInit(N);
    var i := Bitlen(E);
    var wsize := if i > 23 then 3 else 1;
    var j := |N.p| + 1;
    ret := X.Grow(j);
    if ret != 0 {
      return;
    }
    var W := NewTable();
    ret := W[1].Grow(j);
    if ret != 0 {
      return;
    }
    var T := new Mpi();
    ret := T.Grow(j * 2);
    if ret != 0 {
      return;
    }
    ret := ExpModSigned(X, A, E, N, mm, T, W, wsize);
  }

  /** A negative base is replaced by a positive copy, and the sign put back at the end. */
  method ExpModSigned(X: Mpi, A: Mpi, E: Mpi, N: Mpi, mm: Limb, T: Mpi, W: seq<Mpi>, wsize: nat) returns (ret: int)
    requires Setup(N, mm, T) && X !in {T, N, E} && A != T && E != T && T !in W && N !in W && X !in W && A !in W
        && E !in W
    requires FreshTable(W) && A.Signed() && N.s == 1 && |W| == 64 && |N.p| < |W[1].p| && |N.p| <= |X.p|
        && wsize in {1, 3}
    modifies X, T`p, W
    ensures ret == 0 ==> N.Mag() > 0 && X.Int() == ExpModResult(old(A.Mag()), old(A.s) == -1, E.Mag(), N.Mag())
    ensures 2 * |N.p| + 3 <= MAX_LIMBS && |old(A.p)| + 2 <= MAX_LIMBS ==> ret == 0
    ensures ret != ERR_BAD_INPUT_DATA
  {
    hide Val, Radix, Cong, BitLen, Setup, FreshTable;
    var neg := A.s == -1;
    var A1 := A;
    if neg {
      var Apos := new Mpi();
      ret := Copy(Apos, A);
      if ret != 0 {
        return;
      }
      Apos.s := 1;
      A1 := Apos;
    }
    ret := ExpModPositive(X, A1, E, N, mm, T, W, wsize);
    if ret != 0 {
      return;
    }
    ret := RestoreSign(X, E, N, neg);
  }

  /** The part that works on the non-negative base. */
  method ExpModPositive(X: Mpi, A: Mpi, E: Mpi, N: Mpi, mm: Limb, T: Mpi, W: seq<Mpi>, wsize: nat) returns (ret: int)
    requires Setup(N, mm, T) && X !in {T, N, E} && A != T && E != T && T !in W && N !in W && X !in W && A !in W
        && E !in W
    requires FreshTable(W) && A.s == 1 && N.s == 1 && |W| == 64 && |N.p| < |W[1].p| && |N.p| <= |X.p| && wsize in {1, 3}
    modifies X, T`p, W
    ensures ret == 0 ==> N.Mag() > 0 && X.Mag() == Pow(old(A.Mag()), E.Mag()) % N.Mag() && X.s == 1
    ensures 2 * |N.p| + 3 <= MAX_LIMBS && |old(A.p)| + 2 <= MAX_LIMBS ==> ret == 0
    ensures ret != ERR_BAD_INPUT_DATA
  {
    hide Val, Radix, Cong, InMont, Setup;
    ghost var a := A.Mag();
    ret := EnterBoth(X, A, N, mm, T, W);
    if ret != 0 {
      return;
    }
    PowOne(a);
    ret := TableAndRaise(X, E, N, mm, T, W, wsize, a);
  }

  method TableAndRaise(X: Mpi, E: Mpi, N: Mpi, mm: Limb, T: Mpi, W: seq<Mpi>, wsize: nat, ghost a: int)
      returns (ret: int)
    requires Setup(N, mm, T) && X !in {T, N, E} && E != T && T !in W && N !in W && X !in W && E !in W
    requires FreshTable(W) && |W| == 64 && wsize in {1, 3} && InMont(W[1], N, a) && InMont(X, N, Pow(a, 0))
    modifies X`p, T`p, W
    ensures ret == 0 ==> N.Mag() > 0 && X.Mag() == Pow(a, E.Mag()) % N.Mag()
    ensures |N.p| < MAX_LIMBS ==> ret == 0
    ensures ret != ERR_BAD_INPUT_DATA
  {
    hide Val, Radix, Cong;
    assert Pow2(1) == 2 && Pow2(3) == 8;
    ret := BuildTable(W, N, mm, T, wsize, a);
    if ret != 0 {
      return;
    }
    var WW := new Mpi();
    ret := RaiseToExponent(X, E, N, mm, T, W, WW, wsize, a);
  }

  /** A negative base and an odd exponent: X := N - X. */
  method RestoreSign(X: Mpi, E: Mpi, N: Mpi, neg: bool) returns (ret: int)
    requires X !in {E, N} && N.s == 1 && X.s == 1 && X.Mag() < N.Mag()
    modifies X
    ensures ret == 0 ==> X.Int() == if neg && E.Mag() % 2 == 1 then N.Mag() - old(X.Mag()) else old(X.Mag())
    ensures |N.p| <= MAX_LIMBS ==> ret == 0
    ensures ret != ERR_BAD_INPUT_DATA
  {
    hide Val;
    ret := 0;
    if |E.p| > 0 {
      OddLimb(E.p);
      AndOne(E.p[0]);
    }
    if neg && |E.p| != 0 && And(E.p[0], 1) != 0 {
      X.s := -1;
      ret := AddMpi(X, N, X);
    } else {
      EmptyEven(E.p);
    }
  }

  lemma EmptyEven(p: seq<Limb>)
    ensures |p| == 0 ==> Val(p) == 0
  {
  }

  /** mbedtls_mpi_exp_mod: X := A^E mod N, for any sign of A. */
  method ExpMod(X: Mpi, A: Mpi, E: Mpi, N: Mpi) returns (ret: int)
    requires X !in {E, N} && A.Signed() && E.Signed() && N.Signed()
    modifies X
    ensures ret == ERR_BAD_INPUT_DATA <==> N.Int() <= 0 || N.Int() % 2 == 0 || E.Int() < 0
    ensures ret == 0 ==> N.Int() > 0 && X.Int() == ExpModResult(old(A.Mag()), old(A.s) == -1, E.Mag(), N.Mag())
    ensures N.Int() > 0 && N.Int() % 2 == 1 && E.Int() >= 0 && Max(|old(A.p)|, 2 * |N.p| + 1) + 2 <= MAX_LIMBS
        ==> ret == 0
  {
    hide Val;
    var c := CmpZero(N);
    if c <= 0 {
      return ERR_BAD_INPUT_DATA;
    }
    NonEmpty(N.p);
    OddLimb(N.p);
    AndOne(N.p[0]);
    if And(N.p[0], 1) == 0 {
      return ERR_BAD_INPUT_DATA;
    }
    c := CmpZero(E);
    if c < 0 {
      return ERR_BAD_INPUT_DATA;
    }
    ret := ExpModOdd(X, A, E, N);
  }

  lemma NonEmpty(p: seq<Limb>)
    requires Val(p) > 0
    ensures |p| > 0
  {
  }

  /** The result is congruent to A^E modulo N and lies in [0, N]. */
  lemma ExpModCongruent(a: nat, neg: bool, e: nat, n: nat)
    requires n > 0
    ensures var x := ExpModResult(a, neg, e, n);
            && 0 <= x <= n
            && Cong(x, Pow(SignedBase(a, neg), e), n)
  {
    PowNonNeg(a, e);
    var p := Pow(a, e);
    var r := p % n;
    CongMod(p, n);
    PowNeg(a, e);
    if neg && e % 2 == 1 {
      var k := CongWitness(r, p, n);
      assert n - r == -p + (1 - k) * n by {
        assert (1 - k) * n == n - k * n;
      }
      CongFrom(n - r, -p, n, 1 - k);
    }
  }

  /** It is A^E mod N itself, except that a zero residue comes out as N when A is negative and E is odd. */
  lemma ExpModExactWhen(a: nat, neg: bool, e: nat, n: nat)
    requires n > 0
    ensures ExpModResult(a, neg, e, n) == Pow(SignedBase(a, neg), e) % n
       <==> !(neg && e % 2 == 1 && Pow(a, e) % n == 0)
  {
    ExpModCongruent(a, neg, e, n);
    var x := ExpModResult(a, neg, e, n);
    if x < n {
      DivModUnique(x, n, 0, x);
    }
  }

  /** Checked before the call: dividing N by its greatest common divisor with A, E times over, leaves 1 or not. */
  lemma ExpModExactInputs(a: nat, neg: bool, e: nat, n: nat)
    requires n > 0
    ensures ExpModResult(a, neg, e, n) == Pow(SignedBase(a, neg), e) % n
       <==> !(neg && e % 2 == 1 && Without(n, a, e) == 1)
  {
    ExpModExactWhen(a, neg, e, n);
    PowResidue(a, e, n);
  }

  /** In particular, with A invertible modulo N > 1 the result is A^E mod N, whatever the signs. */
  lemma ExpModExactCoprime(a: nat, neg: bool, e: nat, n: nat, u: int, v: int)
    requires n > 1 && u * a + v * n == 1
    ensures ExpModResult(a, neg, e, n) == Pow(SignedBase(a, neg), e) % n
  {
    ExpModExactWhen(a, neg, e, n);
    CoprimeResidue(a, e, n, u, v);
  }

  /** For N prime or 1 it is unless A is a negative multiple of N and E is odd. */
  lemma ExpModExactPrime(a: nat, neg: bool, e: nat, n: nat)
    requires Prime(n) || n == 1
    ensures ExpModResult(a, neg, e, n) == Pow(SignedBase(a, neg), e) % n
       <==> !(neg && e % 2 == 1 && a % n == 0)
  {
    ExpModExactWhen(a, neg, e, n);
    if n > 1 && e > 0 {
      PrimeResidue(a, e, n);
    }
  }

  /** The smallest case: (-1)^1 mod 1 comes out as 1. */
  lemma ExpModZeroResidue()
    ensures ExpModResult(1, true, 1, 1) == 1 != Pow(-1, 1) % 1
  {
    PowOne(1);
    PowOne(-1);
  }
}
