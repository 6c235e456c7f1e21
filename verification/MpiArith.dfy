/** Copying, comparing, shifting, adding and multiplying: bignum_sliced.c up to the division. */
module MpiArith {
  import opened Bits
  import opened Limbs
  import opened MpiCore

  function Max(a: int, b: int): int {
    if a >= b then a else b
  }

  /** mbedtls_mpi_copy */
  method Copy(X: Mpi, Y: Mpi) returns (ret: int)
    modifies X
    ensures ret == 0 <==> X == Y || |old(Y.p)| == 0 || Used(old(Y.p)) <= Max(|old(X.p)|, MAX_LIMBS)
    ensures ret == 0 || ret == ERR_ALLOC_FAILED
    ensures ret == 0 ==> X.Mag() == old(Y.Mag())
    ensures X == Y || ret != 0 ==> X.p == old(X.p)
    ensures ret == 0 && X != Y && |Y.p| > 0 ==> |X.p| == Max(|old(X.p)|, Max(1, Used(Y.p)))
    ensures |old(X.p)| <= |X.p| <= Max(|old(X.p)|, |old(Y.p)|)
    ensures X.s == if X == Y || |old(Y.p)| > 0 then old(Y.s) else if |old(X.p)| > 0 then 1 else old(X.s)
  {
    if X == Y {
      return 0;
    }
    if |Y.p| == 0 {
      if |X.p| != 0 {
        X.s := 1;
        X.p := Zeros(|X.p|);
      }
      ValZeros(X.p);
      return 0;
    }
    var i := |Y.p| - 1;
    while i > 0
      invariant 0 <= i < |Y.p| && Used(Y.p) <= i + 1
      decreases i
    {
      if Y.p[i] != 0 {
        break;
      }
      i := i - 1;
    }
    i := i + 1;
    assert i == Max(1, Used(Y.p));
    X.s := Y.s;
    ghost var room := |X.p|;
    if |X.p| < i {
      ret := X.Grow(i);
      if ret != 0 {
        return;
      }
    }
    X.p := X.p[..i] + Zeros(|X.p| - i);
    X.p := Y.p[..i] + X.p[i..];
    ValTrim(X.p, i);
    ValTrim(Y.p, i);
    assert X.p[..i] == Y.p[..i];
    ret := 0;
  }

  /** mbedtls_mpi_lset */
  method Lset(X: Mpi, z: int) returns (ret: int)
    requires -0x8000_0000 < z < 0x8000_0000
    modifies X
    ensures ret == 0
    ensures X.Int() == z && X.s == if z < 0 then -1 else 1
    ensures |X.p| == Max(|old(X.p)|, 1)
    ensures forall i :: 1 <= i < |X.p| ==> X.p[i] == 0
  {
    ret := X.Grow(1);
    X.p := Zeros(|X.p|);
    X.p := X.p[0 := if z < 0 then -z else z];
    X.s := if z < 0 then -1 else 1;
    ValTrim(X.p, 1);
    assert X.p[..1] == [X.p[0]];
    assert Val(X.p[..1]) == X.p[0] + BASE * Val(X.p[..1][1..]);
  }

  /** mbedtls_clz: the number of zero bits above the highest one. */
  method Clz(x: Limb) returns (j: nat)
    ensures j == 32 - BitLen(x)
  {
    var mask: nat := 0x8000_0000;
    j := 0;
    Pow2Words();
    while j < 32
      invariant j <= 32 && x < Pow2(32 - j)
      invariant j < 32 ==> mask == Pow2(31 - j)
    {
      AndPow2(x, 31 - j);
      if And(x, mask) != 0 {
        break;
      }
      mask := mask / 2;
      j := j + 1;
    }
    if x > 0 {
      BitLenUnique(x, 32 - j);
    }
  }

  /** A word below 2^(k+1) has bit k set exactly when it is at least 2^k. */
  lemma {:induction false} AndPow2(x: nat, k: nat)
    requires x < Pow2(k + 1)
    ensures And(x, Pow2(k)) != 0 <==> x >= Pow2(k)
  {
    if k == 0 {
      AndOne(x);
    } else if x > 0 {
      AndPow2(x / 2, k - 1);
    }
  }

  /** mbedtls_mpi_bitlen */
  method Bitlen(X: Mpi) returns (n: nat)
    ensures n == BitLen(X.Mag())
  {
    if |X.p| == 0 {
      return 0;
    }
    var i := |X.p| - 1;
    while i > 0
      invariant 0 <= i < |X.p| && Used(X.p) <= i + 1
      decreases i
    {
      if X.p[i] != 0 {
        break;
      }
      i := i - 1;
    }
    var tmp := Clz(X.p[i]);
    n := i * 32 + (32 - tmp);
    BitLenTop(X.p, i);
  }

  lemma BitLenTop(p: seq<Limb>, i: nat)
    requires i < |p| && i + 1 == Max(1, Used(p))
    ensures BitLen(Val(p)) == 32 * i + BitLen(p[i])
  {
    UsedVal(p);
    if Used(p) > 0 {
      TopLimb(p, i);
      BitLenParts(Val(p), Val(p[..i]), p[i], i);
    }
  }

  lemma BitLenParts(v: nat, lo: nat, x: Limb, i: nat)
    requires x > 0 && lo < Radix(i) && v == lo + Radix(i) * x
    ensures BitLen(v) == 32 * i + BitLen(x)
  {
    hide Pow2, Radix;
    var l := BitLen(x);
    RadixPow2(i);
    BitLenShift(v, lo, x, Radix(i), Pow2(l), Pow2(l - 1));
    BitLenBetween(v, 32 * i, l);
  }

  lemma BitLenBetween(v: nat, n: nat, l: nat)
    requires l > 0 && Pow2(n) * Pow2(l - 1) <= v < Pow2(n) * Pow2(l)
    ensures BitLen(v) == n + l
  {
    hide Pow2;
    Pow2Add(n, l);
    Pow2Add(n, l - 1);
    BitLenUnique(v, n + l);
  }

  lemma TopLimb(p: seq<Limb>, i: nat)
    requires i < |p| && Used(p) == i + 1
    ensures Val(p) == Val(p[..i]) + Radix(i) * p[i]
    ensures Val(p[..i]) < Radix(i)
  {
    hide Val, Radix;
    UsedVal(p);
    ValTopSplit(p[..i + 1]);
    assert p[..i + 1][..i] == p[..i];
  }

  lemma BitLenShift(v: int, lo: int, x: int, r: int, hi: int, half: int)
    requires 0 <= lo < r && v == lo + r * x && half <= x < hi
    ensures r * half <= v < r * hi
  {
    MulAtLeast(r, x, half);
    MulAtLeast(r, hi, x + 1);
  }

  function Sign(x: int): int {
    if x > 0 then 1 else if x < 0 then -1 else 0
  }

  /** The limb-by-limb comparison from the top, for numbers of the same used length. */
  method CmpLimbs(X: Mpi, Y: Mpi, n: nat) returns (c: int)
    requires n == Used(X.p) == Used(Y.p)
    ensures c == Sign(X.Mag() - Y.Mag())
  {
    hide Val, Radix, Used;
    UsedVal(X.p);
    UsedVal(Y.p);
    ghost var x, y := X.p[..n], Y.p[..n];
    var i := n;
    while i > 0
      invariant i <= n && x[i..] == y[i..]
    {
      if X.p[i - 1] > Y.p[i - 1] {
        ValCompare(y, x, i - 1);
        return 1;
      }
      if X.p[i - 1] < Y.p[i - 1] {
        ValCompare(x, y, i - 1);
        return -1;
      }
      assert x[i - 1..] == [x[i - 1]] + x[i..] && y[i - 1..] == [y[i - 1]] + y[i..];
      i := i - 1;
    }
    assert x == x[0..] && y == y[0..];
    c := 0;
  }

  /** mbedtls_mpi_cmp_abs */
  method CmpAbs(X: Mpi, Y: Mpi) returns (c: int)
    ensures c == Sign(X.Mag() - Y.Mag())
  {
    var i := X.UsedLimbs();
    var j := Y.UsedLimbs();
    UsedVal(X.p);
    UsedVal(Y.p);
    if i == 0 && j == 0 {
      return 0;
    }
    if i > j {
      RadixMono(j, i - 1);
      return 1;
    }
    if j > i {
      RadixMono(i, j - 1);
      return -1;
    }
    c := CmpLimbs(X, Y, i);
  }

  /** mbedtls_mpi_cmp_mpi. Against a zero Y the sign field of Y is never looked at. */
  method CmpMpi(X: Mpi, Y: Mpi) returns (c: int)
    ensures Y.Mag() == 0 ==> c == if X.Mag() == 0 then 0 else X.s
    ensures X.Signed() && Y.Signed() ==> c == Sign(X.Int() - Y.Int())
  {
    hide Val;
    var i := X.UsedLimbs();
    var j := Y.UsedLimbs();
    UsedVal(X.p);
    UsedVal(Y.p);
    if i == 0 && j == 0 {
      return 0;
    }
    if i > j {
      RadixMono(j, i - 1);
      return X.s;
    }
    if j > i {
      RadixMono(i, j - 1);
      return -Y.s;
    }
    if X.s > 0 && Y.s < 0 {
      return 1;
    }
    if Y.s > 0 && X.s < 0 {
      return -1;
    }
    c := CmpLimbs(X, Y, i);
    c := if c > 0 then X.s else if c < 0 then -X.s else 0;
  }

  /** mbedtls_mpi_cmp_int: the sign of the temporary is whatever the stack held (junk). */
  method CmpInt(X: Mpi, z: int, junk: int) returns (c: int)
    requires -0x8000_0000 <= z < 0x8000_0000
    ensures z == 0 ==> c == if X.Mag() == 0 then 0 else X.s
    ensures X.Signed() && (junk == 1 || junk == -1) ==> c == CmpIntResult(X.Int(), z, junk)
  {
    var Y := new Mpi();
    Y.s, Y.p := junk, [z % BASE];
    ValOne(z % BASE);
    c := CmpMpi(X, Y);
  }

  /** What comparing the integer x with z yields when the temporary's sign field is junk. */
  function CmpIntResult(x: int, z: int, junk: int): int {
    Sign(x - junk * (z % BASE))
  }

  /** The comparison is independent of the stack contents exactly when z is 0. */
  lemma CmpIntSoundOnlyForZero(z: int)
    requires -0x8000_0000 <= z < 0x8000_0000
    ensures (forall x :: CmpIntResult(x, z, 1) == CmpIntResult(x, z, -1)) <==> z == 0
  {
    if z != 0 {
      assert CmpIntResult(0, z, 1) != CmpIntResult(0, z, -1);
    }
  }

  // ---- shifts -----------------------------------------------------------------------------------

  /** x << t on one limb. */
  function ShlOne(x: Limb, t: nat): (y: Limb)
    requires 0 < t < 32
  {
    x * Pow2(t) % BASE
  }

  /** x >> (32 - t) on one limb: the bits a left shift by t hands to the limb above. */
  function HandUp(x: Limb, t: nat): (y: Limb)
    requires 0 < t < 32
    ensures y < Pow2(t)
  {
    ShrParts(x, 32 - t);
    Pow2Mono(t, 31);
    Pow2Words();
    x / Pow2(32 - t)
  }

  /** 2^t as a limb. */
  function Bit(t: nat): (b: Limb)
    requires t < 32
    ensures b == Pow2(t)
  {
    Pow2Mono(t, 31);
    Pow2Words();
    Pow2(t)
  }

  lemma ShlWord(a: Limb, r0: Limb, t: nat)
    requires 0 < t < 32 && r0 < Pow2(t)
    ensures Or(ShlOne(a, t), r0) == Column(0, a, Bit(t), r0) % BASE
    ensures HandUp(a, t) == Column(0, a, Bit(t), r0) / BASE
  {
    hide Pow2, Or;
    ShrParts(a, 32 - t);
    OrDisjoint(a * Pow2(t) % BASE, r0, t);
    Pow2Add(t, 32 - t);
    Pow2Words();
    ShlWordInt(a, r0, Pow2(t), Pow2(32 - t));
  }

  lemma ShlWordInt(a: int, r0: int, p: int, q: int)
    requires p > 0 && q > 0 && q * p == BASE && 0 <= r0 < p && 0 <= a < BASE
    requires a * p % BASE <= BASE - p && a * p % BASE == (a % q) * p
    ensures a * p % BASE + r0 == (a * p + r0) % BASE
    ensures a / q == (a * p + r0) / BASE
  {
    var h, l := a / q, a % q;
    assert a == q * h + l;
    Distribute(q, h, l, p);
    DivModUnique(a * p + r0, BASE, h, l * p + r0);
  }

  /** p[from..] shifted left by t bits in place; the bits leaving the top limb are lost. */
  method ShiftBitsUp(X: Mpi, from: nat, t: nat)
    requires 0 < t < 32 && from <= |X.p|
    modifies X`p
    ensures X.p == old(X.p[..from]) + MulAdd(Zeros(|old(X.p)| - from), old(X.p[from..]), Bit(t), 0)
  {
    hide MulAdd, Accumulating, Splice, ShlOne, HandUp, Bit, Or, Column;
    ghost var d0, s, d: seq<Limb> := X.p, X.p[from..], Zeros(|X.p| - from);
    ghost var done: seq<Limb> := [];
    AccumulateStart(d0, from, d, s, Bit(t));
    var r0: Limb, i := 0, from;
    while i < |X.p|
      invariant from <= i == from + |done| <= |d0| && r0 < Pow2(t)
      invariant X.p == Splice(d0, from, done)
      invariant Accumulating(done, d, s, Bit(t), r0)
    {
      SpliceRest(d0, from, done);
      var x := X.p[i];
      ShlWord(x, r0, t);
      var low: Limb := Or(ShlOne(x, t), r0);
      AccumulateColumn(done, d, s, Bit(t), r0, x, low, HandUp(x, t));
      SpliceNext(d0, from, done, low);
      X.p := X.p[i := low];
      r0, i, done := HandUp(x, t), i + 1, done + [low];
    }
    AccumulateDone(done, d, s, Bit(t), r0);
    SpliceAll(d0, from, done);
  }

  lemma SpliceRest(d: seq<Limb>, off: nat, done: seq<Limb>)
    requires off + |done| < |d|
    ensures Splice(d, off, done)[off + |done|] == d[off + |done|] == d[off..][|done|]
  {
  }

  lemma SpliceAll(d: seq<Limb>, off: nat, done: seq<Limb>)
    requires off + |done| == |d|
    ensures Splice(d, off, done) == d[..off] + done
  {
  }

  /** p moved up by v limbs in place, zeros moved in below; the top v limbs are lost. */
  method ShiftLimbsUp(X: Mpi, v: nat)
    requires v <= |X.p|
    modifies X`p
    ensures X.p == Zeros(v) + old(X.p[..|X.p| - v])
  {
    hide Val;
    ghost var q := X.p;
    var i := |X.p|;
    while i > v
      invariant v <= i <= |X.p| == |q|
      invariant forall k :: 0 <= k < i ==> X.p[k] == q[k]
      invariant forall k :: i <= k < |q| ==> X.p[k] == q[k - v]
    {
      X.p := X.p[i - 1 := X.p[i - v - 1]];
      i := i - 1;
    }
    ClearLow(X, i);
  }

  /** The low limbs set to zero, from the top down. */
  method ClearLow(X: Mpi, v: nat)
    requires v <= |X.p|
    modifies X`p
    ensures X.p == Zeros(v) + old(X.p[v..])
  {
    hide Val;
    var i := v;
    while i > 0
      invariant 0 <= i <= v <= |X.p| && X.p[v..] == old(X.p[v..])
      invariant forall k :: i <= k < v ==> X.p[k] == 0
    {
      X.p := X.p[i - 1 := 0];
      i := i - 1;
    }
    assert X.p == X.p[..v] + X.p[v..];
  }

  /** The number of limbs that hold n bits. */
  function LimbsFor(n: nat): (k: nat)
    ensures n <= 32 * k && (k > 0 ==> 32 * (k - 1) < n)
  {
    n / 32 + if n % 32 != 0 then 1 else 0
  }

  /** mbedtls_mpi_shift_l */
  method ShiftL(X: Mpi, count: nat) returns (ret: int)
    modifies X`p
    ensures ret == 0 <==> LimbsFor(BitLen(old(X.Mag())) + count) <= Max(|old(X.p)|, MAX_LIMBS)
    ensures ret == 0 || ret == ERR_ALLOC_FAILED
    ensures ret == 0 ==> X.Mag() == old(X.Mag()) * Pow2(count)
    ensures ret == 0 ==> |X.p| == Max(|old(X.p)|, LimbsFor(BitLen(old(X.Mag())) + count))
  {
    var i := Bitlen(X);
    i := i + count;
    if |X.p| * 32 < i {
      ret := X.Grow(i / 32 + if i % 32 != 0 then 1 else 0);
      if ret != 0 {
        return;
      }
    }
    ret := 0;
    ShiftInPlace(X, count / 32, count % 32);
  }

  /** The two loops of the left shift: whole limbs first, then bits. */
  method ShiftInPlace(X: Mpi, v0: nat, t1: nat)
    requires t1 < 32 && BitLen(X.Mag()) + 32 * v0 + t1 <= 32 * |X.p|
    modifies X`p
    ensures X.Mag() == old(X.Mag()) * Pow2(32 * v0 + t1)
    ensures |X.p| == |old(X.p)|
  {
    hide MulAdd, Val, Pow2;
    ghost var q := X.p;
    ShiftFits(q, 32 * v0 + t1);
    if v0 > 0 {
      ShiftLimbsUp(X, v0);
    }
    assert X.p == Zeros(v0) + q[..|q| - v0];
    if t1 > 0 {
      ShiftBitsUp(X, v0, t1);
      assert (Zeros(v0) + q[..|q| - v0])[..v0] == Zeros(v0);
      assert (Zeros(v0) + q[..|q| - v0])[v0..] == q[..|q| - v0];
    }
    ShiftedVal(X.p, q, v0, t1);
  }

  /** A shift that fits the buffer moves only zero limbs out of it. */
  lemma ShiftFits(q: seq<Limb>, count: nat)
    requires BitLen(Val(q)) + count <= 32 * |q|
    ensures count / 32 <= |q|
    ensures Val(q) * Pow2(count) < Radix(|q|)
    ensures Val(q[..|q| - count / 32]) == Val(q)
  {
    var l, m := BitLen(Val(q)), |q| - count / 32;
    RadixPow2(|q|);
    RadixPow2(m);
    Pow2Mono(l + count, 32 * |q|);
    Pow2Add(l, count);
    MulLess(Pow2(count), Val(q), Pow2(l));
    Pow2Mono(l, 32 * m);
    ValSmall(q, m);
  }

  lemma ShiftedVal(p: seq<Limb>, q: seq<Limb>, v0: nat, t1: nat)
    requires t1 < 32 && v0 <= |q| && Val(q) * Pow2(32 * v0 + t1) < Radix(|q|) && Val(q[..|q| - v0]) == Val(q)
    requires p == Zeros(v0) + if t1 == 0 then q[..|q| - v0] else MulAdd(Zeros(|q| - v0), q[..|q| - v0], Bit(t1), 0)
    ensures Val(p) == Val(q) * Pow2(32 * v0 + t1)
  {
    hide Val, MulAdd, Radix;
    var r, x := q[..|q| - v0], Val(q);
    Pow2Add(32 * v0, t1);
    RadixPow2(v0);
    RadixAdd(v0, |q| - v0);
    ValZeros(Zeros(v0));
    ValZeros(Zeros(|q| - v0));
    ShiftedBound(x, Radix(v0), Pow2(t1), Radix(|q| - v0), x * Pow2(32 * v0 + t1));
    if t1 == 0 {
      ValAppend(Zeros(v0), r);
    } else {
      MulAddExact(Zeros(|q| - v0), r, Bit(t1), 0);
      ValAppend(Zeros(v0), MulAdd(Zeros(|q| - v0), r, Bit(t1), 0));
    }
  }

  lemma ShiftedBound(x: int, rv: int, p: int, rm: int, y: int)
    requires rv > 0 && y == x * (rv * p) < rv * rm
    ensures x * p < rm && y == rv * (x * p)
  {
    assert y == rv * (x * p);
    if x * p >= rm {
      MulAtLeast(rv, x * p, rm);
    }
  }

  /** p moved down by v limbs in place, zeros moved in on top. */
  method ShiftLimbsDown(X: Mpi, v: nat)
    requires v <= |X.p|
    modifies X`p
    ensures X.p == old(X.p[v..]) + Zeros(v)
  {
    ghost var q := X.p;
    var i := 0;
    while i < |X.p| - v
      invariant 0 <= i <= |X.p| - v && |X.p| == |q|
      invariant forall k :: i <= k < |q| ==> X.p[k] == q[k]
      invariant forall k :: 0 <= k < i ==> X.p[k] == q[k + v]
    {
      X.p := X.p[i := X.p[i + v]];
      i := i + 1;
    }
    while i < |X.p|
      invariant |q| - v <= i <= |X.p| == |q|
      invariant forall k :: |q| - v <= k < i ==> X.p[k] == 0
      invariant forall k :: 0 <= k < |q| - v ==> X.p[k] == q[k + v]
    {
      X.p := X.p[i := 0];
      i := i + 1;
    }
  }

  /** x >> v on one limb. */
  function ShrOne(x: Limb, v: nat): (y: Limb)
    requires 0 < v < 32
  {
    ShrParts(x, v);
    x / Pow2(v)
  }

  /** x << (32 - v) on one limb: the bits a right shift by v hands to the limb below. */
  function HandDown(x: Limb, v: nat): (y: Limb)
    requires 0 < v < 32
    ensures x == 0 ==> y == 0
  {
    ShrParts(x, v);
    x * Pow2(32 - v) % BASE
  }

  lemma ShrWord(x: Limb, m: Limb, v: nat)
    requires 0 < v < 32
    ensures Or(ShrOne(x, v), HandDown(m, v)) == ShrLimb(x, m, v)
  {
    ShrParts(x, v);
    ShrParts(m, v);
    OrDisjoint(m * Pow2(32 - v) % BASE, x / Pow2(v), 32 - v);
    OrComm(x / Pow2(v), m * Pow2(32 - v) % BASE);
  }

  /** q with the limbs from i on already shifted. */
  function ShrFrom(q: seq<Limb>, i: nat, v: nat): (r: seq<Limb>)
    requires 0 < v < 32 && i <= |q|
    ensures |r| == |q| && forall k :: 0 <= k < i ==> r[k] == q[k]
  {
    q[..i] + ShrBits(q[i..], v)
  }

  lemma ShrFromStep(q: seq<Limb>, i: nat, v: nat)
    requires 0 < v < 32 && i < |q|
    ensures ShrFrom(q, i, v) == ShrFrom(q, i + 1, v)[i := ShrLimb(q[i], if i + 1 < |q| then q[i + 1] else 0, v)]
  {
    assert q[i..][1..] == q[i + 1..];
  }

  lemma ShrFromEnds(q: seq<Limb>, v: nat)
    requires 0 < v < 32
    ensures ShrFrom(q, |q|, v) == q && ShrFrom(q, 0, v) == ShrBits(q, v)
  {
    assert q[..|q|] == q && q[0..] == q;
  }

  /** p shifted right by v bits in place, from the top limb down. */
  method ShiftBitsDown(X: Mpi, v: nat)
    requires 0 < v < 32
    modifies X`p
    ensures X.p == ShrBits(old(X.p), v)
  {
    hide ShrLimb, ShrBits, ShrOne, HandDown, Or, ShrFrom;
    ghost var q := X.p;
    var r0: Limb, i := 0, |X.p|;
    ShrFromEnds(q, v);
    while i > 0
      invariant 0 <= i <= |X.p| == |q|
      invariant X.p == ShrFrom(q, i, v)
      invariant r0 == HandDown(if i < |q| then q[i] else 0, v)
    {
      var x := X.p[i - 1];
      ShrWord(x, if i < |q| then q[i] else 0, v);
      ShrFromStep(q, i - 1, v);
      X.p := X.p[i - 1 := Or(ShrOne(x, v), r0)];
      r0, i := HandDown(x, v), i - 1;
    }
  }

  /** mbedtls_mpi_shift_r */
  method ShiftR(X: Mpi, count: nat) returns (ret: int)
    modifies X
    ensures ret == 0
    ensures X.Mag() == old(X.Mag()) / Pow2(count)
    ensures |X.p| == Max(|old(X.p)|, if count > 32 * |old(X.p)| then 1 else 0)
    ensures X.s == if count > 32 * |old(X.p)| then 1 else old(X.s)
  {
    var v0, v1 := count / 32, count % 32;
    ghost var q := X.p;
    if v0 > |X.p| || (v0 == |X.p| && v1 > 0) {
      ShrAll(q, count);
      ret := Lset(X, 0);
      return;
    }
    if v0 > 0 {
      ShiftLimbsDown(X, v0);
    }
    assert X.p == q[v0..] + Zeros(v0);
    ShrLimbsVal(X.p, q, v0);
    if v1 > 0 {
      ShrBitsDiv(X.p, v1);
      ShiftBitsDown(X, v1);
    }
    DivPow2(Val(q), 32 * v0, v1);
    return 0;
  }

  lemma ShrAll(q: seq<Limb>, count: nat)
    requires count > 32 * |q|
    ensures Val(q) / Pow2(count) == 0
  {
    ValBound(q);
    RadixPow2(|q|);
    Pow2Mono(32 * |q|, count);
    DivModUnique(Val(q), Pow2(count), 0, Val(q));
  }

  lemma ShrLimbsVal(p: seq<Limb>, q: seq<Limb>, v0: nat)
    requires v0 <= |q| && p == q[v0..] + Zeros(v0)
    ensures Val(p) == Val(q) / Pow2(32 * v0)
  {
    ValTrim(p, |q| - v0);
    assert p[..|q| - v0] == q[v0..];
    ValSplit(q, v0);
    RadixPow2(v0);
    DivModUnique(Val(q), Radix(v0), Val(q[v0..]), Val(q[..v0]));
  }

  lemma DivPow2(x: nat, i: nat, j: nat)
    ensures x / Pow2(i) / Pow2(j) == x / Pow2(i + j)
  {
    Pow2Add(i, j);
    DivDiv(x, Pow2(i), Pow2(j));
  }

  lemma DivDiv(x: nat, a: int, b: int)
    requires a > 0 && b > 0
    ensures a * b > 0
    ensures x / a / b == x / (a * b)
  {
    var q, r := x / a, x % a;
    var q1, r1 := q / b, q % b;
    assert x == a * q + r && q == b * q1 + r1;
    assert a * q == (a * b) * q1 + a * r1;
    MulAtLeast(a, b - 1, r1);
    MulAtLeast(a, r1, 0);
    MulAtLeast(a, b, 1);
    DivModUnique(x, a * b, q1, a * r1 + r);
  }
}
