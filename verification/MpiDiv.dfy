/** Long division with a normalised divisor: mbedtls_mpi_div_mpi and mbedtls_mpi_mod_mpi. */
module MpiDiv {
  import opened Bits
  import opened Limbs
  import opened MpiCore
  import opened MpiArith
  import opened MpiAdd
  import opened DivLemmas

  /** mbedtls_mpi_cmp_int(X, 0), with an arbitrary uninitialised sign in its temporary. */
  method CmpZero(X: Mpi) returns (c: int)
    ensures c == if X.Mag() == 0 then 0 else X.s
  {
    var junk: int := *;
    c := CmpInt(X, 0, junk);
  }

  /** mbedtls_int_div_int: two limbs over one, saturated. */
  method IntDivInt(u1: Limb, u0: Limb, d: Limb) returns (r: Limb)
    ensures r == if d == 0 || u1 >= d then BASE - 1 else (u1 * BASE + u0) / d
  {
    if d == 0 || u1 >= d {
      return BASE - 1;
    }
    var dividend := u1 * BASE + u0;
    var quotient := dividend / d;
    if quotient > BASE - 1 {
      quotient := BASE - 1;
    }
    QuotientFits(u1, u0, d);
    r := quotient;
  }

  lemma QuotientFits(u1: Limb, u0: Limb, d: Limb)
    requires u1 < d
    ensures 0 <= (u1 * BASE + u0) / d < BASE
  {
    var x := u1 * BASE + u0;
    var q, r := x / d, x % d;
    assert x == d * q + r;
    if q >= BASE {
      MulAtLeast(d, q, BASE);
    }
  }

  // ---- one quotient digit -------------------------------------------------------------------------

  /** One pass of the three-by-two test: T1 := v * z is compared with T2 = u. */
  method TestDigit(T1: Mpi, T2: Mpi, y1: Limb, y0: Limb, z: Limb, ghost v: nat) returns (c: int)
    requires T1 != T2 && |T1.p| >= 3 && T2.s == 1 && v == y1 * BASE + y0
    modifies T1
    ensures c == Sign(v * z - T2.Mag())
    ensures |T1.p| == |old(T1.p)|
  {
    hide Val;
    var ret := Lset(T1, 0);
    ValIsZero(T1.p);
    T1.p := T1.p[0 := y0];
    T1.p := T1.p[1 := y1];
    ValTrim(T1.p, 2);
    assert T1.p[..2] == [y0, y1];
    ValThree(y0, y1, 0);
    UsedBelow2(T1.p);
    ret := MulInt(T1, T1, z);
    c := CmpMpi(T1, T2);
  }

  lemma UsedBelow2(p: seq<Limb>)
    requires |p| >= 2 && forall i :: 2 <= i < |p| ==> p[i] == 0
    ensures Used(p) <= 2
  {
    assert Used(p) > 0 ==> p[Used(p) - 1] != 0;
  }

  /** The first estimate of a quotient digit is never below the true one. */
  method EstimateDigit(X: Mpi, Y: Mpi, i: nat, t: nat, ghost q: nat) returns (z: Limb)
    requires 0 < i < |X.p| && t < |Y.p| && Y.p[t] > 0
    requires q < BASE && q * Top2(Y.p, t) <= Top3(X.p, i)
    ensures q <= z
  {
    hide Val, Radix, Used;
    FirstEstimate(q, X.p[i], X.p[i - 1], if i < 2 then 0 else X.p[i - 2], Y.p[t], if t < 1 then 0 else Y.p[t - 1],
                  Top2(Y.p, t), Top3(X.p, i));
    if X.p[i] >= Y.p[t] {
      z := BASE - 1;
    } else {
      z := IntDivInt(X.p[i], X.p[i - 1], Y.p[t]);
    }
  }

  /** The digit Z[j] is estimated from two limbs over one, then lowered until it passes the test. */
  method SettleDigit(X: Mpi, Y: Mpi, Z: Mpi, T1: Mpi, T2: Mpi, i: nat, t: nat, ghost q: nat)
    requires X !in {Z, T1, T2} && Y !in {Z, T1, T2} && Z !in {T1, T2} && T1 != T2
    requires t < i < |X.p| && t < |Y.p| && i - t - 1 < |Z.p| && |T1.p| >= 3
    requires |T2.p| == 3 && T2.s == 1 && Y.p[t] > 0
    requires q < BASE && q * Top2(Y.p, t) <= Top3(X.p, i)
    modifies Z`p, T1, T2`p
    ensures |Z.p| == |old(Z.p)| && |T1.p| == |old(T1.p)| && |T2.p| == 3
    ensures q <= Z.p[i - t - 1] && Z.p[i - t - 1] * Top2(Y.p, t) <= Top3(X.p, i)
  {
    hide Val, Radix, Used, Sign;
    var j := i - t - 1;
    var z := EstimateDigit(X, Y, i, t, q);
    Z.p := Z.p[j := z];
    var x0: Limb := if i < 2 then 0 else X.p[i - 2];
    T2.p := [x0, X.p[i - 1], X.p[i]];
    ValThree(x0, X.p[i - 1], X.p[i]);
    Z.p := Z.p[j := (Z.p[j] + 1) % BASE];
    LowerDigit(Z, T1, T2, j, Y.p[t], if t < 1 then 0 else Y.p[t - 1], q, Top2(Y.p, t));
  }

  /** The decrementing loop: stops at a digit that passes, and never below one that does. */
  method LowerDigit(Z: Mpi, T1: Mpi, T2: Mpi, j: nat, y1: Limb, y0: Limb, ghost q: nat, ghost v: nat)
    requires Z !in {T1, T2} && T1 != T2 && j < |Z.p| && |T1.p| >= 3 && T2.s == 1
    requires q <= (Z.p[j] - 1) % BASE && q * v <= T2.Mag() && v == y1 * BASE + y0 > 0
    modifies Z`p, T1
    ensures |Z.p| == |old(Z.p)| && |T1.p| == |old(T1.p)|
    ensures q <= Z.p[j] && Z.p[j] * v <= T2.Mag()
  {
    while true
      invariant |Z.p| == |old(Z.p)| && |T1.p| == |old(T1.p)|
      invariant q <= (Z.p[j] - 1) % BASE
      decreases (Z.p[j] - 1) % BASE
    {
      Z.p := Z.p[j := (Z.p[j] - 1) % BASE];
      var c := TestDigit(T1, T2, y1, y0, Z.p[j], v);
      if !(c > 0) {
        break;
      }
      Cancel(q, Z.p[j], v);
    }
  }

  /** T1 := z * Y shifted up j limbs. */
  method ShiftedProduct(T1: Mpi, Y: Mpi, z: Limb, j: nat, ghost t: nat)
    requires T1 != Y && Y.s == 1 && Y.Mag() < Radix(t + 1) && t + 1 + j < |T1.p| <= MAX_LIMBS && |T1.p| > 2
    modifies T1
    ensures T1.Mag() == z * (Y.Mag() * Radix(j)) && T1.s == 1 && |T1.p| == |old(T1.p)|
  {
    hide Val, Radix, Pow2, BitLen, LimbsFor, Used;
    ghost var y := Y.Mag();
    UsedBelow(Y.p, t + 1);
    var ret := MulInt(T1, Y, z);
    ProductLength(y, z, t, j, |T1.p|);
    RadixPow2(j);
    ret := ShiftL(T1, 32 * j);
    ProductOrder(y, z, Radix(j));
  }

  lemma ProductOrder(y: int, z: int, r: int)
    ensures y * z * r == z * (y * r)
  {
  }

  /** z * Y, shifted up j limbs, is taken off X; if that was one too many, Y is added back once. */
  method SubtractMultiple(X: Mpi, Y: Mpi, Z: Mpi, T1: Mpi, i: nat, t: nat)
    requires X !in {Y, Z, T1} && Y !in {Z, T1} && Z != T1
    requires X.s == 1 && Y.s == 1 && t < i && i - t - 1 < |Z.p|
    requires 0 < Y.Mag() < Radix(t + 1) && Max(i, 2) < |T1.p| <= MAX_LIMBS && |X.p| <= |T1.p|
    requires var d := Y.Mag() * Radix(i - t - 1);
             var z := Z.p[i - t - 1];
             -d < X.Mag() - z * d < d
    modifies X, Z`p, T1
    ensures X.s == 1 && X.Mag() == old(X.Mag()) % (Y.Mag() * Radix(i - t - 1))
    ensures |old(X.p)| <= |X.p| <= |T1.p| == |old(T1.p)| && |Z.p| == |old(Z.p)|
  {
    hide Val, Radix, Pow2, BitLen, LimbsFor, Used;
    var j := i - t - 1;
    ghost var d, x := Y.Mag() * Radix(j), X.Mag();
    ghost var z := Z.p[j];
    ShiftedProduct(T1, Y, Z.p[j], j, t);
    var ret := SubMpi(X, X, T1);
    var c := CmpZero(X);
    if c < 0 {
      AddBack(X, Y, T1, j, t, d);
      Z.p := Z.p[j := (Z.p[j] - 1) % BASE];
      DivModUnique(x, d, z - 1, X.Mag());
    } else {
      DivModUnique(x, d, z, X.Mag());
    }
  }

  /** The add-back: X + Y shifted up j limbs, for X just below zero. */
  method AddBack(X: Mpi, Y: Mpi, T1: Mpi, j: nat, t: nat, ghost d: nat)
    requires X !in {Y, T1} && Y != T1 && X.s == -1 && Y.s == 1
    requires Y.Mag() < Radix(t + 1) && t + 1 + j < |T1.p| <= MAX_LIMBS && |X.p| <= |T1.p|
    requires d == Y.Mag() * Radix(j) && X.Mag() < d
    modifies X, T1
    ensures X.s == 1 && X.Mag() == d - old(X.Mag())
    ensures |old(X.p)| <= |X.p| <= |T1.p| == |old(T1.p)|
  {
    hide Val, Radix, Pow2, BitLen, LimbsFor, Used;
    UsedBelow(Y.p, t + 1);
    if Y.Mag() > 0 {
      UsedPositive(Y.p);
    }
    var ret := Copy(T1, Y);
    ProductLength(Y.Mag(), 1, t, j, |T1.p|);
    RadixPow2(j);
    ret := ShiftL(T1, 32 * j);
    ret := AddMpi(X, X, T1);
  }

  lemma UsedPositive(p: seq<Limb>)
    requires Val(p) > 0
    ensures 0 < Used(p) <= |p|
  {
    UsedVal(p);
  }

  lemma BitLenZero()
    ensures BitLen(0) == 0
  {
  }

  /** The product of Y and one digit, shifted up j limbs, fits the scratch number. */
  lemma ProductLength(y: nat, z: Limb, t: nat, j: nat, room: nat)
    requires y < Radix(t + 1) && t + 1 + j < room
    ensures LimbsFor(BitLen(y * z) + 32 * j) <= room
  {
    hide Pow2, BitLen;
    BitLenZero();
    var l := BitLen(y * z);
    RadixPow2(t + 2);
    if y * z > 0 {
      MulAtLeast(y, BASE, z);
      assert Radix(t + 2) == BASE * Radix(t + 1);
      assert y * z < Radix(t + 2);
      if l > 32 * (t + 2) {
        Pow2Mono(32 * (t + 2), l - 1);
      }
    }
  }

  /** One iteration of the main loop reduces X modulo Y shifted up i - t - 1 limbs. */
  method DivisionStep(X: Mpi, Y: Mpi, Z: Mpi, T1: Mpi, T2: Mpi, i: nat, t: nat)
    requires X !in {Y, Z, T1, T2} && Y !in {Z, T1, T2} && Z !in {T1, T2} && T1 != T2
    requires X.s == 1 && Y.s == 1 && T2.s == 1 && |T2.p| == 3
    requires t < i < |X.p| <= |T1.p| <= MAX_LIMBS && t < |Y.p| && i - t - 1 < |Z.p| && |T1.p| > 2
    requires 0x4000_0000 * Radix(t) <= Y.Mag() < Radix(t + 1)
    requires X.Mag() < Y.Mag() * Radix(i - t)
    modifies X, Z`p, T1, T2`p
    ensures X.s == 1 && X.Mag() == old(X.Mag()) % (Y.Mag() * Radix(i - t - 1))
    ensures |old(X.p)| <= |X.p| <= |T1.p| == |old(T1.p)| && |Z.p| == |old(Z.p)| && |T2.p| == 3
  {
    hide Val, Radix, Top2, Top3, Leading;
    ghost var j, y := i - t - 1, Y.Mag();
    ghost var d, q, c, w := StepBounds(X.p, Y.p, i, t);
    SettleDigit(X, Y, Z, T1, T2, i, t, q);
    ghost var z := Z.p[j];
    PassingDigitClose(X.Mag(), d, Top3(X.p, i), Top2(Y.p, t), c, w, z);
    DigitAbove(X.Mag(), d, q, z);
    SubtractMultiple(X, Y, Z, T1, i, t);
  }

  lemma StepBounds(p: seq<Limb>, y: seq<Limb>, i: nat, t: nat) returns (d: nat, q: nat, c: int, w: int)
    requires t < i < |p| && t < |y|
    requires 0x4000_0000 * Radix(t) <= Val(y) < Radix(t + 1)
    requires Val(p) < Val(y) * Radix(i - t)
    ensures d == Val(y) * Radix(i - t - 1) && d > 0
    ensures q < BASE && q * d <= Val(p) < (q + 1) * d
    ensures Leading(Val(p), d, Top3(p, i), Top2(y, t), c, w)
    ensures q * Top2(y, t) <= Top3(p, i) && Top2(y, t) > BASE && y[t] > 0
  {
    hide Val;
    var j := i - t - 1;
    d := Val(y) * Radix(j);
    MulAtLeast(Radix(j), Val(y), 1);
    QuotientSigns(Val(p), d);
    q := Val(p) / d;
    MulLess(Radix(i - t), Val(y), Radix(t + 1));
    RadixAdd(t + 1, i - t);
    c, w := LeadingLimbs(p, y, i, t);
    MulSwap(Val(y), BASE, Radix(j));
    DigitFits(Val(p), d, q);
    TrueDigitPasses(Val(p), d, Top3(p, i), Top2(y, t), c, w, q);
    TopBit(y, t);
  }

  lemma QuotientSigns(x: nat, d: nat)
    requires d > 0
    ensures x / d >= 0 && (x / d) * d <= x < (x / d + 1) * d
  {
    var q, r := x / d, x % d;
    assert x == d * q + r;
    assert (q + 1) * d == q * d + d;
  }

  lemma TopBit(y: seq<Limb>, t: nat)
    requires t < |y| && 0x4000_0000 * Radix(t) <= Val(y) < Radix(t + 1)
    ensures y[t] >= 0x4000_0000
  {
    hide Val;
    ValSmall(y, t + 1);
    ValTopSplit(y[..t + 1]);
    assert y[..t + 1][..t] == y[..t];
    if y[t] < 0x4000_0000 {
      MulAtLeast(Radix(t), 0x3fff_ffff, y[t]);
    }
  }

  lemma DigitAbove(x: int, d: int, q: int, z: int)
    requires d > 0 && q <= z && x < (q + 1) * d
    ensures x - z * d < d
  {
    MulAtLeast(d, z, q);
    assert (q + 1) * d == q * d + d;
  }

  lemma ModMod(x: nat, y: int, r: int)
    requires y > 0 && r > 0
    ensures y * r > 0 && x % (y * r) % y == x % y
  {
    MulAtLeast(y, r, 1);
    var q, m := x / (y * r), x % (y * r);
    var q1, m1 := m / y, m % y;
    assert x == (y * r) * q + m && m == y * q1 + m1;
    assert (y * r) * q + y * q1 == y * (r * q + q1);
    DivModUnique(x, y, r * q + q1, m1);
  }

  /** The main loop: X becomes X mod Y. */
  method DivisionLoop(X: Mpi, Y: Mpi, Z: Mpi, T1: Mpi, T2: Mpi, n: nat, t: nat)
    requires X !in {Y, Z, T1, T2} && Y !in {Z, T1, T2} && Z !in {T1, T2} && T1 != T2
    requires X.s == 1 && Y.s == 1 && T2.s == 1 && |T2.p| == 3
    requires t <= n < |X.p| <= |T1.p| <= MAX_LIMBS && t < |Y.p| && n - t < |Z.p| && |T1.p| > 2
    requires 0x4000_0000 * Radix(t) <= Y.Mag() < Radix(t + 1)
    requires X.Mag() < Y.Mag() * Radix(n - t)
    modifies X, Z`p, T1, T2`p
    ensures X.s == 1 && Y.Mag() > 0 && X.Mag() == old(X.Mag()) % Y.Mag()
    ensures |X.p| >= |old(X.p)|
  {
    hide Val;
    ghost var y, x := Y.Mag(), X.Mag();
    MulAtLeast(0x4000_0000, Radix(t), 1);
    var i := n;
    while i > t
      invariant t <= i <= n < |old(X.p)| <= |X.p| <= |T1.p| == |old(T1.p)| && n - t < |Z.p| && |T2.p| == 3
      invariant X.s == 1 && T2.s == 1
      invariant X.Mag() < y * Radix(i - t)
      invariant X.Mag() % y == x % y
    {
      ModMod(X.Mag(), y, Radix(i - t - 1));
      DivisionStep(X, Y, Z, T1, T2, i, t);
      i := i - 1;
    }
    assert X.Mag() < y;
    DivModUnique(X.Mag(), y, 0, X.Mag());
  }

  /** The leading digit: Y, shifted level with X, is subtracted as often as it goes in. */
  method LeadingDigit(X: Mpi, Y: Mpi, Z: Mpi, k: nat)
    requires X != Y && Z !in {X, Y} && k < |Z.p| && Z.p[k] == 0
    requires X.s == 1 && Y.s == 1 && |X.p| <= MAX_LIMBS && |Y.p| <= MAX_LIMBS
    requires 0 < Y.Mag() && X.Mag() < 4 * Y.Mag()
    modifies X, Z`p
    ensures X.s == 1 && X.Mag() == old(X.Mag()) % Y.Mag()
    ensures |Z.p| == |old(Z.p)| && Z.p[k] == old(X.Mag()) / Y.Mag() <= 3
    ensures forall i :: 0 <= i < |Z.p| && i != k ==> Z.p[i] == old(Z.p[i])
    ensures |old(X.p)| <= |X.p| <= Max(|old(X.p)|, |Y.p|)
  {
    hide Val, Used;
    ghost var y, x, z := Y.Mag(), X.Mag(), Z.p;
    while true
      invariant X.s == 1 && |old(X.p)| <= |X.p| <= Max(|old(X.p)|, |Y.p|)
      invariant |Z.p| == |z| && Z.p[k] <= 3
      invariant forall i :: 0 <= i < |z| && i != k ==> Z.p[i] == z[i]
      invariant x == X.Mag() + Z.p[k] * y
      decreases X.Mag()
    {
      var c := CmpMpi(X, Y);
      if !(c >= 0) {
        break;
      }
      Z.p := Z.p[k := (Z.p[k] + 1) % BASE];
      var ret := SubMpi(X, X, Y);
      CountUp(x, X.Mag(), y, Z.p[k]);
    }
    DivModUnique(x, y, Z.p[k], X.Mag());
  }

  lemma CountUp(x: int, rest: int, y: int, c: int)
    requires 0 <= rest && 0 < y && x < 4 * y && x == rest + y + (c - 1) * y
    ensures x == rest + c * y && c <= 3
  {
    assert (c - 1) * y == c * y - y;
    if c >= 4 {
      MulAtLeast(y, c, 4);
    }
  }

  // ---- normalisation ------------------------------------------------------------------------------

  lemma BitLenScaled(v: nat, k: nat)
    requires v > 0
    ensures v * Pow2(k) > 0 && BitLen(v * Pow2(k)) == BitLen(v) + k
  {
    hide Pow2, BitLen;
    var l := BitLen(v);
    Pow2Add(l, k);
    Pow2Add(l - 1, k);
    ScaleBetween(v, Pow2(l - 1), Pow2(l), Pow2(k));
    BitLenUnique(v * Pow2(k), l + k);
  }

  lemma ScaleBetween(v: int, lo: int, hi: int, p: int)
    requires 0 < lo <= v < hi && p > 0
    ensures 0 < lo * p <= v * p < hi * p
  {
    MulAtLeast(p, v, lo);
    MulLess(p, v, hi);
    MulAtLeast(p, lo, 1);
  }

  lemma UsedIsLimbsFor(p: seq<Limb>)
    ensures Used(p) == LimbsFor(BitLen(Val(p)))
  {
    hide Val, Radix, Pow2;
    UsedVal(p);
    if Used(p) > 0 {
      BitLenTop(p, Used(p) - 1);
      LimbBitLen(p[Used(p) - 1]);
    }
  }

  lemma LimbBitLen(x: Limb)
    ensures BitLen(x) <= 32
  {
    Pow2Words();
    if BitLen(x) > 32 {
      Pow2Mono(32, BitLen(x) - 1);
    }
  }

  lemma {:induction false} BitLenMono(a: nat, b: nat)
    requires a <= b
    ensures BitLen(a) <= BitLen(b)
  {
    if a > 0 {
      BitLenMono(a / 2, b / 2);
    }
  }

  lemma TopNormal(y: nat, t: nat)
    requires BitLen(y) == 32 * t + 31
    ensures 0x4000_0000 * Radix(t) <= y < Radix(t + 1)
  {
    hide Pow2, Radix;
    RadixPow2(t);
    RadixNext(t);
    assert y > 0;
    Pow2Add(32 * t, 30);
    Pow2Add(32 * t, 31);
    Pow2Bits();
    MulEq(Radix(t), Pow2(30), 0x4000_0000);
    MulEq(Radix(t), Pow2(31), 0x8000_0000);
  }

  lemma RadixNext(t: nat)
    ensures Radix(t + 1) == BASE * Radix(t)
  {
  }

  lemma Pow2Bits()
    ensures Pow2(30) == 0x4000_0000 && Pow2(31) == 0x8000_0000
  {
    Pow2Words();
    assert Pow2(31) == 2 * Pow2(30);
  }

  /** How far the divisor is shifted: its length becomes 31 modulo 32. */
  function NormalShift(l: nat): (k: nat)
    ensures k < 32 && (l + k) % 32 == 31
  {
    if l % 32 < 31 then 31 - l % 32 else 0
  }

  lemma NormalLimbs(lx: nat, ly: nat)
    requires 0 < ly <= lx
    ensures var k := NormalShift(ly);
            && k == (if ly % 32 < 31 then 31 - ly % 32 else 0)
            && ly + k == 32 * (LimbsFor(ly + k) - 1) + 31
            && 0 < LimbsFor(ly) <= LimbsFor(ly + k) <= LimbsFor(lx + k) <= LimbsFor(lx) + 1
            && LimbsFor(lx) <= LimbsFor(lx + k)
  {
  }

  /** X and Y shifted left together until the top limb of Y has 31 bits. */
  method Normalise(X: Mpi, Y: Mpi) returns (k: nat)
    requires X != Y && |X.p| == Used(X.p) < MAX_LIMBS && |Y.p| == Used(Y.p)
    requires X.Mag() >= Y.Mag() > 0
    modifies X`p, Y`p
    ensures k < 32 && X.Mag() == old(X.Mag()) * Pow2(k) && Y.Mag() == old(Y.Mag()) * Pow2(k)
    ensures 0 < |Y.p| <= |X.p| <= |old(X.p)| + 1
    ensures BitLen(Y.Mag()) == 32 * (|Y.p| - 1) + 31
    ensures X.Mag() < Radix(|X.p|)
  {
    hide Val, Radix, Used, Pow2, BitLen, LimbsFor, NormalShift;
    ghost var x, y := X.Mag(), Y.Mag();
    UsedIsLimbsFor(X.p);
    UsedIsLimbsFor(Y.p);
    BitLenMono(y, x);
    var tmp := Bitlen(Y);
    k := tmp % 32;
    NormalLimbs(BitLen(x), tmp);
    Pow2Zero();
    BitLenScaled(x, NormalShift(tmp));
    BitLenScaled(y, NormalShift(tmp));
    if k < 31 {
      k := 31 - k;
      ShiftBoth(X, Y, k);
    } else {
      k := 0;
      MulEq(x, Pow2(0), 1);
      MulEq(y, Pow2(0), 1);
    }
    ValBound(X.p);
  }

  method ShiftBoth(X: Mpi, Y: Mpi, k: nat)
    requires X != Y
    requires LimbsFor(BitLen(X.Mag()) + k) <= MAX_LIMBS && LimbsFor(BitLen(Y.Mag()) + k) <= MAX_LIMBS
    modifies X`p, Y`p
    ensures X.Mag() == old(X.Mag()) * Pow2(k) && Y.Mag() == old(Y.Mag()) * Pow2(k)
    ensures |X.p| == Max(|old(X.p)|, LimbsFor(BitLen(old(X.Mag())) + k))
    ensures |Y.p| == Max(|old(Y.p)|, LimbsFor(BitLen(old(Y.Mag())) + k))
  {
    hide Val, Pow2, BitLen, LimbsFor;
    var ret := ShiftL(X, k);
    ret := ShiftL(Y, k);
  }

  lemma Pow2Zero()
    ensures Pow2(0) == 1
  {
  }

  /** X is below four times the divisor shifted level with it. */
  lemma LevelBound(x: nat, y: nat, n: nat, t: nat)
    requires t <= n && x < Radix(n + 1) && 0x4000_0000 * Radix(t) <= y
    ensures x < 4 * (y * Radix(n - t)) && y * Radix(n - t) > 0
  {
    RadixAdd(t, n - t);
    LevelInt(y, Radix(t), Radix(n - t));
    assert Radix(n + 1) == BASE * Radix(n);
  }

  lemma LevelInt(y: int, rt: int, r: int)
    requires rt > 0 && r > 0 && 0x4000_0000 * rt <= y
    ensures 0x4000_0000 * (rt * r) <= y * r && rt * r > 0
  {
    MulAtLeast(r, y, 0x4000_0000 * rt);
    MulAtLeast(r, rt, 1);
    MulAssoc(0x4000_0000, rt, r);
  }

  lemma ScaledMod(a: nat, b: nat, p: int)
    requires b > 0 && p > 0
    ensures b * p > 0 && (a * p) % (b * p) == (a % b) * p && ((a % b) * p) / p == a % b
  {
    var q, r := a / b, a % b;
    assert a == b * q + r;
    Distribute(b, q, r, p);
    MulLess(p, r, b);
    MulAtLeast(p, r, 0);
    DivModUnique(a * p, b * p, q, r * p);
    DivModUnique(r * p, p, r, 0);
  }

  // ---- the operations -----------------------------------------------------------------------------

  /** The body of mbedtls_mpi_div_mpi once X and Y are normalised: X becomes X mod Y. */
  method DivideNormalised(X: Mpi, Y: Mpi, Z: Mpi, T1: Mpi, T2: Mpi)
    requires X !in {Y, Z, T1, T2} && Y !in {Z, T1, T2} && Z !in {T1, T2} && T1 != T2
    requires X.s == 1 && Y.s == 1 && T2.s == 1 && |T2.p| == 3
    requires 0 < |Y.p| <= |X.p| <= |T1.p| <= MAX_LIMBS && |X.p| <= |Z.p| && |T1.p| > 2
    requires forall i :: 0 <= i < |Z.p| ==> Z.p[i] == 0
    requires BitLen(Y.Mag()) == 32 * (|Y.p| - 1) + 31
    requires X.Mag() < Radix(|X.p|)
    modifies X, Y, Z`p, T1, T2`p
    ensures old(Y.Mag()) > 0 && X.s == 1 && X.Mag() == old(X.Mag()) % old(Y.Mag())
    ensures |X.p| >= |old(X.p)|
  {
    hide Val, Used, Pow2, BitLen, Radix;
    var n, t := |X.p| - 1, |Y.p| - 1;
    ghost var x, y := X.Mag(), Y.Mag();
    TopNormal(y, t);
    LevelBound(x, y, n, t);
    BitLenRadix(y, n - t);
    var ret := ShiftL(Y, 32 * (n - t));
    RadixPow2(n - t);
    LeadingDigit(X, Y, Z, n - t);
    ret := ShiftR(Y, 32 * (n - t));
    DivModUnique(y * Radix(n - t), Radix(n - t), y, 0);
    ModMod(x, y, Radix(n - t));
    DivisionLoop(X, Y, Z, T1, T2, n, t);
  }

  lemma BitLenRadix(y: nat, k: nat)
    requires y > 0
    ensures BitLen(y * Radix(k)) == BitLen(y) + 32 * k
  {
    RadixPow2(k);
    BitLenScaled(y, 32 * k);
  }

  /** mbedtls_mpi_div_mpi from the working copies on: X becomes |A| mod |B|. */
  method Reduce(X: Mpi, Y: Mpi, room: nat) returns (ret: int)
    requires X != Y && X.s == 1 && Y.s == 1
    requires |X.p| == Used(X.p) && |Y.p| == Used(Y.p)
    requires X.Mag() >= Y.Mag() > 0 && |X.p| + 2 <= room
    modifies X, Y
    ensures ret == if room <= MAX_LIMBS then 0 else ERR_ALLOC_FAILED
    ensures ret == 0 ==> old(Y.Mag()) > 0 && X.Mag() == old(X.Mag()) % old(Y.Mag()) && |X.p| > 0
  {
    hide Val, Used, Pow2, BitLen, Radix;
    ghost var x, y := X.Mag(), Y.Mag();
    var Z := new Mpi();
    ret := Z.Grow(room);
    if ret != 0 {
      return;
    }
    ret := Lset(Z, 0);
    ValIsZero(Z.p);
    var k := ReduceWith(X, Y, Z, room);
    ScaledMod(x, y, Pow2(k));
    ret := ShiftR(X, k);
  }

  method ReduceWith(X: Mpi, Y: Mpi, Z: Mpi, room: nat) returns (k: nat)
    requires X != Y && Z !in {X, Y} && X.s == 1 && Y.s == 1
    requires |X.p| == Used(X.p) && |Y.p| == Used(Y.p)
    requires X.Mag() >= Y.Mag() > 0 && |X.p| + 2 <= room == |Z.p| <= MAX_LIMBS
    requires forall i :: 0 <= i < |Z.p| ==> Z.p[i] == 0
    modifies X, Y, Z`p
    ensures old(Y.Mag()) * Pow2(k) > 0
    ensures X.Mag() == (old(X.Mag()) * Pow2(k)) % (old(Y.Mag()) * Pow2(k))
    ensures k < 32 && |X.p| > 0
  {
    hide Val, Used, Pow2, BitLen, Radix;
    UsedPositive(X.p);
    var T1 := new Mpi();
    var T2 := new Mpi();
    T2.p := [0, 0, 0];
    var ret := T1.Grow(room);
    k := Normalise(X, Y);
    DivideNormalised(X, Y, Z, T1, T2);
  }

  /** The case |A| >= |B| > 0 of mbedtls_mpi_div_mpi. */
  method DivLarge(R: Mpi, A: Mpi, B: Mpi) returns (ret: int)
    requires A.Signed() && A.Mag() >= B.Mag() > 0
    modifies R
    ensures ret == 0 || ret == ERR_ALLOC_FAILED
    ensures ret == 0 ==> R.Mag() == old(A.Mag()) % old(B.Mag())
    ensures ret == 0 ==> R.s == if R.Mag() == 0 then 1 else old(A.s)
    ensures |old(A.p)| + 2 <= MAX_LIMBS ==> ret == 0
    ensures |old(R.p)| <= |R.p| <= Max(|old(R.p)|, |old(A.p)| + 2)
    ensures |R.p| <= Max(|old(R.p)|, MAX_LIMBS)
    ensures ret == 0 ==> |R.p| > 0
  {
    hide Val, Pow2, BitLen, Radix;
    ghost var a, b := A.Mag(), B.Mag();
    UsedPositive(A.p);
    UsedPositive(B.p);
    var X := new Mpi();
    var Y := new Mpi();
    ret := Copy(X, A);
    if ret != 0 {
      return;
    }
    CopyUsed(X.p, A.p);
    ret := Copy(Y, B);
    UsedOrder(A.p, B.p);
    CopyUsed(Y.p, B.p);
    Y.s := 1;
    X.s := Y.s;
    ret := Reduce(X, Y, |A.p| + 2);
    if ret != 0 {
      return;
    }
    X.s := A.s;
    RemainderUsed(a, b, X.p, A.p);
    ret := CopyBack(R, X);
  }

  /** The remainder is handed over; zero gets a positive sign. */
  method CopyBack(R: Mpi, X: Mpi) returns (ret: int)
    requires R != X && |X.p| > 0 && (X.s == 1 || X.s == -1)
    modifies R
    ensures ret == 0 || ret == ERR_ALLOC_FAILED
    ensures ret == 0 ==> R.Mag() == X.Mag() && R.s == (if X.Mag() == 0 then 1 else X.s) && |R.p| > 0
    ensures Used(X.p) <= MAX_LIMBS ==> ret == 0
    ensures |old(R.p)| <= |R.p| <= Max(|old(R.p)|, Max(1, Used(X.p)))
    ensures |R.p| <= Max(|old(R.p)|, MAX_LIMBS)
  {
    hide Val, Used;
    ret := Copy(R, X);
    if ret != 0 {
      return;
    }
    var c := CmpZero(R);
    if c == 0 {
      R.s := 1;
    }
  }

  lemma CopyUsed(p: seq<Limb>, q: seq<Limb>)
    requires Val(p) == Val(q) && |p| == Used(q)
    ensures Used(p) == |p|
  {
    hide Val, Radix, Used;
    UsedVal(p);
    UsedVal(q);
    if Used(p) < Used(q) {
      RadixMono(Used(p), Used(q) - 1);
    }
  }

  lemma UsedOrder(a: seq<Limb>, b: seq<Limb>)
    requires Val(a) >= Val(b)
    ensures Used(b) <= Used(a)
  {
    UsedVal(a);
    UsedBelow(b, Used(a));
  }

  lemma RemainderUsed(a: nat, b: nat, x: seq<Limb>, p: seq<Limb>)
    requires b > 0 && Val(x) == a % b && a == Val(p)
    ensures Used(x) <= |p|
  {
    if a < b {
      DivModUnique(a, b, 0, a);
    }
    UsedOrder(p, x);
  }

  /** mbedtls_mpi_div_mpi: the remainder of truncated division; the quotient is not returned. */
  method DivMpi(R: Mpi, A: Mpi, B: Mpi) returns (ret: int)
    requires A.Signed() && B.Signed()
    modifies R
    ensures old(B.Mag()) == 0 <==> ret == ERR_DIVISION_BY_ZERO
    ensures ret in {0, ERR_ALLOC_FAILED, ERR_DIVISION_BY_ZERO}
    ensures ret == 0 ==> R.Mag() == old(A.Mag()) % old(B.Mag())
    ensures ret == 0 && R.Mag() > 0 ==> R.s == old(A.s)
    ensures ret == 0 && R.Mag() == 0 && old(A.Mag()) >= old(B.Mag()) ==> R.s == 1
    ensures ret == 0 && old(R.Signed() || |R.p| > 0) ==> R.Signed()
    ensures old(B.Mag()) > 0 && |old(A.p)| + 2 <= MAX_LIMBS ==> ret == 0
    ensures |old(R.p)| <= |R.p| <= Max(|old(R.p)|, |old(A.p)| + 2)
    ensures |R.p| <= Max(|old(R.p)|, MAX_LIMBS)
    ensures ret == 0 && |old(A.p)| > 0 ==> |R.p| > 0
  {
    hide Val, Used, Pow2, BitLen, Radix;
    ghost var a, b := A.Mag(), B.Mag();
    var c := CmpZero(B);
    if c == 0 {
      return ERR_DIVISION_BY_ZERO;
    }
    c := CmpAbs(A, B);
    if c < 0 {
      UsedVal(A.p);
      DivModUnique(a, b, 0, a);
      ret := Copy(R, A);
      return;
    }
    ret := DivLarge(R, A, B);
  }

  lemma NegMod(a: nat, b: nat)
    requires b > 0
    ensures (0 - a) % b == if a % b == 0 then 0 else b - a % b
  {
    var q, r := a / b, a % b;
    var n, m: int := 0 - a, 0 - q;
    assert a == b * q + r;
    assert b * m == -(b * q);
    if r == 0 {
      DivModUnique(n, b, m, 0);
    } else {
      assert b * (m - 1) == b * m - b;
      DivModUnique(n, b, m - 1, b - r);
    }
  }

  /** Correcting the truncated remainder by one divisor gives the residue in [0, b). */
  lemma ResidueFromRemainder(x: int, a: nat, b: nat)
    requires b > 0 && a == (if x < 0 then -x else x)
    ensures x % b == if x < 0 && a % b != 0 then b - a % b else a % b
  {
    NegMod(a, b);
  }

  /** mbedtls_mpi_mod_mpi: the residue in [0, B). With R == B the loops would not end, so R is not B. */
  method ModMpi(R: Mpi, A: Mpi, B: Mpi) returns (ret: int)
    requires A.Signed() && B.Signed() && (R.Signed() || |R.p| > 0) && R != B
    modifies R
    ensures ret in {0, ERR_ALLOC_FAILED, ERR_NEGATIVE_VALUE, ERR_DIVISION_BY_ZERO}
    ensures B.Int() < 0 <==> ret == ERR_NEGATIVE_VALUE
    ensures B.Mag() == 0 <==> ret == ERR_DIVISION_BY_ZERO
    ensures ret == 0 ==> B.Int() > 0 && R.Int() == old(A.Int()) % B.Int() && R.Signed()
    ensures ret == 0 && R.Mag() > 0 ==> R.s == 1
    ensures ret == 0 && old(A.Mag()) >= B.Mag() ==> R.s == 1
    ensures B.Int() > 0 && Max(old(|A.p| + 2), Max(|old(R.p)|, |B.p|)) <= MAX_LIMBS ==> ret == 0
    ensures old(A.Int()) >= 0 ==> |R.p| <= Max(|old(R.p)|, MAX_LIMBS)
    ensures ret == 0 ==> |old(R.p)| <= |R.p| && (|old(A.p)| > 0 ==> |R.p| > 0)
  {
    hide Val;
    var c := CmpZero(B);
    if c < 0 {
      return ERR_NEGATIVE_VALUE;
    }
    if c == 0 {
      ret := DivMpi(R, A, B);
      return;
    }
    ResidueFromRemainder(A.Int(), A.Mag(), B.Mag());
    ret := ModPositive(R, A, B, A.Mag() % B.Mag());
  }

  ghost predicate IsResidue(m: nat, a: nat, b: nat) {
    b > 0 && m == a % b
  }

  lemma ResidueSmall(m: nat, a: nat, b: nat)
    requires IsResidue(m, a, b)
    ensures m < b && m <= a
  {
  }

  method DivInto(R: Mpi, A: Mpi, B: Mpi, ghost m: nat) returns (ret: int)
    requires A.Signed() && B.s == 1 && B.Mag() > 0 && (R.Signed() || |R.p| > 0) && R != B
    requires IsResidue(m, A.Mag(), B.Mag())
    modifies R
    ensures ret == 0 || ret == ERR_ALLOC_FAILED
    ensures ret == 0 ==> R.Signed() && R.Mag() == m && (m > 0 ==> R.s == old(A.s))
    ensures ret == 0 && m == 0 && old(A.Mag()) >= B.Mag() ==> R.s == 1
    ensures old(|A.p| + 2) <= MAX_LIMBS ==> ret == 0
    ensures |R.p| <= Max(|old(R.p)|, old(|A.p| + 2)) && |R.p| <= Max(|old(R.p)|, MAX_LIMBS)
    ensures ret == 0 ==> |old(R.p)| <= |R.p| && (|old(A.p)| > 0 ==> |R.p| > 0)
  {
    hide Val;
    ret := DivMpi(R, A, B);
  }

  /** The remainder by a positive B, corrected into [0, B). */
  method ModPositive(R: Mpi, A: Mpi, B: Mpi, ghost m: nat) returns (ret: int)
    requires A.Signed() && B.s == 1 && B.Mag() > 0 && (R.Signed() || |R.p| > 0) && R != B
    requires IsResidue(m, A.Mag(), B.Mag()) && m < B.Mag()
    modifies R
    ensures ret == 0 || ret == ERR_ALLOC_FAILED
    ensures ret == 0 ==> R.Signed()
    ensures ret == 0 ==> R.Int() == if old(A.Int()) < 0 && m != 0 then B.Mag() - m else m
    ensures ret == 0 && R.Mag() > 0 ==> R.s == 1
    ensures ret == 0 && old(A.Mag()) >= B.Mag() ==> R.s == 1
    ensures Max(old(|A.p| + 2), Max(|old(R.p)|, |B.p|)) <= MAX_LIMBS ==> ret == 0
    ensures old(A.Int()) >= 0 ==> |R.p| <= Max(|old(R.p)|, MAX_LIMBS)
    ensures ret == 0 ==> |old(R.p)| <= |R.p| && (|old(A.p)| > 0 ==> |R.p| > 0)
  {
    hide Val, IsResidue;
    ResidueSmall(m, A.Mag(), B.Mag());
    ret := DivInto(R, A, B, m);
    if ret != 0 {
      return;
    }
    ret := IntoRange(R, B);
  }

  /** The two correction loops: at most one addition is made, no subtraction. */
  method IntoRange(R: Mpi, B: Mpi) returns (ret: int)
    requires R != B && R.Signed() && B.s == 1 && R.Mag() < B.Mag()
    modifies R
    ensures ret == 0 || ret == ERR_ALLOC_FAILED
    ensures ret == 0 ==> R.Signed()
    ensures ret == 0 ==> R.Int() == if old(R.Int()) < 0 then old(R.Int()) + B.Mag() else old(R.Int())
    ensures ret == 0 && R.Mag() > 0 ==> R.s == 1
    ensures ret == 0 && old(R.Mag()) == 0 ==> R.s == old(R.s)
    ensures Max(|old(R.p)|, |B.p|) <= MAX_LIMBS ==> ret == 0
    ensures ret == 0 ==> |old(R.p)| <= |R.p|
    ensures old(R.Int()) >= 0 ==> R.p == old(R.p)
  {
    hide Val;
    var c := CmpZero(R);
    ret := 0;
    while c < 0
      invariant R.Signed() && c == if R.Mag() == 0 then 0 else R.s
      invariant old(R.Int()) >= 0 ==> R.p == old(R.p) && R.Int() == old(R.Int())
      invariant if c < 0 then R.Int() == old(R.Int()) && |R.p| == |old(R.p)|
                else 0 <= R.Int() == if old(R.Int()) < 0 then old(R.Int()) + B.Mag() else old(R.Int())
      invariant |old(R.p)| <= |R.p| <= Max(|old(R.p)|, |B.p|) && R.Mag() < B.Mag() && ret == 0
      invariant old(R.Mag()) == 0 ==> R.s == old(R.s) && R.Mag() == 0
      decreases -c
    {
      ret := AddMpi(R, R, B);
      if ret != 0 {
        return;
      }
      c := CmpZero(R);
    }
    DivModUnique(R.Int(), B.Mag(), 0, R.Int());
    ret := SubtractDown(R, B);
  }

  /** The subtracting loop: R becomes R mod B. */
  method SubtractDown(R: Mpi, B: Mpi) returns (ret: int)
    requires R != B && R.Signed() && B.s == 1 && 0 <= R.Int() && B.Mag() > 0
    modifies R
    ensures ret == 0 || ret == ERR_ALLOC_FAILED
    ensures ret == 0 ==> R.Signed() && R.Int() == old(R.Int()) % B.Mag()
    ensures R.Mag() > 0 && ret == 0 ==> R.s == 1
    ensures ret == 0 && old(R.Mag()) == 0 ==> R.s == old(R.s)
    ensures ret == 0 ==> |old(R.p)| <= |R.p|
    ensures old(R.Int()) < B.Mag() ==> R.p == old(R.p)
    ensures Max(|old(R.p)|, |B.p|) <= MAX_LIMBS ==> ret == 0
  {
    hide Val;
    ghost var r, b, q := R.Int(), B.Mag(), 0;
    while true
      invariant R.Signed() && 0 <= R.Int() && r == b * q + R.Int()
      invariant |old(R.p)| <= |R.p| <= Max(|old(R.p)|, |B.p|)
      invariant old(R.Mag()) == 0 ==> R.s == old(R.s) && R.Mag() == 0
      invariant r < b ==> R.p == old(R.p)
      decreases R.Mag()
    {
      var c := CmpMpi(R, B);
      if !(c >= 0) {
        break;
      }
      ret := SubMpi(R, R, B);
      if ret != 0 {
        return;
      }
      q := q + 1;
      assert b * q == b * (q - 1) + b;
    }
    DivModUnique(r, b, q, R.Int());
    ret := 0;
  }
}
