/** Little-endian sequences of 32-bit limbs and the natural numbers they stand for. */
module Limbs {
  import opened Bits

  const BASE: int := 0x1_0000_0000

  type Limb = x: int | 0 <= x < 0x1_0000_0000

  /** BASE^k. */
  function Radix(k: nat): (r: int)
    ensures r >= 1
  {
    if k == 0 then 1 else BASE * Radix(k - 1)
  }

  /** The number a limb sequence stands for, least significant limb first. */
  function Val(s: seq<Limb>): (v: int)
    ensures v >= 0
  {
    if |s| == 0 then 0 else s[0] + BASE * Val(s[1..])
  }

  function Zeros(k: nat): (z: seq<Limb>)
    ensures |z| == k && forall i :: 0 <= i < k ==> z[i] == 0
  {
    seq(k, _ => 0)
  }

  lemma {:induction false} ValBound(s: seq<Limb>)
    ensures Val(s) < Radix(|s|)
  {
    if |s| > 0 {
      ValBound(s[1..]);
    }
  }

  lemma {:induction false} RadixAdd(i: nat, j: nat)
    ensures Radix(i + j) == Radix(i) * Radix(j)
  {
    if i > 0 {
      RadixAdd(i - 1, j);
      MulAssoc(BASE, Radix(i - 1), Radix(j));
    }
  }

  lemma {:induction false} ValAppend(s: seq<Limb>, t: seq<Limb>)
    ensures Val(s + t) == Val(s) + Radix(|s|) * Val(t)
  {
    if |s| == 0 {
      assert s + t == t;
    } else {
      assert (s + t)[1..] == s[1..] + t;
      ValAppend(s[1..], t);
      MulAssoc(BASE, Radix(|s| - 1), Val(t));
    }
  }

  lemma {:induction false} RadixMono(i: nat, j: nat)
    requires i <= j
    ensures Radix(i) <= Radix(j)
    ensures i < j ==> BASE * Radix(i) <= Radix(j)
  {
    if i < j {
      RadixMono(i, j - 1);
    }
  }

  lemma {:induction false} RadixPow2(k: nat)
    ensures Radix(k) == Pow2(32 * k)
  {
    if k > 0 {
      RadixPow2(k - 1);
      Pow2Add(32, 32 * (k - 1));
      Pow2Words();
    }
  }

  lemma {:induction false} ValZeros(s: seq<Limb>)
    requires forall i :: 0 <= i < |s| ==> s[i] == 0
    ensures Val(s) == 0
  {
    if |s| > 0 {
      ValZeros(s[1..]);
    }
  }

  /** Splitting a number at limb i. */
  lemma ValSplit(s: seq<Limb>, i: nat)
    requires i <= |s|
    ensures Val(s) == Val(s[..i]) + Radix(i) * Val(s[i..])
    ensures Val(s[..i]) < Radix(i)
  {
    assert s == s[..i] + s[i..];
    ValAppend(s[..i], s[i..]);
    ValBound(s[..i]);
  }

  /** Leading zero limbs do not count. */
  lemma ValTrim(s: seq<Limb>, i: nat)
    requires i <= |s| && forall j :: i <= j < |s| ==> s[j] == 0
    ensures Val(s) == Val(s[..i])
  {
    ValSplit(s, i);
    ValZeros(s[i..]);
  }

  /** A number below BASE^i has zeros from limb i on. */
  lemma {:induction false} ValSmall(s: seq<Limb>, i: nat)
    requires i <= |s| && Val(s) < Radix(i)
    ensures forall j :: i <= j < |s| ==> s[j] == 0
    ensures Val(s) == Val(s[..i])
  {
    ValSplit(s, i);
    var hi := Val(s[i..]);
    if hi >= 1 {
      MulAtLeast(Radix(i), hi, 1);
    }
    ValIsZero(s[i..]);
    assert forall j :: i <= j < |s| ==> s[j] == s[i..][j - i];
  }

  lemma MulAtLeast(a: int, x: int, y: int)
    requires a >= 0 && x >= y
    ensures a * x >= a * y
  {
  }

  lemma {:induction false} ValIsZero(s: seq<Limb>)
    ensures Val(s) == 0 <==> forall i :: 0 <= i < |s| ==> s[i] == 0
  {
    if |s| > 0 {
      ValIsZero(s[1..]);
      assert s == [s[0]] + s[1..];
      assert forall i :: 1 <= i < |s| ==> s[i] == s[1..][i - 1];
    }
  }

  /** Two equally long numbers are ordered by their highest differing limb. */
  lemma ValCompare(s: seq<Limb>, t: seq<Limb>, i: nat)
    requires i < |s| == |t| && s[i + 1..] == t[i + 1..] && s[i] < t[i]
    ensures Val(s) < Val(t)
  {
    ValSplit(s, i);
    ValSplit(t, i);
    assert s[i..][1..] == s[i + 1..] && t[i..][1..] == t[i + 1..];
    HighDecides(Val(s[..i]), Val(s[i..]), Val(t[..i]), Val(t[i..]), Radix(i));
  }

  lemma HighDecides(l1: int, h1: int, l2: int, h2: int, r: int)
    requires 0 <= l1 < r && 0 <= l2 && h1 < h2
    ensures l1 + r * h1 < l2 + r * h2
  {
    MulAtLeast(r, h2, h1 + 1);
  }

  lemma ValOne(x: Limb)
    ensures Val([x]) == x
  {
    assert [x][1..] == [];
  }

  lemma MulEq(a: int, x: int, y: int)
    requires x == y
    ensures a * x == a * y
  {
  }

  /** Splitting off the top limb. */
  lemma ValTopSplit(s: seq<Limb>)
    requires |s| > 0
    ensures Val(s) == Val(s[..|s| - 1]) + Radix(|s| - 1) * s[|s| - 1]
    ensures Val(s[..|s| - 1]) < Radix(|s| - 1)
  {
    hide Val, Radix;
    var i := |s| - 1;
    ValSplit(s, i);
    assert s[i..] == [s[i]];
    ValOne(s[i]);
    MulEq(Radix(i), Val(s[i..]), s[i]);
  }

  /** A nonzero top limb puts the number at or above BASE^(length-1). */
  lemma ValTop(s: seq<Limb>)
    requires |s| > 0 && s[|s| - 1] != 0
    ensures Val(s) >= Radix(|s| - 1)
  {
    ValTopSplit(s);
    MulAtLeast(Radix(|s| - 1), s[|s| - 1], 1);
  }

  /** The number of limbs up to and including the highest nonzero one. */
  function Used(s: seq<Limb>): (j: nat)
    ensures j <= |s|
    ensures j > 0 ==> s[j - 1] != 0
    ensures forall i :: j <= i < |s| ==> s[i] == 0
  {
    if |s| == 0 then 0 else if s[|s| - 1] != 0 then |s| else Used(s[..|s| - 1])
  }

  lemma UsedVal(s: seq<Limb>)
    ensures Val(s) == Val(s[..Used(s)]) < Radix(Used(s))
    ensures Used(s) > 0 ==> Radix(Used(s) - 1) <= Val(s)
    ensures Used(s) == 0 <==> Val(s) == 0
  {
    var j := Used(s);
    ValTrim(s, j);
    ValBound(s[..j]);
    if j > 0 {
      ValTop(s[..j]);
    }
  }

  lemma UsedBelow(s: seq<Limb>, k: nat)
    requires Val(s) < Radix(k)
    ensures Used(s) <= k
  {
    UsedVal(s);
    if Used(s) > k {
      RadixMono(k, Used(s) - 1);
    }
  }

  // ---- multiply-accumulate -----------------------------------------------------------------

  /** One multiply-accumulate column, as a double limb. */
  function Column(d: Limb, a: Limb, b: Limb, c: Limb): (t: int)
    ensures 0 <= t < BASE * BASE
  {
    ProductBound(a, b);
    d + a * b + c
  }

  lemma ProductBound(a: int, b: int)
    requires 0 <= a < BASE && 0 <= b < BASE
    ensures 0 <= a * b <= (BASE - 1) * (BASE - 1)
  {
    MulAtLeast(BASE - 1, BASE - 1, b);
    MulAtLeast(b, BASE - 1, a);
    MulAtLeast(a, b, 0);
  }

  /** d + s * b + c on the limbs of d, the final carry dropped. */
  function MulAdd(d: seq<Limb>, s: seq<Limb>, b: Limb, c: Limb): (r: seq<Limb>)
    requires |s| <= |d|
    ensures |r| == |d|
  {
    if |d| == 0 then [] else
      var t := Column(d[0], if |s| > 0 then s[0] else 0, b, c);
      [t % BASE] + MulAdd(d[1..], if |s| > 0 then s[1..] else [], b, t / BASE)
  }

  /** MulAdd is exact up to a multiple k of BASE^|d|: the dropped carry. */
  lemma {:induction false} MulAddCarry(d: seq<Limb>, s: seq<Limb>, b: Limb, c: Limb) returns (k: nat)
    requires |s| <= |d|
    ensures Val(MulAdd(d, s, b, c)) + k * Radix(|d|) == Val(d) + Val(s) * b + c
  {
    if |d| == 0 {
      return c;
    }
    var a: Limb, s1 := if |s| > 0 then s[0] else 0, if |s| > 0 then s[1..] else [];
    var t := Column(d[0], a, b, c);
    k := MulAddCarry(d[1..], s1, b, t / BASE);
    assert MulAdd(d, s, b, c)[1..] == MulAdd(d[1..], s1, b, t / BASE);
    assert Val(s) == a + BASE * Val(s1);
    ColumnStep(d[0], a, b, c, Val(d[1..]), Val(s1), Val(MulAdd(d[1..], s1, b, t / BASE)), k, Radix(|d| - 1));
  }

  lemma ColumnStep(d0: int, a: int, b: int, c: int, d1: int, s1: int, r1: int, k: int, radix: int)
    requires r1 + k * radix == d1 + s1 * b + (d0 + a * b + c) / BASE
    ensures (d0 + a * b + c) % BASE + BASE * r1 + k * (BASE * radix) == d0 + BASE * d1 + (a + BASE * s1) * b + c
  {
    assert (a + BASE * s1) * b == a * b + BASE * (s1 * b);
    assert k * (BASE * radix) == BASE * (k * radix);
  }

  /** When the sum fits, nothing is dropped. */
  lemma MulAddExact(d: seq<Limb>, s: seq<Limb>, b: Limb, c: Limb)
    requires |s| <= |d| && Val(d) + Val(s) * b + c < Radix(|d|)
    ensures Val(MulAdd(d, s, b, c)) == Val(d) + Val(s) * b + c
  {
    var k := MulAddCarry(d, s, b, c);
    NoCarry(Val(MulAdd(d, s, b, c)), k, Radix(|d|));
  }

  lemma NoCarry(v: int, k: nat, r: int)
    requires v >= 0 && r > 0 && v + k * r < r
    ensures k == 0
  {
    if k >= 1 {
      MulAtLeast(r, k, 1);
    }
  }

  // ---- subtraction -------------------------------------------------------------------------

  function SubLimbs(l: seq<Limb>, r: seq<Limb>, c: int): (d: seq<Limb>)
    requires |l| == |r| && 0 <= c <= 1
    ensures |d| == |l|
  {
    if |l| == 0 then [] else
      var t := l[0] - r[0] - c;
      [t % BASE] + SubLimbs(l[1..], r[1..], if t < 0 then 1 else 0)
  }

  function SubBorrow(l: seq<Limb>, r: seq<Limb>, c: int): (b: int)
    requires |l| == |r| && 0 <= c <= 1
    ensures 0 <= b <= 1
  {
    if |l| == 0 then c else SubBorrow(l[1..], r[1..], if l[0] - r[0] - c < 0 then 1 else 0)
  }

  lemma {:induction false} SubLimbsVal(l: seq<Limb>, r: seq<Limb>, c: int)
    requires |l| == |r| && 0 <= c <= 1
    ensures Val(SubLimbs(l, r, c)) == Val(l) - Val(r) - c + SubBorrow(l, r, c) * Radix(|l|)
  {
    if |l| > 0 {
      var c1 := if l[0] - r[0] - c < 0 then 1 else 0;
      SubLimbsVal(l[1..], r[1..], c1);
      var d := SubLimbs(l, r, c);
      assert d[1..] == SubLimbs(l[1..], r[1..], c1);
      SubStep(l[0], r[0], c, c1, Val(l[1..]), Val(r[1..]), Val(d[1..]), SubBorrow(l, r, c), Radix(|l| - 1));
    }
  }

  lemma SubStep(l0: int, r0: int, c: int, c1: int, l1: int, r1: int, d1: int, b: int, radix: int)
    requires 0 <= l0 < BASE && 0 <= r0 < BASE && 0 <= c <= 1
    requires c1 == if l0 - r0 - c < 0 then 1 else 0
    requires d1 == l1 - r1 - c1 + b * radix
    ensures (l0 - r0 - c) % BASE + BASE * d1 == (l0 + BASE * l1) - (r0 + BASE * r1) - c + b * (BASE * radix)
  {
    MulAssoc(b, BASE, radix);
    MulAssoc(BASE, b, radix);
  }

  lemma SubLimbsBorrow(l: seq<Limb>, r: seq<Limb>, c: int)
    requires |l| == |r| && 0 <= c <= 1
    ensures SubBorrow(l, r, c) == if Val(l) < Val(r) + c then 1 else 0
  {
    SubLimbsVal(l, r, c);
    ValBound(SubLimbs(l, r, c));
    ValBound(l);
  }

  // ---- right shift by less than a limb -----------------------------------------------------

  /** A limb splits into the bits that stay and the bits that move to the limb below. */
  lemma ShrParts(x: Limb, v: nat)
    requires 0 < v < 32
    ensures 0 <= x / Pow2(v) < Pow2(32 - v)
    ensures x * Pow2(32 - v) % BASE == (x % Pow2(v)) * Pow2(32 - v)
    ensures 0 <= x * Pow2(32 - v) % BASE <= BASE - Pow2(32 - v)
    ensures x * Pow2(32 - v) % BASE * Pow2(v) == BASE * (x % Pow2(v))
    ensures (x * Pow2(32 - v) % BASE) % Pow2(32 - v) == 0
  {
    var p, q := Pow2(v), Pow2(32 - v);
    Pow2Words();
    Pow2Add(v, 32 - v);
    ShrPartsInt(x, p, q);
  }

  lemma ShrPartsInt(x: int, p: int, q: int)
    requires p > 0 && q > 0 && p * q == BASE && 0 <= x < BASE
    ensures 0 <= x / p < q
    ensures x * q % BASE == (x % p) * q
    ensures 0 <= x * q % BASE <= BASE - q
    ensures x * q % BASE * p == BASE * (x % p)
    ensures (x * q % BASE) % q == 0
  {
    var h, l := x / p, x % p;
    assert x == p * h + l;
    if h >= q {
      MulAtLeast(p, h, q);
    }
    Distribute(p, h, l, q);
    MulAtLeast(q, p - 1, l);
    MulAtLeast(q, l, 0);
    DivModUnique(x * q, BASE, h, l * q);
    MulModZero(l, q);
    Distribute(p, l, 0, q);
  }

  lemma Distribute(p: int, h: int, l: int, q: int)
    ensures (p * h + l) * q == (p * q) * h + l * q
    ensures l * q * p == (p * q) * l
  {
  }

  /** The limb x shifted right by v bits, with the low bits of the next limb m moved in on top. */
  function ShrLimb(x: Limb, m: Limb, v: nat): (r: Limb)
    requires 0 < v < 32
  {
    ShrParts(x, v);
    ShrParts(m, v);
    x / Pow2(v) + m * Pow2(32 - v) % BASE
  }

  function ShrBits(s: seq<Limb>, v: nat): (r: seq<Limb>)
    requires 0 < v < 32
    ensures |r| == |s|
  {
    if |s| == 0 then [] else [ShrLimb(s[0], if |s| > 1 then s[1] else 0, v)] + ShrBits(s[1..], v)
  }

  lemma ShrStep(x: Limb, m: Limb, v: nat, s: int, rest: int, y: int, shifted: int)
    requires 0 < v < 32
    requires s == x + BASE * rest && y == ShrLimb(x, m, v) + BASE * shifted
    requires rest == shifted * Pow2(v) + m % Pow2(v)
    ensures s == y * Pow2(v) + x % Pow2(v)
  {
    ShrParts(m, v);
    ShrStepInt(x, m % Pow2(v), m * Pow2(32 - v) % BASE, Pow2(v), shifted);
  }

  lemma ShrStepInt(x: int, low: int, moved: int, p: int, shifted: int)
    requires p > 0 && moved * p == BASE * low
    ensures x + BASE * (shifted * p + low) == (x / p + moved + BASE * shifted) * p + x % p
  {
    assert x == p * (x / p) + x % p;
    assert (x / p + moved + BASE * shifted) * p == (x / p) * p + moved * p + BASE * (shifted * p);
  }

  lemma {:induction false} ShrBitsVal(s: seq<Limb>, v: nat)
    requires 0 < v < 32 && |s| > 0
    ensures Val(s) == Val(ShrBits(s, v)) * Pow2(v) + s[0] % Pow2(v)
  {
    var r := ShrBits(s, v);
    assert r[1..] == ShrBits(s[1..], v);
    if |s| == 1 {
      ShrStep(s[0], 0, v, Val(s), 0, Val(r), 0);
    } else {
      ShrBitsVal(s[1..], v);
      ShrStep(s[0], s[1], v, Val(s), Val(s[1..]), Val(r), Val(r[1..]));
    }
  }

  lemma ShrBitsDiv(s: seq<Limb>, v: nat)
    requires 0 < v < 32
    ensures Val(ShrBits(s, v)) == Val(s) / Pow2(v)
  {
    if |s| == 0 {
      DivModUnique(0, Pow2(v), 0, 0);
    } else {
      ShrBitsVal(s, v);
      DivFrom(Val(s), Pow2(v), Val(ShrBits(s, v)), s[0]);
    }
  }

  lemma DivFrom(x: int, d: int, q: int, y: int)
    requires d > 0 && x == q * d + y % d
    ensures x / d == q
  {
    DivModUnique(x, d, q, y % d);
  }
}
