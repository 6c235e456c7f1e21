/** The arithmetic behind the trial digit of long division. */
module DivLemmas {
  import opened Bits
  import opened Limbs

  /** u and v are the leading three and two limbs of x and d, at the common scale w / c. */
  ghost predicate Leading(x: int, d: int, u: int, v: int, c: int, w: int) {
    && c > 0 && w > 0
    && v * w <= c * d < (v + 1) * w
    && u * w <= c * x < (u + 1) * w
  }

  lemma Cancel(a: int, b: int, w: int)
    requires w > 0 && a * w < b * w
    ensures a < b
  {
  }

  lemma MulSwap(a: int, b: int, c: int)
    ensures a * (b * c) == b * (a * c)
    ensures a * (b * c) == (a * b) * c
  {
  }

  /** The true digit passes the three-by-two test. */
  lemma TrueDigitPasses(x: int, d: int, u: int, v: int, c: int, w: int, q: int)
    requires Leading(x, d, u, v, c, w) && q >= 0 && q * d <= x
    ensures q * v <= u
  {
    MulAtLeast(q, c * d, v * w);
    MulSwap(q, v, w);
    MulSwap(q, c, d);
    MulAtLeast(c, x, q * d);
    Cancel(q * v, u + 1, w);
  }

  /** A digit that passes the test is at most one too large, and then by less than a whole divisor. */
  lemma PassingDigitClose(x: int, d: int, u: int, v: int, c: int, w: int, z: int)
    requires Leading(x, d, u, v, c, w) && 0 <= z < v && z * v <= u
    ensures z * d - x < d
  {
    PassScaled(c * x, c * d, u, v, w, z);
    MulSwap(z, c, d);
    SumOut(c, x, d);
    CancelLeft(c, z * d, x + d);
  }

  lemma PassScaled(x: int, d: int, u: int, v: int, w: int, z: int)
    requires w > 0 && v * w <= d < (v + 1) * w && u * w <= x
    requires 0 <= z < v && z * v <= u
    ensures z * d < x + d
  {
    MulAtLeast(z, (v + 1) * w, d);
    MulSwap(z, v + 1, w);
    assert z * (v + 1) == z * v + z;
    MulAtLeast(w, u + z, z * (v + 1));
    MulLess(w, z, v);
    assert (u + z) * w == u * w + z * w;
  }

  lemma SumOut(c: int, x: int, d: int)
    ensures c * (x + d) == c * x + c * d
  {
  }

  lemma CancelLeft(c: int, a: int, b: int)
    requires c > 0 && c * a < c * b
    ensures a < b
  {
  }

  /** The first estimate from two limbs over one is never too small. */
  lemma FirstEstimate(q: int, x2: int, x1: int, x0: int, y1: int, y0: int, v: int, u: int)
    requires 0 <= q && y1 > 0 && y0 >= 0 && 0 <= x0 < BASE && x2 >= 0 && x1 >= 0
    requires v == y1 * BASE + y0 && u == (x2 * BASE + x1) * BASE + x0 && q * v <= u
    ensures q <= (x2 * BASE + x1) / y1
  {
    var m := x2 * BASE + x1;
    MulAtLeast(q, y1 * BASE + y0, y1 * BASE);
    MulSwap(q, y1, BASE);
    assert q * y1 <= m;
    var e, r := m / y1, m % y1;
    assert m == y1 * e + r;
    if q >= e + 1 {
      MulAtLeast(y1, q, e + 1);
    }
  }

  /** The digit fits a limb. */
  lemma DigitFits(x: int, d: int, q: int)
    requires d > 0 && q * d <= x < d * BASE
    ensures q < BASE
  {
    if q >= BASE {
      MulAtLeast(d, q, BASE);
    }
  }

  // ---- where the leading limbs come from ----------------------------------------------------------

  /** The three limbs of p at i, i-1 and i-2 (zero when missing), and the two of y at t and t-1. */
  function Top3(p: seq<Limb>, i: nat): int
    requires 1 <= i < |p|
  {
    (p[i] * BASE + p[i - 1]) * BASE + if i >= 2 then p[i - 2] else 0
  }

  function Top2(y: seq<Limb>, t: nat): int
    requires t < |y|
  {
    y[t] * BASE + if t >= 1 then y[t - 1] else 0
  }

  lemma ValTop3(p: seq<Limb>, i: nat)
    requires 2 <= i < |p| && Val(p) < Radix(i + 1)
    ensures Val(p[..i - 2]) < Radix(i - 2)
    ensures Val(p) == Val(p[..i - 2]) + Radix(i - 2) * Top3(p, i)
  {
    hide Val, Radix;
    ValSmall(p, i + 1);
    var q := p[..i + 1];
    ValSplit(q, i - 2);
    assert q[..i - 2] == p[..i - 2];
    assert q[i - 2..] == [p[i - 2], p[i - 1], p[i]];
    ValThree(p[i - 2], p[i - 1], p[i]);
    MulEq(Radix(i - 2), Val(q[i - 2..]), Top3(p, i));
  }

  lemma ValThree(a: Limb, b: Limb, c: Limb)
    ensures Val([a, b]) == b * BASE + a
    ensures Val([a, b, c]) == (c * BASE + b) * BASE + a
  {
    assert [a, b, c][1..] == [b, c] && [b, c][1..] == [c] && [a, b][1..] == [b];
    ValOne(c);
    ValOne(b);
  }

  lemma ValTop2(y: seq<Limb>, t: nat)
    requires 1 <= t < |y| && Val(y) < Radix(t + 1)
    ensures Val(y[..t - 1]) < Radix(t - 1)
    ensures Val(y) == Val(y[..t - 1]) + Radix(t - 1) * Top2(y, t)
  {
    hide Val, Radix;
    ValSmall(y, t + 1);
    var q := y[..t + 1];
    ValSplit(q, t - 1);
    assert q[..t - 1] == y[..t - 1];
    assert q[t - 1..] == [y[t - 1], y[t]];
    ValThree(y[t - 1], y[t], 0);
    MulEq(Radix(t - 1), Val(q[t - 1..]), Top2(y, t));
  }

  /** The leading limbs of X and of the shifted divisor, at one common scale. */
  lemma LeadingLimbs(p: seq<Limb>, y: seq<Limb>, i: nat, t: nat) returns (c: int, w: int)
    requires t < i < |p| && t < |y|
    requires Val(p) < Radix(i + 1) && Val(y) < Radix(t + 1)
    ensures Leading(Val(p), Val(y) * Radix(i - t - 1), Top3(p, i), Top2(y, t), c, w)
  {
    hide Val, Radix;
    var j := i - t - 1;
    if t >= 1 {
      c, w := 1, Radix(i - 2);
      ValTop3(p, i);
      ValTop2(y, t);
      RadixAdd(t - 1, j);
      ScaleDivisor(Val(y), Val(y[..t - 1]), Top2(y, t), Radix(t - 1), Radix(j), w);
      LeadingFrom(Val(p), Val(p[..i - 2]), Top3(p, i), w);
    } else {
      ValShort(y);
      if i >= 2 {
        c, w := 1, Radix(i - 2);
        ValTop3(p, i);
        LeadingFrom(Val(p), Val(p[..i - 2]), Top3(p, i), w);
        RadixAdd(1, i - 2);
        RadixOne();
        MulSwap(y[0], BASE, w);
      } else {
        c, w := BASE, 1;
        ValPair(p);
        RadixOne();
      }
    }
  }

  lemma RadixOne()
    ensures Radix(0) == 1 && Radix(1) == BASE
  {
    assert Radix(1) == BASE * Radix(0);
  }

  lemma ValShort(y: seq<Limb>)
    requires |y| > 0 && Val(y) < Radix(1)
    ensures Val(y) == y[0]
  {
    ValSmall(y, 1);
    assert y[..1] == [y[0]];
    ValOne(y[0]);
  }

  lemma ValPair(p: seq<Limb>)
    requires |p| > 1 && Val(p) < Radix(2)
    ensures Val(p) == p[1] * BASE + p[0]
  {
    ValSmall(p, 2);
    assert p[..2] == [p[0], p[1]];
    ValThree(p[0], p[1], 0);
  }

  lemma ScaleDivisor(y: int, lo: int, v: int, r: int, rj: int, w: int)
    requires 0 <= lo < r && y == lo + r * v && rj > 0 && w == r * rj
    ensures v * w <= y * rj < (v + 1) * w
  {
    assert y * rj == lo * rj + v * w;
    MulLess(rj, lo, r);
    assert (v + 1) * w == v * w + w;
    MulAtLeast(rj, lo, 0);
  }

  lemma LeadingFrom(x: int, lo: int, u: int, w: int)
    requires 0 <= lo < w && x == lo + w * u
    ensures u * w <= x < (u + 1) * w
  {
    assert (u + 1) * w == u * w + w;
  }
}
