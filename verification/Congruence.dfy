/** Congruence modulo m, and powers. */
module Congruence {
  import opened Bits

  predicate Cong(x: int, y: int, m: int)
    requires m > 0
  {
    x % m == y % m
  }

  lemma CongFrom(x: int, y: int, m: int, k: int)
    requires m > 0 && x == y + k * m
    ensures Cong(x, y, m)
  {
    var q, r := y / m, y % m;
    assert y == m * q + r;
    assert x == m * (q + k) + r;
    DivModUnique(x, m, q + k, r);
  }

  lemma CongWitness(x: int, y: int, m: int) returns (k: int)
    requires m > 0 && Cong(x, y, m)
    ensures x == y + k * m
  {
    k := x / m - y / m;
    assert x == m * (x / m) + x % m && y == m * (y / m) + y % m;
    assert k * m == m * (x / m) - m * (y / m);
  }

  lemma CongMul(x: int, y: int, z: int, m: int)
    requires m > 0 && Cong(x, y, m)
    ensures Cong(x * z, y * z, m) && Cong(z * x, z * y, m)
  {
    var k := CongWitness(x, y, m);
    assert x * z == y * z + (k * z) * m;
    CongFrom(x * z, y * z, m, k * z);
  }

  lemma CongMul2(x: int, y: int, u: int, v: int, m: int)
    requires m > 0 && Cong(x, y, m) && Cong(u, v, m)
    ensures Cong(x * u, y * v, m)
  {
    CongMul(x, y, u, m);
    CongMul(u, v, y, m);
  }

  lemma CongMod(x: int, m: int)
    requires m > 0
    ensures Cong(x % m, x, m)
  {
    DivModUnique(x % m, m, 0, x % m);
  }

  /** Powers of two cancel modulo an odd number. */
  lemma {:induction false} CancelPow2(x: int, y: int, k: nat, m: int)
    requires m > 0 && m % 2 == 1 && Cong(x * Pow2(k), y * Pow2(k), m)
    ensures Cong(x, y, m)
    decreases k
  {
    if k == 0 {
      assert x * Pow2(0) == x && y * Pow2(0) == y;
    } else {
      var p := Pow2(k - 1);
      TwoMul(x, p);
      TwoMul(y, p);
      CancelTwo(x * p, y * p, m);
      CancelPow2(x, y, k - 1, m);
    }
  }

  lemma TwoMul(x: int, p: int)
    ensures x * (2 * p) == 2 * (x * p)
  {
  }

  lemma CancelTwo(x: int, y: int, m: int)
    requires m > 0 && m % 2 == 1 && Cong(2 * x, 2 * y, m)
    ensures Cong(x, y, m)
  {
    var k := CongWitness(2 * x, 2 * y, m);
    var h := m / 2;
    assert m == 2 * h + 1;
    assert k * m == 2 * (k * h) + k;
    var j := x - y - k * h;
    assert k == 2 * j;
    assert k * m == 2 * (j * m);
    CongFrom(x, y, m, j);
  }

  /** b^e. */
  function Pow(b: int, e: nat): int {
    if e == 0 then 1 else b * Pow(b, e - 1)
  }

  lemma {:induction false} PowAdd(b: int, i: nat, j: nat)
    ensures Pow(b, i + j) == Pow(b, i) * Pow(b, j)
  {
    if i > 0 {
      PowAdd(b, i - 1, j);
      MulAssoc(b, Pow(b, i - 1), Pow(b, j));
    }
  }

  lemma {:induction false} PowCong(x: int, y: int, e: nat, m: int)
    requires m > 0 && Cong(x, y, m)
    ensures Cong(Pow(x, e), Pow(y, e), m)
  {
    if e > 0 {
      PowCong(x, y, e - 1, m);
      CongMul2(x, y, Pow(x, e - 1), Pow(y, e - 1), m);
    }
  }

  lemma {:induction false} PowMul(x: int, y: int, e: nat)
    ensures Pow(x * y, e) == Pow(x, e) * Pow(y, e)
  {
    if e > 0 {
      PowMul(x, y, e - 1);
      FourFactors(x, y, Pow(x, e - 1), Pow(y, e - 1));
    }
  }

  lemma FourFactors(x: int, y: int, u: int, v: int)
    ensures (x * y) * (u * v) == (x * u) * (y * v)
  {
    MulAssoc(x, y, u * v);
    MulAssoc(y, u, v);
    MulAssoc(u, y, v);
    MulAssoc(x, u, y * v);
  }

  lemma {:induction false} PowConst(e: nat)
    ensures Pow(1, e) == 1 && (e > 0 ==> Pow(0, e) == 0)
  {
    if e > 0 {
      PowConst(e - 1);
    }
  }

  // ---- when a power has residue zero --------------------------------------------------------------------

  /** No power of a number that has an inverse modulo n > 1 is a multiple of n. */
  lemma CoprimeResidue(a: int, e: nat, n: int, u: int, v: int)
    requires n > 1 && u * a + v * n == 1
    ensures Pow(a, e) % n != 0
  {
    CongFrom(1, u * a, n, v);
    PowCong(1, u * a, e, n);
    PowMul(u, a, e);
    PowConst(e);
    if Pow(a, e) % n == 0 {
      CongMul(Pow(a, e), 0, Pow(u, e), n);
    }
  }

  predicate Divides(d: int, x: int)
    requires d > 0
  {
    x % d == 0
  }

  predicate Prime(n: int) {
    n > 1 && forall d :: 1 < d < n ==> !Divides(d, n)
  }

  lemma DividesSum(d: int, x: int, y: int, k: int)
    requires d > 0 && Divides(d, x) && Divides(d, y)
    ensures Divides(d, y + k * x)
  {
    var p, q := x / d, y / d;
    assert x == d * p && y == d * q;
    assert k * x == d * (k * p);
    CongFrom(y + k * x, 0, d, q + k * p);
  }

  /** Euclid's algorithm. */
  function Gcd(a: nat, b: nat): (g: nat)
    requires b > 0
    ensures 0 < g <= b
    decreases b
  {
    if a % b == 0 then b else Gcd(b, a % b)
  }

  /** It is a common divisor of a and b, and a combination of them. */
  lemma {:induction false} Bezout(a: nat, b: nat) returns (d: nat, u: int, v: int)
    requires b > 0
    ensures d == Gcd(a, b) > 0 && Divides(d, a) && Divides(d, b) && u * a + v * b == d
    decreases b
  {
    hide Gcd;
    var q, r := a / b, a % b;
    assert a == b * q + r;
    GcdStep(a, b);
    if r == 0 {
      d, u, v := b, 0, 1;
    } else {
      var x, y;
      d, x, y := Bezout(b, r);
      DividesSum(d, b, r, q);
      u, v := y, x - q * y;
      assert y * a == y * (q * b) + y * r;
      MulAssoc(y, q, b);
    }
  }

  lemma GcdStep(a: nat, b: nat)
    requires b > 0
    ensures Gcd(a, b) == if a % b == 0 then b else Gcd(b, a % b)
  {
  }

  /** n divided e times by what it has in common with a. */
  function Without(n: nat, a: nat, e: nat): (r: nat)
    requires n > 0
    ensures r > 0
    decreases e
  {
    if e == 0 then n
    else
      QuotientPositive(n, Gcd(a, n));
      Without(n / Gcd(a, n), a, e - 1)
  }

  lemma QuotientPositive(n: nat, g: nat)
    requires 0 < g <= n
    ensures n / g > 0
  {
    var q, r := n / g, n % g;
    assert n == g * q + r;
    NonNegQuotient(n, g);
    assert q == 0 ==> g * q == 0;
  }

  /** A power of a has residue zero modulo n exactly when nothing is left of n without its factors in common with a. */
  lemma {:induction false} PowResidue(a: nat, e: nat, n: nat)
    requires n > 0
    ensures Pow(a, e) % n == 0 <==> Without(n, a, e) == 1
    decreases e
  {
    if e == 0 {
      if n > 1 {
        DivModUnique(1, n, 0, 1);
      }
    } else {
      var d, u, v := Bezout(a, n);
      QuotientPositive(n, d);
      PowNonNeg(a, e - 1);
      PowResidue(a, e - 1, n / d);
      CommonFactor(a / d, n / d, d, u, v, a, n);
      FactorOut(a / d, n / d, d, u, v, Pow(a, e - 1));
      MulAssoc(d, a / d, Pow(a, e - 1));
    }
  }

  /** Without their common divisor the two are coprime. */
  lemma CommonFactor(b: int, m: int, d: int, u: int, v: int, a: int, n: int)
    requires d > 0 && Divides(d, a) && Divides(d, n) && b == a / d && m == n / d && u * a + v * n == d
    ensures a == d * b && n == d * m && u * b + v * m == 1
  {
    assert a == d * b && n == d * m;
    MulSwap(u, d, b);
    MulSwap(v, d, m);
    assert d * (u * b + v * m) == d * 1;
    CancelFactor(d, u * b + v * m, 1);
  }

  lemma MulSwap(x: int, y: int, z: int)
    ensures x * (y * z) == y * (x * z)
  {
  }

  lemma CancelFactor(d: int, x: int, y: int)
    requires d > 0 && d * x == d * y
    ensures x == y
  {
  }

  /** With b invertible modulo m, d * m divides d * b * x exactly when m divides x. */
  lemma FactorOut(b: int, m: int, d: int, u: int, v: int, x: int)
    requires d > 0 && m > 0 && d * m > 0 && u * b + v * m == 1
    ensures (d * (b * x)) % (d * m) == 0 <==> x % m == 0
  {
    if (d * (b * x)) % (d * m) == 0 {
      var k := d * (b * x) / (d * m);
      assert d * (b * x) == (d * m) * k;
      MulAssoc(d, m, k);
      CancelFactor(d, b * x, m * k);
      Combined(b, m, u, v, x, k);
      DivModUnique(x, m, u * k + v * x, 0);
    }
    if x % m == 0 {
      var j := x / m;
      assert x == m * j;
      MulSwap(b, m, j);
      MulAssoc(d, m, b * j);
      DivModUnique(d * (b * x), d * m, b * j, 0);
    }
  }

  lemma Combined(b: int, m: int, u: int, v: int, x: int, k: int)
    requires u * b + v * m == 1 && b * x == m * k
    ensures x == m * (u * k + v * x)
  {
    MulAssoc(u, b, x);
    MulSwap(u, m, k);
    MulAssoc(m, v, x);
    assert (u * b + v * m) * x == u * (b * x) + (v * m) * x;
    assert m * (u * k + v * x) == m * (u * k) + m * (v * x);
  }

  /** A power has residue zero modulo a prime exactly when its base has. */
  lemma PrimeResidue(a: nat, e: nat, n: int)
    requires Prime(n) && e > 0
    ensures Pow(a, e) % n == 0 <==> a % n == 0
  {
    if a % n == 0 {
      PowCong(a, 0, e, n);
      PowConst(e);
    } else {
      var d, u, v := Bezout(a, n);
      assert d <= n by {
        if d > n {
          DivModUnique(n, d, 0, n);
        }
      }
      CoprimeResidue(a, e, n, u, v);
    }
  }

  /** (-b)^e is b^e up to the parity of e. */
  lemma {:induction false} PowNeg(b: int, e: nat)
    ensures Pow(-b, e) == if e % 2 == 0 then Pow(b, e) else -Pow(b, e)
  {
    if e > 0 {
      PowNeg(b, e - 1);
      NegMul(b, Pow(b, e - 1));
    }
  }

  lemma NegMul(x: int, y: int)
    ensures -x * y == -(x * y) && -x * -y == x * y
  {
  }

  lemma {:induction false} PowNonNeg(b: nat, e: nat)
    ensures Pow(b, e) >= 0
  {
    if e > 0 {
      PowNonNeg(b, e - 1);
    }
  }
}
