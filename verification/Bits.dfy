/** Unsigned words as natural numbers, with the bitwise operators of C written out bit by bit. */
module Bits {
  /** 2^k. */
  function Pow2(k: nat): (r: int)
    ensures r >= 1
  {
    if k == 0 then 1 else 2 * Pow2(k - 1)
  }

  function And(a: nat, b: nat): (r: nat)
    ensures r <= a && r <= b
  {
    if a == 0 || b == 0 then 0
    else (if a % 2 == 1 && b % 2 == 1 then 1 else 0) + 2 * And(a / 2, b / 2)
  }

  function Or(a: nat, b: nat): (r: nat)
    decreases a + b
  {
    if a == 0 && b == 0 then 0
    else (if a % 2 == 1 || b % 2 == 1 then 1 else 0) + 2 * Or(a / 2, b / 2)
  }

  function Xor(a: nat, b: nat): (r: nat)
    decreases a + b
  {
    if a == 0 && b == 0 then 0
    else (if a % 2 != b % 2 then 1 else 0) + 2 * Xor(a / 2, b / 2)
  }

  lemma {:induction false} Pow2Add(i: nat, j: nat)
    ensures Pow2(i + j) == Pow2(i) * Pow2(j)
  {
    if i > 0 {
      Pow2Add(i - 1, j);
      MulAssoc(2, Pow2(i - 1), Pow2(j));
    }
  }

  lemma {:induction false} Pow2Mono(i: nat, j: nat)
    requires i <= j
    ensures Pow2(i) <= Pow2(j)
    ensures i < j ==> 2 * Pow2(i) <= Pow2(j)
  {
    if i < j {
      Pow2Mono(i, j - 1);
    }
  }

  /** The word sizes that occur, as literals. */
  lemma Pow2Words()
    ensures Pow2(8) == 0x100
    ensures Pow2(16) == 0x1_0000
    ensures Pow2(31) == 0x8000_0000
    ensures Pow2(32) == 0x1_0000_0000
  {
    assert Pow2(8) == 0x100;
    Pow2Add(8, 8);
    Pow2Add(16, 16);
    assert Pow2(32) == 2 * Pow2(31);
  }

  /** OR with a value that fits below the trailing zero bits is addition. */
  lemma {:induction false} OrDisjoint(a: nat, b: nat, t: nat)
    requires a % Pow2(t) == 0 && b < Pow2(t)
    ensures Or(a, b) == a + b
    decreases t
  {
    if t == 0 {
      OrZero(a);
    } else if a != 0 || b != 0 {
      HalfMultiple(a, t);
      OrDisjoint(a / 2, b / 2, t - 1);
    }
  }

  lemma {:induction false} OrZero(a: nat)
    ensures Or(a, 0) == a && Or(0, a) == a
    decreases a
  {
    if a != 0 {
      OrZero(a / 2);
    }
  }

  lemma HalfMultiple(a: nat, t: nat)
    requires t > 0 && a % Pow2(t) == 0
    ensures a % 2 == 0 && (a / 2) % Pow2(t - 1) == 0
  {
    var p, q := Pow2(t - 1), a / Pow2(t);
    assert a == (2 * p) * q == 2 * (p * q);
    assert a / 2 == p * q;
    MulModZero(q, p);
  }

  lemma MulAssoc(x: int, y: int, z: int)
    ensures (x * y) * z == x * (y * z)
  {
  }

  lemma MulModZero(q: int, p: int)
    requires p > 0
    ensures (p * q) % p == 0
  {
    DivModUnique(p * q, p, q, 0);
  }

  lemma MulLess(a: int, x: int, y: int)
    requires a > 0 && x < y
    ensures x * a < y * a
  {
  }

  lemma NonNegQuotient(x: nat, d: int)
    requires d > 0
    ensures x / d >= 0
  {
    assert x == d * (x / d) + x % d;
  }

  lemma SmallMultiple(d: int, k: int)
    requires d > 0 && -d < d * k < d
    ensures k == 0
  {
  }

  /** Quotient and remainder are determined by their defining equation. */
  lemma DivModUnique(x: int, d: int, q: int, r: int)
    requires d > 0 && x == d * q + r && 0 <= r < d
    ensures x / d == q && x % d == r
  {
    var q1, r1 := x / d, x % d;
    assert x == d * q1 + r1;
    assert d * (q - q1) == d * q - d * q1;
    SmallMultiple(d, q - q1);
  }

  /** The lowest bit. */
  lemma AndOne(a: nat)
    ensures And(a, 1) == a % 2
  {
    if a != 0 {
      assert And(a, 1) == (if a % 2 == 1 then 1 else 0) + 2 * And(a / 2, 0);
    }
  }

  /** The number of significant bits. */
  function BitLen(v: nat): (n: nat)
    ensures v < Pow2(n)
    ensures v > 0 ==> n > 0 && Pow2(n - 1) <= v
  {
    if v == 0 then 0 else
      var n := BitLen(v / 2) + 1;
      assert v / 2 > 0 ==> Pow2(n - 1) == 2 * Pow2(n - 2);
      n
  }

  lemma BitLenUnique(v: nat, n: nat)
    requires n > 0 && Pow2(n - 1) <= v < Pow2(n)
    ensures BitLen(v) == n
  {
    if BitLen(v) < n {
      Pow2Mono(BitLen(v), n - 1);
    } else if BitLen(v) > n {
      Pow2Mono(n, BitLen(v) - 1);
    }
  }

  lemma {:induction false} OrComm(a: nat, b: nat)
    ensures Or(a, b) == Or(b, a)
    decreases a + b
  {
    if a != 0 || b != 0 {
      OrComm(a / 2, b / 2);
    }
  }

  lemma AndBits(l: nat, m: nat, i: nat, j: nat)
    requires i <= 1 && j <= 1
    ensures And(2 * l + i, 2 * m + j) == 2 * And(l, m) + i * j
  {
  }

  lemma BitProduct(i: nat, j: nat)
    requires i <= 1 && j <= 1
    ensures 0 <= i * j <= 1
  {
  }

  lemma Doubled(h: nat, i: nat, x: nat)
    requires i <= 1 && x == 2 * h + i
    ensures x / 2 == h && x % 2 == i
  {
  }

  /** Cutting off high bits commutes with AND. */
  lemma {:induction false} AndLow(a: nat, b: nat, k: nat, p: nat)
    requires p == Pow2(k)
    ensures a % p >= 0 && b % p >= 0
    ensures And(a, b) % p == And(a % p, b % p)
    decreases k
  {
    if k > 0 {
      hide And;
      var l, m, i, j, q := a / 2, b / 2, a % 2, b % 2, p / 2;
      AndLow(l, m, k - 1, q);
      AndBits(l, m, i, j);
      LowHalf(a, k, p);
      LowHalf(b, k, p);
      AndBits(l % q, m % q, i, j);
      BitProduct(i, j);
      Doubled(And(l, m), i * j, And(a, b));
      LowHalf(And(a, b), k, p);
    }
  }

  lemma LowHalf(x: nat, k: nat, n: nat)
    requires k > 0 && n == Pow2(k)
    ensures x % n == 2 * (x / 2 % (n / 2)) + x % 2 >= 0
  {
    var p := n / 2;
    var q, r := x / 2 / p, x / 2 % p;
    assert x / 2 == p * q + r;
    assert x == (2 * p) * q + (2 * r + x % 2);
    DivModUnique(x, 2 * p, q, 2 * r + x % 2);
  }

  lemma {:induction false} XorBound(a: nat, b: nat, k: nat)
    requires a < Pow2(k) && b < Pow2(k)
    ensures Xor(a, b) < Pow2(k)
    decreases k
  {
    if k > 0 && (a != 0 || b != 0) {
      XorBound(a / 2, b / 2, k - 1);
    }
  }

  lemma {:induction false} XorAssoc(a: nat, b: nat, c: nat)
    ensures Xor(Xor(a, b), c) == Xor(a, Xor(b, c))
    decreases a + b + c
  {
    if a != 0 || b != 0 || c != 0 {
      XorAssoc(a / 2, b / 2, c / 2);
    }
  }

  lemma {:induction false} XorComm(a: nat, b: nat)
    ensures Xor(a, b) == Xor(b, a)
    decreases a + b
  {
    if a != 0 || b != 0 {
      XorComm(a / 2, b / 2);
    }
  }

  lemma {:induction false} XorZero(a: nat)
    ensures Xor(a, 0) == a && Xor(0, a) == a
  {
    if a != 0 {
      XorZero(a / 2);
    }
  }
}
