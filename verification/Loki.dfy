/** mult8 and exp8 of LOKI91: arithmetic in GF(2)[x] modulo a polynomial of degree 8. */
module Loki {
  import opened Bits
  import opened ConstantTime

  /** A generating polynomial of degree 8. */
  predicate Generator(gen: nat) {
    256 <= gen < 512
  }

  /** Multiplication by x, reduced. */
  function TimesX(a: Byte, gen: nat): Byte
    requires Generator(gen)
  {
    Reduced(a, gen);
    if 2 * a >= 256 then Xor(2 * a, gen) else 2 * a
  }

  lemma Reduced(a: Byte, gen: nat)
    requires Generator(gen)
    ensures 2 * a >= 256 ==> Xor(2 * a, gen) < 256
  {
    if 2 * a >= 256 {
      TopBits(2 * a, gen);
    }
  }

  /** Two 9-bit numbers with equal top bits differ in the low byte only. */
  lemma TopBits(u: nat, v: nat)
    requires u < 512 && v < 512
    ensures Xor(u, v) < 256 <==> (u >= 256 <==> v >= 256)
    ensures Xor(u, v) < 512
  {
    Pow2Words();
    assert Pow2(9) == 2 * Pow2(8);
    XorBound(u, v, 9);
    ShiftOps(u, v, 8);
    var p, q := u / 256, v / 256;
    assert p <= 1 && q <= 1;
    OneBitOps(p, q);
  }

  // ---- xor on bytes -----------------------------------------------------------------------------------

  function Plus(a: Byte, b: Byte): Byte {
    XorByte(a, b)
  }

  lemma PlusZero(a: Byte)
    ensures Plus(a, 0) == a && Plus(0, a) == a
  {
    XorZero(a);
  }

  lemma PlusComm(a: Byte, b: Byte)
    ensures Plus(a, b) == Plus(b, a)
  {
    XorComm(a, b);
  }

  lemma PlusAssoc(a: Byte, b: Byte, c: Byte)
    ensures Plus(Plus(a, b), c) == Plus(a, Plus(b, c))
  {
    XorAssoc(a, b, c);
  }

  lemma PlusSwap(a: Byte, b: Byte, c: Byte, d: Byte)
    ensures Plus(Plus(a, b), Plus(c, d)) == Plus(Plus(a, c), Plus(b, d))
  {
    hide Plus;
    PlusAssoc(a, b, Plus(c, d));
    PlusAssoc(b, c, d);
    PlusComm(b, c);
    PlusAssoc(c, b, d);
    PlusAssoc(a, c, Plus(b, d));
  }

  // ---- the product --------------------------------------------------------------------------------------

  /** The multiple of a by the lowest bit of b. */
  function Bit(a: Byte, b: nat): Byte {
    if b % 2 == 1 then a else 0
  }

  /** The product: the sum of the multiples of a by the powers of x in b. */
  function Mul(a: Byte, b: nat, gen: nat): Byte
    requires Generator(gen)
    decreases b
  {
    if b == 0 then 0 else Plus(Bit(a, b), Mul(TimesX(a, gen), b / 2, gen))
  }

  /** mult8, with its sixteen rounds. */
  method Mult8(a0: Byte, b0: nat, gen: nat) returns (product: Byte)
    requires Generator(gen) && b0 < 0x8000
    ensures product == Mul(a0, b0, gen)
    ensures IsRemainder(Clmul(a0, b0), gen, product)
  {
    hide Mul, TimesX, Plus, IsRemainder, Clmul;
    MulIsRemainder(a0, b0, gen);
    var a, b: nat := a0, b0;
    product := 0;
    PlusZero(Mul(a0, b0, gen));
    Pow2Words();
    for i := 0 to 16
      invariant b < Pow2(16 - i) && Plus(product, Mul(a, b, gen)) == Mul(a0, b0, gen)
    {
      MulStep(product, a, b, gen);
      if b % 2 == 1 {
        product := Plus(product, a);
      }
      a := TimesX(a, gen);
      b := b / 2;
    }
    MulZero(a, gen);
    PlusZero(product);
  }

  lemma MulStep(product: Byte, a: Byte, b: nat, gen: nat)
    requires Generator(gen)
    ensures Plus(product, Mul(a, b, gen))
         == Plus(if b % 2 == 1 then Plus(product, a) else product, Mul(TimesX(a, gen), b / 2, gen))
  {
    hide Plus, TimesX;
    var rest := Mul(TimesX(a, gen), b / 2, gen);
    PlusAssoc(product, Bit(a, b), rest);
    PlusZero(product);
    PlusZero(rest);
  }

  lemma MulZero(a: Byte, gen: nat)
    requires Generator(gen)
    ensures Mul(a, 0, gen) == 0
  {
  }

  // ---- ring laws ----------------------------------------------------------------------------------------

  lemma TimesXLinear(a: Byte, b: Byte, gen: nat)
    requires Generator(gen)
    ensures TimesX(Plus(a, b), gen) == Plus(TimesX(a, gen), TimesX(b, gen))
  {
    hide Xor;
    var u, v := 2 * a, 2 * b;
    DoubleXor(a, b);
    TopBits(u, v);
    if u >= 256 && v >= 256 {
      CancelTwice(u, v, gen);
    } else if u >= 256 {
      XorAssoc(u, v, gen);
      XorComm(v, gen);
      XorAssoc(u, gen, v);
    } else {
      XorAssoc(u, v, gen);
    }
  }

  lemma DoubleXor(a: nat, b: nat)
    ensures Xor(2 * a, 2 * b) == 2 * Xor(a, b)
  {
  }

  lemma CancelTwice(u: nat, v: nat, g: nat)
    ensures Xor(Xor(u, g), Xor(v, g)) == Xor(u, v)
  {
    hide Xor;
    XorAssoc(u, g, Xor(v, g));
    XorComm(v, g);
    XorAssoc(g, g, v);
    XorEqual(g, g);
    XorZero(v);
  }

  lemma {:induction false} MulLinear(a: Byte, c: Byte, b: nat, gen: nat)
    requires Generator(gen)
    ensures Mul(Plus(a, c), b, gen) == Plus(Mul(a, b, gen), Mul(c, b, gen))
    decreases b
  {
    hide Plus, TimesX;
    PlusZero(0);
    if b != 0 {
      TimesXLinear(a, c, gen);
      MulLinear(TimesX(a, gen), TimesX(c, gen), b / 2, gen);
      PlusSwap(Bit(a, b), Bit(c, b), Mul(TimesX(a, gen), b / 2, gen), Mul(TimesX(c, gen), b / 2, gen));
    }
  }

  lemma TimesXZero(gen: nat)
    requires Generator(gen)
    ensures TimesX(0, gen) == 0
  {
  }

  lemma {:induction false} MulTimesX(a: Byte, b: nat, gen: nat)
    requires Generator(gen)
    ensures Mul(TimesX(a, gen), b, gen) == TimesX(Mul(a, b, gen), gen)
    decreases b
  {
    hide Plus, TimesX;
    TimesXZero(gen);
    if b != 0 {
      MulTimesX(TimesX(a, gen), b / 2, gen);
      TimesXLinear(Bit(a, b), Mul(TimesX(a, gen), b / 2, gen), gen);
    }
  }

  /** The product from the top bit down. */
  lemma MulHorner(a: Byte, b: nat, gen: nat)
    requires Generator(gen)
    ensures Mul(a, b, gen) == Plus(Bit(a, b), TimesX(Mul(a, b / 2, gen), gen))
  {
    hide Plus, TimesX;
    TimesXZero(gen);
    PlusZero(0);
    MulTimesX(a, b / 2, gen);
  }

  lemma ByteFromBits(b: Byte, gen: nat)
    requires Generator(gen)
    ensures b / 2 < 128 && TimesX(b / 2, gen) == 2 * (b / 2)
    ensures Plus(b % 2, 2 * (b / 2)) == b
  {
    XorZero(b / 2);
  }

  lemma {:induction false} MulOne(b: Byte, gen: nat)
    requires Generator(gen)
    ensures Mul(1, b, gen) == b && Mul(b, 1, gen) == b
    decreases b
  {
    hide Plus, TimesX;
    OnlyOne(b, gen);
    if b != 0 {
      MulOne(b / 2, gen);
      MulHorner(1, b, gen);
      ByteFromBits(b, gen);
    }
  }

  lemma OnlyOne(b: Byte, gen: nat)
    requires Generator(gen)
    ensures Mul(b, 1, gen) == b
  {
    MulZero(TimesX(b, gen), gen);
    PlusZero(b);
  }

  lemma {:induction false} MulFromZero(b: nat, gen: nat)
    requires Generator(gen)
    ensures Mul(0, b, gen) == 0
    decreases b
  {
    hide Plus, TimesX;
    TimesXZero(gen);
    PlusZero(0);
    if b != 0 {
      MulFromZero(b / 2, gen);
    }
  }

  /** The product is commutative on bytes. */
  lemma {:induction false} MulComm(a: Byte, b: Byte, gen: nat)
    requires Generator(gen)
    ensures Mul(a, b, gen) == Mul(b, a, gen)
    decreases a
  {
    hide Plus, TimesX, Mul;
    if a == 0 {
      MulFromZero(b, gen);
      MulZero(b, gen);
    } else {
      var h: Byte := a / 2;
      MulComm(h, b, gen);
      ByteFromBits(a, gen);
      MulLinear(a % 2, TimesX(h, gen), b, gen);
      MulTimesX(h, b, gen);
      MulHorner(b, a, gen);
      MulOne(b, gen);
      MulFromZero(b, gen);
    }
  }

  /** The product is associative on bytes. */
  lemma {:induction false} MulAssociates(a: Byte, b: Byte, c: Byte, gen: nat)
    requires Generator(gen)
    ensures Mul(Mul(a, b, gen), c, gen) == Mul(a, Mul(b, c, gen), gen)
    decreases c
  {
    hide Plus, TimesX, Mul;
    var ab, bc := Mul(a, b, gen), Mul(b, c, gen);
    if c == 0 {
      MulZero(ab, gen);
      MulZero(b, gen);
      MulZero(a, gen);
    } else {
      var h: Byte := c / 2;
      MulAssociates(a, b, h, gen);
      MulHorner(ab, c, gen);
      MulHorner(b, c, gen);
      var bh := Mul(b, h, gen);
      MulRight(a, Bit(b, c), TimesX(bh, gen), gen);
      MulRightTimesX(a, bh, gen);
      MulZero(a, gen);
    }
  }

  lemma MulRight(a: Byte, b: Byte, c: Byte, gen: nat)
    requires Generator(gen)
    ensures Mul(a, Plus(b, c), gen) == Plus(Mul(a, b, gen), Mul(a, c, gen))
  {
    hide Plus, Mul;
    MulComm(a, Plus(b, c), gen);
    MulLinear(b, c, a, gen);
    MulComm(a, b, gen);
    MulComm(a, c, gen);
  }

  lemma MulRightTimesX(a: Byte, b: Byte, gen: nat)
    requires Generator(gen)
    ensures Mul(a, TimesX(b, gen), gen) == TimesX(Mul(a, b, gen), gen)
  {
    hide TimesX, Mul;
    MulComm(a, TimesX(b, gen), gen);
    MulTimesX(b, a, gen);
    MulComm(a, b, gen);
  }

  // ---- the product is a remainder -----------------------------------------------------------------------

  /** The product of polynomials over GF(2), without any reduction. */
  function Clmul(a: nat, b: nat): nat
    decreases b
  {
    if b == 0 then 0 else Xor(if b % 2 == 1 then a else 0, 2 * Clmul(a, b / 2))
  }

  /** r is the remainder of x by the polynomial gen, of degree 8. */
  ghost predicate IsRemainder(x: nat, gen: nat, r: nat) {
    r < 256 && exists q: nat :: x == Xor(Clmul(gen, q), r)
  }

  lemma ClmulDouble(a: nat, b: nat)
    ensures Clmul(a, 2 * b) == 2 * Clmul(a, b)
    ensures Clmul(a, 2 * b + 1) == Xor(a, 2 * Clmul(a, b))
  {
    XorZero(2 * Clmul(a, b));
    if b != 0 {
      assert 2 * b / 2 == b;
    }
    assert (2 * b + 1) / 2 == b;
  }

  /** The quotient, digit by digit: mult8 reduces in step with the unreduced product. */
  lemma {:induction false} MulQuotient(a: Byte, b: nat, gen: nat) returns (q: nat)
    requires Generator(gen)
    ensures Clmul(a, b) == Xor(Clmul(gen, q), Mul(a, b, gen))
    decreases b
  {
    hide Xor, Mul, Clmul;
    if b == 0 {
      q := 0;
      NothingTimes(a, gen);
      MulZero(a, gen);
      XorZero(0);
    } else {
      var p := MulQuotient(a, b / 2, gen);
      var m: nat, c: nat := Mul(a, b / 2, gen), Clmul(gen, p);
      ClmulStep(a, b);
      MulHornerNat(a, b, gen);
      DoubleXor(c, m);
      ClmulDouble(gen, p);
      if 2 * m >= 256 {
        q := 2 * p + 1;
        CarryQuotient(2 * c, 2 * m, gen);
        XorMiddle(Bit(a, b), Xor(gen, 2 * c), Xor(2 * m, gen));
      } else {
        q := 2 * p;
        XorMiddle(Bit(a, b), 2 * c, 2 * m);
      }
    }
  }

  lemma NothingTimes(a: nat, gen: nat)
    ensures Clmul(a, 0) == 0 && Clmul(gen, 0) == 0
  {
  }

  lemma ClmulStep(a: Byte, b: nat)
    requires b > 0
    ensures Clmul(a, b) == Xor(Bit(a, b), 2 * Clmul(a, b / 2))
  {
  }

  /** The product from the top bit down, in terms of the generator. */
  lemma MulHornerNat(a: Byte, b: nat, gen: nat)
    requires Generator(gen)
    ensures var m := Mul(a, b / 2, gen);
            Mul(a, b, gen) == Xor(Bit(a, b), if 2 * m >= 256 then Xor(2 * m, gen) else 2 * m)
  {
    hide Mul, Xor;
    MulHorner(a, b, gen);
  }

  lemma CarryQuotient(c: nat, m: nat, gen: nat)
    ensures Xor(Xor(gen, c), Xor(m, gen)) == Xor(c, m)
  {
    hide Xor;
    XorComm(gen, c);
    XorComm(m, gen);
    XorAssoc(c, gen, Xor(gen, m));
    XorAssoc(gen, gen, m);
    XorEqual(gen, gen);
    XorZero(m);
  }

  lemma XorMiddle(x: nat, y: nat, z: nat)
    ensures Xor(x, Xor(y, z)) == Xor(y, Xor(x, z))
  {
    hide Xor;
    XorAssoc(x, y, z);
    XorComm(x, y);
    XorAssoc(y, x, z);
  }

  /** The product modulo gen is the remainder of the unreduced product. */
  lemma MulIsRemainder(a: Byte, b: nat, gen: nat)
    requires Generator(gen)
    ensures IsRemainder(Clmul(a, b), gen, Mul(a, b, gen))
  {
    hide Xor, Mul, Clmul;
    var q := MulQuotient(a, b, gen);
  }

  lemma {:induction false} ClmulXor(g: nat, p: nat, q: nat)
    ensures Clmul(g, Xor(p, q)) == Xor(Clmul(g, p), Clmul(g, q))
    decreases p + q
  {
    hide Xor, Clmul;
    if p == 0 {
      XorZero(q);
      NothingTimes(g, g);
      XorZero(Clmul(g, q));
    } else if q == 0 {
      XorZero(p);
      NothingTimes(g, g);
      XorZero(Clmul(g, p));
    } else {
      ClmulXor(g, p / 2, q / 2);
      XorHalves(p, q);
      ClmulHalves(g, p);
      ClmulHalves(g, q);
      ClmulHalves(g, Xor(p, q));
      var u, v := Clmul(g, p / 2), Clmul(g, q / 2);
      DoubleXor(u, v);
      XorEqual(g, g);
      XorZero(g);
      XorZero(0);
      XorFour(if p % 2 == 1 then g else 0, 2 * u, if q % 2 == 1 then g else 0, 2 * v);
    }
  }

  lemma XorHalves(p: nat, q: nat)
    ensures Xor(p, q) / 2 == Xor(p / 2, q / 2) && Xor(p, q) % 2 == if p % 2 != q % 2 then 1 else 0
  {
  }

  lemma ClmulHalves(g: nat, p: nat)
    ensures Clmul(g, p) == Xor(if p % 2 == 1 then g else 0, 2 * Clmul(g, p / 2))
  {
    if p == 0 {
      XorZero(0);
    }
  }

  lemma XorFour(a: nat, b: nat, c: nat, d: nat)
    ensures Xor(Xor(a, b), Xor(c, d)) == Xor(Xor(a, c), Xor(b, d))
  {
    hide Xor;
    XorAssoc(a, b, Xor(c, d));
    XorMiddle(b, c, d);
    XorAssoc(a, c, Xor(b, d));
  }

  /** A multiple of gen other than zero has degree 8 at least. */
  lemma {:induction false} MultipleIsLarge(gen: nat, q: nat)
    requires Generator(gen) && q > 0
    ensures Clmul(gen, q) >= 256
    decreases q
  {
    hide Xor, Clmul;
    ClmulHalves(gen, q);
    if q == 1 {
      NothingTimes(gen, gen);
      XorZero(gen);
    } else {
      MultipleIsLarge(gen, q / 2);
      var u := 2 * Clmul(gen, q / 2);
      StaysLarge(gen, u);
      XorZero(u);
    }
  }

  lemma StaysLarge(v: nat, u: nat)
    requires v < 512 <= u
    ensures Xor(v, u) >= 256
  {
    Pow2Words();
    assert Pow2(9) == 2 * Pow2(8);
    ShiftOps(v, u, 9);
    XorZero(u / 512);
  }

  /** The remainder is unique. */
  lemma RemainderUnique(x: nat, gen: nat, r: nat, s: nat)
    requires Generator(gen) && IsRemainder(x, gen, r) && IsRemainder(x, gen, s)
    ensures r == s
  {
    hide Xor, Clmul;
    var p: nat :| x == Xor(Clmul(gen, p), r);
    var q: nat :| x == Xor(Clmul(gen, q), s);
    var u, v := Clmul(gen, p), Clmul(gen, q);
    XorEqual(x, x);
    XorFour(u, r, v, s);
    XorEqual(Xor(u, v), Xor(r, s));
    ClmulXor(gen, p, q);
    Pow2Words();
    XorBound(r, s, 8);
    if Xor(p, q) > 0 {
      MultipleIsLarge(gen, Xor(p, q));
    } else {
      NothingTimes(gen, gen);
      XorEqual(r, s);
    }
  }

  // ---- powers -------------------------------------------------------------------------------------------

  /** The e-fold product of base. */
  function Power(base: Byte, e: nat, gen: nat): Byte
    requires Generator(gen)
  {
    if e == 0 then 1 else Mul(Power(base, e - 1, gen), base, gen)
  }

  lemma PowerOdd(result: Byte, base: Byte, e: nat, gen: nat)
    requires Generator(gen) && e > 0
    ensures Mul(result, Power(base, e, gen), gen) == Mul(Mul(result, base, gen), Power(base, e - 1, gen), gen)
  {
    hide Mul;
    var p := Power(base, e - 1, gen);
    MulComm(p, base, gen);
    MulAssociates(result, base, p, gen);
  }

  lemma {:induction false} PowerSquare(base: Byte, k: nat, gen: nat)
    requires Generator(gen)
    ensures Power(base, 2 * k, gen) == Power(Mul(base, base, gen), k, gen)
  {
    hide Mul;
    if k > 0 {
      PowerSquare(base, k - 1, gen);
      var p := Power(base, 2 * k - 2, gen);
      assert Power(base, 2 * k - 1, gen) == Mul(p, base, gen);
      MulAssociates(p, base, base, gen);
    }
  }

  /** The e-fold product without any reduction. */
  function ClPower(base: nat, e: nat): nat {
    if e == 0 then 1 else Clmul(ClPower(base, e - 1), base)
  }

  lemma {:induction false} ClmulXorLeft(a: nat, c: nat, b: nat)
    ensures Clmul(Xor(a, c), b) == Xor(Clmul(a, b), Clmul(c, b))
    decreases b
  {
    hide Xor, Clmul;
    XorZero(0);
    if b == 0 {
      NothingTimes(a, c);
      NothingTimes(Xor(a, c), c);
    } else {
      ClmulXorLeft(a, c, b / 2);
      ClmulHalves(a, b);
      ClmulHalves(c, b);
      ClmulHalves(Xor(a, c), b);
      DoubleXor(Clmul(a, b / 2), Clmul(c, b / 2));
      XorFour(if b % 2 == 1 then a else 0, 2 * Clmul(a, b / 2), if b % 2 == 1 then c else 0, 2 * Clmul(c, b / 2));
    }
  }

  lemma {:induction false} ClmulAssoc(g: nat, q: nat, b: nat)
    ensures Clmul(Clmul(g, q), b) == Clmul(g, Clmul(q, b))
    decreases b
  {
    hide Xor, Clmul;
    NothingTimes(g, q);
    if b == 0 {
      NothingTimes(Clmul(g, q), q);
      NothingTimes(q, g);
    } else {
      ClmulAssoc(g, q, b / 2);
      ClmulHalves(Clmul(g, q), b);
      ClmulHalves(q, b);
      var h := Clmul(q, b / 2);
      ClmulDouble(g, h);
      ClmulXor(g, if b % 2 == 1 then q else 0, 2 * h);
    }
  }

  /** The power modulo gen is the remainder of the unreduced power. */
  lemma {:induction false} PowerIsRemainder(base: Byte, e: nat, gen: nat)
    requires Generator(gen)
    ensures IsRemainder(ClPower(base, e), gen, Power(base, e, gen))
  {
    hide Xor, Clmul, Mul;
    if e == 0 {
      NothingTimes(gen, gen);
      XorZero(1);
      assert 1 == Xor(Clmul(gen, 0), 1);
    } else {
      PowerIsRemainder(base, e - 1, gen);
      var x, p := ClPower(base, e - 1), Power(base, e - 1, gen);
      var q: nat :| x == Xor(Clmul(gen, q), p);
      var u := MulQuotient(p, base, gen);
      ClmulXorLeft(Clmul(gen, q), p, base);
      ClmulAssoc(gen, q, base);
      ClmulXor(gen, Clmul(q, base), u);
      XorAssoc(Clmul(gen, Clmul(q, base)), Clmul(gen, u), Mul(p, base, gen));
      assert ClPower(base, e) == Xor(Clmul(gen, Xor(Clmul(q, base), u)), Power(base, e, gen));
    }
  }

  /** exp8: square and multiply over sixteen bits; a zero base gives zero whatever the exponent. */
  method Exp8(base: Byte, exponent0: nat, gen: nat) returns (result: Byte)
    requires Generator(gen) && exponent0 < 0x8000
    ensures result == if base == 0 then 0 else Power(base, exponent0, gen)
    ensures base != 0 ==> IsRemainder(ClPower(base, exponent0), gen, result)
  {
    hide Mul, Power, IsRemainder, ClPower;
    PowerIsRemainder(base, exponent0, gen);
    var accum := base;
    result := 1;
    if base == 0 {
      return 0;
    }
    var exponent: nat := exponent0;
    MulOne(Power(base, exponent, gen), gen);
    Pow2Words();
    for i := 0 to 16
      invariant exponent < Pow2(16 - i)
      invariant Mul(result, Power(accum, exponent, gen), gen) == Power(base, exponent0, gen)
    {
      var half := exponent / 2;
      PowerSquare(accum, half, gen);
      if exponent % 2 == 1 {
        PowerOdd(result, accum, exponent, gen);
        result := Mult8(result, accum, gen);
      }
      exponent := half;
      accum := Mult8(accum, accum, gen);
    }
    PowerNone(accum, gen);
    OnlyOne(result, gen);
  }

  lemma PowerNone(base: Byte, gen: nat)
    requires Generator(gen)
    ensures Power(base, 0, gen) == 1
  {
  }

  /** exp8 is the power of its base exactly when base and exponent are not both zero. */
  lemma ZeroBase(base: Byte, e: nat, gen: nat)
    requires Generator(gen)
    ensures (if base == 0 then 0 else Power(base, e, gen)) == Power(base, e, gen) <==> base != 0 || e != 0
  {
    if base == 0 && e > 0 {
      MulZero(Power(base, e - 1, gen), gen);
    }
  }
}
