/** The branch-free comparison primitives of constant_time_locl.h on 32-bit unsigned words. */
module ConstantTime {
  import opened Bits

  const WORD: int := 0x1_0000_0000
  const ONES: int := 0xffff_ffff

  type Word = x: int | 0 <= x < 0x1_0000_0000
  type Byte = x: int | 0 <= x < 256

  // ---- C operators on words -----------------------------------------------------------------------

  function Not(a: Word): Word {
    ONES - a
  }

  function Sub(a: Word, b: Word): Word {
    (a - b) % WORD
  }

  function AndW(a: Word, b: Word): (r: Word) {
    And(a, b)
  }

  function OrW(a: Word, b: Word): (r: Word) {
    Pow2Words();
    OrBound(a, b, 32);
    Or(a, b)
  }

  function XorW(a: Word, b: Word): (r: Word) {
    Pow2Words();
    XorBound(a, b, 32);
    Xor(a, b)
  }

  function XorByte(a: Byte, b: Byte): Byte {
    Pow2Words();
    XorBound(a, b, 8);
    Xor(a, b)
  }

  function Low8(a: Word): Byte {
    a % 256
  }

  // ---- the primitives -------------------------------------------------------------------------------

  /** constant_time_msb */
  function Msb(a: Word): Word {
    Sub(0, a / 0x8000_0000)
  }

  /** constant_time_lt */
  function Lt(a: Word, b: Word): Word {
    Msb(XorW(a, OrW(XorW(a, b), XorW(Sub(a, b), b))))
  }

  /** constant_time_ge */
  function Ge(a: Word, b: Word): Word {
    Not(Lt(a, b))
  }

  /** constant_time_is_zero */
  function IsZero(a: Word): Word {
    Msb(AndW(Not(a), Sub(a, 1)))
  }

  /** constant_time_eq */
  function Eq(a: Word, b: Word): Word {
    IsZero(XorW(a, b))
  }

  /** constant_time_select */
  function Select(mask: Word, a: Word, b: Word): Word {
    OrW(AndW(mask, a), AndW(Not(mask), b))
  }

  function Ge8(a: Word, b: Word): Byte {
    Low8(Ge(a, b))
  }

  function Eq8(a: Word, b: Word): Byte {
    Low8(Eq(a, b))
  }

  function Select8(mask: Byte, a: Byte, b: Byte): Byte {
    Low8(Select(mask, a, b))
  }

  // ---- facts about the bitwise operators --------------------------------------------------------------

  lemma {:induction false} OrBound(a: nat, b: nat, k: nat)
    requires a < Pow2(k) && b < Pow2(k)
    ensures Or(a, b) < Pow2(k)
    decreases k
  {
    if k > 0 && (a != 0 || b != 0) {
      OrBound(a / 2, b / 2, k - 1);
    }
  }

  /** Shifting right commutes with the bitwise operators. */
  lemma {:induction false} ShiftOps(a: nat, b: nat, k: nat)
    ensures a / Pow2(k) >= 0 && b / Pow2(k) >= 0
    ensures And(a, b) / Pow2(k) == And(a / Pow2(k), b / Pow2(k))
    ensures Or(a, b) / Pow2(k) == Or(a / Pow2(k), b / Pow2(k))
    ensures Xor(a, b) / Pow2(k) == Xor(a / Pow2(k), b / Pow2(k))
    decreases k
  {
    if k > 0 {
      ShiftOps(a / 2, b / 2, k - 1);
      HalfOps(a, b);
      DivHalf(a, k);
      DivHalf(b, k);
      DivHalf(And(a, b), k);
      DivHalf(Or(a, b), k);
      DivHalf(Xor(a, b), k);
    }
  }

  /** The operators of C, bit by bit: bit k of the result is that of the operands' bits k. */
  lemma BitLaws(a: nat, b: nat, k: nat)
    ensures var p, i, j := Pow2(k), a / Pow2(k) % 2, b / Pow2(k) % 2;
            && And(a, b) / p % 2 == (if i == 1 && j == 1 then 1 else 0)
            && Or(a, b) / p % 2 == (if i == 1 || j == 1 then 1 else 0)
            && Xor(a, b) / p % 2 == (if i != j then 1 else 0)
  {
    ShiftOps(a, b, k);
    LowBits(a / Pow2(k), b / Pow2(k));
  }

  lemma LowBits(a: nat, b: nat)
    ensures And(a, b) % 2 == (if a % 2 == 1 && b % 2 == 1 then 1 else 0)
    ensures Or(a, b) % 2 == (if a % 2 == 1 || b % 2 == 1 then 1 else 0)
    ensures Xor(a, b) % 2 == (if a % 2 != b % 2 then 1 else 0)
  {
    hide And, Or, Xor;
    AndParts(a, b);
    OrParts(a, b);
    XorParts(a, b);
    Doubled(And(a / 2, b / 2), if a % 2 == 1 && b % 2 == 1 then 1 else 0, And(a, b));
    Doubled(Or(a / 2, b / 2), if a % 2 == 1 || b % 2 == 1 then 1 else 0, Or(a, b));
    Doubled(Xor(a / 2, b / 2), if a % 2 != b % 2 then 1 else 0, Xor(a, b));
  }

  lemma AndParts(a: nat, b: nat)
    ensures And(a, b) == 2 * And(a / 2, b / 2) + (if a % 2 == 1 && b % 2 == 1 then 1 else 0)
  {
  }

  lemma OrParts(a: nat, b: nat)
    ensures Or(a, b) == 2 * Or(a / 2, b / 2) + (if a % 2 == 1 || b % 2 == 1 then 1 else 0)
  {
  }

  lemma XorParts(a: nat, b: nat)
    ensures Xor(a, b) == 2 * Xor(a / 2, b / 2) + (if a % 2 != b % 2 then 1 else 0)
  {
  }

  lemma HalfOps(a: nat, b: nat)
    ensures And(a, b) / 2 == And(a / 2, b / 2)
    ensures Or(a, b) / 2 == Or(a / 2, b / 2)
    ensures Xor(a, b) / 2 == Xor(a / 2, b / 2)
  {
  }

  lemma DivHalf(x: nat, k: nat)
    requires k > 0
    ensures x / Pow2(k) == x / 2 / Pow2(k - 1) >= 0
  {
    var p := Pow2(k - 1);
    var q, r := x / 2 / p, x / 2 % p;
    assert x == 2 * (p * q + r) + x % 2;
    assert 2 * p * q == (2 * p) * q;
    DivModUnique(x, 2 * p, q, 2 * r + x % 2);
    NonNegQuotient(x / 2, p);
  }

  /** The top bit of a word. */
  function Top(a: Word): (t: int)
    ensures t == 0 || t == 1
    ensures t == 1 <==> a >= 0x8000_0000
  {
    a / 0x8000_0000
  }

  lemma TopOps(a: Word, b: Word)
    ensures Top(AndW(a, b)) == if Top(a) == 1 && Top(b) == 1 then 1 else 0
    ensures Top(OrW(a, b)) == if Top(a) == 1 || Top(b) == 1 then 1 else 0
    ensures Top(XorW(a, b)) == if Top(a) != Top(b) then 1 else 0
  {
    ShiftOps(a, b, 31);
    Pow2Words();
    OneBitOps(Top(a), Top(b));
  }

  lemma OneBitOps(x: nat, y: nat)
    requires x <= 1 && y <= 1
    ensures And(x, y) == if x == 1 && y == 1 then 1 else 0
    ensures Or(x, y) == if x == 1 || y == 1 then 1 else 0
    ensures Xor(x, y) == if x != y then 1 else 0
  {
  }

  lemma {:induction false} XorEqual(a: nat, b: nat)
    ensures Xor(a, b) == 0 <==> a == b
    decreases a + b
  {
    if a != 0 || b != 0 {
      XorEqual(a / 2, b / 2);
    }
  }

  lemma {:induction false} AndOnes(b: nat, k: nat)
    requires b < Pow2(k)
    ensures And(b, Pow2(k) - 1) == b && And(Pow2(k) - 1, b) == b
    decreases k
  {
    if b != 0 {
      AndOnes(b / 2, k - 1);
    }
  }

  lemma {:induction false} AndDisjoint(a: nat, b: nat, t: nat)
    requires a % Pow2(t) == 0 && b < Pow2(t)
    ensures And(a, b) == 0 && And(b, a) == 0
    decreases t
  {
    if a != 0 && b != 0 {
      HalfMultiple(a, t);
      AndDisjoint(a / 2, b / 2, t - 1);
    }
  }

  // ---- what the primitives compute --------------------------------------------------------------------

  /** All ones for true, zero for false. */
  function Mask(c: bool): Word {
    if c then ONES else 0
  }

  function Mask8(c: bool): Byte {
    if c then 255 else 0
  }

  lemma MsbMask(a: Word)
    ensures Msb(a) == Mask(Top(a) == 1)
  {
  }

  lemma LtMask(a: Word, b: Word)
    ensures Lt(a, b) == Mask(a < b)
  {
    hide Msb, Top, Sub, XorW, OrW, AndW;
    var d := Sub(a, b);
    var x, y := XorW(a, b), XorW(d, b);
    TopSub(a, b);
    TopOps(a, b);
    TopOps(d, b);
    TopOps(x, y);
    TopOps(a, OrW(x, y));
    MsbMask(XorW(a, OrW(x, y)));
  }

  /** Equal top bits leave the comparison to the difference. */
  lemma TopSub(a: Word, b: Word)
    ensures Top(a) == Top(b) ==> (Top(Sub(a, b)) == 1 <==> a < b)
    ensures Top(a) != Top(b) ==> (a < b <==> Top(b) == 1)
  {
  }

  lemma GeMask(a: Word, b: Word)
    ensures Ge(a, b) == Mask(a >= b) && Ge8(a, b) == Mask8(a >= b)
  {
    hide Lt;
    LtMask(a, b);
  }

  lemma IsZeroMask(a: Word)
    ensures IsZero(a) == Mask(a == 0)
  {
    TopOps(Not(a), Sub(a, 1));
    MsbMask(AndW(Not(a), Sub(a, 1)));
  }

  lemma EqMask(a: Word, b: Word)
    ensures Eq(a, b) == Mask(a == b) && Eq8(a, b) == Mask8(a == b)
  {
    hide Xor, IsZero;
    XorEqual(a, b);
    IsZeroMask(XorW(a, b));
  }

  lemma WordMasks(b: Word)
    ensures And(b, ONES) == b && And(ONES, b) == b && And(b, 0) == 0 && And(0, b) == 0
    ensures Or(b, 0) == b && Or(0, b) == b
  {
    Pow2Words();
    AndOnes(b, 32);
    OrZero(b);
  }

  lemma SelectMask(c: bool, a: Word, b: Word)
    ensures Select(Mask(c), a, b) == if c then a else b
  {
    WordMasks(a);
    WordMasks(b);
  }

  /** A byte under a byte mask, its complement, and the 32-bit complement the C promotion produces. */
  lemma ByteMasks(b: Byte)
    ensures And(b, 255) == b && And(255, b) == b && And(b, 0) == 0 && And(0, b) == 0
    ensures And(b, Not(0)) == b && And(Not(0), b) == b && And(b, Not(255)) == 0 && And(Not(255), b) == 0
    ensures Or(b, 0) == b && Or(0, b) == b
  {
    Pow2Words();
    AndOnes(b, 8);
    AndDisjoint(Not(255), b, 8);
    WordMasks(b);
  }

  lemma Select8Mask(c: bool, a: Byte, b: Byte)
    ensures Select8(Mask8(c), a, b) == if c then a else b
  {
    hide And, Or, Not;
    ByteMasks(a);
    ByteMasks(b);
  }
}
