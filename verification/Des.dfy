/** Two DES implementations: they compute the same ciphertexts, and decryption undoes encryption. */
module Des {
  import opened DesTables
  import opened DesKeys

  datatype Pair = Pair(l: bv32, r: bv32)

  // ---- the cipher --------------------------------------------------------------------------------------

  function RotateLeft(w: bv32): bv32 {
    (w << 1) | (w >> 31)
  }

  function RotateRight(w: bv32): bv32 {
    (w << 31) | (w >> 1)
  }

  function InitialPermutation(p: Pair): Pair {
    var t0 := ((p.l >> 4) ^ p.r) & 0x0f0f0f0f;
    var l0, r0 := p.l ^ (t0 << 4), p.r ^ t0;
    var t1 := ((l0 >> 16) ^ r0) & 0x0000ffff;
    var l1, r1 := l0 ^ (t1 << 16), r0 ^ t1;
    var t2 := ((r1 >> 2) ^ l1) & 0x33333333;
    var l2, r2 := l1 ^ t2, r1 ^ (t2 << 2);
    var t3 := ((r2 >> 8) ^ l2) & 0x00ff00ff;
    var l3, r3 := l2 ^ t3, RotateLeft(r2 ^ (t3 << 8));
    var t4 := (l3 ^ r3) & 0xaaaaaaaa;
    Pair(RotateLeft(l3 ^ t4), r3 ^ t4)
  }

  function FinalPermutation(p: Pair): Pair {
    var l0 := RotateRight(p.l);
    var t0 := (l0 ^ p.r) & 0xaaaaaaaa;
    var l1, r1 := l0 ^ t0, RotateRight(p.r ^ t0);
    var t1 := ((r1 >> 8) ^ l1) & 0x00ff00ff;
    var l2, r2 := l1 ^ t1, r1 ^ (t1 << 8);
    var t2 := ((r2 >> 2) ^ l2) & 0x33333333;
    var l3, r3 := l2 ^ t2, r2 ^ (t2 << 2);
    var t3 := ((l3 >> 16) ^ r3) & 0x0000ffff;
    var l4, r4 := l3 ^ (t3 << 16), r3 ^ t3;
    var t4 := ((l4 >> 4) ^ r4) & 0x0f0f0f0f;
    Pair(l4 ^ (t4 << 4), r4 ^ t4)
  }

  /** The two permutations undo each other. */
  lemma FinalUndoesInitial(p: Pair)
    ensures FinalPermutation(InitialPermutation(p)) == p
  {
  }

  lemma InitialUndoesFinal(p: Pair)
    ensures InitialPermutation(FinalPermutation(p)) == p
  {
  }

  function Index(w: bv32): bv6 {
    (w & 0x3f) as bv6
  }

  function Index8(w: bv32): bv6 {
    Index(w >> 8)
  }

  function Index16(w: bv32): bv6 {
    Index(w >> 16)
  }

  function Index24(w: bv32): bv6 {
    Index(w >> 24)
  }

  function Turn4(w: bv32): bv32 {
    (w << 28) | (w >> 4)
  }

  function Mix(to: bv32, w: bv32): bv32 {
    to ^ w
  }

  /** The even S-boxes, on one word of the subkey. */
  function EvenBoxes(work: bv32): bv32 {
    Mix(Mix(Mix(Sbox8(Index(work)), Sbox6(Index8(work))), Sbox4(Index16(work))), Sbox2(Index24(work)))
  }

  /** The odd S-boxes, on the other. */
  function OddBoxes(work: bv32): bv32 {
    Mix(Mix(Mix(Sbox7(Index(work)), Sbox5(Index8(work))), Sbox3(Index16(work))), Sbox1(Index24(work)))
  }

  /** The round function. */
  function F(from: bv32, even: bv32, odd: bv32): bv32 {
    Mix(EvenBoxes(Mix(from, even)), OddBoxes(Mix(Turn4(from), odd)))
  }

  /** One Feistel round, halves exchanged. */
  function Round(p: Pair, even: bv32, odd: bv32): Pair {
    Pair(p.r, Mix(p.l, F(p.r, even, odd)))
  }

  function Rounds(keys: seq<bv32>, p: Pair, n: nat): Pair
    requires |keys| == 32 && n <= 16
  {
    if n == 0 then p else Round(Rounds(keys, p, n - 1), keys[2 * n - 2], keys[2 * n - 1])
  }

  function Exchanged(p: Pair): Pair {
    Pair(p.r, p.l)
  }

  /** A block under 32 subkey words, as pairs (even, odd). */
  function Cipher(keys: seq<bv32>, p: Pair): Pair
    requires |keys| == 32
  {
    FinalPermutation(Exchanged(Rounds(keys, InitialPermutation(p), 16)))
  }

  // ---- bytes ---------------------------------------------------------------------------------------------

  function ReadBlock(b: seq<bv8>): Pair
    requires |b| == 8
  {
    Pair(ReadWord(b[0], b[1], b[2], b[3]), ReadWord(b[4], b[5], b[6], b[7]))
  }

  function WriteWord(w: bv32): (b: seq<bv8>)
    ensures |b| == 4
  {
    [((w >> 24) & 0xff) as bv8, ((w >> 16) & 0xff) as bv8, ((w >> 8) & 0xff) as bv8, (w & 0xff) as bv8]
  }

  function WriteBlock(p: Pair): (b: seq<bv8>)
    ensures |b| == 8
  {
    WriteWord(p.l) + WriteWord(p.r)
  }

  lemma ReadWrite(p: Pair)
    ensures ReadBlock(WriteBlock(p)) == p
  {
    ReadWriteWord(p.l);
    ReadWriteWord(p.r);
  }

  lemma ReadWriteWord(w: bv32)
    ensures var b := WriteWord(w); ReadWord(b[0], b[1], b[2], b[3]) == w
  {
  }

  lemma WriteReadWord(a: bv8, b: bv8, c: bv8, d: bv8)
    ensures WriteWord(ReadWord(a, b, c, d)) == [a, b, c, d]
  {
  }

  lemma WriteRead(b: seq<bv8>)
    requires |b| == 8
    ensures WriteBlock(ReadBlock(b)) == b
  {
    WriteReadWord(b[0], b[1], b[2], b[3]);
    WriteReadWord(b[4], b[5], b[6], b[7]);
  }

  // ---- decryption undoes encryption ----------------------------------------------------------------------

  /** A round is undone by the same round on the exchanged halves. */
  lemma RoundUndone(p: Pair, even: bv32, odd: bv32)
    ensures Round(Exchanged(Round(p, even, odd)), even, odd) == Exchanged(p)
  {
    hide F;
  }

  lemma {:induction false} RoundsUndone(keys: seq<bv32>, p: Pair, n: nat)
    requires |keys| == 32 && n <= 16
    ensures Rounds(PairsReversed(keys), Exchanged(Rounds(keys, p, 16)), n) == Exchanged(Rounds(keys, p, 16 - n))
  {
    hide Round, PairsReversed;
    if n > 0 {
      RoundsUndone(keys, p, n - 1);
      var q, t := Rounds(keys, p, 16 - n), 16 - n;
      var even, odd := keys[2 * t], keys[2 * t + 1];
      assert Rounds(keys, p, t + 1) == Round(q, even, odd);
      assert PairsReversed(keys)[2 * (n - 1)] == even && PairsReversed(keys)[2 * (n - 1) + 1] == odd;
      RoundUndone(q, even, odd);
    }
  }

  /** The cipher under the reversed subkey pairs is its inverse. */
  lemma CipherUndone(keys: seq<bv32>, p: Pair)
    requires |keys| == 32
    ensures Cipher(PairsReversed(keys), Cipher(keys, p)) == p
  {
    hide Rounds, InitialPermutation, FinalPermutation, PairsReversed;
    var q := Rounds(keys, InitialPermutation(p), 16);
    InitialUndoesFinal(Exchanged(q));
    RoundsUndone(keys, InitialPermutation(p), 16);
    RoundsNone(keys, InitialPermutation(p));
    FinalUndoesInitial(p);
  }

  lemma RoundsNone(keys: seq<bv32>, p: Pair)
    requires |keys| == 32
    ensures Rounds(keys, p, 0) == p
  {
  }

  // ---- or and xor of the S-boxes ---------------------------------------------------------------------------

  /** Words from disjoint masks: or is xor. */
  lemma DisjointOr(a: bv32, b: bv32, c: bv32, d: bv32, e: bv32, f: bv32, g: bv32, h: bv32)
    requires a | 0x01010404 == 0x01010404 && b | 0x80108020 == 0x80108020
    requires c | 0x08020208 == 0x08020208 && d | 0x00802081 == 0x00802081
    requires e | 0x42080100 == 0x42080100 && f | 0x20404010 == 0x20404010
    requires g | 0x04200802 == 0x04200802 && h | 0x10041040 == 0x10041040
    ensures g | e | c | a | h | f | d | b == (h ^ f ^ d ^ b) ^ (g ^ e ^ c ^ a)
  {
  }

  /** OR-ing the eight S-box outputs is XOR-ing them. */
  lemma BoxesOr(w: bv32, v: bv32)
    ensures Sbox7(Index(v)) | Sbox5(Index8(v)) | Sbox3(Index16(v)) | Sbox1(Index24(v))
          | Sbox8(Index(w)) | Sbox6(Index8(w)) | Sbox4(Index16(w)) | Sbox2(Index24(w))
         == Mix(EvenBoxes(w), OddBoxes(v))
  {
    hide Sbox1, Sbox2, Sbox3, Sbox4, Sbox5, Sbox6, Sbox7, Sbox8, Index, Index8, Index16, Index24;
    Sbox1Range(Index24(v));
    Sbox2Range(Index24(w));
    Sbox3Range(Index16(v));
    Sbox4Range(Index16(w));
    Sbox5Range(Index8(v));
    Sbox6Range(Index8(w));
    Sbox7Range(Index(v));
    Sbox8Range(Index(w));
    DisjointOr(Sbox1(Index24(v)), Sbox2(Index24(w)), Sbox3(Index16(v)), Sbox4(Index16(w)),
               Sbox5(Index8(v)), Sbox6(Index8(w)), Sbox7(Index(v)), Sbox8(Index(w)));
  }

  lemma MixAssoc(a: bv32, b: bv32, c: bv32)
    ensures Mix(Mix(a, b), c) == Mix(a, Mix(b, c))
  {
  }

  lemma MixFour(to: bv32, a: bv32, b: bv32, c: bv32, d: bv32)
    ensures Mix(Mix(Mix(Mix(to, a), b), c), d) == Mix(to, Mix(Mix(Mix(a, b), c), d))
  {
    hide Mix;
    MixAssoc(to, a, b);
    MixAssoc(to, Mix(a, b), c);
    MixAssoc(to, Mix(Mix(a, b), c), d);
  }

  /** Outputs mixed in one after the other. */
  lemma MixOneByOne(to: bv32, a: bv32, b: bv32, c: bv32, d: bv32, e: bv32, f: bv32, g: bv32, h: bv32)
    ensures Mix(Mix(Mix(Mix(Mix(Mix(Mix(Mix(to, a), b), c), d), e), f), g), h)
         == Mix(to, Mix(Mix(Mix(Mix(a, b), c), d), Mix(Mix(Mix(e, f), g), h)))
  {
    hide Mix;
    var even, odd := Mix(Mix(Mix(a, b), c), d), Mix(Mix(Mix(e, f), g), h);
    MixFour(to, a, b, c, d);
    MixFour(Mix(to, even), e, f, g, h);
    MixAssoc(to, even, odd);
  }
}
