/** The two DES key schedules: bit by bit through tables, and with masks and shifts. */
module DesKeys {
  import opened DesTables

  // ---- bits and words ----------------------------------------------------------------------------------

  /** Four bytes, most significant first. */
  function ReadWord(a: bv8, b: bv8, c: bv8, d: bv8): bv32 {
    ((a as bv32) << 24) | ((b as bv32) << 16) | ((c as bv32) << 8) | (d as bv32)
  }

  /** 28 bits, each in a word of its own, as one word with the first bit on top. */
  function Word28(s: seq<bv32>): bv32
    requires |s| == 28
  {
    ((s[0] & 1) << 27) | ((s[1] & 1) << 26) | ((s[2] & 1) << 25) | ((s[3] & 1) << 24) |
    ((s[4] & 1) << 23) | ((s[5] & 1) << 22) | ((s[6] & 1) << 21) | ((s[7] & 1) << 20) |
    ((s[8] & 1) << 19) | ((s[9] & 1) << 18) | ((s[10] & 1) << 17) | ((s[11] & 1) << 16) |
    ((s[12] & 1) << 15) | ((s[13] & 1) << 14) | ((s[14] & 1) << 13) | ((s[15] & 1) << 12) |
    ((s[16] & 1) << 11) | ((s[17] & 1) << 10) | ((s[18] & 1) << 9) | ((s[19] & 1) << 8) |
    ((s[20] & 1) << 7) | ((s[21] & 1) << 6) | ((s[22] & 1) << 5) | ((s[23] & 1) << 4) |
    ((s[24] & 1) << 3) | ((s[25] & 1) << 2) | ((s[26] & 1) << 1) | ((s[27] & 1) << 0)
  }

  /** s turned left by k. */
  function Turned(s: seq<bv32>, k: nat): (r: seq<bv32>)
    requires k <= |s|
    ensures |r| == |s|
  {
    s[k..] + s[..k]
  }

  // ---- the schedule by masks and shifts ------------------------------------------------------------------

  /** DO_PERMUTATION with offset 4, on (right, left). */
  function PermuteByFour(right: bv32, left: bv32): (bv32, bv32) {
    var work := ((right >> 4) ^ left) & 0x0f0f0f0f;
    (right ^ (work << 4), left ^ work)
  }

  /** DO_PERMUTATION with offset 0. */
  function PermuteByZero(right: bv32, left: bv32): (bv32, bv32) {
    var work := (right ^ left) & 0x10101010;
    (right ^ work, left ^ work)
  }

  /** Eight spread nibbles brought together. */
  function Joined(a: bv32, b: bv32, c: bv32, d: bv32, e: bv32, f: bv32, g: bv32, h: bv32): bv32 {
    ((a << 3) | (b << 2) | (c << 1) | d | (e << 7) | (f << 6) | (g << 5) | (h << 4)) & 0x0fffffff
  }

  function LeftChoice(w: bv32): bv32 {
    Joined(LeftSwap(w & 0xf), LeftSwap((w >> 8) & 0xf), LeftSwap((w >> 16) & 0xf), LeftSwap((w >> 24) & 0xf),
           LeftSwap((w >> 5) & 0xf), LeftSwap((w >> 13) & 0xf), LeftSwap((w >> 21) & 0xf), LeftSwap((w >> 29) & 0xf))
  }

  function RightChoice(w: bv32): bv32 {
    Joined(RightSwap((w >> 1) & 0xf), RightSwap((w >> 9) & 0xf), RightSwap((w >> 17) & 0xf), RightSwap((w >> 25) & 0xf),
           RightSwap((w >> 4) & 0xf), RightSwap((w >> 12) & 0xf), RightSwap((w >> 20) & 0xf),
           RightSwap((w >> 28) & 0xf))
  }

  /** The 28-bit registers a key starts with. */
  function Registers(l: bv32, r: bv32): (bv32, bv32) {
    var four := PermuteByFour(r, l);
    var zero := PermuteByZero(four.0, four.1);
    (LeftChoice(zero.1), RightChoice(zero.0))
  }

  function Rotate28(w: bv32, n: nat): bv32
    requires n == 1 || n == 2
  {
    if n == 1 then ((w << 1) | (w >> 27)) & 0x0fffffff else ((w << 2) | (w >> 26)) & 0x0fffffff
  }

  /** The first word of a subkey pair. */
  function EvenKey(left: bv32, right: bv32): bv32 {
    ((left << 4) & 0x24000000) | ((left << 28) & 0x10000000) | ((left << 14) & 0x08000000) |
    ((left << 18) & 0x02080000) | ((left << 6) & 0x01000000) | ((left << 9) & 0x00200000) |
    ((left >> 1) & 0x00100000) | ((left << 10) & 0x00040000) | ((left << 2) & 0x00020000) |
    ((left >> 10) & 0x00010000) | ((right >> 13) & 0x00002000) | ((right >> 4) & 0x00001000) |
    ((right << 6) & 0x00000800) | ((right >> 1) & 0x00000400) | ((right >> 14) & 0x00000200) |
    (right & 0x00000100) | ((right >> 5) & 0x00000020) | ((right >> 10) & 0x00000010) |
    ((right >> 3) & 0x00000008) | ((right >> 18) & 0x00000004) | ((right >> 26) & 0x00000002) |
    ((right >> 24) & 0x00000001)
  }

  /** The second word of a subkey pair. */
  function OddKey(left: bv32, right: bv32): bv32 {
    ((left << 15) & 0x20000000) | ((left << 17) & 0x10000000) | ((left << 10) & 0x08000000) |
    ((left << 22) & 0x04000000) | ((left >> 2) & 0x02000000) | ((left << 1) & 0x01000000) |
    ((left << 16) & 0x00200000) | ((left << 11) & 0x00100000) | ((left << 3) & 0x00080000) |
    ((left >> 6) & 0x00040000) | ((left << 15) & 0x00020000) | ((left >> 4) & 0x00010000) |
    ((right >> 2) & 0x00002000) | ((right << 8) & 0x00001000) | ((right >> 14) & 0x00000808) |
    ((right >> 9) & 0x00000400) | ((right) & 0x00000200) | ((right << 7) & 0x00000100) |
    ((right >> 7) & 0x00000020) | ((right >> 3) & 0x00000011) | ((right << 2) & 0x00000004) |
    ((right >> 21) & 0x00000002)
  }

  // ---- the schedule bit by bit -----------------------------------------------------------------------------

  function TestBit(b: bv8, mask: bv8): bv32 {
    if b & mask != 0 then 1 else 0
  }

  function KeyBit(key: seq<bv8>, l: nat): bv32
    requires |key| == 8 && l < 64
  {
    TestBit(key[l / 8], ByteBit(l % 8))
  }

  /** The first n bits of the two registers, in the order of pc1. */
  function KeyBits(key: seq<bv8>, n: nat): (s: seq<bv32>)
    requires |key| == 8 && n <= 56
    ensures |s| == n && forall j :: 0 <= j < n ==> s[j] == KeyBit(key, Pc1(j))
  {
    seq(n, j requires 0 <= j < n => KeyBit(key, Pc1(j)))
  }

  /** A bit at place j of a half subkey. */
  function Shifted(v: bv32, j: nat): bv32
    requires j < 24
  {
    (v & 1) << Down24(j)
  }

  /** Bit j of a half subkey at its place. */
  function Picked(pcr: seq<bv32>, off: nat, j: nat): bv32
    requires |pcr| == 56 && (off == 0 || off == 24) && j < 24
  {
    Shifted(pcr[Pc2(off + j)], j)
  }

  /** The first j bits of a half subkey. */
  function Gathered(pcr: seq<bv32>, off: nat, j: nat): bv32
    requires |pcr| == 56 && (off == 0 || off == 24) && j <= 24
  {
    if j == 0 then 0 else Gathered(pcr, off, j - 1) | Picked(pcr, off, j - 1)
  }

  /** cookey: the first word of a cooked pair. */
  function CookFirst(r0: bv32, r1: bv32): bv32 {
    ((r0 & 0x00fc0000) << 6) | ((r0 & 0x00000fc0) << 10) | ((r1 & 0x00fc0000) >> 10) | ((r1 & 0x00000fc0) >> 6)
  }

  /** cookey: the second word of a cooked pair. */
  function CookSecond(r0: bv32, r1: bv32): bv32 {
    ((r0 & 0x0003f000) << 12) | ((r0 & 0x0000003f) << 16) | ((r1 & 0x0003f000) >> 4) | (r1 & 0x0000003f)
  }

  // ---- one choice of subkey bits is the other ----------------------------------------------------------------

  /** The top and the low twelve bits of the first half of a subkey. */
  function FirstTop(pcr: seq<bv32>): bv32
    requires |pcr| == 56
  {
    ((pcr[13] & 1) << 23) | ((pcr[16] & 1) << 22) | ((pcr[10] & 1) << 21) | ((pcr[23] & 1) << 20) |
    ((pcr[0] & 1) << 19) | ((pcr[4] & 1) << 18) | ((pcr[2] & 1) << 17) | ((pcr[27] & 1) << 16) |
    ((pcr[14] & 1) << 15) | ((pcr[5] & 1) << 14) | ((pcr[20] & 1) << 13) | ((pcr[9] & 1) << 12)
  }

  function FirstLow(pcr: seq<bv32>): bv32
    requires |pcr| == 56
  {
    ((pcr[22] & 1) << 11) | ((pcr[18] & 1) << 10) | ((pcr[11] & 1) << 9) | ((pcr[3] & 1) << 8) |
    ((pcr[25] & 1) << 7) | ((pcr[7] & 1) << 6) | ((pcr[15] & 1) << 5) | ((pcr[6] & 1) << 4) |
    ((pcr[26] & 1) << 3) | ((pcr[19] & 1) << 2) | ((pcr[12] & 1) << 1) | ((pcr[1] & 1) << 0)
  }

  /** The top and the low twelve bits of the second half. */
  function SecondTop(pcr: seq<bv32>): bv32
    requires |pcr| == 56
  {
    ((pcr[40] & 1) << 23) | ((pcr[51] & 1) << 22) | ((pcr[30] & 1) << 21) | ((pcr[36] & 1) << 20) |
    ((pcr[46] & 1) << 19) | ((pcr[54] & 1) << 18) | ((pcr[29] & 1) << 17) | ((pcr[39] & 1) << 16) |
    ((pcr[50] & 1) << 15) | ((pcr[44] & 1) << 14) | ((pcr[32] & 1) << 13) | ((pcr[47] & 1) << 12)
  }

  function SecondLow(pcr: seq<bv32>): bv32
    requires |pcr| == 56
  {
    ((pcr[43] & 1) << 11) | ((pcr[48] & 1) << 10) | ((pcr[38] & 1) << 9) | ((pcr[55] & 1) << 8) |
    ((pcr[33] & 1) << 7) | ((pcr[52] & 1) << 6) | ((pcr[45] & 1) << 5) | ((pcr[41] & 1) << 4) |
    ((pcr[49] & 1) << 3) | ((pcr[35] & 1) << 2) | ((pcr[28] & 1) << 1) | ((pcr[31] & 1) << 0)
  }

  function FirstHalf(pcr: seq<bv32>): bv32
    requires |pcr| == 56
  {
    FirstTop(pcr) | FirstLow(pcr)
  }

  function SecondHalf(pcr: seq<bv32>): bv32
    requires |pcr| == 56
  {
    SecondTop(pcr) | SecondLow(pcr)
  }

  /** Cooking the selected bits gives the masked shifts, in the other order. */
  lemma CookedAreShifted(pcr: seq<bv32>)
    requires |pcr| == 56
    ensures CookFirst(FirstHalf(pcr), SecondHalf(pcr)) == OddKey(Word28(pcr[..28]), Word28(pcr[28..]))
    ensures CookSecond(FirstHalf(pcr), SecondHalf(pcr)) == EvenKey(Word28(pcr[..28]), Word28(pcr[28..]))
  {
  }

  lemma GatherFour(pcr: seq<bv32>, off: nat, j: nat)
    requires |pcr| == 56 && (off == 0 || off == 24) && j + 4 <= 24
    ensures Gathered(pcr, off, j + 4)
         == Gathered(pcr, off, j) | Picked(pcr, off, j) | Picked(pcr, off, j + 1) | Picked(pcr, off, j + 2)
             | Picked(pcr, off, j + 3)
  {
    hide Gathered, Picked;
    GatherOne(pcr, off, j);
    GatherOne(pcr, off, j + 1);
    GatherOne(pcr, off, j + 2);
    GatherOne(pcr, off, j + 3);
  }

  lemma GatherOne(pcr: seq<bv32>, off: nat, j: nat)
    requires |pcr| == 56 && (off == 0 || off == 24) && j < 24
    ensures Gathered(pcr, off, j + 1) == Gathered(pcr, off, j) | Picked(pcr, off, j)
  {
  }

  /** Twelve more bits of a half subkey. */
  function Twelve(pcr: seq<bv32>, off: nat, j: nat): bv32
    requires |pcr| == 56 && (off == 0 || off == 24) && j + 12 <= 24
  {
    Picked(pcr, off, j) | Picked(pcr, off, j + 1) | Picked(pcr, off, j + 2) | Picked(pcr, off, j + 3)
    | Picked(pcr, off, j + 4) | Picked(pcr, off, j + 5) | Picked(pcr, off, j + 6) | Picked(pcr, off, j + 7)
    | Picked(pcr, off, j + 8) | Picked(pcr, off, j + 9) | Picked(pcr, off, j + 10) | Picked(pcr, off, j + 11)
  }

  lemma GatheredTwelves(pcr: seq<bv32>, off: nat)
    requires |pcr| == 56 && (off == 0 || off == 24)
    ensures Gathered(pcr, off, 24) == Twelve(pcr, off, 0) | Twelve(pcr, off, 12)
  {
    hide Gathered, Picked;
    GatheredNone(pcr, off);
    GatherFour(pcr, off, 0);
    GatherFour(pcr, off, 4);
    GatherFour(pcr, off, 8);
    GatherFour(pcr, off, 12);
    GatherFour(pcr, off, 16);
    GatherFour(pcr, off, 20);
  }

  lemma TwelveFirstTop(pcr: seq<bv32>)
    requires |pcr| == 56
    ensures Twelve(pcr, 0, 0) == FirstTop(pcr)
  {
  }

  lemma TwelveFirstLow(pcr: seq<bv32>)
    requires |pcr| == 56
    ensures Twelve(pcr, 0, 12) == FirstLow(pcr)
  {
  }

  lemma TwelveSecondTop(pcr: seq<bv32>)
    requires |pcr| == 56
    ensures Twelve(pcr, 24, 0) == SecondTop(pcr)
  {
  }

  lemma TwelveSecondLow(pcr: seq<bv32>)
    requires |pcr| == 56
    ensures Twelve(pcr, 24, 12) == SecondLow(pcr)
  {
  }

  lemma GatheredHalves(pcr: seq<bv32>)
    requires |pcr| == 56
    ensures Gathered(pcr, 0, 24) == FirstHalf(pcr)
    ensures Gathered(pcr, 24, 24) == SecondHalf(pcr)
  {
    hide Gathered, Twelve, FirstTop, FirstLow, SecondTop, SecondLow;
    GatheredTwelves(pcr, 0);
    GatheredTwelves(pcr, 24);
    TwelveFirstTop(pcr);
    TwelveFirstLow(pcr);
    TwelveSecondTop(pcr);
    TwelveSecondLow(pcr);
  }

  lemma GatheredNone(pcr: seq<bv32>, off: nat)
    requires |pcr| == 56 && (off == 0 || off == 24)
    ensures Gathered(pcr, off, 0) == 0
  {
  }

  // ---- one choice of key bits is the other ---------------------------------------------------------------------

  function LeftSpreadOf(x: bv32): bv32 {
    (x & 1) | ((x & 2) << 7) | ((x & 4) << 14) | ((x & 8) << 21)
  }

  function RightSpreadOf(x: bv32): bv32 {
    ((x & 1) << 24) | ((x & 2) << 15) | ((x & 4) << 6) | ((x & 8) >> 3)
  }

  lemma LeftChoiceSpread(w: bv32)
    ensures LeftChoice(w) ==
      Joined(LeftSpreadOf(w), LeftSpreadOf(w >> 8), LeftSpreadOf(w >> 16), LeftSpreadOf(w >> 24),
             LeftSpreadOf(w >> 5), LeftSpreadOf(w >> 13), LeftSpreadOf(w >> 21), LeftSpreadOf(w >> 29))
  {
    hide LeftSwap, Joined;
    LeftSpread(w);
    LeftSpread(w >> 8);
    LeftSpread(w >> 16);
    LeftSpread(w >> 24);
    LeftSpread(w >> 5);
    LeftSpread(w >> 13);
    LeftSpread(w >> 21);
    LeftSpread(w >> 29);
  }

  lemma RightChoiceSpread(w: bv32)
    ensures RightChoice(w) ==
      Joined(RightSpreadOf(w >> 1), RightSpreadOf(w >> 9), RightSpreadOf(w >> 17), RightSpreadOf(w >> 25),
             RightSpreadOf(w >> 4), RightSpreadOf(w >> 12), RightSpreadOf(w >> 20), RightSpreadOf(w >> 28))
  {
    hide RightSwap, Joined;
    RightSpread(w >> 1);
    RightSpread(w >> 9);
    RightSpread(w >> 17);
    RightSpread(w >> 25);
    RightSpread(w >> 4);
    RightSpread(w >> 12);
    RightSpread(w >> 20);
    RightSpread(w >> 28);
  }

  function LeftWord(key: seq<bv8>): bv32
    requires |key| == 8
  {
    ReadWord(key[0], key[1], key[2], key[3])
  }

  function RightWord(key: seq<bv8>): bv32
    requires |key| == 8
  {
    ReadWord(key[4], key[5], key[6], key[7])
  }

  /** The first register, bit by bit from the bytes of the key. */
  function FirstRegister(k: seq<bv8>): bv32
    requires |k| == 8
  {
    FirstWired(k[0], k[1], k[2], k[3], k[4], k[5], k[6], k[7])
  }

  function FirstWired(k0: bv8, k1: bv8, k2: bv8, k3: bv8, k4: bv8, k5: bv8, k6: bv8, k7: bv8): bv32 {
    ((((k7 as bv32) >> 7) & 1) << 27) | ((((k6 as bv32) >> 7) & 1) << 26) |
    ((((k5 as bv32) >> 7) & 1) << 25) | ((((k4 as bv32) >> 7) & 1) << 24) |
    ((((k3 as bv32) >> 7) & 1) << 23) | ((((k2 as bv32) >> 7) & 1) << 22) |
    ((((k1 as bv32) >> 7) & 1) << 21) | ((((k0 as bv32) >> 7) & 1) << 20) |
    ((((k7 as bv32) >> 6) & 1) << 19) | ((((k6 as bv32) >> 6) & 1) << 18) |
    ((((k5 as bv32) >> 6) & 1) << 17) | ((((k4 as bv32) >> 6) & 1) << 16) |
    ((((k3 as bv32) >> 6) & 1) << 15) | ((((k2 as bv32) >> 6) & 1) << 14) |
    ((((k1 as bv32) >> 6) & 1) << 13) | ((((k0 as bv32) >> 6) & 1) << 12) |
    ((((k7 as bv32) >> 5) & 1) << 11) | ((((k6 as bv32) >> 5) & 1) << 10) |
    ((((k5 as bv32) >> 5) & 1) << 9) | ((((k4 as bv32) >> 5) & 1) << 8) |
    ((((k3 as bv32) >> 5) & 1) << 7) | ((((k2 as bv32) >> 5) & 1) << 6) |
    ((((k1 as bv32) >> 5) & 1) << 5) | ((((k0 as bv32) >> 5) & 1) << 4) |
    ((((k7 as bv32) >> 4) & 1) << 3) | ((((k6 as bv32) >> 4) & 1) << 2) |
    ((((k5 as bv32) >> 4) & 1) << 1) | ((((k4 as bv32) >> 4) & 1) << 0)
  }

  /** The second register. */
  function SecondRegister(k: seq<bv8>): bv32
    requires |k| == 8
  {
    SecondWired(k[0], k[1], k[2], k[3], k[4], k[5], k[6], k[7])
  }

  function SecondWired(k0: bv8, k1: bv8, k2: bv8, k3: bv8, k4: bv8, k5: bv8, k6: bv8, k7: bv8): bv32 {
    ((((k7 as bv32) >> 1) & 1) << 27) | ((((k6 as bv32) >> 1) & 1) << 26) |
    ((((k5 as bv32) >> 1) & 1) << 25) | ((((k4 as bv32) >> 1) & 1) << 24) |
    ((((k3 as bv32) >> 1) & 1) << 23) | ((((k2 as bv32) >> 1) & 1) << 22) |
    ((((k1 as bv32) >> 1) & 1) << 21) | ((((k0 as bv32) >> 1) & 1) << 20) |
    ((((k7 as bv32) >> 2) & 1) << 19) | ((((k6 as bv32) >> 2) & 1) << 18) |
    ((((k5 as bv32) >> 2) & 1) << 17) | ((((k4 as bv32) >> 2) & 1) << 16) |
    ((((k3 as bv32) >> 2) & 1) << 15) | ((((k2 as bv32) >> 2) & 1) << 14) |
    ((((k1 as bv32) >> 2) & 1) << 13) | ((((k0 as bv32) >> 2) & 1) << 12) |
    ((((k7 as bv32) >> 3) & 1) << 11) | ((((k6 as bv32) >> 3) & 1) << 10) |
    ((((k5 as bv32) >> 3) & 1) << 9) | ((((k4 as bv32) >> 3) & 1) << 8) |
    ((((k3 as bv32) >> 3) & 1) << 7) | ((((k2 as bv32) >> 3) & 1) << 6) |
    ((((k1 as bv32) >> 3) & 1) << 5) | ((((k0 as bv32) >> 3) & 1) << 4) |
    ((((k3 as bv32) >> 4) & 1) << 3) | ((((k2 as bv32) >> 4) & 1) << 2) |
    ((((k1 as bv32) >> 4) & 1) << 1) | ((((k0 as bv32) >> 4) & 1) << 0)
  }

  lemma LeftRegister(k: seq<bv8>)
    requires |k| == 8
    ensures Registers(LeftWord(k), RightWord(k)).0 == FirstRegister(k)
  {
    hide Registers, FirstWired, ReadWord;
    LeftWires(k[0], k[1], k[2], k[3], k[4], k[5], k[6], k[7]);
  }

  lemma LeftWires(k0: bv8, k1: bv8, k2: bv8, k3: bv8, k4: bv8, k5: bv8, k6: bv8, k7: bv8)
    ensures Registers(ReadWord(k0, k1, k2, k3), ReadWord(k4, k5, k6, k7)).0
         == FirstWired(k0, k1, k2, k3, k4, k5, k6, k7)
  {
    hide LeftChoice, RightChoice;
    var four := PermuteByFour(ReadWord(k4, k5, k6, k7), ReadWord(k0, k1, k2, k3));
    LeftChoiceSpread(PermuteByZero(four.0, four.1).1);
  }

  lemma RightRegister(k: seq<bv8>)
    requires |k| == 8
    ensures Registers(LeftWord(k), RightWord(k)).1 == SecondRegister(k)
  {
    hide Registers, SecondWired, ReadWord;
    RightWires(k[0], k[1], k[2], k[3], k[4], k[5], k[6], k[7]);
  }

  lemma RightWires(k0: bv8, k1: bv8, k2: bv8, k3: bv8, k4: bv8, k5: bv8, k6: bv8, k7: bv8)
    ensures Registers(ReadWord(k0, k1, k2, k3), ReadWord(k4, k5, k6, k7)).1
         == SecondWired(k0, k1, k2, k3, k4, k5, k6, k7)
  {
    hide LeftChoice, RightChoice;
    var four := PermuteByFour(ReadWord(k4, k5, k6, k7), ReadWord(k0, k1, k2, k3));
    RightChoiceSpread(PermuteByZero(four.0, four.1).0);
  }

  /** Testing a bit of a byte is shifting it down. */
  lemma TestedBits(b: bv8)
    ensures Tested(b)
  {
  }

  /** The key bits that make up the first register. */
  function FirstKeyBits(k: seq<bv8>): bv32
    requires |k| == 8
  {
    ((KeyBit(k, 56) & 1) << 27) | ((KeyBit(k, 48) & 1) << 26) | ((KeyBit(k, 40) & 1) << 25) |
    ((KeyBit(k, 32) & 1) << 24) | ((KeyBit(k, 24) & 1) << 23) | ((KeyBit(k, 16) & 1) << 22) |
    ((KeyBit(k, 8) & 1) << 21) | ((KeyBit(k, 0) & 1) << 20) | ((KeyBit(k, 57) & 1) << 19) |
    ((KeyBit(k, 49) & 1) << 18) | ((KeyBit(k, 41) & 1) << 17) | ((KeyBit(k, 33) & 1) << 16) |
    ((KeyBit(k, 25) & 1) << 15) | ((KeyBit(k, 17) & 1) << 14) | ((KeyBit(k, 9) & 1) << 13) |
    ((KeyBit(k, 1) & 1) << 12) | ((KeyBit(k, 58) & 1) << 11) | ((KeyBit(k, 50) & 1) << 10) |
    ((KeyBit(k, 42) & 1) << 9) | ((KeyBit(k, 34) & 1) << 8) | ((KeyBit(k, 26) & 1) << 7) |
    ((KeyBit(k, 18) & 1) << 6) | ((KeyBit(k, 10) & 1) << 5) | ((KeyBit(k, 2) & 1) << 4) |
    ((KeyBit(k, 59) & 1) << 3) | ((KeyBit(k, 51) & 1) << 2) | ((KeyBit(k, 43) & 1) << 1) |
    ((KeyBit(k, 35) & 1) << 0)
  }

  function SecondKeyBits(k: seq<bv8>): bv32
    requires |k| == 8
  {
    ((KeyBit(k, 62) & 1) << 27) | ((KeyBit(k, 54) & 1) << 26) | ((KeyBit(k, 46) & 1) << 25) |
    ((KeyBit(k, 38) & 1) << 24) | ((KeyBit(k, 30) & 1) << 23) | ((KeyBit(k, 22) & 1) << 22) |
    ((KeyBit(k, 14) & 1) << 21) | ((KeyBit(k, 6) & 1) << 20) | ((KeyBit(k, 61) & 1) << 19) |
    ((KeyBit(k, 53) & 1) << 18) | ((KeyBit(k, 45) & 1) << 17) | ((KeyBit(k, 37) & 1) << 16) |
    ((KeyBit(k, 29) & 1) << 15) | ((KeyBit(k, 21) & 1) << 14) | ((KeyBit(k, 13) & 1) << 13) |
    ((KeyBit(k, 5) & 1) << 12) | ((KeyBit(k, 60) & 1) << 11) | ((KeyBit(k, 52) & 1) << 10) |
    ((KeyBit(k, 44) & 1) << 9) | ((KeyBit(k, 36) & 1) << 8) | ((KeyBit(k, 28) & 1) << 7) |
    ((KeyBit(k, 20) & 1) << 6) | ((KeyBit(k, 12) & 1) << 5) | ((KeyBit(k, 4) & 1) << 4) |
    ((KeyBit(k, 27) & 1) << 3) | ((KeyBit(k, 19) & 1) << 2) | ((KeyBit(k, 11) & 1) << 1) |
    ((KeyBit(k, 3) & 1) << 0)
  }

  lemma TestedFirst(k: seq<bv8>)
    requires |k| == 8
    ensures FirstKeyBits(k) == FirstRegister(k)
  {
    hide TestBit;
    AllTested(k);
  }

  lemma TestedSecond(k: seq<bv8>)
    requires |k| == 8
    ensures SecondKeyBits(k) == SecondRegister(k)
  {
    hide TestBit;
    AllTested(k);
  }

  lemma AllTested(k: seq<bv8>)
    requires |k| == 8
    ensures forall i :: 0 <= i < 8 ==> Tested(k[i])
  {
    forall i | 0 <= i < 8 ensures Tested(k[i]) {
      TestedBits(k[i]);
    }
  }

  ghost predicate Tested(b: bv8) {
    && TestBit(b, 0x80) == ((b as bv32) >> 7) & 1 && TestBit(b, 0x40) == ((b as bv32) >> 6) & 1
    && TestBit(b, 0x20) == ((b as bv32) >> 5) & 1 && TestBit(b, 0x10) == ((b as bv32) >> 4) & 1
    && TestBit(b, 0x08) == ((b as bv32) >> 3) & 1 && TestBit(b, 0x04) == ((b as bv32) >> 2) & 1
    && TestBit(b, 0x02) == ((b as bv32) >> 1) & 1 && TestBit(b, 0x01) == ((b as bv32) >> 0) & 1
  }

  lemma FirstInOrder(k: seq<bv8>, s: seq<bv32>)
    requires |k| == 8 && |s| == 28 && forall j :: 0 <= j < 28 ==> s[j] == KeyBit(k, Pc1(j))
    ensures Word28(s) == FirstKeyBits(k)
  {
    hide KeyBit;
  }

  lemma SecondInOrder(k: seq<bv8>, s: seq<bv32>)
    requires |k| == 8 && |s| == 28 && forall j :: 0 <= j < 28 ==> s[j] == KeyBit(k, Pc1(28 + j))
    ensures Word28(s) == SecondKeyBits(k)
  {
    hide KeyBit;
  }

  /** The registers hold the key bits in the order of pc1. */
  lemma RegistersAreKeyBits(k: seq<bv8>)
    requires |k| == 8
    ensures Registers(LeftWord(k), RightWord(k)).0 == Word28(KeyBits(k, 56)[..28])
    ensures Registers(LeftWord(k), RightWord(k)).1 == Word28(KeyBits(k, 56)[28..])
  {
    hide Registers, KeyBits, KeyBit, Word28, FirstKeyBits, SecondKeyBits, FirstRegister, SecondRegister, Pc1;
    LeftRegister(k);
    RightRegister(k);
    TestedFirst(k);
    TestedSecond(k);
    FirstInOrder(k, KeyBits(k, 56)[..28]);
    SecondInOrder(k, KeyBits(k, 56)[28..]);
  }

  // ---- rotations -----------------------------------------------------------------------------------------------

  lemma TurnedOne(s: seq<bv32>, k: nat)
    requires |s| == 28 && k < 28
    ensures Word28(Turned(s, k + 1)) == Rotate28(Word28(Turned(s, k)), 1)
  {
    var t := Turned(s, k);
    assert Turned(s, k + 1) == t[1..] + [t[0]];
    TurnOnce(t);
  }

  lemma TurnOnce(t: seq<bv32>)
    requires |t| == 28
    ensures Word28(t[1..] + [t[0]]) == Rotate28(Word28(t), 1)
  {
  }

  lemma RotateTwice(s: seq<bv32>)
    requires |s| == 28
    ensures Rotate28(Rotate28(Word28(s), 1), 1) == Rotate28(Word28(s), 2)
  {
  }

  lemma TurnedBy(s: seq<bv32>, k: nat, n: nat)
    requires |s| == 28 && k + n <= 28 && (n == 1 || n == 2)
    ensures Word28(Turned(s, k + n)) == Rotate28(Word28(Turned(s, k)), n)
  {
    hide Word28, Rotate28;
    TurnedOne(s, k);
    if n == 2 {
      TurnedOne(s, k + 1);
      RotateTwice(Turned(s, k));
    }
  }

  // ---- the two schedules -----------------------------------------------------------------------------------------

  /** The two registers of round t, bit by bit. */
  function Rotated(bits: seq<bv32>, t: nat): (r: seq<bv32>)
    requires |bits| == 56 && t < 16
    ensures |r| == 56
  {
    Turned(bits[..28], Totrot(t)) + Turned(bits[28..], Totrot(t))
  }

  /** The same as words. */
  function RoundLeft(key: seq<bv8>, t: nat): bv32
    requires |key| == 8 && t < 16
  {
    Word28(Turned(KeyBits(key, 56)[..28], Totrot(t)))
  }

  function RoundRight(key: seq<bv8>, t: nat): bv32
    requires |key| == 8 && t < 16
  {
    Word28(Turned(KeyBits(key, 56)[28..], Totrot(t)))
  }

  /** The subkeys of a key in encryption order, each pair as (even, odd). */
  ghost predicate Scheduled(key: seq<bv8>, subkeys: seq<bv32>, n: nat)
    requires |key| == 8 && n <= 16
  {
    |subkeys| == 2 * n && forall t :: 0 <= t < n ==>
      && subkeys[2 * t] == EvenKey(RoundLeft(key, t), RoundRight(key, t))
      && subkeys[2 * t + 1] == OddKey(RoundLeft(key, t), RoundRight(key, t))
  }

  /** The words of each pair exchanged. */
  function PairsSwapped(keys: seq<bv32>): (r: seq<bv32>)
    requires |keys| == 32
    ensures |r| == 32 && forall t :: 0 <= t < 16 ==> r[2 * t] == keys[2 * t + 1] && r[2 * t + 1] == keys[2 * t]
  {
    seq(32, i requires 0 <= i < 32 => if i % 2 == 0 then keys[i + 1] else keys[i - 1])
  }

  /** The pairs in reverse order. */
  function PairsReversed(keys: seq<bv32>): (r: seq<bv32>)
    requires |keys| == 32
    ensures |r| == 32 && forall t :: 0 <= t < 16 ==> r[2 * t] == keys[30 - 2 * t] && r[2 * t + 1] == keys[31 - 2 * t]
  {
    seq(32, i requires 0 <= i < 32 => if i % 2 == 0 then keys[30 - i] else keys[32 - i])
  }
}
