/** DES as FIPS 46-3 describes it, by bits and tables, and the cipher of the two programs proved to be the same. */
module DesStandard {
  import opened DesTables
  import opened DesKeys
  import opened Des

  // ---- the two permutations of the block -----------------------------------------------------------------

  /** Bit i of a block, the first on top. */
  function BlockBit(p: Pair, i: bv64): bv64
    requires i < 64
  {
    ((((p.l as bv64) << 32) | (p.r as bv64)) >> (63 - i)) & 1
  }

  /** The table IP: output bit i is this input bit; rows of eight go down the columns, even ones first. */
  function IpIndex(i: bv64): (j: bv64)
    requires i < 64
    ensures j < 64
  {
    ((7 - (i & 7)) << 3) | (if i < 32 then ((i >> 3) << 1) | 1 else ((i >> 3) & 3) << 1)
  }

  /** The table of the inverse permutation. */
  function FpIndex(i: bv64): (j: bv64)
    requires i < 64
    ensures j < 64
  {
    (if i & 1 == 0 then 32 else 0) + (((i & 7) >> 1) << 3) + (7 - (i >> 3))
  }

  /** The initial permutation without the rotation the programs add to it. */
  function Ip(p: Pair): Pair {
    var q := InitialPermutation(p);
    Pair(RotateRight(q.l), RotateRight(q.r))
  }

  function Fp(p: Pair): Pair {
    FinalPermutation(Pair(RotateLeft(p.l), RotateLeft(p.r)))
  }

  lemma InitialBits(p: Pair, i: bv64)
    requires i < 64
    ensures BlockBit(Ip(p), i) == BlockBit(p, IpIndex(i))
  {
  }

  lemma FinalBits(p: Pair, i: bv64)
    requires i < 64
    ensures BlockBit(Fp(p), i) == BlockBit(p, FpIndex(i))
  {
  }

  // ---- the round function -----------------------------------------------------------------------------------

  /** Entry x of an S-box with these four rows of sixteen digits: outer bits choose the row, inner ones the column. */
  function Entry(row0: bv64, row1: bv64, row2: bv64, row3: bv64, x: bv6): (e: bv32)
    ensures e | 15 == 15
  {
    var row := if x & 32 == 0 then (if x & 1 == 0 then row0 else row1) else (if x & 1 == 0 then row2 else row3);
    ((row >> (60 - ((((x >> 1) & 15) as bv64) << 2))) & 15) as bv32
  }

  function S1(x: bv6): (e: bv32)
    ensures e | 15 == 15
  {
    Entry(0xE4D12FB83A6C5907, 0x0F74E2D1A6CB9538, 0x41E8D62BFC973A50, 0xFC8249175B3EA06D, x)
  }

  function S2(x: bv6): (e: bv32)
    ensures e | 15 == 15
  {
    Entry(0xF18E6B34972DC05A, 0x3D47F28EC01A69B5, 0x0E7BA4D158C6932F, 0xD8A13F42B67C05E9, x)
  }

  function S3(x: bv6): (e: bv32)
    ensures e | 15 == 15
  {
    Entry(0xA09E63F51DC7B428, 0xD709346A285ECBF1, 0xD6498F30B12C5AE7, 0x1AD069874FE3B52C, x)
  }

  function S4(x: bv6): (e: bv32)
    ensures e | 15 == 15
  {
    Entry(0x7DE3069A1285BC4F, 0xD8B56F03472C1AE9, 0xA690CB7DF13E5284, 0x3F06A1D8945BC72E, x)
  }

  function S5(x: bv6): (e: bv32)
    ensures e | 15 == 15
  {
    Entry(0x2C417AB6853FD0E9, 0xEB2C47D150FA3986, 0x421BAD78F9C5630E, 0xB8C71E2D6F09A453, x)
  }

  function S6(x: bv6): (e: bv32)
    ensures e | 15 == 15
  {
    Entry(0xC1AF92680D34E75B, 0xAF427C9561DE0B38, 0x9EF528C3704A1DB6, 0x432C95FABE17608D, x)
  }

  function S7(x: bv6): (e: bv32)
    ensures e | 15 == 15
  {
    Entry(0x4B2EF08D3C975A61, 0xD0B7491AE35C2F86, 0x14BDC37EAF680592, 0x6BD814A7950FE23C, x)
  }

  function S8(x: bv6): (e: bv32)
    ensures e | 15 == 15
  {
    Entry(0xD2846FB1A93E50C7, 0x1FD8A374C56B0E92, 0x7B419CE206ADF358, 0x21E74A8DFC90356B, x)
  }

  /** The permutation P: output bit i is the i-th entry of its table, 16, 7, 20, 21 and so on. */
  function P(c: bv32): bv32 {
    (((c >> 16) & 1) << 31) | (((c >> 25) & 1) << 30) | (((c >> 12) & 1) << 29) | (((c >> 11) & 1) << 28) |
    (((c >> 3) & 1) << 27) | (((c >> 20) & 1) << 26) | (((c >> 4) & 1) << 25) | (((c >> 15) & 1) << 24) |
    (((c >> 31) & 1) << 23) | (((c >> 17) & 1) << 22) | (((c >> 9) & 1) << 21) | (((c >> 6) & 1) << 20) |
    (((c >> 27) & 1) << 19) | (((c >> 14) & 1) << 18) | (((c >> 1) & 1) << 17) | (((c >> 22) & 1) << 16) |
    (((c >> 30) & 1) << 15) | (((c >> 24) & 1) << 14) | (((c >> 8) & 1) << 13) | (((c >> 18) & 1) << 12) |
    (((c >> 0) & 1) << 11) | (((c >> 5) & 1) << 10) | (((c >> 29) & 1) << 9) | (((c >> 23) & 1) << 8) |
    (((c >> 13) & 1) << 7) | (((c >> 19) & 1) << 6) | (((c >> 2) & 1) << 5) | (((c >> 26) & 1) << 4) |
    (((c >> 10) & 1) << 3) | (((c >> 21) & 1) << 2) | (((c >> 28) & 1) << 1) | (((c >> 7) & 1) << 0)
  }

  /** Eight digits of four bits. */
  function Digits(a: bv32, b: bv32, c: bv32, d: bv32, e: bv32, f: bv32, g: bv32, h: bv32): bv32 {
    (a << 28) | (b << 24) | (c << 20) | (d << 16) | (e << 12) | (f << 8) | (g << 4) | h
  }

  /** A digit at its place, permuted and rotated. */
  function Moved(e: bv32, n: bv32): bv32
    requires n < 32
  {
    RotateLeft(P(e << n))
  }

  /** Group n of the expansion E, from 0 on: bits 4n to 4n + 5 of the half, counted from 1 and around its ends. */
  function E(r: bv32, n: bv32): bv6
    requires n < 8
  {
    (RBit(r, 4 * n + 31) << 5) | (RBit(r, 4 * n) << 4) | (RBit(r, 4 * n + 1) << 3) | (RBit(r, 4 * n + 2) << 2)
    | (RBit(r, 4 * n + 3) << 1) | RBit(r, 4 * n + 4)
  }

  /** Bit i of a half, the first on top, the index taken modulo 32. */
  function RBit(r: bv32, i: bv32): bv6 {
    ((r >> (31 - (i & 31))) & 1) as bv6
  }

  lemma Sbox1Is(x: bv6)
    ensures Sbox1(x) == Moved(S1(x), 28)
  {
    if x & 32 == 0 {
      if x & 16 == 0 {
        assert Sbox1(x) == Moved(S1(x), 28);
      } else {
        assert Sbox1(x) == Moved(S1(x), 28);
      }
    } else {
      if x & 16 == 0 {
        assert Sbox1(x) == Moved(S1(x), 28);
      } else {
        assert Sbox1(x) == Moved(S1(x), 28);
      }
    }
  }

  lemma Sbox2Is(x: bv6)
    ensures Sbox2(x) == Moved(S2(x), 24)
  {
    if x & 32 == 0 {
      if x & 16 == 0 {
        assert Sbox2(x) == Moved(S2(x), 24);
      } else {
        assert Sbox2(x) == Moved(S2(x), 24);
      }
    } else {
      if x & 16 == 0 {
        assert Sbox2(x) == Moved(S2(x), 24);
      } else {
        assert Sbox2(x) == Moved(S2(x), 24);
      }
    }
  }

  lemma Sbox3Is(x: bv6)
    ensures Sbox3(x) == Moved(S3(x), 20)
  {
    if x & 32 == 0 {
      if x & 16 == 0 {
        assert Sbox3(x) == Moved(S3(x), 20);
      } else {
        assert Sbox3(x) == Moved(S3(x), 20);
      }
    } else {
      if x & 16 == 0 {
        assert Sbox3(x) == Moved(S3(x), 20);
      } else {
        assert Sbox3(x) == Moved(S3(x), 20);
      }
    }
  }

  lemma Sbox4Is(x: bv6)
    ensures Sbox4(x) == Moved(S4(x), 16)
  {
    if x & 32 == 0 {
      if x & 16 == 0 {
        assert Sbox4(x) == Moved(S4(x), 16);
      } else {
        assert Sbox4(x) == Moved(S4(x), 16);
      }
    } else {
      if x & 16 == 0 {
        assert Sbox4(x) == Moved(S4(x), 16);
      } else {
        assert Sbox4(x) == Moved(S4(x), 16);
      }
    }
  }

  lemma Sbox5Is(x: bv6)
    ensures Sbox5(x) == Moved(S5(x), 12)
  {
    if x & 32 == 0 {
      if x & 16 == 0 {
        assert Sbox5(x) == Moved(S5(x), 12);
      } else {
        assert Sbox5(x) == Moved(S5(x), 12);
      }
    } else {
      if x & 16 == 0 {
        assert Sbox5(x) == Moved(S5(x), 12);
      } else {
        assert Sbox5(x) == Moved(S5(x), 12);
      }
    }
  }

  lemma Sbox6Is(x: bv6)
    ensures Sbox6(x) == Moved(S6(x), 8)
  {
    if x & 32 == 0 {
      if x & 16 == 0 {
        assert Sbox6(x) == Moved(S6(x), 8);
      } else {
        assert Sbox6(x) == Moved(S6(x), 8);
      }
    } else {
      if x & 16 == 0 {
        assert Sbox6(x) == Moved(S6(x), 8);
      } else {
        assert Sbox6(x) == Moved(S6(x), 8);
      }
    }
  }

  lemma Sbox7Is(x: bv6)
    ensures Sbox7(x) == Moved(S7(x), 4)
  {
    if x & 32 == 0 {
      if x & 16 == 0 {
        assert Sbox7(x) == Moved(S7(x), 4);
      } else {
        assert Sbox7(x) == Moved(S7(x), 4);
      }
    } else {
      if x & 16 == 0 {
        assert Sbox7(x) == Moved(S7(x), 4);
      } else {
        assert Sbox7(x) == Moved(S7(x), 4);
      }
    }
  }

  lemma Sbox8Is(x: bv6)
    ensures Sbox8(x) == Moved(S8(x), 0)
  {
    if x & 32 == 0 {
      if x & 16 == 0 {
        assert Sbox8(x) == Moved(S8(x), 0);
      } else {
        assert Sbox8(x) == Moved(S8(x), 0);
      }
    } else {
      if x & 16 == 0 {
        assert Sbox8(x) == Moved(S8(x), 0);
      } else {
        assert Sbox8(x) == Moved(S8(x), 0);
      }
    }
  }

  // ---- the programs' round function is that of the standard ---------------------------------------------------

  /** The eight groups of a pair of subkey words. */
  function KeyGroups(even: bv32, odd: bv32): (k: seq<bv6>)
    ensures |k| == 8
  {
    [Index24(odd), Index24(even), Index16(odd), Index16(even), Index8(odd), Index8(even), Index(odd), Index(even)]
  }

  function Mix6(a: bv6, b: bv6): bv6 {
    a ^ b
  }

  lemma IndexXor(a: bv32, b: bv32)
    ensures Index(Mix(a, b)) == Mix6(Index(a), Index(b))
  {
  }

  lemma Index8Xor(a: bv32, b: bv32)
    ensures Index8(Mix(a, b)) == Mix6(Index8(a), Index8(b))
  {
  }

  lemma Index16Xor(a: bv32, b: bv32)
    ensures Index16(Mix(a, b)) == Mix6(Index16(a), Index16(b))
  {
  }

  lemma Index24Xor(a: bv32, b: bv32)
    ensures Index24(Mix(a, b)) == Mix6(Index24(a), Index24(b))
  {
  }

  lemma OddExpansion(r: bv32)
    ensures var w := Turn4(RotateLeft(r));
            Index24(w) == E(r, 0) && Index16(w) == E(r, 2) && Index8(w) == E(r, 4) && Index(w) == E(r, 6)
  {
  }

  lemma EvenExpansion(r: bv32)
    ensures var w := RotateLeft(r);
            Index24(w) == E(r, 1) && Index16(w) == E(r, 3) && Index8(w) == E(r, 5) && Index(w) == E(r, 7)
  {
  }

  /** The six bits that reach each S-box are a group of the expansion xored with six subkey bits. */
  lemma OddGroups(r: bv32, odd: bv32)
    ensures var w := Mix(Turn4(RotateLeft(r)), odd);
            && Index24(w) == Mix6(E(r, 0), Index24(odd)) && Index16(w) == Mix6(E(r, 2), Index16(odd))
            && Index8(w) == Mix6(E(r, 4), Index8(odd)) && Index(w) == Mix6(E(r, 6), Index(odd))
  {
    hide Turn4, RotateLeft, Index, Index8, Index16, Index24, E, Mix, Mix6;
    OddExpansion(r);
    IndexXor(Turn4(RotateLeft(r)), odd);
    Index8Xor(Turn4(RotateLeft(r)), odd);
    Index16Xor(Turn4(RotateLeft(r)), odd);
    Index24Xor(Turn4(RotateLeft(r)), odd);
  }

  lemma EvenGroups(r: bv32, even: bv32)
    ensures var w := Mix(RotateLeft(r), even);
            && Index24(w) == Mix6(E(r, 1), Index24(even)) && Index16(w) == Mix6(E(r, 3), Index16(even))
            && Index8(w) == Mix6(E(r, 5), Index8(even)) && Index(w) == Mix6(E(r, 7), Index(even))
  {
    hide RotateLeft, Index, Index8, Index16, Index24, E, Mix, Mix6;
    EvenExpansion(r);
    IndexXor(RotateLeft(r), even);
    Index8Xor(RotateLeft(r), even);
    Index16Xor(RotateLeft(r), even);
    Index24Xor(RotateLeft(r), even);
  }

  /** P and the rotation only move bits. */
  lemma Spread(a: bv32, b: bv32, c: bv32, d: bv32, e: bv32, f: bv32, g: bv32, h: bv32)
    requires a | 15 == 15 && b | 15 == 15 && c | 15 == 15 && d | 15 == 15
    requires e | 15 == 15 && f | 15 == 15 && g | 15 == 15 && h | 15 == 15
    ensures RotateLeft(P(Digits(a, b, c, d, e, f, g, h)))
         == Mix(Mix(Mix(Mix(Moved(h, 0), Moved(f, 8)), Moved(d, 16)), Moved(b, 24)),
                Mix(Mix(Mix(Moved(g, 4), Moved(e, 12)), Moved(c, 20)), Moved(a, 28)))
  {
  }

  /** The eight S-boxes and P. */
  function Substituted(a: bv6, b: bv6, c: bv6, d: bv6, e: bv6, f: bv6, g: bv6, h: bv6): bv32 {
    P(Digits(S1(a), S2(b), S3(c), S4(d), S5(e), S6(f), S7(g), S8(h)))
  }

  /** f of the standard: expansion, subkey, S-boxes, P. */
  function StandardF(r: bv32, k: seq<bv6>): bv32
    requires |k| == 8
  {
    Substituted(Mix6(E(r, 0), k[0]), Mix6(E(r, 1), k[1]), Mix6(E(r, 2), k[2]), Mix6(E(r, 3), k[3]),
                Mix6(E(r, 4), k[4]), Mix6(E(r, 5), k[5]), Mix6(E(r, 6), k[6]), Mix6(E(r, 7), k[7]))
  }

  /** The tables of the programs hold S-box, P and rotation at once. */
  lemma TablesSubstitute(a: bv6, b: bv6, c: bv6, d: bv6, e: bv6, f: bv6, g: bv6, h: bv6)
    ensures Mix(Mix(Mix(Mix(Sbox8(h), Sbox6(f)), Sbox4(d)), Sbox2(b)),
                Mix(Mix(Mix(Sbox7(g), Sbox5(e)), Sbox3(c)), Sbox1(a)))
         == RotateLeft(Substituted(a, b, c, d, e, f, g, h))
  {
    hide Sbox1, Sbox2, Sbox3, Sbox4, Sbox5, Sbox6, Sbox7, Sbox8, RotateLeft, S1, S2, S3, S4, S5, S6, S7, S8, P, Mix;
    hide Moved, Digits;
    Sbox1Is(a);
    Sbox2Is(b);
    Sbox3Is(c);
    Sbox4Is(d);
    Sbox5Is(e);
    Sbox6Is(f);
    Sbox7Is(g);
    Sbox8Is(h);
    Spread(S1(a), S2(b), S3(c), S4(d), S5(e), S6(f), S7(g), S8(h));
  }

  /** On halves rotated to the left, the round function of the programs is f, rotated to the left. */
  lemma RoundIsStandard(r: bv32, even: bv32, odd: bv32)
    ensures F(RotateLeft(r), even, odd) == RotateLeft(StandardF(r, KeyGroups(even, odd)))
  {
    hide Sbox1, Sbox2, Sbox3, Sbox4, Sbox5, Sbox6, Sbox7, Sbox8, Index, Index8, Index16, Index24, Turn4, RotateLeft;
    hide Substituted, E, Mix, Mix6;
    OddGroups(r, odd);
    EvenGroups(r, even);
    TablesSubstitute(Mix6(E(r, 0), Index24(odd)), Mix6(E(r, 1), Index24(even)),
                     Mix6(E(r, 2), Index16(odd)), Mix6(E(r, 3), Index16(even)),
                     Mix6(E(r, 4), Index8(odd)), Mix6(E(r, 5), Index8(even)),
                     Mix6(E(r, 6), Index(odd)), Mix6(E(r, 7), Index(even)));
  }

  // ---- the whole cipher -----------------------------------------------------------------------------------------

  /** Sixteen lists of eight key groups. */
  ghost predicate RoundKeys(ks: seq<seq<bv6>>) {
    |ks| == 16 && forall t :: 0 <= t < 16 ==> |ks[t]| == 8
  }

  function StandardRounds(ks: seq<seq<bv6>>, p: Pair, n: nat): Pair
    requires RoundKeys(ks) && n <= 16
  {
    if n == 0 then p
    else
      var q := StandardRounds(ks, p, n - 1);
      Pair(q.r, q.l ^ StandardF(q.r, ks[n - 1]))
  }

  /** DES under sixteen round keys: IP, sixteen rounds, the halves exchanged, the inverse of IP. */
  function StandardCipher(ks: seq<seq<bv6>>, p: Pair): Pair
    requires RoundKeys(ks)
  {
    Fp(Exchanged(StandardRounds(ks, Ip(p), 16)))
  }

  function GroupsOf(keys: seq<bv32>): (ks: seq<seq<bv6>>)
    requires |keys| == 32
    ensures RoundKeys(ks)
  {
    seq(16, t requires 0 <= t < 16 => KeyGroups(keys[2 * t], keys[2 * t + 1]))
  }

  function HalvesRotated(p: Pair): Pair {
    Pair(RotateLeft(p.l), RotateLeft(p.r))
  }

  lemma RotateXor(a: bv32, b: bv32)
    ensures Mix(RotateLeft(a), RotateLeft(b)) == RotateLeft(a ^ b)
  {
  }

  lemma {:induction false} RoundsAreStandard(keys: seq<bv32>, p: Pair, n: nat)
    requires |keys| == 32 && n <= 16
    ensures Rounds(keys, HalvesRotated(p), n) == HalvesRotated(StandardRounds(GroupsOf(keys), p, n))
  {
    hide F, StandardF, RotateLeft, KeyGroups, Mix;
    if n > 0 {
      RoundsAreStandard(keys, p, n - 1);
      var q, even, odd := StandardRounds(GroupsOf(keys), p, n - 1), keys[2 * n - 2], keys[2 * n - 1];
      RoundIsStandard(q.r, even, odd);
      RotateXor(q.l, StandardF(q.r, KeyGroups(even, odd)));
      assert GroupsOf(keys)[n - 1] == KeyGroups(even, odd);
    }
  }

  lemma RotatedBack(p: Pair)
    ensures HalvesRotated(Pair(RotateRight(p.l), RotateRight(p.r))) == p
  {
  }

  /** The cipher of the programs is DES under the groups of their subkey words. */
  lemma CipherIsStandard(keys: seq<bv32>, p: Pair)
    requires |keys| == 32
    ensures Cipher(keys, p) == StandardCipher(GroupsOf(keys), p)
  {
    hide Rounds, StandardRounds, InitialPermutation, FinalPermutation, RotateLeft, RotateRight, GroupsOf;
    RotatedBack(InitialPermutation(p));
    RoundsAreStandard(keys, Ip(p), 16);
  }

  // ---- the round keys ---------------------------------------------------------------------------------------------

  /** Six bits, the first on top. */
  function Six(a: bv32, b: bv32, c: bv32, d: bv32, e: bv32, f: bv32): bv6 {
    Index(((a & 1) << 5) | ((b & 1) << 4) | ((c & 1) << 3) | ((d & 1) << 2) | ((e & 1) << 1) | (f & 1))
  }

  /** The six bits of a round key that meet S-box n, from 0 on, chosen from the two registers by the table PC-2. */
  function Chosen(pcr: seq<bv32>, n: nat): bv6
    requires |pcr| == 56 && n < 8
  {
    Six(pcr[Pc2(6 * n)], pcr[Pc2(6 * n + 1)], pcr[Pc2(6 * n + 2)], pcr[Pc2(6 * n + 3)], pcr[Pc2(6 * n + 4)],
        pcr[Pc2(6 * n + 5)])
  }

  /** The round key: the key bits in the order of PC-1, each half turned by its total rotation, and PC-2 of them. */
  function RoundKey(key: seq<bv8>, t: nat): (k: seq<bv6>)
    requires |key| == 8 && t < 16
    ensures |k| == 8
  {
    seq(8, n requires 0 <= n < 8 => Chosen(Rotated(KeyBits(key, 56), t), n))
  }

  /** The round keys in the order encryption or decryption uses them. */
  function Schedule(key: seq<bv8>, decrypt: bool): (ks: seq<seq<bv6>>)
    requires |key| == 8
    ensures RoundKeys(ks)
  {
    seq(16, t requires 0 <= t < 16 => RoundKey(key, if decrypt then 15 - t else t))
  }

  /** DES of FIPS 46-3, on the eight bytes of a block. */
  function Standard(key: seq<bv8>, block: seq<bv8>, decrypt: bool): (out: seq<bv8>)
    requires |key| == 8 && |block| == 8
    ensures |out| == 8
  {
    WriteBlock(StandardCipher(Schedule(key, decrypt), ReadBlock(block)))
  }

  /** The four groups of half a round key. */
  function Quarters(w: bv32): (bv6, bv6, bv6, bv6) {
    (Index(w >> 18), Index(w >> 12), Index(w >> 6), Index(w))
  }

  lemma FirstChosen(pcr: seq<bv32>)
    requires |pcr| == 56
    ensures Quarters(FirstHalf(pcr)) == (Chosen(pcr, 0), Chosen(pcr, 1), Chosen(pcr, 2), Chosen(pcr, 3))
  {
  }

  lemma SecondChosen(pcr: seq<bv32>)
    requires |pcr| == 56
    ensures Quarters(SecondHalf(pcr)) == (Chosen(pcr, 4), Chosen(pcr, 5), Chosen(pcr, 6), Chosen(pcr, 7))
  {
  }

  lemma CookedGroups(r0: bv32, r1: bv32)
    ensures var a, b := Quarters(r0), Quarters(r1);
            KeyGroups(CookSecond(r0, r1), CookFirst(r0, r1)) == [a.0, a.1, a.2, a.3, b.0, b.1, b.2, b.3]
  {
  }

  lemma GroupsAreChosen(pcr: seq<bv32>)
    requires |pcr| == 56
    ensures var l, r := Word28(pcr[..28]), Word28(pcr[28..]);
            KeyGroups(EvenKey(l, r), OddKey(l, r)) == seq(8, n requires 0 <= n < 8 => Chosen(pcr, n))
  {
    hide KeyGroups, Chosen, FirstHalf, SecondHalf, EvenKey, OddKey, Word28, CookFirst, CookSecond, Quarters;
    CookedAreShifted(pcr);
    CookedGroups(FirstHalf(pcr), SecondHalf(pcr));
    FirstChosen(pcr);
    SecondChosen(pcr);
  }

  /** The subkey words of a round hold its round key. */
  lemma KeyGroupsAreChosen(key: seq<bv8>, t: nat)
    requires |key| == 8 && t < 16
    ensures KeyGroups(EvenKey(RoundLeft(key, t), RoundRight(key, t)), OddKey(RoundLeft(key, t), RoundRight(key, t)))
         == RoundKey(key, t)
  {
    hide KeyGroups, Chosen, EvenKey, OddKey, Word28, KeyBits, Totrot;
    var bits := KeyBits(key, 56);
    var pcr := Rotated(bits, t);
    assert pcr[..28] == Turned(bits[..28], Totrot(t)) && pcr[28..] == Turned(bits[28..], Totrot(t));
    GroupsAreChosen(pcr);
  }
}
