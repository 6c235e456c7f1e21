/** The programs: the key schedule and block function of libgcrypt's DES and of the DES of Applied Cryptography. */
module DesPrograms {
  import opened DesTables
  import opened DesKeys
  import opened Des
  import opened DesStandard

  // ---- libgcrypt -----------------------------------------------------------------------------------------

  /** des_key_schedule: registers that are rotated from round to round. */
  method DesKeySchedule(rawkey: seq<bv8>) returns (subkey: seq<bv32>)
    requires |rawkey| == 8
    ensures Scheduled(rawkey, subkey, 16)
  {
    hide Registers, Rotate28, EvenKey, OddKey, Word28, KeyBits, Totrot, RotateTab, LeftWord, RightWord;
    ghost var c, d := KeyBits(rawkey, 56)[..28], KeyBits(rawkey, 56)[28..];
    var registers := Registers(LeftWord(rawkey), RightWord(rawkey));
    RegistersAreKeyBits(rawkey);
    var left, right := registers.0, registers.1;
    Unturned(c);
    Unturned(d);
    subkey := [];
    ghost var turned := 0;
    for round := 0 to 16
      invariant turned == (if round == 0 then 0 else Totrot(round - 1)) && turned <= 28
      invariant left == Word28(Turned(c, turned)) && right == Word28(Turned(d, turned))
      invariant Scheduled(rawkey, subkey, round)
    {
      RotationsAddUp(round);
      TurnedBy(c, turned, RotateTab(round));
      TurnedBy(d, turned, RotateTab(round));
      turned := Totrot(round);
      left := Rotate28(left, RotateTab(round));
      right := Rotate28(right, RotateTab(round));
      subkey := subkey + [EvenKey(left, right), OddKey(left, right)];
    }
  }

  lemma Unturned(s: seq<bv32>)
    ensures Turned(s, 0) == s
  {
  }

  /** The subkeys of both directions. */
  class DesContext {
    var encryptSubkeys: seq<bv32>
    var decryptSubkeys: seq<bv32>

    constructor ()
      ensures encryptSubkeys == [] && decryptSubkeys == []
    {
      encryptSubkeys, decryptSubkeys := [], [];
    }

    ghost predicate KeyedWith(key: seq<bv8>)
      reads this
      requires |key| == 8
    {
      Scheduled(key, encryptSubkeys, 16) && decryptSubkeys == PairsReversed(encryptSubkeys)
    }

    /** des_setkey */
    method SetKey(key: seq<bv8>)
      requires |key| == 8
      modifies this
      ensures KeyedWith(key)
    {
      hide Scheduled, PairsReversed;
      encryptSubkeys := DesKeySchedule(key);
      ScheduledLength(key, encryptSubkeys);
      var reversed := [];
      var i := 0;
      while i < 32
        invariant 0 <= i <= 32 && i % 2 == 0 && |reversed| == i
        invariant forall k :: 0 <= k < i ==> reversed[k] == PairsReversed(encryptSubkeys)[k]
      {
        assert i == 2 * (i / 2) && PairsReversed(encryptSubkeys)[2 * (i / 2)] == encryptSubkeys[30 - i];
        assert PairsReversed(encryptSubkeys)[2 * (i / 2) + 1] == encryptSubkeys[31 - i];
        reversed := reversed + [encryptSubkeys[30 - i], encryptSubkeys[31 - i]];
        i := i + 2;
      }
      decryptSubkeys := reversed;
    }

    /** des_ecb_crypt; mode 0 encrypts, any other mode decrypts. */
    method EcbCrypt(from: seq<bv8>, mode: int) returns (to: seq<bv8>)
      requires |from| == 8 && |encryptSubkeys| == 32 == |decryptSubkeys|
      ensures to == WriteBlock(Cipher(if mode != 0 then decryptSubkeys else encryptSubkeys, ReadBlock(from)))
      ensures var keys := if mode != 0 then decryptSubkeys else encryptSubkeys;
              to == WriteBlock(StandardCipher(GroupsOf(keys), ReadBlock(from)))
    {
      hide Round, InitialPermutation, FinalPermutation, WriteBlock, ReadBlock, StandardCipher, GroupsOf;
      CipherIsStandard(if mode != 0 then decryptSubkeys else encryptSubkeys, ReadBlock(from));
      var keys := if mode != 0 then decryptSubkeys else encryptSubkeys;
      var p := InitialPermutation(ReadBlock(from));
      var left, right := p.l, p.r;
      left, right := TwoRounds(keys, 0, left, right, p);
      left, right := TwoRounds(keys, 2, left, right, p);
      left, right := TwoRounds(keys, 4, left, right, p);
      left, right := TwoRounds(keys, 6, left, right, p);
      left, right := TwoRounds(keys, 8, left, right, p);
      left, right := TwoRounds(keys, 10, left, right, p);
      left, right := TwoRounds(keys, 12, left, right, p);
      left, right := TwoRounds(keys, 14, left, right, p);
      to := WriteBlock(FinalPermutation(Pair(right, left)));
    }
  }

  lemma ScheduledLength(key: seq<bv8>, keys: seq<bv32>)
    requires |key| == 8 && Scheduled(key, keys, 16)
    ensures |keys| == 32
  {
  }

  /** Two DES_ROUNDs, the halves swapping roles instead of places. */
  method TwoRounds(keys: seq<bv32>, n: nat, left0: bv32, right0: bv32, ghost p: Pair) returns (left: bv32, right: bv32)
    requires |keys| == 32 && n % 2 == 0 && n + 2 <= 16 && Rounds(keys, p, n) == Pair(left0, right0)
    ensures Rounds(keys, p, n + 2) == Pair(left, right)
  {
    hide F, Rounds, Mix;
    left := DesRound(right0, left0, keys[2 * n], keys[2 * n + 1]);
    NextRound(keys, p, n, left0, right0);
    right := DesRound(left, right0, keys[2 * n + 2], keys[2 * n + 3]);
    NextRound(keys, p, n + 1, right0, left);
  }

  lemma NextRound(keys: seq<bv32>, p: Pair, n: nat, l: bv32, r: bv32)
    requires |keys| == 32 && n < 16 && Rounds(keys, p, n) == Pair(l, r)
    ensures Rounds(keys, p, n + 1) == Pair(r, Mix(l, F(r, keys[2 * n], keys[2 * n + 1])))
  {
    hide F, Mix;
  }

  /** DES_ROUND: eight S-box outputs xored in, one after the other. */
  method DesRound(from: bv32, to0: bv32, even: bv32, odd: bv32) returns (to: bv32)
    ensures to == Mix(to0, F(from, even, odd))
    ensures RotateRight(to) == Mix(RotateRight(to0), StandardF(RotateRight(from), KeyGroups(even, odd)))
  {
    hide F, StandardF, KeyGroups, RotateLeft, RotateRight;
    to := XorBoxes(from, to0, even, odd);
    RoundUnrotated(from, to0, even, odd);
  }

  /** On the rotated halves, the step is that of the standard. */
  lemma RoundUnrotated(from: bv32, to0: bv32, even: bv32, odd: bv32)
    ensures RotateRight(Mix(to0, F(from, even, odd)))
         == Mix(RotateRight(to0), StandardF(RotateRight(from), KeyGroups(even, odd)))
  {
    hide F, StandardF, KeyGroups, RotateLeft, RotateRight, Mix;
    var f := StandardF(RotateRight(from), KeyGroups(even, odd));
    RotatedOnce(from);
    RoundIsStandard(RotateRight(from), even, odd);
    RightXor(to0, f);
  }

  lemma RotatedOnce(w: bv32)
    ensures RotateLeft(RotateRight(w)) == w
  {
  }

  lemma RightXor(a: bv32, f: bv32)
    ensures RotateRight(Mix(a, RotateLeft(f))) == Mix(RotateRight(a), f)
  {
  }

  method XorBoxes(from: bv32, to0: bv32, even: bv32, odd: bv32) returns (to: bv32)
    ensures to == Mix(to0, F(from, even, odd))
  {
    hide Sbox1, Sbox2, Sbox3, Sbox4, Sbox5, Sbox6, Sbox7, Sbox8, Index, Index8, Index16, Index24, Turn4, Mix;
    var work := Mix(from, even);
    to := Mix(to0, Sbox8(Index(work)));
    to := Mix(to, Sbox6(Index8(work)));
    to := Mix(to, Sbox4(Index16(work)));
    to := Mix(to, Sbox2(Index24(work)));
    var turned := Mix(Turn4(from), odd);
    to := Mix(to, Sbox7(Index(turned)));
    to := Mix(to, Sbox5(Index8(turned)));
    to := Mix(to, Sbox3(Index16(turned)));
    to := Mix(to, Sbox1(Index24(turned)));
    MixOneByOne(to0, Sbox8(Index(work)), Sbox6(Index8(work)), Sbox4(Index16(work)), Sbox2(Index24(work)),
                Sbox7(Index(turned)), Sbox5(Index8(turned)), Sbox3(Index16(turned)), Sbox1(Index24(turned)));
  }

  // ---- Applied Cryptography ------------------------------------------------------------------------------

  /** Which place in the schedule round t goes to. */
  function Place(t: nat, decrypt: bool): nat
    requires t < 16
  {
    if decrypt then 15 - t else t
  }

  /** The key bits, one array element each. */
  method ChooseBits(key: seq<bv8>) returns (pc1m: seq<bv32>)
    requires |key| == 8
    ensures pc1m == KeyBits(key, 56)
  {
    hide Pc1, ByteBit;
    pc1m := [];
    for j := 0 to 56
      invariant |pc1m| == j && forall i :: 0 <= i < j ==> pc1m[i] == KeyBit(key, Pc1(i))
    {
      var l := Pc1(j);
      var m := l % 8;
      pc1m := pc1m + [if key[l / 8] & ByteBit(m) != 0 then 1 else 0];
    }
  }

  /** Both halves turned by the total rotation of the round. */
  method RotateBits(pc1m: seq<bv32>, t: nat) returns (pcr: seq<bv32>)
    requires |pc1m| == 56 && t < 16
    ensures pcr == Rotated(pc1m, t)
  {
    hide Totrot;
    pcr := [];
    for j := 0 to 28
      invariant |pcr| == j && forall i :: 0 <= i < j ==> pcr[i] == Rotated(pc1m, t)[i]
    {
      var l := j + Totrot(t);
      pcr := pcr + [if l < 28 then pc1m[l] else pc1m[l - 28]];
    }
    for j := 28 to 56
      invariant |pcr| == j && forall i :: 0 <= i < j ==> pcr[i] == Rotated(pc1m, t)[i]
    {
      var l := j + Totrot(t);
      pcr := pcr + [if l < 56 then pc1m[l] else pc1m[l - 28]];
    }
  }

  function OrShifted(kn: bv32, v: bv32, j: nat): bv32
    requires j < 24
  {
    kn | Shifted(v, j)
  }

  /** Or-ing in the bit of a set register bit. */
  lemma OrPicked(kn: bv32, v: bv32, j: nat)
    requires j < 24 && (v == 0 || v == 1)
    ensures (if v != 0 then kn | BigByte(j) else kn) == OrShifted(kn, v, j)
  {
    BigByteIsShift(j);
    if v == 0 {
      ShiftedZero(Down24(j));
    }
  }

  lemma ShiftedZero(n: bv32)
    requires n < 32
    ensures (0 as bv32) << n == 0
  {
  }

  lemma GatherShifted(pcr: seq<bv32>, off: nat, j: nat, kn: bv32)
    requires |pcr| == 56 && (off == 0 || off == 24) && j < 24 && kn == Gathered(pcr, off, j)
    ensures Gathered(pcr, off, j + 1) == OrShifted(kn, pcr[Pc2(off + j)], j)
  {
    hide Pc2, Shifted;
  }

  lemma GatherNext(pcr: seq<bv32>, off: nat, j: nat, kn: bv32)
    requires |pcr| == 56 && (off == 0 || off == 24) && j < 24 && kn == Gathered(pcr, off, j)
    requires forall i :: 0 <= i < 56 ==> pcr[i] == 0 || pcr[i] == 1
    ensures Gathered(pcr, off, j + 1) == if pcr[Pc2(off + j)] != 0 then kn | BigByte(j) else kn
  {
    hide Pc2, BigByte, OrShifted;
    GatherShifted(pcr, off, j, kn);
    OrPicked(kn, pcr[Pc2(off + j)], j);
  }

  /** The two halves of a subkey, bit by bit. */
  method GatherHalves(pcr: seq<bv32>) returns (m: bv32, n: bv32)
    requires |pcr| == 56 && forall j :: 0 <= j < 56 ==> pcr[j] == 0 || pcr[j] == 1
    ensures m == Gathered(pcr, 0, 24) && n == Gathered(pcr, 24, 24)
  {
    hide Pc2, BigByte, Down24, Gathered, Picked;
    m, n := 0, 0;
    GatheredNone(pcr, 0);
    GatheredNone(pcr, 24);
    for j := 0 to 24
      invariant m == Gathered(pcr, 0, j) && n == Gathered(pcr, 24, j)
    {
      GatherNext(pcr, 0, j, m);
      GatherNext(pcr, 24, j, n);
      if pcr[Pc2(j)] != 0 {
        m := m | BigByte(j);
      }
      if pcr[Pc2(j + 24)] != 0 {
        n := n | BigByte(j);
      }
    }
  }

  /** What deskey leaves in the key register: cooked pairs, in encryption or decryption order. */
  ghost predicate Cooked(key: seq<bv8>, knl: seq<bv32>, decrypt: bool)
    requires |key| == 8
  {
    |knl| == 32 && forall t :: 0 <= t < 16 ==>
      && knl[2 * Place(t, decrypt)] == OddKey(RoundLeft(key, t), RoundRight(key, t))
      && knl[2 * Place(t, decrypt) + 1] == EvenKey(RoundLeft(key, t), RoundRight(key, t))
  }

  /** The raw halves of the first n subkeys, at their places. */
  ghost predicate RawKeys(bits: seq<bv32>, kn: seq<bv32>, n: nat, decrypt: bool)
    requires |bits| == 56 && |kn| == 32 && n <= 16
  {
    forall t :: 0 <= t < n ==>
      && kn[2 * Place(t, decrypt)] == Gathered(Rotated(bits, t), 0, 24)
      && kn[2 * Place(t, decrypt) + 1] == Gathered(Rotated(bits, t), 24, 24)
  }

  lemma RotatedBits(bits: seq<bv32>, t: nat)
    requires |bits| == 56 && t < 16 && forall j :: 0 <= j < 56 ==> bits[j] == 0 || bits[j] == 1
    ensures forall j :: 0 <= j < 56 ==> Rotated(bits, t)[j] == 0 || Rotated(bits, t)[j] == 1
  {
    hide Totrot;
  }

  class KeyRegister {
    var knl: seq<bv32>

    constructor ()
      ensures |knl| == 32
    {
      knl := seq(32, _ => 0);
    }

    /** deskey */
    method DesKey(key: seq<bv8>, decrypt: bool)
      requires |key| == 8
      modifies this
      ensures Cooked(key, knl, decrypt)
    {
      hide KeyBits, Gathered, CookFirst, CookSecond, OddKey, EvenKey, RoundLeft, RoundRight, Rotated;
      var pc1m := ChooseBits(key);
      BitsAreBits(key);
      var kn: seq<bv32> := seq(32, _ => 0);
      for i := 0 to 16
        invariant |kn| == 32 && RawKeys(pc1m, kn, i, decrypt)
      {
        var m := if decrypt then (15 - i) * 2 else i * 2;
        var n := m + 1;
        var pcr := RotateBits(pc1m, i);
        RotatedBits(pc1m, i);
        var first, second := GatherHalves(pcr);
        kn := kn[m := first][n := second];
      }
      CooKey(kn);
      forall t | 0 <= t < 16
        ensures knl[2 * Place(t, decrypt)] == OddKey(RoundLeft(key, t), RoundRight(key, t))
        ensures knl[2 * Place(t, decrypt) + 1] == EvenKey(RoundLeft(key, t), RoundRight(key, t)) {
        RoundCooked(key, t);
      }
    }

    /** cookey, and usekey at its end. */
    method CooKey(raw: seq<bv32>)
      requires |raw| == 32
      modifies this
      ensures |knl| == 32 && forall i :: 0 <= i < 16 ==>
        && knl[2 * i] == CookFirst(raw[2 * i], raw[2 * i + 1])
        && knl[2 * i + 1] == CookSecond(raw[2 * i], raw[2 * i + 1])
    {
      hide CookFirst, CookSecond;
      var dough := [];
      for i := 0 to 16
        invariant |dough| == 2 * i
        invariant forall t :: 0 <= t < i ==>
          && dough[2 * t] == CookFirst(raw[2 * t], raw[2 * t + 1])
          && dough[2 * t + 1] == CookSecond(raw[2 * t], raw[2 * t + 1])
      {
        var raw0, raw1 := raw[2 * i], raw[2 * i + 1];
        dough := dough + [CookFirst(raw0, raw1), CookSecond(raw0, raw1)];
      }
      knl := dough;
    }

    /** des: one block under the key register. */
    method Crypt(inblock: seq<bv8>) returns (outblock: seq<bv8>)
      requires |inblock| == 8 && |knl| == 32
      ensures outblock == WriteBlock(Cipher(PairsSwapped(knl), ReadBlock(inblock)))
      ensures outblock == WriteBlock(StandardCipher(GroupsOf(PairsSwapped(knl)), ReadBlock(inblock)))
    {
      hide WriteBlock, ReadBlock, PairsSwapped, Cipher, StandardCipher, GroupsOf;
      var work := DesFunc(knl, ReadBlock(inblock));
      outblock := WriteBlock(work);
    }
  }

  lemma BitsAreBits(key: seq<bv8>)
    requires |key| == 8
    ensures forall j :: 0 <= j < 56 ==> KeyBits(key, 56)[j] == 0 || KeyBits(key, 56)[j] == 1
  {
    hide Pc1, ByteBit;
  }

  /** The cooked halves of round t are the shifted registers, the other way round. */
  lemma RoundCooked(key: seq<bv8>, t: nat)
    requires |key| == 8 && t < 16
    ensures var pcr := Rotated(KeyBits(key, 56), t);
            && CookFirst(Gathered(pcr, 0, 24), Gathered(pcr, 24, 24)) == OddKey(RoundLeft(key, t), RoundRight(key, t))
            && CookSecond(Gathered(pcr, 0, 24), Gathered(pcr, 24, 24)) == EvenKey(RoundLeft(key, t), RoundRight(key, t))
  {
    hide Gathered, CookFirst, CookSecond, OddKey, EvenKey, Word28, FirstHalf, SecondHalf, KeyBits, Totrot;
    var bits := KeyBits(key, 56);
    var pcr := Rotated(bits, t);
    assert pcr[..28] == Turned(bits[..28], Totrot(t)) && pcr[28..] == Turned(bits[28..], Totrot(t));
    GatheredHalves(pcr);
    CookedAreShifted(pcr);
  }

  /** desfunc: eight times two rounds, S-box outputs or-ed together. */
  method DesFunc(keys: seq<bv32>, block: Pair) returns (out: Pair)
    requires |keys| == 32
    ensures out == Cipher(PairsSwapped(keys), block)
    ensures out == StandardCipher(GroupsOf(PairsSwapped(keys)), block)
  {
    hide Round, InitialPermutation, FinalPermutation, PairsSwapped, StandardCipher, GroupsOf;
    CipherIsStandard(PairsSwapped(keys), block);
    ghost var pairs, p := PairsSwapped(keys), InitialPermutation(block);
    var start := InitialPermutation(block);
    var leftt, right := start.l, start.r;
    RoundsNone(pairs, p);
    for round := 0 to 8
      invariant Rounds(pairs, p, 2 * round) == Pair(leftt, right)
    {
      leftt, right := TwoOrRounds(keys, 2 * round, leftt, right, p);
    }
    out := FinalPermutation(Pair(right, leftt));
  }

  method TwoOrRounds(keys: seq<bv32>, n: nat, left0: bv32, right0: bv32, ghost p: Pair)
      returns (left: bv32, right: bv32)
    requires |keys| == 32 && n % 2 == 0 && n + 2 <= 16 && Rounds(PairsSwapped(keys), p, n) == Pair(left0, right0)
    ensures Rounds(PairsSwapped(keys), p, n + 2) == Pair(left, right)
  {
    hide F, Rounds, PairsSwapped, Mix;
    ghost var pairs := PairsSwapped(keys);
    assert pairs[2 * n] == keys[2 * n + 1] && pairs[2 * n + 1] == keys[2 * n];
    assert pairs[2 * (n + 1)] == keys[2 * n + 3] && pairs[2 * (n + 1) + 1] == keys[2 * n + 2];
    var fval := OrRound(right0, keys[2 * n], keys[2 * n + 1]);
    left := Mix(left0, fval);
    NextRound(pairs, p, n, left0, right0);
    fval := OrRound(left, keys[2 * n + 2], keys[2 * n + 3]);
    right := Mix(right0, fval);
    NextRound(pairs, p, n + 1, right0, left);
  }

  /** The round function with or: the odd S-boxes first, their subkey word first. */
  method OrRound(from: bv32, odd: bv32, even: bv32) returns (fval: bv32)
    ensures fval == F(from, even, odd)
  {
    hide Sbox1, Sbox2, Sbox3, Sbox4, Sbox5, Sbox6, Sbox7, Sbox8, Index, Index8, Index16, Index24;
    var v := Mix(Turn4(from), odd);
    fval := Sbox7(Index(v));
    fval := fval | Sbox5(Index8(v));
    fval := fval | Sbox3(Index16(v));
    fval := fval | Sbox1(Index24(v));
    var w := Mix(from, even);
    fval := fval | Sbox8(Index(w));
    fval := fval | Sbox6(Index8(w));
    fval := fval | Sbox4(Index16(w));
    fval := fval | Sbox2(Index24(w));
    BoxesOr(w, v);
  }

  // ---- the two together --------------------------------------------------------------------------------------

  /** The two key registers hold the same subkeys, with the words of each pair exchanged, in either direction. */
  lemma SameSchedule(key: seq<bv8>, subkeys: seq<bv32>, knl: seq<bv32>, decrypt: bool)
    requires |key| == 8 && Scheduled(key, subkeys, 16) && Cooked(key, knl, decrypt)
    ensures PairsSwapped(knl) == if decrypt then PairsReversed(subkeys) else subkeys
  {
    hide EvenKey, OddKey, RoundLeft, RoundRight, PairsSwapped, PairsReversed;
    var a, b := PairsSwapped(knl), if decrypt then PairsReversed(subkeys) else subkeys;
    forall t | 0 <= t < 16 ensures a[2 * t] == b[2 * t] && a[2 * t + 1] == b[2 * t + 1] {
      var s := Place(t, decrypt);
      assert Place(s, decrypt) == t;
      assert knl[2 * Place(s, decrypt)] == OddKey(RoundLeft(key, s), RoundRight(key, s));
    }
    forall i | 0 <= i < 32 ensures a[i] == b[i] {
      assert i == 2 * (i / 2) || i == 2 * (i / 2) + 1;
    }
  }

  /** The subkeys of a key in encryption order. */
  function Subkeys(key: seq<bv8>): (keys: seq<bv32>)
    requires |key| == 8
    ensures |keys| == 32
  {
    seq(32, i requires 0 <= i < 32 => if i % 2 == 0 then EvenKey(RoundLeft(key, i / 2), RoundRight(key, i / 2))
                                      else OddKey(RoundLeft(key, i / 2), RoundRight(key, i / 2)))
  }

  lemma ScheduleUnique(key: seq<bv8>, keys: seq<bv32>)
    requires |key| == 8 && Scheduled(key, keys, 16)
    ensures keys == Subkeys(key)
  {
    hide EvenKey, OddKey, RoundLeft, RoundRight;
    forall i | 0 <= i < 32 ensures keys[i] == Subkeys(key)[i] {
      assert i == 2 * (i / 2) || i == 2 * (i / 2) + 1;
    }
  }

  /** DES on bytes: the cipher under the subkeys of the key, for decryption in reversed pairs. */
  function Crypted(key: seq<bv8>, block: seq<bv8>, decrypt: bool): (out: seq<bv8>)
    requires |key| == 8 && |block| == 8
    ensures |out| == 8
  {
    WriteBlock(Cipher(if decrypt then PairsReversed(Subkeys(key)) else Subkeys(key), ReadBlock(block)))
  }

  /** The subkey words hold the round keys of the standard, in either direction. */
  lemma SubkeysAreStandard(key: seq<bv8>, decrypt: bool)
    requires |key| == 8
    ensures GroupsOf(if decrypt then PairsReversed(Subkeys(key)) else Subkeys(key)) == Schedule(key, decrypt)
  {
    hide KeyGroups, RoundKey, Subkeys, PairsReversed;
    var keys := if decrypt then PairsReversed(Subkeys(key)) else Subkeys(key);
    forall t | 0 <= t < 16 ensures GroupsOf(keys)[t] == Schedule(key, decrypt)[t] {
      var u := if decrypt then 15 - t else t;
      assert keys[2 * t] == Subkeys(key)[2 * u] && keys[2 * t + 1] == Subkeys(key)[2 * u + 1];
      PairIsStandard(key, u);
    }
  }

  lemma PairIsStandard(key: seq<bv8>, t: nat)
    requires |key| == 8 && t < 16
    ensures KeyGroups(Subkeys(key)[2 * t], Subkeys(key)[2 * t + 1]) == RoundKey(key, t)
  {
    hide KeyGroups, EvenKey, OddKey, RoundLeft, RoundRight, RoundKey;
    assert 2 * t / 2 == t && (2 * t + 1) / 2 == t;
    KeyGroupsAreChosen(key, t);
  }

  /** What the programs compute is DES as FIPS 46-3 has it. */
  lemma CryptedIsStandard(key: seq<bv8>, block: seq<bv8>, decrypt: bool)
    requires |key| == 8 && |block| == 8
    ensures Crypted(key, block, decrypt) == Standard(key, block, decrypt)
  {
    hide WriteBlock, ReadBlock, PairsReversed, Cipher, Subkeys, StandardCipher, GroupsOf, Schedule;
    SubkeysAreStandard(key, decrypt);
    CipherIsStandard(if decrypt then PairsReversed(Subkeys(key)) else Subkeys(key), ReadBlock(block));
  }

  /** Under every key, decryption is the inverse of encryption. */
  lemma CryptedUndone(key: seq<bv8>, block: seq<bv8>)
    requires |key| == 8 && |block| == 8
    ensures Crypted(key, Crypted(key, block, false), true) == block
  {
    hide WriteBlock, ReadBlock, PairsReversed, Cipher, Subkeys;
    ReadWrite(Cipher(Subkeys(key), ReadBlock(block)));
    CipherUndone(Subkeys(key), ReadBlock(block));
    WriteRead(block);
  }

  /** Both implementations, encrypting and decrypting, from the key on: the same bytes, those of the standard. */
  method BothCrypt(key: seq<bv8>, block: seq<bv8>, decrypt: bool) returns (x: seq<bv8>, y: seq<bv8>)
    requires |key| == 8 && |block| == 8
    ensures x == y == Standard(key, block, decrypt)
  {
    hide WriteBlock, ReadBlock, PairsSwapped, PairsReversed, Cipher, Scheduled, Cooked, Subkeys, Standard;
    hide StandardCipher, GroupsOf;
    CryptedIsStandard(key, block, decrypt);
    var context := new DesContext();
    context.SetKey(key);
    ScheduleUnique(key, context.encryptSubkeys);
    x := context.EcbCrypt(block, if decrypt then 1 else 0);
    var register := new KeyRegister();
    register.DesKey(key, decrypt);
    SameSchedule(key, context.encryptSubkeys, register.knl, decrypt);
    CookedLength(key, register.knl, decrypt);
    y := register.Crypt(block);
  }

  lemma CookedLength(key: seq<bv8>, knl: seq<bv32>, decrypt: bool)
    requires |key| == 8 && Cooked(key, knl, decrypt)
    ensures |knl| == 32
  {
  }

  /** des_ecb_crypt in mode 1 undoes mode 0 under every key. */
  method RoundTrip(context: DesContext, block: seq<bv8>, ghost key: seq<bv8>) returns (sent: seq<bv8>, back: seq<bv8>)
    requires |block| == 8 && |key| == 8 && context.KeyedWith(key)
    ensures sent == Standard(key, block, false) && back == Standard(key, sent, true) == block
  {
    hide WriteBlock, ReadBlock, PairsReversed, Cipher, Scheduled, Subkeys, Standard, StandardCipher, GroupsOf;
    ScheduleUnique(key, context.encryptSubkeys);
    sent := context.EcbCrypt(block, 0);
    back := context.EcbCrypt(sent, 1);
    CryptedUndone(key, block);
    CryptedIsStandard(key, block, false);
    CryptedIsStandard(key, sent, true);
  }
}
