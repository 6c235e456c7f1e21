/** tls1_cbc_remove_padding without the padding-bug option and for ciphers that are not AEAD. */
module RemovePadding {
  import opened Bits
  import opened ConstantTime

  /** SSL3_RECORD: data and input are offsets into one buffer. */
  class Record {
    const buffer: seq<Byte>
    var data: nat
    var input: nat
    var length: nat
    var kind: Word

    constructor (buffer: seq<Byte>, kind: Word)
      ensures this.buffer == buffer && data == 0 && input == 0 && length == |buffer| && this.kind == kind
    {
      this.buffer, data, input, length, this.kind := buffer, 0, 0, |buffer|, kind;
    }

    ghost predicate Valid()
      reads this
    {
      data + length <= |buffer| < 0x8000_0000
    }

    /** The bytes of the record. */
    ghost function Bytes(): (s: seq<Byte>)
      reads this
      requires Valid()
      ensures |s| == length
    {
      buffer[data..data + length]
    }
  }

  // ---- what is checked --------------------------------------------------------------------------------

  function Min(a: nat, b: nat): nat {
    if a <= b then a else b
  }

  /** The last n bytes all equal p. */
  ghost predicate TrailingBytes(s: seq<Byte>, n: nat, p: Byte)
    requires n <= |s|
  {
    forall k :: |s| - n <= k < |s| ==> s[k] == p
  }

  /** Room for the MAC and the padding, and as many padding bytes right as the scan looks at. */
  ghost predicate Accepted(s: seq<Byte>, macSize: nat)
    requires |s| > 0
  {
    var p := s[|s| - 1];
    |s| >= macSize + 1 + p && TrailingBytes(s, Min(p as int + 1, Min(255, |s| - 1)), p)
  }

  /** The padding of section 6.2.3.2 of RFC 5246: padding_length bytes and the length byte itself, all equal. */
  ghost predicate WellPadded(s: seq<Byte>, macSize: nat)
    requires |s| > 0
  {
    var p := s[|s| - 1];
    |s| >= macSize + 1 + p && TrailingBytes(s, p as int + 1, p)
  }

  /** The check is that of the standard when at most 255 bytes of padding end before the first byte. */
  lemma AcceptedIsWellPadded(s: seq<Byte>, macSize: nat)
    requires |s| > 0 && macSize >= 1 && s[|s| - 1] <= 254
    ensures Accepted(s, macSize) <==> WellPadded(s, macSize)
  {
  }

  /** For which lengths and padding lengths the scan looks at every padding byte. */
  lemma ScanCompleteExactlyWhen(len: nat, p: Byte, macSize: nat)
    requires len > 0
    ensures (forall s: seq<Byte> ::
        |s| == len && s[len - 1] == p ==> (Accepted(s, macSize) <==> WellPadded(s, macSize)))
       <==> (len < macSize + 1 + p || p == 0 || p + 1 <= Min(255, len - 1))
  {
    if len >= macSize + 1 + p && p > 0 && p + 1 > Min(255, len - 1) {
      var s: seq<Byte> := seq(len, i requires 0 <= i < len => if i == len - 1 - p then 0 else p);
      assert s[len - 1] == p && s[len - 1 - p] != p;
      assert Accepted(s, macSize) && !WellPadded(s, macSize);
    } else if len >= macSize + 1 + p {
      forall s: seq<Byte> | |s| == len && s[len - 1] == p ensures Accepted(s, macSize) <==> WellPadded(s, macSize) {
        if p == 0 {
          assert TrailingBytes(s, 1, 0);
        }
      }
    }
  }

  // ---- masks --------------------------------------------------------------------------------------------

  lemma LowByteAnd(a: Word, b: Word)
    ensures And(a, b) % 256 == 255 <==> a % 256 == 255 && b % 256 == 255
  {
    hide And;
    AndLow(a, b, 8, 256);
    Pow2Words();
    ByteMasks(a % 256);
    ByteMasks(b % 256);
  }

  lemma LowByte(a: Word)
    ensures And(a, 0xff) == a % 256
  {
    Pow2Words();
    LowBits(a, 8, 256);
  }

  lemma {:induction false} LowBits(a: nat, k: nat, p: nat)
    requires p == Pow2(k)
    ensures And(a, p - 1) == a % p
    decreases k
  {
    if k > 0 {
      LowBits(a / 2, k - 1, p / 2);
      LowHalf(a, k, p);
      assert a != 0 && p > 1 ==> And(a, p - 1) == a % 2 + 2 * And(a / 2, p / 2 - 1);
    }
  }

  lemma Wrong(padding: Byte, i: Word, b: Byte, wrong: Byte)
    requires wrong == And(Mask8(padding >= i), XorByte(padding, b))
    ensures wrong == 0 <==> (padding >= i ==> b == padding)
  {
    hide And, Xor;
    XorEqual(padding, b);
    ByteMasks(XorByte(padding, b));
  }

  /** good &= ~(mask & (padding_length ^ b)): the low byte stays all ones only if b is right or not looked at. */
  method CheckByte(good: Word, padding: Byte, i: Word, b: Byte) returns (r: Word)
    ensures r % 256 == 255 <==> good % 256 == 255 && (padding >= i ==> b == padding)
  {
    hide And, Xor, Ge8, XorByte;
    GeMask(padding, i);
    var wrong: Byte := And(Ge8(padding, i), XorByte(padding, b));
    Wrong(padding, i, b, wrong);
    LowByteAnd(good, Not(wrong));
    r := AndW(good, Not(wrong));
  }

  /** The scan over as many bytes as padding can ever take. */
  method ScanPadding(s: seq<Byte>, padding: Byte, good0: Word) returns (good: Word)
    requires 0 < |s| < WORD
    ensures good % 256 == 255 <==>
            good0 % 256 == 255 && TrailingBytes(s, Min(padding as int + 1, Min(255, |s| - 1)), padding)
  {
    var toCheck := 255;
    if toCheck > |s| - 1 {
      toCheck := |s| - 1;
    }
    good := good0;
    for i := 0 to toCheck
      invariant good % 256 == 255 <==> good0 % 256 == 255 && TrailingBytes(s, Min(padding as int + 1, i), padding)
    {
      good := CheckByte(good, padding, i, s[|s| - 1 - i]);
      OneMore(s, i, padding);
    }
  }

  lemma OneMore(s: seq<Byte>, i: nat, padding: Byte)
    requires i < |s|
    ensures TrailingBytes(s, Min(padding as int + 1, i + 1), padding)
       <==> TrailingBytes(s, Min(padding as int + 1, i), padding) && (padding >= i ==> s[|s| - 1 - i] == padding)
  {
  }

  /** The whole verdict as a mask. */
  method Verdict(s: seq<Byte>, macSize: nat) returns (good: Word)
    requires 0 < |s| < 0x8000_0000 && macSize < 0x4000_0000
    ensures good == Mask(Accepted(s, macSize))
  {
    hide Ge, Eq, And;
    var padding := s[|s| - 1];
    var overhead := 1 + macSize;
    GeMask(|s|, overhead + padding);
    good := Ge(|s|, overhead + padding);
    good := ScanPadding(s, padding, good);
    LowByte(good);
    EqMask(0xff, AndW(good, 0xff));
    good := Eq(0xff, AndW(good, 0xff));
  }

  /** A word read as a two's complement int. */
  function Signed(w: Word): int {
    if w < 0x8000_0000 then w else w - WORD
  }

  /** How long the record is once its explicit IV, if any, has been skipped. */
  function IvSize(explicitIv: bool, blockSize: nat): nat {
    if explicitIv then blockSize else 0
  }

  /**
   * tls1_cbc_remove_padding: 0 leaves a publicly invalid record alone; 1 exactly when the padding is accepted,
   * the record then losing its padding and passing the padding size on in its type; -1 otherwise.
   */
  method RemovePaddingFrom(rec: Record, explicitIv: bool, blockSize: nat, macSize: nat) returns (result: int)
    requires rec.Valid() && blockSize < 0x4000_0000 && macSize < 0x4000_0000
    modifies rec
    ensures rec.Valid()
    ensures result == 0 <==> 1 + macSize + IvSize(explicitIv, blockSize) > old(rec.length)
    ensures result == 0 ==> rec.data == old(rec.data) && rec.input == old(rec.input)
                            && rec.length == old(rec.length) && rec.kind == old(rec.kind)
    ensures result != 0 ==>
      var iv := IvSize(explicitIv, blockSize);
      var s := old(rec.Bytes())[iv..];
      && rec.data == old(rec.data) + iv && rec.input == old(rec.input) + iv
      && result == (if Accepted(s, macSize) then 1 else -1)
      && var removed := if Accepted(s, macSize) then s[|s| - 1] as int + 1 else 0;
         rec.Bytes() == s[..|s| - removed] && rec.kind == OrW(old(rec.kind), removed * 256)
  {
    hide Accepted, OrW;
    var overhead := 1 + macSize;
    if explicitIv {
      if overhead + blockSize > rec.length {
        return 0;
      }
      rec.data := rec.data + blockSize;
      rec.input := rec.input + blockSize;
      rec.length := rec.length - blockSize;
    } else if overhead > rec.length {
      return 0;
    }
    assert rec.Bytes() == old(rec.Bytes())[IvSize(explicitIv, blockSize)..];
    result := StripPadding(rec, macSize);
  }

  /** What follows the length test and the skipping of the IV. */
  method StripPadding(rec: Record, macSize: nat) returns (result: int)
    requires rec.Valid() && rec.length >= 1 + macSize && macSize < 0x4000_0000
    modifies rec`length, rec`kind
    ensures rec.Valid()
    ensures var s := old(rec.Bytes());
            var removed := if Accepted(s, macSize) then s[|s| - 1] as int + 1 else 0;
            && result == (if Accepted(s, macSize) then 1 else -1)
            && rec.Bytes() == s[..|s| - removed] && rec.kind == OrW(old(rec.kind), removed * 256)
  {
    hide And, Or, Select, OrW;
    var s := rec.buffer[rec.data..rec.data + rec.length];
    assert s == rec.Bytes();
    var good := Verdict(s, macSize);
    var padding: Word := s[|s| - 1];
    WordMasks(padding + 1);
    padding := AndW(good, padding + 1);
    rec.length := rec.length - padding;
    rec.kind := OrW(rec.kind, padding * 256);
    assert rec.Bytes() == s[..|s| - padding];
    SelectMask(Accepted(s, macSize), 1, ONES);
    result := Signed(Select(good, 1, ONES));
  }

  /** The padding size can be read back from the type, as later code does. */
  lemma KindCarriesPadding(kind: Word, removed: nat)
    requires kind < 256 && removed <= 256
    ensures OrW(kind, removed * 256) == kind + removed * 256
  {
    Pow2Words();
    OrComm(kind, removed * 256);
    OrDisjoint(removed * 256, kind, 8);
  }
}
