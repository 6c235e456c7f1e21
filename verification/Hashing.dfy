/** A Merkle-Damgard hash over 64-byte blocks, for any compression, padded as in section 5.1.1 of FIPS 180-4. */
module Hashing {
  import opened ConstantTime
  import Bits

  const BLOCK: int := 64

  /** The five chaining words of SHA_CTX. */
  datatype Sha = Sha(h0: Word, h1: Word, h2: Word, h3: Word, h4: Word)

  /** sha1_block_data_order is left arbitrary: any function of the chaining words and a block. */
  type Compression = (Sha, seq<Byte>) -> Sha

  /** SHA1_Init */
  function InitialState(): Sha {
    Sha(0x67452301, 0xefcdab89, 0x98badcfe, 0x10325476, 0xc3d2e1f0)
  }

  function Zeros(n: nat): (z: seq<Byte>)
    ensures |z| == n && forall i :: 0 <= i < n ==> z[i] == 0
  {
    seq(n, _ => 0)
  }

  /** The low n bytes of x, most significant byte first. */
  function BigEndian(x: nat, n: nat): (s: seq<Byte>)
    ensures |s| == n
  {
    if n == 0 then [] else BigEndian(x / 256, n - 1) + [x % 256]
  }

  function WordBytes(w: Word): (s: seq<Byte>)
    ensures |s| == 4
  {
    [w / 0x100_0000 % 256, w / 0x1_0000 % 256, w / 0x100 % 256, w % 256]
  }

  /** The five chaining words as one number of 160 bits, h0 on top. */
  function Number(s: Sha): nat {
    (((s.h0 * WORD + s.h1) * WORD + s.h2) * WORD + s.h3) * WORD + s.h4
  }

  /** The digest of a chaining value: that number in twenty bytes, most significant first. */
  function Serialise(s: Sha): (out: seq<Byte>)
    ensures |out| == 20
  {
    BigEndian(Number(s), 20)
  }

  /** The chaining value after the blocks of m. */
  function Fold(f: Compression, s: Sha, m: seq<Byte>): Sha
    requires |m| % BLOCK == 0
  {
    if m == [] then s else f(Fold(f, s, m[..|m| - BLOCK]), m[|m| - BLOCK..])
  }

  /** The number of zero bytes between the 0x80 byte and the length. */
  function ZeroCount(n: nat): (z: nat)
    ensures z < BLOCK && (n + 1 + z + 8) % BLOCK == 0
  {
    (BLOCK + 55 - n % BLOCK) % BLOCK
  }

  /** A message with its 0x80 byte, zeros and an 8-byte length field. */
  function Terminated(m: seq<Byte>, bits: nat): (p: seq<Byte>)
    ensures |p| % BLOCK == 0 && |p| == |m| + ZeroCount(|m|) + 9
  {
    m + [0x80] + Zeros(ZeroCount(|m|)) + BigEndian(bits, 8)
  }

  function Pad(m: seq<Byte>): (p: seq<Byte>)
    ensures |p| % BLOCK == 0
  {
    Terminated(m, 8 * |m|)
  }

  function Hash(f: Compression, m: seq<Byte>): (digest: seq<Byte>)
    ensures |digest| == 20
  {
    Serialise(Fold(f, InitialState(), Pad(m)))
  }

  lemma {:induction false} FoldAppend(f: Compression, s: Sha, a: seq<Byte>, b: seq<Byte>)
    requires |a| % BLOCK == 0 && |b| % BLOCK == 0
    ensures Fold(f, s, a + b) == Fold(f, Fold(f, s, a), b)
    decreases |b|
  {
    if b == [] {
      assert a + b == a;
    } else {
      var c := b[..|b| - BLOCK];
      FoldAppend(f, s, a, c);
      assert (a + b)[..|a + b| - BLOCK] == a + c;
      assert (a + b)[|a + b| - BLOCK..] == b[|b| - BLOCK..];
    }
  }

  lemma FoldEmpty(f: Compression, s: Sha, m: seq<Byte>)
    ensures Fold(f, s, m[..0]) == s
  {
  }

  lemma {:induction false} FoldBlock(f: Compression, s: Sha, b: seq<Byte>)
    requires |b| == BLOCK
    ensures Fold(f, s, b) == f(s, b)
  {
    assert b[..0] == [] && b[0..] == b;
  }

  /** Extending a prefix of m by one block. */
  lemma FoldNext(f: Compression, s: Sha, m: seq<Byte>, i: nat)
    requires |m| % BLOCK == 0 && BLOCK * (i + 1) <= |m|
    ensures Fold(f, s, m[..BLOCK * (i + 1)]) == f(Fold(f, s, m[..BLOCK * i]), m[BLOCK * i..BLOCK * (i + 1)])
  {
    var p := m[..BLOCK * (i + 1)];
    assert p[..|p| - BLOCK] == m[..BLOCK * i] && p[|p| - BLOCK..] == m[BLOCK * i..BLOCK * (i + 1)];
  }

  /** The bytes of a terminated message, position by position. */
  lemma TerminatedAt(m: seq<Byte>, bits: nat, p: nat)
    requires p < |Terminated(m, bits)|
    ensures Terminated(m, bits)[p] ==
            if p < |m| then m[p]
            else if p == |m| then 0x80
            else if p < |Terminated(m, bits)| - 8 then 0
            else BigEndian(bits, 8)[p - (|Terminated(m, bits)| - 8)]
  {
  }

  lemma Regroup(a: seq<Byte>, b: seq<Byte>, c: seq<Byte>)
    ensures a + b + c == a + (b + c)
  {
  }

  lemma ZerosAfterBlock(n: nat)
    ensures ZeroCount(n + BLOCK) == ZeroCount(n)
  {
  }

  /** A whole block in front of a message only lengthens the bit count. */
  lemma PadAfterBlock(key: seq<Byte>, m: seq<Byte>)
    requires |key| == BLOCK
    ensures Pad(key + m) == key + Terminated(m, 8 * |m| + 8 * BLOCK)
  {
    hide BigEndian, Zeros, ZeroCount;
    var z, bits := Zeros(ZeroCount(|m|)), 8 * |m| + 8 * BLOCK;
    ZerosAfterBlock(|m|);
    assert |key + m| == |m| + BLOCK;
    Regroup(key, m, [0x80]);
    Regroup(key, m + [0x80], z);
    Regroup(key, m + [0x80] + z, BigEndian(bits, 8));
  }

  lemma WordDigits(w: Word)
    ensures var b := WordBytes(w); w == ((b[0] as int * 256 + b[1]) * 256 + b[2]) * 256 + b[3]
  {
    var q1, q2, q3 := w / 0x100, w / 0x1_0000, w / 0x100_0000;
    assert q2 == q1 / 256 && q3 == q2 / 256 && q3 < 256;
  }

  lemma PopByte(y: nat, d: Byte, n: nat)
    ensures BigEndian(y * 256 + d, n + 1) == BigEndian(y, n) + [d]
  {
  }

  /** The four lowest bytes of a length are those of its low word. */
  lemma PopWord(y: nat, w: Word, n: nat)
    ensures BigEndian(y * WORD + w, n + 4) == BigEndian(y, n) + WordBytes(w)
  {
    WordDigits(w);
    var b := WordBytes(w);
    var y1 := y * 256 + b[0];
    var y2 := y1 * 256 + b[1];
    var y3 := y2 * 256 + b[2];
    PopByte(y, b[0], n);
    PopByte(y1, b[1], n + 1);
    PopByte(y2, b[2], n + 2);
    PopByte(y3, b[3], n + 3);
    assert y * WORD + w == y3 * 256 + b[3];
  }

  /** The number a sequence of bytes stands for, most significant first. */
  function Value(s: seq<Byte>): nat {
    if s == [] then 0 else 256 * Value(s[..|s| - 1]) + s[|s| - 1]
  }

  /** n bytes hold a number modulo 256^n. */
  lemma {:induction false} BigEndianValue(x: nat, n: nat)
    ensures Value(BigEndian(x, n)) == x % Bits.Pow2(8 * n)
    decreases n
  {
    if n > 0 {
      var p := Bits.Pow2(8 * (n - 1));
      BigEndianValue(x / 256, n - 1);
      Bits.Pow2Words();
      Bits.Pow2Add(8, 8 * (n - 1));
      LowDigits(x, p);
      assert BigEndian(x, n)[..n - 1] == BigEndian(x / 256, n - 1);
    }
  }

  lemma LowDigits(x: nat, p: nat)
    requires p > 0
    ensures x % (256 * p) == 256 * (x / 256 % p) + x % 256
  {
    var q, r := x / 256 / p, x / 256 % p;
    assert x / 256 == p * q + r;
    assert x == (256 * p) * q + (256 * r + x % 256) by {
      Bits.MulAssoc(256, p, q);
    }
    Bits.DivModUnique(x, 256 * p, q, 256 * r + x % 256);
  }

  /** HASH_MAKE_STRING and tls1_sha1_final_raw: the chaining words one after the other. */
  method WriteWords(s: Sha) returns (out: seq<Byte>)
    ensures out == Serialise(s)
  {
    hide WordBytes, BigEndian;
    out := WordBytes(s.h0);
    PopWord(0, s.h0, 0);
    NoBytes(0);
    out := out + WordBytes(s.h1);
    PopWord(s.h0, s.h1, 4);
    out := out + WordBytes(s.h2);
    PopWord(s.h0 * WORD + s.h1, s.h2, 8);
    out := out + WordBytes(s.h3);
    PopWord((s.h0 * WORD + s.h1) * WORD + s.h2, s.h3, 12);
    out := out + WordBytes(s.h4);
    PopWord(((s.h0 * WORD + s.h1) * WORD + s.h2) * WORD + s.h3, s.h4, 16);
  }

  lemma NoBytes(x: nat)
    ensures BigEndian(x, 0) == []
  {
  }

  /** Byte j of a word, least significant first. */
  function LittleByte(w: Word, j: nat): int
    requires j < 4
  {
    if j == 0 then w % 256 else if j == 1 then w / 0x100 % 256
    else if j == 2 then w / 0x1_0000 % 256 else w / 0x100_0000
  }

  /** The initial chaining words in little-endian bytes: 01 23 45 up to ef, fe dc ba down to 10, and f0 e1 d2 c3. */
  lemma InitialBytes(j: nat)
    requires j < 4
    ensures var s := InitialState();
            && LittleByte(s.h0, j) == 0x01 + 0x22 * j && LittleByte(s.h1, j) == 0x89 + 0x22 * j
            && LittleByte(s.h2, j) == 0xfe - 0x22 * j && LittleByte(s.h3, j) == 0x76 - 0x22 * j
            && LittleByte(s.h4, j) == 0xf0 - 0x0f * j
  {
  }

  /** The length field holds the 64-bit count Nh:Nl. */
  lemma LengthField(hi: Word, lo: Word)
    ensures BigEndian(hi * WORD + lo, 8) == WordBytes(hi) + WordBytes(lo)
  {
    PopWord(hi, lo, 4);
    PopWord(0, hi, 0);
  }

  /** Only the low 64 bits of a length are written. */
  lemma {:induction false} BigEndianWraps(x: nat, k: nat, n: nat, m: nat)
    requires m == Bits.Pow2(8 * n)
    ensures BigEndian(x + k * m, n) == BigEndian(x, n)
    decreases n
  {
    if n > 0 {
      var p := Bits.Pow2(8 * (n - 1));
      Bits.Pow2Words();
      Bits.Pow2Add(8, 8 * (n - 1));
      Shifted(x, k, p, m);
      BigEndianWraps(x / 256, k, n - 1, p);
    }
  }

  lemma Shifted(x: nat, k: nat, p: nat, m: nat)
    requires m == 256 * p
    ensures (x + k * m) / 256 == x / 256 + k * p && (x + k * m) % 256 == x % 256 && k * m >= 0 && k * p >= 0
  {
    Bits.MulAssoc(k, 256, p);
    assert k * m == 256 * (k * p);
  }
}
