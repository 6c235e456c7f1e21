/** ssl3_cbc_digest_record: the MAC of a record whose padding length must stay secret. */
module CbcDigest {
  import opened Wrappers
  import opened Bits
  import opened ConstantTime
  import opened Hashing

  const MD_SIZE: int := 20
  const LENGTH_SIZE: int := 8
  const SSLV3_PAD: int := 40
  const MAX_MD_SIZE: int := 64

  // ---- what is to be computed ---------------------------------------------------------------------

  function HeaderLength(secret: seq<Byte>, sslv3: bool): (n: nat)
    ensures n >= 13
  {
    if sslv3 then |secret| + SSLV3_PAD + 8 + 1 + 2 else 13
  }

  /** How much padding the window of variable blocks can absorb. */
  function Slack(sslv3: bool): nat {
    if sslv3 then 57 else 313
  }

  /** The one size at which SSLv3 scans a block too few: no padding at all, in three blocks that are exactly full. */
  predicate Missed(len: nat, macEnd: int, sslv3: bool) {
    sslv3 && len == 204 && macEnd == 184
  }

  /** A key padded with zeros to a block, every byte xored with x. */
  function KeyBlock(secret: seq<Byte>, x: Byte): (k: seq<Byte>)
    requires |secret| <= 64
    ensures |k| == 64
  {
    XorAll(secret + Zeros(64 - |secret|), x)
  }

  function XorAll(s: seq<Byte>, x: Byte): (r: seq<Byte>)
    ensures |r| == |s| && forall i :: 0 <= i < |s| ==> r[i] == XorByte(s[i], x)
  {
    if s == [] then [] else XorAll(s[..|s| - 1], x) + [XorByte(s[|s| - 1], x)]
  }

  /** The bytes the inner hash covers. */
  function Covered(header: seq<Byte>, data: seq<Byte>, dpm: nat, secret: seq<Byte>, sslv3: bool): seq<Byte>
    requires MD_SIZE <= dpm <= |data| && |secret| <= 64
  {
    (if sslv3 then [] else KeyBlock(secret, 0x36)) + (header + data[..dpm - MD_SIZE])
  }

  // ---- block counting -------------------------------------------------------------------------------

  function Variance(sslv3: bool): nat {
    if sslv3 then 2 else 6
  }

  /** The number of hash blocks if there were no padding. */
  function BlockCount(len: nat): nat
    requires len > MD_SIZE
  {
    (len - MD_SIZE - 1 + 1 + LENGTH_SIZE + 64 - 1) / 64
  }

  /** The number of blocks that no padding can touch. */
  function StartingBlocks(len: nat, sslv3: bool): nat
    requires len > MD_SIZE
  {
    if BlockCount(len) > Variance(sslv3) + (if sslv3 then 1 else 0) then BlockCount(len) - Variance(sslv3) else 0
  }

  /**
   * data holds payload, MAC and padding; dpm is the secret length of payload and MAC. The padding leaves the end of the
   * message to the scanned window.
   */
  predicate ValidRecord(header: seq<Byte>, data: seq<Byte>, dpm: nat, secret: seq<Byte>, sslv3: bool) {
    && |header| == HeaderLength(secret, sslv3)
    && MD_SIZE <= dpm <= |data|
    && 64 * StartingBlocks(|header| + |data|, sslv3) <= |header| + dpm - MD_SIZE
    && |data| < 1024 * 1024
    && |secret| <= 64
  }

  /** The end of the message and of its padding lie in the scanned window. */
  predicate Covers(len: nat, macEnd: nat, sslv3: bool)
    requires len > MD_SIZE
  {
    var start := StartingBlocks(len, sslv3);
    start <= macEnd / 64 && (macEnd + LENGTH_SIZE) / 64 <= start + Variance(sslv3)
  }

  /** Exactly when the window covers the end: the message reaches it, and the one missed size is avoided. */
  lemma CoversExactlyWhen(len: nat, macEnd: nat, sslv3: bool)
    requires len > MD_SIZE && macEnd + MD_SIZE <= len
    ensures Covers(len, macEnd, sslv3) <==> 64 * StartingBlocks(len, sslv3) <= macEnd && !Missed(len, macEnd, sslv3)
  {
    var n := BlockCount(len);
    assert 64 * n <= len - MD_SIZE + LENGTH_SIZE + 63 < 64 * n + 64;
  }

  /** The bound on the padding keeps the end of the message inside the window. */
  lemma SlackSuffices(len: nat, macEnd: nat, sslv3: bool)
    requires len > MD_SIZE && macEnd + MD_SIZE <= len <= macEnd + MD_SIZE + Slack(sslv3)
    ensures 64 * StartingBlocks(len, sslv3) <= macEnd
  {
    var n := BlockCount(len);
    assert 64 * n <= len - MD_SIZE + LENGTH_SIZE + 63 < 64 * n + 64;
  }

  /** With one byte more of padding than Slack allows, a record can end before the window. */
  lemma SlackIsSharp(sslv3: bool)
    ensures exists len: nat, macEnd: nat ::
      len > MD_SIZE && len == macEnd + MD_SIZE + Slack(sslv3) + 1 && !Covers(len, macEnd, sslv3)
  {
    if sslv3 {
      var macEnd := 127;
      var len := macEnd + MD_SIZE + 58;
      assert len == 205 && BlockCount(len) == 4 && StartingBlocks(len, sslv3) == 2;
      assert !Covers(len, macEnd, sslv3);
    } else {
      var macEnd := 63;
      var len := macEnd + MD_SIZE + 314;
      assert len == 397 && BlockCount(len) == 7 && StartingBlocks(len, sslv3) == 1;
      assert !Covers(len, macEnd, sslv3);
    }
  }

  // ---- the masked blocks ------------------------------------------------------------------------------

  datatype Tail = Tail(end: nat, c: nat, indexA: nat, indexB: nat, length: seq<Byte>)

  /** Where the message ends, where its 0x80 byte and where its length go. */
  ghost predicate TailOf(t: Tail, end: nat, bits: nat) {
    && t.end == end && t.c == end % 64 && t.indexA == end / 64 && t.indexB == (end + LENGTH_SIZE) / 64
    && t.length == BigEndian(bits, 8)
    && end < 0x1000_0000
  }

  /** Byte j of block i as the masks select it. */
  function WindowByte(stream: seq<Byte>, t: Tail, i: nat, j: nat): Byte
    requires j < 64 && |t.length| == 8
  {
    if i == t.indexB && j >= 56 then t.length[j - 56]
    else if i == t.indexB && i != t.indexA then 0
    else if i == t.indexA && j > t.c then 0
    else if i == t.indexA && j == t.c then 0x80
    else if 64 * i + j < |stream| then stream[64 * i + j]
    else 0
  }

  /** Up to the last block the window shows the padded message. */
  lemma WindowIsPadded(stream: seq<Byte>, t: Tail, end: nat, bits: nat, i: nat, j: nat)
    requires TailOf(t, end, bits) && end <= |stream| && i <= t.indexB && j < 64
    ensures |Terminated(stream[..end], bits)| == 64 * t.indexB + 64
    ensures WindowByte(stream, t, i, j) == Terminated(stream[..end], bits)[64 * i + j]
  {
    hide BigEndian;
    PaddedLength(end);
    TerminatedAt(stream[..end], bits, 64 * i + j);
  }

  lemma PaddedLength(end: nat)
    ensures end + ZeroCount(end) + 9 == 64 * ((end + LENGTH_SIZE) / 64) + 64
  {
  }

  /** One byte of a block: masks for 0x80, zeros and the length. */
  method SelectByte(b0: Byte, j: nat, t: Tail, isA: Byte, isB: Byte, ghost i: nat) returns (b: Byte)
    requires j < 64 && |t.length| == 8 && t.c < 64
    requires isA == Mask8(i == t.indexA) && isB == Mask8(i == t.indexB)
    ensures b == if i == t.indexB && j >= 56 then t.length[j - 56]
                 else if i == t.indexB && i != t.indexA then 0
                 else if i == t.indexA && j > t.c then 0
                 else if i == t.indexA && j == t.c then 0x80
                 else b0
  {
    hide Select8, Ge8, And, Or, Not;
    GeMask(j, t.c);
    GeMask(j, t.c + 1);
    b := b0;
    var isPastC: Byte := MaskAnd(isA, Ge8(j, t.c), i == t.indexA, j >= t.c);
    var isPastCp1: Byte := MaskAnd(isA, Ge8(j, t.c + 1), i == t.indexA, j >= t.c + 1);
    Select8Mask(i == t.indexA && j >= t.c, 0x80, b);
    b := Select8(isPastC, 0x80, b);
    b := Clear(b, isPastCp1, i == t.indexA && j >= t.c + 1);
    b := KeepUnless(b, isA, isB, i == t.indexA, i == t.indexB);
    if j >= 64 - LENGTH_SIZE {
      Select8Mask(i == t.indexB, t.length[j - 56], b);
      b := Select8(isB, t.length[j - (64 - LENGTH_SIZE)], b);
    }
  }

  method MaskAnd(x: Byte, y: Byte, ghost p: bool, ghost q: bool) returns (r: Byte)
    requires x == Mask8(p) && y == Mask8(q)
    ensures r == Mask8(p && q)
  {
    ByteMasks(y);
    r := And(x, y);
  }

  /** b & ~mask */
  method Clear(b: Byte, mask: Byte, ghost p: bool) returns (r: Byte)
    requires mask == Mask8(p)
    ensures r == if p then 0 else b
  {
    ByteMasks(b);
    r := And(b, Not(mask));
  }

  /** b & (~isB | isA) */
  method KeepUnless(b: Byte, isA: Byte, isB: Byte, ghost p: bool, ghost q: bool) returns (r: Byte)
    requires isA == Mask8(p) && isB == Mask8(q)
    ensures r == if q && !p then 0 else b
  {
    ByteMasks(b);
    ByteMasks(isA);
    KeepMask(b, p, q);
    r := And(b, OrW(Not(isB), isA));
  }

  lemma KeepMask(b: Byte, p: bool, q: bool)
    ensures And(b, OrW(Not(Mask8(q)), Mask8(p))) == if q && !p then 0 else b
  {
    ByteMasks(b);
    Pow2Words();
    WordMasks(Not(Mask8(q)));
    if p {
      OrDisjointLow(q);
    }
  }

  lemma OrDisjointLow(q: bool)
    ensures OrW(Not(Mask8(q)), 255) == ONES
  {
    Pow2Words();
    if q {
      OrDisjoint(Not(255), 255, 8);
    } else {
      OrOnes(255, 32);
    }
  }

  lemma {:induction false} OrOnes(b: nat, k: nat)
    requires b < Pow2(k)
    ensures Or(Pow2(k) - 1, b) == Pow2(k) - 1
    decreases k
  {
    if k > 0 {
      OrOnes(b / 2, k - 1);
      var p := Pow2(k - 1);
      assert (Pow2(k) - 1) / 2 == p - 1 && (Pow2(k) - 1) % 2 == 1;
    }
  }

  /** Block i of the window; k runs on over the conceptual header and data. */
  method BuildBlock(header: seq<Byte>, data: seq<Byte>, t: Tail, i: nat, from: nat)
      returns (block: seq<Byte>, k: nat)
    requires from == 64 * i < WORD - 64 && |t.length| == 8 && t.c < 64 && i < WORD && t.indexA < WORD && t.indexB < WORD
    ensures |block| == 64 && k == from + 64
    ensures forall j :: 0 <= j < 64 ==> block[j] == WindowByte(header + data, t, i, j)
  {
    hide Eq8, Mask8;
    EqMask(i, t.indexA);
    EqMask(i, t.indexB);
    var isA, isB := Eq8(i, t.indexA), Eq8(i, t.indexB);
    block, k := [], from;
    for j := 0 to 64
      invariant |block| == j && k == from + j
      invariant forall l :: 0 <= l < j ==> block[l] == WindowByte(header + data, t, i, l)
    {
      var b := 0;
      if k < |header| {
        b := header[k];
      } else if k < |data| + |header| {
        b := data[k - |header|];
      }
      k := k + 1;
      b := SelectByte(b, j, t, isA, isB, i);
      block := block + [b];
    }
  }

  /** One byte of mac_out |= block & is_block_b. */
  method Pick(acc: Byte, b: Byte, isB: Byte, ghost hit: bool) returns (r: Byte)
    requires isB == Mask8(hit) && (hit ==> acc == 0)
    ensures r == if hit then b else acc
  {
    hide And, Or;
    ByteMasks(b);
    ByteMasks(acc);
    r := Low8(OrW(acc, And(b, isB)));
  }

  /** mac_out |= block & is_block_b, over the bytes of the digest. */
  method Accumulate(macOut: seq<Byte>, block: seq<Byte>, isB: Byte, ghost hit: bool) returns (out: seq<Byte>)
    requires |macOut| == MAX_MD_SIZE && |block| >= MD_SIZE && isB == Mask8(hit)
    requires hit ==> forall j :: 0 <= j < MD_SIZE ==> macOut[j] == 0
    ensures |out| == MAX_MD_SIZE
    ensures out[..MD_SIZE] == if hit then block[..MD_SIZE] else macOut[..MD_SIZE]
  {
    out := macOut;
    for j := 0 to MD_SIZE
      invariant |out| == MAX_MD_SIZE
      invariant forall l :: 0 <= l < j ==> out[l] == if hit then block[l] else macOut[l]
      invariant forall l :: j <= l < MAX_MD_SIZE ==> out[l] == macOut[l]
    {
      var b := Pick(out[j], block[j], isB, hit);
      out := out[j := b];
    }
  }

  /**
   * The final blocks, scanned in full; the digest is picked up at the block of the length, and stays zero if that block
   * lies behind the window.
   */
  method ScanWindow(f: Compression, state: Sha, header: seq<Byte>, data: seq<Byte>, t: Tail, start: nat, variance: nat,
                    ghost s0: Sha, ghost bits: nat)
      returns (macOut: seq<Byte>)
    requires variance <= 6 && TailOf(t, t.end, bits) && t.end <= |header + data| && 64 * start <= t.end
    requires start <= t.indexA <= t.indexB
    requires state == Fold(f, s0, (header + data)[..64 * start])
    ensures |macOut| == MAX_MD_SIZE
    ensures macOut[..MD_SIZE] == if t.indexB > start + variance then Zeros(MD_SIZE)
                                 else Serialise(Fold(f, s0, Terminated((header + data)[..t.end], bits)))
    ensures t.indexB <= start + variance ==>
      macOut[..MD_SIZE] == BigEndian(Number(Fold(f, s0, Terminated((header + data)[..t.end], bits))), MD_SIZE)
  {
    hide Fold, Serialise, BigEndian, Zeros;
    ghost var m := (header + data)[..t.end];
    ghost var p := Terminated(m, bits);
    WindowIsPadded(header + data, t, t.end, bits, t.indexB, 0);
    StartOfPadded(header + data, t.end, bits, 64 * start);
    macOut := Zeros(MAX_MD_SIZE);
    var st, k, i := state, 64 * start, start;
    while i <= start + variance
      invariant start <= i <= start + variance + 1 && k == 64 * i && |macOut| == MAX_MD_SIZE
      invariant i <= t.indexB + 1 ==> st == Fold(f, s0, p[..64 * i])
      invariant i <= t.indexB ==> forall l :: 0 <= l < MD_SIZE ==> macOut[l] == 0
      invariant i > t.indexB ==> macOut[..MD_SIZE] == Serialise(Fold(f, s0, p))
    {
      var block;
      block, k := BuildBlock(header, data, t, i, k);
      if i <= t.indexB {
        BlockOfPadded(header + data, t, bits, i, block);
        FoldNext(f, s0, p, i);
      }
      st := f(st, block);
      var digest := WriteWords(st);
      block := digest + block[MD_SIZE..];
      EqMask(i, t.indexB);
      macOut := Accumulate(macOut, block, Eq8(i, t.indexB), i == t.indexB);
      assert block[..MD_SIZE] == Serialise(st);
      assert i == t.indexB ==> p[..64 * (i + 1)] == p;
      i := i + 1;
    }
    SerialiseIs(Fold(f, s0, p));
    if t.indexB > start + variance {
      ZerosAre(macOut[..MD_SIZE]);
    }
  }

  lemma SerialiseIs(s: Sha)
    ensures Serialise(s) == BigEndian(Number(s), MD_SIZE)
  {
  }

  lemma ZerosAre(s: seq<Byte>)
    requires forall j :: 0 <= j < |s| ==> s[j] == 0
    ensures s == Zeros(|s|)
  {
  }

  lemma StartOfPadded(stream: seq<Byte>, end: nat, bits: nat, n: nat)
    requires n <= end <= |stream|
    ensures Terminated(stream[..end], bits)[..n] == stream[..n]
  {
    hide BigEndian;
  }

  lemma BlockOfPadded(stream: seq<Byte>, t: Tail, bits: nat, i: nat, block: seq<Byte>)
    requires TailOf(t, t.end, bits) && t.end <= |stream| && i <= t.indexB && |block| == 64
    requires forall j :: 0 <= j < 64 ==> block[j] == WindowByte(stream, t, i, j)
    requires |Terminated(stream[..t.end], bits)| == 64 * t.indexB + 64
    ensures block == Terminated(stream[..t.end], bits)[64 * i..64 * (i + 1)]
  {
    hide WindowByte, Terminated, BigEndian;
    forall j | 0 <= j < 64 ensures block[j] == Terminated(stream[..t.end], bits)[64 * i + j] {
      WindowIsPadded(stream, t, t.end, bits, i, j);
    }
  }

  // ---- the blocks before the window -------------------------------------------------------------------

  /** A block past the header is a block of data. */
  lemma DataBlock(header: seq<Byte>, data: seq<Byte>, at: nat, k: nat)
    requires |header| <= at && at + 64 <= k <= |header + data|
    ensures data[at - |header|..][..64] == (header + data)[..k][at..at + 64]
  {
  }

  /** TLS: the header and the first data bytes share a block. */
  method TlsStart(f: Compression, s0: Sha, header: seq<Byte>, data: seq<Byte>, k: nat) returns (state: Sha)
    requires |header| == 13 && 0 < k <= |header + data| && k % 64 == 0
    ensures state == Fold(f, s0, (header + data)[..k])
  {
    hide Fold;
    ghost var m := (header + data)[..k];
    var firstBlock := header + data[..64 - 13];
    FoldEmpty(f, s0, m);
    FoldNext(f, s0, m, 0);
    assert firstBlock == m[0..64];
    state := f(s0, firstBlock);
    var i := 1;
    while i < k / 64
      invariant 1 <= i <= k / 64
      invariant state == Fold(f, s0, m[..64 * i])
    {
      FoldNext(f, s0, m, i);
      DataBlock(header, data, 64 * i, k);
      state := f(state, data[64 * i - 13..][..64]);
      i := i + 1;
    }
    assert m[..64 * i] == m;
  }

  /** The block that header and data share. */
  lemma SharedBlock(header: seq<Byte>, data: seq<Byte>, k: nat)
    requires 64 < |header| <= 128 <= k <= |header + data|
    ensures header[64..] + data[..128 - |header|] == (header + data)[..k][64..128]
  {
  }

  /** SSLv3: the header fills one block and reaches into the next. */
  method SslStart(f: Compression, s0: Sha, header: seq<Byte>, data: seq<Byte>, k: nat) returns (state: Sha)
    requires 64 < |header| <= 128 <= k <= |header + data| && k % 64 == 0
    ensures state == Fold(f, s0, (header + data)[..k])
  {
    hide Fold;
    ghost var m := (header + data)[..k];
    var overhang := |header| - 64;
    FoldEmpty(f, s0, m);
    FoldNext(f, s0, m, 0);
    FoldNext(f, s0, m, 1);
    state := f(s0, header[..64]);
    assert header[..64] == m[0..64];
    var firstBlock := header[64..] + data[..64 - overhang];
    SharedBlock(header, data, k);
    state := f(state, firstBlock);
    var i := 1;
    while i < k / 64 - 1
      invariant 1 <= i <= k / 64 - 1
      invariant state == Fold(f, s0, m[..64 * (i + 1)])
    {
      FoldNext(f, s0, m, i + 1);
      DataBlock(header, data, 64 * (i + 1), k);
      state := f(state, data[64 * i - overhang..][..64]);
      i := i + 1;
    }
    assert m[..64 * (i + 1)] == m;
  }

  /** The masked key, in place byte by byte. */
  method XorPad(pad: seq<Byte>, x: Byte) returns (out: seq<Byte>)
    ensures out == XorAll(pad, x)
  {
    hide XorByte;
    out := pad;
    for i := 0 to |pad|
      invariant |out| == |pad|
      invariant forall l :: 0 <= l < i ==> out[l] == XorByte(pad[l], x)
      invariant forall l :: i <= l < |pad| ==> out[l] == pad[l]
    {
      out := out[i := XorByte(out[i], x)];
    }
  }

  /** Turning the inner key block into the outer one. */
  lemma OuterKey(secret: seq<Byte>)
    requires |secret| <= 64
    ensures XorAll(KeyBlock(secret, 0x36), 0x6a) == KeyBlock(secret, 0x5c)
  {
    hide XorByte;
    var k := secret + Zeros(64 - |secret|);
    KeyBlockIs(secret, 0x36);
    KeyBlockIs(secret, 0x5c);
    forall i | 0 <= i < 64 ensures XorByte(XorByte(k[i], 0x36), 0x6a) == XorByte(k[i], 0x5c) {
      TwoPads(k[i]);
    }
  }

  lemma PadDifference()
    ensures Xor(0x36, 0x6a) == 0x5c
  {
    assert Xor(3, 6) == 5;
    assert Xor(13, 26) == 23;
  }

  lemma TwoPads(b: Byte)
    ensures XorByte(XorByte(b, 0x36), 0x6a) == XorByte(b, 0x5c)
  {
    hide Xor;
    PadDifference();
    XorAssoc(b, 0x36, 0x6a);
  }

  /** The bit count as the function writes it: four zero bytes and a word. */
  method LengthBytes(bits: nat) returns (bytes: seq<Byte>)
    requires bits < WORD
    ensures bytes == BigEndian(bits, 8)
  {
    bytes := Zeros(LENGTH_SIZE - 4) + WordBytes(bits);
    LengthField(0, bits);
    assert WordBytes(0) == Zeros(4);
  }

  // ---- the whole function -------------------------------------------------------------------------------

  /** The starting blocks, or nothing when the SSLv3 sanity check fires. */
  method HashStart(f: Compression, s0: Sha, header: seq<Byte>, data: seq<Byte>, k: nat, sslv3: bool)
      returns (state: Option<Sha>)
    requires k <= |header + data| && k % 64 == 0
    requires if sslv3 then |header| <= 128 && (k > 0 ==> k >= 128) else |header| == 13
    ensures state == if sslv3 && k > 0 && |header| <= 64 then None else Some(Fold(f, s0, (header + data)[..k]))
  {
    FoldEmpty(f, s0, header + data);
    var st := s0;
    if k > 0 {
      if sslv3 {
        if |header| <= 64 {
          return None;
        }
        st := SslStart(f, s0, header, data, k);
      } else {
        st := TlsStart(f, s0, header, data, k);
      }
    }
    state := Some(st);
  }

  /** The inner hash, except that nothing is picked up at the one missed size. */
  function InnerDigest(f: Compression, header: seq<Byte>, data: seq<Byte>, dpm: nat, secret: seq<Byte>, sslv3: bool)
      : seq<Byte>
    requires ValidRecord(header, data, dpm, secret, sslv3)
  {
    if Missed(|header| + |data|, |header| + dpm - MD_SIZE, sslv3) then Zeros(MD_SIZE)
    else Hash(f, Covered(header, data, dpm, secret, sslv3))
  }

  /** The digest is the standard hash for every compression function exactly when the record has not the missed size. */
  lemma DigestExactlyWhen(header: seq<Byte>, data: seq<Byte>, dpm: nat, secret: seq<Byte>, sslv3: bool)
    requires ValidRecord(header, data, dpm, secret, sslv3)
    ensures (forall f: Compression :: InnerDigest(f, header, data, dpm, secret, sslv3)
                                        == Hash(f, Covered(header, data, dpm, secret, sslv3)))
       <==> !Missed(|header| + |data|, |header| + dpm - MD_SIZE, sslv3)
  {
    hide Hash, Covered, StartingBlocks;
    var f: Compression := (st, block) => Sha(0, 0, 0, 0, 1);
    if Missed(|header| + |data|, |header| + dpm - MD_SIZE, sslv3) {
      ConstantHash(f, Covered(header, data, dpm, secret, sslv3));
      assert InnerDigest(f, header, data, dpm, secret, sslv3) == Zeros(MD_SIZE);
    }
  }

  /** A hash need not be all zeros. */
  lemma ConstantHash(f: Compression, m: seq<Byte>)
    requires forall st, block :: f(st, block) == Sha(0, 0, 0, 0, 1)
    ensures Hash(f, m) != Zeros(MD_SIZE)
  {
    hide Serialise, Terminated;
    assert Hash(f, m) == Serialise(Sha(0, 0, 0, 0, 1));
    SerialisedOne();
  }

  lemma SerialisedOne()
    ensures Serialise(Sha(0, 0, 0, 0, 1)) != Zeros(MD_SIZE)
  {
    hide BigEndian, Bits.Pow2;
    assert Number(Sha(0, 0, 0, 0, 1)) == 1;
    BigEndianValue(1, 20);
    BigEndianValue(0, 20);
    OneInRange(160);
    ZeroBytes(20);
  }

  lemma OneInRange(n: nat)
    requires n > 0
    ensures 1 % Bits.Pow2(n) == 1 && 0 % Bits.Pow2(n) == 0
  {
    var p := Bits.Pow2(n);
    assert p == 2 * Bits.Pow2(n - 1);
    Bits.DivModUnique(1, p, 0, 1);
    Bits.DivModUnique(0, p, 0, 0);
  }

  lemma {:induction false} ZeroBytes(n: nat)
    ensures BigEndian(0, n) == Zeros(n)
  {
    if n > 0 {
      ZeroBytes(n - 1);
    }
  }

  /**
   * The only such SSLv3 records: 184 bytes of header and payload, 20 of MAC, no padding. They are arguments the
   * function accepts, not records off the wire: with the 20-byte secret of SHA-1 their 133 bytes fill no blocks of 8 or
   * 16 bytes.
   */
  lemma MissedRecord(header: seq<Byte>, data: seq<Byte>, dpm: nat, secret: seq<Byte>)
    requires |secret| <= 64 && |header| == HeaderLength(secret, true)
    requires |header| + |data| == 204 && dpm == |data|
    ensures ValidRecord(header, data, dpm, secret, true) && Missed(|header| + |data|, |header| + dpm - MD_SIZE, true)
    ensures !Covers(204, 184, true)
    ensures |secret| == MD_SIZE ==> |data| == 133 && |data| % 8 != 0
  {
  }

  /** mac_out once the window has been scanned. */
  method InnerHash(f: Compression, header: seq<Byte>, data: seq<Byte>, dpm: nat, secret: seq<Byte>, sslv3: bool)
      returns (mac: Option<seq<Byte>>, hmacPad: seq<Byte>)
    requires ValidRecord(header, data, dpm, secret, sslv3)
    ensures mac == if Refused(header, data, sslv3) then None
                   else Some(InnerDigest(f, header, data, dpm, secret, sslv3))
    ensures !sslv3 ==> hmacPad == KeyBlock(secret, 0x36)
  {
    hide Fold, KeyBlock, Serialise, BigEndian, StartingBlocks, XorAll;
    var macEnd := dpm + |header| - MD_SIZE;
    var s0, bits := InitialState(), 8 * macEnd;
    hmacPad := [];
    if !sslv3 {
      bits := bits + 8 * 64;
      hmacPad := XorPad(secret + Zeros(64 - |secret|), 0x36);
      KeyBlockIs(secret, 0x36);
      s0 := f(s0, hmacPad);
    }
    HashOfCovered(f, header, data, dpm, secret, sslv3, s0, bits);
    mac := HashRecord(f, s0, header, data, macEnd, bits, sslv3);
    assert (header + data)[..macEnd] == header + data[..dpm - MD_SIZE];
  }

  /** From the chaining value after the key block to mac_out. */
  method HashRecord(f: Compression, s0: Sha, header: seq<Byte>, data: seq<Byte>, macEnd: nat, bits: nat, sslv3: bool)
      returns (mac: Option<seq<Byte>>)
    requires if sslv3 then |header| <= 128 else |header| == 13
    requires |data| < 1024 * 1024 && bits < WORD
    requires var len := |header| + |data|;
             len > MD_SIZE && macEnd + MD_SIZE <= len && 64 * StartingBlocks(len, sslv3) <= macEnd
    ensures mac == if Refused(header, data, sslv3) then None
                   else if Missed(|header| + |data|, macEnd, sslv3) then Some(Zeros(MD_SIZE))
                   else Some(Serialise(Fold(f, s0, Terminated((header + data)[..macEnd], bits))))
  {
    hide Fold, Serialise, BigEndian, StartingBlocks, Terminated;
    var len := |data| + |header|;
    var start := StartingBlocks(len, sslv3);
    CoversExactlyWhen(len, macEnd, sslv3);
    StartSize(len, sslv3);
    var length := LengthBytes(bits);
    var state := HashStart(f, s0, header, data, 64 * start, sslv3);
    if state.None? {
      return None;
    }
    var t := Tail(macEnd, macEnd % 64, macEnd / 64, (macEnd + LENGTH_SIZE) / 64, length);
    var macOut := ScanWindow(f, state.value, header, data, t, start, Variance(sslv3), s0, bits);
    mac := Some(macOut[..MD_SIZE]);
  }

  /** The SSLv3 sanity check on the header length; it cannot fire in TLS. */
  predicate Refused(header: seq<Byte>, data: seq<Byte>, sslv3: bool)
    requires |header| + |data| > MD_SIZE
  {
    sslv3 && StartingBlocks(|header| + |data|, sslv3) > 0 && |header| <= 64
  }

  lemma KeyBlockIs(secret: seq<Byte>, x: Byte)
    requires |secret| <= 64
    ensures KeyBlock(secret, x) == XorAll(secret + Zeros(64 - |secret|), x)
  {
  }

  lemma StartSize(len: nat, sslv3: bool)
    requires len > MD_SIZE
    ensures sslv3 && StartingBlocks(len, sslv3) > 0 ==> StartingBlocks(len, sslv3) >= 2
  {
  }

  lemma HashOfCovered(f: Compression, header: seq<Byte>, data: seq<Byte>, dpm: nat, secret: seq<Byte>, sslv3: bool,
      s0: Sha, bits: nat)
    requires MD_SIZE <= dpm <= |data| && |secret| <= 64
    requires s0 == if sslv3 then InitialState() else f(InitialState(), KeyBlock(secret, 0x36))
    requires bits == 8 * (dpm + |header| - MD_SIZE) + (if sslv3 then 0 else 512)
    ensures Serialise(Fold(f, s0, Terminated(header + data[..dpm - MD_SIZE], bits)))
         == Hash(f, Covered(header, data, dpm, secret, sslv3))
  {
    hide Fold, KeyBlock, Serialise, Terminated;
    var m := header + data[..dpm - MD_SIZE];
    if sslv3 {
      assert [] + m == m;
    } else {
      var key := KeyBlock(secret, 0x36);
      PadAfterBlock(key, m);
      FoldBlock(f, InitialState(), key);
      FoldAppend(f, InitialState(), key, Terminated(m, bits));
    }
  }

  /**
   * ssl3_cbc_digest_record, up to what it feeds to the outer digest: for TLS the outer key block and the inner hash,
   * as in section 2 of RFC 2104; for SSLv3 the secret, the second pad and the inner hash.
   */
  method DigestRecord(f: Compression, header: seq<Byte>, data: seq<Byte>, dpm: nat, secret: seq<Byte>, sslv3: bool)
      returns (outer: Option<seq<Byte>>)
    requires ValidRecord(header, data, dpm, secret, sslv3)
    ensures outer.None? <==> Refused(header, data, sslv3)
    ensures outer.Some? && !sslv3 ==>
      outer.value == KeyBlock(secret, 0x5c) + Hash(f, KeyBlock(secret, 0x36) + (header + data[..dpm - MD_SIZE]))
    ensures outer.Some? && sslv3 ==>
      outer.value == secret + Repeat(0x5c, SSLV3_PAD)
                     + (if |header| + |data| == 204 && dpm == |data| then Zeros(MD_SIZE)
                        else Hash(f, header + data[..dpm - MD_SIZE]))
  {
    hide Hash, KeyBlock, Refused;
    var mac, hmacPad := InnerHash(f, header, data, dpm, secret, sslv3);
    if mac.None? {
      return None;
    }
    if sslv3 {
      assert [] + (header + data[..dpm - MD_SIZE]) == header + data[..dpm - MD_SIZE];
      outer := Some(secret + Repeat(0x5c, SSLV3_PAD) + mac.value);
    } else {
      OuterKey(secret);
      var outerPad := XorPad(hmacPad, 0x6a);
      outer := Some(outerPad + mac.value);
    }
  }

  function Repeat(x: Byte, n: nat): (s: seq<Byte>)
    ensures |s| == n && forall i :: 0 <= i < n ==> s[i] == x
  {
    if n == 0 then [] else Repeat(x, n - 1) + [x]
  }
}
