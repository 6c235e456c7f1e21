/** The Twofish block functions of libgcrypt, for arbitrary tables, whitening words and round keys. */
module Twofish {
  /** TWOFISH_context: the four S-box tables, eight whitening words and 32 round keys. */
  datatype Context = Context(s0: bv8 -> bv32, s1: bv8 -> bv32, s2: bv8 -> bv32, s3: bv8 -> bv32, w: seq<bv32>,
      k: seq<bv32>)

  ghost predicate Sized(ctx: Context) {
    |ctx.w| == 8 && |ctx.k| == 32
  }

  /** The four words of the text. */
  datatype Text = Text(a: bv32, b: bv32, c: bv32, d: bv32)

  function Byte(x: bv32): bv8 {
    (x & 0xff) as bv8
  }

  function Four(a: bv32, b: bv32, c: bv32, d: bv32): bv32 {
    a ^ b ^ c ^ d
  }

  function G1(ctx: Context, a: bv32): bv32 {
    Four(ctx.s0(Byte(a)), ctx.s1(Byte(a >> 8)), ctx.s2(Byte(a >> 16)), ctx.s3(Byte(a >> 24)))
  }

  function G2(ctx: Context, b: bv32): bv32 {
    Four(ctx.s1(Byte(b)), ctx.s2(Byte(b >> 8)), ctx.s3(Byte(b >> 16)), ctx.s0(Byte(b >> 24)))
  }

  function RotateRight(w: bv32): bv32 {
    (w >> 1) + (w << 31)
  }

  function RotateLeft(w: bv32): bv32 {
    (w << 1) + (w >> 31)
  }

  lemma RotationsInvert(w: bv32)
    ensures RotateLeft(RotateRight(w)) == w && RotateRight(RotateLeft(w)) == w
  {
  }

  function Mask(w: bv32, key: bv32): bv32 {
    w ^ key
  }

  function Add(a: bv32, b: bv32): bv32 {
    a + b
  }

  /** y plus the sum of x and k, as encryption adds them up. */
  function PlusSum(y: bv32, x: bv32, k: bv32): bv32 {
    y + (x + k)
  }

  /** The sum of y and x, plus k, as decryption does. */
  function SumPlus(y: bv32, x: bv32, k: bv32): bv32 {
    (y + x) + k
  }

  // ---- rounds -------------------------------------------------------------------------------------------

  /** ENCROUND: what becomes of c and d. */
  function EncRound(ctx: Context, n: nat, a: bv32, b: bv32, c: bv32, d: bv32): (bv32, bv32)
    requires Sized(ctx) && n < 16
  {
    var x := Add(G1(ctx, a), G2(ctx, b));
    var y := PlusSum(G2(ctx, b), x, ctx.k[2 * n + 1]);
    (RotateRight(Mask(c, Add(x, ctx.k[2 * n]))), Mask(RotateLeft(d), y))
  }

  /** DECROUND */
  function DecRound(ctx: Context, n: nat, a: bv32, b: bv32, c: bv32, d: bv32): (bv32, bv32)
    requires Sized(ctx) && n < 16
  {
    var x := Add(G1(ctx, a), G2(ctx, b));
    var y := SumPlus(G2(ctx, b), x, ctx.k[2 * n + 1]);
    (Mask(RotateLeft(c), Add(x, ctx.k[2 * n])), RotateRight(Mask(d, y)))
  }

  lemma XorTwice(a: bv32, b: bv32)
    ensures Mask(Mask(a, b), b) == a
  {
  }

  lemma SumsAgree(y: bv32, x: bv32, k: bv32)
    ensures PlusSum(y, x, k) == SumPlus(y, x, k)
  {
  }

  /** The rotations and the masking words cancel, whatever the g functions yield. */
  lemma WordsUndone(x: bv32, k: bv32, g: bv32, l: bv32, c: bv32, d: bv32)
    ensures Mask(RotateLeft(RotateRight(Mask(c, Add(x, k)))), Add(x, k)) == c
    ensures RotateRight(Mask(Mask(RotateLeft(d), PlusSum(g, x, l)), SumPlus(g, x, l))) == d
  {
    hide RotateLeft, RotateRight, Mask, Add, PlusSum, SumPlus;
    RotationsInvert(Mask(c, Add(x, k)));
    XorTwice(c, Add(x, k));
    SumsAgree(g, x, l);
    XorTwice(RotateLeft(d), PlusSum(g, x, l));
    RotationsInvert(d);
  }

  lemma RoundUndone(ctx: Context, n: nat, a: bv32, b: bv32, c: bv32, d: bv32)
    requires Sized(ctx) && n < 16
    ensures var e := EncRound(ctx, n, a, b, c, d); DecRound(ctx, n, a, b, e.0, e.1) == (c, d)
  {
    hide G1, G2, RotateLeft, RotateRight, Mask, Add, PlusSum, SumPlus;
    var x := Add(G1(ctx, a), G2(ctx, b));
    WordsUndone(x, ctx.k[2 * n], G2(ctx, b), ctx.k[2 * n + 1], c, d);
  }

  /** ENCCYCLE: two rounds with the halves in alternating roles. */
  function EncCycle(ctx: Context, n: nat, t: Text): Text
    requires Sized(ctx) && n < 8
  {
    var cd := EncRound(ctx, 2 * n, t.a, t.b, t.c, t.d);
    var ab := EncRound(ctx, 2 * n + 1, cd.0, cd.1, t.a, t.b);
    Text(ab.0, ab.1, cd.0, cd.1)
  }

  /** DECCYCLE */
  function DecCycle(ctx: Context, n: nat, t: Text): Text
    requires Sized(ctx) && n < 8
  {
    var ab := DecRound(ctx, 2 * n + 1, t.c, t.d, t.a, t.b);
    var cd := DecRound(ctx, 2 * n, ab.0, ab.1, t.c, t.d);
    Text(ab.0, ab.1, cd.0, cd.1)
  }

  lemma CycleUndone(ctx: Context, n: nat, t: Text)
    requires Sized(ctx) && n < 8
    ensures DecCycle(ctx, n, EncCycle(ctx, n, t)) == t
  {
    hide EncRound, DecRound;
    var cd := EncRound(ctx, 2 * n, t.a, t.b, t.c, t.d);
    RoundUndone(ctx, 2 * n, t.a, t.b, t.c, t.d);
    RoundUndone(ctx, 2 * n + 1, cd.0, cd.1, t.a, t.b);
  }

  /** Cycles 0 to n - 1. */
  function EncCycles(ctx: Context, t: Text, n: nat): Text
    requires Sized(ctx) && n <= 8
  {
    if n == 0 then t else EncCycle(ctx, n - 1, EncCycles(ctx, t, n - 1))
  }

  /** Cycles 7 down to 8 - n. */
  function DecCycles(ctx: Context, t: Text, n: nat): Text
    requires Sized(ctx) && n <= 8
  {
    if n == 0 then t else DecCycle(ctx, 8 - n, DecCycles(ctx, t, n - 1))
  }

  lemma {:induction false} CyclesUndone(ctx: Context, t: Text, n: nat)
    requires Sized(ctx) && n <= 8
    ensures DecCycles(ctx, EncCycles(ctx, t, 8), n) == EncCycles(ctx, t, 8 - n)
  {
    hide EncCycle, DecCycle;
    if n > 0 {
      CyclesUndone(ctx, t, n - 1);
      CycleUndone(ctx, 8 - n, EncCycles(ctx, t, 8 - n));
    }
  }

  // ---- whitening and bytes -----------------------------------------------------------------------------

  function Le32(a: bv8, b: bv8, c: bv8, d: bv8): bv32 {
    ((d as bv32) << 24) | ((c as bv32) << 16) | ((b as bv32) << 8) | (a as bv32)
  }

  function Bytes32(w: bv32): (s: seq<bv8>)
    ensures |s| == 4
  {
    [Byte(w), Byte(w >> 8), Byte(w >> 16), Byte(w >> 24)]
  }

  lemma BytesInvert(a: bv8, b: bv8, c: bv8, d: bv8)
    ensures Bytes32(Le32(a, b, c, d)) == [a, b, c, d]
  {
  }

  lemma WordInvert(w: bv32)
    ensures var s := Bytes32(w); Le32(s[0], s[1], s[2], s[3]) == w
  {
  }

  /** Word n of a block. */
  function WordAt(block: seq<bv8>, n: nat): bv32
    requires |block| == 16 && n < 4
  {
    Le32(block[4 * n], block[4 * n + 1], block[4 * n + 2], block[4 * n + 3])
  }

  /** INPACK, for a whole block. */
  function Packed(ctx: Context, block: seq<bv8>, m: nat): Text
    requires Sized(ctx) && |block| == 16 && m + 4 <= 8
  {
    Text(Mask(WordAt(block, 0), ctx.w[m]), Mask(WordAt(block, 1), ctx.w[m + 1]),
         Mask(WordAt(block, 2), ctx.w[m + 2]), Mask(WordAt(block, 3), ctx.w[m + 3]))
  }

  /** OUTUNPACK, for a whole block. */
  function Unpacked(ctx: Context, t: Text, m: nat): (block: seq<bv8>)
    requires Sized(ctx) && m + 4 <= 8
    ensures |block| == 16
  {
    Bytes32(Mask(t.a, ctx.w[m])) + Bytes32(Mask(t.b, ctx.w[m + 1]))
    + Bytes32(Mask(t.c, ctx.w[m + 2])) + Bytes32(Mask(t.d, ctx.w[m + 3]))
  }

  lemma PackUnpack(ctx: Context, t: Text, m: nat)
    requires Sized(ctx) && m + 4 <= 8
    ensures Packed(ctx, Unpacked(ctx, t, m), m) == t
  {
    hide Mask, Le32, Bytes32;
    MaskedWord(t.a, ctx.w[m]);
    MaskedWord(t.b, ctx.w[m + 1]);
    MaskedWord(t.c, ctx.w[m + 2]);
    MaskedWord(t.d, ctx.w[m + 3]);
  }

  lemma MaskedWord(w: bv32, key: bv32)
    ensures var s := Bytes32(Mask(w, key)); Mask(Le32(s[0], s[1], s[2], s[3]), key) == w
  {
    hide Bytes32, Le32;
    WordInvert(Mask(w, key));
    XorTwice(w, key);
  }

  lemma UnpackPack(ctx: Context, block: seq<bv8>, m: nat)
    requires Sized(ctx) && |block| == 16 && m + 4 <= 8
    ensures Unpacked(ctx, Packed(ctx, block, m), m) == block
  {
    hide Mask, Le32, Bytes32;
    MaskedBytes(block, 0, ctx.w[m]);
    MaskedBytes(block, 1, ctx.w[m + 1]);
    MaskedBytes(block, 2, ctx.w[m + 2]);
    MaskedBytes(block, 3, ctx.w[m + 3]);
    var t := Packed(ctx, block, m);
    assert Bytes32(Mask(t.a, ctx.w[m])) == block[..4];
    assert Bytes32(Mask(t.b, ctx.w[m + 1])) == block[4..8];
    assert Bytes32(Mask(t.c, ctx.w[m + 2])) == block[8..12];
    assert Bytes32(Mask(t.d, ctx.w[m + 3])) == block[12..];
    assert block == block[..4] + block[4..8] + block[8..12] + block[12..];
  }

  lemma MaskedBytes(block: seq<bv8>, n: nat, key: bv32)
    requires |block| == 16 && n < 4
    ensures Bytes32(Mask(Mask(WordAt(block, n), key), key)) == block[4 * n..4 * n + 4]
  {
    hide Bytes32, Le32;
    XorTwice(WordAt(block, n), key);
    BytesInvert(block[4 * n], block[4 * n + 1], block[4 * n + 2], block[4 * n + 3]);
  }

  function Turned(t: Text): Text {
    Text(t.c, t.d, t.a, t.b)
  }

  // ---- the programs ----------------------------------------------------------------------------------------

  /** One ENCCYCLE, its macros overwriting the four words in turn. */
  method Cycle(ctx: Context, n: nat, t: Text) returns (r: Text)
    requires Sized(ctx) && n < 8
    ensures r == EncCycle(ctx, n, t)
  {
    hide G1, G2, RotateLeft, RotateRight;
    var a, b, c, d := t.a, t.b, t.c, t.d;
    c, d := Encipher(ctx, 2 * n, a, b, c, d);
    a, b := Encipher(ctx, 2 * n + 1, c, d, a, b);
    r := Text(a, b, c, d);
  }

  /** ENCROUND */
  method Encipher(ctx: Context, n: nat, a: bv32, b: bv32, c0: bv32, d0: bv32) returns (c: bv32, d: bv32)
    requires Sized(ctx) && n < 16
    ensures (c, d) == EncRound(ctx, n, a, b, c0, d0)
  {
    hide G1, G2, RotateLeft, RotateRight, Mask, Add, PlusSum, SumPlus;
    var x, y := G1(ctx, a), G2(ctx, b);
    x := Add(x, y);
    y := PlusSum(y, x, ctx.k[2 * n + 1]);
    c := Mask(c0, Add(x, ctx.k[2 * n]));
    c := RotateRight(c);
    d := Mask(RotateLeft(d0), y);
  }

  /** One DECCYCLE */
  method Uncycle(ctx: Context, n: nat, t: Text) returns (r: Text)
    requires Sized(ctx) && n < 8
    ensures r == DecCycle(ctx, n, t)
  {
    hide G1, G2, RotateLeft, RotateRight;
    var a, b, c, d := t.a, t.b, t.c, t.d;
    a, b := Decipher(ctx, 2 * n + 1, c, d, a, b);
    c, d := Decipher(ctx, 2 * n, a, b, c, d);
    r := Text(a, b, c, d);
  }

  /** DECROUND */
  method Decipher(ctx: Context, n: nat, a: bv32, b: bv32, c0: bv32, d0: bv32) returns (c: bv32, d: bv32)
    requires Sized(ctx) && n < 16
    ensures (c, d) == DecRound(ctx, n, a, b, c0, d0)
  {
    hide G1, G2, RotateLeft, RotateRight, Mask, Add, PlusSum, SumPlus;
    var x, y := G1(ctx, a), G2(ctx, b);
    x := Add(x, y);
    d := Mask(d0, SumPlus(y, x, ctx.k[2 * n + 1]));
    d := RotateRight(d);
    c := RotateLeft(c0);
    c := Mask(c, Add(x, ctx.k[2 * n]));
  }

  /** do_twofish_encrypt */
  method Encrypt(ctx: Context, block: seq<bv8>) returns (out: seq<bv8>)
    requires Sized(ctx) && |block| == 16
    ensures out == Unpacked(ctx, Turned(EncCycles(ctx, Packed(ctx, block, 0), 8)), 4)
  {
    hide EncCycle, Packed, Unpacked, EncCycles;
    ghost var start := Packed(ctx, block, 0);
    var t := Packed(ctx, block, 0);
    NoCycles(ctx, start);
    t := EncNext(ctx, 0, t, start);
    t := EncNext(ctx, 1, t, start);
    t := EncNext(ctx, 2, t, start);
    t := EncNext(ctx, 3, t, start);
    t := EncNext(ctx, 4, t, start);
    t := EncNext(ctx, 5, t, start);
    t := EncNext(ctx, 6, t, start);
    t := EncNext(ctx, 7, t, start);
    out := Unpacked(ctx, Turned(t), 4);
  }

  method EncNext(ctx: Context, n: nat, t: Text, ghost start: Text) returns (r: Text)
    requires Sized(ctx) && n < 8 && t == EncCycles(ctx, start, n)
    ensures r == EncCycles(ctx, start, n + 1)
  {
    hide EncCycle;
    r := Cycle(ctx, n, t);
  }

  method DecNext(ctx: Context, n: nat, t: Text, ghost start: Text) returns (r: Text)
    requires Sized(ctx) && n < 8 && t == DecCycles(ctx, start, 7 - n)
    ensures r == DecCycles(ctx, start, 8 - n)
  {
    hide DecCycle;
    r := Uncycle(ctx, n, t);
  }

  lemma NoCycles(ctx: Context, t: Text)
    requires Sized(ctx)
    ensures EncCycles(ctx, t, 0) == t && DecCycles(ctx, t, 0) == t
  {
  }

  /** do_twofish_decrypt */
  method Decrypt(ctx: Context, block: seq<bv8>) returns (out: seq<bv8>)
    requires Sized(ctx) && |block| == 16
    ensures out == Unpacked(ctx, DecCycles(ctx, Turned(Packed(ctx, block, 4)), 8), 0)
  {
    hide DecCycle, Packed, Unpacked, DecCycles;
    ghost var start := Turned(Packed(ctx, block, 4));
    var t := Turned(Packed(ctx, block, 4));
    NoCycles(ctx, start);
    t := DecNext(ctx, 7, t, start);
    t := DecNext(ctx, 6, t, start);
    t := DecNext(ctx, 5, t, start);
    t := DecNext(ctx, 4, t, start);
    t := DecNext(ctx, 3, t, start);
    t := DecNext(ctx, 2, t, start);
    t := DecNext(ctx, 1, t, start);
    t := DecNext(ctx, 0, t, start);
    out := Unpacked(ctx, t, 0);
  }

  /** The block cipher on bytes: whitening, eight cycles, whitening of the turned halves. */
  function Encrypted(ctx: Context, block: seq<bv8>): (out: seq<bv8>)
    requires Sized(ctx) && |block| == 16
    ensures |out| == 16
  {
    Unpacked(ctx, Turned(EncCycles(ctx, Packed(ctx, block, 0), 8)), 4)
  }

  function Decrypted(ctx: Context, block: seq<bv8>): (out: seq<bv8>)
    requires Sized(ctx) && |block| == 16
    ensures |out| == 16
  {
    Unpacked(ctx, DecCycles(ctx, Turned(Packed(ctx, block, 4)), 8), 0)
  }

  /** For any context, decryption is the inverse of encryption. */
  lemma DecryptedEncrypted(ctx: Context, block: seq<bv8>)
    requires Sized(ctx) && |block| == 16
    ensures Decrypted(ctx, Encrypted(ctx, block)) == block
  {
    hide EncCycle, DecCycle, Packed, Unpacked, EncCycles, DecCycles;
    var t := Packed(ctx, block, 0);
    PackUnpack(ctx, Turned(EncCycles(ctx, t, 8)), 4);
    CyclesUndone(ctx, t, 8);
    NoCycles(ctx, t);
    UnpackPack(ctx, block, 0);
  }

  /** Decryption undoes encryption, for any context. */
  method RoundTrip(ctx: Context, block: seq<bv8>) returns (sent: seq<bv8>, back: seq<bv8>)
    requires Sized(ctx) && |block| == 16
    ensures sent == Encrypted(ctx, block) && back == Decrypted(ctx, sent) == block
  {
    hide Packed, Unpacked, EncCycles, DecCycles;
    sent := Encrypt(ctx, block);
    back := Decrypt(ctx, sent);
    DecryptedEncrypted(ctx, block);
  }
}
