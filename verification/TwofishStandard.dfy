/** Twofish as its authors describe it, round by round, and the programs' cycles proved to be the same. */
module TwofishStandard {
  import opened Twofish

  // ---- the cipher as published -----------------------------------------------------------------------------

  /** Rotation to the left. */
  function Rol(w: bv32, n: bv32): bv32
    requires 0 < n < 32
  {
    (w << n) | (w >> (32 - n))
  }

  function Xor(a: bv32, b: bv32): bv32 {
    a ^ b
  }

  function Xor4(a: bv32, b: bv32, c: bv32, d: bv32): bv32 {
    a ^ b ^ c ^ d
  }

  /** Byte j of a word, the lowest first. */
  function ByteAt(w: bv32, j: nat): bv8
    requires j < 4
  {
    if j == 0 then Byte(w) else if j == 1 then Byte(w >> 8) else if j == 2 then Byte(w >> 16) else Byte(w >> 24)
  }

  /** The function g: the four bytes through the four tables, the lowest byte first. */
  function G(ctx: Context, w: bv32): bv32 {
    Xor4(ctx.s0(ByteAt(w, 0)), ctx.s1(ByteAt(w, 1)), ctx.s2(ByteAt(w, 2)), ctx.s3(ByteAt(w, 3)))
  }

  function F0(t0: bv32, t1: bv32, k: bv32): bv32 {
    t0 + t1 + k
  }

  function F1(t0: bv32, t1: bv32, k: bv32): bv32 {
    t0 + 2 * t1 + k
  }

  /** One of the sixteen rounds: g of the second word is taken after a rotation by eight; the halves change places. */
  function PaperRound(ctx: Context, r: nat, t: Text): Text
    requires Sized(ctx) && r < 16
  {
    var t0, t1 := G(ctx, t.a), G(ctx, Rol(t.b, 8));
    Text(Rol(Xor(t.c, F0(t0, t1, ctx.k[2 * r])), 31), Xor(Rol(t.d, 1), F1(t0, t1, ctx.k[2 * r + 1])), t.a, t.b)
  }

  function PaperRounds(ctx: Context, t: Text, n: nat): Text
    requires Sized(ctx) && n <= 16
  {
    if n == 0 then t else PaperRound(ctx, n - 1, PaperRounds(ctx, t, n - 1))
  }

  // ---- the programs' macros --------------------------------------------------------------------------------

  lemma FirstG(ctx: Context, w: bv32)
    ensures G1(ctx, w) == G(ctx, w)
  {
    hide Byte, Four, Xor4;
    FourXor(ctx.s0(ByteAt(w, 0)), ctx.s1(ByteAt(w, 1)), ctx.s2(ByteAt(w, 2)), ctx.s3(ByteAt(w, 3)));
  }

  lemma FourXor(a: bv32, b: bv32, c: bv32, d: bv32)
    ensures Four(a, b, c, d) == Xor4(a, b, c, d)
  {
  }

  lemma RotatedBytes(w: bv32)
    ensures ByteAt(Rol(w, 8), 0) == ByteAt(w, 3) && ByteAt(Rol(w, 8), 1) == ByteAt(w, 0)
    ensures ByteAt(Rol(w, 8), 2) == ByteAt(w, 1) && ByteAt(Rol(w, 8), 3) == ByteAt(w, 2)
  {
    hide Byte, Rol;
    LowTwo(w);
    HighTwo(w);
  }

  lemma LowTwo(w: bv32)
    ensures Byte(Rol(w, 8)) == Byte(w >> 24) && Byte(Rol(w, 8) >> 8) == Byte(w)
  {
  }

  lemma HighTwo(w: bv32)
    ensures Byte(Rol(w, 8) >> 16) == Byte(w >> 8) && Byte(Rol(w, 8) >> 24) == Byte(w >> 16)
  {
  }

  lemma TurnXor(a: bv32, b: bv32, c: bv32, d: bv32)
    ensures Xor4(b, c, d, a) == Xor4(a, b, c, d)
  {
  }

  lemma SecondOpened(ctx: Context, w: bv32)
    ensures G2(ctx, w) == Xor4(ctx.s1(ByteAt(w, 0)), ctx.s2(ByteAt(w, 1)), ctx.s3(ByteAt(w, 2)), ctx.s0(ByteAt(w, 3)))
  {
    hide Byte, Four, Xor4;
    FourXor(ctx.s1(ByteAt(w, 0)), ctx.s2(ByteAt(w, 1)), ctx.s3(ByteAt(w, 2)), ctx.s0(ByteAt(w, 3)));
  }

  /** The second g macro is g after the rotation. */
  lemma SecondG(ctx: Context, w: bv32)
    ensures G2(ctx, w) == G(ctx, Rol(w, 8))
  {
    hide G2, ByteAt, Rol, Xor4;
    SecondOpened(ctx, w);
    RotatedBytes(w);
    TurnXor(ctx.s0(ByteAt(w, 3)), ctx.s1(ByteAt(w, 0)), ctx.s2(ByteAt(w, 1)), ctx.s3(ByteAt(w, 2)));
  }

  lemma Rotations(w: bv32)
    ensures RotateRight(w) == Rol(w, 31) && RotateLeft(w) == Rol(w, 1)
  {
  }

  lemma Masked(w: bv32, key: bv32)
    ensures Mask(w, key) == Xor(w, key)
  {
  }

  lemma Sums(g: bv32, h: bv32, k: bv32)
    ensures Add(Add(g, h), k) == F0(g, h, k) && PlusSum(h, Add(g, h), k) == F1(g, h, k)
  {
  }

  lemma RoundIsPaper(ctx: Context, r: nat, t: Text)
    requires Sized(ctx) && r < 16
    ensures var e := EncRound(ctx, r, t.a, t.b, t.c, t.d); PaperRound(ctx, r, t) == Text(e.0, e.1, t.a, t.b)
  {
    hide G1, G2, G, RotateLeft, RotateRight, Rol, Add, PlusSum, F0, F1, Mask, Xor;
    FirstG(ctx, t.a);
    SecondG(ctx, t.b);
    var g, h := G(ctx, t.a), G(ctx, Rol(t.b, 8));
    Sums(g, h, ctx.k[2 * r]);
    Sums(g, h, ctx.k[2 * r + 1]);
    var f0, f1 := F0(g, h, ctx.k[2 * r]), F1(g, h, ctx.k[2 * r + 1]);
    Masked(t.c, f0);
    Masked(RotateLeft(t.d), f1);
    Rotations(Mask(t.c, f0));
    Rotations(t.d);
  }

  /** A cycle is two rounds. */
  lemma {:induction false} CyclesArePaper(ctx: Context, t: Text, n: nat)
    requires Sized(ctx) && n <= 8
    ensures EncCycles(ctx, t, n) == PaperRounds(ctx, t, 2 * n)
  {
    hide EncRound, PaperRound;
    if n > 0 {
      CyclesArePaper(ctx, t, n - 1);
      var u := EncCycles(ctx, t, n - 1);
      RoundIsPaper(ctx, 2 * n - 2, u);
      RoundIsPaper(ctx, 2 * n - 1, PaperRound(ctx, 2 * n - 2, u));
      TwoMore(ctx, t, 2 * n - 2);
    }
  }

  lemma TwoMore(ctx: Context, t: Text, n: nat)
    requires Sized(ctx) && n + 2 <= 16
    ensures PaperRounds(ctx, t, n + 2) == PaperRound(ctx, n + 1, PaperRound(ctx, n, PaperRounds(ctx, t, n)))
  {
    hide PaperRound;
  }

  // ---- the whole block -----------------------------------------------------------------------------------------

  lemma LeBytes(a: bv8, b: bv8, c: bv8, d: bv8)
    ensures var w := Le32(a, b, c, d);
            ByteAt(w, 0) == a && ByteAt(w, 1) == b && ByteAt(w, 2) == c && ByteAt(w, 3) == d
  {
  }

  /** A word of the block has the block's bytes, the lowest first. */
  lemma WordBytes(block: seq<bv8>, n: nat, j: nat)
    requires |block| == 16 && n < 4 && j < 4
    ensures ByteAt(WordAt(block, n), j) == block[4 * n + j]
  {
    hide ByteAt, Le32;
    LeBytes(block[4 * n], block[4 * n + 1], block[4 * n + 2], block[4 * n + 3]);
  }

  /** The input words, whitened with the first four of the whitening words. */
  function Whitened(ctx: Context, block: seq<bv8>): Text
    requires Sized(ctx) && |block| == 16
  {
    Text(Xor(WordAt(block, 0), ctx.w[0]), Xor(WordAt(block, 1), ctx.w[1]), Xor(WordAt(block, 2), ctx.w[2]),
         Xor(WordAt(block, 3), ctx.w[3]))
  }

  lemma PackedIsWhitened(ctx: Context, block: seq<bv8>)
    requires Sized(ctx) && |block| == 16
    ensures Packed(ctx, block, 0) == Whitened(ctx, block)
  {
    hide WordAt, Mask, Xor;
    Masked(WordAt(block, 0), ctx.w[0]);
    Masked(WordAt(block, 1), ctx.w[1]);
    Masked(WordAt(block, 2), ctx.w[2]);
    Masked(WordAt(block, 3), ctx.w[3]);
  }

  lemma UnpackedBytes(ctx: Context, t: Text, j: nat)
    requires Sized(ctx) && j < 4
    ensures var out := Unpacked(ctx, t, 4);
            && out[j] == ByteAt(Xor(t.a, ctx.w[4]), j) && out[4 + j] == ByteAt(Xor(t.b, ctx.w[5]), j)
            && out[8 + j] == ByteAt(Xor(t.c, ctx.w[6]), j) && out[12 + j] == ByteAt(Xor(t.d, ctx.w[7]), j)
  {
    hide Mask, Xor, Bytes32, ByteAt;
    Masked(t.a, ctx.w[4]);
    Masked(t.b, ctx.w[5]);
    Masked(t.c, ctx.w[6]);
    Masked(t.d, ctx.w[7]);
    OneByte(Xor(t.a, ctx.w[4]), j);
    OneByte(Xor(t.b, ctx.w[5]), j);
    OneByte(Xor(t.c, ctx.w[6]), j);
    OneByte(Xor(t.d, ctx.w[7]), j);
  }

  lemma OneByte(w: bv32, j: nat)
    requires j < 4
    ensures Bytes32(w)[j] == ByteAt(w, j)
  {
  }

  /**
   * What the programs encrypt a block to: sixteen rounds on the whitened words, the last exchange of halves undone, and
   * the other four whitening words.
   */
  lemma EncryptedIsPaper(ctx: Context, block: seq<bv8>, j: nat)
    requires Sized(ctx) && |block| == 16 && j < 4
    ensures var t, out := PaperRounds(ctx, Whitened(ctx, block), 16), Encrypted(ctx, block);
            && out[j] == ByteAt(Xor(t.c, ctx.w[4]), j) && out[4 + j] == ByteAt(Xor(t.d, ctx.w[5]), j)
            && out[8 + j] == ByteAt(Xor(t.a, ctx.w[6]), j) && out[12 + j] == ByteAt(Xor(t.b, ctx.w[7]), j)
  {
    hide Whitened, Packed, Unpacked, EncCycles, PaperRounds, ByteAt, Xor;
    PackedIsWhitened(ctx, block);
    CyclesArePaper(ctx, Packed(ctx, block, 0), 8);
    UnpackedBytes(ctx, Turned(EncCycles(ctx, Packed(ctx, block, 0), 8)), j);
  }
}
