/** The block collector of md32_common.h: HASH_INIT, HASH_UPDATE, HASH_TRANSFORM and HASH_FINAL. */
module Md32 {
  import opened ConstantTime
  import opened Hashing
  import Bits

  const SIZE_LIMIT: int := WORD * WORD

  /** The length of the part of an n-byte message that fills whole blocks. */
  function Whole(n: nat): (w: nat)
    ensures w <= n < w + BLOCK && w % BLOCK == 0 && n - w == n % BLOCK
  {
    n - n % BLOCK
  }

  lemma NothingPending(m: seq<Byte>)
    requires Whole(|m|) == |m|
    ensures |m| % BLOCK == 0 && m[..Whole(|m|)] == m && m[Whole(|m|)..] == []
  {
  }

  lemma FilledUp(m: seq<Byte>, d: seq<Byte>, n: nat)
    requires n == |m| - Whole(|m|) && |d| >= BLOCK - n
    ensures var w, t := Whole(|m|), m + d[..BLOCK - n];
            && w % BLOCK == 0 && Whole(|t|) == |t| == w + BLOCK
            && t[..w] == m[..w] && t[w..] == m[w..] + d[..BLOCK - n] && t == t[..w] + t[w..]
  {
    var t := m + d[..BLOCK - n];
    Bits.DivModUnique(|t|, BLOCK, |m| / BLOCK + 1, 0);
  }

  /** Bytes that complete no block leave the whole blocks alone. */
  lemma StillPending(m: seq<Byte>, d: seq<Byte>)
    requires |m| - Whole(|m|) + |d| < BLOCK
    ensures var w, t := Whole(|m|), m + d;
            Whole(|t|) == w && t[..w] == m[..w] && t[w..] == m[w..] + d
  {
    Bits.DivModUnique(|m + d|, BLOCK, |m| / BLOCK, |m| - Whole(|m|) + |d|);
  }

  function AddBits(nl: Word, len: nat): Word {
    (nl + len % WORD * 8 % WORD) % WORD
  }

  function Increment(nh: Word): Word {
    (nh + 1) % WORD
  }

  function AddHigh(nh: Word, len: nat): Word {
    (nh + len / 0x2000_0000 % WORD) % WORD
  }

  lemma WholeSum(w: nat, n: nat)
    requires Whole(w) == w
    ensures Whole(w + BLOCK * n) == w + BLOCK * n
  {
    Bits.DivModUnique(w + BLOCK * n, BLOCK, w / BLOCK + n, 0);
  }

  class ShaContext {
    var h: Sha
    var nl: Word
    var nh: Word
    var data: seq<Byte>
    var num: nat
    const f: Compression

    /** HASH_INIT: a cleared context with the initial chaining words. */
    constructor (f: Compression)
      ensures this.f == f && Absorbed([])
    {
      this.f := f;
      h := InitialState();
      nl, nh, num := 0, 0, 0;
      data := Zeros(BLOCK);
    }

    /** Chaining words and buffer are those of the message m. */
    ghost predicate Collected(m: seq<Byte>)
      reads this
    {
      && h == Fold(f, InitialState(), m[..Whole(|m|)])
      && num == |m| - Whole(|m|)
      && data == m[Whole(|m|)..] + Zeros(BLOCK - num)
    }

    ghost predicate Counted(m: seq<Byte>)
      reads this
    {
      nh * WORD + nl == (8 * |m|) % SIZE_LIMIT
    }

    /** Every field is the one that the message m determines, however m was split. */
    ghost predicate Absorbed(m: seq<Byte>)
      reads this
    {
      Collected(m) && Counted(m)
    }

    /** HASH_BLOCK_DATA_ORDER: one compression per block, at least one block. */
    method BlockDataOrder(p: seq<Byte>, count: nat)
      requires count > 0 && |p| == BLOCK * count
      modifies this`h
      ensures h == Fold(f, old(h), p)
    {
      hide Fold;
      var left, at := count, 0;
      FoldEmpty(f, h, p);
      while true
        invariant 0 < left <= count && at == BLOCK * (count - left)
        invariant h == Fold(f, old(h), p[..at])
        decreases left
      {
        FoldNext(f, old(h), p, count - left);
        h := f(h, p[at..at + BLOCK]);
        at := at + BLOCK;
        left := left - 1;
        if left == 0 {
          break;
        }
      }
      assert p[..at] == p;
    }

    /** HASH_TRANSFORM */
    method Transform(block: seq<Byte>)
      requires |block| == BLOCK
      modifies this`h
      ensures h == f(old(h), block)
    {
      BlockDataOrder(block, 1);
      FoldBlock(f, old(h), block);
    }

    /** The 64-bit bit counter. */
    method Count(len: nat, ghost m: seq<Byte>, ghost d: seq<Byte>)
      requires Counted(m) && len == |d| < SIZE_LIMIT
      modifies this`nl, this`nh
      ensures Counted(m + d)
    {
      hide AddBits, AddHigh, Increment;
      var l := AddBits(nl, len);
      CountCarry(nh, nl, l, if l < nl then 1 else 0, |m|, len);
      assert |m + d| == |m| + len;
      if l < nl {
        nh := Increment(nh);
      }
      nh := AddHigh(nh, len);
      nl := l;
    }

    /** The pending bytes and the first bytes of the input make one block. */
    method FillBlock(d: seq<Byte>, n: nat, ghost m: seq<Byte>)
      requires Collected(m) && n == num != 0 && |d| + n >= BLOCK
      modifies this`h, this`num, this`data
      ensures Collected(m + d[..BLOCK - n]) && num == 0
    {
      hide Whole, Fold;
      ghost var w := Whole(|m|);
      ghost var t := m + d[..BLOCK - n];
      FilledUp(m, d, n);
      data := data[..n] + d[..BLOCK - n];
      assert data == t[w..];
      BlockDataOrder(data, 1);
      FoldAppend(f, InitialState(), t[..w], t[w..]);
      num := 0;
      data := Zeros(BLOCK);
      NothingPending(t);
      assert data == [] + Zeros(BLOCK);
    }

    /** Whole blocks go straight from the input. */
    method WholeBlocks(d: seq<Byte>, n: nat, ghost m: seq<Byte>)
      requires Collected(m) && num == 0 && n == |d| / BLOCK > 0
      modifies this`h
      ensures Collected(m + d[..BLOCK * n])
    {
      hide Whole, Fold;
      ghost var t := m + d[..BLOCK * n];
      NothingPending(m);
      assert data == [] + Zeros(BLOCK) == Zeros(BLOCK);
      BlockDataOrder(d[..BLOCK * n], n);
      FoldAppend(f, InitialState(), m, d[..BLOCK * n]);
      assert |t| == |m| + BLOCK * n;
      WholeSum(|m|, n);
      NothingPending(t);
    }

    /** What is left of the input waits in the cleared buffer. */
    method KeepRest(d: seq<Byte>, ghost m: seq<Byte>)
      requires Collected(m) && num == 0 && |d| < BLOCK
      modifies this`num, this`data
      ensures Collected(m + d)
    {
      hide Whole, Fold;
      StillPending(m, d);
      assert m[Whole(|m|)..] == [];
      num := |d|;
      data := d + data[|d|..];
    }

    /** HASH_UPDATE */
    method Update(input: seq<Byte>, ghost m: seq<Byte>)
      requires Absorbed(m) && |input| < SIZE_LIMIT
      modifies this
      ensures Absorbed(m + input)
    {
      var d := input;
      if |d| == 0 {
        assert m + input == m;
        return;
      }
      Count(|d|, m, input);
      ghost var t := m;
      var n := num;
      if n != 0 {
        if |d| >= BLOCK || |d| + n >= BLOCK {
          FillBlock(d, n, m);
          t, d := m + d[..BLOCK - n], d[BLOCK - n..];
        } else {
          Append(d, n, m);
          return;
        }
      }
      assert t + d == m + input;
      AbsorbRest(d, t);
    }

    /** The input once no block is pending. */
    method AbsorbRest(input: seq<Byte>, ghost m: seq<Byte>)
      requires Collected(m) && num == 0
      modifies this`h, this`num, this`data
      ensures Collected(m + input)
    {
      var d := input;
      ghost var t := m;
      var n := |d| / BLOCK;
      if n > 0 {
        WholeBlocks(d, n, m);
        t, d := m + d[..BLOCK * n], d[BLOCK * n..];
      }
      assert t + d == m + input;
      if |d| != 0 {
        KeepRest(d, t);
      } else {
        assert t == m + input;
      }
    }

    /** Input that does not complete the pending block. */
    method Append(d: seq<Byte>, n: nat, ghost m: seq<Byte>)
      requires Collected(m) && n == num && |d| + n < BLOCK
      modifies this`num, this`data
      ensures Collected(m + d)
    {
      hide Whole, Fold;
      StillPending(m, d);
      data := data[..n] + d + data[n + |d|..];
      num := num + |d|;
    }

    /** The 0x80 byte, and one more block when the length no longer fits behind it. */
    method Terminate(ghost tail: seq<Byte>) returns (n: nat, ghost done: seq<Byte>)
      requires num < BLOCK && data == tail + Zeros(BLOCK - num) && |tail| == num
      modifies this`h, this`data
      ensures |data| == BLOCK && n <= BLOCK - 8 && |done| % BLOCK == 0
      ensures h == Fold(f, old(h), done)
      ensures done + data[..n] + Zeros(BLOCK - 8 - n) == tail + [0x80] + Zeros(ZeroCount(num))
    {
      hide Fold;
      n := num;
      data := data[..n] + [0x80] + data[n + 1..];
      n, done := n + 1, [];
      FoldEmpty(f, h, done);
      assert data[..n] == tail + [0x80];
      if n > BLOCK - 8 {
        data := data[..n] + Zeros(BLOCK - n);
        done := data;
        n := 0;
        BlockDataOrder(data, 1);
      }
    }

    /** The last block ends in the bit count. */
    method CloseBlock(n: nat) returns (ghost last: seq<Byte>)
      requires |data| == BLOCK && n <= BLOCK - 8
      modifies this`h, this`data
      ensures last == old(data[..n]) + Zeros(BLOCK - 8 - n) + (WordBytes(nh) + WordBytes(nl))
      ensures h == Fold(f, old(h), last)
    {
      hide Fold, WordBytes;
      data := data[..n] + Zeros(BLOCK - 8 - n) + data[BLOCK - 8..];
      data := data[..BLOCK - 8] + WordBytes(nh) + WordBytes(nl);
      last := data;
      BlockDataOrder(data, 1);
    }

    /** HASH_FINAL */
    method Final(ghost m: seq<Byte>) returns (md: seq<Byte>)
      requires Absorbed(m)
      modifies this
      ensures md == Hash(f, m) == BigEndian(Number(Fold(f, InitialState(), Pad(m))), 20)
      ensures num == 0 && data == Zeros(BLOCK)
    {
      hide Fold, Whole, Zeros, Serialise, Number, BigEndian, Hash;
      ghost var tail, start := m[Whole(|m|)..], h;
      var n, done := Terminate(tail);
      ghost var part, filled := h, data[..n];
      ghost var last := CloseBlock(n);
      num := 0;
      data := Zeros(BLOCK);
      CounterField(nh, nl, 8 * |m|);
      FoldAppend(f, start, done, last);
      LastBlocks(m, done, filled, n, last);
      md := WriteWords(h);
      HashIs(f, m);
      PadFold(f, m);
    }
  }

  lemma HashIs(f: Compression, m: seq<Byte>)
    ensures Hash(f, m) == Serialise(Fold(f, InitialState(), Pad(m)))
    ensures Hash(f, m) == BigEndian(Number(Fold(f, InitialState(), Pad(m))), 20)
  {
  }

  /** The one or two closing blocks are what padding adds. */
  lemma LastBlocks(m: seq<Byte>, done: seq<Byte>, filled: seq<Byte>, n: nat, last: seq<Byte>)
    requires n <= BLOCK - 8 && |filled| == n
    requires done + filled + Zeros(BLOCK - 8 - n) == m[Whole(|m|)..] + [0x80] + Zeros(ZeroCount(|m[Whole(|m|)..]|))
    requires last == filled + Zeros(BLOCK - 8 - n) + BigEndian(8 * |m|, 8)
    ensures done + last == PadTail(m)
  {
    hide BigEndian, Zeros, ZeroCount, Whole;
    var z := Zeros(BLOCK - 8 - n);
    Regroup(done, filled, z);
    Regroup(done, filled + z, BigEndian(8 * |m|, 8));
  }

  lemma PadFold(f: Compression, m: seq<Byte>)
    ensures Fold(f, InitialState(), Pad(m)) == Fold(f, Fold(f, InitialState(), m[..Whole(|m|)]), PadTail(m))
  {
    PadSplit(m);
    FoldAppend(f, InitialState(), m[..Whole(|m|)], PadTail(m));
  }

  /** What padding adds to the whole blocks of m. */
  function PadTail(m: seq<Byte>): (t: seq<Byte>)
    ensures |t| % BLOCK == 0
  {
    m[Whole(|m|)..] + [0x80] + Zeros(ZeroCount(|m|)) + BigEndian(8 * |m|, 8)
  }

  lemma PadSplit(m: seq<Byte>)
    ensures Pad(m) == m[..Whole(|m|)] + PadTail(m)
  {
    assert m == m[..Whole(|m|)] + m[Whole(|m|)..];
  }

  /** The low word of the new count, and what it carries. */
  lemma LowWord(nl: Word, l: Word, carry: int, len: nat)
    requires l == AddBits(nl, len) && carry == (if l < nl then 1 else 0)
    ensures nl + 8 * (len % 0x2000_0000) == carry * WORD + l
  {
    var q, r := len / 0x2000_0000, len % 0x2000_0000;
    var a, b := q / 8, q % 8;
    assert len == WORD * a + (b * 0x2000_0000 + r);
    Bits.DivModUnique(len, WORD, a, b * 0x2000_0000 + r);
    assert len % WORD * 8 == WORD * b + 8 * r;
    Bits.DivModUnique(len % WORD * 8, WORD, b, 8 * r);
    var c := if nl + 8 * r < WORD then 0 else 1;
    Bits.DivModUnique(nl + 8 * r, WORD, c, nl + 8 * r - c * WORD);
  }

  /** Two additions of words modulo 2^32 are one. */
  lemma HighWord(nh: Word, carry: int, q: nat)
    requires 0 <= carry <= 1
    ensures ((nh + carry) % WORD + q % WORD) % WORD == (nh + carry + q) % WORD
  {
  }

  lemma HighSum(nh: Word, carry: int, len: nat)
    requires 0 <= carry <= 1
    ensures AddHigh(if carry == 1 then Increment(nh) else nh, len) == (nh + carry + len / 0x2000_0000) % WORD
  {
    HighWord(nh, carry, len / 0x2000_0000);
  }

  /** Adding a byte count to Nh:Nl modulo 2^64. */
  lemma CountCarry(nh: Word, nl: Word, l: Word, carry: int, n: nat, len: nat)
    requires nh * WORD + nl == (8 * n) % SIZE_LIMIT
    requires l == AddBits(nl, len) && carry == (if l < nl then 1 else 0)
    ensures AddHigh(if carry == 1 then Increment(nh) else nh, len) * WORD + l == (8 * (n + len)) % SIZE_LIMIT
  {
    hide AddBits, AddHigh, Increment;
    var q, r := len / 0x2000_0000, len % 0x2000_0000;
    LowWord(nl, l, carry, len);
    HighSum(nh, carry, len);
    CountModulo(nh, nl, l, carry, q, r, 8 * n);
    assert len == q * 0x2000_0000 + r;
    assert 8 * (n + len) == 8 * n + q * WORD + 8 * r;
  }

  lemma CountModulo(nh: Word, nl: Word, l: Word, carry: int, q: nat, r: nat, n: nat)
    requires nh * WORD + nl == n % SIZE_LIMIT && nl + 8 * r == carry * WORD + l
    ensures (nh + carry + q) % WORD * WORD + l == (n + q * WORD + 8 * r) % SIZE_LIMIT
  {
    var sum := nh + carry + q;
    var a, b, k := sum / WORD, sum % WORD, n / SIZE_LIMIT;
    assert n + q * WORD + 8 * r == SIZE_LIMIT * (k + a) + (b * WORD + l);
    Bits.DivModUnique(n + q * WORD + 8 * r, SIZE_LIMIT, k + a, b * WORD + l);
  }

  /** The counter written big-endian is the length field of the padding. */
  lemma CounterField(nh: Word, nl: Word, bits: nat)
    requires nh * WORD + nl == bits % SIZE_LIMIT
    ensures BigEndian(bits, 8) == WordBytes(nh) + WordBytes(nl)
  {
    hide BigEndian;
    var x, k := nh * WORD + nl, bits / SIZE_LIMIT;
    TwoWords();
    BigEndianWraps(x, k, 8, SIZE_LIMIT);
    assert bits == x + k * SIZE_LIMIT;
    LengthField(nh, nl);
  }

  lemma TwoWords()
    ensures SIZE_LIMIT == Bits.Pow2(8 * 8)
  {
    Bits.Pow2Words();
    Bits.Pow2Add(32, 32);
  }

  function Joined(pieces: seq<seq<Byte>>): seq<Byte> {
    if pieces == [] then [] else Joined(pieces[..|pieces| - 1]) + pieces[|pieces| - 1]
  }

  /** A stream of updates hashes the concatenation of its pieces. */
  method HashPieces(f: Compression, pieces: seq<seq<Byte>>) returns (md: seq<Byte>)
    requires forall i :: 0 <= i < |pieces| ==> |pieces[i]| < SIZE_LIMIT
    ensures md == Hash(f, Joined(pieces))
  {
    var c := new ShaContext(f);
    for i := 0 to |pieces|
      invariant c.f == f && c.Absorbed(Joined(pieces[..i]))
    {
      c.Update(pieces[i], Joined(pieces[..i]));
      assert pieces[..i + 1][..i] == pieces[..i];
    }
    assert pieces[..|pieces|] == pieces;
    md := c.Final(Joined(pieces));
  }

  /** A context has one state per message: how the message was split leaves no trace. */
  lemma SplitLeavesNoTrace(a: ShaContext, b: ShaContext, m: seq<Byte>)
    requires a.f == b.f && a.Absorbed(m) && b.Absorbed(m)
    ensures a.h == b.h && a.num == b.num && a.data == b.data && a.nl == b.nl && a.nh == b.nh
  {
    Bits.DivModUnique(a.nh * WORD + a.nl, WORD, a.nh, a.nl);
    Bits.DivModUnique(b.nh * WORD + b.nl, WORD, b.nh, b.nl);
  }
}
