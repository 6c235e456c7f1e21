/** The signed multi-precision integer and the loops that work on its limbs in place. */
module MpiCore {
  import opened Bits
  import opened Limbs

  const MAX_LIMBS: nat := 10000
  const ERR_ALLOC_FAILED: int := -0x10
  const ERR_BAD_INPUT_DATA: int := -0x4
  const ERR_NEGATIVE_VALUE: int := -0xA
  const ERR_DIVISION_BY_ZERO: int := -0xC

  // ---- column by column: what a running loop has still to do ---------------------------------

  /** d with the limbs from off on replaced by done. */
  function Splice(d: seq<Limb>, off: nat, done: seq<Limb>): (r: seq<Limb>)
    requires off + |done| <= |d|
    ensures |r| == |d|
    ensures forall i :: off + |done| <= i < |d| ==> r[i] == d[i]
  {
    d[..off] + done + d[off + |done|..]
  }

  lemma SpliceNext(d: seq<Limb>, off: nat, done: seq<Limb>, x: Limb)
    requires off + |done| < |d|
    ensures Splice(d, off, done)[off + |done| := x] == Splice(d, off, done + [x])
  {
  }

  /** done is the result of the first |done| limbs of l - r, c the borrow into the next. */
  ghost predicate Subtracting(done: seq<Limb>, l: seq<Limb>, r: seq<Limb>, c: int)
    requires |l| == |r|
  {
    && |done| <= |l| && 0 <= c <= 1
    && done + SubLimbs(l[|done|..], r[|done|..], c) == SubLimbs(l, r, 0)
    && SubBorrow(l[|done|..], r[|done|..], c) == SubBorrow(l, r, 0)
  }

  lemma SubtractStart(d: seq<Limb>, off: nat, l: seq<Limb>, r: seq<Limb>)
    requires |l| == |r| && off <= |d|
    ensures Subtracting([], l, r, 0) && Splice(d, off, []) == d
  {
    assert [] + SubLimbs(l, r, 0) == SubLimbs(l, r, 0);
    assert l[0..] == l && r[0..] == r;
  }

  lemma SubtractLimb(done: seq<Limb>, l: seq<Limb>, r: seq<Limb>, c: int, x: Limb)
    requires |l| == |r| && |done| < |l| && Subtracting(done, l, r, c)
    requires x == (l[|done|] - r[|done|] - c) % BASE
    ensures Subtracting(done + [x], l, r, if l[|done|] - r[|done|] - c < 0 then 1 else 0)
  {
    var k := |done|;
    assert l[k..][1..] == l[k + 1..] && r[k..][1..] == r[k + 1..];
    var c1 := if l[k] - r[k] - c < 0 then 1 else 0;
    assert done + SubLimbs(l[k..], r[k..], c) == (done + [x]) + SubLimbs(l[k + 1..], r[k + 1..], c1);
  }

  lemma SubtractDone(done: seq<Limb>, l: seq<Limb>, r: seq<Limb>, c: int)
    requires |l| == |r| == |done| && Subtracting(done, l, r, c)
    ensures done == SubLimbs(l, r, 0) && c == SubBorrow(l, r, 0)
  {
  }

  /** The two-step borrow of the C code is the borrow of the exact difference. */
  lemma SubWords(l: Limb, r: Limb, c: int)
    requires 0 <= c <= 1
    ensures ((l - c) % BASE - r) % BASE == (l - r - c) % BASE
    ensures (if (l - c) % BASE < r then 1 else 0) + (if l < c then 1 else 0) == if l - r - c < 0 then 1 else 0
  {
  }

  /** The part of s from column k on. */
  function From(s: seq<Limb>, k: nat): seq<Limb> {
    if k <= |s| then s[k..] else []
  }

  /** done is the result of the first |done| columns of d + s * b, c the carry into the next. */
  ghost predicate Accumulating(done: seq<Limb>, d: seq<Limb>, s: seq<Limb>, b: Limb, c: Limb)
    requires |s| <= |d|
  {
    && |done| <= |d|
    && done + MulAdd(d[|done|..], From(s, |done|), b, c) == MulAdd(d, s, b, 0)
  }

  lemma AccumulateStart(d0: seq<Limb>, off: nat, d: seq<Limb>, s: seq<Limb>, b: Limb)
    requires |s| <= |d| && off <= |d0|
    ensures Accumulating([], d, s, b, 0) && Splice(d0, off, []) == d0
  {
    assert s[0..] == s && d[0..] == d;
    assert [] + MulAdd(d, s, b, 0) == MulAdd(d, s, b, 0);
  }

  lemma AccumulateColumn(done: seq<Limb>, d: seq<Limb>, s: seq<Limb>, b: Limb, c: Limb, a: Limb, x: Limb, y: Limb)
    requires |s| <= |d| && |done| < |d| && Accumulating(done, d, s, b, c)
    requires a == if |done| < |s| then s[|done|] else 0
    requires x == Column(d[|done|], a, b, c) % BASE && y == Column(d[|done|], a, b, c) / BASE
    ensures Accumulating(done + [x], d, s, b, y)
  {
    var k := |done|;
    var s1 := From(s, k);
    assert d[k..][1..] == d[k + 1..];
    assert (if |s1| > 0 then s1[1..] else []) == From(s, k + 1);
    assert done + MulAdd(d[k..], s1, b, c) == (done + [x]) + MulAdd(d[k + 1..], From(s, k + 1), b, y);
  }

  lemma AccumulateDone(done: seq<Limb>, d: seq<Limb>, s: seq<Limb>, b: Limb, c: Limb)
    requires |s| <= |d| == |done| && Accumulating(done, d, s, b, c)
    ensures done == MulAdd(d, s, b, 0)
  {
  }

  /** Two wrapping additions with their carries give the double-word sum. */
  lemma ColumnWords(d: Limb, r: int, c: Limb)
    requires 0 <= r <= (BASE - 1) * (BASE - 1)
    ensures var x := (r % BASE + c) % BASE;
            var y := (x + d) % BASE;
            && y == (d + r + c) % BASE
            && r / BASE + (if x < c then 1 else 0) + (if y < d then 1 else 0) == (d + r + c) / BASE
  {
  }

  // ---- the integer ------------------------------------------------------------------------------

  /** s is the sign (1 or -1 once initialised), p the limb buffer; private_n is |p|. */
  class Mpi {
    var s: int
    var p: seq<Limb>

    /** mbedtls_mpi_init */
    constructor ()
      ensures s == 1 && p == []
    {
      s, p := 1, [];
    }

    /** The absolute value. */
    function Mag(): (m: nat)
      reads this`p
    {
      Val(p)
    }

    ghost predicate Signed()
      reads this`s
    {
      s == 1 || s == -1
    }

    /** The integer; a sign on zero is kept in s but does not show here. */
    function Int(): (v: int)
      reads this
    {
      var m: int := Mag();
      if s < 0 then -m else m
    }

    /** The scan for the highest nonzero limb that most operations start with. */
    method UsedLimbs() returns (j: nat)
      ensures j == Used(p)
    {
      j := |p|;
      while j > 0
        invariant j <= |p|
        invariant Used(p) == Used(p[..j])
      {
        if p[j - 1] != 0 {
          break;
        }
        assert p[..j][..j - 1] == p[..j - 1];
        j := j - 1;
      }
    }

    method Grow(nblimbs: nat) returns (ret: int)
      modifies this`p
      ensures ret == if nblimbs > MAX_LIMBS then ERR_ALLOC_FAILED else 0
      ensures |p| == if ret == 0 && nblimbs > |old(p)| then nblimbs else |old(p)|
      ensures p == old(p) + Zeros(|p| - |old(p)|)
      ensures Mag() == old(Mag())
    {
      if nblimbs > MAX_LIMBS {
        return ERR_ALLOC_FAILED;
      }
      if |p| < nblimbs {
        p := p + Zeros(nblimbs - |p|);
      }
      ValTrim(p, |old(p)|);
      assert p[..|old(p)|] == old(p);
      ret := 0;
    }

    /** One limb of a subtraction with borrow. */
    method SubLimb(k: nat, x: Limb, y: Limb, c: Limb) returns (c1: Limb)
      requires k < |p| && c <= 1
      modifies this`p
      ensures p == old(p)[k := (x - y - c) % BASE]
      ensures c1 == if x - y - c < 0 then 1 else 0
    {
      SubWords(x, y, c);
      var z: Limb := if x < c then 1 else 0;
      var t: Limb := (x - c) % BASE;
      c1 := (if t < y then 1 else 0) + z;
      p := p[k := (t - y) % BASE];
    }

    /** this := l - r on n limbs at off; returns the borrow. this may be L, or R, at the same place. */
    method SubHlp(n: nat, off: nat, L: Mpi, loff: nat, R: Mpi) returns (c: Limb)
      requires off + n <= |p| && loff + n <= |L.p| && n <= |R.p|
      requires L == this ==> loff == off
      requires R == this ==> off == 0
      modifies this`p
      ensures p == Splice(old(p), off, SubLimbs(old(L.p[loff..loff + n]), old(R.p[..n]), 0))
      ensures c == SubBorrow(old(L.p[loff..loff + n]), old(R.p[..n]), 0)
    {
      hide SubLimbs, SubBorrow, Subtracting, Splice;
      ghost var l, r, d, done := L.p[loff..loff + n], R.p[..n], p, [];
      c := 0;
      var i := 0;
      SubtractStart(d, off, l, r);
      while i < n
        invariant i == |done| <= n && c <= 1
        invariant p == Splice(d, off, done)
        invariant Subtracting(done, l, r, c)
        invariant L != this ==> L.p == old(L.p)
        invariant R != this ==> R.p == old(R.p)
      {
        assert L.p[loff + i] == l[i] && R.p[i] == r[i];
        ghost var x: Limb := (l[i] - r[i] - c) % BASE;
        SubtractLimb(done, l, r, c, x);
        SpliceNext(d, off, done, x);
        c := SubLimb(off + i, L.p[loff + i], R.p[i], c);
        i, done := i + 1, done + [x];
      }
      SubtractDone(done, l, r, c);
    }

    /** MULADDC_CORE: one multiply-accumulate column, the high word returned as carry. */
    method MulAddColumn(k: nat, a: Limb, b: Limb, c: Limb) returns (c1: Limb)
      requires k < |p|
      modifies this`p
      ensures p == old(p)[k := Column(old(p[k]), a, b, c) % BASE]
      ensures c1 == Column(old(p[k]), a, b, c) / BASE
    {
      ProductBound(a, b);
      var r := a * b;
      ColumnWords(p[k], r, c);
      var r0: Limb, r1 := r % BASE, r / BASE;
      r0 := (r0 + c) % BASE;
      r1 := r1 + if r0 < c then 1 else 0;
      r0 := (r0 + p[k]) % BASE;
      r1 := r1 + if r0 < p[k] then 1 else 0;
      p := p[k := r0];
      c1 := r1;
    }

    /** Mid-way through CoreMla: `done` columns of d + s * b are stored at off, S still holds the rest of s. */
    ghost predicate MlaState(off: nat, d0: seq<Limb>, d: seq<Limb>, S: Mpi, s: seq<Limb>, b: Limb, done: seq<Limb>,
        c: Limb)
      reads this`p, S`p
    {
      && |s| <= |d| && off + |d| <= |d0| && d == d0[off..off + |d|]
      && |done| <= |d| && p == Splice(d0, off, done)
      && Accumulating(done, d, s, b, c)
      && |s| <= |S.p| && (S == this ==> off == 0)
      && forall i :: |done| <= i < |s| ==> S.p[i] == s[i]
    }

    lemma MlaStart(off: nat, d: seq<Limb>, S: Mpi, s: seq<Limb>, b: Limb)
      requires off + |d| <= |p| && d == p[off..off + |d|] && |s| <= |d|
      requires |s| <= |S.p| && s == S.p[..|s|] && (S == this ==> off == 0)
      ensures MlaState(off, p, d, S, s, b, [], 0)
    {
      AccumulateStart(p, off, d, s, b);
    }

    lemma MlaDone(off: nat, d0: seq<Limb>, d: seq<Limb>, S: Mpi, s: seq<Limb>, b: Limb, done: seq<Limb>, c: Limb)
      requires MlaState(off, d0, d, S, s, b, done, c) && |done| == |d|
      ensures off + |d| <= |d0| && |s| <= |d| && p == Splice(d0, off, MulAdd(d, s, b, 0))
    {
      AccumulateDone(done, d, s, b, c);
    }

    /** One unrolled column: the limb k of S is multiplied in. */
    method MlaColumn(off: nat, ghost d0: seq<Limb>, ghost d: seq<Limb>, S: Mpi, ghost s: seq<Limb>, b: Limb,
                     k: nat, ghost done: seq<Limb>, c: Limb)
      returns (c1: Limb, ghost done1: seq<Limb>)
      requires MlaState(off, d0, d, S, s, b, done, c) && k == |done| < |s|
      modifies this`p
      ensures MlaState(off, d0, d, S, s, b, done1, c1) && |done1| == k + 1
    {
      hide MulAdd, Accumulating, Column;
      c1 := MulAddColumn(off + k, S.p[k], b, c);
      ghost var x: Limb := p[off + k];
      done1 := done + [x];
      AccumulateColumn(done, d, s, b, c, s[k], x, c1);
      SpliceNext(d0, off, done, x);
    }

    /** Past the end of S only the carry is added. */
    method MlaCarry(off: nat, ghost d0: seq<Limb>, ghost d: seq<Limb>, S: Mpi, ghost s: seq<Limb>, b: Limb,
                    k: nat, ghost done: seq<Limb>, c: Limb)
      returns (c1: Limb, ghost done1: seq<Limb>)
      requires MlaState(off, d0, d, S, s, b, done, c) && |s| <= k == |done| < |d|
      modifies this`p
      ensures MlaState(off, d0, d, S, s, b, done1, c1) && |done1| == k + 1
    {
      hide MulAdd, Accumulating;
      var x: Limb := (p[off + k] + c) % BASE;
      c1 := if x < c then 1 else 0;
      AccumulateColumn(done, d, s, b, c, 0, x, c1);
      SpliceNext(d0, off, done, x);
      done1 := done + [x];
      p := p[off + k := x];
    }

    /** mbedtls_mpi_core_mla: this[off..off+dlen) += S[..slen) * b, the carry out of the window dropped. */
    method CoreMla(off: nat, dlen: nat, S: Mpi, slen: nat, b: Limb)
      requires off + dlen <= |p| && slen <= |S.p| && slen <= dlen
      requires S == this ==> off == 0
      modifies this`p
      ensures p == Splice(old(p), off, MulAdd(old(p[off..off + dlen]), old(S.p[..slen]), b, 0))
    {
      hide MulAdd, Splice, MlaState;
      ghost var d0, d, s := p, p[off..off + dlen], S.p[..slen];
      ghost var done: seq<Limb> := [];
      MlaStart(off, d, S, s, b);
      var c: Limb, k := 0, 0;
      var steps8, steps1, excess := slen / 8, slen % 8, dlen - slen;
      while steps8 > 0
        invariant MlaState(off, d0, d, S, s, b, done, c)
        invariant steps8 >= 0 && k == |done| && k + 8 * steps8 + steps1 == slen
      {
        steps8 := steps8 - 1;
        c, done := MlaColumn(off, d0, d, S, s, b, k, done, c);
        c, done := MlaColumn(off, d0, d, S, s, b, k + 1, done, c);
        c, done := MlaColumn(off, d0, d, S, s, b, k + 2, done, c);
        c, done := MlaColumn(off, d0, d, S, s, b, k + 3, done, c);
        c, done := MlaColumn(off, d0, d, S, s, b, k + 4, done, c);
        c, done := MlaColumn(off, d0, d, S, s, b, k + 5, done, c);
        c, done := MlaColumn(off, d0, d, S, s, b, k + 6, done, c);
        c, done := MlaColumn(off, d0, d, S, s, b, k + 7, done, c);
        k := k + 8;
      }
      while steps1 > 0
        invariant MlaState(off, d0, d, S, s, b, done, c)
        invariant steps1 >= 0 && k == |done| && k + steps1 == slen
      {
        steps1 := steps1 - 1;
        c, done := MlaColumn(off, d0, d, S, s, b, k, done, c);
        k := k + 1;
      }
      while excess > 0
        invariant MlaState(off, d0, d, S, s, b, done, c)
        invariant excess >= 0 && slen <= k == |done| && k + excess == dlen
      {
        excess := excess - 1;
        c, done := MlaCarry(off, d0, d, S, s, b, k, done, c);
        k := k + 1;
      }
      MlaDone(off, d0, d, S, s, b, done, c);
    }
  }
}
