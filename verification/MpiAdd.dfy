/** Unsigned and signed addition and subtraction, and multiplication by one limb. */
module MpiAdd {
  import opened Bits
  import opened Limbs
  import opened MpiCore
  import opened MpiArith

  // ---- addition ---------------------------------------------------------------------------------

  lemma {:induction false} MulAddNothing(d: seq<Limb>, b: Limb)
    ensures MulAdd(d, [], b, 0) == d
  {
    if |d| > 0 {
      MulAddNothing(d[1..], b);
    }
  }

  /** One limb of an addition with carry. */
  method AddColumn(X: Mpi, k: nat, a: Limb, c: Limb) returns (c1: Limb)
    requires k < |X.p| && c <= 1
    modifies X`p
    ensures X.p == old(X.p)[k := Column(old(X.p[k]), a, 1, c) % BASE]
    ensures c1 == Column(old(X.p[k]), a, 1, c) / BASE <= 1
  {
    var x: Limb := (X.p[k] + c) % BASE;
    c1 := if x < c then 1 else 0;
    x := (x + a) % BASE;
    c1 := c1 + if x < a then 1 else 0;
    X.p := X.p[k := x];
  }

  /** p holds the low limbs of d + s, complete on done. d has one zero limb to spare for the carry. */
  ghost predicate Adding(p: seq<Limb>, d: seq<Limb>, s: seq<Limb>, done: seq<Limb>, c: Limb)
  {
    && |s| < |d| && d[|d| - 1] == 0
    && |done| <= |p| <= |d| <= |p| + 1
    && c <= 1 && (|done| == |d| ==> c == 0)
    && Accumulating(done, d, s, 1, c)
    && p == Splice(d, 0, done)[..|p|]
  }

  lemma AddingStart(p: seq<Limb>, s: seq<Limb>)
    requires |s| <= |p|
    ensures Adding(p, p + [0], s, [], 0)
  {
    AccumulateStart(p + [0], 0, p + [0], s, 1);
  }

  lemma AddingGrow(p: seq<Limb>, d: seq<Limb>, s: seq<Limb>, done: seq<Limb>, c: Limb)
    requires Adding(p, d, s, done, c) && |p| < |d|
    ensures Adding(p + [0], d, s, done, c)
  {
    assert Splice(d, 0, done)[|p|] == 0;
  }

  method AddNext(X: Mpi, ghost d: seq<Limb>, ghost s: seq<Limb>, ghost done: seq<Limb>, k: nat, a: Limb, c: Limb)
    returns (c1: Limb, ghost done1: seq<Limb>)
    requires Adding(X.p, d, s, done, c) && k == |done| < |X.p|
    requires a == if k < |s| then s[k] else 0
    modifies X`p
    ensures Adding(X.p, d, s, done1, c1) && |done1| == k + 1
    ensures |X.p| == |old(X.p)| && X.p == old(X.p)[k := X.p[k]]
  {
    hide Accumulating, MulAdd;
    c1 := AddColumn(X, k, a, c);
    ghost var x := X.p[k];
    AccumulateColumn(done, d, s, 1, c, a, x, c1);
    SpliceNext(d, 0, done, x);
    done1 := done + [x];
  }

  /** The carry has died out: what p holds is the whole sum. */
  lemma AddingDone(p: seq<Limb>, d: seq<Limb>, s: seq<Limb>, done: seq<Limb>)
    requires Adding(p, d, s, done, 0) && |s| <= |done|
    ensures Val(p) == Val(d) + Val(s)
  {
    hide Val, Radix, Accumulating, MulAdd;
    var all := Splice(d, 0, done);
    assert all == done + d[|done|..];
    AccumulateRest(done, d, s);
    SumFits(d, s);
    MulAddExact(d, s, 1, 0);
    ValTrim(all, |p|);
  }

  lemma AccumulateRest(done: seq<Limb>, d: seq<Limb>, s: seq<Limb>)
    requires |s| <= |done| <= |d| && Accumulating(done, d, s, 1, 0)
    ensures done + d[|done|..] == MulAdd(d, s, 1, 0)
  {
    assert From(s, |done|) == [];
    MulAddNothing(d[|done|..], 1);
  }

  lemma SumFits(d: seq<Limb>, s: seq<Limb>)
    requires |s| < |d| && d[|d| - 1] == 0
    ensures Val(d) + Val(s) * 1 + 0 < Radix(|d|)
  {
    ValTrim(d, |d| - 1);
    ValBound(d[..|d| - 1]);
    ValBound(s);
    RadixMono(|s|, |d| - 1);
  }

  /** mbedtls_mpi_add_abs. The copy of A into X was sliced away: X is added to, so it should be A or B. */
  method AddAbs(X: Mpi, A: Mpi, B: Mpi) returns (ret: int)
    modifies X
    ensures ret == 0 ==> X.Mag() == old(X.Mag()) + old(if X == B then A.Mag() else B.Mag())
    ensures X.s == 1 && (ret == 0 || ret == ERR_ALLOC_FAILED)
    ensures old(Max(|X.p|, Used(if X == B then A.p else B.p))) < MAX_LIMBS ==> ret == 0
    ensures |old(X.p)| <= |X.p| <= old(Max(|X.p|, Used(if X == B then A.p else B.p))) + 1
  {
    hide Val;
    var T := if X == B then A else B;
    ghost var x0, t0 := X.p, T.p;
    X.s := 1;
    var j := T.UsedLimbs();
    UsedVal(T.p);
    ret := X.Grow(j);
    if ret != 0 {
      return;
    }
    assert T.p[..j] == t0[..j];
    ret := AddLimbs(X, T, j);
  }

  /** The first loop of mbedtls_mpi_add_abs, then the carry. */
  method AddLimbs(X: Mpi, T: Mpi, j: nat) returns (ret: int)
    requires j <= |X.p| && j <= |T.p|
    modifies X`p
    ensures ret == 0 || ret == ERR_ALLOC_FAILED
    ensures ret == 0 ==> X.Mag() == old(X.Mag()) + Val(old(T.p[..j]))
    ensures |old(X.p)| < MAX_LIMBS ==> ret == 0
    ensures |old(X.p)| <= |X.p| <= |old(X.p)| + 1
  {
    hide Adding, Accumulating, Splice, MulAdd;
    ghost var d, s := X.p + [0], T.p[..j];
    ghost var done: seq<Limb> := [];
    ValTrim(d, |X.p|);
    assert d[..|X.p|] == X.p;
    AddingStart(X.p, s);
    var c: Limb, i := 0, 0;
    while i < j
      invariant i == |done| <= j <= |X.p| == |d| - 1
      invariant j <= |T.p|
      invariant Adding(X.p, d, s, done, c)
      invariant forall k :: i <= k < j ==> T.p[k] == s[k]
    {
      c, done := AddNext(X, d, s, done, i, T.p[i], c);
      i := i + 1;
    }
    ret := AddCarry(X, d, s, done, i, c);
  }

  /** The second loop of mbedtls_mpi_add_abs: the carry runs up, the buffer grows if it must. */
  method AddCarry(X: Mpi, ghost d: seq<Limb>, ghost s: seq<Limb>, ghost done0: seq<Limb>, i0: nat, c0: Limb)
    returns (ret: int)
    requires Adding(X.p, d, s, done0, c0) && |s| <= i0 == |done0| && |X.p| < |d|
    modifies X`p
    ensures ret == 0 || ret == ERR_ALLOC_FAILED
    ensures ret == 0 ==> X.Mag() == Val(d) + Val(s)
    ensures |d| <= MAX_LIMBS ==> ret == 0
    ensures |old(X.p)| <= |X.p| <= |d|
  {
    hide Accumulating, MulAdd, Splice, Val;
    var c, i := c0, i0;
    ghost var done := done0;
    while c != 0
      invariant i0 <= i == |done| && |old(X.p)| <= |X.p|
      invariant Adding(X.p, d, s, done, c)
      decreases |d| - i
    {
      if i >= |X.p| {
        AddingGrow(X.p, d, s, done, c);
        ret := X.Grow(i + 1);
        if ret != 0 {
          return;
        }
      }
      c, done := AddNext(X, d, s, done, i, 0, c);
      i := i + 1;
    }
    AddingDone(X.p, d, s, done);
    ret := 0;
  }

  // ---- subtraction ------------------------------------------------------------------------------

  lemma {:induction false} SubLimbsSplit(l: seq<Limb>, r: seq<Limb>, n: nat, c: int)
    requires n <= |l| == |r| && 0 <= c <= 1
    ensures SubLimbs(l, r, c) == SubLimbs(l[..n], r[..n], c) + SubLimbs(l[n..], r[n..], SubBorrow(l[..n], r[..n], c))
    ensures SubBorrow(l, r, c) == SubBorrow(l[n..], r[n..], SubBorrow(l[..n], r[..n], c))
  {
    if n == 0 {
      assert l[0..] == l && r[0..] == r && l[..0] == [] && r[..0] == [];
    } else {
      var c1 := if l[0] - r[0] - c < 0 then 1 else 0;
      SubLimbsSplit(l[1..], r[1..], n - 1, c1);
      SliceTail(l, n);
      SliceTail(r, n);
    }
  }

  lemma SliceTail(l: seq<Limb>, n: nat)
    requires 0 < n <= |l|
    ensures l[1..][..n - 1] == l[..n][1..] && l[1..][n - 1..] == l[n..]
  {
  }

  lemma {:induction false} SubNothing(l: seq<Limb>)
    ensures SubLimbs(l, Zeros(|l|), 0) == l && SubBorrow(l, Zeros(|l|), 0) == 0
  {
    if |l| > 0 {
      assert Zeros(|l|)[1..] == Zeros(|l| - 1);
      SubNothing(l[1..]);
    }
  }

  /** A borrow of one taken from l, limb by limb: zeros wrap, the first nonzero limb pays. */
  lemma {:induction false} SubOne(l: seq<Limb>, k: nat)
    requires k <= |l| && (forall i :: 0 <= i < k ==> l[i] == 0) && (k < |l| ==> l[k] != 0)
    ensures SubLimbs(l, Zeros(|l|), 1)
         == seq(k, _ => BASE - 1) + if k < |l| then [l[k] - 1] + l[k + 1..] else []
    ensures SubBorrow(l, Zeros(|l|), 1) == if k < |l| then 0 else 1
  {
    if |l| > 0 {
      assert Zeros(|l|)[1..] == Zeros(|l| - 1);
      if k == 0 {
        SubNothing(l[1..]);
      } else {
        SubOne(l[1..], k - 1);
      }
    }
  }

  /** The borrow loop of mbedtls_mpi_sub_abs, from limb n on. */
  method BorrowFrom(X: Mpi, n0: nat) returns (ok: bool)
    requires n0 <= |X.p|
    modifies X`p
    ensures X.p == old(X.p[..n0]) + SubLimbs(old(X.p[n0..]), Zeros(|old(X.p)| - n0), 1)
    ensures ok <==> SubBorrow(old(X.p[n0..]), Zeros(|old(X.p)| - n0), 1) == 0
  {
    ghost var q := X.p;
    var n := n0;
    while n < |X.p| && X.p[n] == 0
      invariant n0 <= n <= |X.p| == |q|
      invariant forall i :: 0 <= i < n0 || n <= i < |q| ==> X.p[i] == q[i]
      invariant forall i :: n0 <= i < n ==> q[i] == 0 && X.p[i] == BASE - 1
    {
      X.p := X.p[n := (X.p[n] - 1) % BASE];
      n := n + 1;
    }
    SubOne(q[n0..], n - n0);
    ok := n < |X.p|;
    if ok {
      X.p := X.p[n := X.p[n] - 1];
    }
  }

  /** SubHlp on the low n limbs, then the borrow loop, is subtraction on all limbs of l. */
  lemma SubInTwoParts(l: seq<Limb>, b: seq<Limb>, n: nat, p: seq<Limb>)
    requires n <= |l| && n <= |b|
    requires var c := SubBorrow(l[..n], b[..n], 0);
             p == SubLimbs(l[..n], b[..n], 0) + if c == 0 then l[n..] else SubLimbs(l[n..], Zeros(|l| - n), 1)
    ensures var r := b[..n] + Zeros(|l| - n);
            && p == SubLimbs(l, r, 0)
            && Val(r) == Val(b[..n])
            && SubBorrow(l, r, 0)
               == if SubBorrow(l[..n], b[..n], 0) == 0 then 0 else SubBorrow(l[n..], Zeros(|l| - n), 1)
  {
    hide SubLimbs, SubBorrow, Val;
    var r := b[..n] + Zeros(|l| - n);
    SubLimbsSplit(l, r, n, 0);
    assert r[..n] == b[..n] && r[n..] == Zeros(|l| - n) && |l[n..]| == |l| - n;
    SubNothing(l[n..]);
    ValTrim(r, n);
  }

  /** mbedtls_mpi_sub_abs: the difference if A >= B, an error otherwise. */
  method SubAbs(X: Mpi, A: Mpi, B: Mpi) returns (ret: int)
    modifies X
    ensures ret == 0 ==> X.Mag() == old(A.Mag()) - old(B.Mag()) && X.s == 1
    ensures |old(A.p)| <= MAX_LIMBS ==> (ret == 0 <==> old(A.Mag()) >= old(B.Mag()))
    ensures ret == 0 || X.s == old(X.s)
    ensures ret == 0 || ret == ERR_ALLOC_FAILED || (ret == ERR_NEGATIVE_VALUE && old(A.Mag()) < old(B.Mag()))
    ensures |X.p| == Max(|old(X.p)|, |old(A.p)|) || (ret != 0 && |X.p| == |old(X.p)|)
  {
    hide Val, SubLimbs, SubBorrow;
    var n := B.UsedLimbs();
    UsedVal(B.p);
    if n > |A.p| {
      TooLong(A.p, B.p);
      return ERR_NEGATIVE_VALUE;
    }
    ret := SubAbsLimbs(X, A, B, n);
    if ret == 0 {
      X.s := 1;
    }
  }

  lemma TooLong(a: seq<Limb>, b: seq<Limb>)
    requires Used(b) > |a|
    ensures Val(a) < Val(b)
  {
    UsedVal(b);
    ValBound(a);
    RadixMono(|a|, Used(b) - 1);
  }

  method SubAbsLimbs(X: Mpi, A: Mpi, B: Mpi, n: nat) returns (ret: int)
    requires n <= |A.p| && n <= |B.p| && Val(B.p[..n]) == B.Mag()
    modifies X`p
    ensures ret == 0 ==> X.Mag() == old(A.Mag()) - old(B.Mag())
    ensures |old(A.p)| <= MAX_LIMBS ==> (ret == 0 <==> old(A.Mag()) >= old(B.Mag()))
    ensures ret == 0 || ret == ERR_ALLOC_FAILED || (ret == ERR_NEGATIVE_VALUE && old(A.Mag()) < old(B.Mag()))
    ensures |X.p| == Max(|old(X.p)|, |old(A.p)|) || (ret != 0 && |X.p| == |old(X.p)|)
  {
    hide Val, SubLimbs, SubBorrow, Used, Radix;
    ghost var a, b := A.p, B.p;
    ret := X.Grow(|A.p|);
    if ret != 0 {
      return;
    }
    assert A.p == a && B.p[..n] == b[..n];
    if |A.p| > n {
      X.p := X.p[..n] + A.p[n..] + X.p[|A.p|..];
    }
    assert A.p == a && B.p[..n] == b[..n];
    if |X.p| > |A.p| {
      X.p := X.p[..|A.p|] + Zeros(|X.p| - |A.p|);
    }
    assert A.p[..n] == a[..n] && B.p[..n] == b[..n];
    ghost var l := a + Zeros(|X.p| - |a|);
    ValTrim(l, |a|);
    assert l[..|a|] == a;
    ret := SubPrepared(X, A, B, n, l);
  }

  /** The subtraction proper: X already holds the high limbs of l, the zero-extended A. */
  method SubPrepared(X: Mpi, A: Mpi, B: Mpi, n: nat, ghost l: seq<Limb>) returns (ret: int)
    requires n <= |A.p| && n <= |B.p| && n <= |X.p| == |l|
    requires A.p[..n] == l[..n] && X.p[n..] == l[n..]
    modifies X`p
    ensures ret == 0 ==> X.Mag() == Val(l) - Val(old(B.p[..n]))
    ensures ret == (if Val(l) >= Val(old(B.p[..n])) then 0 else ERR_NEGATIVE_VALUE)
    ensures |X.p| == |l|
  {
    hide Val, SubLimbs, SubBorrow;
    ghost var b := B.p[..n];
    var carry := SubLow(X, A, B, n);
    var ok := true;
    ghost var low := SubLimbs(l[..n], b, 0);
    assert b[..n] == b;
    assert X.p == low + l[n..] && X.p[..n] == low && X.p[n..] == l[n..];
    if carry != 0 {
      ok := BorrowFrom(X, n);
    }
    SubInTwoParts(l, b, n, X.p);
    SubLimbsVal(l, b[..n] + Zeros(|l| - n), 0);
    SubLimbsBorrow(l, b[..n] + Zeros(|l| - n), 0);
    ret := if ok then 0 else ERR_NEGATIVE_VALUE;
  }

  method SubLow(X: Mpi, A: Mpi, B: Mpi, n: nat) returns (carry: Limb)
    requires n <= |X.p| && n <= |A.p| && n <= |B.p|
    modifies X`p
    ensures X.p == SubLimbs(old(A.p[..n]), old(B.p[..n]), 0) + old(X.p[n..])
    ensures carry == SubBorrow(old(A.p[..n]), old(B.p[..n]), 0)
  {
    carry := X.SubHlp(n, 0, A, 0, B);
  }

  // ---- signed operations ------------------------------------------------------------------------

  /** mbedtls_mpi_add_mpi. When the signs agree X is added to, so it should be A or B. */
  method AddMpi(X: Mpi, A: Mpi, B: Mpi) returns (ret: int)
    requires A.Signed() && B.Signed()
    modifies X
    ensures ret == 0 && (X == A || X == B || old(A.s) != old(B.s))
        ==> X.Int() == old(A.Int()) + old(B.Int()) && X.Signed()
    ensures ret == 0 ==> X.s == if old(A.s) == old(B.s) || old(A.Mag()) >= old(B.Mag()) then old(A.s) else -old(A.s)
    ensures ret == 0 || ret == ERR_ALLOC_FAILED
    ensures old(Max(|X.p|, Max(|A.p|, |B.p|))) < MAX_LIMBS ==> ret == 0
    ensures old(A.s) != old(B.s) && |old(if A.Mag() >= B.Mag() then A.p else B.p)| <= MAX_LIMBS ==> ret == 0
    ensures old(A.s) != old(B.s) ==> |X.p| <= old(Max(|X.p|, Max(|A.p|, |B.p|)))
    ensures ret == 0 ==> |old(X.p)| <= |X.p| <= old(Max(|X.p|, Max(|A.p|, |B.p|))) + 1
  {
    var s := A.s;
    if A.s * B.s < 0 {
      var c := CmpAbs(A, B);
      if c >= 0 {
        ret := SubAbs(X, A, B);
        if ret == 0 {
          X.s := s;
        }
      } else {
        ret := SubAbs(X, B, A);
        if ret == 0 {
          X.s := -s;
        }
      }
    } else {
      ret := AddAbs(X, A, B);
      if ret == 0 {
        X.s := s;
      }
    }
  }

  /** mbedtls_mpi_sub_mpi. When the signs differ X is added to, so it should be A or B. */
  method SubMpi(X: Mpi, A: Mpi, B: Mpi) returns (ret: int)
    requires A.Signed() && B.Signed()
    modifies X
    ensures ret == 0 && (X == A || X == B || old(A.s) == old(B.s))
        ==> X.Int() == old(A.Int()) - old(B.Int()) && X.Signed()
    ensures ret == 0 ==> X.s == if old(A.s) != old(B.s) || old(A.Mag()) >= old(B.Mag()) then old(A.s) else -old(A.s)
    ensures ret == 0 || ret == ERR_ALLOC_FAILED
    ensures old(Max(|X.p|, Max(|A.p|, |B.p|))) < MAX_LIMBS ==> ret == 0
    ensures old(A.s) == old(B.s) && old(Max(|A.p|, |B.p|)) <= MAX_LIMBS ==> ret == 0
    ensures old(A.s) == old(B.s) ==> |X.p| <= old(Max(|X.p|, Max(|A.p|, |B.p|)))
    ensures ret == 0 ==> |old(X.p)| <= |X.p| <= old(Max(|X.p|, Max(|A.p|, |B.p|))) + 1
  {
    var s := A.s;
    if A.s * B.s > 0 {
      var c := CmpAbs(A, B);
      if c >= 0 {
        ret := SubAbs(X, A, B);
        if ret == 0 {
          X.s := s;
        }
      } else {
        ret := SubAbs(X, B, A);
        if ret == 0 {
          X.s := -s;
        }
      }
    } else {
      ret := AddAbs(X, A, B);
      if ret == 0 {
        X.s := s;
      }
    }
  }

  // ---- multiplication by one limb -----------------------------------------------------------------

  /** mbedtls_mpi_mul_int: A + A * (b - 1), so that the copy of A serves as accumulator. */
  method MulInt(X: Mpi, A: Mpi, b: Limb) returns (ret: int)
    modifies X
    ensures ret == 0 ==> X.Mag() == old(A.Mag()) * b
    ensures ret == 0 ==> X.s == if b == 0 || old(A.Mag()) == 0 then 1 else old(A.s)
    ensures Used(old(A.p)) < MAX_LIMBS ==> ret == 0
    ensures ret == 0 ==> |old(X.p)| <= |X.p| <= Max(Max(|old(X.p)|, 1), Used(old(A.p)) + 1)
    ensures ret == 0 ==> |X.p| > 0
  {
    hide Val, MulAdd, Used, Radix, Zeros;
    var n := A.UsedLimbs();
    UsedVal(A.p);
    if b == 0 || n == 0 {
      ret := Lset(X, 0);
      return;
    }
    ghost var a := A.p;
    ret := X.Grow(n + 1);
    if ret != 0 {
      return;
    }
    UsedVal(A.p);
    ValTrim(A.p, n);
    assert A.p[..n] == a[..n];
    ret := Copy(X, A);
    if ret != 0 {
      return;
    }
    MulTail(X, A, n, b);
    ret := 0;
  }

  method MulTail(X: Mpi, A: Mpi, n: nat, b: Limb)
    requires b > 0 && n < |X.p| && n <= |A.p|
    requires X.Mag() == Val(A.p[..n])
    modifies X`p
    ensures X.Mag() == old(X.Mag()) * b && |X.p| == |old(X.p)|
  {
    hide Val, MulAdd;
    ghost var x, a := X.p, A.p[..n];
    X.CoreMla(0, |X.p|, A, n, b - 1);
    assert x[0..|x|] == x && Splice(x, 0, MulAdd(x, a, b - 1, 0)) == MulAdd(x, a, b - 1, 0);
    MulFits(x, a, b);
    MulAddExact(x, a, b - 1, 0);
  }

  lemma MulFits(x: seq<Limb>, s: seq<Limb>, b: Limb)
    requires |s| < |x| && Val(x) == Val(s) && b > 0
    ensures Val(x) + Val(s) * (b - 1) + 0 == Val(s) * b < Radix(|x|)
  {
    var v := Val(s);
    ValBound(s);
    RadixMono(|s|, |x|);
    MulSum(v, b);
    MulAtLeast(v, BASE, b);
    MulAtLeast(BASE, Radix(|s|), v + 1);
  }

  lemma MulSum(v: int, b: int)
    ensures v + v * (b - 1) == v * b
  {
  }
}
