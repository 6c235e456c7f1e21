/** Least-significant-digit radix sort by a stable counting sort. */
module RadixSort {
  import Bits

  /** The decimal digit of x that exp selects. */
  function Digit(x: int, exp: int): (d: int)
    requires x >= 0 && exp > 0
    ensures 0 <= d < 10
  {
    x / exp % 10
  }

  ghost predicate Natural(s: seq<int>) {
    forall i :: 0 <= i < |s| ==> s[i] >= 0
  }

  ghost predicate SortedBy(s: seq<int>, n: int)
    requires n > 0
  {
    forall i, j :: 0 <= i < j < |s| ==> s[i] % n <= s[j] % n
  }

  ghost predicate Sorted(s: seq<int>) {
    forall i, j :: 0 <= i < j < |s| ==> s[i] <= s[j]
  }

  // ---- what one pass computes -------------------------------------------------------------------------

  /** The elements with digit d, in their order. */
  function Bucket(s: seq<int>, exp: int, d: int): (b: seq<int>)
    requires Natural(s) && exp > 0
    ensures |b| <= |s| && Natural(b)
  {
    if s == [] then []
    else
      var x := s[|s| - 1];
      Bucket(s[..|s| - 1], exp, d) + (if Digit(x, exp) == d then [x] else [])
  }

  /** The buckets below d, one after the other. */
  function Buckets(s: seq<int>, exp: int, d: nat): (b: seq<int>)
    requires Natural(s) && exp > 0
    ensures Natural(b)
  {
    if d == 0 then [] else Buckets(s, exp, d - 1) + Bucket(s, exp, d - 1)
  }

  lemma {:induction false} BucketHas(s: seq<int>, exp: int, d: int)
    requires Natural(s) && exp > 0
    ensures forall x :: x in Bucket(s, exp, d) <==> x in s && Digit(x, exp) == d
  {
    if s != [] {
      var n := |s| - 1;
      BucketHas(s[..n], exp, d);
      assert s == s[..n] + [s[n]];
    }
  }

  /** The buckets of a prefix are prefixes of the buckets. */
  lemma {:induction false} BucketPrefix(s: seq<int>, exp: int, d: int, k: nat)
    requires Natural(s) && exp > 0 && k <= |s|
    ensures Bucket(s[..k], exp, d) <= Bucket(s, exp, d)
    decreases |s|
  {
    if k < |s| {
      var n := |s| - 1;
      BucketPrefix(s[..n], exp, d, k);
      assert s[..n][..k] == s[..k];
    } else {
      assert s[..k] == s;
    }
  }

  /** An element's place in its bucket is the number of equal digits before it. */
  lemma BucketPlace(s: seq<int>, exp: int, k: nat)
    requires Natural(s) && exp > 0 && k < |s|
    ensures var d := Digit(s[k], exp);
            && |Bucket(s[..k + 1], exp, d)| == |Bucket(s[..k], exp, d)| + 1
            && |Bucket(s[..k], exp, d)| < |Bucket(s, exp, d)|
            && Bucket(s, exp, d)[|Bucket(s[..k], exp, d)|] == s[k]
    ensures forall d :: d != Digit(s[k], exp) ==> |Bucket(s[..k + 1], exp, d)| == |Bucket(s[..k], exp, d)|
  {
    var t := s[..k + 1];
    assert t[..k] == s[..k];
    BucketPrefix(s, exp, Digit(s[k], exp), k + 1);
  }

  /** The position at which bucket d starts. */
  function Begins(s: seq<int>, exp: int, d: nat): nat
    requires Natural(s) && exp > 0
  {
    |Buckets(s, exp, d)|
  }

  lemma {:induction false} BucketsInOrder(s: seq<int>, exp: int, c: nat, d: nat)
    requires Natural(s) && exp > 0 && c < d
    ensures Begins(s, exp, c) + |Bucket(s, exp, c)| <= Begins(s, exp, d)
    ensures Buckets(s, exp, d)[Begins(s, exp, c)..Begins(s, exp, c) + |Bucket(s, exp, c)|] == Bucket(s, exp, c)
    decreases d
  {
    hide Bucket;
    var b, k := Begins(s, exp, c), |Bucket(s, exp, c)|;
    if c < d - 1 {
      BucketsInOrder(s, exp, c, d - 1);
      assert Buckets(s, exp, d)[b..b + k] == Buckets(s, exp, d - 1)[b..b + k];
    }
  }

  // ---- permutation and stability ------------------------------------------------------------------------

  lemma {:induction false} BucketCount(s: seq<int>, exp: int, d: int, x: int)
    requires Natural(s) && exp > 0
    ensures multiset(Bucket(s, exp, d))[x] == if x >= 0 && Digit(x, exp) == d then multiset(s)[x] else 0
  {
    if s != [] {
      var n := |s| - 1;
      BucketCount(s[..n], exp, d, x);
      assert s == s[..n] + [s[n]];
    }
  }

  lemma BucketsStep(s: seq<int>, exp: int, d: nat)
    requires Natural(s) && exp > 0 && d > 0
    ensures Buckets(s, exp, d) == Buckets(s, exp, d - 1) + Bucket(s, exp, d - 1)
  {
  }

  lemma Together(a: seq<int>, b: seq<int>, x: int)
    ensures multiset(a + b)[x] == multiset(a)[x] + multiset(b)[x]
  {
  }

  lemma {:induction false} BucketsCount(s: seq<int>, exp: int, d: nat, x: int)
    requires Natural(s) && exp > 0
    ensures multiset(Buckets(s, exp, d))[x] == if x >= 0 && Digit(x, exp) < d then multiset(s)[x] else 0
  {
    hide Bucket, Digit, Natural;
    if d > 0 {
      BucketsCount(s, exp, d - 1, x);
      BucketCount(s, exp, d - 1, x);
      hide Buckets;
      BucketsStep(s, exp, d);
      Together(Buckets(s, exp, d - 1), Bucket(s, exp, d - 1), x);
    }
  }

  /** One pass permutes. */
  lemma PassPermutes(s: seq<int>, exp: int)
    requires Natural(s) && exp > 0
    ensures multiset(Buckets(s, exp, 10)) == multiset(s)
    ensures |Buckets(s, exp, 10)| == |s|
  {
    forall x ensures multiset(Buckets(s, exp, 10))[x] == multiset(s)[x] {
      BucketsCount(s, exp, 10, x);
      if x < 0 {
        assert x !in s;
      }
    }
    assert |multiset(s)| == |s| && |multiset(Buckets(s, exp, 10))| == |Buckets(s, exp, 10)|;
  }

  lemma {:induction false} BucketConcat(a: seq<int>, b: seq<int>, exp: int, d: int)
    requires Natural(a) && Natural(b) && exp > 0
    ensures Bucket(a + b, exp, d) == Bucket(a, exp, d) + Bucket(b, exp, d)
    decreases |b|
  {
    if b == [] {
      assert a + b == a;
    } else {
      var n := |b| - 1;
      BucketConcat(a, b[..n], exp, d);
      assert (a + b)[..|a + b| - 1] == a + b[..n];
    }
  }

  lemma BucketOne(x: int, exp: int, d: int)
    requires x >= 0 && exp > 0
    ensures Bucket([x], exp, d) == if Digit(x, exp) == d then [x] else []
  {
    assert [x][..0] == [];
  }

  lemma BucketNone(exp: int, d: int)
    requires exp > 0
    ensures Bucket([], exp, d) == []
  {
  }

  lemma {:induction false} BucketOfBucket(s: seq<int>, exp: int, c: int, d: int)
    requires Natural(s) && exp > 0
    ensures Bucket(Bucket(s, exp, c), exp, d) == if c == d then Bucket(s, exp, d) else []
  {
    hide Digit;
    if s != [] {
      var n := |s| - 1;
      BucketOfBucket(s[..n], exp, c, d);
      if Digit(s[n], exp) == c {
        assert Bucket(s, exp, c) == Bucket(s[..n], exp, c) + [s[n]];
        BucketConcat(Bucket(s[..n], exp, c), [s[n]], exp, d);
        BucketOne(s[n], exp, d);
      } else {
        assert Bucket(s, exp, c) == Bucket(s[..n], exp, c);
      }
    }
  }

  lemma {:induction false} BucketOfBuckets(s: seq<int>, exp: int, c: nat, d: nat)
    requires Natural(s) && exp > 0
    ensures Bucket(Buckets(s, exp, c), exp, d) == if d < c then Bucket(s, exp, d) else []
    decreases c
  {
    hide Bucket;
    BucketNone(exp, d);
    if c > 0 {
      BucketOfBuckets(s, exp, c - 1, d);
      BucketOfBucket(s, exp, c - 1, d);
      BucketConcat(Buckets(s, exp, c - 1), Bucket(s, exp, c - 1), exp, d);
    }
  }

  /** Elements with equal digits keep their order. */
  lemma PassStable(s: seq<int>, exp: int, d: nat)
    requires Natural(s) && exp > 0 && d < 10
    ensures Bucket(Buckets(s, exp, 10), exp, d) == Bucket(s, exp, d)
  {
    BucketOfBuckets(s, exp, 10, d);
  }

  // ---- order -----------------------------------------------------------------------------------------------

  lemma LowDigits(x: int, exp: int)
    requires x >= 0 && exp > 0
    ensures x % (10 * exp) == Digit(x, exp) * exp + x % exp
  {
    var q, r := x / exp, x % exp;
    var a, d := q / 10, q % 10;
    assert x == exp * q + r;
    assert exp * q == 10 * exp * a + d * exp by {
      assert exp * (10 * a + d) == 10 * exp * a + d * exp;
    }
    assert 0 <= d * exp <= 9 * exp by {
      Scale(d, exp);
    }
    Bits.DivModUnique(x, 10 * exp, a, d * exp + r);
  }

  lemma Scale(d: int, exp: int)
    requires 0 <= d < 10 && exp > 0
    ensures 0 <= d * exp <= 9 * exp
  {
  }

  lemma ScaleStep(c: int, d: int, exp: int)
    requires c < d && exp > 0
    ensures c * exp + exp <= d * exp
  {
    assert d * exp - c * exp == (d - c) * exp;
    assert (d - c) * exp == exp + (d - c - 1) * exp;
  }

  lemma {:induction false} BucketSorted(s: seq<int>, exp: int, d: int)
    requires Natural(s) && exp > 0 && SortedBy(s, exp)
    ensures SortedBy(Bucket(s, exp, d), exp)
  {
    if s != [] {
      var n := |s| - 1;
      BucketSorted(s[..n], exp, d);
      BucketHas(s[..n], exp, d);
      var b := Bucket(s[..n], exp, d);
      forall i | 0 <= i < |b| ensures b[i] % exp <= s[n] % exp {
        assert b[i] in s[..n];
      }
    }
  }

  /** The keys of bucket d lie in [d * exp, (d + 1) * exp), in order. */
  lemma BucketKeys(s: seq<int>, exp: int, d: nat)
    requires Natural(s) && exp > 0 && SortedBy(s, exp)
    ensures SortedBy(Bucket(s, exp, d), 10 * exp)
    ensures forall x :: x in Bucket(s, exp, d) ==> d * exp <= x % (10 * exp) < d * exp + exp
  {
    BucketSorted(s, exp, d);
    BucketHas(s, exp, d);
    var b := Bucket(s, exp, d);
    forall i | 0 <= i < |b| ensures b[i] % (10 * exp) == d * exp + b[i] % exp {
      assert b[i] in b;
      LowDigits(b[i], exp);
    }
  }

  lemma {:induction false} BucketsSorted(s: seq<int>, exp: int, d: nat)
    requires Natural(s) && exp > 0 && SortedBy(s, exp)
    ensures SortedBy(Buckets(s, exp, d), 10 * exp)
    ensures Below(Buckets(s, exp, d), 10 * exp, d * exp)
  {
    if d > 0 {
      hide Bucket, SortedBy, Below, NotBelow;
      BucketsSorted(s, exp, d - 1);
      BucketBounds(s, exp, d - 1);
      JoinSorted(Buckets(s, exp, d - 1), Bucket(s, exp, d - 1), 10 * exp, (d - 1) * exp, (d - 1) * exp + exp);
      assert (d - 1) * exp + exp == d * exp;
    } else {
      assert Buckets(s, exp, 0) == [];
    }
  }

  /** All keys are below k. */
  ghost predicate Below(s: seq<int>, n: int, k: int)
    requires n > 0
  {
    forall x :: x in s ==> x % n < k
  }

  ghost predicate NotBelow(s: seq<int>, n: int, k: int)
    requires n > 0
  {
    forall x :: x in s ==> k <= x % n
  }

  lemma BucketBounds(s: seq<int>, exp: int, d: nat)
    requires Natural(s) && exp > 0 && SortedBy(s, exp)
    ensures var b, n, k := Bucket(s, exp, d), 10 * exp, d * exp;
            SortedBy(b, n) && NotBelow(b, n, k) && Below(b, n, k + exp)
  {
    hide Bucket, SortedBy;
    BucketKeys(s, exp, d);
  }

  lemma JoinSorted(a: seq<int>, b: seq<int>, n: int, k: int, l: int)
    requires n > 0 && SortedBy(a, n) && SortedBy(b, n)
    requires Below(a, n, k) && k <= l && NotBelow(b, n, k) && Below(b, n, l)
    ensures SortedBy(a + b, n) && Below(a + b, n, l)
  {
    var c := a + b;
    forall i, j | 0 <= i < j < |c| ensures c[i] % n <= c[j] % n {
      if i < |a| <= j {
        assert c[i] in a && c[j] in b;
      }
    }
  }

  // ---- the program ----------------------------------------------------------------------------------------

  method GetMax(arr: array<int>, n: int) returns (mx: int)
    requires 1 <= n == arr.Length
    ensures mx in arr[..] && forall i :: 0 <= i < n ==> arr[i] <= mx
  {
    mx := arr[0];
    var i := 1;
    while i < n
      invariant 1 <= i <= n && mx in arr[..] && forall k :: 0 <= k < i ==> arr[k] <= mx
    {
      if arr[i] > mx {
        mx := arr[i];
      }
      i := i + 1;
    }
  }

  /** How often each digit occurs. */
  method CountDigits(s: seq<int>, exp: int) returns (count: seq<int>)
    requires Natural(s) && exp > 0
    ensures |count| == 10 && forall d :: 0 <= d < 10 ==> count[d] == |Bucket(s, exp, d)|
  {
    count := seq(10, _ => 0);
    var i := 0;
    while i < |s|
      invariant 0 <= i <= |s| && |count| == 10
      invariant forall d :: 0 <= d < 10 ==> count[d] == |Bucket(s[..i], exp, d)|
    {
      var d := Digit(s[i], exp);
      BucketPlace(s, exp, i);
      count := count[d := count[d] + 1];
      i := i + 1;
    }
    assert s[..i] == s;
  }

  /** Running totals: where the next digit's elements begin. */
  method SumUp(count0: seq<int>, ghost s: seq<int>, ghost exp: int) returns (count: seq<int>)
    requires Natural(s) && exp > 0 && |count0| == 10
    requires forall d :: 0 <= d < 10 ==> count0[d] == |Bucket(s, exp, d)|
    ensures |count| == 10 && forall d :: 0 <= d < 10 ==> count[d] == Begins(s, exp, d) + |Bucket(s, exp, d)|
  {
    count := count0;
    var i := 1;
    while i < 10
      invariant 1 <= i <= 10 && |count| == 10
      invariant forall d :: 0 <= d < i ==> count[d] == Begins(s, exp, d) + |Bucket(s, exp, d)|
      invariant forall d :: i <= d < 10 ==> count[d] == |Bucket(s, exp, d)|
    {
      count := count[i := count[i] + count[i - 1]];
      i := i + 1;
    }
  }

  /** The output holds the elements from position i on, each at its place in its bucket. */
  ghost predicate Placed(s: seq<int>, exp: int, output: seq<int>, i: nat)
    requires Natural(s) && exp > 0 && i <= |s| && |Buckets(s, exp, 10)| == |s| == |output|
  {
    forall d, r :: 0 <= d < 10 && |Bucket(s[..i], exp, d)| <= r < |Bucket(s, exp, d)| ==>
      Slot(s, exp, d, r) < |s| && output[Slot(s, exp, d, r)] == Bucket(s, exp, d)[r]
  }

  function Slot(s: seq<int>, exp: int, d: nat, r: nat): nat
    requires Natural(s) && exp > 0
  {
    Begins(s, exp, d) + r
  }

  lemma SlotBounds(s: seq<int>, exp: int, d: nat, r: nat)
    requires Natural(s) && exp > 0 && d < 10 && r < |Bucket(s, exp, d)|
    ensures Slot(s, exp, d, r) < |Buckets(s, exp, 10)|
    ensures Buckets(s, exp, 10)[Slot(s, exp, d, r)] == Bucket(s, exp, d)[r]
  {
    hide Bucket, Buckets;
    var b, n := Begins(s, exp, d), |Bucket(s, exp, d)|;
    BucketsInOrder(s, exp, d, 10);
    assert Buckets(s, exp, 10)[b..b + n][r] == Bucket(s, exp, d)[r];
  }

  /** Different buckets have different slots. */
  lemma SlotsDistinct(s: seq<int>, exp: int, c: nat, q: nat, d: nat, r: nat)
    requires Natural(s) && exp > 0 && q < |Bucket(s, exp, c)| && r < |Bucket(s, exp, d)|
    ensures Slot(s, exp, c, q) == Slot(s, exp, d, r) ==> c == d && q == r
  {
    if c < d {
      BucketsInOrder(s, exp, c, d);
    } else if d < c {
      BucketsInOrder(s, exp, d, c);
    }
  }

  lemma PlaceOne(s: seq<int>, exp: int, output: seq<int>, i: nat)
    requires Natural(s) && exp > 0 && i < |s| && |Buckets(s, exp, 10)| == |s| == |output|
        && Placed(s, exp, output, i + 1)
    ensures var d := Digit(s[i], exp); var at := Slot(s, exp, d, |Bucket(s[..i], exp, d)|);
            at < |s| && Placed(s, exp, output[at := s[i]], i)
  {
    var d := Digit(s[i], exp);
    var k := |Bucket(s[..i], exp, d)|;
    BucketPlace(s, exp, i);
    SlotBounds(s, exp, d, k);
    var at := Slot(s, exp, d, k);
    forall c, r | 0 <= c < 10 && |Bucket(s[..i], exp, c)| <= r < |Bucket(s, exp, c)|
      ensures Slot(s, exp, c, r) < |s| && output[at := s[i]][Slot(s, exp, c, r)] == Bucket(s, exp, c)[r] {
      SlotBounds(s, exp, c, r);
      SlotsDistinct(s, exp, c, r, d, k);
    }
  }

  /** With every element placed the output is the buckets in order. */
  lemma AllPlaced(s: seq<int>, exp: int, output: seq<int>)
    requires Natural(s) && exp > 0 && |Buckets(s, exp, 10)| == |s| == |output| && Placed(s, exp, output, 0)
    ensures output == Buckets(s, exp, 10)
  {
    forall x | 0 <= x < |s| ensures output[x] == Buckets(s, exp, 10)[x] {
      var d, r := FindSlot(s, exp, 10, x);
      SlotBounds(s, exp, d, r);
      assert s[..0] == [];
    }
  }

  lemma {:induction false} FindSlot(s: seq<int>, exp: int, c: nat, x: nat) returns (d: nat, r: nat)
    requires Natural(s) && exp > 0 && x < Begins(s, exp, c)
    ensures d < c && r < |Bucket(s, exp, d)| && x == Slot(s, exp, d, r)
  {
    hide Bucket;
    if x < Begins(s, exp, c - 1) {
      d, r := FindSlot(s, exp, c - 1, x);
    } else {
      d, r := c - 1, x - Begins(s, exp, c - 1);
    }
  }

  /** The output slot element i goes to. */
  function Home(s: seq<int>, exp: int, i: nat): nat
    requires Natural(s) && exp > 0 && i < |s|
  {
    Slot(s, exp, Digit(s[i], exp), |Bucket(s[..i], exp, Digit(s[i], exp))|)
  }

  /** Different elements go to different slots of the output. */
  lemma HomesDistinct(s: seq<int>, exp: int, i: nat, j: nat)
    requires Natural(s) && exp > 0 && i < |s| && j < |s|
    ensures Home(s, exp, i) < |s| && (Home(s, exp, i) == Home(s, exp, j) ==> i == j)
  {
    hide Bucket, Buckets, Slot, Digit;
    var d, e := Digit(s[i], exp), Digit(s[j], exp);
    BucketPlace(s, exp, i);
    BucketPlace(s, exp, j);
    PassPermutes(s, exp);
    SlotBounds(s, exp, d, |Bucket(s[..i], exp, d)|);
    SlotsDistinct(s, exp, d, |Bucket(s[..i], exp, d)|, e, |Bucket(s[..j], exp, e)|);
    if d == e && i < j {
      assert s[..j][..i + 1] == s[..i + 1];
      BucketPrefix(s[..j], exp, d, i + 1);
    } else if d == e && j < i {
      assert s[..i][..j + 1] == s[..j + 1];
      BucketPrefix(s[..i], exp, d, j + 1);
    }
  }

  lemma NoBucket(s: seq<int>, exp: int, d: int)
    requires Natural(s) && exp > 0
    ensures Bucket(s[..0], exp, d) == []
  {
  }

  /** The element of rank r in its bucket, among the first k. */
  lemma {:induction false} ElementOf(s: seq<int>, exp: int, d: int, r: nat, k: nat) returns (i: nat)
    requires Natural(s) && exp > 0 && k <= |s| && r < |Bucket(s[..k], exp, d)|
    ensures i < k && Digit(s[i], exp) == d && |Bucket(s[..i], exp, d)| == r
  {
    hide Digit, Bucket;
    NoBucket(s, exp, d);
    assert k > 0;
    BucketPlace(s, exp, k - 1);
    if r < |Bucket(s[..k - 1], exp, d)| {
      i := ElementOf(s, exp, d, r, k - 1);
    } else {
      i := k - 1;
    }
  }

  /** Every slot is that of exactly one element. */
  lemma SlotsFilledOnce(s: seq<int>, exp: int, x: nat)
    requires Natural(s) && exp > 0 && x < |s|
    ensures exists i: nat :: i < |s| && Home(s, exp, i) == x
                && forall j: nat :: j < |s| && Home(s, exp, j) == x ==> j == i
  {
    hide Bucket, Buckets, Digit, Slot;
    PassPermutes(s, exp);
    var d, r := FindSlot(s, exp, 10, x);
    assert s[..|s|] == s;
    var i := ElementOf(s, exp, d, r, |s|);
    assert Home(s, exp, i) == x;
    forall j: nat | j < |s| && Home(s, exp, j) == x ensures j == i {
      HomesDistinct(s, exp, i, j);
    }
  }

  lemma NonePlaced(s: seq<int>, exp: int, output: seq<int>)
    requires Natural(s) && exp > 0 && |Buckets(s, exp, 10)| == |s| == |output|
    ensures Placed(s, exp, output, |s|)
  {
    assert s[..|s|] == s;
  }

  lemma AtHome(s: seq<int>, exp: int, i: nat)
    requires Natural(s) && exp > 0 && i < |s|
    ensures |Buckets(s, exp, 10)| == |s| && Home(s, exp, i) < |s| && Buckets(s, exp, 10)[Home(s, exp, i)] == s[i]
  {
    hide Bucket, Buckets, Slot, Digit;
    PassPermutes(s, exp);
    BucketPlace(s, exp, i);
    SlotBounds(s, exp, Digit(s[i], exp), |Bucket(s[..i], exp, Digit(s[i], exp))|);
  }

  /** Back to front, every element goes to the last free slot of its digit. */
  method Distribute(s: seq<int>, exp: int, count0: seq<int>) returns (output: seq<int>)
    requires Natural(s) && exp > 0 && |count0| == 10
    requires forall d :: 0 <= d < 10 ==> count0[d] == Begins(s, exp, d) + |Bucket(s, exp, d)|
    ensures output == Buckets(s, exp, 10)
    ensures |output| == |s| && forall i :: 0 <= i < |s| ==> Home(s, exp, i) < |s| && output[Home(s, exp, i)] == s[i]
  {
    hide Placed, Buckets, Bucket, Digit, Home;
    PassPermutes(s, exp);
    output := seq(|s|, _ => 0);
    var count, i := count0, |s| - 1;
    assert s[..|s|] == s;
    NonePlaced(s, exp, output);
    while i >= 0
      invariant -1 <= i < |s| && |count| == 10 && |output| == |s|
      invariant forall d :: 0 <= d < 10 ==> count[d] == Begins(s, exp, d) + |Bucket(s[..i + 1], exp, d)|
      invariant Placed(s, exp, output, i + 1)
    {
      var d := Digit(s[i], exp);
      BucketPlace(s, exp, i);
      PlaceOne(s, exp, output, i);
      output := output[count[d] - 1 := s[i]];
      count := count[d := count[d] - 1];
      i := i - 1;
    }
    AllPlaced(s, exp, output);
    forall j | 0 <= j < |s| ensures Home(s, exp, j) < |s| && output[Home(s, exp, j)] == s[j] {
      AtHome(s, exp, j);
    }
  }

  /** countSort: a stable sort by one digit, every output slot written exactly once. */
  method CountSort(arr: array<int>, n: int, exp: int)
    requires n == arr.Length && exp > 0 && Natural(arr[..])
    modifies arr
    ensures Natural(old(arr[..])) && arr[..] == Buckets(old(arr[..]), exp, 10)
  {
    hide Buckets, Bucket, Natural;
    ghost var s := arr[..];
    var count := CountDigits(arr[..], exp);
    count := SumUp(count, s, exp);
    var output := Distribute(arr[..], exp, count);
    PassPermutes(s, exp);
    var i := 0;
    while i < n
      invariant 0 <= i <= n && arr[..i] == output[..i]
    {
      arr[i] := output[i];
      i := i + 1;
    }
    assert arr[..] == output;
  }

  function Power10(k: nat): (p: int)
    ensures p >= 1
  {
    if k == 0 then 1 else 10 * Power10(k - 1)
  }

  lemma PassSorts(s: seq<int>, exp: int)
    requires Natural(s) && exp > 0 && SortedBy(s, exp)
    ensures SortedBy(Buckets(s, exp, 10), 10 * exp)
    ensures multiset(Buckets(s, exp, 10)) == multiset(s)
  {
    BucketsSorted(s, exp, 10);
    PassPermutes(s, exp);
  }

  /** radixsort: sorts, for elements below 10^9 so that the int exp never overflows. */
  method RadixSort(arr: array<int>, n: int)
    requires 1 <= n == arr.Length && forall i :: 0 <= i < n ==> 0 <= arr[i] < 1000000000
    modifies arr
    ensures Sorted(arr[..]) && multiset(arr[..]) == multiset(old(arr[..]))
  {
    hide Buckets, SortedBy, Sorted, Power10;
    ghost var was := arr[..];
    var m := GetMax(arr, n);
    MaxIn(was, m);
    var exp := 1;
    ghost var k := 0;
    Start(was);
    while m / exp > 0
      invariant exp == Power10(k) && 0 < exp <= 1000000000
      invariant Natural(arr[..]) && SortedBy(arr[..], exp) && multiset(arr[..]) == multiset(was)
      decreases m / exp
    {
      Shrinks(m, exp, k);
      PassSorts(arr[..], exp);
      CountSort(arr, n, exp);
      exp := exp * 10;
      k := k + 1;
    }
    SortedAtLast(arr[..], was, m, exp);
  }

  lemma MaxIn(s: seq<int>, m: int)
    requires m in s && forall i :: 0 <= i < |s| ==> 0 <= s[i] < 1000000000
    ensures 0 <= m < 1000000000
  {
  }

  lemma Start(s: seq<int>)
    ensures Power10(0) == 1 && SortedBy(s, 1)
  {
  }

  /** One more digit: the quotient strictly decreases and exp stays a 32-bit int. */
  lemma Shrinks(m: int, exp: int, k: nat)
    requires 0 <= m < 1000000000 && exp == Power10(k) && m / exp > 0
    ensures 0 <= m / (10 * exp) < m / exp && 10 * exp == Power10(k + 1) <= 1000000000
  {
    var q, r := m / exp, m % exp;
    assert m == exp * q + r;
    AtLeast(exp, q);
    PowerBelow(k, 8);
    DropDigit(exp, q, r);
  }

  lemma AtLeast(exp: int, q: int)
    requires exp > 0 && q > 0
    ensures exp * q >= exp
  {
    assert exp * q == exp + exp * (q - 1);
  }

  lemma DropDigit(exp: int, q: int, r: int)
    requires exp > 0 && q > 0 && 0 <= r < exp
    ensures 0 <= (exp * q + r) / (10 * exp) < q
  {
    var a, d := q / 10, q % 10;
    assert exp * (10 * a + d) == 10 * exp * a + d * exp;
    Scale(d, exp);
    Bits.DivModUnique(exp * q + r, 10 * exp, a, d * exp + r);
  }

  lemma {:induction false} PowerMono(a: nat, b: nat)
    requires a <= b
    ensures Power10(a) <= Power10(b)
  {
    if a < b {
      PowerMono(a, b - 1);
    }
  }

  /** A power of ten below 10^(j+1) is at most 10^j. */
  lemma PowerBelow(k: nat, j: nat)
    requires Power10(k) < Power10(j + 1)
    ensures Power10(k) <= Power10(j)
  {
    if k <= j {
      PowerMono(k, j);
    } else {
      PowerMono(j + 1, k);
    }
  }

  lemma SortedAtLast(s: seq<int>, was: seq<int>, m: int, exp: int)
    requires Natural(s) && exp > 0 && SortedBy(s, exp) && m / exp <= 0 && multiset(s) == multiset(was)
    requires m >= 0 && forall i :: 0 <= i < |was| ==> 0 <= was[i] <= m
    ensures Sorted(s)
  {
    var q := m / exp;
    assert m == exp * q + m % exp;
    assert m < exp by {
      assert exp * q == exp * (q + 1) - exp;
    }
    forall i | 0 <= i < |s| ensures s[i] % exp == s[i] {
      assert s[i] in multiset(was);
      Bits.DivModUnique(s[i], exp, 0, s[i]);
    }
  }
}
