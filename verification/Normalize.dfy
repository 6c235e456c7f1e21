/** normalize_ciphertext: a big-endian byte string reduced modulo an RSA modulus by one conditional subtraction. */
module Normalize {
  import opened Bits
  import opened ConstantTime

  /** The RSA modulus of the benchmarks: its top byte and the other 127. */
  const RSA_N_TOP: Byte := 0x92
  const RSA_N_REST: seq<Byte> := [
    0x92, 0x75, 0x84, 0x53, 0x06, 0x3d, 0x80, 0x3d, 0xd6, 0x03, 0xd5, 0xe7, 0x77, 0xd7, 0x88,
    0x8e, 0xd1, 0xd5, 0xbf, 0x35, 0x78, 0x61, 0x90, 0xfa, 0x2f, 0x23, 0xeb, 0xc0, 0x84, 0x8a, 0xea,
    0xdd, 0xa9, 0x2c, 0xa6, 0xc3, 0xd8, 0x0b, 0x32, 0xc4, 0xd1, 0x09, 0xbe, 0x0f, 0x36, 0xd6, 0xae,
    0x71, 0x30, 0xb9, 0xce, 0xd7, 0xac, 0xdf, 0x54, 0xcf, 0xc7, 0x55, 0x5a, 0xc1, 0x4e, 0xeb, 0xab,
    0x93, 0xa8, 0x98, 0x13, 0xfb, 0xf3, 0xc4, 0xf8, 0x06, 0x6d, 0x2d, 0x80, 0x0f, 0x7c, 0x38, 0xa8,
    0x1a, 0xe3, 0x19, 0x42, 0x91, 0x74, 0x03, 0xff, 0x49, 0x46, 0xb0, 0xa8, 0x3d, 0x3d, 0x3e, 0x05,
    0xee, 0x57, 0xc6, 0xf5, 0xf5, 0x60, 0x6f, 0xb5, 0xd4, 0xbc, 0x6c, 0xd3, 0x4e, 0xe0, 0x80, 0x1a,
    0x5e, 0x94, 0xbb, 0x77, 0xb0, 0x75, 0x07, 0x23, 0x3a, 0x0b, 0xc7, 0xba, 0xc8, 0xf9, 0x0f, 0x79]
  const RSA_N_BYTES: seq<Byte> := [RSA_N_TOP] + RSA_N_REST

  /** 256^k. */
  function Scale(k: nat): (r: int)
    ensures r >= 1
  {
    if k == 0 then 1 else 256 * Scale(k - 1)
  }

  /** The number a byte string spells, most significant byte first. */
  function Value(s: seq<Byte>): (v: int)
    ensures v >= 0
  {
    if s == [] then 0 else Weigh(s[0], |s| - 1) + Value(s[1..])
  }

  function Weigh(b: Byte, k: nat): (w: int)
    ensures w >= 0
  {
    b * Scale(k)
  }

  lemma {:induction false} ValueBound(s: seq<Byte>)
    ensures Value(s) < Scale(|s|)
  {
    if s != [] {
      ValueBound(s[1..]);
      Times(s[0], 255, Scale(|s| - 1));
    }
  }

  lemma Times(a: int, b: int, x: int)
    requires a <= b && x >= 0
    ensures a * x <= b * x
  {
    assert b * x - a * x == (b - a) * x;
  }

  lemma Heavier(b: Byte, a: Byte, k: nat)
    requires b < a
    ensures Weigh(b, k) + Scale(k) <= Weigh(a, k)
  {
    Times(b as int + 1, a, Scale(k));
  }

  /** The first difference decides. */
  lemma {:induction false} FirstDifference(a: seq<Byte>, b: seq<Byte>, i: nat)
    requires |a| == |b| && i < |a| && a[..i] == b[..i] && a[i] > b[i]
    ensures Value(a) > Value(b)
  {
    hide Scale, Weigh;
    if i == 0 {
      ValueBound(b[1..]);
      Heavier(b[0], a[0], |a| - 1);
    } else {
      assert a[0] == a[..i][0] == b[..i][0] == b[0];
      assert a[1..][..i - 1] == a[..i][1..] == b[..i][1..] == b[1..][..i - 1];
      FirstDifference(a[1..], b[1..], i - 1);
    }
  }

  /** reduced is src - n on the last bytes, with a borrow still owed. */
  ghost predicate Owed(reduced: seq<Byte>, src: seq<Byte>, n: seq<Byte>, borrow: int) {
    |reduced| == |src| == |n| && (borrow == 0 || borrow == 1)
    && Value(reduced) - Weigh(borrow as Byte, |src|) == Value(src) - Value(n)
  }

  /** One more byte of the subtraction, as the unsigned int computes it. */
  lemma BorrowStep(reduced: seq<Byte>, src: seq<Byte>, n: seq<Byte>, borrow: int, a: Byte, b: Byte)
    requires Owed(reduced, src, n, borrow)
    ensures var diff := (a - b - borrow) % WORD;
            Owed([diff % 256] + reduced, [a] + src, [b] + n, diff / 256 % 2)
  {
    var diff := (a - b - borrow) % WORD;
    var next := diff / 256 % 2;
    assert diff % 256 == a - b - borrow + 256 * next;
    var k := Scale(|src|);
    assert ([a] + src)[1..] == src && ([b] + n)[1..] == n && ([diff % 256] + reduced)[1..] == reduced;
    Spread(diff % 256, a, b, borrow, next, k);
  }

  lemma Spread(d: int, a: int, b: int, borrow: int, next: int, k: int)
    requires d == a - b - borrow + 256 * next
    ensures d * k - next * (256 * k) == a * k - b * k - borrow * k
  {
  }

  /** The borrow loop: the difference modulo 256^|n|, from the last byte to the first. */
  method Subtract(dst: seq<Byte>, n: seq<Byte>) returns (reduced: seq<Byte>, borrow: int)
    requires |dst| == |n|
    ensures Owed(reduced, dst, n, borrow)
  {
    reduced, borrow := [], 0;
    var i := 0;
    while i < |n|
      invariant 0 <= i <= |n| && Owed(reduced, dst[|n| - i..], n[|n| - i..], borrow)
    {
      var at := |n| - 1 - i;
      var diff := (dst[at] - n[at] - borrow) % WORD;
      BorrowStep(reduced, dst[at + 1..], n[at + 1..], borrow, dst[at], n[at]);
      assert dst[at..] == [dst[at]] + dst[at + 1..] && n[at..] == [n[at]] + n[at + 1..];
      reduced := [diff % 256] + reduced;
      borrow := diff / 256 % 2;
      i := i + 1;
    }
    assert dst[0..] == dst && n[0..] == n;
  }

  /** The branch-free scan: which of the two is larger. */
  method Compare(dst: seq<Byte>, n: seq<Byte>) returns (ge: bool, lt: bool)
    requires |dst| == |n|
    ensures ge <==> Value(dst) > Value(n)
    ensures lt <==> Value(dst) < Value(n)
  {
    ge, lt := false, false;
    for i := 0 to |n|
      invariant !(ge && lt)
      invariant ge ==> Value(dst) > Value(n)
      invariant lt ==> Value(dst) < Value(n)
      invariant !ge && !lt ==> dst[..i] == n[..i]
    {
      if !ge && !lt && dst[i] > n[i] {
        FirstDifference(dst, n, i);
      }
      if !ge && !lt && dst[i] < n[i] {
        FirstDifference(n, dst, i);
      }
      ge := ge || (!lt && dst[i] > n[i]);
      lt := lt || (!ge && dst[i] < n[i]);
    }
    assert dst[..|n|] == dst && n[..|n|] == n;
  }

  /** A modulus with its top bit set is more than half of the numbers of its length. */
  lemma MoreThanHalf(n: seq<Byte>)
    requires n != [] && n[0] >= 0x80
    ensures 2 * Value(n) >= Scale(|n|)
  {
    Times(0x80, n[0], Scale(|n| - 1));
  }

  lemma Reduces(dst: seq<Byte>, n: seq<Byte>, reduced: seq<Byte>, borrow: int)
    requires n != [] && n[0] >= 0x80 && Owed(reduced, dst, n, borrow)
    ensures Value(n) > 0
    ensures Value(dst) < Value(n) ==> Value(dst) == Value(dst) % Value(n)
    ensures Value(dst) >= Value(n) ==> Value(reduced) == Value(dst) % Value(n)
  {
    MoreThanHalf(n);
    ValueBound(dst);
    ValueBound(reduced);
    assert Weigh(1, |n|) == Scale(|n|);
    if Value(dst) >= Value(n) {
      assert borrow == 0;
      DivModUnique(Value(dst), Value(n), 1, Value(dst) - Value(n));
    } else {
      DivModUnique(Value(dst), Value(n), 0, Value(dst));
    }
  }

  /** normalize_ciphertext: a plain copy unless the length is that of the modulus, else the value modulo the modulus. */
  method NormalizeCiphertext(dst: array<Byte>, src: seq<Byte>, n: seq<Byte>)
    requires dst.Length == |src| && n != [] && n[0] >= 0x80
    modifies dst
    ensures |src| != |n| ==> dst[..] == src
    ensures |src| == |n| ==> Value(n) > 0 && Value(dst[..]) == Value(src) % Value(n)
  {
    Copy(dst, src);
    if |src| != |n| {
      return;
    }
    var reduced, borrow := Subtract(dst[..], n);
    var ge, lt := Compare(dst[..], n);
    Reduces(src, n, reduced, borrow);
    if ge || !lt {
      Copy(dst, reduced);
    }
  }

  method Copy(dst: array<Byte>, src: seq<Byte>)
    requires dst.Length == |src|
    modifies dst
    ensures dst[..] == src
  {
    for i := 0 to |src|
      invariant dst[..i] == src[..i]
    {
      dst[i] := src[i];
    }
    assert dst[..] == dst[..|src|] && src[..|src|] == src;
  }

  /** The benchmarks' modulus: every 128-byte string is replaced by its value modulo RSA_N. */
  method NormalizeForBenchmark(dst: array<Byte>, src: seq<Byte>)
    requires dst.Length == |src|
    modifies dst
    ensures |src| != 128 ==> dst[..] == src
    ensures |src| == 128 ==> Value(RSA_N_BYTES) > 0 && Value(dst[..]) == Value(src) % Value(RSA_N_BYTES)
  {
    assert |RSA_N_REST| == 127;
    assert RSA_N_BYTES[0] == RSA_N_TOP;
    NormalizeCiphertext(dst, src, RSA_N_BYTES);
  }
}
