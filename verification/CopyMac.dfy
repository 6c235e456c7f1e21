/** ssl3_cbc_copy_mac: extracting a MAC whose position is secret by a full scan and a rotation. */
module CopyMac {
  import opened Bits
  import opened ConstantTime

  // ---- rotations ------------------------------------------------------------------------------------

  /** Position t counted round a ring of n from start. */
  function Turn(start: nat, t: nat, n: nat): (r: nat)
    requires start < n && t < n
    ensures r < n
  {
    if start + t < n then start + t else start + t - n
  }

  function Rotate(s: seq<Byte>, d: nat): (r: seq<Byte>)
    requires d < |s|
    ensures |r| == |s| && forall t :: 0 <= t < |s| ==> r[t] == s[Turn(d, t, |s|)]
  {
    s[d..] + s[..d]
  }

  /** The multiple that is meant to hide the running time of the remainder. */
  function DivSpoiler(md: nat): (s: nat) {
    md / 2 * 0x100_0000
  }

  /** How far the spoiler, when it is no multiple of md, turns the result. */
  function Drift(md: nat): (d: nat)
    requires md > 0
    ensures d < md
  {
    Remainder(DivSpoiler(md), md);
    DivSpoiler(md) % md
  }

  lemma Remainder(x: nat, n: nat)
    requires n > 0
    ensures 0 <= x % n < n
  {
  }

  lemma RemainderStep(x: nat, n: nat)
    requires n > 0
    ensures (x + 1) % n == if x % n + 1 == n then 0 else x % n + 1
  {
    var q, r := x / n, x % n;
    assert x == n * q + r;
    if r + 1 == n {
      assert n * (q + 1) == n * q + n;
      DivModUnique(x + 1, n, q + 1, 0);
    } else {
      DivModUnique(x + 1, n, q, r + 1);
    }
  }

  lemma RemainderSum(x: nat, y: nat, n: nat)
    requires n > 0
    ensures 0 <= x % n < n && 0 <= y % n < n
    ensures (x + y) % n == Turn(x % n, y % n, n)
  {
    var a, r, b, s := x / n, x % n, y / n, y % n;
    assert x == n * a + r && y == n * b + s;
    assert n * (a + b) == n * a + n * b;
    if r + s < n {
      DivModUnique(x + y, n, a + b, r + s);
    } else {
      assert n * (a + b + 1) == n * (a + b) + n;
      DivModUnique(x + y, n, a + b + 1, r + s - n);
    }
  }

  // ---- the scan ---------------------------------------------------------------------------------------

  /** The bytes that can be ignored, the MAC's end varying by at most 256 bytes. */
  function ScanStart(md: nat, origLen: nat): nat {
    if origLen > md + 255 + 1 then origLen - (md + 255 + 1) else 0
  }

  /** The slot that the first byte of the MAC falls into. */
  function Offset(distance: nat, md: nat): (o: nat)
    requires md > 0
    ensures o < md
  {
    Remainder(distance, md);
    distance % md
  }

  /** rotated holds the first bytes of mac, as many as lie before position i, turned by offset. */
  ghost predicate Gathered(rotated: seq<Byte>, mac: seq<Byte>, offset: nat, got: int) {
    && |rotated| == |mac| && offset < |mac|
    && forall t :: 0 <= t < |mac| ==> rotated[Turn(offset, t, |mac|)] == if t < got then mac[t] else 0
  }

  /** One byte b & mac_started & ~mac_ended. */
  method MaskedByte(b: Byte, i: Word, macStart: Word, macEnd: Word) returns (r: Byte)
    ensures r == if macStart <= i < macEnd then b else 0
  {
    hide And, Not, Ge8;
    GeMask(i, macStart);
    GeMask(i, macEnd);
    ByteMasks(b);
    ByteMasks(0);
    r := And(b, Ge8(i, macStart));
    ByteMasks(r);
    r := And(r, Not(Ge8(i, macEnd)));
  }

  method OrByte(a: Byte, b: Byte) returns (r: Byte)
    requires a == 0 || b == 0
    ensures r == a + b
  {
    hide Or;
    ByteMasks(a);
    ByteMasks(b);
    r := Or(a, b);
  }

  /** j & (j < n): back to the start of the ring at its end. */
  method Wrap(j: Word, n: Word) returns (r: Word)
    requires j <= n
    ensures r == if j < n then j else 0
  {
    hide And, Lt;
    LtMask(j, n);
    WordMasks(j);
    r := AndW(j, Lt(j, n));
  }

  /** Every slot of the rotated buffer receives exactly one byte of the MAC. */
  method Scan(data: seq<Byte>, scanStart: nat, macStart: nat, md: nat, origLen: nat) returns (rotated: seq<Byte>)
    requires 0 < md <= 64 && scanStart <= macStart && macStart + md <= origLen <= |data| < WORD
    ensures Gathered(rotated, data[macStart..macStart + md], Offset(macStart - scanStart, md), md)
  {
    ghost var mac := data[macStart..macStart + md];
    ghost var offset := Offset(macStart - scanStart, md);
    rotated := seq(md, _ => 0);
    var i, j := scanStart, 0;
    while i < origLen
      invariant scanStart <= i <= origLen && 0 <= j < md
      invariant i <= macStart ==> j == (i - scanStart) % md
      invariant macStart <= i < macStart + md ==> j == Turn(offset, i - macStart, md)
      invariant Gathered(rotated, mac, offset, i - macStart)
    {
      var b := MaskedByte(data[i], i, macStart, macStart + md);
      GatherStep(rotated, mac, offset, i - macStart, j);
      b := OrByte(rotated[j], b);
      rotated := rotated[j := b];
      RemainderStep(i - scanStart, md);
      j := Wrap(j + 1, md);
      i := i + 1;
    }
  }

  lemma GatherStep(rotated: seq<Byte>, mac: seq<Byte>, offset: nat, got: int, j: nat)
    requires Gathered(rotated, mac, offset, got) && j < |mac|
    requires 0 <= got < |mac| ==> j == Turn(offset, got, |mac|)
    ensures 0 <= got < |mac| ==> rotated[j] == 0 && Gathered(rotated[j := mac[got]], mac, offset, got + 1)
    ensures !(0 <= got < |mac|) ==> Gathered(rotated, mac, offset, got + 1)
  {
  }

  // ---- undoing the rotation -----------------------------------------------------------------------------

  /** The default variant: every output byte is touched for every input byte. */
  method RotateMasked(rotated: seq<Byte>, offset: nat) returns (out: seq<Byte>)
    requires offset < |rotated| <= 64
    ensures out == Rotate(rotated, offset)
  {
    var md := |rotated|;
    out := seq(md, _ => 0);
    var ro := Wrap(md - offset, md);
    ghost var ro0 := ro;
    for i := 0 to md
      invariant |out| == md && ro < md && (i < md ==> ro == Turn(ro0, i, md))
      invariant forall l :: 0 <= l < md ==> out[Turn(ro0, l, md)] == if l < i then rotated[l] else 0
    {
      assert out[ro] == 0;
      out := OrInto(out, rotated[i], ro);
      ro := Wrap(ro + 1, md);
    }
    forall t | 0 <= t < md ensures out[t] == rotated[Turn(offset, t, md)] {
      assert Turn(ro0, Turn(offset, t, md), md) == t;
    }
  }

  /** out[j] |= x & (j == at), for every j. */
  method OrInto(out0: seq<Byte>, x: Byte, at: nat) returns (out: seq<Byte>)
    requires at < |out0| <= 64 && out0[at] == 0
    ensures out == out0[at := x]
  {
    out := out0;
    for j := 0 to |out0|
      invariant |out| == |out0|
      invariant forall l :: 0 <= l < |out0| ==> out[l] == if l < j && l == at then x else out0[l]
    {
      var b := MaskEq(x, j, at);
      b := OrByte(out[j], b);
      out := out[j := b];
    }
  }

  method MaskEq(x: Byte, j: Word, at: Word) returns (r: Byte)
    ensures r == if j == at then x else 0
  {
    hide And, Eq8;
    EqMask(j, at);
    ByteMasks(x);
    r := And(x, Eq8(j, at));
  }

  /** The variant with CBC_MAC_ROTATE_IN_PLACE: a read pointer that wraps round. */
  method RotateInPlace(rotated: seq<Byte>, offset: nat) returns (out: seq<Byte>)
    requires offset < |rotated| <= 64
    ensures out == Rotate(rotated, offset)
  {
    var md := |rotated|;
    var ro := offset;
    out := [];
    for i := 0 to md
      invariant |out| == i && ro < md && (i < md ==> ro == Turn(offset, i, md))
      invariant forall l :: 0 <= l < i ==> out[l] == rotated[Turn(offset, l, md)]
    {
      out := out + [rotated[ro]];
      ro := Wrap(ro + 1, md);
    }
  }

  lemma Unrotated(rotated: seq<Byte>, mac: seq<Byte>, offset: nat, d: nat)
    requires Gathered(rotated, mac, offset, |mac|) && d < |mac|
    ensures Rotate(rotated, Turn(offset, d, |mac|)) == Rotate(mac, d)
  {
    var n := |mac|;
    var r := Rotate(rotated, Turn(offset, d, n));
    forall t | 0 <= t < n ensures r[t] == Rotate(mac, d)[t] {
      assert Turn(Turn(offset, d, n), t, n) == Turn(offset, Turn(d, t, n), n);
    }
  }

  /** ssl3_cbc_copy_mac, either variant: the MAC at the secret end of the record, turned by Drift. */
  method CopyMac(data: seq<Byte>, length: nat, md: nat, origLen: nat, inPlace: bool) returns (out: seq<Byte>)
    requires 0 < md <= 64 && md <= length <= origLen <= length + 256 && origLen <= |data| < WORD
    ensures out == Rotate(data[length - md..length], Drift(md))
    ensures md % 2 == 0 ==> out == data[length - md..length]
  {
    var macStart := length - md;
    var scanStart := ScanStart(md, origLen);
    var at := (DivSpoiler(md) + macStart - scanStart) % WORD % md;
    var rotated := Scan(data, scanStart, macStart, md, origLen);
    ghost var offset := Offset(macStart - scanStart, md);
    ghost var mac := data[macStart..length];
    RemainderSum(macStart - scanStart, DivSpoiler(md), md);
    assert at == Turn(offset, Drift(md), md);
    Unrotated(rotated, mac, offset, Drift(md));
    if inPlace {
      out := RotateInPlace(rotated, at);
    } else {
      out := RotateMasked(rotated, at);
    }
    if md % 2 == 0 {
      EvenHasNoDrift(md);
      assert Rotate(mac, 0) == mac;
    }
  }

  // ---- when the result is the MAC -----------------------------------------------------------------------

  lemma EvenHasNoDrift(md: nat)
    requires md > 0 && md % 2 == 0
    ensures Drift(md) == 0
  {
    var h := md / 2;
    assert DivSpoiler(md) == md * 0x80_0000;
    DivModUnique(DivSpoiler(md), md, 0x80_0000, 0);
  }

  /** An odd number divides a power of two only if it is 1. */
  lemma {:induction false} OddDivisor(d: nat, q: nat, k: nat)
    requires d % 2 == 1 && d * q == Pow2(k)
    ensures d == 1
    decreases k
  {
    if k == 0 {
      assert q >= 1;
      assert d * q == d + d * (q - 1);
    } else {
      var h, r := q / 2, q % 2;
      assert d * q == 2 * (d * h) + d * r;
      assert r == 0;
      OddDivisor(d, h, k - 1);
    }
  }

  lemma OddDrifts(md: nat)
    requires md % 2 == 1 && md > 1
    ensures Drift(md) > 0
  {
    var h := md / 2;
    if Drift(md) == 0 {
      var q := DivSpoiler(md) / md;
      assert h * 0x100_0000 == md * q;
      Pow2Add(8, 16);
      Pow2Words();
      assert md * 0x100_0000 - 0x100_0000 == 2 * (md * q);
      assert md * (0x100_0000 - 2 * q) == Pow2(24);
      OddDivisor(md, 0x100_0000 - 2 * q, 24);
    }
  }

  /** The function is right for every record exactly when the MAC size is even, or 1. */
  lemma ExactWhen(md: nat)
    requires 0 < md <= 64
    ensures (forall mac: seq<Byte> :: |mac| == md ==> Rotate(mac, Drift(md)) == mac) <==> (md % 2 == 0 || md == 1)
  {
    if md % 2 == 0 || md == 1 {
      if md % 2 == 0 {
        EvenHasNoDrift(md);
      }
      forall mac: seq<Byte> | |mac| == md ensures Rotate(mac, Drift(md)) == mac {
        assert Drift(md) == 0;
      }
    } else {
      OddDrifts(md);
      var d := Drift(md);
      var mac: seq<Byte> := seq(md, i => if i == 0 then 1 else 0);
      assert Rotate(mac, d)[0] == mac[d] == 0;
    }
  }
}
