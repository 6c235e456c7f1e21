/** The three steps on a decrypted TLS record in the order their comments demand: padding, MAC, digest. */
module TlsRecord {
  import opened Wrappers
  import opened ConstantTime
  import opened Hashing
  import CbcDigest
  import CopyMac
  import Md32
  import opened RemovePadding

  const MD_SIZE: int := 20

  /** What the padding check leaves of the record after its IV. */
  function Stripped(s: seq<Byte>, accepted: bool): (t: seq<Byte>)
    requires |s| > 0 && (accepted ==> |s| > s[|s| - 1] as int)
    ensures |s| - 256 <= |t| <= |s|
  {
    if accepted then s[..|s| - 1 - s[|s| - 1] as int] else s
  }

  /**
   * Whatever the bytes of the record, unless it is publicly too short: padding removal leaves room for the MAC and at
   * most 256 bytes of padding, so the MAC extracted is the last 20 bytes of what remains, and the digest is the
   * standard HMAC of the header and the bytes before them.
   */
  method OpenRecord(f: Compression, header: seq<Byte>, rec: Record, explicitIv: bool, blockSize: nat, secret: seq<Byte>)
      returns (result: int, mac: seq<Byte>, outer: seq<Byte>)
    requires rec.Valid() && rec.length < 1024 * 1024 && blockSize < 0x4000_0000
    requires |header| == 13 && |secret| <= 64
    modifies rec
    ensures result == 0 <==> 1 + MD_SIZE + IvSize(explicitIv, blockSize) > old(rec.length)
    ensures result != 0 ==>
      var s := old(rec.Bytes())[IvSize(explicitIv, blockSize)..];
      && (result == 1 <==> Accepted(s, MD_SIZE))
      && var t := Stripped(s, result == 1);
         && |t| >= MD_SIZE
         && mac == t[|t| - MD_SIZE..]
         && outer == CbcDigest.KeyBlock(secret, 0x5c)
                     + Hash(f, CbcDigest.KeyBlock(secret, 0x36) + (header + t[..|t| - MD_SIZE]))
  {
    hide CbcDigest.KeyBlock, Hash, Accepted, OrW;
    mac, outer := [], [];
    var padded := rec.length;
    result := RemovePaddingFrom(rec, explicitIv, blockSize, MD_SIZE);
    if result != 0 {
      padded := padded - IvSize(explicitIv, blockSize);
      var data := rec.buffer[rec.data..rec.data + padded];
      assert data == old(rec.Bytes())[IvSize(explicitIv, blockSize)..];
      AcceptedFits(data, MD_SIZE);
      mac, outer := MacAndDigest(f, header, data, rec.length, secret);
      assert data[..rec.length] == Stripped(data, result == 1);
    }
  }

  /** MAC and digest of the first length bytes of a padded record. */
  method MacAndDigest(f: Compression, header: seq<Byte>, data: seq<Byte>, length: nat, secret: seq<Byte>)
      returns (mac: seq<Byte>, outer: seq<Byte>)
    requires MD_SIZE <= length <= |data| <= length + 256 && |data| < 1024 * 1024
    requires |header| == 13 && |secret| <= 64
    ensures var t := data[..length];
            && mac == t[|t| - MD_SIZE..]
            && outer == CbcDigest.KeyBlock(secret, 0x5c)
                        + Hash(f, CbcDigest.KeyBlock(secret, 0x36) + (header + t[..|t| - MD_SIZE]))
  {
    hide CbcDigest.KeyBlock, Hash, CbcDigest.Refused, CbcDigest.StartingBlocks;
    CbcDigest.SlackSuffices(|header| + |data|, |header| + length - MD_SIZE, false);
    mac := CopyMac.CopyMac(data, length, MD_SIZE, |data|, false);
    var digest := CbcDigest.DigestRecord(f, header, data, length, secret, false);
    NotRefused(header, data);
    outer := digest.value;
    assert data[length - MD_SIZE..length] == data[..length][length - MD_SIZE..];
    assert data[..length - MD_SIZE] == data[..length][..length - MD_SIZE];
  }

  lemma AcceptedFits(s: seq<Byte>, macSize: nat)
    requires |s| >= 1 + macSize
    ensures Accepted(s, macSize) ==> |s| >= macSize + 1 + s[|s| - 1] as int
  {
  }

  lemma NotRefused(header: seq<Byte>, data: seq<Byte>)
    requires |header| + |data| > MD_SIZE
    ensures !CbcDigest.Refused(header, data, false)
  {
  }

  /** The constant-time digest and the streaming one are the same: key block, header and data as three updates. */
  method DigestByStreaming(f: Compression, header: seq<Byte>, data: seq<Byte>, dpm: nat, secret: seq<Byte>)
      returns (outer: Option<seq<Byte>>, md: seq<Byte>)
    requires CbcDigest.ValidRecord(header, data, dpm, secret, false)
    ensures md == Hash(f, CbcDigest.KeyBlock(secret, 0x36) + (header + data[..dpm - MD_SIZE]))
    ensures outer == Some(CbcDigest.KeyBlock(secret, 0x5c) + md)
  {
    hide CbcDigest.KeyBlock, Hash, CbcDigest.Refused;
    outer := CbcDigest.DigestRecord(f, header, data, dpm, secret, false);
    NotRefused(header, data);
    var pieces := [CbcDigest.KeyBlock(secret, 0x36), header, data[..dpm - MD_SIZE]];
    md := Md32.HashPieces(f, pieces);
    ThreePieces(pieces[0], pieces[1], pieces[2]);
  }

  lemma ThreePieces(a: seq<Byte>, b: seq<Byte>, c: seq<Byte>)
    ensures Md32.Joined([a, b, c]) == a + (b + c)
  {
    assert [a, b, c][..2] == [a, b] && [a, b][..1] == [a] && [a][..0] == [];
    assert Md32.Joined([a]) == a;
    assert Md32.Joined([a, b]) == a + b;
  }
}
