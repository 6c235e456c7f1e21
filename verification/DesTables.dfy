/** The tables of the two DES implementations, which agree entry by entry. */
module DesTables {
  /** S-box 1 with the permutation P applied, rotated one bit to the left. */
  function Sbox1(x: bv6): bv32 {
    if x & 32 == 0 then (if x & 16 == 0 then Sbox1A(x) else Sbox1B(x)) else (if x & 16 == 0 then Sbox1C(x) else Sbox1D(x))
  }

  function Sbox1A(x: bv6): (s: bv32)
    ensures s | 0x01010404 == 0x01010404
  {
    if x & 8 == 0 then
      if x & 4 == 0 then
        (if x & 2 == 0 then (if x & 1 == 0 then 0x01010400 else 0x00000000) else (if x & 1 == 0 then 0x00010000 else 0x01010404))
      else
        (if x & 2 == 0 then (if x & 1 == 0 then 0x01010004 else 0x00010404) else (if x & 1 == 0 then 0x00000004 else 0x00010000))
    else
      if x & 4 == 0 then
        (if x & 2 == 0 then (if x & 1 == 0 then 0x00000400 else 0x01010400) else (if x & 1 == 0 then 0x01010404 else 0x00000400))
      else
        (if x & 2 == 0 then (if x & 1 == 0 then 0x01000404 else 0x01010004) else (if x & 1 == 0 then 0x01000000 else 0x00000004))
  }

  function Sbox1B(x: bv6): (s: bv32)
    ensures s | 0x01010404 == 0x01010404
  {
    if x & 8 == 0 then
      if x & 4 == 0 then
        (if x & 2 == 0 then (if x & 1 == 0 then 0x00000404 else 0x01000400) else (if x & 1 == 0 then 0x01000400 else 0x00010400))
      else
        (if x & 2 == 0 then (if x & 1 == 0 then 0x00010400 else 0x01010000) else (if x & 1 == 0 then 0x01010000 else 0x01000404))
    else
      if x & 4 == 0 then
        (if x & 2 == 0 then (if x & 1 == 0 then 0x00010004 else 0x01000004) else (if x & 1 == 0 then 0x01000004 else 0x00010004))
      else
        (if x & 2 == 0 then (if x & 1 == 0 then 0x00000000 else 0x00000404) else (if x & 1 == 0 then 0x00010404 else 0x01000000))
  }

  function Sbox1C(x: bv6): (s: bv32)
    ensures s | 0x01010404 == 0x01010404
  {
    if x & 8 == 0 then
      if x & 4 == 0 then
        (if x & 2 == 0 then (if x & 1 == 0 then 0x00010000 else 0x01010404) else (if x & 1 == 0 then 0x00000004 else 0x01010000))
      else
        (if x & 2 == 0 then (if x & 1 == 0 then 0x01010400 else 0x01000000) else (if x & 1 == 0 then 0x01000000 else 0x00000400))
    else
      if x & 4 == 0 then
        (if x & 2 == 0 then (if x & 1 == 0 then 0x01010004 else 0x00010000) else (if x & 1 == 0 then 0x00010400 else 0x01000004))
      else
        (if x & 2 == 0 then (if x & 1 == 0 then 0x00000400 else 0x00000004) else (if x & 1 == 0 then 0x01000404 else 0x00010404))
  }

  function Sbox1D(x: bv6): (s: bv32)
    ensures s | 0x01010404 == 0x01010404
  {
    if x & 8 == 0 then
      if x & 4 == 0 then
        (if x & 2 == 0 then (if x & 1 == 0 then 0x01010404 else 0x00010004) else (if x & 1 == 0 then 0x01010000 else 0x01000404))
      else
        (if x & 2 == 0 then (if x & 1 == 0 then 0x01000004 else 0x00000404) else (if x & 1 == 0 then 0x00010404 else 0x01010400))
    else
      if x & 4 == 0 then
        (if x & 2 == 0 then (if x & 1 == 0 then 0x00000404 else 0x01000400) else (if x & 1 == 0 then 0x01000400 else 0x00000000))
      else
        (if x & 2 == 0 then (if x & 1 == 0 then 0x00010004 else 0x00010400) else (if x & 1 == 0 then 0x00000000 else 0x01010004))
  }

  lemma Sbox1Range(x: bv6)
    ensures Sbox1(x) | 0x01010404 == 0x01010404
  {
    hide Sbox1A, Sbox1B, Sbox1C, Sbox1D;
    if x & 32 == 0 {
      if x & 16 == 0 {
        assert Sbox1(x) == Sbox1A(x);
      } else {
        assert Sbox1(x) == Sbox1B(x);
      }
    } else {
      if x & 16 == 0 {
        assert Sbox1(x) == Sbox1C(x);
      } else {
        assert Sbox1(x) == Sbox1D(x);
      }
    }
  }

  /** S-box 2 with the permutation P applied, rotated one bit to the left. */
  function Sbox2(x: bv6): bv32 {
    if x & 32 == 0 then (if x & 16 == 0 then Sbox2A(x) else Sbox2B(x)) else (if x & 16 == 0 then Sbox2C(x) else Sbox2D(x))
  }

  function Sbox2A(x: bv6): (s: bv32)
    ensures s | 0x80108020 == 0x80108020
  {
    if x & 8 == 0 then
      if x & 4 == 0 then
        (if x & 2 == 0 then (if x & 1 == 0 then 0x80108020 else 0x80008000) else (if x & 1 == 0 then 0x00008000 else 0x00108020))
      else
        (if x & 2 == 0 then (if x & 1 == 0 then 0x00100000 else 0x00000020) else (if x & 1 == 0 then 0x80100020 else 0x80008020))
    else
      if x & 4 == 0 then
        (if x & 2 == 0 then (if x & 1 == 0 then 0x80000020 else 0x80108020) else (if x & 1 == 0 then 0x80108000 else 0x80000000))
      else
        (if x & 2 == 0 then (if x & 1 == 0 then 0x80008000 else 0x00100000) else (if x & 1 == 0 then 0x00000020 else 0x80100020))
  }

  function Sbox2B(x: bv6): (s: bv32)
    ensures s | 0x80108020 == 0x80108020
  {
    if x & 8 == 0 then
      if x & 4 == 0 then
        (if x & 2 == 0 then (if x & 1 == 0 then 0x00108000 else 0x00100020) else (if x & 1 == 0 then 0x80008020 else 0x00000000))
      else
        (if x & 2 == 0 then (if x & 1 == 0 then 0x80000000 else 0x00008000) else (if x & 1 == 0 then 0x00108020 else 0x80100000))
    else
      if x & 4 == 0 then
        (if x & 2 == 0 then (if x & 1 == 0 then 0x00100020 else 0x80000020) else (if x & 1 == 0 then 0x00000000 else 0x00108000))
      else
        (if x & 2 == 0 then (if x & 1 == 0 then 0x00008020 else 0x80108000) else (if x & 1 == 0 then 0x80100000 else 0x00008020))
  }

  function Sbox2C(x: bv6): (s: bv32)
    ensures s | 0x80108020 == 0x80108020
  {
    if x & 8 == 0 then
      if x & 4 == 0 then
        (if x & 2 == 0 then (if x & 1 == 0 then 0x00000000 else 0x00108020) else (if x & 1 == 0 then 0x80100020 else 0x00100000))
      else
        (if x & 2 == 0 then (if x & 1 == 0 then 0x80008020 else 0x80100000) else (if x & 1 == 0 then 0x80108000 else 0x00008000))
    else
      if x & 4 == 0 then
        (if x & 2 == 0 then (if x & 1 == 0 then 0x80100000 else 0x80008000) else (if x & 1 == 0 then 0x00000020 else 0x80108020))
      else
        (if x & 2 == 0 then (if x & 1 == 0 then 0x00108020 else 0x00000020) else (if x & 1 == 0 then 0x00008000 else 0x80000000))
  }

  function Sbox2D(x: bv6): (s: bv32)
    ensures s | 0x80108020 == 0x80108020
  {
    if x & 8 == 0 then
      if x & 4 == 0 then
        (if x & 2 == 0 then (if x & 1 == 0 then 0x00008020 else 0x80108000) else (if x & 1 == 0 then 0x00100000 else 0x80000020))
      else
        (if x & 2 == 0 then (if x & 1 == 0 then 0x00100020 else 0x80008020) else (if x & 1 == 0 then 0x80000020 else 0x00100020))
    else
      if x & 4 == 0 then
        (if x & 2 == 0 then (if x & 1 == 0 then 0x00108000 else 0x00000000) else (if x & 1 == 0 then 0x80008000 else 0x00008020))
      else
        (if x & 2 == 0 then (if x & 1 == 0 then 0x80000000 else 0x80100020) else (if x & 1 == 0 then 0x80108020 else 0x00108000))
  }

  lemma Sbox2Range(x: bv6)
    ensures Sbox2(x) | 0x80108020 == 0x80108020
  {
    hide Sbox2A, Sbox2B, Sbox2C, Sbox2D;
    if x & 32 == 0 {
      if x & 16 == 0 {
        assert Sbox2(x) == Sbox2A(x);
      } else {
        assert Sbox2(x) == Sbox2B(x);
      }
    } else {
      if x & 16 == 0 {
        assert Sbox2(x) == Sbox2C(x);
      } else {
        assert Sbox2(x) == Sbox2D(x);
      }
    }
  }

  /** S-box 3 with the permutation P applied, rotated one bit to the left. */
  function Sbox3(x: bv6): bv32 {
    if x & 32 == 0 then (if x & 16 == 0 then Sbox3A(x) else Sbox3B(x)) else (if x & 16 == 0 then Sbox3C(x) else Sbox3D(x))
  }

  function Sbox3A(x: bv6): (s: bv32)
    ensures s | 0x08020208 == 0x08020208
  {
    if x & 8 == 0 then
      if x & 4 == 0 then
        (if x & 2 == 0 then (if x & 1 == 0 then 0x00000208 else 0x08020200) else (if x & 1 == 0 then 0x00000000 else 0x08020008))
      else
        (if x & 2 == 0 then (if x & 1 == 0 then 0x08000200 else 0x00000000) else (if x & 1 == 0 then 0x00020208 else 0x08000200))
    else
      if x & 4 == 0 then
        (if x & 2 == 0 then (if x & 1 == 0 then 0x00020008 else 0x08000008) else (if x & 1 == 0 then 0x08000008 else 0x00020000))
      else
        (if x & 2 == 0 then (if x & 1 == 0 then 0x08020208 else 0x00020008) else (if x & 1 == 0 then 0x08020000 else 0x00000208))
  }

  function Sbox3B(x: bv6): (s: bv32)
    ensures s | 0x08020208 == 0x08020208
  {
    if x & 8 == 0 then
      if x & 4 == 0 then
        (if x & 2 == 0 then (if x & 1 == 0 then 0x08000000 else 0x00000008) else (if x & 1 == 0 then 0x08020200 else 0x00000200))
      else
        (if x & 2 == 0 then (if x & 1 == 0 then 0x00020200 else 0x08020000) else (if x & 1 == 0 then 0x08020008 else 0x00020208))
    else
      if x & 4 == 0 then
        (if x & 2 == 0 then (if x & 1 == 0 then 0x08000208 else 0x00020200) else (if x & 1 == 0 then 0x00020000 else 0x08000208))
      else
        (if x & 2 == 0 then (if x & 1 == 0 then 0x00000008 else 0x08020208) else (if x & 1 == 0 then 0x00000200 else 0x08000000))
  }

  function Sbox3C(x: bv6): (s: bv32)
    ensures s | 0x08020208 == 0x08020208
  {
    if x & 8 == 0 then
      if x & 4 == 0 then
        (if x & 2 == 0 then (if x & 1 == 0 then 0x08020200 else 0x08000000) else (if x & 1 == 0 then 0x00020008 else 0x00000208))
      else
        (if x & 2 == 0 then (if x & 1 == 0 then 0x00020000 else 0x08020200) else (if x & 1 == 0 then 0x08000200 else 0x00000000))
    else
      if x & 4 == 0 then
        (if x & 2 == 0 then (if x & 1 == 0 then 0x00000200 else 0x00020008) else (if x & 1 == 0 then 0x08020208 else 0x08000200))
      else
        (if x & 2 == 0 then (if x & 1 == 0 then 0x08000008 else 0x00000200) else (if x & 1 == 0 then 0x00000000 else 0x08020008))
  }

  function Sbox3D(x: bv6): (s: bv32)
    ensures s | 0x08020208 == 0x08020208
  {
    if x & 8 == 0 then
      if x & 4 == 0 then
        (if x & 2 == 0 then (if x & 1 == 0 then 0x08000208 else 0x00020000) else (if x & 1 == 0 then 0x08000000 else 0x08020208))
      else
        (if x & 2 == 0 then (if x & 1 == 0 then 0x00000008 else 0x00020208) else (if x & 1 == 0 then 0x00020200 else 0x08000008))
    else
      if x & 4 == 0 then
        (if x & 2 == 0 then (if x & 1 == 0 then 0x08020000 else 0x08000208) else (if x & 1 == 0 then 0x00000208 else 0x08020000))
      else
        (if x & 2 == 0 then (if x & 1 == 0 then 0x00020208 else 0x00000008) else (if x & 1 == 0 then 0x08020008 else 0x00020200))
  }

  lemma Sbox3Range(x: bv6)
    ensures Sbox3(x) | 0x08020208 == 0x08020208
  {
    hide Sbox3A, Sbox3B, Sbox3C, Sbox3D;
    if x & 32 == 0 {
      if x & 16 == 0 {
        assert Sbox3(x) == Sbox3A(x);
      } else {
        assert Sbox3(x) == Sbox3B(x);
      }
    } else {
      if x & 16 == 0 {
        assert Sbox3(x) == Sbox3C(x);
      } else {
        assert Sbox3(x) == Sbox3D(x);
      }
    }
  }

  /** S-box 4 with the permutation P applied, rotated one bit to the left. */
  function Sbox4(x: bv6): bv32 {
    if x & 32 == 0 then (if x & 16 == 0 then Sbox4A(x) else Sbox4B(x)) else (if x & 16 == 0 then Sbox4C(x) else Sbox4D(x))
  }

  function Sbox4A(x: bv6): (s: bv32)
    ensures s | 0x00802081 == 0x00802081
  {
    if x & 8 == 0 then
      if x & 4 == 0 then
        (if x & 2 == 0 then (if x & 1 == 0 then 0x00802001 else 0x00002081) else (if x & 1 == 0 then 0x00002081 else 0x00000080))
      else
        (if x & 2 == 0 then (if x & 1 == 0 then 0x00802080 else 0x00800081) else (if x & 1 == 0 then 0x00800001 else 0x00002001))
    else
      if x & 4 == 0 then
        (if x & 2 == 0 then (if x & 1 == 0 then 0x00000000 else 0x00802000) else (if x & 1 == 0 then 0x00802000 else 0x00802081))
      else
        (if x & 2 == 0 then (if x & 1 == 0 then 0x00000081 else 0x00000000) else (if x & 1 == 0 then 0x00800080 else 0x00800001))
  }

  function Sbox4B(x: bv6): (s: bv32)
    ensures s | 0x00802081 == 0x00802081
  {
    if x & 8 == 0 then
      if x & 4 == 0 then
        (if x & 2 == 0 then (if x & 1 == 0 then 0x00000001 else 0x00002000) else (if x & 1 == 0 then 0x00800000 else 0x00802001))
      else
        (if x & 2 == 0 then (if x & 1 == 0 then 0x00000080 else 0x00800000) else (if x & 1 == 0 then 0x00002001 else 0x00002080))
    else
      if x & 4 == 0 then
        (if x & 2 == 0 then (if x & 1 == 0 then 0x00800081 else 0x00000001) else (if x & 1 == 0 then 0x00002080 else 0x00800080))
      else
        (if x & 2 == 0 then (if x & 1 == 0 then 0x00002000 else 0x00802080) else (if x & 1 == 0 then 0x00802081 else 0x00000081))
  }

  function Sbox4C(x: bv6): (s: bv32)
    ensures s | 0x00802081 == 0x00802081
  {
    if x & 8 == 0 then
      if x & 4 == 0 then
        (if x & 2 == 0 then (if x & 1 == 0 then 0x00800080 else 0x00800001) else (if x & 1 == 0 then 0x00802000 else 0x00802081))
      else
        (if x & 2 == 0 then (if x & 1 == 0 then 0x00000081 else 0x00000000) else (if x & 1 == 0 then 0x00000000 else 0x00802000))
    else
      if x & 4 == 0 then
        (if x & 2 == 0 then (if x & 1 == 0 then 0x00002080 else 0x00800080) else (if x & 1 == 0 then 0x00800081 else 0x00000001))
      else
        (if x & 2 == 0 then (if x & 1 == 0 then 0x00802001 else 0x00002081) else (if x & 1 == 0 then 0x00002081 else 0x00000080))
  }

  function Sbox4D(x: bv6): (s: bv32)
    ensures s | 0x00802081 == 0x00802081
  {
    if x & 8 == 0 then
      if x & 4 == 0 then
        (if x & 2 == 0 then (if x & 1 == 0 then 0x00802081 else 0x00000081) else (if x & 1 == 0 then 0x00000001 else 0x00002000))
      else
        (if x & 2 == 0 then (if x & 1 == 0 then 0x00800001 else 0x00002001) else (if x & 1 == 0 then 0x00802080 else 0x00800081))
    else
      if x & 4 == 0 then
        (if x & 2 == 0 then (if x & 1 == 0 then 0x00002001 else 0x00002080) else (if x & 1 == 0 then 0x00800000 else 0x00802001))
      else
        (if x & 2 == 0 then (if x & 1 == 0 then 0x00000080 else 0x00800000) else (if x & 1 == 0 then 0x00002000 else 0x00802080))
  }

  lemma Sbox4Range(x: bv6)
    ensures Sbox4(x) | 0x00802081 == 0x00802081
  {
    hide Sbox4A, Sbox4B, Sbox4C, Sbox4D;
    if x & 32 == 0 {
      if x & 16 == 0 {
        assert Sbox4(x) == Sbox4A(x);
      } else {
        assert Sbox4(x) == Sbox4B(x);
      }
    } else {
      if x & 16 == 0 {
        assert Sbox4(x) == Sbox4C(x);
      } else {
        assert Sbox4(x) == Sbox4D(x);
      }
    }
  }

  /** S-box 5 with the permutation P applied, rotated one bit to the left. */
  function Sbox5(x: bv6): bv32 {
    if x & 32 == 0 then (if x & 16 == 0 then Sbox5A(x) else Sbox5B(x)) else (if x & 16 == 0 then Sbox5C(x) else Sbox5D(x))
  }

  function Sbox5A(x: bv6): (s: bv32)
    ensures s | 0x42080100 == 0x42080100
  {
    if x & 8 == 0 then
      if x & 4 == 0 then
        (if x & 2 == 0 then (if x & 1 == 0 then 0x00000100 else 0x02080100) else (if x & 1 == 0 then 0x02080000 else 0x42000100))
      else
        (if x & 2 == 0 then (if x & 1 == 0 then 0x00080000 else 0x00000100) else (if x & 1 == 0 then 0x40000000 else 0x02080000))
    else
      if x & 4 == 0 then
        (if x & 2 == 0 then (if x & 1 == 0 then 0x40080100 else 0x00080000) else (if x & 1 == 0 then 0x02000100 else 0x40080100))
      else
        (if x & 2 == 0 then (if x & 1 == 0 then 0x42000100 else 0x42080000) else (if x & 1 == 0 then 0x00080100 else 0x40000000))
  }

  function Sbox5B(x: bv6): (s: bv32)
    ensures s | 0x42080100 == 0x42080100
  {
    if x & 8 == 0 then
      if x & 4 == 0 then
        (if x & 2 == 0 then (if x & 1 == 0 then 0x02000000 else 0x40080000) else (if x & 1 == 0 then 0x40080000 else 0x00000000))
      else
        (if x & 2 == 0 then (if x & 1 == 0 then 0x40000100 else 0x42080100) else (if x & 1 == 0 then 0x42080100 else 0x02000100))
    else
      if x & 4 == 0 then
        (if x & 2 == 0 then (if x & 1 == 0 then 0x42080000 else 0x40000100) else (if x & 1 == 0 then 0x00000000 else 0x42000000))
      else
        (if x & 2 == 0 then (if x & 1 == 0 then 0x02080100 else 0x02000000) else (if x & 1 == 0 then 0x42000000 else 0x00080100))
  }

  function Sbox5C(x: bv6): (s: bv32)
    ensures s | 0x42080100 == 0x42080100
  {
    if x & 8 == 0 then
      if x & 4 == 0 then
        (if x & 2 == 0 then (if x & 1 == 0 then 0x00080000 else 0x42000100) else (if x & 1 == 0 then 0x00000100 else 0x02000000))
      else
        (if x & 2 == 0 then (if x & 1 == 0 then 0x40000000 else 0x02080000) else (if x & 1 == 0 then 0x42000100 else 0x40080100))
    else
      if x & 4 == 0 then
        (if x & 2 == 0 then (if x & 1 == 0 then 0x02000100 else 0x40000000) else (if x & 1 == 0 then 0x42080000 else 0x02080100))
      else
        (if x & 2 == 0 then (if x & 1 == 0 then 0x40080100 else 0x00000100) else (if x & 1 == 0 then 0x02000000 else 0x42080000))
  }

  function Sbox5D(x: bv6): (s: bv32)
    ensures s | 0x42080100 == 0x42080100
  {
    if x & 8 == 0 then
      if x & 4 == 0 then
        (if x & 2 == 0 then (if x & 1 == 0 then 0x42080100 else 0x00080100) else (if x & 1 == 0 then 0x42000000 else 0x42080100))
      else
        (if x & 2 == 0 then (if x & 1 == 0 then 0x02080000 else 0x00000000) else (if x & 1 == 0 then 0x40080000 else 0x42000000))
    else
      if x & 4 == 0 then
        (if x & 2 == 0 then (if x & 1 == 0 then 0x00080100 else 0x02000100) else (if x & 1 == 0 then 0x40000100 else 0x00080000))
      else
        (if x & 2 == 0 then (if x & 1 == 0 then 0x00000000 else 0x40080000) else (if x & 1 == 0 then 0x02080100 else 0x40000100))
  }

  lemma Sbox5Range(x: bv6)
    ensures Sbox5(x) | 0x42080100 == 0x42080100
  {
    hide Sbox5A, Sbox5B, Sbox5C, Sbox5D;
    if x & 32 == 0 {
      if x & 16 == 0 {
        assert Sbox5(x) == Sbox5A(x);
      } else {
        assert Sbox5(x) == Sbox5B(x);
      }
    } else {
      if x & 16 == 0 {
        assert Sbox5(x) == Sbox5C(x);
      } else {
        assert Sbox5(x) == Sbox5D(x);
      }
    }
  }

  /** S-box 6 with the permutation P applied, rotated one bit to the left. */
  function Sbox6(x: bv6): bv32 {
    if x & 32 == 0 then (if x & 16 == 0 then Sbox6A(x) else Sbox6B(x)) else (if x & 16 == 0 then Sbox6C(x) else Sbox6D(x))
  }

  function Sbox6A(x: bv6): (s: bv32)
    ensures s | 0x20404010 == 0x20404010
  {
    if x & 8 == 0 then
      if x & 4 == 0 then
        (if x & 2 == 0 then (if x & 1 == 0 then 0x20000010 else 0x20400000) else (if x & 1 == 0 then 0x00004000 else 0x20404010))
      else
        (if x & 2 == 0 then (if x & 1 == 0 then 0x20400000 else 0x00000010) else (if x & 1 == 0 then 0x20404010 else 0x00400000))
    else
      if x & 4 == 0 then
        (if x & 2 == 0 then (if x & 1 == 0 then 0x20004000 else 0x00404010) else (if x & 1 == 0 then 0x00400000 else 0x20000010))
      else
        (if x & 2 == 0 then (if x & 1 == 0 then 0x00400010 else 0x20004000) else (if x & 1 == 0 then 0x20000000 else 0x00004010))
  }

  function Sbox6B(x: bv6): (s: bv32)
    ensures s | 0x20404010 == 0x20404010
  {
    if x & 8 == 0 then
      if x & 4 == 0 then
        (if x & 2 == 0 then (if x & 1 == 0 then 0x00000000 else 0x00400010) else (if x & 1 == 0 then 0x20004010 else 0x00004000))
      else
        (if x & 2 == 0 then (if x & 1 == 0 then 0x00404000 else 0x20004010) else (if x & 1 == 0 then 0x00000010 else 0x20400010))
    else
      if x & 4 == 0 then
        (if x & 2 == 0 then (if x & 1 == 0 then 0x20400010 else 0x00000000) else (if x & 1 == 0 then 0x00404010 else 0x20404000))
      else
        (if x & 2 == 0 then (if x & 1 == 0 then 0x00004010 else 0x00404000) else (if x & 1 == 0 then 0x20404000 else 0x20000000))
  }

  function Sbox6C(x: bv6): (s: bv32)
    ensures s | 0x20404010 == 0x20404010
  {
    if x & 8 == 0 then
      if x & 4 == 0 then
        (if x & 2 == 0 then (if x & 1 == 0 then 0x20004000 else 0x00000010) else (if x & 1 == 0 then 0x20400010 else 0x00404000))
      else
        (if x & 2 == 0 then (if x & 1 == 0 then 0x20404010 else 0x00400000) else (if x & 1 == 0 then 0x00004010 else 0x20000010))
    else
      if x & 4 == 0 then
        (if x & 2 == 0 then (if x & 1 == 0 then 0x00400000 else 0x20004000) else (if x & 1 == 0 then 0x20000000 else 0x00004010))
      else
        (if x & 2 == 0 then (if x & 1 == 0 then 0x20000010 else 0x20404010) else (if x & 1 == 0 then 0x00404000 else 0x20400000))
  }

  function Sbox6D(x: bv6): (s: bv32)
    ensures s | 0x20404010 == 0x20404010
  {
    if x & 8 == 0 then
      if x & 4 == 0 then
        (if x & 2 == 0 then (if x & 1 == 0 then 0x00404010 else 0x20404000) else (if x & 1 == 0 then 0x00000000 else 0x20400010))
      else
        (if x & 2 == 0 then (if x & 1 == 0 then 0x00000010 else 0x00004000) else (if x & 1 == 0 then 0x20400000 else 0x00404010))
    else
      if x & 4 == 0 then
        (if x & 2 == 0 then (if x & 1 == 0 then 0x00004000 else 0x00400010) else (if x & 1 == 0 then 0x20004010 else 0x00000000))
      else
        (if x & 2 == 0 then (if x & 1 == 0 then 0x20404000 else 0x20000000) else (if x & 1 == 0 then 0x00400010 else 0x20004010))
  }

  lemma Sbox6Range(x: bv6)
    ensures Sbox6(x) | 0x20404010 == 0x20404010
  {
    hide Sbox6A, Sbox6B, Sbox6C, Sbox6D;
    if x & 32 == 0 {
      if x & 16 == 0 {
        assert Sbox6(x) == Sbox6A(x);
      } else {
        assert Sbox6(x) == Sbox6B(x);
      }
    } else {
      if x & 16 == 0 {
        assert Sbox6(x) == Sbox6C(x);
      } else {
        assert Sbox6(x) == Sbox6D(x);
      }
    }
  }

  /** S-box 7 with the permutation P applied, rotated one bit to the left. */
  function Sbox7(x: bv6): bv32 {
    if x & 32 == 0 then (if x & 16 == 0 then Sbox7A(x) else Sbox7B(x)) else (if x & 16 == 0 then Sbox7C(x) else Sbox7D(x))
  }

  function Sbox7A(x: bv6): (s: bv32)
    ensures s | 0x04200802 == 0x04200802
  {
    if x & 8 == 0 then
      if x & 4 == 0 then
        (if x & 2 == 0 then (if x & 1 == 0 then 0x00200000 else 0x04200002) else (if x & 1 == 0 then 0x04000802 else 0x00000000))
      else
        (if x & 2 == 0 then (if x & 1 == 0 then 0x00000800 else 0x04000802) else (if x & 1 == 0 then 0x00200802 else 0x04200800))
    else
      if x & 4 == 0 then
        (if x & 2 == 0 then (if x & 1 == 0 then 0x04200802 else 0x00200000) else (if x & 1 == 0 then 0x00000000 else 0x04000002))
      else
        (if x & 2 == 0 then (if x & 1 == 0 then 0x00000002 else 0x04000000) else (if x & 1 == 0 then 0x04200002 else 0x00000802))
  }

  function Sbox7B(x: bv6): (s: bv32)
    ensures s | 0x04200802 == 0x04200802
  {
    if x & 8 == 0 then
      if x & 4 == 0 then
        (if x & 2 == 0 then (if x & 1 == 0 then 0x04000800 else 0x00200802) else (if x & 1 == 0 then 0x00200002 else 0x04000800))
      else
        (if x & 2 == 0 then (if x & 1 == 0 then 0x04000002 else 0x04200000) else (if x & 1 == 0 then 0x04200800 else 0x00200002))
    else
      if x & 4 == 0 then
        (if x & 2 == 0 then (if x & 1 == 0 then 0x04200000 else 0x00000800) else (if x & 1 == 0 then 0x00000802 else 0x04200802))
      else
        (if x & 2 == 0 then (if x & 1 == 0 then 0x00200800 else 0x00000002) else (if x & 1 == 0 then 0x04000000 else 0x00200800))
  }

  function Sbox7C(x: bv6): (s: bv32)
    ensures s | 0x04200802 == 0x04200802
  {
    if x & 8 == 0 then
      if x & 4 == 0 then
        (if x & 2 == 0 then (if x & 1 == 0 then 0x04000000 else 0x00200800) else (if x & 1 == 0 then 0x00200000 else 0x04000802))
      else
        (if x & 2 == 0 then (if x & 1 == 0 then 0x04000802 else 0x04200002) else (if x & 1 == 0 then 0x04200002 else 0x00000002))
    else
      if x & 4 == 0 then
        (if x & 2 == 0 then (if x & 1 == 0 then 0x00200002 else 0x04000000) else (if x & 1 == 0 then 0x04000800 else 0x00200000))
      else
        (if x & 2 == 0 then (if x & 1 == 0 then 0x04200800 else 0x00000802) else (if x & 1 == 0 then 0x00200802 else 0x04200800))
  }

  function Sbox7D(x: bv6): (s: bv32)
    ensures s | 0x04200802 == 0x04200802
  {
    if x & 8 == 0 then
      if x & 4 == 0 then
        (if x & 2 == 0 then (if x & 1 == 0 then 0x00000802 else 0x04000002) else (if x & 1 == 0 then 0x04200802 else 0x04200000))
      else
        (if x & 2 == 0 then (if x & 1 == 0 then 0x00200800 else 0x00000000) else (if x & 1 == 0 then 0x00000002 else 0x04200802))
    else
      if x & 4 == 0 then
        (if x & 2 == 0 then (if x & 1 == 0 then 0x00000000 else 0x00200802) else (if x & 1 == 0 then 0x04200000 else 0x00000800))
      else
        (if x & 2 == 0 then (if x & 1 == 0 then 0x04000002 else 0x04000800) else (if x & 1 == 0 then 0x00000800 else 0x00200002))
  }

  lemma Sbox7Range(x: bv6)
    ensures Sbox7(x) | 0x04200802 == 0x04200802
  {
    hide Sbox7A, Sbox7B, Sbox7C, Sbox7D;
    if x & 32 == 0 {
      if x & 16 == 0 {
        assert Sbox7(x) == Sbox7A(x);
      } else {
        assert Sbox7(x) == Sbox7B(x);
      }
    } else {
      if x & 16 == 0 {
        assert Sbox7(x) == Sbox7C(x);
      } else {
        assert Sbox7(x) == Sbox7D(x);
      }
    }
  }

  /** S-box 8 with the permutation P applied, rotated one bit to the left. */
  function Sbox8(x: bv6): bv32 {
    if x & 32 == 0 then (if x & 16 == 0 then Sbox8A(x) else Sbox8B(x)) else (if x & 16 == 0 then Sbox8C(x) else Sbox8D(x))
  }

  function Sbox8A(x: bv6): (s: bv32)
    ensures s | 0x10041040 == 0x10041040
  {
    if x & 8 == 0 then
      if x & 4 == 0 then
        (if x & 2 == 0 then (if x & 1 == 0 then 0x10001040 else 0x00001000) else (if x & 1 == 0 then 0x00040000 else 0x10041040))
      else
        (if x & 2 == 0 then (if x & 1 == 0 then 0x10000000 else 0x10001040) else (if x & 1 == 0 then 0x00000040 else 0x10000000))
    else
      if x & 4 == 0 then
        (if x & 2 == 0 then (if x & 1 == 0 then 0x00040040 else 0x10040000) else (if x & 1 == 0 then 0x10041040 else 0x00041000))
      else
        (if x & 2 == 0 then (if x & 1 == 0 then 0x10041000 else 0x00041040) else (if x & 1 == 0 then 0x00001000 else 0x00000040))
  }

  function Sbox8B(x: bv6): (s: bv32)
    ensures s | 0x10041040 == 0x10041040
  {
    if x & 8 == 0 then
      if x & 4 == 0 then
        (if x & 2 == 0 then (if x & 1 == 0 then 0x10040000 else 0x10000040) else (if x & 1 == 0 then 0x10001000 else 0x00001040))
      else
        (if x & 2 == 0 then (if x & 1 == 0 then 0x00041000 else 0x00040040) else (if x & 1 == 0 then 0x10040040 else 0x10041000))
    else
      if x & 4 == 0 then
        (if x & 2 == 0 then (if x & 1 == 0 then 0x00001040 else 0x00000000) else (if x & 1 == 0 then 0x00000000 else 0x10040040))
      else
        (if x & 2 == 0 then (if x & 1 == 0 then 0x10000040 else 0x10001000) else (if x & 1 == 0 then 0x00041040 else 0x00040000))
  }

  function Sbox8C(x: bv6): (s: bv32)
    ensures s | 0x10041040 == 0x10041040
  {
    if x & 8 == 0 then
      if x & 4 == 0 then
        (if x & 2 == 0 then (if x & 1 == 0 then 0x00041040 else 0x00040000) else (if x & 1 == 0 then 0x10041000 else 0x00001000))
      else
        (if x & 2 == 0 then (if x & 1 == 0 then 0x00000040 else 0x10040040) else (if x & 1 == 0 then 0x00001000 else 0x00041040))
    else
      if x & 4 == 0 then
        (if x & 2 == 0 then (if x & 1 == 0 then 0x10001000 else 0x00000040) else (if x & 1 == 0 then 0x10000040 else 0x10040000))
      else
        (if x & 2 == 0 then (if x & 1 == 0 then 0x10040040 else 0x10000000) else (if x & 1 == 0 then 0x00040000 else 0x10001040))
  }

  function Sbox8D(x: bv6): (s: bv32)
    ensures s | 0x10041040 == 0x10041040
  {
    if x & 8 == 0 then
      if x & 4 == 0 then
        (if x & 2 == 0 then (if x & 1 == 0 then 0x00000000 else 0x10041040) else (if x & 1 == 0 then 0x00040040 else 0x10000040))
      else
        (if x & 2 == 0 then (if x & 1 == 0 then 0x10040000 else 0x10001000) else (if x & 1 == 0 then 0x10001040 else 0x00000000))
    else
      if x & 4 == 0 then
        (if x & 2 == 0 then (if x & 1 == 0 then 0x10041040 else 0x00041000) else (if x & 1 == 0 then 0x00041000 else 0x00001040))
      else
        (if x & 2 == 0 then (if x & 1 == 0 then 0x00001040 else 0x00040040) else (if x & 1 == 0 then 0x10000000 else 0x10041000))
  }

  lemma Sbox8Range(x: bv6)
    ensures Sbox8(x) | 0x10041040 == 0x10041040
  {
    hide Sbox8A, Sbox8B, Sbox8C, Sbox8D;
    if x & 32 == 0 {
      if x & 16 == 0 {
        assert Sbox8(x) == Sbox8A(x);
      } else {
        assert Sbox8(x) == Sbox8B(x);
      }
    } else {
      if x & 16 == 0 {
        assert Sbox8(x) == Sbox8C(x);
      } else {
        assert Sbox8(x) == Sbox8D(x);
      }
    }
  }

  /** Which key bit comes where in the two 28-bit registers. */
  function Pc1(j: nat): (r: nat)
    requires j < 56
    ensures r < 64
  {
    if j < 6 then
      if j == 0 then 56 else if j == 1 then 48 else if j == 2 then 40 else if j == 3 then 32 else if j == 4 then 24 else 16
    else if j < 12 then
      if j == 6 then 8 else if j == 7 then 0 else if j == 8 then 57 else if j == 9 then 49 else if j == 10 then 41 else 33
    else if j < 18 then
      if j == 12 then 25 else if j == 13 then 17 else if j == 14 then 9 else if j == 15 then 1 else if j == 16 then 58 else 50
    else if j < 24 then
      if j == 18 then 42 else if j == 19 then 34 else if j == 20 then 26 else if j == 21 then 18 else if j == 22 then 10 else 2
    else if j < 30 then
      if j == 24 then 59 else if j == 25 then 51 else if j == 26 then 43 else if j == 27 then 35 else if j == 28 then 62 else 54
    else if j < 36 then
      if j == 30 then 46 else if j == 31 then 38 else if j == 32 then 30 else if j == 33 then 22 else if j == 34 then 14 else 6
    else if j < 42 then
      if j == 36 then 61 else if j == 37 then 53 else if j == 38 then 45 else if j == 39 then 37 else if j == 40 then 29 else 21
    else if j < 48 then
      if j == 42 then 13 else if j == 43 then 5 else if j == 44 then 60 else if j == 45 then 52 else if j == 46 then 44 else 36
    else if j < 54 then
      if j == 48 then 28 else if j == 49 then 20 else if j == 50 then 12 else if j == 51 then 4 else if j == 52 then 27 else 19
    else
      if j == 54 then 11 else 3
  }

  /** Which register bits make up the two halves of a subkey. */
  function Pc2(j: nat): (r: nat)
    requires j < 48
    ensures r < 56
  {
    if j < 6 then
      if j == 0 then 13 else if j == 1 then 16 else if j == 2 then 10 else if j == 3 then 23 else if j == 4 then 0 else 4
    else if j < 12 then
      if j == 6 then 2 else if j == 7 then 27 else if j == 8 then 14 else if j == 9 then 5 else if j == 10 then 20 else 9
    else if j < 18 then
      if j == 12 then 22 else if j == 13 then 18 else if j == 14 then 11 else if j == 15 then 3 else if j == 16 then 25 else 7
    else if j < 24 then
      if j == 18 then 15 else if j == 19 then 6 else if j == 20 then 26 else if j == 21 then 19 else if j == 22 then 12 else 1
    else if j < 30 then
      if j == 24 then 40 else if j == 25 then 51 else if j == 26 then 30 else if j == 27 then 36 else if j == 28 then 46 else 54
    else if j < 36 then
      if j == 30 then 29 else if j == 31 then 39 else if j == 32 then 50 else if j == 33 then 44 else if j == 34 then 32 else 47
    else if j < 42 then
      if j == 36 then 43 else if j == 37 then 48 else if j == 38 then 38 else if j == 39 then 55 else if j == 40 then 33 else 52
    else
      if j == 42 then 45 else if j == 43 then 41 else if j == 44 then 49 else if j == 45 then 35 else if j == 46 then 28 else 31
  }

  /** How far the registers have been rotated in total. */
  function Totrot(j: nat): (r: nat)
    requires j < 16
    ensures 1 <= r <= 28
  {
    if j < 6 then
      if j == 0 then 1 else if j == 1 then 2 else if j == 2 then 4 else if j == 3 then 6 else if j == 4 then 8 else 10
    else if j < 12 then
      if j == 6 then 12 else if j == 7 then 14 else if j == 8 then 15 else if j == 9 then 17 else if j == 10 then 19 else 21
    else
      if j == 12 then 23 else if j == 13 then 25 else if j == 14 then 27 else 28
  }

  /** How far the registers are rotated in one round. */
  function RotateTab(j: nat): (r: nat)
    requires j < 16
    ensures r == 1 || r == 2
  {
    if j < 6 then
      if j == 0 then 1 else if j == 1 then 1 else if j == 2 then 2 else if j == 3 then 2 else if j == 4 then 2 else 2
    else if j < 12 then
      if j == 6 then 2 else if j == 7 then 2 else if j == 8 then 1 else if j == 9 then 2 else if j == 10 then 2 else 2
    else
      if j == 12 then 2 else if j == 13 then 2 else if j == 14 then 2 else 1
  }

  /** The bits of a byte, from the top. */
  function ByteBit(j: nat): (r: bv8)
    requires j < 8
  {
    if j < 6 then
      if j == 0 then 0x80 else if j == 1 then 0x40 else if j == 2 then 0x20 else if j == 3 then 0x10 else if j == 4 then 0x08 else 0x04
    else
      if j == 6 then 0x02 else 0x01
  }

  /** The bits of a half subkey, from the top. */
  function BigByte(j: nat): (r: bv32)
    requires j < 24
  {
    if j < 6 then
      if j == 0 then 0x800000 else if j == 1 then 0x400000 else if j == 2 then 0x200000 else if j == 3 then 0x100000 else if j == 4 then 0x080000 else 0x040000
    else if j < 12 then
      if j == 6 then 0x020000 else if j == 7 then 0x010000 else if j == 8 then 0x008000 else if j == 9 then 0x004000 else if j == 10 then 0x002000 else 0x001000
    else if j < 18 then
      if j == 12 then 0x000800 else if j == 13 then 0x000400 else if j == 14 then 0x000200 else if j == 15 then 0x000100 else if j == 16 then 0x000080 else 0x000040
    else
      if j == 18 then 0x000020 else if j == 19 then 0x000010 else if j == 20 then 0x000008 else if j == 21 then 0x000004 else if j == 22 then 0x000002 else 0x000001
  }

  /** The positions of those bits. */
  function Down24(j: nat): (r: bv32)
    requires j < 24
    ensures r < 32
  {
    if j < 6 then
      if j == 0 then 23 else if j == 1 then 22 else if j == 2 then 21 else if j == 3 then 20 else if j == 4 then 19 else 18
    else if j < 12 then
      if j == 6 then 17 else if j == 7 then 16 else if j == 8 then 15 else if j == 9 then 14 else if j == 10 then 13 else 12
    else if j < 18 then
      if j == 12 then 11 else if j == 13 then 10 else if j == 14 then 9 else if j == 15 then 8 else if j == 16 then 7 else 6
    else
      if j == 18 then 5 else if j == 19 then 4 else if j == 20 then 3 else if j == 21 then 2 else if j == 22 then 1 else 0
  }

  /** leftkey_swap: four bits spread over four bytes. */
  function LeftSwap(x: bv32): bv32 {
    if x == 0 then 0x00000000 else if x == 1 then 0x00000001 else if x == 2 then 0x00000100 else if x == 3 then 0x00000101 else
    if x == 4 then 0x00010000 else if x == 5 then 0x00010001 else if x == 6 then 0x00010100 else if x == 7 then 0x00010101 else
    if x == 8 then 0x01000000 else if x == 9 then 0x01000001 else if x == 10 then 0x01000100 else if x == 11 then 0x01000101 else
    if x == 12 then 0x01010000 else if x == 13 then 0x01010001 else if x == 14 then 0x01010100 else 0x01010101
  }

  /** rightkey_swap: four bits spread over four bytes, backwards. */
  function RightSwap(x: bv32): bv32 {
    if x == 0 then 0x00000000 else if x == 1 then 0x01000000 else if x == 2 then 0x00010000 else if x == 3 then 0x01010000 else
    if x == 4 then 0x00000100 else if x == 5 then 0x01000100 else if x == 6 then 0x00010100 else if x == 7 then 0x01010100 else
    if x == 8 then 0x00000001 else if x == 9 then 0x01000001 else if x == 10 then 0x00010001 else if x == 11 then 0x01010001 else
    if x == 12 then 0x00000101 else if x == 13 then 0x01000101 else if x == 14 then 0x00010101 else 0x01010101
  }

  /** The rotations add up. */
  lemma RotationsAddUp(i: nat)
    requires i < 16
    ensures Totrot(i) == (if i == 0 then 0 else Totrot(i - 1)) + RotateTab(i)
  {
  }

  lemma BigByteIsShift(j: nat)
    requires j < 24
    ensures BigByte(j) == 1 << Down24(j)
  {
  }

  lemma LeftSpread(x: bv32)
    ensures LeftSwap(x & 0xf) == (x & 1) | ((x & 2) << 7) | ((x & 4) << 14) | ((x & 8) << 21)
  {
  }

  lemma RightSpread(x: bv32)
    ensures RightSwap(x & 0xf) == ((x & 1) << 24) | ((x & 2) << 15) | ((x & 4) << 6) | ((x & 8) >> 3)
  {
  }
}
