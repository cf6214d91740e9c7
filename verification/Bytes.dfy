/** Bytes, byte strings and the big-endian integers that every SquidStorage format is made of.
    A C++ `std::string` is a string of bytes, so paths and node names are `ByteString`s too. */
module Bytes {

  type byte = b: int | 0 <= b < 256

  type ByteString = seq<byte>

  datatype Option<+T> = None | Some(value: T)

  /** 256 to the n-th power. */
  function Pow256(n: nat): (r: nat)
    ensures r > 0
  {
    if n == 0 then 1 else 256 * Pow256(n - 1)
  }

  /** The n low-order bytes of v, most significant first. */
  function BigEndian(n: nat, v: nat): (s: ByteString)
    ensures |s| == n
  {
    if n == 0 then [] else BigEndian(n - 1, v / 256) + [v % 256]
  }

  function FromBigEndian(s: ByteString): (v: nat)
  {
    if s == [] then 0 else FromBigEndian(s[..|s| - 1]) * 256 + s[|s| - 1]
  }

  lemma {:induction false} BigEndianDecodes(n: nat, v: nat)
    requires v < Pow256(n)
    ensures FromBigEndian(BigEndian(n, v)) == v
  {
    if n > 0 {
      BigEndianDecodes(n - 1, v / 256);
      var s := BigEndian(n, v);
      assert s[..|s| - 1] == BigEndian(n - 1, v / 256);
    }
  }

  /** Every byte string of length n is the encoding of the number it decodes to. */
  lemma {:induction false} BigEndianEncodes(s: ByteString)
    ensures FromBigEndian(s) < Pow256(|s|)
    ensures BigEndian(|s|, FromBigEndian(s)) == s
  {
    if s != [] {
      var init := s[..|s| - 1];
      BigEndianEncodes(init);
      assert s == init + [s[|s| - 1]];
    }
  }

  /** A number is at least what its leading byte contributes. */
  lemma {:induction false} LeadingByte(s: ByteString)
    requires s != []
    ensures FromBigEndian(s) >= (s[0] as int) * Pow256(|s| - 1)
  {
    if |s| == 1 {
      assert FromBigEndian(s[..0]) == 0;
    } else {
      LeadingByte(s[..|s| - 1]);
      assert (s[0] as int) * Pow256(|s| - 1) == (s[0] as int) * Pow256(|s| - 2) * 256;
    }
  }

  /** Two bytes, spelt out. */
  lemma BigEndian2(v: nat)
    requires v < 0x1_0000
    ensures BigEndian(2, v) == [v / 256, v % 256]
  {
    assert BigEndian(1, v / 256) == [v / 256];
  }

  /** Four bytes, spelt out. */
  lemma BigEndian4(v: nat)
    requires v < 0x1_0000_0000
    ensures BigEndian(4, v) == [v / 0x100_0000, v / 0x1_0000 % 256, v / 256 % 256, v % 256]
  {
    assert v / 256 / 256 == v / 0x1_0000;
    assert v / 256 / 256 / 256 == v / 0x100_0000;
    assert BigEndian(1, v / 0x100_0000) == [v / 0x100_0000];
    assert BigEndian(2, v / 0x1_0000) == [v / 0x100_0000, v / 0x1_0000 % 256];
    assert BigEndian(3, v / 256) == [v / 0x100_0000, v / 0x1_0000 % 256, v / 256 % 256];
  }

  /** readU16 and readU32: shifts and ors of the single bytes. */
  function ReadU16(b0: byte, b1: byte): nat {
    256 * (b0 as int) + b1 as int
  }

  function ReadU32(b0: byte, b1: byte, b2: byte, b3: byte): nat {
    0x100_0000 * (b0 as int) + 0x1_0000 * (b1 as int) + 256 * (b2 as int) + b3 as int
  }

  lemma FromBigEndian2(s: ByteString)
    requires |s| == 2
    ensures FromBigEndian(s) == ReadU16(s[0], s[1])
  {
    assert FromBigEndian(s[..1]) == FromBigEndian(s[..1][..0]) * 256 + s[0] as int;
    assert s[..1][..0] == [];
  }

  lemma FromBigEndian4(s: ByteString)
    requires |s| == 4
    ensures FromBigEndian(s) == ReadU32(s[0], s[1], s[2], s[3])
  {
    assert s[..3][..2] == s[..2];
    FromBigEndian2(s[..2]);
  }

  lemma Pow256Values()
    ensures Pow256(1) == 0x100 && Pow256(2) == 0x1_0000
    ensures Pow256(4) == 0x1_0000_0000
    ensures Pow256(8) == 0x1_0000_0000_0000_0000
  {
    assert Pow256(3) == 0x100_0000;
    assert Pow256(5) == 0x100_0000_0000;
    assert Pow256(6) == 0x1_0000_0000_0000;
    assert Pow256(7) == 0x100_0000_0000_0000;
  }
}
