/**
 * Unsigned integers as fixed-width big-endian byte strings, the layout of
 * `binary.BigEndian` and of the fixed-width field element encodings.
 */
module BigEndian {

  /** 2^32 and 2^64: the ranges of Go's uint32 and uint64. */
  const TwoTo32: nat := 0x1_0000_0000
  const TwoTo64: nat := 0x1_0000_0000_0000_0000

  /** 256^k: the number of distinct values k bytes can hold. */
  function Pow256(k: nat): (r: nat)
    ensures r >= 1
  {
    if k == 0 then 1 else 256 * Pow256(k - 1)
  }

  /** The unsigned integer whose big-endian encoding is s (binary.BigEndian.Uint32 / Uint64). */
  function FromBytes(s: seq<bv8>): (v: nat)
    ensures v < Pow256(|s|)
  {
    if s == [] then 0 else FromBytes(s[..|s| - 1]) * 256 + s[|s| - 1] as nat
  }

  /** The width-byte big-endian encoding of v, keeping the low 8*width bits
      (binary.BigEndian.PutUint32 / PutUint64, fp.Element.Bytes). */
  function ToBytes(v: nat, width: nat): (s: seq<bv8>)
    ensures |s| == width
  {
    if width == 0 then [] else ToBytes(v / 256, width - 1) + [(v % 256) as bv8]
  }

  lemma Pow256Widths()
    ensures Pow256(4) == TwoTo32 && Pow256(8) == TwoTo64
  {
  }

  /** 256^(a+b) = 256^a * 256^b. */
  lemma {:induction false} Pow256Add(a: nat, b: nat)
    ensures Pow256(a + b) == Pow256(a) * Pow256(b)
  {
    if b > 0 {
      Pow256Add(a, b - 1);
      assert Pow256(a + b) == 256 * Pow256(a + b - 1);
    }
  }

  /** 256^32 and 256^48, the ranges of the scalar and base field encodings. */
  lemma FieldWidths()
    ensures Pow256(32) == 0x1_0000_0000_0000_0000_0000_0000_0000_0000_0000_0000_0000_0000_0000_0000_0000_0000
    ensures Pow256(48) == Pow256(32) * 0x1_0000_0000_0000_0000_0000_0000_0000_0000
  {
    Pow256Widths();
    Pow256Add(8, 8);
    assert Pow256(16) == 0x1_0000_0000_0000_0000_0000_0000_0000_0000;
    Pow256Add(16, 16);
    Pow256Add(32, 16);
  }

  /** A byte value below 256 survives the trip through bv8. */
  lemma ByteValue(x: nat)
    requires x < 256
    ensures (x as bv8) as nat == x
  {
    if x < 128 {
      if x < 64 {} else {}
    } else {
      if x < 192 {} else {}
    }
  }

  /** Decoding an encoding gives back the value, whenever the value fits the width. */
  lemma {:induction false} FromToBytes(v: nat, width: nat)
    requires v < Pow256(width)
    ensures FromBytes(ToBytes(v, width)) == v
  {
    if width > 0 {
      var s := ToBytes(v, width);
      assert v / 256 < Pow256(width - 1);
      FromToBytes(v / 256, width - 1);
      assert s[..width - 1] == ToBytes(v / 256, width - 1);
      ByteValue(v % 256);
    }
  }

  /** Encoding a decoded string at its own width gives back the string. */
  lemma {:induction false} ToFromBytes(s: seq<bv8>)
    ensures ToBytes(FromBytes(s), |s|) == s
  {
    if s != [] {
      var pre := s[..|s| - 1];
      ToFromBytes(pre);
      var v := FromBytes(s);
      assert v / 256 == FromBytes(pre);
      assert v % 256 == s[|s| - 1] as nat;
      assert ToBytes(v, |s|) == ToBytes(FromBytes(pre), |pre|) + [s[|s| - 1]];
    }
  }
}
