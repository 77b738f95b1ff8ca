/** Byte strings as big-endian numbers. */
module ByteStrings {
  import opened Arithmetic

  // The number of strings of `width` bytes.
  function Pow256(width: nat): (r: nat)
    ensures r >= 1
  {
    if width == 0 then 1 else 256 * Pow256(width - 1)
  }

  lemma Pow256Words()
    ensures Pow256(4) == 0x1_0000_0000 && Pow256(8) == 0x1_0000_0000_0000_0000
  {
  }

  // The big-endian value of some bytes.
  function BigEndian(bytes: seq<Byte>): nat
  {
    if bytes == [] then 0 else 256 * BigEndian(bytes[..|bytes| - 1]) + bytes[|bytes| - 1]
  }

  // `to_be_bytes` of an unsigned integer of `width` bytes.
  function Encoded(n: nat, width: nat): (r: seq<Byte>)
    ensures |r| == width
  {
    if width == 0 then [] else Encoded(n / 256, width - 1) + [n % 256]
  }

  // The first byte counts most: it weighs as much as there are strings of the others.
  lemma {:induction false} FirstByteWeighs(bytes: seq<Byte>)
    requires bytes != []
    ensures BigEndian(bytes) == bytes[0] * Pow256(|bytes| - 1) + BigEndian(bytes[1..])
  {
    if |bytes| > 1 {
      var k := |bytes| - 1;
      FirstByteWeighs(bytes[..k]);
      assert bytes[..k][1..] == bytes[1..][..k - 1];
      assert Pow256(k) == 256 * Pow256(k - 1);
      Distribute(bytes[0] * Pow256(k - 1), BigEndian(bytes[..k][1..]), 256);
    }
  }

  lemma {:induction false} EncodedBack(n: nat, width: nat)
    requires n < Pow256(width)
    ensures BigEndian(Encoded(n, width)) == n
  {
    if width > 0 {
      EncodedBack(n / 256, width - 1);
      var bytes := Encoded(n, width);
      assert bytes[..|bytes| - 1] == Encoded(n / 256, width - 1);
    }
  }

  lemma {:induction false} BigEndianBack(bytes: seq<Byte>)
    ensures Encoded(BigEndian(bytes), |bytes|) == bytes && BigEndian(bytes) < Pow256(|bytes|)
  {
    if bytes != [] {
      var k := |bytes| - 1;
      BigEndianBack(bytes[..k]);
      assert BigEndian(bytes) / 256 == BigEndian(bytes[..k]) && BigEndian(bytes) % 256 == bytes[k];
      assert bytes == bytes[..k] + [bytes[k]];
    }
  }
}
