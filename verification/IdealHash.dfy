/** Octet strings and an ideal hash over them.

    A hash output consists of octets that remember the string they were computed from, so
    equal outputs have equal inputs and no output octet is a plain byte.  Nothing else is
    assumed: a hash output may be cut up, concatenated and hashed again like any other
    octets, and a 64-octet symbol may happen to be a pair of digests. */
module IdealHash {
  import opened Arithmetic
  import opened ByteStrings

  datatype Octet = Raw(value: Byte) | Out(preimage: seq<Octet>, position: nat)

  type Bytes32 = s: seq<Octet> | |s| == 32 witness seq(32, _ => Raw(0))

  // The digest `[0; 32]`.
  function Zeros(): Bytes32
  {
    seq(32, _ => Raw(0))
  }

  // BLAKE2b-256, idealised.
  function Hash(input: seq<Octet>): Bytes32
  {
    seq(32, i requires 0 <= i < 32 => Out(input, i))
  }

  lemma HashInjective(a: seq<Octet>, b: seq<Octet>)
    ensures Hash(a) == Hash(b) <==> a == b
  {
    assert Hash(a)[0] == Out(a, 0) && Hash(b)[0] == Out(b, 0);
  }

  lemma HashNotZeros(a: seq<Octet>)
    ensures Hash(a) != Zeros()
  {
    assert Hash(a)[0] == Out(a, 0) && Zeros()[0] == Raw(0);
  }

  // The octets of a string of plain bytes.
  function Raws(bytes: seq<Byte>): (r: seq<Octet>)
    ensures |r| == |bytes|
    ensures forall i :: 0 <= i < |r| ==> r[i] == Raw(bytes[i])
  {
    seq(|bytes|, i requires 0 <= i < |bytes| => Raw(bytes[i]))
  }

  // `to_le_bytes` of an unsigned integer of `width` bytes.
  function LittleEndian(n: nat, width: nat): (r: seq<Octet>)
    ensures |r| == width
  {
    if width == 0 then [] else [Raw(n % 256)] + LittleEndian(n / 256, width - 1)
  }

  // The octet at place `k` counts the 256 to the power of `k`.
  lemma {:induction false} LittleEndianAt(n: nat, width: nat, k: nat)
    requires k < width
    ensures LittleEndian(n, width)[k] == Raw(n / Pow256(k) % 256)
  {
    if k > 0 {
      LittleEndianAt(n / 256, width - 1, k - 1);
      assert Pow256(k) == 256 * Pow256(k - 1);
      DivideTwice(n, Pow256(k - 1));
    }
  }

  lemma DivideTwice(n: nat, b: nat)
    requires b > 0
    ensures n / (256 * b) == n / 256 / b
  {
    var q, r := n / 256, n % 256;
    var p, s := q / b, q % b;
    assert q == b * p + s;
    assert 256 * (b * p) == 256 * b * p;
    DivModUnique(n, 256 * b, p, 256 * s + r);
  }

  lemma {:induction false} LittleEndianInjective(a: nat, b: nat, width: nat)
    requires a < Pow256(width) && b < Pow256(width)
    ensures LittleEndian(a, width) == LittleEndian(b, width) ==> a == b
  {
    if width > 0 && LittleEndian(a, width) == LittleEndian(b, width) {
      var s, t := LittleEndian(a, width), LittleEndian(b, width);
      assert s[0] == Raw(a % 256) && t[0] == Raw(b % 256);
      assert s[1..] == LittleEndian(a / 256, width - 1) && t[1..] == LittleEndian(b / 256, width - 1);
      LittleEndianInjective(a / 256, b / 256, width - 1);
    }
  }
}
