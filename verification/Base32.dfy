/** Base32 text (section 6 of RFC 4648, lower case, unpadded) and the digest inside a CID. */
module Base32 {
  import opened Arithmetic
  import opened ByteStrings
  import opened Sequences
  import opened Wrappers

  type Digit = n: nat | n < 32

  function CharOf(digit: Digit): char
  {
    if digit < 26 then 'a' + digit as char else '2' + (digit - 26) as char
  }

  // The position of a character in the alphabet.
  function DigitOf(c: char): (r: Option<Digit>)
    ensures forall d: Digit :: r == Some(d) <==> c == CharOf(d)
  {
    if 'a' <= c <= 'z' then Some((c - 'a') as int)
    else if '2' <= c <= '7' then Some((c - '2') as int + 26)
    else None
  }

  // The alphabet of RFC 4648, in lower case.
  lemma Alphabet(digit: Digit)
    ensures CharOf(digit) == "abcdefghijklmnopqrstuvwxyz234567"[digit]
  {
  }

  // ---------------------------------------------------------------- bits

  lemma {:induction false} ShrAgain(value: nat, first: nat, second: nat)
    ensures Shr(Shr(value, first), second) == Shr(value, first + second)
  {
    if second > 0 {
      ShrAgain(value, first, second - 1);
    }
  }

  lemma ShrFive(value: nat, digit: Digit)
    ensures Shr(32 * value + digit, 5) == value
  {
    var n := 32 * value + digit;
    assert Shr(n, 1) == 16 * value + digit / 2;
    assert Shr(n, 2) == 8 * value + digit / 4;
    assert Shr(n, 3) == 4 * value + digit / 8;
    assert Shr(n, 4) == 2 * value + digit / 16;
  }

  lemma ShrEight(value: nat, byte: Byte)
    ensures Shr(256 * value + byte, 8) == value
  {
    ShrAgain(256 * value + byte, 3, 5);
    var n := 256 * value + byte;
    assert Shr(n, 1) == 128 * value + byte / 2;
    assert Shr(n, 2) == 64 * value + byte / 4;
    assert Shr(n, 3) == 32 * value + byte / 8;
    ShrFive(value, byte / 8);
  }

  // `value` with zero bits appended.
  function Padded(value: nat, zeros: nat): nat
  {
    if zeros == 0 then value else 2 * Padded(value, zeros - 1)
  }

  lemma {:induction false} ShrPadded(value: nat, zeros: nat, places: nat)
    ensures Shr(Padded(value, zeros), zeros + places) == Shr(value, places)
  {
    if zeros > 0 {
      ShrPadded(value, zeros - 1, places);
      ShrHalf(Padded(value, zeros), zeros - 1 + places);
    }
  }

  // ---------------------------------------------------------------- digits

  function Value32(digits: seq<Digit>): nat
  {
    if digits == [] then 0 else 32 * Value32(digits[..|digits| - 1]) + digits[|digits| - 1]
  }

  function Digits(value: nat, count: nat): (r: seq<Digit>)
    ensures |r| == count
  {
    if count == 0 then [] else Digits(value / 32, count - 1) + [value % 32]
  }

  lemma {:induction false} DigitsBack(value: nat, count: nat)
    requires Shr(value, 5 * count) == 0
    ensures Value32(Digits(value, count)) == value
  {
    if count > 0 {
      var digits := Digits(value, count);
      assert digits[..count - 1] == Digits(value / 32, count - 1) && digits[count - 1] == value % 32;
      ShrAgain(value, 5, 5 * (count - 1));
      ShrFive(value / 32, value % 32);
      DigitsBack(value / 32, count - 1);
    }
  }

  // How many digits the bits of `count` bytes need, and how many zero bits fill the last one.
  function DigitCount(count: nat): nat
  {
    (8 * count + 4) / 5
  }

  function Fill(count: nat): nat
  {
    5 * DigitCount(count) - 8 * count
  }

  // The bits of the bytes in groups of five, the last group filled with zeros.
  function Encode(bytes: seq<Byte>): seq<Digit>
  {
    Digits(Padded(BigEndian(bytes), Fill(|bytes|)), DigitCount(|bytes|))
  }

  // The digits spell the bytes as one number, with less than five zero bits appended.
  lemma EncodeMeans(bytes: seq<Byte>)
    ensures var digits := Encode(bytes);
      && 0 <= 5 * |digits| - 8 * |bytes| < 5
      && Value32(digits) == BigEndian(bytes) * Pow2(5 * |digits| - 8 * |bytes|)
  {
    hide BigEndian, Shr, Digits, Value32;
    var m, fill, count := |bytes|, Fill(|bytes|), DigitCount(|bytes|);
    var value := Padded(BigEndian(bytes), fill);
    PaddedTimes(BigEndian(bytes), fill);
    ShrPadded(BigEndian(bytes), fill, 8 * m);
    NumberFits(bytes);
    DigitsBack(value, count);
  }

  lemma {:induction false} PaddedTimes(value: nat, zeros: nat)
    ensures Padded(value, zeros) == value * Pow2(zeros)
  {
    if zeros > 0 {
      PaddedTimes(value, zeros - 1);
      assert Pow2(zeros) == 2 * Pow2(zeros - 1);
      assert value * (2 * Pow2(zeros - 1)) == 2 * (value * Pow2(zeros - 1));
    }
  }

  // The first digit counts most.
  lemma {:induction false} FirstDigitWeighs(digits: seq<Digit>)
    requires digits != []
    ensures Value32(digits) == digits[0] * Pow2(5 * (|digits| - 1)) + Value32(digits[1..])
  {
    var k := |digits| - 1;
    if k == 0 {
      OneDigit(digits);
    } else {
      hide Value32, Pow2;
      FirstDigitWeighs(digits[..k]);
      assert digits == digits[..k] + [digits[k]] && digits[1..] == digits[..k][1..] + [digits[k]];
      Value32Snoc(digits[..k], digits[k]);
      Value32Snoc(digits[..k][1..], digits[k]);
      FiveMore(5 * (k - 1));
      DigitStep(digits[0], Pow2(5 * (k - 1)), Value32(digits[..k][1..]), digits[k]);
    }
  }

  lemma OneDigit(digits: seq<Digit>)
    requires |digits| == 1
    ensures Value32(digits) == digits[0] && Value32(digits[1..]) == 0 && Pow2(0) == 1
  {
    assert digits[..0] == [];
  }

  lemma DigitStep(first: nat, weight: nat, rest: nat, last: nat)
    ensures 32 * (first * weight + rest) + last == first * (32 * weight) + (32 * rest + last)
  {
  }

  lemma FiveMore(n: nat)
    ensures Pow2(n + 5) == 32 * Pow2(n)
  {
    assert Pow2(n + 5) == 2 * Pow2(n + 4) && Pow2(n + 4) == 2 * Pow2(n + 3);
    assert Pow2(n + 3) == 2 * Pow2(n + 2) && Pow2(n + 2) == 2 * Pow2(n + 1);
  }

  // The whole bytes among the bits of some digits, by their place in the number.
  function DecodedUpTo(digits: seq<Digit>, count: nat): (r: seq<Byte>)
    requires 8 * count <= 5 * |digits|
    ensures |r| == count
    ensures forall k :: 0 <= k < count ==> r[k] == Shr(Value32(digits), 5 * |digits| - 8 * (k + 1)) % 256
  {
    if count == 0 then []
    else DecodedUpTo(digits, count - 1) + [Shr(Value32(digits), 5 * |digits| - 8 * count) % 256]
  }

  function Decoded(digits: seq<Digit>): seq<Byte>
  {
    DecodedUpTo(digits, 5 * |digits| / 8)
  }

  lemma LastByte(bytes: seq<Byte>)
    requires bytes != []
    ensures var n := |bytes| - 1;
      BigEndian(bytes) == 256 * BigEndian(bytes[..n]) + bytes[n] && BigEndian(bytes) % 256 == bytes[n]
  {
    var n := |bytes| - 1;
    DivModUnique(BigEndian(bytes), 256, BigEndian(bytes[..n]), bytes[n]);
  }

  lemma {:induction false} NumberHasByte(bytes: seq<Byte>, k: nat)
    requires k < |bytes|
    ensures Shr(BigEndian(bytes), 8 * (|bytes| - 1 - k)) % 256 == bytes[k]
    decreases |bytes|
  {
    var n := |bytes| - 1;
    var high := BigEndian(bytes[..n]);
    LastByte(bytes);
    if k < n {
      hide BigEndian, Shr;
      NumberHasByte(bytes[..n], k);
      ShrEight(high, bytes[n]);
      ShrAgain(BigEndian(bytes), 8, 8 * (n - 1 - k));
      assert 8 + 8 * (n - 1 - k) == 8 * (n - k);
    }
  }

  lemma {:induction false} NumberFits(bytes: seq<Byte>)
    ensures Shr(BigEndian(bytes), 8 * |bytes|) == 0
  {
    if bytes != [] {
      var n := |bytes| - 1;
      NumberFits(bytes[..n]);
      ShrEight(BigEndian(bytes[..n]), bytes[n]);
      ShrAgain(BigEndian(bytes), 8, 8 * n);
    }
  }

  // Decoding inverts encoding, for strings of any length.
  lemma DecodedEncode(bytes: seq<Byte>)
    ensures Decoded(Encode(bytes)) == bytes
  {
    hide BigEndian, Shr, Padded, Digits, Value32;
    var m, fill, count := |bytes|, Fill(|bytes|), DigitCount(|bytes|);
    var value := Padded(BigEndian(bytes), fill);
    ShrPadded(BigEndian(bytes), fill, 8 * m);
    NumberFits(bytes);
    DigitsBack(value, count);
    var decoded := Decoded(Encode(bytes));
    assert |decoded| == m;
    forall k | 0 <= k < m
      ensures decoded[k] == bytes[k]
    {
      ShrPadded(BigEndian(bytes), fill, 8 * (m - 1 - k));
      NumberHasByte(bytes, k);
      assert 5 * count - 8 * (k + 1) == fill + 8 * (m - 1 - k);
    }
  }

  // ---------------------------------------------------------------- the accumulator

  const TWO_32: nat := 0x1_0000_0000

  // Cutting the number to 32 bits keeps the byte that is read from it.
  lemma LowBitsSuffice(value: nat, bits: nat)
    requires bits < 8
    ensures Shr(value % TWO_32, bits) % 256 == Shr(value, bits) % 256
  {
    var q, low := value / TWO_32, value % TWO_32;
    assert value == 0x1_0000_0000 * q + low;
    ShrSplit(q, low, bits);
  }

  lemma {:induction false} ShrSplit(q: nat, low: nat, bits: nat)
    requires bits < 8
    ensures Shr(0x1_0000_0000 * q + low, bits) == 0x100_0000 * Padded(q, 8 - bits) + Shr(low, bits)
  {
    if bits == 0 {
      assert Padded(q, 1) == 2 * q;
      assert Padded(q, 2) == 4 * q;
      assert Padded(q, 3) == 8 * q;
      assert Padded(q, 4) == 16 * q;
      assert Padded(q, 5) == 32 * q;
      assert Padded(q, 6) == 64 * q;
      assert Padded(q, 7) == 128 * q;
      assert Padded(q, 8) == 256 * q;
    } else {
      ShrSplit(q, low, bits - 1);
    }
  }

  lemma CutStep(value: nat, digit: Digit)
    ensures ((value % TWO_32) * 32 + digit) % TWO_32 == (32 * value + digit) % TWO_32
  {
    var q, low := value / TWO_32, value % TWO_32;
    var n := low * 32 + digit;
    assert value == 0x1_0000_0000 * q + low;
    assert n == 0x1_0000_0000 * (n / TWO_32) + n % TWO_32;
    DivModUnique(32 * value + digit, TWO_32, 32 * q + n / TWO_32, n % TWO_32);
  }

  // One more digit leaves the bytes decoded so far as they are.
  lemma DecodedStep(digits: seq<Digit>, digit: Digit)
    ensures var n := |digits|;
      var longer := digits + [digit];
      Decoded(longer) == Decoded(digits) +
        if 5 * n % 8 + 5 >= 8 then [Shr(Value32(longer), (5 * n + 5) % 8) % 256] else []
  {
    hide Shr;
    var n, longer := |digits|, digits + [digit];
    assert longer[..n] == digits;
    assert Value32(longer) == 32 * Value32(digits) + digit;
    hide Value32;
    ShrFive(Value32(digits), digit);
    var before, after := Decoded(digits), Decoded(longer);
    forall k | 0 <= k < |before|
      ensures after[k] == before[k]
    {
      ShrAgain(Value32(longer), 5, 5 * n - 8 * (k + 1));
    }
  }

  // Reads the digits into a 32-bit accumulator that is never cleared.
  method Decode(digits: seq<Digit>) returns (bytes: seq<Byte>)
    ensures bytes == Decoded(digits)
  {
    hide Shr, Decoded, Value32;
    var bits, value := 0, 0;
    bytes := [];
    NothingDecoded();
    DropAll(digits);
    for n := 0 to |digits|
      invariant value == Value32(digits[..n]) % TWO_32 && bits == 5 * n % 8
      invariant bytes == Decoded(digits[..n])
    {
      TakeNext(digits, n);
      AccumulatorStep(digits[..n], digits[n], value);
      BitsStep(n);
      value := (value * 32 + digits[n]) % TWO_32;
      bits := bits + 5;
      if bits >= 8 {
        bits := bits - 8;
        bytes := bytes + [Shr(value, bits) % 256];
      }
    }
  }

  // What one step of the loop does to the accumulator and to the bytes.
  lemma AccumulatorStep(digits: seq<Digit>, digit: Digit, value: nat)
    requires value == Value32(digits) % TWO_32
    ensures (value * 32 + digit) % TWO_32 == Value32(digits + [digit]) % TWO_32
    ensures Decoded(digits + [digit]) == Decoded(digits) +
      if 5 * |digits| % 8 + 5 >= 8 then [Shr((value * 32 + digit) % TWO_32, (5 * |digits| + 5) % 8) % 256] else []
  {
    hide Shr, Decoded, Value32;
    Value32Snoc(digits, digit);
    DecodedStep(digits, digit);
    AccumulatorByte(Value32(digits), digit, (5 * |digits| + 5) % 8);
  }

  lemma AccumulatorByte(number: nat, digit: Digit, bits: nat)
    requires bits < 8
    ensures var next := (number % TWO_32 * 32 + digit) % TWO_32;
      && next == (32 * number + digit) % TWO_32
      && Shr(next, bits) % 256 == Shr(32 * number + digit, bits) % 256
  {
    hide Shr;
    CutStep(number, digit);
    LowBitsSuffice(32 * number + digit, bits);
  }

  lemma BitsStep(n: nat)
    ensures 5 * (n + 1) % 8 == if 5 * n % 8 + 5 >= 8 then 5 * n % 8 + 5 - 8 else 5 * n % 8 + 5
  {
    EightLater(5 * n);
  }

  lemma EightLater(m: nat)
    ensures (m + 5) % 8 == if m % 8 + 5 >= 8 then m % 8 + 5 - 8 else m % 8 + 5
  {
  }

  lemma NothingDecoded()
    ensures Decoded([]) == [] && Value32([]) == 0
  {
  }

  lemma Value32Snoc(digits: seq<Digit>, digit: Digit)
    ensures Value32(digits + [digit]) == 32 * Value32(digits) + digit
  {
  }

  // ---------------------------------------------------------------- the digest of a CID

  datatype CidError = NotBase32 | NotSha256

  function Text(digits: seq<Digit>): (text: string)
    ensures |text| == |digits|
    ensures forall i :: 0 <= i < |text| ==> text[i] == CharOf(digits[i])
  {
    if digits == [] then [] else Text(digits[..|digits| - 1]) + [CharOf(digits[|digits| - 1])]
  }

  // The multibase form of a CID.
  function Printed(cid: seq<Byte>): string
  {
    "b" + Text(Encode(cid))
  }

  // The text of a CID after its first character.
  function Body(cid: string): string
  {
    if cid == "" then "" else cid[1..]
  }

  // The last 34 bytes say that a SHA-256 digest follows, and give it.
  ghost predicate EndsInSha256(bytes: seq<Byte>)
  {
    |bytes| >= 36 && bytes[|bytes| - 34] == 0x12 && bytes[|bytes| - 33] == 0x20
  }

  lemma EndsMeans(bytes: seq<Byte>)
    ensures EndsInSha256(bytes)
       <==> exists front: seq<Byte>, digest: seq<Byte> ::
              |front| >= 2 && |digest| == 32 && bytes == front + [0x12, 0x20] + digest
  {
    if EndsInSha256(bytes) {
      var k := |bytes| - 34;
      assert bytes == bytes[..k] + [0x12, 0x20] + bytes[k + 2..];
    }
  }

  method CidDigest(cid: string) returns (r: Result<seq<Byte>, CidError>)
    ensures r.Ok? <==> exists digits :: Text(digits) == Body(cid) && EndsInSha256(Decoded(digits))
    ensures forall digits :: Text(digits) == Body(cid) ==>
      r == if EndsInSha256(Decoded(digits)) then Ok(Decoded(digits)[|Decoded(digits)| - 32..]) else Err(NotSha256)
    ensures r == Err(NotBase32) <==> forall digits :: Text(digits) != Body(cid)
  {
    hide Decoded;
    var text := Body(cid);
    var digits: seq<Digit> := [];
    for n := 0 to |text|
      invariant |digits| == n && forall i :: 0 <= i < n ==> text[i] == CharOf(digits[i])
    {
      var digit := DigitOf(text[n]);
      if digit.None? {
        forall others: seq<Digit>
          ensures Text(others) != text
        {
          assert |others| == |text| ==> Text(others)[n] == CharOf(others[n]);
        }
        return Err(NotBase32);
      }
      digits := digits + [digit.value];
    }
    assert Text(digits) == text;
    forall others: seq<Digit> | Text(others) == text
      ensures others == digits
    {
      SameText(others, digits);
    }
    var bytes := Decode(digits);
    if |bytes| < 36 || bytes[|bytes| - 34] != 0x12 || bytes[|bytes| - 33] != 0x20 {
      return Err(NotSha256);
    }
    return Ok(bytes[|bytes| - 32..]);
  }

  lemma SameText(a: seq<Digit>, b: seq<Digit>)
    requires Text(a) == Text(b)
    ensures a == b
  {
  }

  // A printed CID with a SHA-256 multihash yields its digest.
  lemma PrintedHasDigest(cid: seq<Byte>)
    requires EndsInSha256(cid)
    ensures Printed(cid) == "b" + Body(Printed(cid))
    ensures Text(Encode(cid)) == Body(Printed(cid)) && EndsInSha256(Decoded(Encode(cid)))
    ensures Decoded(Encode(cid))[|Decoded(Encode(cid))| - 32..] == cid[|cid| - 32..]
  {
    hide Decoded, Encode;
    DecodedEncode(cid);
    assert Printed(cid)[1..] == Text(Encode(cid));
  }
}
