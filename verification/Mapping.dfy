/** The assignment of sliver pairs to shards: a rotation by the blob id, read as a big-endian
    number, modulo the number of pairs. */
module Mapping {
  import opened Arithmetic
  import opened ByteStrings
  import opened Wrappers

  datatype SliverAssignmentError = InconsistentRotation | InvalidInputOrder

  // A sliver pair: its index, and the slivers themselves.
  datatype SliverPair<T> = SliverPair(index: nat, slivers: T)

  // ---------------------------------------------------------------- the offset

  lemma ModStep(n: nat, m: nat, x: nat)
    requires m > 0
    ensures ((n % m) * 256 + x) % m == (256 * n + x) % m
  {
    var q, r := n / m, n % m;
    assert n == m * q + r;
    assert 256 * n + x == 256 * r + x + m * (256 * q);
    ModShift(256 * r + x, 256 * q, m);
  }

  lemma ModShift(n: int, k: int, m: nat)
    requires m > 0
    ensures (n + m * k) % m == n % m
  {
    Distribute(n / m, k, m);
    assert n == m * (n / m) + n % m;
    DivModUnique(n + m * k, m, n / m + k, n % m);
  }

  lemma BigEndianSnoc(bytes: seq<Byte>, i: nat)
    requires i < |bytes|
    ensures BigEndian(bytes[..i + 1]) == 256 * BigEndian(bytes[..i]) + bytes[i]
  {
    assert bytes[..i + 1][..i] == bytes[..i];
  }

  lemma HornerStep(bytes: seq<Byte>, i: nat, r: nat, modulus: nat)
    requires i < |bytes| && modulus > 0 && r == BigEndian(bytes[..i]) % modulus
    ensures (r * 256 + bytes[i]) % modulus == BigEndian(bytes[..i + 1]) % modulus
  {
    hide BigEndian;
    BigEndianSnoc(bytes, i);
    ModStep(BigEndian(bytes[..i]), modulus, bytes[i]);
  }

  // Horner's rule, reduced at every byte, gives the remainder of the whole number.
  method BytesMod(bytes: seq<Byte>, modulus: nat) returns (r: nat)
    requires modulus > 0
    ensures r == BigEndian(bytes) % modulus
  {
    assert BigEndian(bytes[..0]) == 0;
    hide BigEndian;
    r := 0;
    for i := 0 to |bytes|
      invariant r == BigEndian(bytes[..i]) % modulus
    {
      HornerStep(bytes, i, r, modulus);
      r := (r * 256 + bytes[i]) % modulus;
    }
    assert bytes[..|bytes|] == bytes;
  }

  function RotationOffset(pairs: nat, blobId: seq<Byte>): (offset: nat)
    requires pairs > 0
    ensures offset < pairs
  {
    BigEndian(blobId) % pairs
  }

  // ---------------------------------------------------------------- the index maps

  function ToShardIndex(pair: nat, shards: nat, blobId: seq<Byte>): (shard: nat)
    requires shards > 0
    ensures shard < shards
  {
    (pair + RotationOffset(shards, blobId)) % shards
  }

  function ToPairIndex(shard: nat, shards: nat, blobId: seq<Byte>): (pair: nat)
    requires shards > 0
    ensures pair < shards
  {
    (shards + shard - RotationOffset(shards, blobId)) % shards
  }

  lemma WrapOnce(n: nat, m: nat)
    requires n < 2 * m
    ensures n % m == if n < m then n else n - m
  {
  }

  // Between indices in range, the two maps are inverse to each other.
  lemma IndexMapsInverse(i: nat, j: nat, shards: nat, blobId: seq<Byte>)
    requires i < shards && j < shards
    ensures ToShardIndex(i, shards, blobId) == j <==> ToPairIndex(j, shards, blobId) == i
  {
    hide RotationOffset;
    var offset := RotationOffset(shards, blobId);
    WrapOnce(i + offset, shards);
    WrapOnce(shards + j - offset, shards);
  }

  // Any index maps to the shard of its remainder.
  lemma IndexMapReduces(pair: nat, shards: nat, blobId: seq<Byte>)
    requires shards > 0
    ensures ToPairIndex(ToShardIndex(pair, shards, blobId), shards, blobId) == pair % shards
  {
    hide RotationOffset;
    var offset := RotationOffset(shards, blobId);
    var q, m := pair / shards, pair % shards;
    ModShift(m + offset, q, shards);
    assert pair + offset == m + offset + shards * q;
    IndexMapsInverse(m, ToShardIndex(m, shards, blobId), shards, blobId);
  }

  // A pair moves on by the value of the blob id, and a shard finds the pair that comes to it.
  lemma IndexMapsByValue(i: nat, j: nat, shards: nat, blobId: seq<Byte>)
    requires shards > 0
    ensures ToShardIndex(i, shards, blobId) == (i + BigEndian(blobId)) % shards
    ensures j < shards ==> (ToPairIndex(j, shards, blobId) + BigEndian(blobId)) % shards == j
  {
    hide BigEndian;
    var value := BigEndian(blobId);
    var q, offset := value / shards, value % shards;
    assert value == shards * q + offset;
    ModShift(i + offset, q, shards);
    if j < shards {
      var pair := ToPairIndex(j, shards, blobId);
      WrapOnce(shards + j - offset, shards);
      WrapOnce(pair + offset, shards);
      ModShift(pair + offset, q, shards);
    }
  }

  // ---------------------------------------------------------------- rotation in place

  // The last `k` elements, moved to the front.
  function RotatedRight<T>(s: seq<T>, k: nat): (r: seq<T>)
    requires k <= |s|
    ensures |r| == |s|
  {
    s[|s| - k..] + s[..|s| - k]
  }

  // `rotate_right`: the last `k` elements of the slice move to its front.
  method RotateRight<T>(slice: array<T>, k: nat)
    requires k <= slice.Length
    modifies slice
    ensures slice[..] == RotatedRight(old(slice[..]), k)
  {
    var was := slice[..];
    var split := slice.Length - k;
    forall i | 0 <= i < slice.Length {
      slice[i] := if i < k then was[split + i] else was[i - k];
    }
  }

  method RotateByBytes<T>(slice: array<T>, rotation: seq<Byte>)
    requires slice.Length > 0
    modifies slice
    ensures slice[..] == RotatedRight(old(slice[..]), RotationOffset(slice.Length, rotation))
  {
    var k := BytesMod(rotation, slice.Length);
    RotateRight(slice, k);
  }

  method RotatePairsUnchecked<T>(pairs: array<SliverPair<T>>, blobId: seq<Byte>)
    modifies pairs
    ensures pairs.Length == 0 ==> pairs[..] == old(pairs[..])
    ensures pairs.Length > 0 ==> pairs[..] == RotatedRight(old(pairs[..]), RotationOffset(pairs.Length, blobId))
    ensures MovedBy(old(pairs[..]), pairs[..], BigEndian(blobId))
  {
    hide BigEndian, RotatedRight, RotationOffset;
    if pairs.Length == 0 {
      return;
    }
    ghost var was := pairs[..];
    RotateByBytes(pairs, blobId);
    RotationMoves(was, blobId);
  }

  // Every element stands `distance` positions further on, counted around the end.
  ghost predicate MovedBy<T>(before: seq<T>, after: seq<T>, distance: nat)
  {
    |after| == |before| && forall i: nat :: i < |before| ==> after[(i + distance) % |before|] == before[i]
  }

  lemma RotationMoves<T>(s: seq<T>, blobId: seq<Byte>)
    requires |s| > 0
    ensures MovedBy(s, RotatedRight(s, RotationOffset(|s|, blobId)), BigEndian(blobId))
  {
    hide BigEndian, RotatedRight;
    var n, offset := |s|, RotationOffset(|s|, blobId);
    forall i: nat | i < n
      ensures RotatedRight(s, offset)[(i + BigEndian(blobId)) % n] == s[i]
    {
      IndexMapsByValue(i, 0, n, blobId);
      WrapOnce(i + offset, n);
      RotatedAt(s, offset, ToShardIndex(i, n, blobId));
    }
  }

  // Where the elements come from.
  lemma RotatedAt<T>(s: seq<T>, k: nat, i: nat)
    requires k <= |s| && i < |s|
    ensures RotatedRight(s, k)[i] == s[if i < k then |s| - k + i else i - k]
  {
  }

  // Two rotations add up.
  lemma RotationsCompose<T>(s: seq<T>, a: nat, b: nat)
    requires a < |s| && b < |s|
    ensures RotatedRight(RotatedRight(s, a), b) == RotatedRight(s, (a + b) % |s|)
  {
    var n := |s|;
    hide RotatedRight;
    WrapOnce(a + b, n);
    var once, both, sum := RotatedRight(s, a), RotatedRight(RotatedRight(s, a), b), RotatedRight(s, (a + b) % n);
    forall i: nat | i < n
      ensures both[i] == sum[i]
    {
      RotatedAt(once, b, i);
      RotatedAt(s, a, if i < b then n - b + i else i - b);
      RotatedAt(s, (a + b) % n, i);
    }
  }

  lemma ModOfSum(x: nat, y: nat, n: nat)
    requires n > 0
    ensures (x % n + y % n) % n == (x + y) % n
  {
    ModShift(x % n + y % n, x / n + y / n, n);
    Distribute(x / n, y / n, n);
    assert x + y == x % n + y % n + n * (x / n + y / n);
  }

  // Two unchecked rotations are one, by any blob id that is the sum of the two modulo the
  // number of pairs.
  lemma UncheckedRotationsCompose<T>(s: seq<SliverPair<T>>, first: seq<Byte>, second: seq<Byte>, combined: seq<Byte>)
    requires |s| > 0 && BigEndian(combined) % |s| == (BigEndian(first) + BigEndian(second)) % |s|
    ensures RotatedRight(RotatedRight(s, RotationOffset(|s|, first)), RotationOffset(|s|, second))
         == RotatedRight(s, RotationOffset(|s|, combined))
  {
    hide RotatedRight, BigEndian;
    RotationsCompose(s, RotationOffset(|s|, first), RotationOffset(|s|, second));
    ModOfSum(BigEndian(first), BigEndian(second), |s|);
  }

  // ---------------------------------------------------------------- the checked rotation

  // The indices are consecutive modulo the number of pairs, starting anywhere.
  ghost predicate IsRotated<T>(pairs: seq<SliverPair<T>>)
  {
    forall i :: 0 <= i < |pairs| ==> pairs[i].index == (i + pairs[0].index) % |pairs|
  }

  ghost predicate InIdentityOrder<T>(pairs: seq<SliverPair<T>>)
  {
    forall i :: 0 <= i < |pairs| ==> pairs[i].index == i
  }

  // Each shard finds its pair at its own position.
  ghost predicate AssignedBy<T>(pairs: seq<SliverPair<T>>, blobId: seq<Byte>)
  {
    forall i :: 0 <= i < |pairs| ==> pairs[i].index == ToPairIndex(i, |pairs|, blobId)
  }

  method IsRotation<T>(pairs: array<SliverPair<T>>) returns (r: bool)
    ensures r <==> IsRotated(pairs[..])
  {
    for i := 0 to pairs.Length
      invariant forall j :: 0 <= j < i ==> pairs[j].index == (j + pairs[0].index) % pairs.Length
    {
      if pairs[i].index != (i + pairs[0].index) % pairs.Length {
        assert pairs[..][i] == pairs[i] && pairs[..][0] == pairs[0];
        return false;
      }
    }
    return true;
  }

  lemma FirstDecides<T>(pairs: seq<SliverPair<T>>, blobId: seq<Byte>)
    requires |pairs| > 0
    ensures InIdentityOrder(pairs) <==> IsRotated(pairs) && pairs[0].index == 0
    ensures AssignedBy(pairs, blobId) <==> IsRotated(pairs) && pairs[0].index == ToPairIndex(0, |pairs|, blobId)
  {
    hide RotationOffset;
    var n, offset := |pairs|, RotationOffset(|pairs|, blobId);
    WrapOnce(n - offset, n);
    forall i | 0 <= i < n
      ensures i % n == i
      ensures ToPairIndex(i, n, blobId) == (i + ToPairIndex(0, n, blobId)) % n
    {
      WrapOnce(i, n);
      WrapOnce(n + i - offset, n);
      WrapOnce(i + ToPairIndex(0, n, blobId), n);
    }
  }

  lemma RotationAssigns<T>(pairs: seq<SliverPair<T>>, blobId: seq<Byte>)
    requires |pairs| > 0 && InIdentityOrder(pairs)
    ensures AssignedBy(RotatedRight(pairs, RotationOffset(|pairs|, blobId)), blobId)
  {
    hide RotationOffset;
    var n, offset := |pairs|, RotationOffset(|pairs|, blobId);
    var rotated := RotatedRight(pairs, offset);
    forall i | 0 <= i < n
      ensures rotated[i].index == ToPairIndex(i, n, blobId)
    {
      WrapOnce(n + i - offset, n);
    }
  }

  // At every position is the pair that moves there.
  ghost predicate FoundByValue<T>(pairs: seq<SliverPair<T>>, distance: nat)
  {
    forall i: nat :: i < |pairs| ==> (pairs[i].index + distance) % |pairs| == i
  }

  lemma AssignedFound<T>(pairs: seq<SliverPair<T>>, blobId: seq<Byte>)
    ensures AssignedBy(pairs, blobId) ==> FoundByValue(pairs, BigEndian(blobId))
  {
    hide BigEndian, ToPairIndex, ToShardIndex;
    if AssignedBy(pairs, blobId) {
      forall i: nat | i < |pairs|
        ensures (pairs[i].index + BigEndian(blobId)) % |pairs| == i
      {
        IndexMapsByValue(0, i, |pairs|, blobId);
      }
    }
  }

  // Rotates pairs in the identity order, leaves pairs that are already assigned by this blob
  // id, and refuses all others.
  method RotatePairs<T>(pairs: array<SliverPair<T>>, blobId: seq<Byte>) returns (r: Result<(), SliverAssignmentError>)
    modifies pairs
    ensures r.Ok? <==> InIdentityOrder(old(pairs[..])) || AssignedBy(old(pairs[..]), blobId)
    ensures r.Ok? ==> AssignedBy(pairs[..], blobId)
    ensures r.Ok? && pairs.Length > 0 && InIdentityOrder(old(pairs[..])) ==>
      pairs[..] == RotatedRight(old(pairs[..]), RotationOffset(pairs.Length, blobId))
    ensures r.Ok? && InIdentityOrder(old(pairs[..])) ==> MovedBy(old(pairs[..]), pairs[..], BigEndian(blobId))
    ensures r.Ok? ==> FoundByValue(pairs[..], BigEndian(blobId))
    ensures AssignedBy(old(pairs[..]), blobId) ==> pairs[..] == old(pairs[..])
    ensures r.Err? ==> pairs[..] == old(pairs[..])
    ensures r == Err(InvalidInputOrder) <==> !IsRotated(old(pairs[..]))
  {
    hide AssignedBy, InIdentityOrder, IsRotated, RotationOffset, BigEndian, MovedBy, RotatedRight, FoundByValue;
    ghost var was := pairs[..];
    AssignedFound(was, blobId);
    if pairs.Length == 0 {
      EmptyIsAssigned(pairs[..], blobId);
      return Ok(());
    }
    FirstDecides(pairs[..], blobId);
    var rotated := IsRotation(pairs);
    if !rotated {
      return Err(InvalidInputOrder);
    }
    if pairs[0].index == 0 {
      RotationAssigns(pairs[..], blobId);
      AlreadyThere(pairs[..], blobId);
      RotateByBytes(pairs, blobId);
      RotationMoves(was, blobId);
      AssignedFound(pairs[..], blobId);
    } else if pairs[0].index != ToPairIndex(0, pairs.Length, blobId) {
      return Err(InconsistentRotation);
    }
    return Ok(());
  }

  lemma EmptyIsAssigned<T>(pairs: seq<SliverPair<T>>, blobId: seq<Byte>)
    requires pairs == []
    ensures InIdentityOrder(pairs) && AssignedBy(pairs, blobId) && IsRotated(pairs)
    ensures MovedBy(pairs, pairs, BigEndian(blobId))
  {
  }

  // Pairs in the identity order that are assigned already are rotated by nothing.
  lemma AlreadyThere<T>(pairs: seq<SliverPair<T>>, blobId: seq<Byte>)
    requires |pairs| > 0 && InIdentityOrder(pairs)
    ensures AssignedBy(pairs, blobId) ==> RotatedRight(pairs, RotationOffset(|pairs|, blobId)) == pairs
  {
    hide RotationOffset;
    if AssignedBy(pairs, blobId) {
      var n, offset := |pairs|, RotationOffset(|pairs|, blobId);
      assert pairs[0].index == ToPairIndex(0, n, blobId);
      WrapOnce(n - offset, n);
      assert RotatedRight(pairs, 0) == pairs;
    }
  }
}
