/** Cutting a sequence into chunks. */
module Chunking {

  // All chunks have the size given, but the last, which may be shorter.
  function Chunks<T>(xs: seq<T>, size: nat): (chunks: seq<seq<T>>)
    requires size > 0
    ensures forall i :: 0 <= i < |chunks| ==> 0 < |chunks[i]| <= size
    decreases |xs|
  {
    if xs == [] then []
    else if |xs| <= size then [xs]
    else [xs[..size]] + Chunks(xs[size..], size)
  }

  // The part of a sequence from `start` on, at most `size` elements of it.
  function Part<T>(xs: seq<T>, start: nat, size: nat): seq<T>
    requires start <= |xs|
  {
    xs[start..if start + size <= |xs| then start + size else |xs|]
  }

  // Chunk `c` by its place.
  lemma {:induction false} ChunkAt<T>(xs: seq<T>, size: nat, c: nat)
    requires size > 0 && c < |Chunks(xs, size)|
    ensures size * c < |xs| <= size * |Chunks(xs, size)|
    ensures Chunks(xs, size)[c] == Part(xs, size * c, size)
    decreases |xs|
  {
    NextMultiple(size, |Chunks(xs, size)| - 1);
    if |xs| > size {
      var rest := xs[size..];
      ChunkAt(rest, size, if c > 0 then c - 1 else 0);
      if c > 0 {
        NextMultiple(size, c - 1);
        PartOfRest(xs, size, size * (c - 1));
      }
    } else {
      NextMultiple(size, 0);
    }
  }

  lemma NextMultiple(size: nat, c: int)
    ensures size * (c + 1) == size * c + size && size * 0 == 0
  {
  }

  lemma PartOfRest<T>(xs: seq<T>, size: nat, start: nat)
    requires size + start <= |xs|
    ensures Part(xs[size..], start, size) == Part(xs, start + size, size)
  {
  }

  lemma {:induction false} ChunkMember<T>(xs: seq<T>, size: nat, c: nat, i: nat)
    requires size > 0 && c < |Chunks(xs, size)| && i < |Chunks(xs, size)[c]|
    ensures Chunks(xs, size)[c][i] in xs
    decreases |xs|
  {
    if |xs| > size && c > 0 {
      ChunkMember(xs[size..], size, c - 1, i);
    }
  }
}
