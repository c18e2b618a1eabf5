/**
 Properties of `ChunkedVector` spanning several operations, the scenarios its
 tests describe, and what goes wrong with a chunk size of zero.
 */
module ChunkedVectorProps {
  import opened Outcomes
  import opened ChunkedVector

  /**
   With a chunk size of zero the constructor still succeeds, and the first
   `pushBack` finds its empty chunk "full", opens a second chunk and stores
   the value there. Index 0 then passes the range check of `operator[]`, whose
   next step divides by the chunk size, zero; and the layout every index
   computation relies on no longer holds.
   */
  lemma ZeroChunkSizeBreaksLayout()
    ensures var v := PushBack(NewAsWritten(0), 7);
            && v.chunks == [[], [7]]
            && Elements(v) == [7]
            && 0 < TotalSize(v.chunks)
            && v.chunkSize == 0
            && !Valid(v)
  {
    var v := PushBack(NewAsWritten(0), 7);
    assert v.chunks == [[]] + [[7]];
    assert Flatten([[], [7]]) == [] + Flatten([[7]]);
    assert Flatten([[7]]) == [7] + Flatten([]);
  }

  /** Any number of appends to a valid vector keeps the layout and every index readable. */
  function PushAll(v: Vector, xs: seq<int>): (r: Vector)
    requires Valid(v)
    ensures Valid(r)
    ensures Elements(r) == Elements(v) + xs
    ensures r.chunkSize == v.chunkSize
    decreases |xs|
  {
    if xs == [] then
      v
    else
      assert Elements(v) + xs == Elements(v) + [xs[0]] + xs[1..];
      PushAll(PushBack(v, xs[0]), xs[1..])
  }

  /**
   `pushBack` after `pack` still appends, and every index, old or new, reads
   the element it held before (or the appended one).
   */
  lemma PushBackAfterPack(v: Vector, x: int)
    requires Valid(v)
    ensures Valid(PushBack(Pack(v), x))
    ensures Elements(PushBack(Pack(v), x)) == Elements(v) + [x]
    ensures forall i | 0 <= i < |Elements(v)| :: Index(PushBack(Pack(v), x), i) == Ok(Elements(v)[i])
    ensures Index(PushBack(Pack(v), x), |Elements(v)|) == Ok(x)
  {
  }

  /** Packing twice is the same as packing once. */
  lemma PackIdempotent(v: Vector)
    requires Valid(v)
    ensures Pack(Pack(v)) == Pack(v)
  {
    var p := Pack(v);
    if Elements(v) != [] {
      assert p.chunks == [p.chunks[0]];
      assert Elements(p) == p.chunks[0] + Flatten([]);
    }
  }

  /**
   Appending `xs` to a new vector of any positive chunk size, however many
   chunks that takes, makes index `i` read `xs[i]`, and the first index past
   the end out of range.
   */
  lemma IndexAfterPushes(chunkSize: nat, xs: seq<int>)
    requires chunkSize > 0
    ensures forall i | 0 <= i < |xs| :: Index(PushAll(New(chunkSize), xs), i) == Ok(xs[i])
    ensures Index(PushAll(New(chunkSize), xs), |xs|) == Err(OutOfRange("Index out of bounds"))
  {
    var v := PushAll(New(chunkSize), xs);
    assert Valid(v) && Elements(v) == xs;
  }

  /**
   Appending after `pack`: every index reads the packed contents followed by
   the appended values.
   */
  lemma IndexAfterPackAndPushes(v: Vector, xs: seq<int>)
    requires Valid(v)
    ensures forall i | 0 <= i < |Elements(v)| + |xs| ::
              Index(PushAll(Pack(v), xs), i) == Ok((Elements(v) + xs)[i])
  {
    var r := PushAll(Pack(v), xs);
    assert Valid(r) && Elements(r) == Elements(v) + xs;
  }

  /** `pack` on an empty vector changes nothing. */
  lemma PackEmptyIsNoOp(chunkSize: nat)
    requires chunkSize > 0
    ensures Pack(New(chunkSize)) == New(chunkSize)
  {
  }

  /** After `v[i] = x`, index `i` reads `x` and every other index reads what it did before. */
  lemma SetThenIndex(v: Vector, i: nat, x: int, j: nat)
    requires Valid(v) && i < |Elements(v)|
    ensures Set(v, i, x).Ok?
    ensures Index(Set(v, i, x).value, i) == Ok(x)
    ensures j != i ==> Index(Set(v, i, x).value, j) == Index(v, j)
  {
  }
}
