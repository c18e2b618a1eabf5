/**
 The append-only `ChunkedVector<T>` with `T = int`: a sequence of chunks of
 which only the last one grows. Element `i` is found by the arithmetic
 `i / chunkSize`, `i % chunkSize`, which is right only while every chunk but
 the last holds exactly `chunkSize` elements; `Valid` states that layout.
 */
module ChunkedVector {
  import opened Outcomes

  datatype Vector = Vector(chunkSize: nat, chunks: seq<seq<int>>)

  /** The chunks laid end to end. */
  function Flatten(chunks: seq<seq<int>>): seq<int> {
    if chunks == [] then [] else chunks[0] + Flatten(chunks[1..])
  }

  /** The vector's contents, in index order. */
  function Elements(v: Vector): seq<int> {
    Flatten(v.chunks)
  }

  /**
   The layout `operator[]` relies on: a positive chunk size, at least one
   chunk, every chunk but the last exactly full and the last at most full.
   */
  predicate Valid(v: Vector) {
    && v.chunkSize > 0
    && |v.chunks| >= 1
    && (forall i | 0 <= i < |v.chunks| - 1 :: |v.chunks[i]| == v.chunkSize)
    && |v.chunks[|v.chunks| - 1]| <= v.chunkSize
  }

  /** The constructor as written: one empty chunk, whatever the chunk size. */
  function NewAsWritten(chunkSize: nat): (r: Vector)
    ensures |r.chunks| == 1 && Elements(r) == [] && r.chunkSize == chunkSize
  {
    Vector(chunkSize, [[]])
  }

  /** The constructor restricted to the chunk sizes `operator[]` can divide by. */
  function New(chunkSize: nat): (r: Vector)
    requires chunkSize > 0
    ensures Valid(r)
    ensures Elements(r) == [] && r.chunkSize == chunkSize
  {
    NewAsWritten(chunkSize)
  }

  /**
   The summing loop of `operator[]` and `pack`: the total element count,
   which is the length of the flattened contents.
   */
  function TotalSize(chunks: seq<seq<int>>): (n: nat)
    ensures n == |Flatten(chunks)|
  {
    if chunks == [] then 0 else |chunks[0]| + TotalSize(chunks[1..])
  }

  /**
   `pushBack`: when the last chunk is full a new empty chunk is opened, then
   the value is appended to the last chunk. Needs only the chunk list to be
   non-empty, which every constructor and `pack` guarantee.
   */
  function PushBack(v: Vector, x: int): (r: Vector)
    requires |v.chunks| >= 1
    ensures |r.chunks| >= 1 && r.chunkSize == v.chunkSize
    ensures Elements(r) == Elements(v) + [x]
    ensures |r.chunks| == |v.chunks| + (if |v.chunks[|v.chunks| - 1]| == v.chunkSize then 1 else 0)
    ensures Valid(v) ==> Valid(r)
  {
    var n := |v.chunks| - 1;
    if |v.chunks[n]| == v.chunkSize then
      // the last chunk is full: open a new one holding just `x`
      FlattenSnoc(v.chunks, [x]);
      Vector(v.chunkSize, v.chunks + [[x]])
    else
      assert v.chunks == v.chunks[..n] + [v.chunks[n]];
      FlattenSnoc(v.chunks[..n], v.chunks[n]);
      FlattenSnoc(v.chunks[..n], v.chunks[n] + [x]);
      Vector(v.chunkSize, v.chunks[..n] + [v.chunks[n] + [x]])
  }

  /**
   `operator[]`: `out_of_range` unless `i` is below the total element count;
   otherwise the element chunk `i / chunkSize` holds at `i % chunkSize`,
   which is the `i`-th element of the contents.
   */
  function Index(v: Vector, i: nat): (r: Result<int>)
    requires Valid(v)
    ensures r.Err? <==> i >= |Elements(v)|
    ensures r.Err? ==> r.error == OutOfRange("Index out of bounds")
    ensures r.Ok? ==> r.value == Elements(v)[i]
  {
    var total := TotalSize(v.chunks);
    if i >= total then
      Err(OutOfRange("Index out of bounds"))
    else
      var chunkIndex := i / v.chunkSize;
      var elementIndex := i % v.chunkSize;
      Locate(v.chunks, v.chunkSize, i);
      Ok(v.chunks[chunkIndex][elementIndex])
  }

  /**
   A write through the reference `operator[]` returns (`v[i] = x`): the same
   range check, then element `i / chunkSize` of chunk `i % chunkSize` is
   overwritten in place. The contents change at index `i` only and the
   layout is kept.
   */
  function Set(v: Vector, i: nat, x: int): (r: Result<Vector>)
    requires Valid(v)
    ensures r.Err? <==> i >= |Elements(v)|
    ensures r.Err? ==> r.error == OutOfRange("Index out of bounds")
    ensures r.Ok? ==> Valid(r.value) && r.value.chunkSize == v.chunkSize
    ensures r.Ok? ==> Elements(r.value) == Elements(v)[i := x]
  {
    var total := TotalSize(v.chunks);
    if i >= total then
      Err(OutOfRange("Index out of bounds"))
    else
      var chunkIndex := i / v.chunkSize;
      var elementIndex := i % v.chunkSize;
      Locate(v.chunks, v.chunkSize, i);
      LocateUpdate(v.chunks, v.chunkSize, i, x);
      var chunks := v.chunks[chunkIndex := v.chunks[chunkIndex][elementIndex := x]];
      assert forall j | 0 <= j < |chunks| :: |chunks[j]| == |v.chunks[j]|;
      Ok(Vector(v.chunkSize, chunks))
  }

  /**
   The loop of `pack`: append chunks `i..` to the first chunk, one after the
   other.
   */
  function AppendChunks(first: seq<int>, chunks: seq<seq<int>>, i: nat): (r: seq<int>)
    requires i <= |chunks|
    ensures r == first + Flatten(chunks[i..])
    decreases |chunks| - i
  {
    if i == |chunks| then
      first
    else
      assert chunks[i..] == [chunks[i]] + chunks[i + 1..];
      AppendChunks(first + chunks[i], chunks, i + 1)
  }

  /**
   `pack`: on a non-empty vector, all chunks are concatenated into the first,
   the others are dropped and the chunk size becomes the total count, so the
   layout holds whatever it was before. An empty vector is left unchanged.
   */
  function Pack(v: Vector): (r: Vector)
    requires |v.chunks| >= 1
    ensures Elements(r) == Elements(v)
    ensures Elements(v) != [] ==> |r.chunks| == 1 && r.chunkSize == |Elements(v)| && Valid(r)
    ensures Elements(v) == [] ==> r == v
    ensures Valid(v) ==> Valid(r)
  {
    var total := TotalSize(v.chunks);
    if total > 0 then
      var first := AppendChunks(v.chunks[0], v.chunks, 1);
      assert v.chunks == [v.chunks[0]] + v.chunks[1..];
      assert Flatten([first]) == first + Flatten([]);
      Vector(total, [first])
    else
      v
  }

  // ---------------------------------------------------------------------
  // Layout lemmas

  lemma {:induction false} FlattenSnoc(chunks: seq<seq<int>>, c: seq<int>)
    ensures Flatten(chunks + [c]) == Flatten(chunks) + c
  {
    if chunks != [] {
      assert (chunks + [c])[1..] == chunks[1..] + [c];
      FlattenSnoc(chunks[1..], c);
    } else {
      assert Flatten([c]) == c + Flatten([]);
    }
  }

  /** Stepping over one full chunk shifts the quotient by one and keeps the remainder. */
  lemma DivModStep(i: nat, k: nat)
    requires k > 0 && i >= k
    ensures i / k == (i - k) / k + 1
    ensures i % k == (i - k) % k
  {
    var q := (i - k) / k;
    var m := (i - k) % k;
    assert i - k == k * q + m;
    assert i == k * (q + 1) + m;
    DivModUnique(i, k, q + 1, m);
  }

  lemma DivModUnique(i: nat, k: nat, q: int, m: int)
    requires k > 0 && 0 <= m < k && i == k * q + m
    ensures i / k == q && i % k == m
  {
    var q' := i / k;
    var m' := i % k;
    assert k * q' + m' == k * q + m;
    if q' < q {
      MulDistributes(k, q, q');
      MulAtLeast(k, q - q');
    } else if q' > q {
      MulDistributes(k, q', q);
      MulAtLeast(k, q' - q);
    }
  }

  lemma MulDistributes(k: int, a: int, b: int)
    ensures k * (a - b) == k * a - k * b
  {
  }

  lemma {:induction false} MulAtLeast(k: nat, d: int)
    requires d >= 1
    ensures k * d >= k
    decreases d
  {
    if d > 1 {
      MulAtLeast(k, d - 1);
      MulDistributes(k, d, 1);
    }
  }

  /**
   Under the layout invariant, index `i` of the contents lies in chunk
   `i / k` at position `i % k`.
   */
  lemma {:induction false} Locate(chunks: seq<seq<int>>, k: nat, i: nat)
    requires k > 0 && |chunks| >= 1
    requires forall j | 0 <= j < |chunks| - 1 :: |chunks[j]| == k
    requires |chunks[|chunks| - 1]| <= k
    requires i < |Flatten(chunks)|
    ensures i / k < |chunks| && i % k < |chunks[i / k]|
    ensures chunks[i / k][i % k] == Flatten(chunks)[i]
  {
    if i < |chunks[0]| {
      assert |chunks[0]| <= k;
      DivModUnique(i, k, 0, i);
    } else {
      assert Flatten(chunks) == chunks[0] + Flatten(chunks[1..]);
      assert chunks[1..] != [];
      assert |chunks[0]| == k;
      DivModStep(i, k);
      Locate(chunks[1..], k, i - k);
    }
  }

  /**
   Under the layout invariant, overwriting position `i % k` of chunk `i / k`
   overwrites index `i` of the contents and nothing else.
   */
  lemma {:induction false} LocateUpdate(chunks: seq<seq<int>>, k: nat, i: nat, x: int)
    requires k > 0 && |chunks| >= 1
    requires forall j | 0 <= j < |chunks| - 1 :: |chunks[j]| == k
    requires |chunks[|chunks| - 1]| <= k
    requires i < |Flatten(chunks)|
    ensures i / k < |chunks| && i % k < |chunks[i / k]|
    ensures Flatten(chunks[i / k := chunks[i / k][i % k := x]]) == Flatten(chunks)[i := x]
  {
    Locate(chunks, k, i);
    assert Flatten(chunks) == chunks[0] + Flatten(chunks[1..]);
    if i < |chunks[0]| {
      assert |chunks[0]| <= k;
      DivModUnique(i, k, 0, i);
      var updated := chunks[0 := chunks[0][i := x]];
      assert updated[1..] == chunks[1..];
      assert Flatten(updated) == updated[0] + Flatten(updated[1..]);
    } else {
      assert chunks[1..] != [];
      assert |chunks[0]| == k;
      DivModStep(i, k);
      LocateUpdate(chunks[1..], k, i - k, x);
      var c := i / k;
      var updated := chunks[c := chunks[c][i % k := x]];
      assert updated[0] == chunks[0];
      assert updated[1..] == chunks[1..][c - 1 := chunks[1..][c - 1][(i - k) % k := x]];
      assert Flatten(updated) == updated[0] + Flatten(updated[1..]);
    }
  }
}
