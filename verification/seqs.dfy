/**
 Reference definitions over sequences of integers, independent of how the
 containers compute their results: ordering predicates, filtering, mapping,
 reversal, ordered insertion and the two-pointer merge, each with the lemmas
 the container models need.
 */
module Seqs {

  /** Every element is at most each later element. */
  predicate NonDecreasing(s: seq<int>) {
    forall i, j | 0 <= i < j < |s| :: s[i] <= s[j]
  }

  /** Every element is at least each later element. */
  predicate NonIncreasing(s: seq<int>) {
    forall i, j | 0 <= i < j < |s| :: s[i] >= s[j]
  }

  /** Every element is below each later element (so no value repeats). */
  predicate StrictlyIncreasing(s: seq<int>) {
    forall i, j | 0 <= i < j < |s| :: s[i] < s[j]
  }

  function Last(s: seq<int>): int
    requires s != []
  {
    s[|s| - 1]
  }

  /** The elements satisfying `p`, in their original order. */
  function Filter(s: seq<int>, p: int -> bool): seq<int> {
    if s == [] then []
    else if p(s[0]) then [s[0]] + Filter(s[1..], p)
    else Filter(s[1..], p)
  }

  /** `f` applied to every element, in order. */
  function Map(s: seq<int>, f: int -> int): seq<int> {
    if s == [] then [] else [f(s[0])] + Map(s[1..], f)
  }

  function Reverse(s: seq<int>): seq<int> {
    if s == [] then [] else Reverse(s[1..]) + [s[0]]
  }

  /** `v` placed immediately before the first element that is at least `v`. */
  function Insert(s: seq<int>, v: int): seq<int> {
    if s == [] || v <= s[0] then [v] + s else [s[0]] + Insert(s[1..], v)
  }

  /**
   The two-pointer merge: the head of `a` is taken only when it is strictly
   below the head of `b`, so on ties the element of `b` comes first.
   */
  function Merge(a: seq<int>, b: seq<int>): seq<int>
    decreases |a| + |b|
  {
    if a == [] then b
    else if b == [] then a
    else if a[0] < b[0] then [a[0]] + Merge(a[1..], b)
    else [b[0]] + Merge(a, b[1..])
  }

  // ---------------------------------------------------------------------
  // Ordering predicates under cons and snoc

  lemma ConsNonDecreasing(x: int, t: seq<int>)
    ensures NonDecreasing([x] + t) <==> (t == [] || x <= t[0]) && NonDecreasing(t)
  {
    var s := [x] + t;
    if (t == [] || x <= t[0]) && NonDecreasing(t) {
      forall i, j | 0 <= i < j < |s| ensures s[i] <= s[j] {
        if i == 0 && j > 1 {
          assert t[0] <= t[j - 1];
        }
      }
    }
    if NonDecreasing(s) {
      if t != [] {
        assert s[0] <= s[1];
      }
      forall i, j | 0 <= i < j < |t| ensures t[i] <= t[j] {
        assert s[i + 1] <= s[j + 1];
      }
    }
  }

  lemma ConsNonIncreasing(x: int, t: seq<int>)
    ensures NonIncreasing([x] + t) <==> (t == [] || x >= t[0]) && NonIncreasing(t)
  {
    var s := [x] + t;
    if (t == [] || x >= t[0]) && NonIncreasing(t) {
      forall i, j | 0 <= i < j < |s| ensures s[i] >= s[j] {
        if i == 0 && j > 1 {
          assert t[0] >= t[j - 1];
        }
      }
    }
    if NonIncreasing(s) {
      if t != [] {
        assert s[0] >= s[1];
      }
      forall i, j | 0 <= i < j < |t| ensures t[i] >= t[j] {
        assert s[i + 1] >= s[j + 1];
      }
    }
  }

  lemma ConsStrictlyIncreasing(x: int, t: seq<int>)
    ensures (t == [] || x < t[0]) && StrictlyIncreasing(t) ==> StrictlyIncreasing([x] + t)
  {
    var s := [x] + t;
    if (t == [] || x < t[0]) && StrictlyIncreasing(t) {
      forall i, j | 0 <= i < j < |s| ensures s[i] < s[j] {
        if i == 0 && j > 1 {
          assert t[0] < t[j - 1];
        }
      }
    }
  }

  lemma SnocNonDecreasing(s: seq<int>, x: int)
    ensures NonDecreasing(s + [x]) <==> (s == [] || Last(s) <= x) && NonDecreasing(s)
  {
    var t := s + [x];
    if (s == [] || Last(s) <= x) && NonDecreasing(s) {
      forall i, j | 0 <= i < j < |t| ensures t[i] <= t[j] {
        if j == |s| && i < |s| - 1 {
          assert s[i] <= s[|s| - 1];
        }
      }
    }
    if NonDecreasing(t) {
      if s != [] {
        assert t[|s| - 1] <= t[|s|];
      }
      forall i, j | 0 <= i < j < |s| ensures s[i] <= s[j] {
        assert t[i] <= t[j];
      }
    }
  }

  lemma SuffixNonDecreasing(s: seq<int>, k: nat)
    requires k <= |s|
    ensures NonDecreasing(s) ==> NonDecreasing(s[k..])
  {
    var t := s[k..];
    if NonDecreasing(s) {
      forall i, j | 0 <= i < j < |t| ensures t[i] <= t[j] {
        assert s[k + i] <= s[k + j];
      }
    }
  }

  // ---------------------------------------------------------------------
  // Filter

  /** Filtering keeps every occurrence of an accepted value and none of a rejected one. */
  lemma {:induction false} FilterMultiset(s: seq<int>, p: int -> bool)
    ensures forall x :: multiset(Filter(s, p))[x] == if p(x) then multiset(s)[x] else 0
  {
    if s != [] {
      FilterMultiset(s[1..], p);
      assert s == [s[0]] + s[1..];
    }
  }

  lemma FilterMembers(s: seq<int>, p: int -> bool)
    ensures forall x :: x in Filter(s, p) <==> x in s && p(x)
  {
    FilterMultiset(s, p);
    forall x ensures x in Filter(s, p) <==> x in s && p(x) {
      assert x in Filter(s, p) <==> multiset(Filter(s, p))[x] > 0;
      assert x in s <==> multiset(s)[x] > 0;
    }
  }

  /** Filtering with an equality test counts the occurrences of the value. */
  lemma FilterEqualsCount(s: seq<int>, p: int -> bool, v: int)
    requires forall x :: p(x) <==> x == v
    ensures |Filter(s, p)| == multiset(s)[v]
  {
    FilterMultiset(s, p);
    var f := Filter(s, p);
    assert forall x :: x in f ==> x == v by {
      FilterMembers(s, p);
    }
    SingleValueCount(f, v);
  }

  lemma {:induction false} SingleValueCount(s: seq<int>, v: int)
    requires forall x :: x in s ==> x == v
    ensures |s| == multiset(s)[v]
  {
    if s != [] {
      assert s == [s[0]] + s[1..];
      assert forall x :: x in s[1..] ==> x in s;
      SingleValueCount(s[1..], v);
      assert s[0] in s;
      assert s[0] == v;
      assert multiset(s) == multiset{v} + multiset(s[1..]);
    }
  }

  // ---------------------------------------------------------------------
  // Map

  lemma {:induction false} MapIndex(s: seq<int>, f: int -> int)
    ensures |Map(s, f)| == |s|
    ensures forall i | 0 <= i < |s| :: Map(s, f)[i] == f(s[i])
  {
    if s != [] {
      MapIndex(s[1..], f);
    }
  }

  // ---------------------------------------------------------------------
  // Reverse

  lemma {:induction false} ReverseIndex(s: seq<int>)
    ensures |Reverse(s)| == |s|
    ensures forall i | 0 <= i < |s| :: Reverse(s)[i] == s[|s| - 1 - i]
  {
    if s != [] {
      ReverseIndex(s[1..]);
    }
  }

  lemma ReverseInvolutive(s: seq<int>)
    ensures Reverse(Reverse(s)) == s
  {
    ReverseIndex(s);
    ReverseIndex(Reverse(s));
  }

  /** A sequence read backwards is ascending exactly when it was descending. */
  lemma ReverseOrder(s: seq<int>)
    ensures NonDecreasing(Reverse(s)) <==> NonIncreasing(s)
  {
    ReverseIndex(s);
    var r := Reverse(s);
    var n := |s|;
    if NonIncreasing(s) {
      forall i, j | 0 <= i < j < n ensures r[i] <= r[j] {
        assert s[n - 1 - j] >= s[n - 1 - i];
      }
    }
    if NonDecreasing(r) {
      forall i, j | 0 <= i < j < n ensures s[i] >= s[j] {
        assert r[n - 1 - j] <= r[n - 1 - i];
      }
    }
  }

  // ---------------------------------------------------------------------
  // Insert

  /**
   `Insert(s, v)` splits `s` at the first element that is at least `v`: every
   element before the split is below `v`, and `v` goes in at the split.
   */
  lemma {:induction false} InsertPosition(s: seq<int>, v: int) returns (k: nat)
    ensures k <= |s|
    ensures Insert(s, v) == s[..k] + [v] + s[k..]
    ensures forall i | 0 <= i < k :: s[i] < v
    ensures k < |s| ==> v <= s[k]
  {
    if s == [] || v <= s[0] {
      k := 0;
    } else {
      var k' := InsertPosition(s[1..], v);
      k := k' + 1;
      assert s[..k] == [s[0]] + s[1..][..k'];
      assert s[k..] == s[1..][k'..];
    }
  }

  /** Conversely, a split with those two properties is where `Insert` puts `v`. */
  lemma {:induction false} InsertAt(s: seq<int>, v: int, k: nat)
    requires k <= |s|
    requires forall i | 0 <= i < k :: s[i] < v
    requires k < |s| ==> v <= s[k]
    ensures Insert(s, v) == s[..k] + [v] + s[k..]
  {
    if k > 0 {
      InsertAt(s[1..], v, k - 1);
      assert s[..k] == [s[0]] + s[1..][..k - 1];
      assert s[k..] == s[1..][k - 1..];
    }
  }

  lemma {:induction false} InsertMultiset(s: seq<int>, v: int)
    ensures multiset(Insert(s, v)) == multiset(s) + multiset{v}
  {
    if s != [] && v > s[0] {
      InsertMultiset(s[1..], v);
      assert s == [s[0]] + s[1..];
    }
  }

  lemma InsertKeepsOrder(s: seq<int>, v: int)
    requires NonDecreasing(s)
    ensures NonDecreasing(Insert(s, v))
  {
    var k := InsertPosition(s, v);
    var r := Insert(s, v);
    forall i, j | 0 <= i < j < |r| ensures r[i] <= r[j] {
      if j < k {
        assert r[i] == s[i] && r[j] == s[j];
      } else if j == k {
        assert r[i] == s[i];
      } else if i < k {
        assert r[i] == s[i] && r[j] == s[j - 1];
        assert s[i] <= s[j - 1];
      } else if i == k {
        assert r[j] == s[j - 1] && s[k] <= s[j - 1];
      } else {
        assert r[i] == s[i - 1] && r[j] == s[j - 1];
      }
    }
  }

  // ---------------------------------------------------------------------
  // Merge

  lemma {:induction false} MergeMultiset(a: seq<int>, b: seq<int>)
    ensures multiset(Merge(a, b)) == multiset(a) + multiset(b)
    decreases |a| + |b|
  {
    if a != [] && b != [] {
      if a[0] < b[0] {
        MergeMultiset(a[1..], b);
        assert a == [a[0]] + a[1..];
      } else {
        MergeMultiset(a, b[1..]);
        assert b == [b[0]] + b[1..];
      }
    }
  }

  /** When every value of `a` is below every value of `b`, the merge is `a` then `b`. */
  lemma {:induction false} MergeSeparated(a: seq<int>, b: seq<int>)
    requires forall i, j | 0 <= i < |a| && 0 <= j < |b| :: a[i] < b[j]
    ensures Merge(a, b) == a + b
    decreases |a|
  {
    if a != [] && b != [] {
      assert a[0] < b[0];
      MergeSeparated(a[1..], b);
      assert a == [a[0]] + a[1..];
    }
  }

  /** The merge never starts below a bound that both inputs start at or above. */
  lemma MergeLowerBound(a: seq<int>, b: seq<int>, x: int)
    requires a == [] || x <= a[0]
    requires b == [] || x <= b[0]
    ensures Merge(a, b) == [] || x <= Merge(a, b)[0]
  {
  }

  /** Merging two ascending sequences gives an ascending sequence. */
  lemma {:induction false} MergeKeepsOrder(a: seq<int>, b: seq<int>)
    requires NonDecreasing(a) && NonDecreasing(b)
    ensures NonDecreasing(Merge(a, b))
    decreases |a| + |b|
  {
    if a != [] && b != [] {
      if a[0] < b[0] {
        SuffixNonDecreasing(a, 1);
        MergeKeepsOrder(a[1..], b);
        MergeLowerBound(a[1..], b, a[0]);
        ConsNonDecreasing(a[0], Merge(a[1..], b));
      } else {
        SuffixNonDecreasing(b, 1);
        MergeKeepsOrder(a, b[1..]);
        MergeLowerBound(a, b[1..], b[0]);
        ConsNonDecreasing(b[0], Merge(a, b[1..]));
      }
    }
  }
}
