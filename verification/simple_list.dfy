/**
 The singly-linked `SimpleList<T>` with `T = int`.

 The node chain is modelled by the sequence of values met from head to tail.
 The list keeps, beside the chain, the same bookkeeping the C++ class keeps:
 a node count, a handle on the last node (modelled by the value that node
 holds) and a conservative "sorted ascending" flag. `Valid` is the class
 invariant tying that bookkeeping to the chain. Every operation takes a valid
 list and returns a valid one, and each loop of the C++ code is modelled by a
 recursive "walk" function carrying the same loop state.
 */
module SimpleList {
  import opened Seqs
  import opened Outcomes

  datatype List = List(
    items: seq<int>,         // the values of the chain, head first
    size: int,               // _size
    tail: Option<int>,       // _tail: the value held by the last node, None when null
    sortedAscending: bool)   // _sorted_ascending

  /**
   The class invariant: the count is the chain length, the tail handle is
   null exactly for the empty chain and otherwise designates the last node,
   and a raised flag means the chain really is non-decreasing. The converse
   is deliberately absent: the flag may be down on a sorted (even empty) chain.
   */
  predicate Valid(l: List) {
    && l.size == |l.items|
    && l.tail == (if l.items == [] then None else Some(Last(l.items)))
    && (l.sortedAscending ==> NonDecreasing(l.items))
  }

  /** The empty list every constructor and `clear` produce. */
  function Empty(): (r: List)
    ensures Valid(r)
    ensures r.items == [] && r.size == 0 && r.sortedAscending
  {
    List([], 0, None, true)
  }

  /** `clear`: drop the chain and reset every field to the empty-list state. */
  function Clear(l: List): (r: List)
    ensures Valid(r)
    ensures r.items == [] && r.size == 0 && r.tail == None && r.sortedAscending
  {
    Empty()
  }

  /**
   Move construction and move assignment: the destination takes over the
   source's chain and all its bookkeeping, and the source is cleared.
   Returns the pair (destination, source).
   */
  function MoveFrom(source: List): (r: (List, List))
    requires Valid(source)
    ensures Valid(r.0) && Valid(r.1)
    ensures r.0.items == source.items && r.0.sortedAscending == source.sortedAscending
    ensures r.1.items == [] && r.1.sortedAscending
  {
    (List(source.items, source.size, source.tail, source.sortedAscending), Clear(source))
  }

  /** `count()`: the node count, which the invariant ties to the chain length. */
  function Length(l: List): (n: int)
    requires Valid(l)
    ensures n == |l.items| && n >= 0
  {
    l.size
  }

  /** `empty()`: decided on the count alone, it holds exactly for the empty chain. */
  function IsEmpty(l: List): (r: bool)
    requires Valid(l)
    ensures r <==> l.items == []
  {
    l.size == 0
  }

  // ---------------------------------------------------------------------
  // Insertion at the ends

  /**
   `push_front`: the flag is lowered when `v` is above the old head and is
   untouched when the list was empty.
   */
  function PushFront(l: List, v: int): (r: List)
    requires Valid(l)
    ensures Valid(r)
    ensures r.items == [v] + l.items
    ensures r.size == l.size + 1
    ensures r.sortedAscending == (l.sortedAscending && (l.items == [] || v <= l.items[0]))
    ensures r.sortedAscending == (l.sortedAscending && NonDecreasing(r.items))
  {
    var sorted := if l.items != [] then l.sortedAscending && l.items[0] >= v else l.sortedAscending;
    var tail := if l.tail == None then Some(v) else l.tail;
    ConsNonDecreasing(v, l.items);
    List([v] + l.items, l.size + 1, tail, sorted)
  }

  /**
   `push_back`: on an empty list this is `push_front`; otherwise the flag is
   lowered when `v` is below the value the tail handle designates.
   */
  function PushBack(l: List, v: int): (r: List)
    requires Valid(l)
    ensures Valid(r)
    ensures r.items == l.items + [v]
    ensures r.size == l.size + 1
    ensures r.sortedAscending == (l.sortedAscending && (l.items == [] || Last(l.items) <= v))
    ensures r.sortedAscending == (l.sortedAscending && NonDecreasing(r.items))
  {
    if l.items == [] then
      PushFront(l, v)
    else
      var sorted := l.sortedAscending && l.tail.value <= v;
      SnocNonDecreasing(l.items, v);
      List(l.items + [v], l.size + 1, Some(v), sorted)
  }

  // ---------------------------------------------------------------------
  // Access at the ends

  /** `front`: the head value, or `out_of_range` on an empty list. */
  function Front(l: List): (r: Result<int>)
    requires Valid(l)
    ensures r.Err? <==> l.items == []
    ensures r.Err? ==> r.error == OutOfRange("List is empty")
    ensures r.Ok? ==> r.value == l.items[0]
  {
    if l.items == [] then Err(OutOfRange("List is empty")) else Ok(l.items[0])
  }

  /**
   `back`: reads the node the tail handle designates, which by the class
   invariant is the last value of the chain.
   */
  function Back(l: List): (r: Result<int>)
    requires Valid(l)
    ensures r.Err? <==> l.items == []
    ensures r.Err? ==> r.error == OutOfRange("List is empty")
    ensures r.Ok? ==> r.value == Last(l.items)
  {
    if l.tail == None then Err(OutOfRange("List is empty")) else Ok(l.tail.value)
  }

  /**
   `pop_front`: returns the head value and the list without it, nulling the
   tail handle when the chain empties. The flag is never changed, so a list
   drained this way can be empty with its flag down.
   */
  function PopFront(l: List): (r: Result<(int, List)>)
    requires Valid(l)
    ensures r.Err? <==> l.items == []
    ensures r.Err? ==> r.error == OutOfRange("List is empty")
    ensures r.Ok? ==> Valid(r.value.1)
    ensures r.Ok? ==> r.value.0 == l.items[0] && r.value.1.items == l.items[1..]
    ensures r.Ok? ==> r.value.1.size == l.size - 1
    ensures r.Ok? ==> r.value.1.sortedAscending == l.sortedAscending
  {
    if l.items == [] then
      Err(OutOfRange("List is empty"))
    else
      var value := Front(l).value;
      var rest := l.items[1..];
      var tail := if rest == [] then None else l.tail;
      SuffixNonDecreasing(l.items, 1);
      Ok((value, List(rest, l.size - 1, tail, l.sortedAscending)))
  }

  // ---------------------------------------------------------------------
  // Reverse

  /**
   The loop of `reverse`. `current` is the unvisited part of the chain,
   `previous` the already reversed part (whose head held `lastValue`), and
   `foundUnsortedPair` records whether some visited node held a value
   strictly above the one before it.
   */
  function ReverseWalk(current: seq<int>, previous: seq<int>, lastValue: int, foundUnsortedPair: bool): (r: (seq<int>, bool))
    requires previous != [] ==> lastValue == previous[0]
    ensures r.0 == Reverse(current) + previous
    ensures r.1 == (foundUnsortedPair || !NonIncreasing(if previous == [] then current else [lastValue] + current))
    decreases |current|
  {
    if current == [] then
      (previous, foundUnsortedPair)
    else
      var v := current[0];
      var found := if previous != [] && !foundUnsortedPair then lastValue < v else foundUnsortedPair;
      assert current == [v] + current[1..];
      ConsNonIncreasing(lastValue, current);
      ReverseWalk(current[1..], [v] + previous, v, found)
  }

  /**
   `reverse`: a list of at most one node is returned untouched, flag
   included. Otherwise the chain is reversed, the old head becomes the tail,
   and the flag is raised exactly when the original chain was non-increasing.
   */
  function ReverseList(l: List): (r: List)
    requires Valid(l)
    ensures Valid(r)
    ensures r.items == Reverse(l.items)
    ensures r.size == l.size
    ensures |l.items| <= 1 ==> r == l
    ensures |l.items| >= 2 ==> r.sortedAscending == NonIncreasing(l.items)
  {
    if l.size <= 1 then
      ReverseIndex(l.items);
      l
    else
      var w := ReverseWalk(l.items, [], 0, false);
      ReverseIndex(l.items);
      ReverseOrder(l.items);
      List(w.0, l.size, Some(l.items[0]), !w.1)
  }

  // ---------------------------------------------------------------------
  // Ordered insertion and sorting

  /**
   The scan of `insert_sorted`: starting from node `i`, whose value is below
   `v`, advance while the next node is also below `v`. Returns the index of
   the node the new one goes in front of (`|s|` for the end of the chain).
   */
  function InsertionIndex(s: seq<int>, i: nat, v: int): (k: nat)
    requires i < |s| && s[i] < v
    ensures i < k <= |s|
    ensures forall j | i <= j < k :: s[j] < v
    ensures k < |s| ==> v <= s[k]
    decreases |s| - i
  {
    if i + 1 < |s| && s[i + 1] < v then InsertionIndex(s, i + 1, v) else i + 1
  }

  /**
   `insert_sorted`: throws `logic_error` and changes nothing when the flag is
   down. Otherwise `v` goes immediately before the first value that is at
   least `v` (at the end, moving the tail handle, when there is none), and
   the list stays sorted with its flag up.
   */
  function InsertSorted(l: List, v: int): (r: Result<List>)
    requires Valid(l)
    ensures r.Err? <==> !l.sortedAscending
    ensures r.Err? ==> r.error == LogicError("List is not sorted")
    ensures r.Ok? ==> Valid(r.value) && r.value.sortedAscending
    ensures r.Ok? ==> r.value.items == Insert(l.items, v)
    ensures r.Ok? ==> r.value.size == l.size + 1
    ensures r.Ok? ==> multiset(r.value.items) == multiset(l.items) + multiset{v}
  {
    InsertMultiset(l.items, v);
    if !l.sortedAscending then
      Err(LogicError("List is not sorted"))
    else if l.items == [] || l.items[0] >= v then
      Ok(PushFront(l, v))
    else
      var k := InsertionIndex(l.items, 0, v);
      var items := l.items[..k] + [v] + l.items[k..];
      var tail := if k == |l.items| then Some(v) else l.tail;
      InsertAt(l.items, v, k);
      InsertKeepsOrder(l.items, v);
      Ok(List(items, l.size + 1, tail, l.sortedAscending))
  }

  /**
   The loop of `sort`: insert every value of the old chain, head first, into
   the rebuilt list with `insert_sorted`. The rebuilt list starts cleared,
   so its flag is up and no insertion can throw.
   */
  function InsertAll(acc: List, rest: seq<int>): (r: List)
    requires Valid(acc) && acc.sortedAscending
    ensures Valid(r) && r.sortedAscending
    ensures multiset(r.items) == multiset(acc.items) + multiset(rest)
    ensures r.size == acc.size + |rest|
    decreases |rest|
  {
    if rest == [] then
      acc
    else
      assert rest == [rest[0]] + rest[1..];
      InsertAll(InsertSorted(acc, rest[0]).value, rest[1..])
  }

  /**
   `sort`: a no-op when the flag is up; otherwise an insertion sort. Either
   way the result is a sorted permutation of the chain with the flag up.
   */
  function Sort(l: List): (r: List)
    requires Valid(l)
    ensures Valid(r) && r.sortedAscending
    ensures NonDecreasing(r.items)
    ensures multiset(r.items) == multiset(l.items)
    ensures r.size == l.size
    ensures l.sortedAscending ==> r == l
  {
    if l.sortedAscending then l else InsertAll(Clear(l), l.items)
  }

  // ---------------------------------------------------------------------
  // unique

  /**
   The loop of `unique` on a sorted chain: `current` is the node being kept
   and `next` the chain after it. A successor equal to `current` is unlinked
   and counted; otherwise the walk moves on. Returns the surviving chain from
   `current` on, the number of unlinked nodes and the value of the node the
   walk ends on, which becomes the tail.
   */
  function DedupWalk(current: int, next: seq<int>): (r: (seq<int>, nat, int))
    ensures r.0 != [] && r.0[0] == current && r.2 == Last(r.0)
    ensures |r.0| + r.1 == |next| + 1
    ensures forall x :: x in r.0 <==> x == current || x in next
    ensures NonDecreasing([current] + next) ==> StrictlyIncreasing(r.0)
    decreases |next|
  {
    if next == [] then
      ([current], 0, current)
    else if current == next[0] then
      var w := DedupWalk(current, next[1..]);
      assert forall x :: x in next <==> x == next[0] || x in next[1..];
      ConsNonDecreasing(current, next);
      ConsNonDecreasing(current, next[1..]);
      (w.0, w.1 + 1, w.2)
    else
      var w := DedupWalk(next[0], next[1..]);
      assert forall x :: x in next <==> x == next[0] || x in next[1..];
      ConsNonDecreasing(current, next);
      ConsStrictlyIncreasing(current, w.0);
      ([current] + w.0, w.1, w.2)
  }

  /**
   `unique`: a list of at most one node is returned untouched. Otherwise the
   list is sorted and adjacent duplicates are unlinked, leaving a strictly
   increasing chain over the same set of values, no longer than before, with
   the tail handle on the last surviving node.
   */
  function Unique(l: List): (r: List)
    requires Valid(l)
    ensures Valid(r)
    ensures l.size <= 1 ==> r == l
    ensures l.size > 1 ==> r.sortedAscending && StrictlyIncreasing(r.items)
    ensures forall x :: x in r.items <==> x in l.items
    ensures r.size <= l.size
  {
    if l.size <= 1 then
      l
    else
      var sorted := Sort(l);
      var w := DedupWalk(sorted.items[0], sorted.items[1..]);
      assert sorted.items == [sorted.items[0]] + sorted.items[1..];
      assert forall x :: x in sorted.items <==> x in l.items by {
        assert forall x :: x in sorted.items <==> x in multiset(sorted.items);
        assert forall x :: x in l.items <==> x in multiset(l.items);
      }
      StrictlyIncreasingIsNonDecreasing(w.0);
      List(w.0, sorted.size - w.1, Some(w.2), sorted.sortedAscending)
  }

  lemma StrictlyIncreasingIsNonDecreasing(s: seq<int>)
    requires StrictlyIncreasing(s)
    ensures NonDecreasing(s)
  {
  }

  // ---------------------------------------------------------------------
  // Filtering

  /**
   The first loop of `keep_if`: unlink rejected nodes from the head,
   decrementing the count. Returns the remaining chain and count.
   */
  function TrimHead(items: seq<int>, size: int, p: int -> bool): (r: (seq<int>, int))
    ensures |r.0| <= |items| && r.0 == items[|items| - |r.0|..]
    ensures r.0 == [] || p(r.0[0])
    ensures Filter(r.0, p) == Filter(items, p)
    ensures r.1 == size - (|items| - |r.0|)
    decreases |items|
  {
    if items != [] && !p(items[0]) then TrimHead(items[1..], size - 1, p) else (items, size)
  }

  /**
   The second loop of `keep_if`: `previous` is the last kept value and
   `current` the chain still to visit. A rejected node is unlinked and
   counted; a kept one is compared with `previous` to update the flag.
   Returns the kept values, the number unlinked, the last kept value (the
   new tail) and the flag.
   */
  function KeepWalk(previous: int, current: seq<int>, p: int -> bool, sorted: bool): (r: (seq<int>, nat, int, bool))
    ensures r.0 == Filter(current, p)
    ensures |r.0| + r.1 == |current|
    ensures r.2 == if r.0 == [] then previous else Last(r.0)
    ensures r.3 == (sorted && NonDecreasing([previous] + r.0))
    decreases |current|
  {
    if current == [] then
      ([], 0, previous, sorted)
    else if !p(current[0]) then
      var w := KeepWalk(previous, current[1..], p, sorted);
      (w.0, w.1 + 1, w.2, w.3)
    else
      var w := KeepWalk(current[0], current[1..], p, sorted && previous <= current[0]);
      ConsNonDecreasing(previous, [current[0]] + w.0);
      ([current[0]] + w.0, w.1, w.2, w.3)
  }

  /**
   `keep_if`: exactly the values satisfying `p` remain, in their original
   order; the count and the tail handle follow the kept nodes, and the flag
   is recomputed from the kept values alone, so it is up exactly when they
   are non-decreasing.
   */
  function KeepIf(l: List, p: int -> bool): (r: List)
    requires Valid(l)
    ensures Valid(r)
    ensures r.items == Filter(l.items, p)
    ensures r.sortedAscending == NonDecreasing(r.items)
  {
    var trimmed := TrimHead(l.items, l.size, p);
    KeepAfterTrim(l, trimmed.0, trimmed.1, p)
  }

  /**
   The rest of `keep_if` once the head run of rejected nodes is gone:
   `rest` is the remaining chain (a suffix of the list, starting with a kept
   value if any) and `size` the decremented count.
   */
  function KeepAfterTrim(l: List, rest: seq<int>, size: int, p: int -> bool): (r: List)
    requires Valid(l)
    requires |rest| <= |l.items| && rest == l.items[|l.items| - |rest|..]
    requires rest == [] || p(rest[0])
    requires size == |rest|
    ensures Valid(r)
    ensures r.items == Filter(rest, p)
    ensures r.sortedAscending == NonDecreasing(r.items)
  {
    if rest == [] then
      List([], size, None, true)
    else if size == 1 then
      SingleSurvivor(l.items, rest, p);
      List(rest, size, l.tail, true)
    else
      var w := KeepWalk(rest[0], rest[1..], p, true);
      FilterCons(rest, p);
      List([rest[0]] + w.0, size - w.1, Some(w.2), w.3)
  }

  /** A one-node suffix whose value is kept is the last node, and filtering keeps it. */
  lemma SingleSurvivor(items: seq<int>, rest: seq<int>, p: int -> bool)
    requires |rest| == 1 && |rest| <= |items| && rest == items[|items| - 1..]
    requires p(rest[0])
    ensures rest == [Last(items)]
    ensures Filter(rest, p) == rest
    ensures NonDecreasing(rest)
  {
    assert Filter(rest, p) == [rest[0]] + Filter(rest[1..], p);
  }

  lemma FilterCons(s: seq<int>, p: int -> bool)
    requires s != [] && p(s[0])
    ensures s == [s[0]] + s[1..]
    ensures Filter(s, p) == [s[0]] + Filter(s[1..], p)
  {
  }

  /** The predicate `remove_if` hands to `keep_if`. */
  function Negate(p: int -> bool): int -> bool {
    x => !p(x)
  }

  /** The predicate `remove` and `count(value)` test with. */
  function EqualTo(v: int): int -> bool {
    x => x == v
  }

  /**
   `remove_if`: `keep_if` with the predicate negated. The values not
   satisfying `p` remain in their original order: every occurrence of a value
   satisfying `p` goes, every other value keeps all its occurrences.
   */
  function RemoveIf(l: List, p: int -> bool): (r: List)
    requires Valid(l)
    ensures Valid(r)
    ensures r.items == Filter(l.items, Negate(p))
    ensures forall x :: multiset(r.items)[x] == if p(x) then 0 else multiset(l.items)[x]
    ensures r.sortedAscending == NonDecreasing(r.items)
  {
    FilterMultiset(l.items, Negate(p));
    KeepIf(l, Negate(p))
  }

  /**
   `remove`: `remove_if` with an equality test. The values other than `v`
   remain in their original order; no occurrence of `v` is left and every
   other value keeps all its occurrences.
   */
  function Remove(l: List, v: int): (r: List)
    requires Valid(l)
    ensures Valid(r)
    ensures r.items == Filter(l.items, Negate(EqualTo(v)))
    ensures v !in r.items
    ensures forall x | x != v :: multiset(r.items)[x] == multiset(l.items)[x]
    ensures r.sortedAscending == NonDecreasing(r.items)
  {
    var r := RemoveIf(l, EqualTo(v));
    assert multiset(r.items)[v] == 0;
    r
  }

  // ---------------------------------------------------------------------
  // transform

  /**
   The loop of `transform`: every node's value is rewritten in place, and the
   flag is lowered on the first rewritten value below the one before it.
   `previous` is the rewritten value of the node before `current`.
   */
  function TransformWalk(previous: int, current: seq<int>, f: int -> int, sorted: bool): (r: (seq<int>, bool))
    ensures r.0 == Map(current, f)
    ensures r.1 == (sorted && NonDecreasing([previous] + r.0))
    decreases |current|
  {
    if current == [] then
      ([], sorted)
    else
      var v := f(current[0]);
      var s := if previous > v && sorted then false else sorted;
      var w := TransformWalk(v, current[1..], f, s);
      ConsNonDecreasing(previous, [v] + w.0);
      ([v] + w.0, w.1)
  }

  /**
   `transform`: maps every value with `f`, keeping the count and the node the
   tail handle designates (whose value is rewritten too); the flag is up
   exactly when the mapped chain is non-decreasing.
   */
  function Transform(l: List, f: int -> int): (r: List)
    requires Valid(l)
    ensures Valid(r)
    ensures r.items == Map(l.items, f)
    ensures r.size == l.size
    ensures r.sortedAscending == NonDecreasing(r.items)
  {
    MapIndex(l.items, f);
    var tail := if l.tail == None then None else Some(f(l.tail.value));
    if l.items == [] then
      List([], l.size, tail, true)
    else
      var v := f(l.items[0]);
      var w := TransformWalk(v, l.items[1..], f, true);
      assert Map(l.items, f) == [v] + w.0;
      List([v] + w.0, l.size, tail, w.1)
  }

  // ---------------------------------------------------------------------
  // merge

  /**
   One `push_back` of `v` followed by pushes giving `r`: the flag of `r` is
   as if all the values had been checked at once against the original list.
   The conjunctive update of `push_back` loses nothing a later check catches.
   */
  lemma PushBackStep(acc: List, v: int, more: seq<int>, r: List)
    requires Valid(acc)
    requires r.items == PushBack(acc, v).items + more
    requires r.size == PushBack(acc, v).size + |more|
    requires r.sortedAscending == (PushBack(acc, v).sortedAscending && NonDecreasing(r.items))
    ensures r.items == acc.items + ([v] + more)
    ensures r.size == acc.size + |[v] + more|
    ensures r.sortedAscending == (acc.sortedAscending && NonDecreasing(r.items))
  {
    var s := r.items;
    var k := |acc.items| + 1;
    assert s[..k] == acc.items + [v];
    if NonDecreasing(s) {
      forall i, j | 0 <= i < j < k ensures s[..k][i] <= s[..k][j] {
        assert s[i] <= s[j];
      }
    }
  }

  /** A run of `push_back` calls, one per value of `rest`, in order. */
  function PushAll(acc: List, rest: seq<int>): (r: List)
    requires Valid(acc)
    ensures Valid(r)
    ensures r.items == acc.items + rest
    ensures r.size == acc.size + |rest|
    ensures r.sortedAscending == (acc.sortedAscending && NonDecreasing(r.items))
    decreases |rest|
  {
    if rest == [] then
      acc
    else
      var r := PushAll(PushBack(acc, rest[0]), rest[1..]);
      PushBackStep(acc, rest[0], rest[1..], r);
      assert rest == [rest[0]] + rest[1..];
      r
  }

  /**
   The loops of `_merge_sorted` on two non-empty lists: while both chains
   have nodes, push back the head of `current` when it is strictly below the
   head of `otherCurrent` and the head of `otherCurrent` otherwise; then
   push back what is left of `current`, then what is left of `otherCurrent`.
   */
  function MergeWalk(acc: List, current: seq<int>, otherCurrent: seq<int>): (r: List)
    requires Valid(acc)
    ensures Valid(r)
    ensures r.items == acc.items + Seqs.Merge(current, otherCurrent)
    ensures r.size == acc.size + |current| + |otherCurrent|
    ensures r.sortedAscending == (acc.sortedAscending && NonDecreasing(r.items))
    decreases |current| + |otherCurrent|
  {
    if current != [] && otherCurrent != [] then
      if current[0] < otherCurrent[0] then
        var r := MergeWalk(PushBack(acc, current[0]), current[1..], otherCurrent);
        PushBackStep(acc, current[0], Seqs.Merge(current[1..], otherCurrent), r);
        assert |current| == |current[1..]| + 1;
        r
      else
        var r := MergeWalk(PushBack(acc, otherCurrent[0]), current, otherCurrent[1..]);
        PushBackStep(acc, otherCurrent[0], Seqs.Merge(current, otherCurrent[1..]), r);
        assert |otherCurrent| == |otherCurrent[1..]| + 1;
        r
    else
      PushAll(PushAll(acc, current), otherCurrent)
  }

  /**
   `_merge_sorted`, called only when both flags are up. An empty `other`
   changes nothing; an empty `this` adopts `other`'s chain and flag;
   otherwise `this` is cleared and rebuilt by the two-pointer merge. `other`
   is cleared in the last two cases. Returns the pair (this, other).
   */
  function MergeSorted(l: List, other: List): (r: (List, List))
    requires Valid(l) && Valid(other)
    requires l.sortedAscending && other.sortedAscending
    ensures Valid(r.0) && Valid(r.1)
    ensures r.0.items == Seqs.Merge(l.items, other.items)
    ensures r.0.sortedAscending
    ensures r.1.items == [] && r.1.sortedAscending
    ensures other.items == [] ==> r == (l, other)
    ensures other.items != [] ==> r.1 == Clear(other)
  {
    if other.items == [] then
      (l, other)
    else if l.items == [] then
      (List(other.items, other.size, other.tail, other.sortedAscending), Clear(other))
    else
      MergeKeepsOrder(l.items, other.items);
      (MergeWalk(Clear(l), l.items, other.items), Clear(other))
  }

  /**
   `merge`: when both flags are up, the two-pointer merge (ties take the
   value of `other` first), sorted with the flag up. Otherwise, when `other`
   is non-empty, its chain is spliced after this one and the flag is
   lowered; when `other` is empty nothing changes. In every case the counts
   add up and `other` ends empty. Returns the pair (this, other).
   */
  function Merge(l: List, other: List): (r: (List, List))
    requires Valid(l) && Valid(other)
    ensures Valid(r.0) && Valid(r.1)
    ensures r.1.items == []
    ensures r.0.size == l.size + other.size
    ensures multiset(r.0.items) == multiset(l.items) + multiset(other.items)
    ensures l.sortedAscending && other.sortedAscending ==>
              r.0.items == Seqs.Merge(l.items, other.items) && r.0.sortedAscending && r.1.sortedAscending
    ensures !(l.sortedAscending && other.sortedAscending) && other.items != [] ==>
              r.0.items == l.items + other.items && !r.0.sortedAscending && r.1 == Clear(other)
    ensures !(l.sortedAscending && other.sortedAscending) && other.items == [] ==> r == (l, other)
  {
    MergeMultiset(l.items, other.items);
    if l.sortedAscending && other.sortedAscending then
      MergeSorted(l, other)
    else if other.items == [] then
      (l, other)
    else
      (List(l.items + other.items, l.size + other.size, other.tail, false), Clear(other))
  }

  /**
   `merge` with `other` the list itself (`a.merge(a)`). An empty list
   returns at once. With the flag up, `_merge_sorted` rebuilds the list from
   the two-pointer merge of its chain with itself and then clears `other`,
   which is the list. With the flag down, the splice links the tail to the
   head, closing the chain into a cycle, and doubles the count; then clearing
   `other` clears the list. Either way a non-empty list ends empty with its
   flag up and its values dropped.
   */
  function MergeIntoItself(l: List): (r: List)
    requires Valid(l)
    ensures Valid(r)
    ensures l.items == [] ==> r == l
    ensures l.items != [] ==> r.items == [] && r.size == 0 && r.tail == None && r.sortedAscending
  {
    if l.items == [] then
      l
    else if l.sortedAscending then
      var rebuilt := MergeWalk(Clear(l), l.items, l.items);
      Clear(rebuilt)
    else
      // the cyclic chain the splice builds has no sequence model; only the
      // bookkeeping it leaves before the final `clear` is kept
      var spliced := List(l.items, l.size + l.size, l.tail, false);
      Clear(spliced)
  }

  // ---------------------------------------------------------------------
  // Traversal and scans

  /**
   The forward iterator. A node pointer is modelled by the chain that starts
   at that node; the null pointer of `end()` by the empty chain.
   */
  datatype Iterator = Iterator(current: seq<int>)

  /** `begin()`: on the head node, and equal to `end()` exactly for an empty list. */
  function Begin(l: List): (r: Iterator)
    requires Valid(l)
    ensures r == End() <==> l.items == []
    ensures r.current != [] ==> Deref(r) == l.items[0]
  {
    Iterator(l.items)
  }

  /** `end()`: the null pointer past the last node. */
  function End(): Iterator {
    Iterator([])
  }

  /** `operator*`: the value of the node the iterator is on. */
  function Deref(it: Iterator): int
    requires it.current != []
  {
    it.current[0]
  }

  /** `operator++`: step to the next node. */
  function Next(it: Iterator): Iterator
    requires it.current != []
  {
    Iterator(it.current[1..])
  }

  /** `n` steps of `operator++`. */
  function Advance(it: Iterator, n: nat): Iterator
    requires n <= |it.current|
    decreases n
  {
    if n == 0 then it else Advance(Next(it), n - 1)
  }

  lemma {:induction false} AdvanceSuffix(it: Iterator, n: nat)
    requires n <= |it.current|
    ensures Advance(it, n).current == it.current[n..]
    decreases n
  {
    if n > 0 {
      AdvanceSuffix(Next(it), n - 1);
    }
  }

  /**
   Iteration yields the values head to tail: after `n` steps from `begin()`
   the iterator reads the `n`-th value, and it equals `end()` exactly after
   as many steps as the list has nodes.
   */
  lemma TraversalOrder(l: List, n: nat)
    requires Valid(l)
    requires n <= |l.items|
    ensures n < |l.items| ==> Advance(Begin(l), n).current != [] && Deref(Advance(Begin(l), n)) == l.items[n]
    ensures Advance(Begin(l), n) == End() <==> n == |l.items|
  {
    AdvanceSuffix(Begin(l), n);
  }

  /** `contains`: a `std::find` from `begin()` to `end()`. */
  method Contains(l: List, v: int) returns (found: bool)
    requires Valid(l)
    ensures found <==> v in l.items
  {
    var it := Begin(l);
    while it != End() && Deref(it) != v
      invariant v in l.items <==> v in it.current
      decreases |it.current|
    {
      it := Next(it);
    }
    found := it != End();
  }

  /** `count_if`: the number of values satisfying `p`, by a range-for over the list. */
  method CountIf(l: List, p: int -> bool) returns (count: int)
    requires Valid(l)
    ensures count == |Filter(l.items, p)|
  {
    count := 0;
    var it := Begin(l);
    while it != End()
      invariant count + |Filter(it.current, p)| == |Filter(l.items, p)|
      decreases |it.current|
    {
      if p(Deref(it)) {
        count := count + 1;
      }
      it := Next(it);
    }
  }

  /** `count(value)`: `count_if` with an equality test, i.e. the multiplicity of `v`. */
  method Count(l: List, v: int) returns (count: int)
    requires Valid(l)
    ensures count == multiset(l.items)[v]
  {
    count := CountIf(l, EqualTo(v));
    FilterEqualsCount(l.items, EqualTo(v), v);
  }
}
