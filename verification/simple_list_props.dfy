/**
 Properties relating several `SimpleList` operations, and concrete scenarios
 built from the operations, stated over the model.
 */
module SimpleListProps {
  import opened Seqs
  import opened Outcomes
  import opened SimpleList

  /** After a push the pushed value is at the end it was pushed to, and the other end is unchanged. */
  lemma PushThenPeek(l: List, v: int)
    requires Valid(l)
    ensures Front(PushFront(l, v)) == Ok(v)
    ensures Back(PushBack(l, v)) == Ok(v)
    ensures l.items != [] ==> Back(PushFront(l, v)) == Back(l) && Front(PushBack(l, v)) == Front(l)
  {
  }

  /** `pop_front` undoes `push_front`, except that the flag keeps what the push did to it. */
  lemma PopUndoesPush(l: List, v: int)
    requires Valid(l)
    ensures PopFront(PushFront(l, v)).Ok?
    ensures PopFront(PushFront(l, v)).value.0 == v
    ensures PopFront(PushFront(l, v)).value.1.items == l.items
    ensures PopFront(PushFront(l, v)).value.1.size == l.size
  {
    assert ([v] + l.items)[1..] == l.items;
  }

  /** `sort` is idempotent: sorting a sorted list changes nothing. */
  lemma SortIdempotent(l: List)
    requires Valid(l)
    ensures Sort(Sort(l)) == Sort(l)
  {
  }

  /**
   Reversing twice restores the order; for two or more nodes the flag then
   says exactly whether the original chain was non-decreasing.
   */
  lemma ReverseTwice(l: List)
    requires Valid(l)
    ensures ReverseList(ReverseList(l)).items == l.items
    ensures |l.items| >= 2 ==> ReverseList(ReverseList(l)).sortedAscending == NonDecreasing(l.items)
  {
    ReverseInvolutive(l.items);
    ReverseIndex(l.items);
    ReverseOrder(Reverse(l.items));
  }

  /** After `unique`, no two adjacent values are equal. */
  lemma UniqueHasNoAdjacentDuplicates(l: List)
    requires Valid(l) && l.size > 1
    ensures forall i | 0 <= i < |Unique(l).items| - 1 :: Unique(l).items[i] != Unique(l).items[i + 1]
  {
    var u := Unique(l).items;
    forall i | 0 <= i < |u| - 1 ensures u[i] != u[i + 1] {
      assert u[i] < u[i + 1];
    }
  }

  /** `keep_if(p)` and `remove_if(p)` split the values of a list between them. */
  lemma KeepAndRemovePartition(l: List, p: int -> bool)
    requires Valid(l)
    ensures multiset(KeepIf(l, p).items) + multiset(RemoveIf(l, p).items) == multiset(l.items)
  {
    var kept := KeepIf(l, p).items;
    var removed := RemoveIf(l, p).items;
    FilterMultiset(l.items, p);
    MultisetSplit(l.items, kept, removed, p);
  }

  lemma MultisetSplit(s: seq<int>, kept: seq<int>, removed: seq<int>, p: int -> bool)
    requires forall x :: multiset(kept)[x] == if p(x) then multiset(s)[x] else 0
    requires forall x :: multiset(removed)[x] == if p(x) then 0 else multiset(s)[x]
    ensures multiset(kept) + multiset(removed) == multiset(s)
  {
    assert forall x :: (multiset(kept) + multiset(removed))[x] == multiset(s)[x];
  }

  /** Merging two lists flagged sorted and merging them the other way round give the same values. */
  lemma SortedMergeSameValues(a: List, b: List)
    requires Valid(a) && Valid(b) && a.sortedAscending && b.sortedAscending
    ensures multiset(SimpleList.Merge(a, b).0.items) == multiset(SimpleList.Merge(b, a).0.items)
    ensures NonDecreasing(SimpleList.Merge(a, b).0.items) && NonDecreasing(SimpleList.Merge(b, a).0.items)
  {
    var ab := SimpleList.Merge(a, b).0;
    var ba := SimpleList.Merge(b, a).0;
    assert multiset(ab.items) == multiset(a.items) + multiset(b.items);
    assert multiset(ba.items) == multiset(b.items) + multiset(a.items);
    assert ab.sortedAscending && ba.sortedAscending;
  }

  /**
   Merging a list into itself is not merging two equal lists: two distinct
   lists holding the same values merge into twice as many, while `a.merge(a)`
   leaves `a` empty.
   */
  lemma MergeIntoItselfDropsValues(l: List)
    requires Valid(l) && l.items != []
    ensures |SimpleList.Merge(l, l).0.items| == 2 * |l.items|
    ensures MergeIntoItself(l).items == []
  {
  }

  // ---------------------------------------------------------------------
  // Scenarios

  /** [2, 1] built with `push_front`: the flag goes down on the second push. */
  function TwoOne(): (r: List)
    ensures Valid(r) && r.items == [2, 1] && !r.sortedAscending
  {
    PushFront(PushFront(Empty(), 1), 2)
  }

  /**
   Popping never raises the flag: [2, 1] popped to one node and then to none
   keeps its flag down, so an empty list can carry a lowered flag.
   */
  lemma PopFrontKeepsFlagDown()
    ensures var once := PopFront(TwoOne());
            once.Ok? && once.value.1.items == [1] && !once.value.1.sortedAscending
    ensures var once := PopFront(TwoOne()).value.1;
            var twice := PopFront(once);
            twice.Ok? && twice.value.1.items == [] && twice.value.1.size == 0 && !twice.value.1.sortedAscending
  {
  }

  /** `insert_sorted` on a list flagged unsorted throws `logic_error` and leaves it alone. */
  lemma InsertSortedRejectsUnsorted(v: int)
    ensures InsertSorted(TwoOne(), v) == Err(LogicError("List is not sorted"))
  {
  }

  /** [3, 4, 5] built with `insert_sorted` of 4, 3 and 5. */
  function ThreeFourFive(): (r: List)
    ensures Valid(r) && r.items == [3, 4, 5] && r.sortedAscending
  {
    var a := InsertSorted(Empty(), 4).value;
    var b := InsertSorted(a, 3).value;
    assert b.items == [3, 4];
    InsertSorted(b, 5).value
  }

  /** [1, 2] built with `insert_sorted` of 2 and 1. */
  function OneTwo(): (r: List)
    ensures Valid(r) && r.items == [1, 2] && r.sortedAscending
  {
    InsertSorted(InsertSorted(Empty(), 2).value, 1).value
  }

  /** Both lists flagged sorted: the two-pointer merge gives [1, 2, 3, 4, 5], flagged sorted. */
  lemma MergeSortedScenario(a: List, b: List)
    requires Valid(a) && a.items == [1, 2] && a.sortedAscending  // as OneTwo() builds it
    requires Valid(b) && b.items == [3, 4, 5] && b.sortedAscending  // as ThreeFourFive() builds it
    ensures SimpleList.Merge(a, b).0.items == [1, 2, 3, 4, 5]
    ensures SimpleList.Merge(a, b).0.sortedAscending
    ensures SimpleList.Merge(a, b).1.items == []
  {
    var m := SimpleList.Merge(a, b);
    assert m.0.items == Seqs.Merge(a.items, b.items);
    MergeSeparated(a.items, b.items);
  }

  /** One list flagged unsorted: the splice gives [2, 1, 3, 4, 5] with the flag down. */
  lemma MergeSpliceScenario(a: List, b: List)
    requires Valid(a) && a.items == [2, 1] && !a.sortedAscending  // as TwoOne() builds it
    requires Valid(b) && b.items == [3, 4, 5] && b.sortedAscending  // as ThreeFourFive() builds it
    ensures SimpleList.Merge(a, b).0.items == [2, 1, 3, 4, 5]
    ensures SimpleList.Merge(a, b).0.size == 5
    ensures !SimpleList.Merge(a, b).0.sortedAscending
    ensures SimpleList.Merge(a, b).1.items == []
  {
  }

  /** Ties in the two-pointer merge take the value of `other` first. */
  lemma MergeTieTakesOtherFirst(x: int, y: int)
    ensures Seqs.Merge([x], [x, y]) == [x] + Seqs.Merge([x], [y])
  {
  }

  /** `remove_if(x == 2)` on [3, 2, 1] built with `push_front` leaves [3, 1]. */
  lemma RemoveIfScenario()
    ensures RemoveIf(PushFront(TwoOne(), 3), x => x == 2).items == [3, 1]
    ensures RemoveIf(PushFront(TwoOne(), 3), x => x == 2).size == 2
  {
    var l := PushFront(TwoOne(), 3);
    assert l.items == [3, 2, 1];
    var keep := Negate(x => x == 2);
    assert Filter([1], keep) == [1];
    assert Filter([2, 1], keep) == [1];
    assert Filter([3, 2, 1], keep) == [3, 1];
  }
}
