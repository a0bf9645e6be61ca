/** The list's bidirectional iterator: an index-based cursor whose only state
    is `position`, kept within `0..size`, reading elements through the list's
    `get`. */
module IndexedListIterators {
  import opened JavaLang
  import opened ImmutableIntLists

  /** An iterator over `list` about to return element `position`. The size
      the iterator fixes at construction is the list's size, which never
      changes. */
  datatype ListIter = ListIter(list: IntList, position: int)
  {
    /** The class invariant established by the constructor. */
    predicate Valid()
    {
      0 <= position <= Size(list)
    }
  }

  /** What `next()` or `previous()` returns, with the iterator it leaves. */
  datatype Step = Step(element: Int32, after: ListIter)

  /** The constructor: `checkPositionIndex(position, size)` rejects a
      position outside `0..size` with an `IndexOutOfBoundsException`. */
  function NewIterator(l: IntList, position: int): (r: Result<ListIter>)
    ensures r.Ok? <==> 0 <= position <= Size(l)
    ensures r.Err? ==> r.error == IndexOutOfBounds
    ensures r.Ok? ==> r.value.Valid() && r.value.list == l && r.value.position == position
  {
    if 0 <= position <= Size(l) then Ok(ListIter(l, position))
    else Err(IndexOutOfBounds)
  }

  /** `listIterator(index)`, which the empty instance inherits unchanged. */
  function ListIteratorAt(l: IntList, index: int): (r: Result<ListIter>)
    ensures r.Ok? <==> 0 <= index <= Size(l)
    ensures l.Empty? ==> (r.Ok? <==> index == 0)
    ensures r.Ok? ==> r.value.Valid() && r.value.list == l && r.value.position == index
  {
    NewIterator(l, index)
  }

  /** `listIterator()` and `iterator()`: an iterator at the start. The empty
      instance returns the empty list's iterator instead, which behaves as
      one at position 0 of zero elements. */
  function ListIterator(l: IntList): (r: ListIter)
    ensures r.Valid() && r.position == 0 && r.list.Elements() == l.Elements()
  {
    match l
    case Empty => ListIter(Empty, 0)
    case Backed(_) => NewIterator(l, 0).value
  }

  /** `hasNext()`. */
  predicate HasNext(it: ListIter)
  {
    it.position < Size(it.list)
  }

  /** `hasPrevious()`. */
  predicate HasPrevious(it: ListIter)
  {
    it.position > 0
  }

  /** `nextIndex()`. */
  function NextIndex(it: ListIter): int
  {
    it.position
  }

  /** `previousIndex()`. */
  function PreviousIndex(it: ListIter): int
  {
    it.position - 1
  }

  /** `next()`: the element at the cursor, which then moves forward; a
      `NoSuchElementException` at the end. */
  function Next(it: ListIter): (r: Result<Step>)
    requires it.Valid()
    ensures r.Ok? <==> it.position < Size(it.list)
    ensures r.Err? ==> r.error == NoSuchElement
    ensures r.Ok? ==> r.value.element == it.list.Elements()[it.position]
    ensures r.Ok? ==> r.value.after.Valid() && r.value.after.list == it.list
    ensures r.Ok? ==> r.value.after.position == it.position + 1
  {
    if !HasNext(it) then Err(NoSuchElement)
    else Ok(Step(GetInt(it.list, it.position).value, it.(position := it.position + 1)))
  }

  /** `previous()`: the cursor moves back, then the element there is
      returned; a `NoSuchElementException` at the start. */
  function Previous(it: ListIter): (r: Result<Step>)
    requires it.Valid()
    ensures r.Ok? <==> it.position > 0
    ensures r.Err? ==> r.error == NoSuchElement
    ensures r.Ok? ==> r.value.element == it.list.Elements()[it.position - 1]
    ensures r.Ok? ==> r.value.after.Valid() && r.value.after.list == it.list
    ensures r.Ok? ==> r.value.after.position == it.position - 1
  {
    if !HasPrevious(it) then Err(NoSuchElement)
    else Ok(Step(GetInt(it.list, it.position - 1).value, it.(position := it.position - 1)))
  }

  /** `hasNext()` and `hasPrevious()` say exactly whether `next()` and
      `previous()` succeed, and the two indices bracket the cursor. */
  lemma QueriesMatchMoves(it: ListIter)
    requires it.Valid()
    ensures HasNext(it) <==> Next(it).Ok?
    ensures HasPrevious(it) <==> Previous(it).Ok?
    ensures NextIndex(it) == it.position && PreviousIndex(it) == NextIndex(it) - 1
    ensures HasNext(it) ==> PreviousIndex(Next(it).value.after) == NextIndex(it)
    ensures HasPrevious(it) ==> NextIndex(Previous(it).value.after) == PreviousIndex(it)
  {
  }

  /** `next()` followed by `previous()` returns the same element and
      restores the iterator. */
  lemma NextThenPrevious(it: ListIter)
    requires it.Valid() && HasNext(it)
    ensures Previous(Next(it).value.after) == Ok(Step(Next(it).value.element, it))
  {
  }

  /** `previous()` followed by `next()` returns the same element and
      restores the iterator. */
  lemma PreviousThenNext(it: ListIter)
    requires it.Valid() && HasPrevious(it)
    ensures Next(Previous(it).value.after) == Ok(Step(Previous(it).value.element, it))
  {
  }

  /** Calling `next()` while `hasNext()` holds yields the elements from the
      cursor to the end, in order. */
  method CollectForward(it: ListIter) returns (xs: seq<Int32>)
    requires it.Valid()
    ensures xs == it.list.Elements()[it.position..]
  {
    var cur := it;
    xs := [];
    while HasNext(cur)
      invariant cur.Valid() && cur.list == it.list
      invariant it.position <= cur.position
      invariant xs == it.list.Elements()[it.position..cur.position]
      decreases Size(cur.list) - cur.position
    {
      var step := Next(cur).value;
      xs := xs + [step.element];
      cur := step.after;
    }
  }

  /** Calling `previous()` while `hasPrevious()` holds yields the elements
      before the cursor, nearest first. */
  function CollectBackward(it: ListIter): (xs: seq<Int32>)
    requires it.Valid()
    ensures |xs| == it.position
    ensures forall k :: 0 <= k < |xs| ==> xs[k] == it.list.Elements()[it.position - 1 - k]
    decreases it.position
  {
    if !HasPrevious(it) then []
    else
      var step := Previous(it).value;
      [step.element] + CollectBackward(step.after)
  }

  /** A full forward pass over `iterator()` visits exactly the list. */
  method IterateAll(l: IntList) returns (xs: seq<Int32>)
    ensures xs == l.Elements()
  {
    xs := CollectForward(ListIterator(l));
    assert l.Elements()[0..] == l.Elements();
  }
}
