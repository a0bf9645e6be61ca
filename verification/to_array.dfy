/** `toArray(T[] a)`: copying the list into a caller-supplied array, or into
    a new array of the same runtime class when the caller's is too short.
    Both the method as written (whose `Integer[]` branch runs past the end of
    the list), `ToArrayIntoAsWritten`, and the corrected method, `ToArrayInto`,
    are modelled; the intended behaviour is the corrected one. */
module ToArrays {
  import opened JavaLang
  import opened ImmutableIntLists

  /** The array the method fills: the caller's own when it can hold `size`
      elements, otherwise a new null-filled array of the same class. */
  function Target(a: RefArray, size: nat): (b: RefArray)
    ensures b.kind == a.kind
    ensures |b.elems| == if |a.elems| < size then size else |a.elems|
    ensures |a.elems| >= size ==> b == a
    ensures |a.elems| < size ==> forall k :: 0 <= k < size ==> b.elems[k] == Null
  {
    if |a.elems| < size then NewArray(a.kind, size) else a
  }

  /** The `Integer[]` loop as written: `integers[i] = ints[i]` for every slot
      `i` of the target, which reads past the end of `ints` (and throws an
      `ArrayIndexOutOfBoundsException`) when the target is longer. */
  function FillIntegersAsWritten(ints: seq<Int32>, slots: seq<Ref>, i: nat): (r: Result<seq<Ref>>)
    requires i <= |slots|
    ensures r.Ok? <==> |slots| <= |ints| || i == |slots|
    ensures r.Err? ==> r.error == ArrayIndexOutOfBounds
    ensures r.Ok? ==> |r.value| == |slots|
    ensures r.Ok? ==> forall k :: 0 <= k < i ==> r.value[k] == slots[k]
    ensures r.Ok? ==> forall k :: i <= k < |slots| ==> r.value[k] == Integer(ints[k])
    decreases |slots| - i
  {
    if i == |slots| then Ok(slots)
    else if i >= |ints| then Err(ArrayIndexOutOfBounds)
    else FillIntegersAsWritten(ints, slots[i := Integer(ints[i])], i + 1)
  }

  /** When the target is exactly as long as the list, the loop as written
      stays in bounds and fills the same slots as the bounded loop. */
  lemma FillAsWrittenInBounds(ints: seq<Int32>, slots: seq<Ref>)
    ensures |slots| == |ints| ==> FillIntegersAsWritten(ints, slots, 0) == Ok(FillIntegers(ints, slots, 0))
  {
    if |slots| == |ints| {
      var r, q := FillIntegersAsWritten(ints, slots, 0).value, FillIntegers(ints, slots, 0);
      assert r == q;
    }
  }

  /** The `Integer[]` loop bounded by the list's size, as intended. */
  function FillIntegers(ints: seq<Int32>, slots: seq<Ref>, i: nat): (r: seq<Ref>)
    requires i <= |ints| <= |slots|
    ensures |r| == |slots|
    ensures forall k :: 0 <= k < i ==> r[k] == slots[k]
    ensures forall k :: i <= k < |ints| ==> r[k] == Integer(ints[k])
    ensures forall k :: |ints| <= k < |slots| ==> r[k] == slots[k]
    decreases |ints| - i
  {
    if i == |ints| then slots
    else FillIntegers(ints, slots[i := Integer(ints[i])], i + 1)
  }

  /** `System.arraycopy(toArray(), 0, b, 0, size)`: the boxed elements go to
      the first `size` slots; an array that cannot hold an `Integer` throws
      an `ArrayStoreException` at the first element stored. */
  function ArrayCopy(ints: seq<Int32>, b: RefArray): (r: Result<seq<Ref>>)
    requires |ints| <= |b.elems|
    ensures r.Err? <==> b.kind == IncompatibleArray && |ints| > 0
    ensures r.Err? ==> r.error == ArrayStore
    ensures r.Ok? ==> |r.value| == |b.elems|
    ensures r.Ok? ==> forall k :: 0 <= k < |ints| ==> r.value[k] == Integer(ints[k])
    ensures r.Ok? ==> forall k :: |ints| <= k < |b.elems| ==> r.value[k] == b.elems[k]
  {
    if b.kind == IncompatibleArray && |ints| > 0 then Err(ArrayStore)
    else Ok(Boxed(ints) + b.elems[|ints|..])
  }

  /** The final step: the slot just after the last element is set to null
      when the array is longer than the list. */
  function TerminateWithNull(slots: seq<Ref>, size: nat): (r: seq<Ref>)
    ensures |r| == |slots|
    ensures size < |slots| ==> r[size] == Null
    ensures forall k :: 0 <= k < |slots| && k != size ==> r[k] == slots[k]
  {
    if |slots| > size then slots[size := Null] else slots
  }

  /** `toArray(T[])` of the list class, as written. */
  function BaseToArrayAsWritten(ints: seq<Int32>, a: RefArray): (r: Result<RefArray>)
    ensures r == Err(ArrayIndexOutOfBounds) <==> a.kind == IntegerArray && |a.elems| > |ints|
    ensures !(a.kind == IntegerArray && |a.elems| > |ints|) ==> r == BaseToArray(ints, a)
  {
    var size := |ints|;
    var b := Target(a, size);
    var filled :=
      if b.kind == IntegerArray then FillIntegersAsWritten(ints, b.elems, 0)
      else ArrayCopy(ints, b);
    FillAsWrittenInBounds(ints, b.elems);
    match filled
    case Err(e) => Err(e)
    case Ok(slots) => Ok(RefArray(b.kind, TerminateWithNull(slots, size)))
  }

  /** `toArray(T[])` of the list class with the `Integer[]` loop bounded by
      the list's size. */
  function BaseToArray(ints: seq<Int32>, a: RefArray): (r: Result<RefArray>)
    ensures r.Err? <==> a.kind == IncompatibleArray && |ints| > 0
    ensures r.Err? ==> r.error == ArrayStore
    ensures r.Ok? ==> r.value.kind == a.kind
    ensures r.Ok? ==> |r.value.elems| == if |a.elems| < |ints| then |ints| else |a.elems|
    ensures r.Ok? ==> forall k :: 0 <= k < |ints| ==> r.value.elems[k] == Integer(ints[k])
    ensures r.Ok? && |a.elems| > |ints| ==> r.value.elems[|ints|] == Null
    ensures r.Ok? ==> forall k :: |ints| < k < |a.elems| ==> r.value.elems[k] == a.elems[k]
  {
    var size := |ints|;
    var b := Target(a, size);
    var filled :=
      if b.kind == IntegerArray then Ok(FillIntegers(ints, b.elems, 0))
      else ArrayCopy(ints, b);
    match filled
    case Err(e) => Err(e)
    case Ok(slots) => Ok(RefArray(b.kind, TerminateWithNull(slots, size)))
  }

  /** `toArray(T[])` of the shared empty instance: the caller's array comes
      back with only its first slot, if any, set to null. */
  function EmptyToArray(a: RefArray): (r: Result<RefArray>)
    ensures r.Ok? && r.value.kind == a.kind && |r.value.elems| == |a.elems|
    ensures |a.elems| > 0 ==> r.value.elems[0] == Null
    ensures forall k :: 0 < k < |a.elems| ==> r.value.elems[k] == a.elems[k]
  {
    if |a.elems| > 0 then Ok(a.(elems := a.elems[0 := Null])) else Ok(a)
  }

  /** `toArray(T[])` on any instance, as written. */
  function ToArrayIntoAsWritten(l: IntList, a: RefArray): (r: Result<RefArray>)
    ensures r.Err? <==>
      (l.Backed? && a.kind == IntegerArray && |a.elems| > Size(l))
      || (a.kind == IncompatibleArray && Size(l) > 0)
  {
    match l
    case Backed(contents) => BaseToArrayAsWritten(contents, a)
    case Empty => EmptyToArray(a)
  }

  /** `toArray(T[])` on any instance, with the loop bound corrected: the
      contract of `Collection.toArray(T[])`. The result has length
      `max(a.length, size)` and the class of `a`, holds the elements in
      order, has null just after them when longer, and keeps the caller's
      slots beyond that. */
  function ToArrayInto(l: IntList, a: RefArray): (r: Result<RefArray>)
    ensures r.Err? <==> a.kind == IncompatibleArray && Size(l) > 0
    ensures r.Err? ==> r.error == ArrayStore
    ensures r.Ok? ==> r.value.kind == a.kind
    ensures r.Ok? ==> |r.value.elems| == if |a.elems| < Size(l) then Size(l) else |a.elems|
    ensures r.Ok? ==> forall k :: 0 <= k < Size(l) ==> r.value.elems[k] == Integer(l.Elements()[k])
    ensures r.Ok? && |a.elems| > Size(l) ==> r.value.elems[Size(l)] == Null
    ensures r.Ok? ==> forall k :: Size(l) < k < |a.elems| ==> r.value.elems[k] == a.elems[k]
  {
    match l
    case Backed(contents) => BaseToArray(contents, a)
    case Empty => EmptyToArray(a)
  }

  /** A caller array shorter than the list, whose class can hold an
      `Integer`, is replaced by one of length exactly `size` holding exactly
      the elements, both as written and corrected. */
  lemma ShortArrayGivesExactCopy(l: IntList, a: RefArray)
    requires |a.elems| < Size(l)
    requires a.kind != IncompatibleArray
    ensures ToArrayInto(l, a) == Ok(RefArray(a.kind, Boxed(l.Elements())))
    ensures ToArrayIntoAsWritten(l, a) == Ok(RefArray(a.kind, Boxed(l.Elements())))
  {
    var r := ToArrayInto(l, a).value;
    assert r.elems == Boxed(l.Elements());
    AsWrittenDiffersOnlyOnLongIntegerArrays(l, a);
  }

  /** `copyOf(l.toArray(new Integer[0]))` rebuilds a list with the original
      contents: the zero-length `Integer[]` is replaced by one of exactly the
      boxed elements, whose `intValue()`s are the elements again. A
      zero-length array is never longer than the list, so the method as
      written gives the same array as the corrected one. */
  lemma IntegerArrayCopyOfRoundTrip(l: IntList)
    ensures ToArrayInto(l, RefArray(IntegerArray, [])).Ok?
    ensures CopyOfNumbers(ToArrayInto(l, RefArray(IntegerArray, [])).value.elems) == Ok(Backed(l.Elements()))
    ensures ToArrayIntoAsWritten(l, RefArray(IntegerArray, [])) == ToArrayInto(l, RefArray(IntegerArray, []))
  {
    var a := ToArrayInto(l, RefArray(IntegerArray, [])).value.elems;
    var r := CopyOfNumbers(a);
    assert r.value.Elements() == l.Elements();
    AsWrittenDiffersOnlyOnLongIntegerArrays(l, RefArray(IntegerArray, []));
  }

  /** With the loop bound corrected, the list class's method treats an empty
      array of contents exactly as the empty subclass's override does. */
  lemma CorrectedBaseAgreesWithEmptyOverride(a: RefArray)
    ensures ToArrayInto(Of([]), a) == ToArrayInto(OfNone(), a)
  {
    var r, e := ToArrayInto(Of([]), a).value, EmptyToArray(a).value;
    assert r.elems == e.elems;
  }

  /** The as-written method differs from the corrected one exactly on a
      backed list given an `Integer[]` longer than the list. */
  lemma AsWrittenDiffersOnlyOnLongIntegerArrays(l: IntList, a: RefArray)
    ensures ToArrayIntoAsWritten(l, a) != ToArrayInto(l, a)
        <==> l.Backed? && a.kind == IntegerArray && |a.elems| > Size(l)
  {
  }

  /** A one-element list copied into a two-slot `Integer[]`: the method as
      written reads `ints[1]` and throws, while the corrected method returns
      the element followed by null. */
  lemma LongIntegerArrayCounterexample()
    ensures ToArrayIntoAsWritten(Of([1]), RefArray(IntegerArray, [Null, Null])) == Err(ArrayIndexOutOfBounds)
    ensures ToArrayInto(Of([1]), RefArray(IntegerArray, [Null, Null])) == Ok(RefArray(IntegerArray, [Integer(1), Null]))
  {
    var r := ToArrayInto(Of([1]), RefArray(IntegerArray, [Null, Null])).value;
    assert r.elems == [Integer(1), Null];
  }
}
