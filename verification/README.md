# ImmutableIntList, modelled in Dafny

This project models `org.eigenbase.util.ImmutableIntList` from the optiq query
planner. The class is an immutable list of Java `int` values backed by a
private `int[]`, with the following parts:

- factories that copy their input (`of`, `copyOf`);
- size and indexed access;
- forward and backward linear search;
- structural equality and the hash code;
- the two `toArray` methods;
- a shared empty instance of a private subclass that overrides `toArray(T[])`
  and the iterators;
- an index-based bidirectional list iterator.

Files and modules:

- `java_lang.dfy` (module `JavaLang`) holds the parts of the Java platform the
  list uses:
  - 32-bit `int` as `Int32`, with wrap-around written out as `Wrap32`;
  - the thrown exceptions, as the `Err` side of `Result`;
  - boxed references: `Ref` is null, an `Integer`, or another `Number` given by
    its `intValue()`;
  - reference arrays with their runtime class (`Integer[]`, a supertype of
    `Integer`, or an incompatible class).
- `immutable_int_list.dfy` (module `ImmutableIntLists`) holds the list value,
  factories, accessors, search, `equals`, `hashCode` and `toArray()`.
  - `Backed(contents)` is an instance of the class itself.
  - `Empty` is the shared `EMPTY` instance.
  - `of(new int[0])` and `copyOf()` with no numbers build `Backed([])`. That
    list is equal to `Empty`, but it is a different object of a different
    class.
- `to_array.dfy` (module `ToArrays`) holds `toArray(T[])`, both as written and
  corrected (see Findings), and the empty subclass's override.
- `indexed_list_iterator.dfy` (module `IndexedListIterators`) holds the list
  iterator as a value with a `position` cursor. `next` and `previous` return
  the element together with the advanced iterator.

The list is modelled as a value: the contents are an immutable `seq<Int32>`.

## Model

| member | source | states |
|---|---|---|
| ImmutableIntLists.OfNone | core/src/main/java/org/eigenbase/util/ImmutableIntList.java:43-48 | `of()` returns the shared empty instance, which has no elements |
| ImmutableIntLists.Of | core/src/main/java/org/eigenbase/util/ImmutableIntList.java:50-55 | `of(int...)` makes a new instance (not the shared empty one) whose contents are exactly the argument's values |
| ImmutableIntLists.OfThenOverwrite | core/src/main/java/org/eigenbase/util/ImmutableIntList.java:38-55 | a caller that overwrites its array after `of` still holds a list with the array's contents as they were at the call |
| ImmutableIntLists.IntValues | core/src/main/java/org/eigenbase/util/ImmutableIntList.java:61-64 | the conversion loop succeeds iff no number is null; then it gives one value per number, in order, each equal to that number's `intValue()`; otherwise it throws a `NullPointerException` |
| ImmutableIntLists.CopyOfNumbers | core/src/main/java/org/eigenbase/util/ImmutableIntList.java:57-66 | `copyOf(Number...)` throws a `NullPointerException` iff some number is null; otherwise it returns a new instance of the same length with each number's `intValue()` in order |
| ImmutableIntLists.CopyOfCollection | core/src/main/java/org/eigenbase/util/ImmutableIntList.java:68-84 | a list of this class is returned itself; an empty collection gives the shared empty instance; any other collection gives its numbers' values in iteration order, with the same size, or a `NullPointerException` if it holds a null |
| ImmutableIntLists.Size | core/src/main/java/org/eigenbase/util/ImmutableIntList.java:110-112 | the size is the length of the backing array, and zero for the shared empty instance |
| ImmutableIntLists.IsEmpty | core/src/main/java/org/eigenbase/util/ImmutableIntList.java:105-108 | `isEmpty()` holds iff the size is zero, that is iff there are no elements |
| ImmutableIntLists.GetInt | core/src/main/java/org/eigenbase/util/ImmutableIntList.java:149-151 | `getInt(i)` succeeds exactly for `0 <= i < size()` and returns element `i`; any other index throws `ArrayIndexOutOfBoundsException` |
| ImmutableIntLists.Get | core/src/main/java/org/eigenbase/util/ImmutableIntList.java:145-147 | `get(i)` returns element `i` boxed as a non-null `Integer`, with the same bounds and exception as `getInt` |
| ImmutableIntLists.IndexOf | core/src/main/java/org/eigenbase/util/ImmutableIntList.java:176-183 | `indexOf(int)` is -1 iff the value is absent; otherwise it is a position holding the value, and no earlier position holds it |
| ImmutableIntLists.IndexOfLoop | core/src/main/java/org/eigenbase/util/ImmutableIntList.java:176-183 | the forward loop computes that first position |
| ImmutableIntLists.LastIndexOf | core/src/main/java/org/eigenbase/util/ImmutableIntList.java:192-199 | `lastIndexOf(int)` is -1 iff the value is absent; otherwise it is a position holding the value, and no later position holds it |
| ImmutableIntLists.LastIndexOfLoop | core/src/main/java/org/eigenbase/util/ImmutableIntList.java:192-199 | the backward loop computes that last position |
| ImmutableIntLists.IndexOfObject | core/src/main/java/org/eigenbase/util/ImmutableIntList.java:169-174 | `indexOf(Object)` is the first position whose boxed element equals the argument, or -1; so null and non-`Integer` numbers are never found, whatever their value |
| ImmutableIntLists.LastIndexOfObject | core/src/main/java/org/eigenbase/util/ImmutableIntList.java:185-190 | `lastIndexOf(Object)` is the last position whose boxed element equals the argument, or -1 |
| ImmutableIntLists.IndexOfBeforeLastIndexOf | core/src/main/java/org/eigenbase/util/ImmutableIntList.java:176-199 | both searches return -1 in exactly the same cases, and otherwise the first match is never after the last |
| ImmutableIntLists.IndexOfIsLastIndexOfIffUnique | core/src/main/java/org/eigenbase/util/ImmutableIntList.java:176-199 | the first and last matches are the same position iff the value occurs exactly once |
| ImmutableIntLists.Equals | core/src/main/java/org/eigenbase/util/ImmutableIntList.java:91-98 | corrected: two lists are equal iff they have the same size and equal elements at every position, and unequal otherwise |
| ImmutableIntLists.EqualsAsWritten | core/src/main/java/org/eigenbase/util/ImmutableIntList.java:91-98 | as written, between two lists of this class, `equals` returns true iff the contents are equal and never returns false; for unequal lists the `obj.equals(this)` branch bounces between the two until `StackOverflowError`, at any stack depth |
| ImmutableIntLists.UnequalListsOverflowAtEveryDepth | core/src/main/java/org/eigenbase/util/ImmutableIntList.java:92-98 | for unequal lists, as-written `equals` overflows the stack whatever the depth available |
| ImmutableIntLists.OfOneEqualsOfTwoCounterexample | core/src/main/java/org/eigenbase/util/ImmutableIntList.java:92-98 | `of(1).equals(of(2))` overflows the stack as written, where the intended answer is false |
| ImmutableIntLists.EqualsIsEquivalence | core/src/main/java/org/eigenbase/util/ImmutableIntList.java:91-98 | `equals` between lists is reflexive, symmetric and transitive |
| ImmutableIntLists.OfNoneEqualsOfEmptyArray | core/src/main/java/org/eigenbase/util/ImmutableIntList.java:36-55 | `of()` and `of` over an empty array are distinct instances that are equal |
| ImmutableIntLists.HashCodeIsWrappedPolynomial | core/src/main/java/org/eigenbase/util/ImmutableIntList.java:86-89 | `HashCode` (`hashCode()`, through the loop `HashLoop`) with 32-bit overflow gives the exact polynomial `31^n + sum of e_i * 31^(n-1-i)` reduced modulo 2^32 |
| ImmutableIntLists.EqualListsHashEqually | core/src/main/java/org/eigenbase/util/ImmutableIntList.java:86-98 | equal lists have equal hash codes, whichever kind of instance each one is |
| ImmutableIntLists.ToArray | core/src/main/java/org/eigenbase/util/ImmutableIntList.java:114-120 | `toArray()` is an `Object[]` of length `size()` holding each element boxed, in order |
| ImmutableIntLists.GetAgreesWithToArray | core/src/main/java/org/eigenbase/util/ImmutableIntList.java:114-147 | `get(i)` and slot `i` of `toArray()` hold the same value |
| ImmutableIntLists.ToArrayCopyOfRoundTrip | core/src/main/java/org/eigenbase/util/ImmutableIntList.java:57-120 | `copyOf(Number...)` over the boxed elements of `toArray()` rebuilds a list with the original contents, equal to the original |
| ToArrays.FillIntegersAsWritten | core/src/main/java/org/eigenbase/util/ImmutableIntList.java:131-135 | the `Integer[]` loop as written completes iff the array is no longer than the list, and otherwise throws `ArrayIndexOutOfBoundsException` |
| ToArrays.Target | core/src/main/java/org/eigenbase/util/ImmutableIntList.java:124-130 | the array filled is the caller's own when it can hold `size()` elements, otherwise a new all-null array of the same class and length exactly `size()` |
| ToArrays.TerminateWithNull | core/src/main/java/org/eigenbase/util/ImmutableIntList.java:139-141 | only the slot just after the last element changes, and it becomes null, when the array is longer than the list |
| ToArrays.ArrayCopy | core/src/main/java/org/eigenbase/util/ImmutableIntList.java:136-138 | `System.arraycopy` fills the first `size` slots with the boxed elements and keeps the rest; an incompatible array class throws `ArrayStoreException` iff there is an element to store |
| ToArrays.BaseToArrayAsWritten | core/src/main/java/org/eigenbase/util/ImmutableIntList.java:122-143 | as written, `toArray(T[])` throws `ArrayIndexOutOfBoundsException` exactly for an `Integer[]` longer than the list, and otherwise agrees with the corrected method |
| ToArrays.BaseToArray | core/src/main/java/org/eigenbase/util/ImmutableIntList.java:122-143 | corrected, the result has the array's class and length `max(a.length, size)`. It holds the elements in order, has null just after them when longer, and keeps the caller's later slots. It throws only `ArrayStoreException`, for an incompatible class and a non-empty list |
| ToArrays.EmptyToArray | core/src/main/java/org/eigenbase/util/ImmutableIntList.java:207-213 | the empty instance returns the caller's array unchanged, except that slot 0 becomes null when it exists |
| ToArrays.ToArrayIntoAsWritten | core/src/main/java/org/eigenbase/util/ImmutableIntList.java:122-143 | on any instance, as written, `toArray(T[])` throws exactly for an `Integer[]` longer than a backed list, or for an incompatible array and a non-empty list |
| ToArrays.ToArrayInto | core/src/main/java/org/eigenbase/util/ImmutableIntList.java:122-143 | on any instance, corrected, `toArray(T[])` meets the `Collection.toArray(T[])` contract stated for `BaseToArray` |
| ToArrays.ShortArrayGivesExactCopy | core/src/main/java/org/eigenbase/util/ImmutableIntList.java:124-130 | an array shorter than the list whose class can hold an `Integer` is replaced by a new array of the same class and length exactly `size()`, holding exactly the elements; this holds both as written and corrected |
| ToArrays.IntegerArrayCopyOfRoundTrip | core/src/main/java/org/eigenbase/util/ImmutableIntList.java:57-143 | `copyOf(l.toArray(new Integer[0]))` succeeds and rebuilds a list with exactly the original contents; the method as written gives the same array as the corrected one here |
| ToArrays.CorrectedBaseAgreesWithEmptyOverride | core/src/main/java/org/eigenbase/util/ImmutableIntList.java:201-213 | with the bound corrected, the class's method on an empty backed list behaves exactly as the empty subclass's override, for every array |
| ToArrays.AsWrittenDiffersOnlyOnLongIntegerArrays | core/src/main/java/org/eigenbase/util/ImmutableIntList.java:131-135 | the as-written and corrected methods differ exactly on a backed list given an `Integer[]` longer than it |
| ToArrays.LongIntegerArrayCounterexample | core/src/main/java/org/eigenbase/util/ImmutableIntList.java:131-135 | `of(1).toArray(new Integer[2])` throws as written, but gives `[1, null]` when corrected |
| IndexedListIterators.NewIterator | core/src/main/java/org/eigenbase/util/ImmutableIntList.java:235-239 | the constructor succeeds iff `0 <= position <= size`, giving a valid iterator at that position, and otherwise throws `IndexOutOfBoundsException` |
| IndexedListIterators.ListIteratorAt | core/src/main/java/org/eigenbase/util/ImmutableIntList.java:161-167 | `listIterator(index)` succeeds iff `0 <= index <= size()`, so on the empty instance only at index 0, and gives an iterator over that list at that index |
| IndexedListIterators.ListIterator | core/src/main/java/org/eigenbase/util/ImmutableIntList.java:153-223 | `iterator()` and `listIterator()`, including the empty instance's overrides, give a valid iterator at position 0 over the list's elements |
| IndexedListIterators.Next | core/src/main/java/org/eigenbase/util/ImmutableIntList.java:245-250 | `next()` succeeds iff `position < size`; it returns element `position` and moves the cursor one forward, staying within `0..size`; otherwise it throws `NoSuchElementException` |
| IndexedListIterators.Previous | core/src/main/java/org/eigenbase/util/ImmutableIntList.java:260-265 | `previous()` succeeds iff `position > 0`; it moves the cursor one back, staying within `0..size`, and returns the element there; otherwise it throws `NoSuchElementException` |
| IndexedListIterators.QueriesMatchMoves | core/src/main/java/org/eigenbase/util/ImmutableIntList.java:241-269 | `HasNext`, `HasPrevious`, `NextIndex` and `PreviousIndex` model the four queries: `hasNext`/`hasPrevious` hold iff `next`/`previous` succeed; `nextIndex` is the cursor and `previousIndex` is one less; after a move the two indices change places |
| IndexedListIterators.NextThenPrevious | core/src/main/java/org/eigenbase/util/ImmutableIntList.java:245-265 | `next()` then `previous()` returns the same element and restores the iterator |
| IndexedListIterators.PreviousThenNext | core/src/main/java/org/eigenbase/util/ImmutableIntList.java:245-265 | `previous()` then `next()` returns the same element and restores the iterator |
| IndexedListIterators.CollectForward | core/src/main/java/org/eigenbase/util/ImmutableIntList.java:241-250 | calling `next()` while `hasNext()` holds yields exactly the elements from the cursor to the end, in order |
| IndexedListIterators.CollectBackward | core/src/main/java/org/eigenbase/util/ImmutableIntList.java:256-265 | calling `previous()` while `hasPrevious()` holds yields exactly the elements before the cursor, nearest first |
| IndexedListIterators.IterateAll | core/src/main/java/org/eigenbase/util/ImmutableIntList.java:153-167 | a full pass over `iterator()` visits exactly the list's elements, in order |

## Left out

- `WinAggResultContextImpl.java` is left out. Each of its methods forwards to a
  frame context built by a function passed in, and that context is not part of
  this model. So there is no frame or index arithmetic to state.
- `AggAddContext.java` and `CallImplementor.java` are left out: they are
  interfaces without implementations.
- `SqlUserDefinedAggFunction.java` is left out. It wraps an aggregate function
  and a type factory that are not part of this model.
- `package-info.java` is documentation only.
- `toString()` is left out. It formats through `Arrays.toString`, and string
  formatting of integers is not modelled.
- `equals` against a `List` of another class is left out. The last disjunct
  then runs that class's `equals`, which is not part of this model. Between two
  lists of this class the branch is modelled (see Findings).
- `equals(obj)` with `obj` null or not a `List` is left out: the argument is
  always a list of this class. In the source all three disjuncts are false
  then, so the result is false.
- An `Object` argument of `indexOf` or `lastIndexOf` that is not a `Number` is
  not representable as a `Ref`. It fails the `instanceof Integer` test just as
  `OtherNumber` does, so the result is -1 in both cases.
- `Number.intValue()` narrowing for non-`Integer` numbers is abstracted.
  `Ref.OtherNumber` carries the value `intValue()` returns.
- Reflection in `toArray(T[])` (`Array.newInstance`, `getClass()`) is replaced
  by `ArrayKind`: the array's runtime class is one of three kinds.
- A null array or collection argument, which throws `NullPointerException`, is
  not modelled: arguments are values.
- Java's maximum array length is not imposed on sequences.
- The mutators of Guava's `UnmodifiableListIterator` are left out. They always
  throw `UnsupportedOperationException`.
- The `FlatLists.AbstractFlatList` superclass is not part of this model.
- Object identity is not modelled.
- CopyOfCollection: "returns the same object" for a list of this class is
  stated as returning an equal value.
- ToArrayInto: when the caller's array is long enough, Java returns that very
  array. This is stated as a result with the caller's class and length that
  keeps its later slots, not as identity.
- OfThenOverwrite: the snapshot holds because a Dafny sequence is a value.
  It would hold just as well if `of` stored its argument without cloning, as the
  private constructor does. So it restates the clone rather than proving it.
- EqualsAsWritten: the JVM's stack depth is a parameter, `depth`, not a
  modelled quantity.
- BaseToArrayAsWritten: when the `Integer[]` loop throws, the slots it already
  wrote are lost. Only the exception is modelled.

## Findings

| source | as written | input that shows it | evidently intended | confidence | as-written member | corrected member |
|---|---|---|---|---|---|---|
| core/src/main/java/org/eigenbase/util/ImmutableIntList.java:131-135 | the `Integer[]` branch of `toArray(T[])` loops `i < integers.length`, so it reads `ints[i]` past the end of the list when the caller's `Integer[]` is longer than the list | `ImmutableIntList.of(1).toArray(new Integer[2])` reads `ints[1]` and throws `ArrayIndexOutOfBoundsException`; so does `of(new int[0]).toArray(new Integer[1])`, although the shared empty instance returns `[null]` | loop `i < size`, giving `[1, null]` as `Collection.toArray(T[])` prescribes | high (not executed) | ToArrays.BaseToArrayAsWritten | ToArrays.BaseToArray |
| core/src/main/java/org/eigenbase/util/ImmutableIntList.java:92-98 | `equals` ends with `obj instanceof List && obj.equals(this)`; an `ImmutableIntList` is itself a `List`, so for two of them with different contents each call hands the comparison to the other | `ImmutableIntList.of(1).equals(ImmutableIntList.of(2))` alternates between the two lists until `StackOverflowError` | return false when the other object is an `ImmutableIntList` with different contents, so delegate only to a `List` of another class | high (not executed) | ImmutableIntLists.EqualsAsWritten | ImmutableIntLists.Equals |
