/** An immutable list of `int` values backed by a private `int` array:
    factories that copy their input, size and indexed access, forward and
    backward search, structural equality, the hash code and `toArray()`. */
module ImmutableIntLists {
  import opened JavaLang

  /** A list instance. `Backed(contents)` is an instance of the list class
      itself, whose private array holds `contents`; `Empty` is the one shared
      instance of the private empty subclass, whose array has length zero and
      which overrides `toArray(T[])` and the iterators. */
  datatype IntList =
    | Backed(contents: seq<Int32>)
    | Empty
  {
    /** The contents of the private array. */
    function Elements(): seq<Int32>
    {
      match this
      case Backed(contents) => contents
      case Empty => []
    }
  }

  /** A collection of numbers handed to `copyOf`: either a list of this kind
      or any other collection, given by its elements in iteration order. */
  datatype NumberCollection =
    | ListCollection(list: IntList)
    | OtherCollection(items: seq<Ref>)

  /** The `Integer` references of a sequence of `int`s, in order. */
  function Boxed(s: seq<Int32>): (r: seq<Ref>)
    ensures |r| == |s|
    ensures forall i :: 0 <= i < |s| ==> r[i] == Integer(s[i])
  {
    seq(|s|, i requires 0 <= i < |s| => Integer(s[i]))
  }

  // ---------------------------------------------------------------- factories

  /** `of()`: the shared empty instance. */
  function OfNone(): (r: IntList)
    ensures r.Elements() == []
    ensures r.Empty?
  {
    Empty
  }

  /** `of(int...)`: a new instance over a clone of the argument, so the list
      holds exactly the values of `ints` at the time of the call. */
  function Of(ints: seq<Int32>): (r: IntList)
    ensures r.Backed?
    ensures r.Elements() == ints
  {
    Backed(ints)
  }

  /** A caller that creates a list from its own array and then overwrites a
      slot of that array: the list keeps the contents the array had at the
      call, because `of` stores a clone. */
  method OfThenOverwrite(a: array<Int32>, i: nat, v: Int32) returns (l: IntList)
    requires i < a.Length
    modifies a
    ensures l.Elements() == old(a[..])
    ensures a[i] == v
  {
    l := Of(a[..]);
    a[i] := v;
  }

  /** The loop `ints[i] = numbers[i].intValue()` over all numbers, which
      throws a `NullPointerException` at the first null reference. */
  function IntValues(numbers: seq<Ref>): (r: Result<seq<Int32>>)
    ensures r.Ok? <==> Null !in numbers
    ensures r.Err? ==> r.error == NullPointer
    ensures r.Ok? ==> |r.value| == |numbers|
    ensures r.Ok? ==> forall i :: 0 <= i < |numbers| ==> IntValue(numbers[i]) == Ok(r.value[i])
  {
    if |numbers| == 0 then Ok([])
    else
      match IntValue(numbers[0])
      case Err(e) => Err(e)
      case Ok(v) =>
        match IntValues(numbers[1..])
        case Err(e) => Err(e)
        case Ok(vs) => Ok([v] + vs)
  }

  /** `copyOf(Number...)`: a new instance (never the shared empty one, even
      for no numbers) holding the numbers' `int` values in order. */
  function CopyOfNumbers(numbers: seq<Ref>): (r: Result<IntList>)
    ensures r.Ok? <==> Null !in numbers
    ensures r.Err? ==> r.error == NullPointer
    ensures r.Ok? ==> r.value.Backed? && |r.value.Elements()| == |numbers|
    ensures r.Ok? ==> forall i :: 0 <= i < |numbers| ==> IntValue(numbers[i]) == Ok(r.value.Elements()[i])
  {
    match IntValues(numbers)
    case Err(e) => Err(e)
    case Ok(vs) => Ok(Backed(vs))
  }

  /** `copyOf(Collection)`: a list of this kind is returned itself, an empty
      collection yields the shared empty instance, and any other collection
      a new instance holding its numbers in iteration order. */
  function CopyOfCollection(c: NumberCollection): (r: Result<IntList>)
    ensures c.ListCollection? ==> r == Ok(c.list)
    ensures c.OtherCollection? && |c.items| == 0 ==> r == Ok(Empty)
    ensures c.OtherCollection? ==> (r.Ok? <==> Null !in c.items)
    ensures r.Err? ==> r.error == NullPointer
    ensures c.OtherCollection? && r.Ok? ==> |r.value.Elements()| == |c.items|
    ensures c.OtherCollection? && r.Ok? ==>
      forall i :: 0 <= i < |c.items| ==> IntValue(c.items[i]) == Ok(r.value.Elements()[i])
  {
    match c
    case ListCollection(list) => Ok(list)
    case OtherCollection(items) =>
      if |items| == 0 then Ok(Empty)
      else
        match IntValues(items)
        case Err(e) => Err(e)
        case Ok(vs) => Ok(Backed(vs))
  }

  // ---------------------------------------------------------------- accessors

  /** `size()`: the length of the private array. */
  function Size(l: IntList): (n: nat)
    ensures n == |l.Elements()|
    ensures l.Empty? ==> n == 0
  {
    |l.Elements()|
  }

  /** `isEmpty()`. */
  predicate IsEmpty(l: IntList)
    ensures IsEmpty(l) <==> Size(l) == 0
    ensures IsEmpty(l) <==> l.Elements() == []
  {
    |l.Elements()| == 0
  }

  /** `getInt(index)`: element `index`, or the array access's
      `ArrayIndexOutOfBoundsException` for an index outside `0..size-1`. */
  function GetInt(l: IntList, index: int): (r: Result<Int32>)
    ensures r.Ok? <==> 0 <= index < Size(l)
    ensures r.Ok? ==> r.value == l.Elements()[index]
    ensures r.Err? ==> r.error == ArrayIndexOutOfBounds
  {
    if 0 <= index < |l.Elements()| then Ok(l.Elements()[index])
    else Err(ArrayIndexOutOfBounds)
  }

  /** `get(index)`: element `index` boxed as an `Integer`, never null. */
  function Get(l: IntList, index: int): (r: Result<Ref>)
    ensures r.Ok? <==> 0 <= index < Size(l)
    ensures r.Ok? ==> r.value == Integer(l.Elements()[index])
    ensures r.Err? ==> r.error == ArrayIndexOutOfBounds
  {
    match GetInt(l, index)
    case Ok(v) => Ok(Integer(v))
    case Err(e) => Err(e)
  }

  // ------------------------------------------------------------------- search

  /** The loop of `indexOf(int)` from position `i` onwards. */
  function IndexOfFrom(s: seq<Int32>, seek: Int32, i: nat): (r: int)
    requires i <= |s|
    ensures r == -1 <==> seek !in s[i..]
    ensures r != -1 ==> i <= r < |s| && s[r] == seek && seek !in s[i..r]
    decreases |s| - i
  {
    if i == |s| then -1
    else if s[i] == seek then i
    else
      var r := IndexOfFrom(s, seek, i + 1);
      assert s[i..] == [s[i]] + s[i + 1..];
      assert r != -1 ==> s[i..r] == [s[i]] + s[i + 1..r];
      r
  }

  /** `indexOf(int)`: the first position holding `seek`, or -1. */
  function IndexOf(l: IntList, seek: Int32): (r: int)
    ensures -1 <= r < Size(l)
    ensures r == -1 <==> seek !in l.Elements()
    ensures r != -1 ==> l.Elements()[r] == seek
    ensures forall j :: 0 <= j < r ==> l.Elements()[j] != seek
  {
    var s := l.Elements();
    assert s[0..] == s;
    var r := IndexOfFrom(s, seek, 0);
    assert r != -1 ==> forall j :: 0 <= j < r ==> s[j] == s[0..r][j];
    r
  }

  /** The loop of `lastIndexOf(int)` from position `i` downwards. */
  function LastIndexOfBelow(s: seq<Int32>, seek: Int32, i: int): (r: int)
    requires -1 <= i < |s|
    ensures r == -1 <==> seek !in s[..i + 1]
    ensures r != -1 ==> 0 <= r <= i && s[r] == seek && seek !in s[r + 1..i + 1]
    decreases i + 1
  {
    if i < 0 then -1
    else if s[i] == seek then i
    else
      var r := LastIndexOfBelow(s, seek, i - 1);
      assert s[..i + 1] == s[..i] + [s[i]];
      assert r != -1 ==> s[r + 1..i + 1] == s[r + 1..i] + [s[i]];
      r
  }

  /** `lastIndexOf(int)`: the last position holding `seek`, or -1. */
  function LastIndexOf(l: IntList, seek: Int32): (r: int)
    ensures -1 <= r < Size(l)
    ensures r == -1 <==> seek !in l.Elements()
    ensures r != -1 ==> l.Elements()[r] == seek
    ensures forall j :: r < j < Size(l) ==> l.Elements()[j] != seek
  {
    var s := l.Elements();
    assert s[..|s|] == s;
    var r := LastIndexOfBelow(s, seek, |s| - 1);
    assert r != -1 ==> forall j :: r < j < |s| ==> s[j] == s[r + 1..|s|][j - r - 1];
    r
  }

  /** `indexOf(Object)`: a non-`Integer` argument (null or another kind of
      number, whatever its value) is never found; otherwise the first
      element that `equals` it. */
  function IndexOfObject(l: IntList, o: Ref): (r: int)
    ensures -1 <= r < Size(l)
    ensures r == -1 <==> o !in Boxed(l.Elements())
    ensures r != -1 ==> Boxed(l.Elements())[r] == o
    ensures forall j :: 0 <= j < r ==> Boxed(l.Elements())[j] != o
  {
    if o.Integer? then IndexOf(l, o.value) else -1
  }

  /** `lastIndexOf(Object)`: as `IndexOfObject`, from the end. */
  function LastIndexOfObject(l: IntList, o: Ref): (r: int)
    ensures -1 <= r < Size(l)
    ensures r == -1 <==> o !in Boxed(l.Elements())
    ensures r != -1 ==> Boxed(l.Elements())[r] == o
    ensures forall j :: r < j < Size(l) ==> Boxed(l.Elements())[j] != o
  {
    if o.Integer? then LastIndexOf(l, o.value) else -1
  }

  /** The loop of `indexOf(int)` over the backing array. */
  method IndexOfLoop(l: IntList, seek: Int32) returns (r: int)
    ensures r == IndexOf(l, seek)
  {
    var ints := l.Elements();
    var i := 0;
    while i < |ints|
      invariant 0 <= i <= |ints|
      invariant seek !in ints[..i]
    {
      if ints[i] == seek {
        return i;
      }
      i := i + 1;
    }
    assert ints[..i] == ints;
    return -1;
  }

  /** The loop of `lastIndexOf(int)` over the backing array. */
  method LastIndexOfLoop(l: IntList, seek: Int32) returns (r: int)
    ensures r == LastIndexOf(l, seek)
  {
    var ints := l.Elements();
    var i := |ints| - 1;
    while i >= 0
      invariant -1 <= i < |ints|
      invariant seek !in ints[i + 1..]
    {
      if ints[i] == seek {
        return i;
      }
      i := i - 1;
    }
    assert ints[0..] == ints;
    return -1;
  }

  /** Both searches agree on whether `seek` occurs, and the first occurrence
      never follows the last. */
  lemma IndexOfBeforeLastIndexOf(l: IntList, seek: Int32)
    ensures IndexOf(l, seek) == -1 <==> LastIndexOf(l, seek) == -1
    ensures IndexOf(l, seek) <= LastIndexOf(l, seek)
  {
  }

  /** The number of positions of `s` holding `x`. */
  function Occurrences(s: seq<Int32>, x: Int32): nat
  {
    if |s| == 0 then 0
    else Occurrences(s[..|s| - 1], x) + (if s[|s| - 1] == x then 1 else 0)
  }

  /** `x` occurs at `j` and nowhere else in `s`. */
  lemma {:induction false} OccursOnlyAt(s: seq<Int32>, x: Int32, j: int)
    requires 0 <= j < |s| && s[j] == x
    requires forall k :: 0 <= k < |s| && k != j ==> s[k] != x
    ensures Occurrences(s, x) == 1
    decreases |s|
  {
    var p := s[..|s| - 1];
    if j == |s| - 1 {
      NoOccurrences(p, x);
    } else {
      OccursOnlyAt(p, x, j);
    }
  }

  /** A sequence without `x` has no occurrence of it. */
  lemma {:induction false} NoOccurrences(s: seq<Int32>, x: Int32)
    requires forall k :: 0 <= k < |s| ==> s[k] != x
    ensures Occurrences(s, x) == 0
    decreases |s|
  {
    if |s| > 0 {
      NoOccurrences(s[..|s| - 1], x);
    }
  }

  /** Two distinct positions holding `x` make at least two occurrences. */
  lemma {:induction false} TwoPositionsTwoOccurrences(s: seq<Int32>, x: Int32, i: int, j: int)
    requires 0 <= i < j < |s| && s[i] == x && s[j] == x
    ensures Occurrences(s, x) >= 2
    decreases |s|
  {
    var p := s[..|s| - 1];
    if j == |s| - 1 {
      AtLeastOnce(p, x, i);
    } else {
      TwoPositionsTwoOccurrences(p, x, i, j);
    }
  }

  /** A position holding `x` makes at least one occurrence. */
  lemma {:induction false} AtLeastOnce(s: seq<Int32>, x: Int32, i: int)
    requires 0 <= i < |s| && s[i] == x
    ensures Occurrences(s, x) >= 1
    decreases |s|
  {
    if i < |s| - 1 {
      AtLeastOnce(s[..|s| - 1], x, i);
    }
  }

  /** The first and the last occurrence coincide exactly when `seek` occurs
      once. */
  lemma IndexOfIsLastIndexOfIffUnique(l: IntList, seek: Int32)
    ensures IndexOf(l, seek) == LastIndexOf(l, seek) != -1
        <==> Occurrences(l.Elements(), seek) == 1
  {
    var s := l.Elements();
    var i, j := IndexOf(l, seek), LastIndexOf(l, seek);
    if i == -1 {
      NoOccurrences(s, seek);
    } else if i == j {
      OccursOnlyAt(s, seek, i);
    } else {
      TwoPositionsTwoOccurrences(s, seek, i, j);
    }
  }

  // ----------------------------------------------------------------- equality

  /** `equals` between two lists, with the evident intent of the method:
      same length and equal elements position by position (`Arrays.equals`
      on the private arrays; identity implies it), and false otherwise. */
  predicate Equals(l: IntList, m: IntList)
    ensures Equals(l, m) <==>
      Size(l) == Size(m) && forall i :: 0 <= i < Size(l) ==> l.Elements()[i] == m.Elements()[i]
  {
    l.Elements() == m.Elements()
  }

  /** `equals(Object)` as written, between two lists of this class. The
      identity test and `Arrays.equals` hold exactly when the arrays are
      equal. Otherwise the last disjunct applies, because the class is itself
      a `List`: it calls `obj.equals(this)`, which takes the same branch back
      with the roles swapped. `depth` is the number of stack frames still
      available; once none is left the call throws `StackOverflowError`. So
      the method returns true for equal lists and never returns false. */
  function EqualsAsWritten(l: IntList, m: IntList, depth: nat): (r: Result<bool>)
    ensures r.Ok? <==> Equals(l, m)
    ensures r.Ok? ==> r.value
    ensures r.Err? ==> r.error == StackOverflow
    decreases depth
  {
    if l.Elements() == m.Elements() then Ok(true)
    else if depth == 0 then Err(StackOverflow)
    else EqualsAsWritten(m, l, depth - 1)
  }

  /** Two unequal lists overflow the stack however deep it is: each call
      hands the comparison back to the other list. */
  lemma {:induction false} UnequalListsOverflowAtEveryDepth(l: IntList, m: IntList, depth: nat)
    requires !Equals(l, m)
    ensures EqualsAsWritten(l, m, depth) == Err(StackOverflow)
    decreases depth
  {
    if depth > 0 {
      UnequalListsOverflowAtEveryDepth(m, l, depth - 1);
    }
  }

  /** `of(1).equals(of(2))` never returns: as written it overflows the
      stack, where the intended answer is false. */
  lemma OfOneEqualsOfTwoCounterexample(depth: nat)
    ensures EqualsAsWritten(Of([1]), Of([2]), depth) == Err(StackOverflow)
    ensures !Equals(Of([1]), Of([2]))
  {
    assert Of([1]).Elements()[0] != Of([2]).Elements()[0];
    UnequalListsOverflowAtEveryDepth(Of([1]), Of([2]), depth);
  }

  /** `equals` is an equivalence relation. */
  lemma EqualsIsEquivalence(l: IntList, m: IntList, n: IntList)
    ensures Equals(l, l)
    ensures Equals(l, m) ==> Equals(m, l)
    ensures Equals(l, m) && Equals(m, n) ==> Equals(l, n)
  {
  }

  /** `of()` and an instance over an empty array are different objects of
      different classes, yet equal. */
  lemma OfNoneEqualsOfEmptyArray()
    ensures OfNone() != Of([])
    ensures Equals(OfNone(), Of([]))
  {
  }

  // ---------------------------------------------------------------- hash code

  /** The exact value the hash loop would compute without overflow:
      31^n plus the sum of the elements weighted by powers of 31. */
  function HashPolynomial(s: seq<Int32>): int
  {
    if |s| == 0 then 1
    else 31 * HashPolynomial(s[..|s| - 1]) + s[|s| - 1]
  }

  /** The loop of `Arrays.hashCode(int[])` from position `i` on, with running
      value `h` and Java's 32-bit multiplication and addition. */
  function HashLoop(s: seq<Int32>, i: nat, h: Int32): Int32
    requires i <= |s|
    decreases |s| - i
  {
    if i == |s| then h else HashLoop(s, i + 1, Wrap32(31 * h + s[i]))
  }

  /** `hashCode()`. */
  function HashCode(l: IntList): Int32
  {
    HashLoop(l.Elements(), 0, 1)
  }

  /** One step of the loop keeps the running value equal to the wrapped
      polynomial of the prefix read so far. */
  lemma HashStep(s: seq<Int32>, i: nat)
    requires i < |s|
    ensures Wrap32(31 * Wrap32(HashPolynomial(s[..i])) + s[i]) == Wrap32(HashPolynomial(s[..i + 1]))
  {
    assert s[..i + 1][..i] == s[..i];
    Wrap32MultiplyAdd(HashPolynomial(s[..i]), s[i]);
  }

  /** The loop from `i` with the wrapped polynomial of the prefix. */
  lemma {:induction false} HashLoopInvariant(s: seq<Int32>, i: nat)
    requires i <= |s|
    ensures HashLoop(s, i, Wrap32(HashPolynomial(s[..i]))) == Wrap32(HashPolynomial(s))
    decreases |s| - i
  {
    if i == |s| {
      assert s[..i] == s;
    } else {
      HashStep(s, i);
      HashLoopInvariant(s, i + 1);
    }
  }

  /** `hashCode()` is the polynomial hash of the elements reduced to 32 bits,
      the value the `List.hashCode` contract prescribes for boxed integers. */
  lemma HashCodeIsWrappedPolynomial(l: IntList)
    ensures HashCode(l) == Wrap32(HashPolynomial(l.Elements()))
  {
    var s := l.Elements();
    assert s[..0] == [];
    HashLoopInvariant(s, 0);
  }

  /** Equal lists have equal hash codes, whichever instances they are. */
  lemma EqualListsHashEqually(l: IntList, m: IntList)
    requires Equals(l, m)
    ensures HashCode(l) == HashCode(m)
  {
  }

  // ----------------------------------------------------------------- toArray()

  /** `toArray()`: a new `Object[]` with the elements boxed in order (the
      empty instance returns its shared zero-length array, which is the same
      value). */
  function ToArray(l: IntList): (r: RefArray)
    ensures r.kind == ObjectArray
    ensures |r.elems| == Size(l)
    ensures forall i :: 0 <= i < Size(l) ==> r.elems[i] == Integer(l.Elements()[i])
  {
    RefArray(ObjectArray, Boxed(l.Elements()))
  }

  /** `get(i)` reads the same element as slot `i` of `toArray()`. */
  lemma GetAgreesWithToArray(l: IntList, i: int)
    requires 0 <= i < Size(l)
    ensures Get(l, i) == Ok(ToArray(l).elems[i])
  {
  }

  /** `copyOf(Number...)` over the boxed elements of `toArray()` gives a
      list equal to the original, with the same contents. */
  lemma ToArrayCopyOfRoundTrip(l: IntList)
    ensures CopyOfNumbers(ToArray(l).elems) == Ok(Backed(l.Elements()))
    ensures Equals(CopyOfNumbers(ToArray(l).elems).value, l)
  {
    var a := ToArray(l).elems;
    var r := CopyOfNumbers(a);
    assert r.Ok?;
    assert r.value.Elements() == l.Elements();
  }
}
