/** The fragment of the Java platform that the integer list relies on:
    32-bit `int` values and their wrap-around, boxed number references,
    reference arrays and the exceptions the list's operations can throw. */
module JavaLang {

  /** Bounds of Java's 32-bit two's-complement `int`. */
  const IntMin: int := -0x8000_0000
  const IntMax: int := 0x7fff_ffff
  const IntModulus: int := 0x1_0000_0000

  /** A Java `int`. */
  type Int32 = x: int | IntMin <= x <= IntMax

  /** The `int` that Java arithmetic yields for the exact result `x`:
      the unique value in range that agrees with `x` modulo 2^32. */
  function Wrap32(x: int): (r: Int32)
    ensures (x - r) % IntModulus == 0
    ensures IntMin <= x <= IntMax ==> r == x
  {
    (x - IntMin) % IntModulus + IntMin
  }

  /** Wrapping before `31 * h + x` gives the same `int` as wrapping after:
      the overflowing multiply-add of a hash loop step. */
  lemma Wrap32MultiplyAdd(p: int, x: int)
    ensures Wrap32(31 * Wrap32(p) + x) == Wrap32(31 * p + x)
  {
    var k := (p - Wrap32(p)) / IntModulus;
    assert p - Wrap32(p) == k * IntModulus;
    assert 31 * p + x == (31 * Wrap32(p) + x) + (31 * k) * IntModulus;
    Wrap32Shift(31 * Wrap32(p) + x, 31 * k);
  }

  /** Adding a multiple of 2^32 does not change the wrapped `int`. */
  lemma Wrap32Shift(y: int, j: int)
    ensures Wrap32(y + j * IntModulus) == Wrap32(y)
  {
    var q, r := (y - IntMin) / IntModulus, (y - IntMin) % IntModulus;
    assert y - IntMin == q * IntModulus + r && 0 <= r < IntModulus;
    assert y + j * IntModulus - IntMin == (q + j) * IntModulus + r;
  }

  /** The exceptions the modelled operations throw. */
  datatype Exception =
    | IndexOutOfBounds       // IndexOutOfBoundsException
    | ArrayIndexOutOfBounds  // ArrayIndexOutOfBoundsException
    | ArrayStore             // ArrayStoreException
    | NoSuchElement          // NoSuchElementException
    | NullPointer            // NullPointerException
    | StackOverflow          // StackOverflowError

  /** The outcome of an operation that either returns or throws. */
  datatype Result<+T> = Ok(value: T) | Err(error: Exception)

  /** A reference held in a collection or an array of numbers: `null`, a
      boxed `Integer`, or an instance of another `Number` class (a `Long`,
      a `Double`, ...), represented by the value its `intValue()` returns.
      An argument of `indexOf(Object)` that is not a number at all (a
      `String`, say) is not representable; it fails the same `instanceof
      Integer` test as `OtherNumber` and is likewise never found. */
  datatype Ref =
    | Null
    | Integer(value: Int32)
    | OtherNumber(intValue: Int32)

  /** `Number.intValue()` called on a reference. */
  function IntValue(n: Ref): (r: Result<Int32>)
    ensures r.Err? <==> n == Null
    ensures r.Err? ==> r.error == NullPointer
  {
    match n
    case Null => Err(NullPointer)
    case Integer(v) => Ok(v)
    case OtherNumber(v) => Ok(v)
  }

  /** The runtime class of a reference array handed to a list: `Integer[]`
      itself, an array whose component type is a proper supertype of
      `Integer` (`Object[]`, `Number[]`, ...), or one that cannot store an
      `Integer` (`Long[]`, `String[]`, ...). */
  datatype ArrayKind = IntegerArray | ObjectArray | IncompatibleArray

  /** A Java reference array: its runtime class and its slots. */
  datatype RefArray = RefArray(kind: ArrayKind, elems: seq<Ref>)

  /** `new T[length]` for the component type of `kind`: every slot null. */
  function NewArray(kind: ArrayKind, length: nat): (r: RefArray)
    ensures r.kind == kind && |r.elems| == length
    ensures forall i :: 0 <= i < length ==> r.elems[i] == Null
  {
    RefArray(kind, seq(length, _ => Null))
  }
}
