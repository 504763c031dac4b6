/**
 The small part of Java's semantics that LeScanResult relies on: null
 references, the exceptions the code can raise and catch, array indexing,
 and signed bytes.
 */
module JavaLang {

  /** A reference that may be null. */
  datatype Option<+T> = None | Some(value: T)

  /** The exceptions that reach a `catch` in LeScanResult. The modelled code
      itself can only index out of bounds; everything a collaborator may
      throw (the advertisement parser, for one) is `OtherException`. */
  datatype Exception =
    | IndexOutOfBounds(index: int, length: int)
    | OtherException

  /** The outcome of a Java expression that may throw. Usable with `:-`,
      which propagates the exception the way Java unwinds to the nearest
      `catch`. */
  datatype Result<+T> = Ok(value: T) | Throws(exception: Exception) {

    predicate IsFailure() {
      Throws?
    }

    function PropagateFailure<U>(): Result<U>
      requires Throws?
    {
      Throws(exception)
    }

    function Extract(): T
      requires Ok?
    {
      value
    }
  }

  /** `a[index]` on a Java array or list of length `|a|`. */
  function At<T>(a: seq<T>, index: int): Result<T> {
    if 0 <= index < |a| then Ok(a[index]) else Throws(IndexOutOfBounds(index, |a|))
  }

  /** `a[index] = v` on a Java array of length `|a|`. */
  function Store<T>(a: seq<T>, index: int, v: T): Result<seq<T>> {
    if 0 <= index < |a| then Ok(a[index := v]) else Throws(IndexOutOfBounds(index, |a|))
  }

  /** Java's `byte`: a two's-complement 8-bit value. */
  type SByte = b: int | -128 <= b < 128

  /** `b & 0xFF`: the byte read as unsigned. */
  function Unsigned(b: SByte): (u: int)
    ensures 0 <= u < 256
    ensures (u - b) % 256 == 0
  {
    if b < 0 then b + 256 else b
  }

  /** `(byte) x`: keep the low eight bits and read them as signed. Dafny's
      `%` is Euclidean, so this is also right for negative `x`. */
  function ToSByte(x: int): (b: SByte)
    ensures (x - b) % 256 == 0
  {
    var low := x % 256;
    if low < 128 then low else low - 256
  }

  /** Narrowing a byte to unsigned and back gives the byte. */
  lemma ToSByteUnsigned(b: SByte)
    ensures ToSByte(Unsigned(b)) == b
  {
  }
}
