/**
 Integer widths of the C# fields, the unchecked narrowing casts between them,
 and the Result/Option wrappers that stand for thrown exceptions and nullable
 out-values.
 */
module Basics {

  type byte = x: int | 0 <= x < 0x100
  type u16 = x: int | 0 <= x < 0x1_0000
  type u32 = x: int | 0 <= x < 0x1_0000_0000

  /** C# `(byte)i` in an unchecked context: the low 8 bits of the two's-complement value. */
  function ToByte(i: int): (b: byte)
    ensures 0 <= i < 0x100 ==> b == i
    ensures (b - i) % 0x100 == 0
  {
    i % 0x100
  }

  /** C# `(ushort)i` in an unchecked context: the low 16 bits. */
  function ToU16(i: int): (w: u16)
    ensures 0 <= i < 0x1_0000 ==> w == i
    ensures (w - i) % 0x1_0000 == 0
  {
    i % 0x1_0000
  }

  /** A nullable value (`Customization?`). */
  datatype Option<+T> = None | Some(value: T)

  /** The exceptions the modelled code can raise. */
  datatype Error =
    | ArgumentOutOfRange   // the default arm of an exhaustive `switch` throws ArgumentOutOfRangeException
    | IndexOutOfRange      // the explicit index guard of `CustomizationSet.Data`
    | ElementMissing       // an `IReadOnlyList` indexer asked for a position the list does not have

  /** Either a value, or the exception that aborted the computation. */
  datatype Result<+T> = Success(value: T) | Failure(error: Error) {
    predicate IsFailure() {
      Failure?
    }

    function PropagateFailure<U>(): Result<U>
      requires Failure?
    {
      Failure(error)
    }

    function Extract(): T
      requires Success?
    {
      value
    }
  }

  /** List indexing `s[i]`: the element, or the exception the indexer throws. */
  function At<T>(s: seq<T>, i: int): (r: Result<T>)
    ensures r.Success? <==> 0 <= i < |s|
    ensures r.Success? ==> r.value == s[i]
    ensures r.Failure? ==> r.error == ElementMissing
  {
    if 0 <= i < |s| then Success(s[i]) else Failure(ElementMissing)
  }
}
