/**
  The interface types of the compressor: the status codes every transform
  returns, and caller-owned buffers that may be NULL.
 */
module CompressorTypes {

  /** The C enum RetCode; its enumerators count up from -3. */
  datatype RetCode = ErrorNullPointer | ErrorInvalidLength | ErrorGeneric | Success
  {
    /** The integer value of the enumerator. */
    function Value(): (v: int)
      ensures -3 <= v <= 0
      ensures v < 0 <==> this != Success
    {
      match this
      case ErrorNullPointer => -3
      case ErrorInvalidLength => -2
      case ErrorGeneric => -1
      case Success => 0
    }
  }

  /** The enumerators take the four values -3, -2, -1, 0 in declaration order,
      so each status is identified by its integer value. */
  lemma RetCodeValues(a: RetCode, b: RetCode)
    ensures a.Value() == b.Value() <==> a == b
    ensures ErrorNullPointer.Value() == -3 && ErrorInvalidLength.Value() == -2
    ensures ErrorGeneric.Value() == -1 && Success.Value() == 0
  {
  }

  /**
    A pointer to a caller-allocated array: either NULL or the current
    contents of the array it points to. A transform that writes the array
    returns its new contents.
   */
  datatype Buffer<T> = Null | Buf(cells: seq<T>)

  /** The number of elements a buffer can hold; none for NULL. */
  function Capacity<T>(b: Buffer<T>): nat
  {
    if b.Buf? then |b.cells| else 0
  }

  /** A non-NULL buffer has room for at least n elements. */
  predicate Spans<T>(b: Buffer<T>, n: nat)
  {
    b.Buf? ==> n <= |b.cells|
  }
}
