/** The bit-array primitive the filter stores its bits in, and the wrapper
    the filter puts around the primitive's errors. Only the contract the
    filter relies on is modelled: a fixed number of bits, and an
    out-of-range error for any position at or beyond that number. */
module BitArray {
  import opened Primitives

  datatype BitArrayError = IndexOutOfRange(index: u64, size: nat)

  /** The filter's error for a failed bit-array call: the cause, kept whole. */
  datatype WrappedError = WrapError(cause: BitArrayError)

  /** Turns bit `i` on, or reports that `i` is out of range and changes nothing. */
  method TurnOn(a: array<bool>, i: u64) returns (err: Option<BitArrayError>)
    modifies a
    ensures i < a.Length ==> err == None && a[..] == old(a[..])[i := true]
    ensures i >= a.Length ==> err == Some(IndexOutOfRange(i, a.Length)) && a[..] == old(a[..])
  {
    if i >= a.Length {
      return Some(IndexOutOfRange(i, a.Length));
    }
    a[i] := true;
    return None;
  }

  /** Reads bit `i`, or reports that `i` is out of range. */
  method IndexValue(a: array<bool>, i: u64) returns (isSet: bool, err: Option<BitArrayError>)
    ensures i < a.Length ==> err == None && isSet == a[i]
    ensures i >= a.Length ==> err == Some(IndexOutOfRange(i, a.Length)) && !isSet
  {
    if i >= a.Length {
      return false, Some(IndexOutOfRange(i, a.Length));
    }
    return a[i], None;
  }
}
