/** The error value the filter's constructor returns for a rejected argument. */
module Errors {
  import opened Primitives

  /** The offending argument, which the error keeps as an untyped value:
      the capacity is a `uint64`, the false-positive probability a `float64`. */
  datatype ArgValue = Uint64Value(u: u64) | Float64Value(f: real)

  /** A message, the name of the parameter at fault and the value it was given. */
  datatype InvalidArgumentError = InvalidArgumentError(m: string, name: string, v: ArgValue)
  {
    /** The error's text: the message it was built with, so that building an
        error from the text, the name and the value gives this error back. */
    function Error(): (s: string)
      ensures NewInvalidArgumentError(s, name, v) == this
    {
      m
    }
  }

  /** An error that stores the message, parameter name and value unchanged. */
  function NewInvalidArgumentError(m: string, name: string, v: ArgValue): (e: InvalidArgumentError)
    ensures e.m == m && e.name == name && e.v == v
  {
    InvalidArgumentError(m, name, v)
  }

  /** Every error is the one the constructor builds from its own fields. */
  lemma InvalidArgumentErrorFromFields(e: InvalidArgumentError)
    ensures NewInvalidArgumentError(e.m, e.name, e.v) == e
  {
  }

  /** Rendering an error built with message `m` yields exactly `m`. */
  lemma ErrorRoundTrip(m: string, name: string, v: ArgValue)
    ensures NewInvalidArgumentError(m, name, v).Error() == m
  {
  }

  /** The rendered text ignores the parameter name and value. */
  lemma ErrorIgnoresNameAndValue(e1: InvalidArgumentError, e2: InvalidArgumentError)
    requires e1.m == e2.m
    ensures e1.Error() == e2.Error()
  {
  }
}
