/** Small shared vocabulary: an optional value (the model of a possibly-null
    `const Command*`), the `std::logic_error` the Command constructor throws,
    and the prefix relation on sequences. */
module Common {

  datatype Option<+T> = None | Some(value: T)

  /** The only exception the modelled core throws. */
  datatype Error = LogicError(what: string)

  datatype Result<+T> = Success(value: T) | Failure(error: Error)

  /** The result of an operation that returns nothing or throws. */
  datatype Outcome = Pass | Fail(error: Error)

  /** `p` is a (not necessarily proper) prefix of `s`. */
  predicate IsPrefixOf<T(==)>(p: seq<T>, s: seq<T>)
  {
    |p| <= |s| && s[..|p|] == p
  }
}
