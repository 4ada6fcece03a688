/**
 * The conditions under which the C++ library does not return normally: the
 * exceptions it throws, and the undefined behaviour or non-termination it
 * can run into. The model reports each as a distinct `Fault` instead of an
 * ordinary parse failure (which is `Maybe.Nothing`).
 */
module Errors {

  datatype Fault =
    /** `maybe::from_just` on nothing throws std::runtime_error. */
    | UnwrapNothing
    /** A reducer's `std::map::at` on a tag that was never bound throws std::out_of_range. */
    | MissingTag
    /** `v[0]` on an empty vector in a reducer (undefined behaviour in C++). */
    | IndexOutOfRange
    /** Calling a block whose reducer was never installed throws std::bad_function_call. */
    | EmptyReducer
    /** Dereferencing a null parser pointer (an unset forward target). */
    | NullParser
    /** An unbounded `many` whose inner parser succeeds without consuming: the loop never ends. */
    | NoProgress
    /** The model's bound on nested rule dereferences was exhausted. */
    | OutOfFuel

  /** A value, or the fault raised instead of it. */
  datatype Result<+T> = Ok(value: T) | Throw(fault: Fault)
}
