/** The optional value returned by every parse (cpparse/maybe.h). */
module Maybe {
  import opened Errors

  /**
   * `maybe<T>`: `just(v)` holds `v`, `nothing` holds no value. The C++
   * class keeps the value in raw storage and copies it on copy and
   * assignment; a Dafny datatype value is immutable and copied whole.
   */
  datatype Maybe<+T> = Nothing | Just(value: T) {

    predicate IsJust() { Just? }

    predicate IsNothing() { Nothing? }

    /** The held value; unwrapping nothing throws. */
    function FromJust(): (r: Result<T>)
      ensures r.Ok? <==> IsJust()
      ensures IsJust() ==> r.value == value
      ensures IsNothing() ==> r == Throw(UnwrapNothing)
    {
      match this
      case Just(v) => Ok(v)
      case Nothing => Throw(UnwrapNothing)
    }

    /** The implicit conversion to bool. */
    predicate AsBool() { IsJust() }
  }

  lemma JustHoldsValue<T>(v: T)
    ensures Just(v).IsJust() && !Just(v).IsNothing()
    ensures Just(v).FromJust() == Ok(v)
  {
  }

  lemma NothingIsAbsent<T>(m: Maybe<T>)
    requires m == Nothing
    ensures m.IsNothing() && !m.IsJust()
    ensures m.FromJust() == Throw(UnwrapNothing)
  {
  }

  lemma PresenceIsExclusive<T>(m: Maybe<T>)
    ensures m.IsJust() <==> !m.IsNothing()
    ensures m.AsBool() == m.IsJust()
  {
  }
}
