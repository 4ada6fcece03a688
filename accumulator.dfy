/** The accumulator object used by `merge` and `many` (cpparse/accumulator.h). */
module Accumulators {
  import opened Values
  import Join

  /**
   * `accumulator<R>`: holds the aggregate built so far and extends it with
   * the `join<R>` policy of its element type.
   */
  class Accumulator {
    const elem: Ty
    var result: Value

    ghost predicate Valid()
      reads this
    {
      Join.IsAggregate(elem, result)
    }

    /** A fresh accumulator holds the empty aggregate. */
    constructor (elem: Ty)
      ensures Valid()
      ensures this.elem == elem && result == Join.Empty(elem)
    {
      this.elem := elem;
      result := Join.Empty(elem);
    }

    /** `append(v)`: applies the join policy to the held aggregate. */
    method Append(v: Value)
      modifies this
      ensures Valid()
      ensures result == Join.Append(elem, old(result), v)
    {
      result := Join.Append(elem, result, v);
    }

    /** `operator+=`: the same as `Append`. */
    method AddAssign(v: Value)
      modifies this
      ensures Valid()
      ensures result == Join.Append(elem, old(result), v)
    {
      Append(v);
    }

    /** `result()` and `operator*`: read the aggregate; nothing changes. */
    method Result() returns (res: Value)
      requires Valid()
      ensures res == result && Join.IsAggregate(elem, res)
    {
      res := result;
    }
  }
}
