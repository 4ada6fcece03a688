/** The rewindable input cursor (cpparse/buffer.h). */
module Buffers {
  import opened Maybe

  /**
   * `buffer<T>`: a private copy of the input and an iterator into it. The
   * iterator is modelled as the index `pos` of the element it designates;
   * `|data|` plays the part of `end()`. The data is a constant field, so no
   * operation can change it.
   */
  class Buffer<T> {
    const data: seq<T>
    var pos: nat

    ghost predicate Valid()
      reads this
    {
      pos <= |data|
    }

    /** A new buffer is positioned at the first element. */
    constructor (d: seq<T>)
      ensures Valid()
      ensures data == d && pos == 0
    {
      data := d;
      pos := 0;
    }

    /** There is an element at the current position. */
    function HasNext(): (b: bool)
      reads this
      requires Valid()
      ensures b <==> pos != |data|
    {
      pos < |data|
    }

    /** Returns the current element and steps past it; nothing at the end. */
    method Next() returns (m: Maybe<T>)
      requires Valid()
      modifies this
      ensures Valid()
      ensures old(pos) == |data| ==> m == Nothing && pos == old(pos)
      ensures old(pos) < |data| ==> m == Just(data[old(pos)]) && pos == old(pos) + 1
    {
      if !HasNext() {
        return Nothing;
      }
      m := Just(data[pos]);
      pos := pos + 1;
    }

    /** The current position, for a later `Rewind`. */
    function Here(): (at: nat)
      reads this
      requires Valid()
      ensures at <= |data|
    {
      pos
    }

    /** Moves the cursor back (or forward) to a position taken from `Here`. */
    method Rewind(to: nat)
      requires to <= |data|
      modifies this
      ensures Valid() && pos == to
    {
      pos := to;
    }

    /** `operator*`: the current element, without moving. */
    function Current(): (x: T)
      reads this
      requires Valid() && HasNext()
      ensures x == data[pos]
    {
      data[pos]
    }
  }
}
