/**
 * The accumulation policy (cpparse/detail/join.h): how the results of
 * repeated or merged parses are collected into one aggregate. The policy is
 * chosen by the element type: `char` and `std::string` elements build a
 * string, every other element type builds a vector.
 */
module Join {
  import opened Values

  /** Element types with their own specialisation of `join`. */
  predicate IsTextual(r: Ty) { r.CharTy? || r.TextTy? }

  /** `join<R>::result_type`. */
  function ResultTy(r: Ty): (t: Ty)
    ensures IsTextual(r) ==> t == TextTy
    ensures !IsTextual(r) ==> t == ListTy(r)
  {
    match r
    case CharTy => TextTy
    case TextTy => TextTy
    case _ => ListTy(r)
  }

  /** The shape of an aggregate of element type `r`. */
  predicate IsAggregate(r: Ty, res: Value)
  {
    if IsTextual(r) then res.Text? else res.List?
  }

  /** `result_type()`: the empty string or the empty vector. */
  function Empty(r: Ty): (res: Value)
    ensures IsAggregate(r, res)
    ensures HasType(res, ResultTy(r))
  {
    Default(ResultTy(r))
  }

  function TextOf(res: Value): string
  {
    if res.Text? then res.s else ""
  }

  function ItemsOf(res: Value): seq<Value>
  {
    if res.List? then res.items else []
  }

  /**
   * `join<R>::append(res, v)`, returning the updated `res`. The C++ types
   * guarantee that `v` has type `r`; a value of another kind adds nothing
   * to a string aggregate.
   */
  function Append(r: Ty, res: Value, v: Value): (res': Value)
    ensures IsAggregate(r, res')
  {
    match r
    case CharTy => Text(TextOf(res) + (if v.Char? then [v.c] else []))
    case TextTy => Text(TextOf(res) + (if v.Text? then v.s else ""))
    case _ => List(ItemsOf(res) + [v])
  }

  /** The generic policy pushes `v` at the end of the vector. */
  lemma AppendPushesBack(r: Ty, items: seq<Value>, v: Value)
    requires !IsTextual(r)
    ensures Append(r, List(items), v).List?
    ensures |Append(r, List(items), v).items| == |items| + 1
    ensures Append(r, List(items), v).items[..|items|] == items
    ensures Append(r, List(items), v).items[|items|] == v
  {
  }

  /** For `char`, the character is added at the end of the string. */
  lemma AppendCharExtends(s: string, c: char)
    ensures Append(CharTy, Text(s), Char(c)) == Text(s + [c])
  {
  }

  /** For `std::string`, the element is concatenated onto the string. */
  lemma AppendTextConcatenates(s: string, t: string)
    ensures Append(TextTy, Text(s), Text(t)) == Text(s + t)
  {
  }

  /** Appending a well-typed element keeps the aggregate well-typed. */
  lemma AppendKeepsType(r: Ty, res: Value, v: Value)
    requires HasType(res, ResultTy(r)) && HasType(v, r)
    ensures HasType(Append(r, res, v), ResultTy(r))
  {
    if !IsTextual(r) {
      var items := res.items + [v];
      assert forall i :: 0 <= i < |items| ==> HasType(items[i], r) by {
        forall i | 0 <= i < |items| ensures HasType(items[i], r) {
          if i < |res.items| { assert items[i] == res.items[i]; }
        }
      }
    }
  }

  /** Appends `vs` to `acc` one by one, first element first. */
  function FoldOnto(r: Ty, acc: Value, vs: seq<Value>): Value
    decreases |vs|
  {
    if vs == [] then acc else FoldOnto(r, Append(r, acc, vs[0]), vs[1..])
  }

  /** The aggregate built by appending `vs` in order to a fresh aggregate. */
  function Fold(r: Ty, vs: seq<Value>): Value
  {
    FoldOnto(r, Empty(r), vs)
  }

  /** Appending one more element after a fold is the fold of the longer sequence. */
  lemma {:induction false} FoldOntoSnoc(r: Ty, acc: Value, vs: seq<Value>, v: Value)
    ensures FoldOnto(r, acc, vs + [v]) == Append(r, FoldOnto(r, acc, vs), v)
    decreases |vs|
  {
    if vs == [] {
      assert [] + [v] == [v];
    } else {
      assert (vs + [v])[1..] == vs[1..] + [v];
      FoldOntoSnoc(r, Append(r, acc, vs[0]), vs[1..], v);
    }
  }

  /** The generic fold collects exactly the elements, in order. */
  lemma {:induction false} FoldCollects(r: Ty, items: seq<Value>, vs: seq<Value>)
    requires !IsTextual(r)
    ensures FoldOnto(r, List(items), vs) == List(items + vs)
    decreases |vs|
  {
    if vs == [] {
      assert items + vs == items;
    } else {
      assert items + vs == (items + [vs[0]]) + vs[1..];
      FoldCollects(r, items + [vs[0]], vs[1..]);
    }
  }

  /** The characters carried by a sequence of `Char` values. */
  function CharsOf(vs: seq<Value>): (s: string)
    requires forall i :: 0 <= i < |vs| ==> vs[i].Char?
    ensures |s| == |vs|
    ensures forall i :: 0 <= i < |vs| ==> s[i] == vs[i].c
    decreases |vs|
  {
    if vs == [] then "" else [vs[0].c] + CharsOf(vs[1..])
  }

  /** The `char` fold spells out the characters, in order. */
  lemma {:induction false} FoldSpells(s: string, vs: seq<Value>)
    requires forall i :: 0 <= i < |vs| ==> vs[i].Char?
    ensures FoldOnto(CharTy, Text(s), vs) == Text(s + CharsOf(vs))
    decreases |vs|
  {
    if vs == [] {
      assert s + CharsOf(vs) == s;
    } else {
      assert CharsOf(vs) == [vs[0].c] + CharsOf(vs[1..]);
      assert s + CharsOf(vs) == (s + [vs[0].c]) + CharsOf(vs[1..]);
      FoldSpells(s + [vs[0].c], vs[1..]);
    }
  }

  /** The strings carried by a sequence of `Text` values, concatenated. */
  function Concat(vs: seq<Value>): string
    requires forall i :: 0 <= i < |vs| ==> vs[i].Text?
    decreases |vs|
  {
    if vs == [] then "" else vs[0].s + Concat(vs[1..])
  }

  /** The `std::string` fold concatenates the strings, in order. */
  lemma {:induction false} FoldConcatenates(s: string, vs: seq<Value>)
    requires forall i :: 0 <= i < |vs| ==> vs[i].Text?
    ensures FoldOnto(TextTy, Text(s), vs) == Text(s + Concat(vs))
    decreases |vs|
  {
    if vs == [] {
      assert s + Concat(vs) == s;
    } else {
      assert s + Concat(vs) == (s + vs[0].s) + Concat(vs[1..]);
      FoldConcatenates(s + vs[0].s, vs[1..]);
    }
  }
}
