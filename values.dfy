/**
 * The result types of parsers. The library is a set of templates over a
 * result type R; the model keeps one datatype of values together with the
 * handful of types the library itself distinguishes: `char` and
 * `std::string` (which select their own accumulation policy), vectors,
 * integers and a unit-like empty value.
 */
module Values {

  datatype Ty = UnitTy | CharTy | TextTy | IntTy | ListTy(elem: Ty)

  datatype Value =
    | Unit
    | Char(c: char)
    | Text(s: string)
    | Int(i: int)
    | List(items: seq<Value>)

  predicate HasType(v: Value, t: Ty)
    decreases v
  {
    match t
    case UnitTy => v.Unit?
    case CharTy => v.Char?
    case TextTy => v.Text?
    case IntTy => v.Int?
    case ListTy(e) => v.List? && forall i :: 0 <= i < |v.items| ==> HasType(v.items[i], e)
  }

  /** The value-initialised `T()` of a type: '\0', "", 0, an empty vector. */
  function Default(t: Ty): (v: Value)
    ensures HasType(v, t)
  {
    match t
    case UnitTy => Unit
    case CharTy => Char('\0')
    case TextTy => Text("")
    case IntTy => Int(0)
    case ListTy(_) => List([])
  }
}
