/**
 * The parsers and combinators of cpparse/detail/parser.h,
 * cpparse/detail/string_parser.h and cpparse/detail/combinator.h, and
 * their meaning.
 *
 * The C++ classes form one hierarchy under the abstract `parser<R, T>`
 * with a virtual `parse`; here they are the constructors of one datatype,
 * and `Eval` gives the meaning of `parse` for every constructor: what it
 * returns and where it leaves the cursor, for a fixed input string and a
 * cursor position. The imperative `parse` methods in module Parse are
 * proved to compute exactly `Eval`.
 *
 * Two kinds of parser object are updated after they are built: a forward
 * parser gets its target with `set_target`, and a block gets its steps with
 * `then` and its reducer with `evaluate`. These live in an arena (`Env`,
 * built by the `Grammar` class of module Builder) and parsers refer to them
 * by index, as the C++ parsers share them through pointers; this is also
 * what lets a grammar refer to itself.
 */
module Parsers {
  import opened Values
  import opened Errors
  import opened Maybe
  import Join

  /** The function a block hands its map of tagged results to. */
  type Reducer = map<string, Value> -> Result<Value>

  /** A parser object: the tag of the `parser` base class, and its kind. */
  datatype Parser = Parser(tag: string, node: Node)

  datatype Node =
    /** `forward_parser`: passes `parse` on to the target held in arena cell `cell`. */
    | Forward(cell: nat)
    /** `skip_parser<T, M>`: discards the result and returns `M()`. */
    | Skip(inner: Parser, m: Ty)
    /** `option_parser`: never fails, `alternate` stands in for a failed result. */
    | Alternate(inner: Parser, alternate: Value)
    /** `lift_parser`: maps the result through `f`. */
    | Lift(inner: Parser, f: Value -> Value)
    /** `oneof_parser`: one element that is among `choices`. */
    | OneOf(choices: seq<char>)
    /** `noneof_parser`: one element that is not among `rejects`. */
    | NoneOf(rejects: seq<char>)
    /** `string_parser`: exactly the characters of `text`. */
    | Literal(text: string)
    /** `char_parser`: exactly the character `c`. */
    | Single(c: char)
    /** `choice_combinator`: `first`, or else `second`. */
    | Choice(first: Parser, second: Parser)
    /** `sequence_combinator`: `first` then `second`, keeping the second result. */
    | Sequence(first: Parser, second: Parser)
    /** `merge_combinator`: `first` then `second`, joining both results. */
    | Merge(first: Parser, second: Parser, elem: Ty)
    /** `many_combinator`: `inner` repeated, at least `min` and (unless 0) at most `max` times. */
    | Many(inner: Parser, min: nat, max: nat, elem: Ty)
    /** `block_combinator`: the steps and reducer held in arena cell `cell`. */
    | Block(cell: nat)

  /**
   * The state of a `block_combinator<R, T, M>`: its step type M, the steps
   * appended by `then`, and the reducer installed by `evaluate` (an empty
   * `std::function` until then).
   */
  datatype BlockDef = BlockDef(m: Ty, steps: seq<Parser>, reducer: Maybe<Reducer>)

  /** The targets of all forward parsers and the state of all blocks. */
  datatype Env = Env(targets: seq<Maybe<Parser>>, blocks: seq<BlockDef>)

  /** What a call of `parse` does: its result and the cursor position after it, or a fault. */
  datatype Outcome = Done(result: Maybe<Value>, pos: nat) | Fault(fault: Fault)

  /**
   * The contract of `parser::parse`: on failure the cursor is back where it
   * was, on success it has only moved forward, and it never leaves the input.
   */
  predicate Backtracks(o: Outcome, pos: nat, n: nat)
  {
    o.Done? ==>
      && o.pos <= n
      && (o.result.Nothing? ==> o.pos == pos)
      && (o.result.Just? ==> pos <= o.pos)
  }

  /**
   * The meaning of `p.parse(buffer)` with the cursor at `pos` of `input`.
   * Each dereference of an arena cell (a forward target or a block) costs
   * one unit of `fuel`; running out is the fault `OutOfFuel`.
   */
  function Eval(env: Env, fuel: nat, p: Parser, input: string, pos: nat): (o: Outcome)
    requires pos <= |input|
    ensures Backtracks(o, pos, |input|)
    decreases fuel, p, 1, 0
  {
    match p.node
    case Forward(cell) =>
      if fuel == 0 then Fault(OutOfFuel)
      else if cell >= |env.targets| || env.targets[cell].Nothing? then Fault(NullParser)
      else Eval(env, fuel - 1, env.targets[cell].value, input, pos)
    case Skip(inner, m) =>
      var o := Eval(env, fuel, inner, input, pos);
      if o.Fault? then o
      else if o.result.Just? then Done(Just(Default(m)), o.pos)
      else Done(Nothing, o.pos)
    case Alternate(inner, alternate) =>
      var o := Eval(env, fuel, inner, input, pos);
      if o.Fault? then o
      else Done(Just(if o.result.Just? then o.result.value else alternate), o.pos)
    case Lift(inner, f) =>
      var o := Eval(env, fuel, inner, input, pos);
      if o.Fault? then o
      else if o.result.Nothing? then Done(Nothing, o.pos)
      else Done(Just(f(o.result.value)), o.pos)
    case OneOf(choices) =>
      if pos == |input| then Done(Nothing, pos)
      else if input[pos] in choices then Done(Just(Char(input[pos])), pos + 1)
      else Done(Nothing, pos)
    case NoneOf(rejects) =>
      if pos == |input| then Done(Nothing, pos)
      else if input[pos] !in rejects then Done(Just(Char(input[pos])), pos + 1)
      else Done(Nothing, pos)
    case Literal(text) =>
      EvalLiteral(text, input, pos, 0)
    case Single(c) =>
      if pos < |input| && input[pos] == c then Done(Just(Char(c)), pos + 1)
      else Done(Nothing, pos)
    case Choice(first, second) =>
      var o1 := Eval(env, fuel, first, input, pos);
      if o1.Fault? || o1.result.Just? then o1
      else
        var o2 := Eval(env, fuel, second, input, o1.pos);
        if o2.Fault? || o2.result.Just? then o2 else Done(Nothing, o2.pos)
    case Sequence(first, second) =>
      var o1 := Eval(env, fuel, first, input, pos);
      if o1.Fault? then o1
      else if o1.result.Nothing? then Done(Nothing, o1.pos)
      else
        var o2 := Eval(env, fuel, second, input, o1.pos);
        if o2.Fault? || o2.result.Just? then o2 else Done(Nothing, pos)
    case Merge(first, second, elem) =>
      var o1 := Eval(env, fuel, first, input, pos);
      if o1.Fault? then o1
      else if o1.result.Nothing? then Done(Nothing, o1.pos)
      else
        var acc := Join.Append(elem, Join.Empty(elem), o1.result.value);
        var o2 := Eval(env, fuel, second, input, o1.pos);
        if o2.Fault? then o2
        else if o2.result.Just? then Done(Just(Join.Append(elem, acc, o2.result.value)), o2.pos)
        else Done(Nothing, pos)
    case Many(_, _, _, elem) =>
      EvalMany(env, fuel, p, input, pos, 0, Join.Empty(elem), pos)
    case Block(cell) =>
      if fuel == 0 then Fault(OutOfFuel)
      else if cell >= |env.blocks| then Fault(NullParser)
      else EvalBlock(env, fuel - 1, env.blocks[cell], env.blocks[cell].steps, map[], input, pos, pos)
  }

  /**
   * The loop of `string_parser::parse` after the first `k` characters of
   * `text` have matched, with the cursor at `start + k`.
   */
  function EvalLiteral(text: string, input: string, start: nat, k: nat): (o: Outcome)
    requires k <= |text| && start + k <= |input|
    ensures Backtracks(o, start, |input|)
    decreases |text| - k
  {
    if k == |text| then Done(Just(Text(text)), start + k)
    else if start + k < |input| && input[start + k] == text[k] then EvalLiteral(text, input, start, k + 1)
    else Done(Nothing, start)
  }

  /** How `many_combinator::parse` ends after `i` successes: fail below `min`, else the aggregate. */
  function ManyEnd(min: nat, start: nat, i: nat, acc: Value, pos: nat): Outcome
  {
    if i < min then Done(Nothing, start) else Done(Just(acc), pos)
  }

  /**
   * The loop of `many_combinator::parse` (the many parser `p`) after `i`
   * successes that built `acc`, with the cursor at `pos`. With `max == 0`
   * an inner success that consumes nothing would repeat forever, since the
   * next attempt starts from the same position: that is `NoProgress`.
   */
  function EvalMany(env: Env, fuel: nat, p: Parser, input: string, start: nat, i: nat, acc: Value, pos: nat): (o: Outcome)
    requires p.node.Many?
    requires start <= pos <= |input|
    requires p.node.max > 0 ==> i <= p.node.max
    ensures Backtracks(o, start, |input|)
    decreases fuel, p, 0, if p.node.max > 0 then p.node.max - i else |input| - pos
  {
    if p.node.max == 0 || i < p.node.max then
      var o := Eval(env, fuel, p.node.inner, input, pos);
      if o.Fault? then o
      else if o.result.Nothing? then ManyEnd(p.node.min, start, i, acc, o.pos)
      else if p.node.max == 0 && o.pos == pos then Fault(NoProgress)
      else EvalMany(env, fuel, p, input, start, i + 1, Join.Append(p.node.elem, acc, o.result.value), o.pos)
    else
      ManyEnd(p.node.min, start, i, acc, pos)
  }

  /** Records a step's result under its tag; untagged results are not kept. */
  function Bind(bound: map<string, Value>, tag: string, v: Value): map<string, Value>
  {
    if |tag| > 0 then bound[tag := v] else bound
  }

  /**
   * The end of `block_combinator::parse` once every step has succeeded:
   * the reducer is called once, on the tagged results, and its output is
   * the block's result. Calling the empty `std::function` throws.
   */
  function Finish(def: BlockDef, bound: map<string, Value>, pos: nat): Outcome
  {
    match def.reducer
    case Nothing => Fault(EmptyReducer)
    case Just(f) =>
      match f(bound)
      case Ok(v) => Done(Just(v), pos)
      case Throw(e) => Fault(e)
  }

  /**
   * The loop of `block_combinator::parse` over the steps `rest` still to
   * run, with the tagged results so far in `bound` and the cursor at `pos`.
   */
  function EvalBlock(env: Env, fuel: nat, def: BlockDef, rest: seq<Parser>, bound: map<string, Value>,
                     input: string, start: nat, pos: nat): (o: Outcome)
    requires start <= pos <= |input|
    ensures Backtracks(o, start, |input|)
    decreases fuel, rest, 0, 0
  {
    if rest == [] then Finish(def, bound, pos)
    else
      var o := Eval(env, fuel, rest[0], input, pos);
      if o.Fault? then o
      else if o.result.Nothing? then Done(Nothing, start)
      else EvalBlock(env, fuel, def, rest[1..], Bind(bound, rest[0].tag, o.result.value), input, start, o.pos)
  }
}
