/**
 * The `parse` member functions of every parser class, as they run: on a
 * shared `Buffer` that they advance with `Next` and reset with `Rewind`.
 * Each is proved to compute `Parsers.Eval`: its result and the cursor
 * position it leaves behind (or the fault it raises instead).
 */
module Parse {
  import opened Values
  import opened Errors
  import opened Maybe
  import opened Buffers
  import opened Accumulators
  import opened Parsers

  /** A returned result read together with the cursor position left behind. */
  function Observe(r: Result<Maybe<Value>>, pos: nat): Outcome
  {
    match r
    case Ok(m) => Done(m, pos)
    case Throw(e) => Fault(e)
  }

  /** `parser::parse`, dispatched on the kind of parser. */
  method Parse(env: Env, fuel: nat, p: Parser, buf: Buffer<char>) returns (r: Result<Maybe<Value>>)
    requires buf.Valid()
    modifies buf
    ensures buf.Valid()
    ensures Observe(r, buf.pos) == Eval(env, fuel, p, buf.data, old(buf.pos))
    decreases fuel, p, 2
  {
    match p.node
    case Forward(_) => r := ParseForward(env, fuel, p, buf);
    case Skip(_, _) => r := ParseSkip(env, fuel, p, buf);
    case Alternate(_, _) => r := ParseOption(env, fuel, p, buf);
    case Lift(_, _) => r := ParseLift(env, fuel, p, buf);
    case OneOf(_) => r := ParseOneOf(p, buf);
    case NoneOf(_) => r := ParseNoneOf(p, buf);
    case Literal(_) => r := ParseString(p, buf);
    case Single(_) => r := ParseChar(p, buf);
    case Choice(_, _) => r := ParseChoice(env, fuel, p, buf);
    case Sequence(_, _) => r := ParseSequence(env, fuel, p, buf);
    case Merge(_, _, _) => r := ParseMerge(env, fuel, p, buf);
    case Many(_, _, _, _) => r := ParseMany(env, fuel, p, buf);
    case Block(_) => r := ParseBlock(env, fuel, p, buf);
  }

  /** `forward_parser::parse`: the target's parse, unchanged. */
  method ParseForward(env: Env, fuel: nat, p: Parser, buf: Buffer<char>) returns (r: Result<Maybe<Value>>)
    requires p.node.Forward? && buf.Valid()
    modifies buf
    ensures buf.Valid()
    ensures Observe(r, buf.pos) == Eval(env, fuel, p, buf.data, old(buf.pos))
    decreases fuel, p, 1
  {
    if fuel == 0 {
      return Throw(OutOfFuel);
    }
    var cell := p.node.cell;
    if cell >= |env.targets| || env.targets[cell].Nothing? {
      return Throw(NullParser);
    }
    r := Parse(env, fuel - 1, env.targets[cell].value, buf);
  }

  /** `skip_parser::parse`. */
  method ParseSkip(env: Env, fuel: nat, p: Parser, buf: Buffer<char>) returns (r: Result<Maybe<Value>>)
    requires p.node.Skip? && buf.Valid()
    modifies buf
    ensures buf.Valid()
    ensures Observe(r, buf.pos) == Eval(env, fuel, p, buf.data, old(buf.pos))
    decreases fuel, p, 1
  {
    var ignore := Parse(env, fuel, p.node.inner, buf);
    if ignore.Throw? {
      return ignore;
    }
    if ignore.value.IsJust() {
      return Ok(Just(Default(p.node.m)));
    }
    return Ok(Nothing);
  }

  /** `option_parser::parse`. */
  method ParseOption(env: Env, fuel: nat, p: Parser, buf: Buffer<char>) returns (r: Result<Maybe<Value>>)
    requires p.node.Alternate? && buf.Valid()
    modifies buf
    ensures buf.Valid()
    ensures Observe(r, buf.pos) == Eval(env, fuel, p, buf.data, old(buf.pos))
    decreases fuel, p, 1
  {
    var possible := Parse(env, fuel, p.node.inner, buf);
    if possible.Throw? {
      return possible;
    }
    var result := if possible.value.IsJust() then possible.value.FromJust().value else p.node.alternate;
    return Ok(Just(result));
  }

  /** `lift_parser::parse`. */
  method ParseLift(env: Env, fuel: nat, p: Parser, buf: Buffer<char>) returns (r: Result<Maybe<Value>>)
    requires p.node.Lift? && buf.Valid()
    modifies buf
    ensures buf.Valid()
    ensures Observe(r, buf.pos) == Eval(env, fuel, p, buf.data, old(buf.pos))
    decreases fuel, p, 1
  {
    var toLift := Parse(env, fuel, p.node.inner, buf);
    if toLift.Throw? {
      return toLift;
    }
    if toLift.value.IsNothing() {
      return Ok(Nothing);
    }
    var lifted := p.node.f(toLift.value.FromJust().value);
    return Ok(Just(lifted));
  }

  /** `oneof_parser::parse`. */
  method ParseOneOf(p: Parser, buf: Buffer<char>) returns (r: Result<Maybe<Value>>)
    requires p.node.OneOf? && buf.Valid()
    modifies buf
    ensures buf.Valid()
    ensures Observe(r, buf.pos) == Eval(Env([], []), 0, p, buf.data, old(buf.pos))
  {
    var start := buf.Here();
    var next := buf.Next();
    if next.IsNothing() {
      return Ok(Nothing);
    }
    var result := next.FromJust().value;
    if result in p.node.choices {
      return Ok(Just(Char(result)));
    }
    buf.Rewind(start);
    return Ok(Nothing);
  }

  /** `noneof_parser::parse`. */
  method ParseNoneOf(p: Parser, buf: Buffer<char>) returns (r: Result<Maybe<Value>>)
    requires p.node.NoneOf? && buf.Valid()
    modifies buf
    ensures buf.Valid()
    ensures Observe(r, buf.pos) == Eval(Env([], []), 0, p, buf.data, old(buf.pos))
  {
    var start := buf.Here();
    var next := buf.Next();
    if next.IsNothing() {
      return Ok(Nothing);
    }
    var result := next.FromJust().value;
    if result !in p.node.rejects {
      return Ok(Just(Char(result)));
    }
    buf.Rewind(start);
    return Ok(Nothing);
  }

  /** `string_parser::parse`. */
  method ParseString(p: Parser, buf: Buffer<char>) returns (r: Result<Maybe<Value>>)
    requires p.node.Literal? && buf.Valid()
    modifies buf
    ensures buf.Valid()
    ensures Observe(r, buf.pos) == Eval(Env([], []), 0, p, buf.data, old(buf.pos))
  {
    var text := p.node.text;
    var start := buf.Here();
    for k := 0 to |text|
      invariant buf.Valid() && buf.pos == start + k
      invariant EvalLiteral(text, buf.data, start, k) == EvalLiteral(text, buf.data, start, 0)
    {
      var next := buf.Next();
      if next.IsJust() && next.FromJust().value == text[k] {
        continue;
      }
      buf.Rewind(start);
      return Ok(Nothing);
    }
    return Ok(Just(Text(text)));
  }

  /** `char_parser::parse`. */
  method ParseChar(p: Parser, buf: Buffer<char>) returns (r: Result<Maybe<Value>>)
    requires p.node.Single? && buf.Valid()
    modifies buf
    ensures buf.Valid()
    ensures Observe(r, buf.pos) == Eval(Env([], []), 0, p, buf.data, old(buf.pos))
  {
    var start := buf.Here();
    var next := buf.Next();
    if next.IsJust() && next.FromJust().value == p.node.c {
      return Ok(Just(Char(p.node.c)));
    }
    buf.Rewind(start);
    return Ok(Nothing);
  }

  /** `choice_combinator::parse`. */
  method ParseChoice(env: Env, fuel: nat, p: Parser, buf: Buffer<char>) returns (r: Result<Maybe<Value>>)
    requires p.node.Choice? && buf.Valid()
    modifies buf
    ensures buf.Valid()
    ensures Observe(r, buf.pos) == Eval(env, fuel, p, buf.data, old(buf.pos))
    decreases fuel, p, 1
  {
    var firstResult := Parse(env, fuel, p.node.first, buf);
    if firstResult.Throw? || firstResult.value.IsJust() {
      return firstResult;
    }
    var secondResult := Parse(env, fuel, p.node.second, buf);
    if secondResult.Throw? || secondResult.value.IsJust() {
      return secondResult;
    }
    return Ok(Nothing);
  }

  /** `sequence_combinator::parse`. */
  method ParseSequence(env: Env, fuel: nat, p: Parser, buf: Buffer<char>) returns (r: Result<Maybe<Value>>)
    requires p.node.Sequence? && buf.Valid()
    modifies buf
    ensures buf.Valid()
    ensures Observe(r, buf.pos) == Eval(env, fuel, p, buf.data, old(buf.pos))
    decreases fuel, p, 1
  {
    var start := buf.Here();
    var firstResult := Parse(env, fuel, p.node.first, buf);
    if firstResult.Throw? {
      return firstResult;
    }
    if firstResult.value.IsNothing() {
      return Ok(Nothing);
    }
    var secondResult := Parse(env, fuel, p.node.second, buf);
    if secondResult.Throw? || secondResult.value.IsJust() {
      return secondResult;
    }
    buf.Rewind(start);
    return Ok(Nothing);
  }

  /** `merge_combinator::parse`. */
  method ParseMerge(env: Env, fuel: nat, p: Parser, buf: Buffer<char>) returns (r: Result<Maybe<Value>>)
    requires p.node.Merge? && buf.Valid()
    modifies buf
    ensures buf.Valid()
    ensures Observe(r, buf.pos) == Eval(env, fuel, p, buf.data, old(buf.pos))
    decreases fuel, p, 1
  {
    var start := buf.Here();
    var firstResult := Parse(env, fuel, p.node.first, buf);
    if firstResult.Throw? {
      return firstResult;
    }
    if firstResult.value.IsNothing() {
      return Ok(Nothing);
    }
    var accum := new Accumulator(p.node.elem);
    accum.Append(firstResult.value.FromJust().value);
    var secondResult := Parse(env, fuel, p.node.second, buf);
    if secondResult.Throw? {
      return secondResult;
    }
    if secondResult.value.IsJust() {
      accum.Append(secondResult.value.FromJust().value);
      var total := accum.Result();
      return Ok(Just(total));
    }
    buf.Rewind(start);
    return Ok(Nothing);
  }

  /**
   * `many_combinator::parse`. The source's loop never ends when `max` is 0
   * and the inner parser succeeds without consuming; this method stops
   * there and reports `NoProgress` instead.
   */
  method ParseMany(env: Env, fuel: nat, p: Parser, buf: Buffer<char>) returns (r: Result<Maybe<Value>>)
    requires p.node.Many? && buf.Valid()
    modifies buf
    ensures buf.Valid()
    ensures Observe(r, buf.pos) == Eval(env, fuel, p, buf.data, old(buf.pos))
    decreases fuel, p, 1
  {
    var start := buf.Here();
    var max := p.node.max;
    var i := 0;
    var accum := new Accumulator(p.node.elem);
    while max == 0 || i < max
      invariant buf.Valid() && start <= buf.pos
      invariant max > 0 ==> i <= max
      invariant accum.elem == p.node.elem && accum.Valid()
      invariant EvalMany(env, fuel, p, buf.data, start, i, accum.result, buf.pos) == Eval(env, fuel, p, buf.data, start)
      decreases if max > 0 then max - i else |buf.data| - buf.pos
    {
      var before := buf.Here();
      var next := Parse(env, fuel, p.node.inner, buf);
      if next.Throw? {
        return next;
      }
      if next.value.IsNothing() {
        assert Eval(env, fuel, p, buf.data, start) == ManyEnd(p.node.min, start, i, accum.result, buf.pos);
        break;
      }
      if max == 0 && buf.pos == before {
        return Throw(NoProgress);
      }
      i := i + 1;
      accum.Append(next.value.FromJust().value);
    }
    if i < p.node.min {
      buf.Rewind(start);
      return Ok(Nothing);
    }
    var repeated := accum.Result();
    return Ok(Just(repeated));
  }

  /** `block_combinator::parse`. */
  method ParseBlock(env: Env, fuel: nat, p: Parser, buf: Buffer<char>) returns (r: Result<Maybe<Value>>)
    requires p.node.Block? && buf.Valid()
    modifies buf
    ensures buf.Valid()
    ensures Observe(r, buf.pos) == Eval(env, fuel, p, buf.data, old(buf.pos))
    decreases fuel, p, 1
  {
    if fuel == 0 {
      return Throw(OutOfFuel);
    }
    var cell := p.node.cell;
    if cell >= |env.blocks| {
      return Throw(NullParser);
    }
    var def := env.blocks[cell];
    var start := buf.Here();
    var bound: map<string, Value> := map[];
    for k := 0 to |def.steps|
      invariant buf.Valid() && start <= buf.pos
      invariant EvalBlock(env, fuel - 1, def, def.steps[k..], bound, buf.data, start, buf.pos) == Eval(env, fuel, p, buf.data, start)
    {
      var step := def.steps[k];
      assert def.steps[k..][0] == step && def.steps[k..][1..] == def.steps[k + 1..];
      var result := Parse(env, fuel - 1, step, buf);
      if result.Throw? {
        return result;
      }
      if result.value.IsNothing() {
        buf.Rewind(start);
        return Ok(Nothing);
      }
      if |step.tag| > 0 {
        bound := bound[step.tag := result.value.FromJust().value];
      }
    }
    assert def.steps[|def.steps|..] == [];
    match def.reducer
    case Nothing =>
      return Throw(EmptyReducer);
    case Just(f) =>
      var final := f(bound);
      if final.Throw? {
        return Throw(final.fault);
      }
      return Ok(Just(final.value));
  }
}
