/**
 * What each single parser of cpparse/detail/parser.h and
 * cpparse/detail/string_parser.h does, stated on `Parsers.Eval`.
 */
module PrimitiveLaws {
  import opened Values
  import opened Errors
  import opened Maybe
  import opened Parsers

  /** A bound forward parser returns exactly what its target returns, with the same cursor effect. */
  lemma ForwardPassesThrough(env: Env, fuel: nat, p: Parser, input: string, pos: nat)
    requires p.node.Forward? && pos <= |input|
    requires fuel > 0 && p.node.cell < |env.targets| && env.targets[p.node.cell].Just?
    ensures Eval(env, fuel, p, input, pos) == Eval(env, fuel - 1, env.targets[p.node.cell].value, input, pos)
  {
  }

  /** A forward parser whose target was never set dereferences a null pointer. */
  lemma UnsetForwardFaults(env: Env, fuel: nat, p: Parser, input: string, pos: nat)
    requires p.node.Forward? && pos <= |input| && fuel > 0
    requires p.node.cell < |env.targets| && env.targets[p.node.cell].Nothing?
    ensures Eval(env, fuel, p, input, pos) == Fault(NullParser)
  {
  }

  /** Skip succeeds exactly when its inner parser does, with `M()` as result and the same cursor. */
  lemma SkipDiscardsResult(env: Env, fuel: nat, p: Parser, input: string, pos: nat)
    requires p.node.Skip? && pos <= |input|
    ensures var o, inner := Eval(env, fuel, p, input, pos), Eval(env, fuel, p.node.inner, input, pos);
      && (o.Fault? <==> inner.Fault?)
      && (o.Done? ==> o.pos == inner.pos && (o.result.Just? <==> inner.result.Just?))
      && (o.Done? && o.result.Just? ==> o.result.value == Default(p.node.m))
  {
  }

  /** Option never fails: the inner result if there is one, the stored alternate otherwise. */
  lemma OptionNeverFails(env: Env, fuel: nat, p: Parser, input: string, pos: nat)
    requires p.node.Alternate? && pos <= |input|
    ensures var o, inner := Eval(env, fuel, p, input, pos), Eval(env, fuel, p.node.inner, input, pos);
      && (o.Fault? <==> inner.Fault?)
      && (o.Done? ==> o.result.Just? && o.pos == inner.pos)
      && (o.Done? && inner.result.Just? ==> o.result.value == inner.result.value)
      && (o.Done? && inner.result.Nothing? ==> o.result.value == p.node.alternate && o.pos == pos)
  {
  }

  /** Lift fails exactly when its inner parser fails; otherwise it returns `f` of the inner result. */
  lemma LiftMapsResult(env: Env, fuel: nat, p: Parser, input: string, pos: nat)
    requires p.node.Lift? && pos <= |input|
    ensures var o, inner := Eval(env, fuel, p, input, pos), Eval(env, fuel, p.node.inner, input, pos);
      && (o.Fault? <==> inner.Fault?)
      && (o.Done? ==> o.pos == inner.pos && (o.result.Just? <==> inner.result.Just?))
      && (o.Done? && o.result.Just? ==> o.result.value == p.node.f(inner.result.value))
  {
  }

  /**
   * One-of succeeds exactly when there is a next element and it is among
   * the choices; it then consumes that one element and returns it.
   * Otherwise, at the end of the input too, the cursor stays put.
   */
  lemma OneOfMatchesMember(env: Env, fuel: nat, p: Parser, input: string, pos: nat)
    requires p.node.OneOf? && pos <= |input|
    ensures var o := Eval(env, fuel, p, input, pos);
      && o.Done?
      && (o.result.Just? <==> pos < |input| && input[pos] in p.node.choices)
      && (o.result.Just? ==> o.result.value == Char(input[pos]) && o.pos == pos + 1)
      && (o.result.Nothing? ==> o.pos == pos)
  {
  }

  /** None-of is the same with the membership test negated. */
  lemma NoneOfMatchesNonMember(env: Env, fuel: nat, p: Parser, input: string, pos: nat)
    requires p.node.NoneOf? && pos <= |input|
    ensures var o := Eval(env, fuel, p, input, pos);
      && o.Done?
      && (o.result.Just? <==> pos < |input| && input[pos] !in p.node.rejects)
      && (o.result.Just? ==> o.result.value == Char(input[pos]) && o.pos == pos + 1)
      && (o.result.Nothing? ==> o.pos == pos)
  {
  }

  /** The input holds `text` at `pos`. */
  predicate HasAt(input: string, pos: nat, text: string)
  {
    pos + |text| <= |input| && input[pos..pos + |text|] == text
  }

  /** The string loop, once a prefix has matched, ends in a full match or a rewind. */
  lemma {:induction false} LiteralLoop(text: string, input: string, start: nat, k: nat)
    requires k <= |text| && start + k <= |input|
    requires input[start..start + k] == text[..k]
    ensures EvalLiteral(text, input, start, k) ==
      if HasAt(input, start, text) then Done(Just(Text(text)), start + |text|) else Done(Nothing, start)
    decreases |text| - k
  {
    if k == |text| {
      assert text[..k] == text;
    } else if start + k < |input| && input[start + k] == text[k] {
      assert input[start..start + k + 1] == input[start..start + k] + [input[start + k]];
      assert text[..k + 1] == text[..k] + [text[k]];
      LiteralLoop(text, input, start, k + 1);
    }
  }

  /**
   * The string parser succeeds exactly when the input holds the literal at
   * the cursor; it then returns the literal and advances by its length.
   * On any mismatch, or when the input runs out, the cursor is rewound.
   */
  lemma StringMatchesExactly(env: Env, fuel: nat, p: Parser, input: string, pos: nat)
    requires p.node.Literal? && pos <= |input|
    ensures Eval(env, fuel, p, input, pos) ==
      if HasAt(input, pos, p.node.text) then Done(Just(Text(p.node.text)), pos + |p.node.text|)
      else Done(Nothing, pos)
  {
    LiteralLoop(p.node.text, input, pos, 0);
  }

  /** The empty literal succeeds everywhere without consuming anything. */
  lemma EmptyStringConsumesNothing(env: Env, fuel: nat, p: Parser, input: string, pos: nat)
    requires p.node.Literal? && p.node.text == "" && pos <= |input|
    ensures Eval(env, fuel, p, input, pos) == Done(Just(Text("")), pos)
  {
  }

  /**
   * The char parser succeeds exactly when the next element is its
   * character, consuming it; otherwise, at the end of the input too, the
   * cursor stays put.
   */
  lemma CharMatchesOne(env: Env, fuel: nat, p: Parser, input: string, pos: nat)
    requires p.node.Single? && pos <= |input|
    ensures var o := Eval(env, fuel, p, input, pos);
      && o.Done?
      && (o.result.Just? <==> pos < |input| && input[pos] == p.node.c)
      && (o.result.Just? ==> o.result.value == Char(p.node.c) && o.pos == pos + 1)
      && (o.result.Nothing? ==> o.pos == pos)
  {
  }
}
