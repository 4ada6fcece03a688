/**
 * Building parsers: the factory functions of cpparse/parser.h and
 * cpparse/combinator.h, and the `Grammar` class that owns the parser
 * objects which are updated after they are built (forward targets and
 * blocks).
 */
module Builder {
  import opened Values
  import opened Maybe
  import P = Parsers
  import Join

  /** `skip(p)`, for `p` of result type `m`: a skip parser that returns `m()`. */
  function Skip(p: P.Parser, m: Ty): P.Parser
  {
    P.Parser("", P.Skip(p, m))
  }

  /** `option(p, a)`. */
  function Option(p: P.Parser, a: Value): P.Parser
  {
    P.Parser("", P.Alternate(p, a))
  }

  /** `optional(p)`, for `p` of result type `t`: an option whose alternate is `t()`. */
  function Optional(p: P.Parser, t: Ty): P.Parser
  {
    Option(p, Default(t))
  }

  /** `lift<R>(p, f)`. */
  function Lift(p: P.Parser, f: Value -> Value): P.Parser
  {
    P.Parser("", P.Lift(p, f))
  }

  /** `one_of(c)`. */
  function OneOf(choices: seq<char>): P.Parser
  {
    P.Parser("", P.OneOf(choices))
  }

  /** `none_of(r)`. */
  function NoneOf(rejects: seq<char>): P.Parser
  {
    P.Parser("", P.NoneOf(rejects))
  }

  /** `a | b`. */
  function Or(a: P.Parser, b: P.Parser): P.Parser
  {
    P.Parser("", P.Choice(a, b))
  }

  /** `a >> b`. */
  function AndThen(a: P.Parser, b: P.Parser): P.Parser
  {
    P.Parser("", P.Sequence(a, b))
  }

  /** `a >>= b`, joining under the policy of the element type `elem`. */
  function MergeWith(a: P.Parser, b: P.Parser, elem: Ty): P.Parser
  {
    P.Parser("", P.Merge(a, b, elem))
  }

  /** `many(p, min, max)` for `p` of result type `elem`; a `max` of 0 means unbounded. */
  function ManyOf(p: P.Parser, elem: Ty, min: nat := 0, max: nat := 0): P.Parser
  {
    P.Parser("", P.Many(p, min, max, elem))
  }

  /** `many1(p, max)`. */
  function Many1(p: P.Parser, elem: Ty, max: nat := 0): P.Parser
  {
    ManyOf(p, elem, 1, max)
  }

  /**
   * `block_converter<B, P>::convert`: a step whose result type `pTy` is the
   * block's `m` is kept as it is; any other step is lifted into one that
   * returns `m()`. The lift is a new parser object, so it has no tag.
   */
  function Convert(p: P.Parser, pTy: Ty, m: Ty): P.Parser
  {
    if pTy == m then p else Lift(p, (v: Value) => Default(m))
  }

  /** `optional(p)` never fails: when `p` fails it returns `t()` without consuming anything. */
  lemma OptionalDefaultsOnFailure(env: P.Env, fuel: nat, p: P.Parser, t: Ty, input: string, pos: nat)
    requires pos <= |input|
    ensures var o, inner := P.Eval(env, fuel, Optional(p, t), input, pos), P.Eval(env, fuel, p, input, pos);
      && (inner.Fault? ==> o == inner)
      && (inner.Done? && inner.result.Just? ==> o == inner)
      && (inner.Done? && inner.result.Nothing? ==> o == P.Done(Just(Default(t)), pos))
  {
  }

  /** The many loop with `min == 0` never fails; it can only fault. */
  lemma {:induction false} ManyLoopFromZero(env: P.Env, fuel: nat, p: P.Parser, input: string, start: nat, i: nat, acc: Value, pos: nat)
    requires p.node.Many? && p.node.min == 0
    requires start <= pos <= |input|
    requires p.node.max > 0 ==> i <= p.node.max
    ensures var o := P.EvalMany(env, fuel, p, input, start, i, acc, pos);
      o.Done? ==> o.result.Just?
    decreases if p.node.max > 0 then p.node.max - i else |input| - pos
  {
    if p.node.max == 0 || i < p.node.max {
      var o := P.Eval(env, fuel, p.node.inner, input, pos);
      if o.Done? && o.result.Just? && !(p.node.max == 0 && o.pos == pos) {
        ManyLoopFromZero(env, fuel, p, input, start, i + 1, Join.Append(p.node.elem, acc, o.result.value), o.pos);
      }
    }
  }

  /** `many(p)`, with its default `min` of 0, never fails. */
  lemma ManyNeverFails(env: P.Env, fuel: nat, p: P.Parser, elem: Ty, max: nat, input: string, pos: nat)
    requires pos <= |input|
    ensures var o := P.Eval(env, fuel, ManyOf(p, elem, 0, max), input, pos);
      o.Done? ==> o.result.Just?
  {
    ManyLoopFromZero(env, fuel, ManyOf(p, elem, 0, max), input, pos, 0, Join.Empty(elem), pos);
  }

  /** `many1(p)` fails, without consuming, when the first attempt of `p` fails. */
  lemma Many1NeedsOne(env: P.Env, fuel: nat, p: P.Parser, elem: Ty, max: nat, input: string, pos: nat)
    requires pos <= |input|
    requires P.Eval(env, fuel, p, input, pos).Done? && P.Eval(env, fuel, p, input, pos).result.Nothing?
    ensures P.Eval(env, fuel, Many1(p, elem, max), input, pos) == P.Done(Nothing, pos)
  {
  }

  /**
   * A converted step succeeds, fails and moves the cursor exactly as the
   * original step; its result is the step's own when the types agree and
   * `m()` otherwise, and only in the first case does it keep the tag.
   */
  lemma ConvertKeepsShape(env: P.Env, fuel: nat, p: P.Parser, pTy: Ty, m: Ty, input: string, pos: nat)
    requires pos <= |input|
    ensures var o, inner := P.Eval(env, fuel, Convert(p, pTy, m), input, pos), P.Eval(env, fuel, p, input, pos);
      && (o.Fault? <==> inner.Fault?)
      && (o.Done? ==> o.pos == inner.pos && (o.result.Just? <==> inner.result.Just?))
      && (o.Done? && o.result.Just? ==> o.result.value == if pTy == m then inner.result.value else Default(m))
      && Convert(p, pTy, m).tag == if pTy == m then p.tag else ""
  {
  }

  /** The tag of a parser does not change what it parses. */
  lemma TagKeepsMeaning(env: P.Env, fuel: nat, p: P.Parser, s: string, input: string, pos: nat)
    requires pos <= |input|
    ensures P.Eval(env, fuel, P.Parser(s, p.node), input, pos) == P.Eval(env, fuel, p, input, pos)
  {
    if p.node.Many? {
      ManyLoopIgnoresTag(env, fuel, p, s, input, pos, 0, Join.Empty(p.node.elem), pos);
    }
  }

  /** The many loop reads only the node of its parser. */
  lemma {:induction false} ManyLoopIgnoresTag(env: P.Env, fuel: nat, p: P.Parser, s: string, input: string,
                                              start: nat, i: nat, acc: Value, pos: nat)
    requires p.node.Many? && start <= pos <= |input|
    requires p.node.max > 0 ==> i <= p.node.max
    ensures P.EvalMany(env, fuel, P.Parser(s, p.node), input, start, i, acc, pos) == P.EvalMany(env, fuel, p, input, start, i, acc, pos)
    decreases if p.node.max > 0 then p.node.max - i else |input| - pos
  {
    if p.node.max == 0 || i < p.node.max {
      var o := P.Eval(env, fuel, p.node.inner, input, pos);
      if o.Done? && o.result.Just? && !(p.node.max == 0 && o.pos == pos) {
        ManyLoopIgnoresTag(env, fuel, p, s, input, start, i + 1, Join.Append(p.node.elem, acc, o.result.value), o.pos);
      }
    }
  }

  /**
   * Two handles whose arena cells hold the same state parse alike, whatever
   * their tags: a tagged copy of a forward parser or block behaves as the
   * original did when it was copied.
   */
  lemma CopiesAgree(env: P.Env, fuel: nat, p: P.Parser, q: P.Parser, input: string, pos: nat)
    requires pos <= |input|
    requires (p.node.Forward? && q.node.Forward?) || (p.node.Block? && q.node.Block?)
    requires p.node.Forward? ==>
      p.node.cell < |env.targets| && q.node.cell < |env.targets| && env.targets[p.node.cell] == env.targets[q.node.cell]
    requires p.node.Block? ==>
      p.node.cell < |env.blocks| && q.node.cell < |env.blocks| && env.blocks[p.node.cell] == env.blocks[q.node.cell]
    ensures P.Eval(env, fuel, q, input, pos) == P.Eval(env, fuel, p, input, pos)
  {
  }

  /**
   * The parser objects of a grammar that change after they are built: the
   * target of every forward parser (`forward_parser::set_target`) and the
   * steps and reducer of every block (`then`, `evaluate`). Parsers refer to
   * them by cell index, as C++ parsers share them by `shared_ptr`.
   */
  class Grammar {
    var targets: seq<Maybe<P.Parser>>
    var blocks: seq<P.BlockDef>

    /** A grammar with no forward parser and no block yet. */
    constructor ()
      ensures targets == [] && blocks == []
    {
      targets := [];
      blocks := [];
    }

    /** The current state, which `Eval` reads. */
    function Env(): P.Env
      reads this
    {
      P.Env(targets, blocks)
    }

    /** `placeholder<R, T>()`: a new forward parser whose target is still null. */
    method Placeholder() returns (p: P.Parser)
      modifies this
      ensures p == P.Parser("", P.Forward(|old(targets)|))
      ensures targets == old(targets) + [Nothing] && blocks == old(blocks)
    {
      p := P.Parser("", P.Forward(|targets|));
      targets := targets + [Nothing];
    }

    /**
     * `fwd->set_target(target)`: every handle on this forward parser now
     * reaches `target`; `Nothing` is the reset to `nullptr`, after which
     * parsing through the handle is a null dereference again.
     */
    method SetTarget(fwd: P.Parser, target: Maybe<P.Parser>)
      requires fwd.node.Forward? && fwd.node.cell < |targets|
      modifies this
      ensures targets == old(targets)[fwd.node.cell := target] && blocks == old(blocks)
      ensures Env().targets[fwd.node.cell] == target
    {
      targets := targets[fwd.node.cell := target];
    }

    /**
     * `p << tag(s)`: a copy of the parser object with tag `s`. Copying a
     * forward parser copies its target as it is now; copying a block
     * copies its steps and reducer. Either copy is a separate object, so
     * later updates of the original do not reach it.
     */
    method Tag(p: P.Parser, s: string) returns (q: P.Parser)
      requires p.node.Forward? ==> p.node.cell < |targets|
      requires p.node.Block? ==> p.node.cell < |blocks|
      modifies this
      ensures q.tag == s
      ensures p.node.Forward? ==>
        && q.node == P.Forward(|old(targets)|)
        && targets == old(targets) + [old(targets)[p.node.cell]] && blocks == old(blocks)
      ensures p.node.Block? ==>
        && q.node == P.Block(|old(blocks)|)
        && blocks == old(blocks) + [old(blocks)[p.node.cell]] && targets == old(targets)
      ensures !p.node.Forward? && !p.node.Block? ==>
        q.node == p.node && targets == old(targets) && blocks == old(blocks)
    {
      match p.node
      case Forward(cell) =>
        q := P.Parser(s, P.Forward(|targets|));
        targets := targets + [targets[cell]];
      case Block(cell) =>
        q := P.Parser(s, P.Block(|blocks|));
        blocks := blocks + [blocks[cell]];
      case _ =>
        q := P.Parser(s, p.node);
    }

    /** `block<R, T, M>()`: a new block with no steps and an empty reducer. */
    method NewBlock(m: Ty) returns (b: P.Parser)
      modifies this
      ensures b == P.Parser("", P.Block(|old(blocks)|))
      ensures blocks == old(blocks) + [P.BlockDef(m, [], Nothing)] && targets == old(targets)
    {
      b := P.Parser("", P.Block(|blocks|));
      blocks := blocks + [P.BlockDef(m, [], Nothing)];
    }

    /** `block_combinator::then(p)`: appends a step. */
    method Then(b: P.Parser, p: P.Parser)
      requires b.node.Block? && b.node.cell < |blocks|
      modifies this
      ensures blocks == old(blocks)[b.node.cell := old(blocks)[b.node.cell].(steps := old(blocks)[b.node.cell].steps + [p])]
      ensures targets == old(targets)
    {
      var def := blocks[b.node.cell];
      blocks := blocks[b.node.cell := def.(steps := def.steps + [p])];
    }

    /** `block_combinator::evaluate(f)`: installs the reducer, replacing any earlier one. */
    method Evaluate(b: P.Parser, f: P.Reducer)
      requires b.node.Block? && b.node.cell < |blocks|
      modifies this
      ensures blocks == old(blocks)[b.node.cell := old(blocks)[b.node.cell].(reducer := Just(f))]
      ensures targets == old(targets)
    {
      var def := blocks[b.node.cell];
      blocks := blocks[b.node.cell := def.(reducer := Just(f))];
    }

    /** `b ->* p`, for a step `p` of result type `pTy`: appends the converted step and returns `b`. */
    method AddStep(b: P.Parser, p: P.Parser, pTy: Ty) returns (b': P.Parser)
      requires b.node.Block? && b.node.cell < |blocks|
      modifies this
      ensures b' == b
      ensures var def := old(blocks)[b.node.cell];
        blocks == old(blocks)[b.node.cell := def.(steps := def.steps + [Convert(p, pTy, def.m)])]
      ensures targets == old(targets)
    {
      Then(b, Convert(p, pTy, blocks[b.node.cell].m));
      b' := b;
    }

    /** `b ^ f`: installs the reducer and returns `b`. */
    method SetReducer(b: P.Parser, f: P.Reducer) returns (b': P.Parser)
      requires b.node.Block? && b.node.cell < |blocks|
      modifies this
      ensures b' == b
      ensures blocks == old(blocks)[b.node.cell := old(blocks)[b.node.cell].(reducer := Just(f))]
      ensures targets == old(targets)
    {
      Evaluate(b, f);
      b' := b;
    }
  }
}
