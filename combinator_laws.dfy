/**
 * What each combinator of cpparse/detail/combinator.h does, stated on
 * `Parsers.Eval`, with independent reference definitions for the two
 * loops: `Iterate` for `many` and `RunSteps`/`BindAll` for `block`.
 */
module CombinatorLaws {
  import opened Values
  import opened Errors
  import opened Maybe
  import opened Parsers
  import Join

  /**
   * Choice is left-biased: a success (or fault) of the first alternative
   * is the answer; only when it fails is the second tried, from the same
   * position. The choice fails exactly when both alternatives fail.
   */
  lemma ChoicePrefersFirst(env: Env, fuel: nat, p: Parser, input: string, pos: nat)
    requires p.node.Choice? && pos <= |input|
    ensures var o, o1, o2 := Eval(env, fuel, p, input, pos),
                             Eval(env, fuel, p.node.first, input, pos),
                             Eval(env, fuel, p.node.second, input, pos);
      && (o1.Fault? || o1.result.Just? ==> o == o1)
      && (o1.Done? && o1.result.Nothing? ==> o == o2)
      && (o.Done? && o.result.Nothing? <==>
            o1.Done? && o1.result.Nothing? && o2.Done? && o2.result.Nothing?)
  {
  }

  /**
   * Sequence keeps the second result and its cursor when both parsers
   * succeed. When either fails the whole sequence fails with the cursor
   * back where it started, even if the first parser had consumed input.
   */
  lemma SequenceKeepsSecond(env: Env, fuel: nat, p: Parser, input: string, pos: nat)
    requires p.node.Sequence? && pos <= |input|
    ensures var o, o1 := Eval(env, fuel, p, input, pos), Eval(env, fuel, p.node.first, input, pos);
      && (o1.Fault? ==> o == o1)
      && (o1.Done? && o1.result.Nothing? ==> o == Done(Nothing, pos))
      && (o1.Done? && o1.result.Just? ==>
            var o2 := Eval(env, fuel, p.node.second, input, o1.pos);
            && (o2.Fault? || o2.result.Just? ==> o == o2)
            && (o2.Done? && o2.result.Nothing? ==> o == Done(Nothing, pos)))
  {
  }

  /**
   * Merge joins both results into one aggregate under the element type's
   * policy; if either parser fails it fails with the cursor rewound.
   */
  lemma MergeJoinsBoth(env: Env, fuel: nat, p: Parser, input: string, pos: nat)
    requires p.node.Merge? && pos <= |input|
    ensures var o, o1 := Eval(env, fuel, p, input, pos), Eval(env, fuel, p.node.first, input, pos);
      && (o1.Fault? ==> o == o1)
      && (o1.Done? && o1.result.Nothing? ==> o == Done(Nothing, pos))
      && (o1.Done? && o1.result.Just? ==>
            var o2 := Eval(env, fuel, p.node.second, input, o1.pos);
            && (o2.Fault? ==> o == o2)
            && (o2.Done? && o2.result.Nothing? ==> o == Done(Nothing, pos))
            && (o2.Done? && o2.result.Just? ==>
                  o == Done(Just(Join.Fold(p.node.elem, [o1.result.value, o2.result.value])), o2.pos)))
  {
    var o1 := Eval(env, fuel, p.node.first, input, pos);
    if o1.Done? && o1.result.Just? {
      var o2 := Eval(env, fuel, p.node.second, input, o1.pos);
      if o2.Done? && o2.result.Just? {
        var r, v1, v2 := p.node.elem, o1.result.value, o2.result.value;
        var acc := Join.Append(r, Join.Empty(r), v1);
        assert [v1, v2][1..] == [v2] && [v2][1..] == [];
        assert Join.FoldOnto(r, acc, [v2]) == Join.FoldOnto(r, Join.Append(r, acc, v2), []);
        assert Join.Fold(r, [v1, v2]) == Join.FoldOnto(r, acc, [v2]);
      }
    }
  }

  /** Merging two characters, as in `character('a') >>= character('b')`, spells the two-character string. */
  lemma MergeOfCharsSpells(env: Env, fuel: nat, p: Parser, input: string, pos: nat, c1: char, q1: nat, c2: char, q2: nat)
    requires p.node.Merge? && p.node.elem == CharTy && pos <= |input|
    requires Eval(env, fuel, p.node.first, input, pos) == Done(Just(Char(c1)), q1)
    requires q1 <= |input| && Eval(env, fuel, p.node.second, input, q1) == Done(Just(Char(c2)), q2)
    ensures Eval(env, fuel, p, input, pos) == Done(Just(Text([c1, c2])), q2)
  {
    MergeJoinsBoth(env, fuel, p, input, pos);
    Join.FoldSpells("", [Char(c1), Char(c2)]);
    assert Join.Empty(CharTy) == Text("");
    assert Join.CharsOf([Char(c1), Char(c2)]) == [c1, c2];
    assert Join.Fold(CharTy, [Char(c1), Char(c2)]) == Text("" + [c1, c2]);
    assert "" + [c1, c2] == [c1, c2];
  }

  /**
   * `k` consecutive successes of `inner` starting at `pos`: their results
   * and the final cursor. With `strict` (an unbounded `many`) every one of
   * them must consume input.
   */
  function Iterate(env: Env, fuel: nat, inner: Parser, input: string, pos: nat, k: nat, strict: bool): (r: Maybe<(seq<Value>, nat)>)
    requires pos <= |input|
    ensures r.Just? ==> |r.value.0| == k && pos <= r.value.1 <= |input|
    decreases k
  {
    if k == 0 then Just(([], pos))
    else
      var o := Eval(env, fuel, inner, input, pos);
      if o.Fault? || o.result.Nothing? || (strict && o.pos == pos) then Nothing
      else
        match Iterate(env, fuel, inner, input, o.pos, k - 1, strict)
        case Nothing => Nothing
        case Just(run) => Just(([o.result.value] + run.0, run.1))
  }

  /** The many loop runs through a sequence of successes, folding each result into the aggregate. */
  lemma {:induction false} ManyRuns(env: Env, fuel: nat, p: Parser, input: string, start: nat, i: nat, acc: Value, pos: nat, k: nat)
    requires p.node.Many? && start <= pos <= |input|
    requires p.node.max > 0 ==> i + k <= p.node.max
    requires Iterate(env, fuel, p.node.inner, input, pos, k, p.node.max == 0).Just?
    ensures var run := Iterate(env, fuel, p.node.inner, input, pos, k, p.node.max == 0).value;
      EvalMany(env, fuel, p, input, start, i, acc, pos) ==
      EvalMany(env, fuel, p, input, start, i + k, Join.FoldOnto(p.node.elem, acc, run.0), run.1)
    decreases k
  {
    if k > 0 {
      var o := Eval(env, fuel, p.node.inner, input, pos);
      var acc' := Join.Append(p.node.elem, acc, o.result.value);
      ManyRuns(env, fuel, p, input, start, i + 1, acc', o.pos, k - 1);
      var rest := Iterate(env, fuel, p.node.inner, input, o.pos, k - 1, p.node.max == 0).value;
      var vs := [o.result.value] + rest.0;
      assert vs[0] == o.result.value && vs[1..] == rest.0;
    }
  }

  /**
   * What `many(p, min, max)` returns. Take the run of `n` successes of the
   * inner parser from `pos` that stops either at `max` (when `max > 0`) or
   * because the next attempt fails: the many parser fails, rewound, when
   * `n < min`, and otherwise returns the fold of the `n` results with the
   * cursor after the last of them.
   */
  lemma ManyMeaning(env: Env, fuel: nat, p: Parser, input: string, pos: nat, n: nat)
    requires p.node.Many? && pos <= |input|
    requires p.node.max > 0 ==> n <= p.node.max
    requires Iterate(env, fuel, p.node.inner, input, pos, n, p.node.max == 0).Just?
    requires var q := Iterate(env, fuel, p.node.inner, input, pos, n, p.node.max == 0).value.1;
      (p.node.max > 0 && n == p.node.max) || Eval(env, fuel, p.node.inner, input, q) == Done(Nothing, q)
    ensures var run := Iterate(env, fuel, p.node.inner, input, pos, n, p.node.max == 0).value;
      Eval(env, fuel, p, input, pos) ==
        if n < p.node.min then Done(Nothing, pos) else Done(Just(Join.Fold(p.node.elem, run.0)), run.1)
  {
    ManyRuns(env, fuel, p, input, pos, 0, Join.Empty(p.node.elem), pos, n);
  }

  /**
   * An unbounded many whose inner parser succeeds without consuming input
   * after a run of `n` successes never terminates.
   */
  lemma ManyWithoutProgress(env: Env, fuel: nat, p: Parser, input: string, pos: nat, n: nat)
    requires p.node.Many? && p.node.max == 0 && pos <= |input|
    requires Iterate(env, fuel, p.node.inner, input, pos, n, true).Just?
    requires var q := Iterate(env, fuel, p.node.inner, input, pos, n, true).value.1;
      var o := Eval(env, fuel, p.node.inner, input, q);
      o.Done? && o.result.Just? && o.pos == q
    ensures Eval(env, fuel, p, input, pos) == Fault(NoProgress)
  {
    ManyRuns(env, fuel, p, input, pos, 0, Join.Empty(p.node.elem), pos, n);
  }

  /** A fault of the inner parser after a run of successes is the many parser's fault. */
  lemma ManyPropagatesFault(env: Env, fuel: nat, p: Parser, input: string, pos: nat, n: nat)
    requires p.node.Many? && pos <= |input|
    requires p.node.max > 0 ==> n < p.node.max
    requires Iterate(env, fuel, p.node.inner, input, pos, n, p.node.max == 0).Just?
    requires var q := Iterate(env, fuel, p.node.inner, input, pos, n, p.node.max == 0).value.1;
      Eval(env, fuel, p.node.inner, input, q).Fault?
    ensures var q := Iterate(env, fuel, p.node.inner, input, pos, n, p.node.max == 0).value.1;
      Eval(env, fuel, p, input, pos) == Eval(env, fuel, p.node.inner, input, q)
  {
    ManyRuns(env, fuel, p, input, pos, 0, Join.Empty(p.node.elem), pos, n);
  }

  /**
   * The steps of a block all succeeding in order from `pos`: their results
   * and the final cursor.
   */
  function RunSteps(env: Env, fuel: nat, steps: seq<Parser>, input: string, pos: nat): (r: Maybe<(seq<Value>, nat)>)
    requires pos <= |input|
    ensures r.Just? ==> |r.value.0| == |steps| && pos <= r.value.1 <= |input|
    decreases |steps|
  {
    if steps == [] then Just(([], pos))
    else
      var o := Eval(env, fuel, steps[0], input, pos);
      if o.Fault? || o.result.Nothing? then Nothing
      else
        match RunSteps(env, fuel, steps[1..], input, o.pos)
        case Nothing => Nothing
        case Just(run) => Just(([o.result.value] + run.0, run.1))
  }

  /** The map a block hands its reducer: each tagged step's result recorded under its tag, in step order. */
  function BindAll(bound: map<string, Value>, steps: seq<Parser>, vs: seq<Value>): map<string, Value>
    requires |steps| == |vs|
    decreases |steps|
  {
    if steps == [] then bound else BindAll(Bind(bound, steps[0].tag, vs[0]), steps[1..], vs[1..])
  }

  /** The tags the map holds: those it started with and those of the tagged steps. */
  lemma {:induction false} BindAllKeys(bound: map<string, Value>, steps: seq<Parser>, vs: seq<Value>)
    requires |steps| == |vs|
    ensures BindAll(bound, steps, vs).Keys == bound.Keys + set l | 0 <= l < |steps| && |steps[l].tag| > 0 :: steps[l].tag
    decreases |steps|
  {
    if steps != [] {
      var b' := Bind(bound, steps[0].tag, vs[0]);
      BindAllKeys(b', steps[1..], vs[1..]);
      var later := set l | 0 <= l < |steps[1..]| && |steps[1..][l].tag| > 0 :: steps[1..][l].tag;
      var all := set l | 0 <= l < |steps| && |steps[l].tag| > 0 :: steps[l].tag;
      assert all == (if |steps[0].tag| > 0 then {steps[0].tag} else {}) + later by {
        forall t | t in all ensures t in (if |steps[0].tag| > 0 then {steps[0].tag} else {}) + later {
          var l :| 0 <= l < |steps| && |steps[l].tag| > 0 && steps[l].tag == t;
          if l > 0 { assert steps[1..][l - 1] == steps[l]; }
        }
        forall t | t in later ensures t in all {
          var l :| 0 <= l < |steps[1..]| && |steps[1..][l].tag| > 0 && steps[1..][l].tag == t;
          assert steps[l + 1] == steps[1..][l];
        }
      }
    }
  }

  /** When a tag is used by several steps, the map holds the result of the last of them. */
  lemma {:induction false} BindAllLastWins(bound: map<string, Value>, steps: seq<Parser>, vs: seq<Value>, j: nat)
    requires |steps| == |vs| && j < |steps| && |steps[j].tag| > 0
    requires forall l :: j < l < |steps| ==> steps[l].tag != steps[j].tag
    ensures steps[j].tag in BindAll(bound, steps, vs)
    ensures BindAll(bound, steps, vs)[steps[j].tag] == vs[j]
    decreases |steps|
  {
    var b' := Bind(bound, steps[0].tag, vs[0]);
    if j == 0 {
      BindAllKeeps(b', steps[1..], vs[1..], steps[0].tag);
    } else {
      forall l | j - 1 < l < |steps[1..]| ensures steps[1..][l].tag != steps[1..][j - 1].tag {
        assert steps[1..][l] == steps[l + 1];
      }
      BindAllLastWins(b', steps[1..], vs[1..], j - 1);
    }
  }

  /** A tag none of the steps uses keeps its entry. */
  lemma {:induction false} BindAllKeeps(bound: map<string, Value>, steps: seq<Parser>, vs: seq<Value>, t: string)
    requires |steps| == |vs| && t in bound
    requires forall l :: 0 <= l < |steps| ==> steps[l].tag != t
    ensures t in BindAll(bound, steps, vs) && BindAll(bound, steps, vs)[t] == bound[t]
    decreases |steps|
  {
    if steps != [] {
      forall l | 0 <= l < |steps[1..]| ensures steps[1..][l].tag != t {
        assert steps[1..][l] == steps[l + 1];
      }
      BindAllKeeps(Bind(bound, steps[0].tag, vs[0]), steps[1..], vs[1..], t);
    }
  }

  /** When every step succeeds the block calls its reducer once, on the map of tagged results. */
  lemma {:induction false} BlockRuns(env: Env, fuel: nat, def: BlockDef, steps: seq<Parser>, bound: map<string, Value>,
                                     input: string, start: nat, pos: nat)
    requires start <= pos <= |input|
    requires RunSteps(env, fuel, steps, input, pos).Just?
    ensures var run := RunSteps(env, fuel, steps, input, pos).value;
      EvalBlock(env, fuel, def, steps, bound, input, start, pos) == Finish(def, BindAll(bound, steps, run.0), run.1)
    decreases |steps|
  {
    if steps != [] {
      var o := Eval(env, fuel, steps[0], input, pos);
      var b' := Bind(bound, steps[0].tag, o.result.value);
      BlockRuns(env, fuel, def, steps[1..], b', input, start, o.pos);
      var rest := RunSteps(env, fuel, steps[1..], input, o.pos).value;
      var vs := [o.result.value] + rest.0;
      assert vs[0] == o.result.value && vs[1..] == rest.0;
    }
  }

  /**
   * When step `k` fails after the earlier steps succeeded, the block fails
   * with the cursor back at its start and the reducer is never reached.
   */
  lemma {:induction false} BlockStopsAtFailure(env: Env, fuel: nat, def: BlockDef, steps: seq<Parser>, bound: map<string, Value>,
                                               input: string, start: nat, pos: nat, k: nat)
    requires start <= pos <= |input| && k < |steps|
    requires RunSteps(env, fuel, steps[..k], input, pos).Just?
    requires var q := RunSteps(env, fuel, steps[..k], input, pos).value.1;
      Eval(env, fuel, steps[k], input, q).Done? && Eval(env, fuel, steps[k], input, q).result.Nothing?
    ensures EvalBlock(env, fuel, def, steps, bound, input, start, pos) == Done(Nothing, start)
    decreases k
  {
    if k > 0 {
      var o := Eval(env, fuel, steps[0], input, pos);
      assert steps[..k][0] == steps[0] && steps[..k][1..] == steps[1..][..k - 1];
      BlockStopsAtFailure(env, fuel, def, steps[1..], Bind(bound, steps[0].tag, o.result.value), input, start, o.pos, k - 1);
    }
  }

  /**
   * What a block parser returns: with every step succeeding, the reducer's
   * verdict on the map of tagged results, at the cursor after the last
   * step; with a step failing, failure at the entry position.
   */
  lemma BlockMeaning(env: Env, fuel: nat, p: Parser, input: string, pos: nat)
    requires p.node.Block? && pos <= |input|
    requires fuel > 0 && p.node.cell < |env.blocks|
    ensures var def := env.blocks[p.node.cell];
      var run := RunSteps(env, fuel - 1, def.steps, input, pos);
      run.Just? ==> Eval(env, fuel, p, input, pos) == Finish(def, BindAll(map[], def.steps, run.value.0), run.value.1)
    ensures var def := env.blocks[p.node.cell];
      forall k {:trigger RunSteps(env, fuel - 1, def.steps[..k], input, pos)} ::
        && 0 <= k < |def.steps|
        && RunSteps(env, fuel - 1, def.steps[..k], input, pos).Just?
        && Eval(env, fuel - 1, def.steps[k], input, RunSteps(env, fuel - 1, def.steps[..k], input, pos).value.1) == Done(Nothing, RunSteps(env, fuel - 1, def.steps[..k], input, pos).value.1)
        ==> Eval(env, fuel, p, input, pos) == Done(Nothing, pos)
  {
    var def := env.blocks[p.node.cell];
    if RunSteps(env, fuel - 1, def.steps, input, pos).Just? {
      BlockRuns(env, fuel - 1, def, def.steps, map[], input, pos, pos);
    }
    forall k | 0 <= k < |def.steps| && RunSteps(env, fuel - 1, def.steps[..k], input, pos).Just?
        && Eval(env, fuel - 1, def.steps[k], input, RunSteps(env, fuel - 1, def.steps[..k], input, pos).value.1) == Done(Nothing, RunSteps(env, fuel - 1, def.steps[..k], input, pos).value.1)
      ensures Eval(env, fuel, p, input, pos) == Done(Nothing, pos)
    {
      BlockStopsAtFailure(env, fuel - 1, def, def.steps, map[], input, pos, pos, k);
    }
  }

  /** A block whose reducer was never set throws once all its steps have succeeded. */
  lemma BlockWithoutReducerThrows(env: Env, fuel: nat, p: Parser, input: string, pos: nat)
    requires p.node.Block? && pos <= |input|
    requires fuel > 0 && p.node.cell < |env.blocks| && env.blocks[p.node.cell].reducer.Nothing?
    requires RunSteps(env, fuel - 1, env.blocks[p.node.cell].steps, input, pos).Just?
    ensures Eval(env, fuel, p, input, pos) == Fault(EmptyReducer)
  {
    BlockMeaning(env, fuel, p, input, pos);
  }
}
