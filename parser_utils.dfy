/**
 * The utilities of cpparse/parser_utils.h: `lift_vector`, and the two
 * blocks `sep_by` and `end_by` built from it.
 */
module ParserUtils {
  import opened Values
  import opened Errors
  import opened Maybe
  import Join
  import P = Parsers
  import B = Builder
  import CL = CombinatorLaws

  /** `lift_vector(p)`: the result of `p` as a one-element vector. */
  function LiftVector(p: P.Parser): P.Parser
  {
    B.Lift(p, (v: Value) => List([v]))
  }

  /** `lift_vector(p)` succeeds exactly when `p` does, with `[v]` for `p`'s result `v`. */
  lemma LiftVectorWraps(env: P.Env, fuel: nat, p: P.Parser, input: string, pos: nat)
    requires pos <= |input|
    ensures var o, inner := P.Eval(env, fuel, LiftVector(p), input, pos), P.Eval(env, fuel, p, input, pos);
      && (o.Fault? <==> inner.Fault?)
      && (o.Done? ==> o.pos == inner.pos && (o.result.Just? <==> inner.result.Just?))
      && (o.Done? && o.result.Just? ==> o.result.value == List([inner.result.value]))
  {
  }

  /**
   * The reducer shared by `sep_by` and `end_by`: the single element under
   * "first" followed by the elements under "rest". A missing tag makes
   * `map::at` throw; an empty "first" vector makes `[0]` undefined.
   */
  function Collect(m: map<string, Value>): (r: Result<Value>)
    ensures r.Ok? <==> "first" in m && m["first"].List? && |m["first"].items| > 0 && "rest" in m
    ensures r.Ok? ==> r.value.List? && |r.value.items| == 1 + |Join.ItemsOf(m["rest"])|
  {
    if "first" !in m then Throw(MissingTag)
    else if !m["first"].List? || |m["first"].items| == 0 then Throw(IndexOutOfRange)
    else if "rest" !in m then Throw(MissingTag)
    else Ok(List([m["first"].items[0]] + Join.ItemsOf(m["rest"])))
  }

  /**
   * The reducer lambda as the source writes it: push the first element,
   * then push each element of "rest" in turn.
   */
  method CollectResults(m: map<string, Value>) returns (r: Result<Value>)
    ensures r == Collect(m)
  {
    if "first" !in m {
      return Throw(MissingTag);
    }
    var first := m["first"];
    if !first.List? || |first.items| == 0 {
      return Throw(IndexOutOfRange);
    }
    var result := [first.items[0]];
    if "rest" !in m {
      return Throw(MissingTag);
    }
    var rest := Join.ItemsOf(m["rest"]);
    var k := 0;
    while k < |rest|
      invariant k <= |rest|
      invariant result == [first.items[0]] + rest[..k]
    {
      result := result + [rest[k]];
      k := k + 1;
    }
    assert rest[..k] == rest;
    return Ok(List(result));
  }

  /** The "first" step: `lift_vector(p) << tag("first")`. */
  function FirstStep(p: P.Parser): P.Parser
  {
    P.Parser("first", LiftVector(p).node)
  }

  /** The "rest" step: `many(s >> p) << tag("rest")`, whose result type is the aggregate of `p`'s type. */
  function RestStep(p: P.Parser, s: P.Parser, pTy: Ty): P.Parser
  {
    P.Parser("rest", B.ManyOf(B.AndThen(s, p), pTy).node)
  }

  /** The block `sep_by(p, s)` builds, for `p` of result type `pTy`: M is `vector<pTy>`. */
  function SepByDef(p: P.Parser, s: P.Parser, pTy: Ty): P.BlockDef
  {
    var m := ListTy(pTy);
    P.BlockDef(m, [B.Convert(FirstStep(p), m, m), B.Convert(RestStep(p, s, pTy), Join.ResultTy(pTy), m)], Just(Collect))
  }

  /** The block `end_by(p, s)` builds: the steps of `sep_by` and then `s`, of result type `sTy`. */
  function EndByDef(p: P.Parser, s: P.Parser, pTy: Ty, sTy: Ty): P.BlockDef
  {
    var d := SepByDef(p, s, pTy);
    d.(steps := d.steps + [B.Convert(s, sTy, d.m)])
  }

  /** `sep_by(p, s)`: allocates the block and fills in its steps and reducer. */
  method SepBy(g: B.Grammar, p: P.Parser, s: P.Parser, pTy: Ty) returns (b: P.Parser)
    modifies g
    ensures b == P.Parser("", P.Block(|old(g.blocks)|))
    ensures g.blocks == old(g.blocks) + [SepByDef(p, s, pTy)] && g.targets == old(g.targets)
  {
    var m := ListTy(pTy);
    b := g.NewBlock(m);
    var first := g.Tag(LiftVector(p), "first");
    b := g.AddStep(b, first, m);
    var rest := g.Tag(B.ManyOf(B.AndThen(s, p), pTy), "rest");
    b := g.AddStep(b, rest, Join.ResultTy(pTy));
    assert first == FirstStep(p) && rest == RestStep(p, s, pTy);
    assert [] + [B.Convert(first, m, m)] + [B.Convert(rest, Join.ResultTy(pTy), m)] == SepByDef(p, s, pTy).steps;
    b := g.SetReducer(b, Collect);
  }

  /** `end_by(p, s)`: as `sep_by`, with `s` as a third, untagged step. */
  method EndBy(g: B.Grammar, p: P.Parser, s: P.Parser, pTy: Ty, sTy: Ty) returns (b: P.Parser)
    modifies g
    ensures b == P.Parser("", P.Block(|old(g.blocks)|))
    ensures g.blocks == old(g.blocks) + [EndByDef(p, s, pTy, sTy)] && g.targets == old(g.targets)
  {
    var m := ListTy(pTy);
    b := g.NewBlock(m);
    var first := g.Tag(LiftVector(p), "first");
    b := g.AddStep(b, first, m);
    var rest := g.Tag(B.ManyOf(B.AndThen(s, p), pTy), "rest");
    b := g.AddStep(b, rest, Join.ResultTy(pTy));
    b := g.AddStep(b, s, sTy);
    assert first == FirstStep(p) && rest == RestStep(p, s, pTy);
    assert [] + [B.Convert(first, m, m)] + [B.Convert(rest, Join.ResultTy(pTy), m)] + [B.Convert(s, sTy, m)]
        == EndByDef(p, s, pTy, sTy).steps;
    b := g.SetReducer(b, Collect);
  }

  /**
   * The run of `sep_by`'s two steps from `pos`, for an element type whose
   * aggregate is a vector: `p` once, then `n` repetitions of `s >> p`
   * ending where the next `s >> p` fails.
   */
  lemma SepByStepsRun(env: P.Env, f: nat, p: P.Parser, s: P.Parser, pTy: Ty, input: string, pos: nat,
                      v0: Value, q0: nat, n: nat, vs: seq<Value>, q: nat)
    requires pos <= |input| && !Join.IsTextual(pTy)
    requires P.Eval(env, f, p, input, pos) == P.Done(Just(v0), q0)
    requires q0 <= |input| && CL.Iterate(env, f, B.AndThen(s, p), input, q0, n, true) == Just((vs, q))
    requires P.Eval(env, f, B.AndThen(s, p), input, q) == P.Done(Nothing, q)
    ensures CL.RunSteps(env, f, SepByDef(p, s, pTy).steps, input, pos) == Just(([List([v0]), List(vs)], q))
  {
    var steps := SepByDef(p, s, pTy).steps;
    assert steps[0] == FirstStep(p);
    assert steps[1] == RestStep(p, s, pTy);
    CL.ManyMeaning(env, f, RestStep(p, s, pTy), input, q0, n);
    Join.FoldCollects(pTy, [], vs);
    assert Join.Empty(pTy) == List([]) && [] + vs == vs;
    assert P.Eval(env, f, steps[0], input, pos) == P.Done(Just(List([v0])), q0);
    assert P.Eval(env, f, steps[1], input, q0) == P.Done(Just(List(vs)), q);
    assert steps[1..][0] == steps[1] && steps[1..][1..] == [];
    assert CL.RunSteps(env, f, steps[1..][1..], input, q) == Just(([], q));
    assert [List(vs)] + [] == [List(vs)] && [List([v0])] + [List(vs)] == [List([v0]), List(vs)];
    assert CL.RunSteps(env, f, steps[1..], input, q0) == Just(([List(vs)], q));
  }

  /**
   * `sep_by(p, s)` for an element type whose aggregate is a vector: it
   * fails, consuming nothing, when `p` fails; otherwise it returns `p`'s
   * result followed by the `p` results of the repetitions of `s >> p`,
   * and stops after the last `p`: a trailing separator not followed by `p`
   * is left unconsumed.
   */
  lemma SepByMeaning(env: P.Env, fuel: nat, b: P.Parser, p: P.Parser, s: P.Parser, pTy: Ty, input: string, pos: nat,
                     n: nat, vs: seq<Value>, q: nat)
    requires b.node.Block? && b.node.cell < |env.blocks| && env.blocks[b.node.cell] == SepByDef(p, s, pTy)
    requires fuel > 0 && pos <= |input| && !Join.IsTextual(pTy)
    ensures P.Eval(env, fuel - 1, p, input, pos) == P.Done(Nothing, pos) ==>
      P.Eval(env, fuel, b, input, pos) == P.Done(Nothing, pos)
    ensures var first := P.Eval(env, fuel - 1, p, input, pos);
      first.Done? && first.result.Just? &&
      CL.Iterate(env, fuel - 1, B.AndThen(s, p), input, first.pos, n, true) == Just((vs, q)) &&
      P.Eval(env, fuel - 1, B.AndThen(s, p), input, q) == P.Done(Nothing, q) ==>
      P.Eval(env, fuel, b, input, pos) == P.Done(Just(List([first.result.value] + vs)), q)
    ensures var o := P.Eval(env, fuel, b, input, pos);
      o.Done? && o.result.Nothing? ==> P.Eval(env, fuel - 1, p, input, pos) == P.Done(Nothing, pos)
  {
    var f := fuel - 1;
    var def := SepByDef(p, s, pTy);
    var first := P.Eval(env, f, p, input, pos);
    SepByFailsOnlyAtFirst(env, fuel, b, p, s, pTy, input, pos);
    if first == P.Done(Nothing, pos) {
      assert P.Eval(env, f, def.steps[0], input, pos) == P.Done(Nothing, pos);
      assert def.steps[..0] == [];
      CL.BlockStopsAtFailure(env, f, def, def.steps, map[], input, pos, pos, 0);
    }
    if first.Done? && first.result.Just? &&
       CL.Iterate(env, f, B.AndThen(s, p), input, first.pos, n, true) == Just((vs, q)) &&
       P.Eval(env, f, B.AndThen(s, p), input, q) == P.Done(Nothing, q) {
      SepByStepsRun(env, f, p, s, pTy, input, pos, first.result.value, first.pos, n, vs, q);
      CL.BlockMeaning(env, fuel, b, input, pos);
      BindFirstRest(def.steps, [List([first.result.value]), List(vs)]);
    }
  }

  /**
   * Once `p` has succeeded, `sep_by` cannot fail: its "rest" step is a
   * `many` with `min == 0`, and the reducer never yields failure.
   */
  lemma SepByFailsOnlyAtFirst(env: P.Env, fuel: nat, b: P.Parser, p: P.Parser, s: P.Parser, pTy: Ty, input: string, pos: nat)
    requires b.node.Block? && b.node.cell < |env.blocks| && env.blocks[b.node.cell] == SepByDef(p, s, pTy)
    requires fuel > 0 && pos <= |input| && !Join.IsTextual(pTy)
    ensures var o := P.Eval(env, fuel, b, input, pos);
      o.Done? && o.result.Nothing? ==> P.Eval(env, fuel - 1, p, input, pos) == P.Done(Nothing, pos)
  {
    var f := fuel - 1;
    var def := SepByDef(p, s, pTy);
    var steps := def.steps;
    var first := P.Eval(env, f, p, input, pos);
    if first.Done? && first.result.Just? {
      assert steps[0] == FirstStep(p) && steps[1] == RestStep(p, s, pTy);
      var o0 := P.Eval(env, f, steps[0], input, pos);
      assert o0 == P.Done(Just(List([first.result.value])), first.pos);
      var o1 := P.Eval(env, f, steps[1], input, o0.pos);
      B.ManyLoopFromZero(env, f, steps[1], input, o0.pos, 0, Join.Empty(pTy), o0.pos);
      assert o1.Done? ==> o1.result.Just?;
      var b1 := P.Bind(map[], steps[0].tag, o0.result.value);
      assert steps[1..][0] == steps[1] && steps[1..][1..] == [];
      assert P.Eval(env, fuel, b, input, pos) == P.EvalBlock(env, f, def, steps, map[], input, pos, pos);
      assert P.EvalBlock(env, f, def, steps, map[], input, pos, pos) == P.EvalBlock(env, f, def, steps[1..], b1, input, pos, o0.pos);
      if o1.Done? {
        assert P.EvalBlock(env, f, def, steps[1..], b1, input, pos, o0.pos)
            == P.Finish(def, P.Bind(b1, steps[1].tag, o1.result.value), o1.pos);
      }
    }
  }

  /**
   * `end_by(p, s)` for an element type whose aggregate is a vector. It
   * fails, consuming nothing, when `p` fails. Otherwise, after the
   * elements `sep_by` would collect, `s` must match once more; when it does
   * not, the block fails, consuming nothing. When it does, the cursor ends
   * after it and the reducer sees the map of tagged results. Usually that
   * map gives the same list as `sep_by`. But a separator whose result type
   * is M and which carries the tag "first" or "rest" keeps that tag
   * through `->*` and overwrites the entry: under "first" the list starts
   * with the first element of the separator's own vector, or the reducer's
   * `[0]` is out of range when that vector is empty; under "rest" the
   * separator's vector replaces the repeated elements.
   */
  lemma EndByMeaning(env: P.Env, fuel: nat, b: P.Parser, p: P.Parser, s: P.Parser, pTy: Ty, sTy: Ty, input: string, pos: nat,
                     n: nat, vs: seq<Value>, q: nat)
    requires b.node.Block? && b.node.cell < |env.blocks| && env.blocks[b.node.cell] == EndByDef(p, s, pTy, sTy)
    requires fuel > 0 && pos <= |input| && !Join.IsTextual(pTy)
    ensures P.Eval(env, fuel - 1, p, input, pos) == P.Done(Nothing, pos) ==>
      P.Eval(env, fuel, b, input, pos) == P.Done(Nothing, pos)
    ensures var first, kept := P.Eval(env, fuel - 1, p, input, pos), sTy == ListTy(pTy);
      first.Done? && first.result.Just? &&
      CL.Iterate(env, fuel - 1, B.AndThen(s, p), input, first.pos, n, true) == Just((vs, q)) &&
      P.Eval(env, fuel - 1, B.AndThen(s, p), input, q) == P.Done(Nothing, q) ==>
        var last := P.Eval(env, fuel - 1, s, input, q);
        && (last.Done? && last.result.Nothing? ==> P.Eval(env, fuel, b, input, pos) == P.Done(Nothing, pos))
        && (last.Done? && last.result.Just? && !(kept && s.tag in {"first", "rest"}) ==>
              P.Eval(env, fuel, b, input, pos) == P.Done(Just(List([first.result.value] + vs)), last.pos))
        && (last.Done? && last.result.Just? && kept && s.tag == "first" ==>
              P.Eval(env, fuel, b, input, pos) ==
                if last.result.value.List? && |last.result.value.items| > 0
                then P.Done(Just(List([last.result.value.items[0]] + vs)), last.pos)
                else P.Fault(IndexOutOfRange))
        && (last.Done? && last.result.Just? && kept && s.tag == "rest" ==>
              P.Eval(env, fuel, b, input, pos) == P.Done(Just(List([first.result.value] + Join.ItemsOf(last.result.value))), last.pos))
  {
    var f := fuel - 1;
    var def := EndByDef(p, s, pTy, sTy);
    var first := P.Eval(env, f, p, input, pos);
    if first == P.Done(Nothing, pos) {
      assert P.Eval(env, f, def.steps[0], input, pos) == P.Done(Nothing, pos);
      assert def.steps[..0] == [];
      CL.BlockStopsAtFailure(env, f, def, def.steps, map[], input, pos, pos, 0);
    }
    if first.Done? && first.result.Just? &&
       CL.Iterate(env, f, B.AndThen(s, p), input, first.pos, n, true) == Just((vs, q)) &&
       P.Eval(env, f, B.AndThen(s, p), input, q) == P.Done(Nothing, q) {
      EndByRun(env, fuel, b, p, s, pTy, sTy, input, pos, first.result.value, first.pos, n, vs, q);
    }
  }

  /** `end_by` once `p` has succeeded: the outcome as the reducer's verdict on the map of tagged results. */
  lemma EndByRun(env: P.Env, fuel: nat, b: P.Parser, p: P.Parser, s: P.Parser, pTy: Ty, sTy: Ty, input: string, pos: nat,
                 v0: Value, q0: nat, n: nat, vs: seq<Value>, q: nat)
    requires b.node.Block? && b.node.cell < |env.blocks| && env.blocks[b.node.cell] == EndByDef(p, s, pTy, sTy)
    requires fuel > 0 && pos <= |input| && !Join.IsTextual(pTy)
    requires P.Eval(env, fuel - 1, p, input, pos) == P.Done(Just(v0), q0)
    requires q0 <= |input| && CL.Iterate(env, fuel - 1, B.AndThen(s, p), input, q0, n, true) == Just((vs, q))
    requires P.Eval(env, fuel - 1, B.AndThen(s, p), input, q) == P.Done(Nothing, q)
    ensures var last := P.Eval(env, fuel - 1, s, input, q);
      var kept := sTy == ListTy(pTy);
      var third := B.Convert(s, sTy, ListTy(pTy));
      var bound := map["first" := List([v0]), "rest" := List(vs)];
      && (last.Done? && last.result.Nothing? ==> P.Eval(env, fuel, b, input, pos) == P.Done(Nothing, pos))
      && (last.Done? && last.result.Just? ==>
            && third.tag == (if kept then s.tag else "")
            && var w := if kept then last.result.value else Default(ListTy(pTy));
               match Collect(P.Bind(bound, third.tag, w))
               case Ok(v) => P.Eval(env, fuel, b, input, pos) == P.Done(Just(v), last.pos)
               case Throw(e) => P.Eval(env, fuel, b, input, pos) == P.Fault(e))
  {
    var f := fuel - 1;
    var def := EndByDef(p, s, pTy, sTy);
    var two := SepByDef(p, s, pTy).steps;
    SepByStepsRun(env, f, p, s, pTy, input, pos, v0, q0, n, vs, q);
    assert def.steps[..2] == two;
    var last := P.Eval(env, f, s, input, q);
    B.ConvertKeepsShape(env, f, s, sTy, def.m, input, q);
    var third := B.Convert(s, sTy, def.m);
    assert def.steps[2] == third;
    if last.Done? && last.result.Just? {
      var w := P.Eval(env, f, third, input, q).result.value;
      RunStepsExtend(env, f, two, third, input, pos);
      assert def.steps == two + [third];
      CL.BlockMeaning(env, fuel, b, input, pos);
      var vals := [List([v0]), List(vs), w];
      BindFirstRest(def.steps[..2], vals[..2]);
      BindAllExtend(map[], def.steps[..2], vals[..2], third, w);
      assert def.steps[..2] + [third] == def.steps && vals[..2] + [w] == vals;
    }
    if last.Done? && last.result.Nothing? {
      CL.BlockStopsAtFailure(env, f, def, def.steps, map[], input, pos, pos, 2);
    }
  }

  /**
   * `sep_by(p, s)` for a `char` or `std::string` element: the repetitions
   * of `s >> p` join into a string, which is not M (a vector of the
   * element type), so `->*` lifts that step into a fresh, untagged
   * parser. Nothing is bound under "rest", and once both steps have
   * succeeded the reducer's `m.at("rest")` throws.
   */
  lemma SepByOfTextLosesRest(env: P.Env, fuel: nat, b: P.Parser, p: P.Parser, s: P.Parser, pTy: Ty, input: string, pos: nat,
                             v0: Value, q0: nat, n: nat, vs: seq<Value>, q: nat)
    requires b.node.Block? && b.node.cell < |env.blocks| && env.blocks[b.node.cell] == SepByDef(p, s, pTy)
    requires fuel > 0 && pos <= |input| && Join.IsTextual(pTy)
    requires P.Eval(env, fuel - 1, p, input, pos) == P.Done(Just(v0), q0)
    requires q0 <= |input| && CL.Iterate(env, fuel - 1, B.AndThen(s, p), input, q0, n, true) == Just((vs, q))
    requires P.Eval(env, fuel - 1, B.AndThen(s, p), input, q) == P.Done(Nothing, q)
    ensures P.Eval(env, fuel, b, input, pos) == P.Fault(MissingTag)
  {
    var f := fuel - 1;
    var def := SepByDef(p, s, pTy);
    var steps := def.steps;
    CL.ManyMeaning(env, f, RestStep(p, s, pTy), input, q0, n);
    var w := Default(ListTy(pTy));
    assert steps[1].tag == "";
    assert P.Eval(env, f, steps[0], input, pos) == P.Done(Just(List([v0])), q0);
    assert P.Eval(env, f, steps[1], input, q0) == P.Done(Just(w), q);
    assert steps[1..][0] == steps[1] && steps[1..][1..] == [];
    assert CL.RunSteps(env, f, steps[1..][1..], input, q) == Just(([], q));
    assert [w] + [] == [w] && [List([v0])] + [w] == [List([v0]), w];
    assert CL.RunSteps(env, f, steps, input, pos) == Just(([List([v0]), w], q));
    CL.BlockMeaning(env, fuel, b, input, pos);
    var vals := [List([v0]), w];
    assert vals[1..][0] == w && vals[1..][1..] == [];
    var bound := map["first" := List([v0])];
    assert CL.BindAll(map[], steps, vals) == CL.BindAll(bound, steps[1..], vals[1..]);
    assert CL.BindAll(bound, steps[1..], vals[1..]) == CL.BindAll(bound, [], []);
    assert Collect(bound) == Throw(MissingTag);
  }

  /** The two steps of `sep_by` record their results under "first" and "rest". */
  lemma BindFirstRest(steps: seq<P.Parser>, vals: seq<Value>)
    requires |steps| == 2 == |vals| && steps[0].tag == "first" && steps[1].tag == "rest"
    ensures CL.BindAll(map[], steps, vals) == map["first" := vals[0], "rest" := vals[1]]
  {
    var b1 := map["first" := vals[0]];
    assert steps[1..][0] == steps[1] && vals[1..][0] == vals[1];
    assert steps[1..][1..] == [] && vals[1..][1..] == [];
    assert CL.BindAll(b1, steps[1..], vals[1..]) == CL.BindAll(b1["rest" := vals[1]], [], []);
  }

  /** Binding one more step's result after the others. */
  lemma {:induction false} BindAllExtend(bound: map<string, Value>, steps: seq<P.Parser>, vals: seq<Value>, step: P.Parser, v: Value)
    requires |steps| == |vals|
    ensures CL.BindAll(bound, steps + [step], vals + [v]) == P.Bind(CL.BindAll(bound, steps, vals), step.tag, v)
    decreases |steps|
  {
    if steps == [] {
      assert [] + [step] == [step] && [] + [v] == [v];
      assert [step][1..] == [] && [v][1..] == [];
    } else {
      assert (steps + [step])[1..] == steps[1..] + [step] && (vals + [v])[1..] == vals[1..] + [v];
      BindAllExtend(P.Bind(bound, steps[0].tag, vals[0]), steps[1..], vals[1..], step, v);
    }
  }

  /** Running one more step after a successful run of steps. */
  lemma {:induction false} RunStepsExtend(env: P.Env, f: nat, steps: seq<P.Parser>, step: P.Parser, input: string, pos: nat)
    requires pos <= |input| && CL.RunSteps(env, f, steps, input, pos).Just?
    ensures var run := CL.RunSteps(env, f, steps, input, pos).value;
      var o := P.Eval(env, f, step, input, run.1);
      o.Done? && o.result.Just? ==>
        CL.RunSteps(env, f, steps + [step], input, pos) == Just((run.0 + [o.result.value], o.pos))
    decreases |steps|
  {
    if steps == [] {
      var o := P.Eval(env, f, step, input, pos);
      assert [] + [step] == [step] && [step][0] == step && [step][1..] == [];
      if o.Done? && o.result.Just? {
        assert CL.RunSteps(env, f, [step][1..], input, o.pos) == Just(([], o.pos));
        assert [o.result.value] + [] == [] + [o.result.value];
      }
    } else {
      var o0 := P.Eval(env, f, steps[0], input, pos);
      assert (steps + [step])[0] == steps[0] && (steps + [step])[1..] == steps[1..] + [step];
      RunStepsExtend(env, f, steps[1..], step, input, o0.pos);
      var rest := CL.RunSteps(env, f, steps[1..], input, o0.pos).value;
      var o := P.Eval(env, f, step, input, rest.1);
      if o.Done? && o.result.Just? {
        assert [o0.result.value] + (rest.0 + [o.result.value]) == ([o0.result.value] + rest.0) + [o.result.value];
      }
    }
  }
}
