/** Small grammars run on concrete inputs. */
module Scenarios {
  import opened Values
  import opened Errors
  import opened Maybe
  import P = Parsers
  import B = Builder
  import PL = PrimitiveLaws
  import CL = CombinatorLaws
  import SU = StringUtils

  /** Matching "let" against "lettuce" returns "let" and leaves the cursor before "tuce". */
  lemma LetInLettuce(env: P.Env, fuel: nat)
    ensures P.Eval(env, fuel, P.Parser("", P.Literal("let")), "lettuce", 0) == P.Done(Just(Text("let")), 3)
  {
    PL.StringMatchesExactly(env, fuel, P.Parser("", P.Literal("let")), "lettuce", 0);
    assert "lettuce"[0..3] == "let";
  }

  /**
   * `string("cat") | string("car")` on "car": the first alternative reads
   * "ca" and then fails, rewinding, and the second matches the whole word.
   */
  lemma CatOrCar(env: P.Env, fuel: nat)
    ensures P.Eval(env, fuel, B.Or(P.Parser("", P.Literal("cat")), P.Parser("", P.Literal("car"))), "car", 0)
         == P.Done(Just(Text("car")), 3)
  {
    var cat, car := P.Parser("", P.Literal("cat")), P.Parser("", P.Literal("car"));
    PL.StringMatchesExactly(env, fuel, cat, "car", 0);
    PL.StringMatchesExactly(env, fuel, car, "car", 0);
    assert "car"[0..3] == "car";
    CL.ChoicePrefersFirst(env, fuel, B.Or(cat, car), "car", 0);
  }

  /** `many1(digit())` on "123abc" returns "123" and leaves the cursor before "abc". */
  lemma DigitsOf123abc(env: P.Env, fuel: nat)
    ensures P.Eval(env, fuel, B.Many1(SU.Digit(), CharTy), "123abc", 0) == P.Done(Just(Text("123")), 3)
  {
    var ds, input := "1234567890", "123abc";
    assert input[3] == 'a' && 'a' !in ds;
    assert SU.RunOf(ds, input, 3) == 0;
    assert input[2] == ds[2] && input[1] == ds[1] && input[0] == ds[0];
    assert SU.RunOf(ds, input, 0) == 3;
    SU.Many1OneOfTakesRun(env, fuel, ds, input, 0);
    assert input[0..3] == "123";
  }

  /** `many1(digit())` on "abc" fails without consuming anything. */
  lemma NoDigitsInAbc(env: P.Env, fuel: nat)
    ensures P.Eval(env, fuel, B.Many1(SU.Digit(), CharTy), "abc", 0) == P.Done(Nothing, 0)
  {
    SU.Many1OneOfTakesRun(env, fuel, "1234567890", "abc", 0);
  }

  /** Hands back the result bound under "n". */
  function TakeN(m: map<string, Value>): Result<Value>
  {
    if "n" in m then Ok(m["n"]) else Throw(MissingTag)
  }

  /**
   * The block `block<std::string, ...>() ->* character('(') ->* (many1(digit()) << tag("n")) ->* character(')')`
   * reducing to the tagged digits. `->*` lifts the two `char` steps to
   * untagged parsers returning the empty string, and keeps the string step.
   */
  function Parenthesised(): P.BlockDef
  {
    P.BlockDef(TextTy,
      [ B.Convert(P.Parser("", P.Single('(')), CharTy, TextTy),
        B.Convert(P.Parser("n", B.Many1(SU.Digit(), CharTy).node), TextTy, TextTy),
        B.Convert(P.Parser("", P.Single(')')), CharTy, TextTy) ],
      Just(TakeN))
  }

  /** The tagged `many1(digit())` reads "42" out of "(42)". */
  lemma DigitsIn42(env: P.Env, fuel: nat)
    ensures P.Eval(env, fuel, P.Parser("n", B.Many1(SU.Digit(), CharTy).node), "(42)", 1) == P.Done(Just(Text("42")), 3)
  {
    var ds := "1234567890";
    assert SU.RunOf(ds, "(42)", 3) == 0;
    assert SU.RunOf(ds, "(42)", 1) == 2;
    SU.Many1OneOfTakesRun(env, fuel, ds, "(42)", 1);
    B.TagKeepsMeaning(env, fuel, B.Many1(SU.Digit(), CharTy), "n", "(42)", 1);
    assert "(42)"[1..3] == "42";
  }

  /** The three steps succeed on "(42)", the middle one returning "42" and the lifted brackets "". */
  lemma ParenthesisedSteps(env: P.Env, fuel: nat)
    ensures CL.RunSteps(env, fuel, Parenthesised().steps, "(42)", 0) == Just(([Text(""), Text("42"), Text("")], 4))
  {
    var input, steps := "(42)", Parenthesised().steps;
    DigitsIn42(env, fuel);
    var last := steps[1..][1..];
    assert last == [steps[2]] && last[1..] == [];
    assert CL.RunSteps(env, fuel, last, input, 3) == Just(([Text("")], 4)) by {
      assert P.Eval(env, fuel, P.Parser("", P.Single(')')), input, 3) == P.Done(Just(Char(')')), 4);
      assert P.Eval(env, fuel, last[0], input, 3) == P.Done(Just(Text("")), 4);
      assert CL.RunSteps(env, fuel, last[1..], input, 4) == Just(([], 4));
      assert [Text("")] + [] == [Text("")];
    }
    assert CL.RunSteps(env, fuel, steps[1..], input, 1) == Just(([Text("42"), Text("")], 4)) by {
      assert steps[1..][0] == P.Parser("n", B.Many1(SU.Digit(), CharTy).node);
      assert [Text("42")] + [Text("")] == [Text("42"), Text("")];
    }
    assert P.Eval(env, fuel, P.Parser("", P.Single('(')), input, 0) == P.Done(Just(Char('(')), 1);
    assert P.Eval(env, fuel, steps[0], input, 0) == P.Done(Just(Text("")), 1);
    assert [Text("")] + [Text("42"), Text("")] == [Text(""), Text("42"), Text("")];
  }

  /** Only the middle step keeps a tag, so the reducer sees just "n". */
  lemma ParenthesisedBinds()
    ensures CL.BindAll(map[], Parenthesised().steps, [Text(""), Text("42"), Text("")]) == map["n" := Text("42")]
  {
    var steps, vals := Parenthesised().steps, [Text(""), Text("42"), Text("")];
    assert steps[0].tag == "" && steps[1].tag == "n" && steps[2].tag == "";
    assert steps[1..][0] == steps[1] && steps[1..][1..][0] == steps[2] && steps[1..][1..][1..] == [];
    assert vals[1..][0] == Text("42") && vals[1..][1..][0] == Text("") && vals[1..][1..][1..] == [];
    assert CL.BindAll(map[], steps, vals) == CL.BindAll(map[], steps[1..], vals[1..]);
    assert CL.BindAll(map[], steps[1..], vals[1..]) == CL.BindAll(map["n" := Text("42")], steps[1..][1..], vals[1..][1..]);
  }

  /** That block on "(42)" hands "42" to its reducer and consumes the whole input. */
  lemma ParenthesisedDigits(fuel: nat)
    requires fuel > 0
    ensures P.Eval(P.Env([], [Parenthesised()]), fuel, P.Parser("", P.Block(0)), "(42)", 0) == P.Done(Just(Text("42")), 4)
  {
    var env := P.Env([], [Parenthesised()]);
    ParenthesisedSteps(env, fuel - 1);
    ParenthesisedBinds();
    CL.BlockMeaning(env, fuel, P.Parser("", P.Block(0)), "(42)", 0);
  }
}
