/**
 * The character-class parsers of cpparse/string_utils.h, on an input of
 * characters.
 */
module StringUtils {
  import opened Values
  import opened Maybe
  import Join
  import P = Parsers
  import B = Builder
  import CL = CombinatorLaws

  /** `upper()`. */
  function Upper(): P.Parser
  {
    B.OneOf("ABCDEFGHIJKLMNOPQRSTUVWXYZ")
  }

  /** `lower()`. */
  function Lower(): P.Parser
  {
    B.OneOf("abcdefghijklmnopqrstuvwxyz")
  }

  /** `letter()`: an upper-case letter, or else a lower-case one. */
  function Letter(): P.Parser
  {
    B.Or(Upper(), Lower())
  }

  /** `digit()`. */
  function Digit(): P.Parser
  {
    B.OneOf("1234567890")
  }

  /** The characters `symbol()` accepts. */
  const SymbolChars: string := "!#$%&|*+-/:<=>?@^_~"

  /** `symbol()`. */
  function Symbol(): P.Parser
  {
    B.OneOf(SymbolChars)
  }

  /** The characters `spaces()` accepts. */
  const WhiteChars: string := " \t\r\n"

  /** `spaces()`: one or more whitespace characters, joined into a string. */
  function Spaces(): P.Parser
  {
    B.Many1(B.OneOf(WhiteChars), CharTy)
  }

  /** `lift_string(p)`: the character `p` returns as a one-character string. */
  function LiftString(p: P.Parser): P.Parser
  {
    B.Lift(p, (v: Value) => Text(if v.Char? then [v.c] else []))
  }

  /** The outcome of a parser that accepts exactly the characters satisfying `accepts`. */
  function OneChar(accepts: bool, input: string, pos: nat): P.Outcome
    requires pos <= |input|
    requires accepts ==> pos < |input|
  {
    if accepts then P.Done(Just(Char(input[pos])), pos + 1) else P.Done(Nothing, pos)
  }

  /** Membership in a string of consecutive characters is a range test. */
  lemma ConsecutiveRange(s: string, c: char)
    requires |s| > 0
    requires forall i :: 0 <= i < |s| ==> s[i] as int == s[0] as int + i
    ensures c in s <==> s[0] <= c && c as int < s[0] as int + |s|
  {
    if s[0] <= c && c as int < s[0] as int + |s| {
      assert s[c as int - s[0] as int] == c;
    }
  }

  /** `upper()` accepts exactly the letters 'A' to 'Z'. */
  lemma UpperAccepts(env: P.Env, fuel: nat, input: string, pos: nat)
    requires pos <= |input|
    ensures P.Eval(env, fuel, Upper(), input, pos) == OneChar(pos < |input| && 'A' <= input[pos] <= 'Z', input, pos)
  {
    if pos < |input| {
      var s := "ABCDEFGHIJKLMNOPQRSTUVWXYZ";
      assert forall i :: 0 <= i < |s| ==> s[i] as int == s[0] as int + i;
      ConsecutiveRange(s, input[pos]);
    }
  }

  /** `lower()` accepts exactly the letters 'a' to 'z'. */
  lemma LowerAccepts(env: P.Env, fuel: nat, input: string, pos: nat)
    requires pos <= |input|
    ensures P.Eval(env, fuel, Lower(), input, pos) == OneChar(pos < |input| && 'a' <= input[pos] <= 'z', input, pos)
  {
    if pos < |input| {
      var s := "abcdefghijklmnopqrstuvwxyz";
      assert forall i :: 0 <= i < |s| ==> s[i] as int == s[0] as int + i;
      ConsecutiveRange(s, input[pos]);
    }
  }

  /** `letter()` accepts exactly the ASCII letters of either case. */
  lemma LetterAccepts(env: P.Env, fuel: nat, input: string, pos: nat)
    requires pos <= |input|
    ensures P.Eval(env, fuel, Letter(), input, pos) ==
      OneChar(pos < |input| && ('A' <= input[pos] <= 'Z' || 'a' <= input[pos] <= 'z'), input, pos)
  {
    UpperAccepts(env, fuel, input, pos);
    LowerAccepts(env, fuel, input, pos);
  }

  /** `digit()` accepts exactly the decimal digits. */
  lemma DigitAccepts(env: P.Env, fuel: nat, input: string, pos: nat)
    requires pos <= |input|
    ensures P.Eval(env, fuel, Digit(), input, pos) == OneChar(pos < |input| && '0' <= input[pos] <= '9', input, pos)
  {
  }

  /** No character `symbol()` accepts is a letter, a digit or whitespace. */
  lemma SymbolsAreDistinct(env: P.Env, fuel: nat, input: string, pos: nat)
    requires pos <= |input|
    ensures var o := P.Eval(env, fuel, Symbol(), input, pos);
      o.Done? && o.result.Just? ==>
        && P.Eval(env, fuel, Letter(), input, pos) == P.Done(Nothing, pos)
        && P.Eval(env, fuel, Digit(), input, pos) == P.Done(Nothing, pos)
        && P.Eval(env, fuel, B.OneOf(WhiteChars), input, pos) == P.Done(Nothing, pos)
  {
    LetterAccepts(env, fuel, input, pos);
    DigitAccepts(env, fuel, input, pos);
    if pos < |input| && input[pos] in SymbolChars {
      SymbolClass(input[pos]);
    }
  }

  /** Each symbol character lies outside the letters, the digits and the whitespace characters. */
  lemma SymbolClass(c: char)
    requires c in SymbolChars
    ensures !('A' <= c <= 'Z') && !('a' <= c <= 'z') && !('0' <= c <= '9') && c !in WhiteChars
  {
    var i :| 0 <= i < |SymbolChars| && SymbolChars[i] == c;
    assert 0 <= i < 19;
  }

  /** `lift_string(p)` turns the character `p` returns into the one-character string. */
  lemma LiftStringWraps(env: P.Env, fuel: nat, p: P.Parser, input: string, pos: nat, c: char, q: nat)
    requires pos <= |input| && P.Eval(env, fuel, p, input, pos) == P.Done(Just(Char(c)), q)
    ensures P.Eval(env, fuel, LiftString(p), input, pos) == P.Done(Just(Text([c])), q)
  {
  }

  /** The length of the longest run of characters from `cs` starting at `pos`. */
  function RunOf(cs: seq<char>, input: string, pos: nat): (n: nat)
    requires pos <= |input|
    ensures pos + n <= |input|
    ensures forall i :: pos <= i < pos + n ==> input[i] in cs
    ensures pos + n < |input| ==> input[pos + n] !in cs
    decreases |input| - pos
  {
    if pos < |input| && input[pos] in cs then 1 + RunOf(cs, input, pos + 1) else 0
  }

  /** Each character of `s` as a parse result. */
  function CharValues(s: string): (vs: seq<Value>)
    ensures |vs| == |s| && forall i :: 0 <= i < |s| ==> vs[i] == Char(s[i])
  {
    seq(|s|, i requires 0 <= i < |s| => Char(s[i]))
  }

  /** `n` characters from `cs` are `n` successes of `one_of(cs)`, each consuming its character. */
  lemma {:induction false} OneOfIterates(env: P.Env, fuel: nat, cs: seq<char>, input: string, pos: nat, n: nat)
    requires pos + n <= |input|
    requires forall i :: pos <= i < pos + n ==> input[i] in cs
    ensures CL.Iterate(env, fuel, B.OneOf(cs), input, pos, n, true) == Just((CharValues(input[pos..pos + n]), pos + n))
    decreases n
  {
    if n > 0 {
      OneOfIterates(env, fuel, cs, input, pos + 1, n - 1);
      assert CharValues(input[pos..pos + n]) == [Char(input[pos])] + CharValues(input[pos + 1..pos + n]);
    }
  }

  /**
   * `many1(one_of(cs))` over characters consumes the longest run of
   * characters from `cs` and returns it as a string; it fails, consuming
   * nothing, when the next character is not in `cs`.
   */
  lemma Many1OneOfTakesRun(env: P.Env, fuel: nat, cs: seq<char>, input: string, pos: nat)
    requires pos <= |input|
    ensures var n := RunOf(cs, input, pos);
      P.Eval(env, fuel, B.Many1(B.OneOf(cs), CharTy), input, pos) ==
        if n == 0 then P.Done(Nothing, pos) else P.Done(Just(Text(input[pos..pos + n])), pos + n)
  {
    var n := RunOf(cs, input, pos);
    OneOfIterates(env, fuel, cs, input, pos, n);
    CL.ManyMeaning(env, fuel, B.Many1(B.OneOf(cs), CharTy), input, pos, n);
    var vs := CharValues(input[pos..pos + n]);
    Join.FoldSpells("", vs);
    assert Join.CharsOf(vs) == input[pos..pos + n];
    assert "" + input[pos..pos + n] == input[pos..pos + n];
  }

  /**
   * `spaces()` consumes all the whitespace at the cursor and returns it;
   * it fails, consuming nothing, when the next character is not whitespace.
   */
  lemma SpacesTakesAllWhitespace(env: P.Env, fuel: nat, input: string, pos: nat)
    requires pos <= |input|
    ensures var n := RunOf(WhiteChars, input, pos);
      && (pos + n < |input| ==> input[pos + n] !in WhiteChars)
      && P.Eval(env, fuel, Spaces(), input, pos) ==
           if n == 0 then P.Done(Nothing, pos) else P.Done(Just(Text(input[pos..pos + n])), pos + n)
  {
    Many1OneOfTakesRun(env, fuel, WhiteChars, input, pos);
  }

}
