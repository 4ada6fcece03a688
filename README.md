# cpparse in Dafny

A model of cpparse, a backtracking parser-combinator library written as C++
headers, with proofs about it. A grammar is built as a graph of parser
objects. One top-level `parse(buffer)` call walks that graph over a single
rewindable input cursor. Every parser returns a `maybe` result, and every
parser that fails puts the cursor back where it found it.

## Layout

| file | module | what it holds |
|---|---|---|
| errors.dfy | `Errors` | `Fault`: the ways the C++ code does not return normally (exceptions, undefined behaviour, an endless loop); `Result` |
| values.dfy | `Values` | `Ty` and `Value`: the C++ result types `R`/`M` (unit, `char`, `std::string`, integers, `std::vector`), and `Default(t)`, the value `T()` |
| maybe.dfy | `Maybe` | `maybe<T>` as a datatype with `FromJust` returning `Throw(UnwrapNothing)` on nothing |
| buffer.dfy | `Buffers` | `buffer<T>` as a class: an immutable `data` sequence and a mutable position `pos` |
| join.dfy | `Join` | the `join<R>` policy: a vector for most element types, a string for `char` and `std::string`; the in-order fold of the policy |
| accumulator.dfy | `Accumulators` | `accumulator<R>` as a class whose `result` field `Append` and `AddAssign` update |
| parsers.dfy | `Parsers` | one datatype constructor per parser class; `Eval`, the meaning of `parse` |
| parse.dfy | `Parse` | the `parse` member functions as imperative methods over a `Buffer`, each proved to compute `Eval` |
| primitive_laws.dfy | `PrimitiveLaws` | what each leaf parser and wrapper parser does |
| combinator_laws.dfy | `CombinatorLaws` | what choice, sequence, merge, many and block do, with reference definitions of the `many` and `block` loops |
| builder.dfy | `Builder` | the factories of `parser.h` and `combinator.h`, `block_converter`, and the `Grammar` class holding forward targets and blocks |
| parser_utils.dfy | `ParserUtils` | `lift_vector`, `sep_by`, `end_by` |
| string_utils.dfy | `StringUtils` | `upper`, `lower`, `letter`, `digit`, `symbol`, `spaces`, `lift_string` |
| scenarios.dfy | `Scenarios` | small grammars evaluated on concrete inputs |

## How the model is built

- **Results.** The C++ templates are resolved at compile time. Here one
  `Value` datatype stands for all result types, and a `Ty` value stands for
  the type parameter wherever the code depends on it. Those places are the
  choice of `join` policy, the default value `M()` and `block_converter`'s
  `is_same` test. The input is always a `std::string`, so every buffer is a
  `Buffer<char>`.
- **Parsers.** `Parser(tag, node)` has one `Node` constructor per class.
  `Eval(env, fuel, p, input, pos)` gives what `p.parse` returns and where it
  leaves the cursor, or the `Fault` it runs into. Its postcondition
  `Backtracks` is the contract stated at cpparse/detail/parser.h:37-41:
  - on failure the cursor is back at its entry position;
  - on success the cursor has only moved forward;
  - the cursor never leaves the input.
  
  The methods of `Parse` run the same algorithms as the C++ code: they
  call `Next` and `Rewind` on a `Buffer`, loop over a string's characters,
  loop in `many` with an `Accumulator`, and loop over a block's steps. Each
  is proved to return what `Eval` says and to leave `buf.pos` where `Eval`
  says.
- **Shared, updated parsers.** A forward parser gets its target after it
  is built (`set_target`). A block gets its steps and its reducer after it
  is built (`then`, `evaluate`). Both are shared through `shared_ptr`. Here
  both live in the `Grammar` class, and parsers refer to them by cell
  index. `Eval` reads them through `Env`. This is also what lets a grammar
  refer to itself.
- **Recursion.** Each time `Eval` follows a cell index it spends one unit
  of `fuel`. Running out is the fault `OutOfFuel`.
- **Faults.** The library does not always return normally. `Fault`
  distinguishes each case:
  - `from_just` on nothing throws (`UnwrapNothing`);
  - `map::at` on a missing tag throws (`MissingTag`);
  - indexing an empty vector is undefined behaviour (`IndexOutOfRange`);
  - a reducer that was never set throws `bad_function_call` (`EmptyReducer`);
  - an unset forward target is a null dereference (`NullParser`);
  - an unbounded `many` whose inner parser succeeds without consuming input
    loops forever (`NoProgress`).
- **Unset placeholders.** A forward parser whose target was never set
  dereferences a null pointer (cpparse/detail/parser.h:60-61, 71). That is
  undefined behaviour in the code, not a defined failure. The model reports
  it as the distinct fault `NullParser`.
- **Determinism.** `Eval` is a function and each `Parse` method is pinned
  to it. So parsing the same input twice with the same grammar, on two
  separate buffers, gives the same result.

## Model

| member | source | states |
|---|---|---|
| Maybe.Maybe.FromJust | cpparse/maybe.h:37-43 | unwrapping succeeds exactly on a present value and yields that value; on nothing it is the `UnwrapNothing` fault, never a normal result |
| Maybe.JustHoldsValue | cpparse/maybe.h:66-67 | `just(v)` is present, not absent, and unwraps to exactly `v` |
| Maybe.NothingIsAbsent | cpparse/maybe.h:68-69 | `nothing` is absent, not present, and unwrapping it faults |
| Maybe.PresenceIsExclusive | cpparse/maybe.h:51-58 | `is_just` and `is_nothing` are negations of each other, and the boolean conversion equals `is_just` |
| Buffers.Buffer.constructor | cpparse/buffer.h:19-20 | a new buffer holds the given data with the cursor at the first element |
| Buffers.Buffer.HasNext | cpparse/buffer.h:25 | true exactly when the cursor is before the end |
| Buffers.Buffer.Next | cpparse/buffer.h:26-32 | at the end: nothing, cursor unchanged; otherwise the element at the cursor, cursor advanced by exactly one; the data never changes |
| Buffers.Buffer.Here | cpparse/buffer.h:34 | the cursor, which lies within the data |
| Buffers.Buffer.Rewind | cpparse/buffer.h:35 | sets the cursor to the given position and changes nothing else |
| Buffers.Buffer.Current | cpparse/buffer.h:37 | the element at the cursor, without moving it; only when there is a next element |
| Join.ResultTy | cpparse/detail/join.h:10-29 | the aggregate type is a string for `char` and `std::string` elements and a vector of the element type otherwise |
| Join.Empty | cpparse/accumulator.h:15-16 | the default-constructed aggregate is an aggregate of the element's policy and has the aggregate type |
| Join.Append | cpparse/detail/join.h:14-28 | appending keeps the aggregate of the element's policy |
| Join.AppendPushesBack | cpparse/detail/join.h:13-14 | the vector policy adds one element at the end, keeps the earlier ones, and the new last element is `v` |
| Join.AppendCharExtends | cpparse/detail/join.h:20-21 | the `char` policy adds exactly that character at the end of the string |
| Join.AppendTextConcatenates | cpparse/detail/join.h:27-28 | the `std::string` policy concatenates `v` onto the aggregate |
| Join.AppendKeepsType | cpparse/detail/join.h:10-29 | appending a well-typed element to a well-typed aggregate gives a well-typed aggregate |
| Join.FoldOntoSnoc | cpparse/accumulator.h:21 | appending one more element after a fold equals folding the longer sequence (appends compose in order) |
| Join.FoldCollects | cpparse/detail/join.h:13-14 | folding with the vector policy is concatenation of the elements onto the vector |
| Join.FoldSpells | cpparse/detail/join.h:20-21 | folding characters onto a string appends exactly those characters in order |
| Join.FoldConcatenates | cpparse/detail/join.h:27-28 | folding strings onto a string appends their concatenation |
| Accumulators.Accumulator.constructor | cpparse/accumulator.h:15-16 | a fresh accumulator holds the empty aggregate |
| Accumulators.Accumulator.Append | cpparse/accumulator.h:21 | the new result is exactly the `join` policy applied to the old result and `v` |
| Accumulators.Accumulator.AddAssign | cpparse/accumulator.h:26 | `+=` has exactly the effect of `append` |
| Accumulators.Accumulator.Result | cpparse/accumulator.h:23-29 | returns the held aggregate without changing it |
| Parsers.Eval | cpparse/detail/parser.h:37-41 | every parser, whatever it is built from: on failure the cursor is back at entry, on success it moved only forward, and it stays within the input |
| Parsers.EvalLiteral | cpparse/detail/string_parser.h:28-38 | the literal loop keeps the same backtracking contract from the position where the literal started |
| Parsers.EvalMany | cpparse/detail/combinator.h:186-212 | the many loop, at any iteration, keeps the backtracking contract relative to the entry of `many` |
| Parsers.EvalBlock | cpparse/detail/combinator.h:245-266 | the block loop, at any step, keeps the backtracking contract relative to the entry of the block |
| Parse.Parse | cpparse/detail/parser.h:41 | virtual `parse` on any parser returns, and moves the buffer, exactly as `Eval` says |
| Parse.ParseForward | cpparse/detail/parser.h:69-73 | forward parser: delegates to its target; result and cursor are those of `Eval` |
| Parse.ParseSkip | cpparse/detail/parser.h:97-104 | skip parser's result and cursor are those of `Eval` |
| Parse.ParseOption | cpparse/detail/parser.h:125-131 | option parser's result and cursor are those of `Eval` |
| Parse.ParseLift | cpparse/detail/parser.h:158-166 | lift parser's result and cursor are those of `Eval` |
| Parse.ParseOneOf | cpparse/detail/parser.h:186-202 | one-of, with its `next` and `rewind` on the buffer, gives `Eval`'s result and cursor |
| Parse.ParseNoneOf | cpparse/detail/parser.h:220-236 | none-of, with its `next` and `rewind` on the buffer, gives `Eval`'s result and cursor |
| Parse.ParseString | cpparse/detail/string_parser.h:24-39 | the character loop with `continue` and rewind gives `Eval`'s result and cursor |
| Parse.ParseChar | cpparse/detail/string_parser.h:56-66 | char parser gives `Eval`'s result and cursor |
| Parse.ParseChoice | cpparse/detail/combinator.h:66-77 | choice gives `Eval`'s result and cursor |
| Parse.ParseSequence | cpparse/detail/combinator.h:100-114 | sequence, with its rewind to `start`, gives `Eval`'s result and cursor |
| Parse.ParseMerge | cpparse/detail/combinator.h:139-161 | merge, with its accumulator and rewind, gives `Eval`'s result and cursor |
| Parse.ParseMany | cpparse/detail/combinator.h:186-212 | the counting loop over an accumulator gives `Eval`'s result and cursor (and the `NoProgress` fault where the source loops forever) |
| Parse.ParseBlock | cpparse/detail/combinator.h:245-266 | the loop over the steps filling the tag map, then the reducer call, gives `Eval`'s result and cursor |
| PrimitiveLaws.ForwardPassesThrough | cpparse/detail/parser.h:69-73 | a bound forward parser returns exactly what its target returns, with the target's cursor effect |
| PrimitiveLaws.UnsetForwardFaults | cpparse/detail/parser.h:60-61 | a forward parser with no target is a null dereference when parsed |
| PrimitiveLaws.SkipDiscardsResult | cpparse/detail/parser.h:97-104 | skip succeeds iff the inner parser succeeds, with `M()` as result and the inner parser's cursor |
| PrimitiveLaws.OptionNeverFails | cpparse/detail/parser.h:125-131 | option never fails: the inner value on success, else the stored alternate with the cursor unchanged |
| PrimitiveLaws.LiftMapsResult | cpparse/detail/parser.h:158-166 | lift fails iff the inner parser fails; on success it returns `f` of the inner value |
| PrimitiveLaws.OneOfMatchesMember | cpparse/detail/parser.h:186-202 | one-of succeeds iff a next element exists and is a choice, consuming exactly it and returning it; otherwise, at end of input too, the cursor is unchanged |
| PrimitiveLaws.NoneOfMatchesNonMember | cpparse/detail/parser.h:220-236 | none-of succeeds iff a next element exists and is not rejected, consuming exactly it; otherwise the cursor is unchanged |
| PrimitiveLaws.LiteralLoop | cpparse/detail/string_parser.h:28-36 | once a prefix of the literal has matched, the loop ends in the full match or in a rewind to the start |
| PrimitiveLaws.StringMatchesExactly | cpparse/detail/string_parser.h:24-39 | the string parser succeeds iff the input holds the literal at the cursor, returning it and advancing by its length; on any mismatch or exhaustion it rewinds and fails |
| PrimitiveLaws.EmptyStringConsumesNothing | cpparse/detail/string_parser.h:28-38 | the empty literal succeeds without consuming input |
| PrimitiveLaws.CharMatchesOne | cpparse/detail/string_parser.h:56-66 | the char parser succeeds iff the next element is its character, consuming one and returning it; otherwise, at end of input too, the cursor is unchanged |
| CombinatorLaws.ChoicePrefersFirst | cpparse/detail/combinator.h:66-77 | a success of the first alternative is the answer; otherwise the answer is the second's outcome from the same position; the choice fails iff both fail |
| CombinatorLaws.SequenceKeepsSecond | cpparse/detail/combinator.h:100-114 | both succeed: the second's result and cursor; either fails: failure with the cursor back before the first |
| CombinatorLaws.MergeJoinsBoth | cpparse/detail/combinator.h:139-161 | both succeed: the fold of [first result, second result] under the element policy; either fails: the cursor is back at entry |
| CombinatorLaws.MergeOfCharsSpells | cpparse/detail/combinator.h:147-156 | merging two characters gives the two-character string |
| CombinatorLaws.ManyRuns | cpparse/detail/combinator.h:194-202 | a run of k inner successes advances the loop by k iterations, folding their results in order into the accumulator |
| CombinatorLaws.ManyMeaning | cpparse/detail/combinator.h:186-212 | with n the count of consecutive inner successes, capped at `max` when `max > 0`: many fails with the cursor at entry iff n < `min`, else returns the in-order fold of the n results (empty when n = 0) with the cursor after them |
| CombinatorLaws.ManyWithoutProgress | cpparse/detail/combinator.h:194-202 | unbounded many whose inner parser succeeds without consuming, after any run, never ends (`NoProgress`) |
| CombinatorLaws.ManyPropagatesFault | cpparse/detail/combinator.h:194-202 | a fault of the inner parser after a run of successes is the fault of many |
| CombinatorLaws.BindAllKeys | cpparse/detail/combinator.h:259-261 | the tag map holds exactly the tags of the steps with a non-empty tag |
| CombinatorLaws.BindAllLastWins | cpparse/detail/combinator.h:259-261 | when several steps share a tag, the map holds the result of the last of them |
| CombinatorLaws.BindAllKeeps | cpparse/detail/combinator.h:259-261 | an entry whose tag no later step uses is left unchanged |
| CombinatorLaws.BlockRuns | cpparse/detail/combinator.h:250-265 | when every remaining step succeeds, the block ends by calling the reducer once on the map of tagged results, at the cursor after the last step |
| CombinatorLaws.BlockStopsAtFailure | cpparse/detail/combinator.h:250-257 | when step k fails after the earlier ones succeeded, the block fails with the cursor at its entry, however far the earlier steps moved it, and the reducer is not reached |
| CombinatorLaws.BlockMeaning | cpparse/detail/combinator.h:245-266 | a block whose steps all succeed returns the reducer's verdict on the tagged results of its steps, at the cursor after the last step; a block in which some step fails after the earlier ones succeeded fails with the cursor at its entry |
| CombinatorLaws.BlockWithoutReducerThrows | cpparse/detail/combinator.h:264-271 | a block whose reducer was never installed throws once all its steps succeed |
| Builder.OptionalDefaultsOnFailure | cpparse/parser.h:93-97 | `optional(p)` is `p` when `p` succeeds or faults, and `T()` with the cursor unchanged when `p` fails |
| Builder.ManyLoopFromZero | cpparse/detail/combinator.h:204-211 | with `min == 0` the many loop never fails |
| Builder.ManyNeverFails | cpparse/combinator.h:62-66 | `many(p)` with its default `min` of 0 never fails |
| Builder.Many1NeedsOne | cpparse/combinator.h:68-72 | `many1(p)` fails without consuming when the first attempt of `p` fails |
| Builder.ConvertKeepsShape | cpparse/combinator.h:94-107 | a converted step succeeds, fails and moves the cursor exactly as the step; its result is the step's own if its type is `M` and `M()` otherwise; only in the first case does it keep the tag |
| Builder.TagKeepsMeaning | cpparse/detail/parser.h:32-35 | the tag of a parser does not change what it parses |
| Builder.CopiesAgree | cpparse/parser.h:42-49 | a tagged copy of a forward parser or block parses as the original did when it was copied |
| Builder.Grammar.Placeholder | cpparse/parser.h:58-62 | a new forward parser, untagged, whose target is unset; nothing else changes |
| Builder.Grammar.SetTarget | cpparse/detail/parser.h:66-67 | sets the target of that forward parser, seen through every handle on it, or resets it to null; nothing else changes |
| Builder.Grammar.Tag | cpparse/parser.h:42-49 | a copy carrying tag `s`; a forward parser's copy keeps the target as it is now, and a block's copy keeps its steps and reducer; the original is unchanged |
| Builder.Grammar.NewBlock | cpparse/combinator.h:81-85 | a new block with no steps and no reducer |
| Builder.Grammar.Then | cpparse/detail/combinator.h:236-240 | appends the step at the end of that block's steps; earlier steps, the reducer and every other block are unchanged |
| Builder.Grammar.Evaluate | cpparse/detail/combinator.h:242-243 | installs the reducer of that block, replacing any earlier one |
| Builder.Grammar.AddStep | cpparse/combinator.h:110-117 | `b ->* p` appends the `block_converter` form of `p` as the last step of the same block and returns that block |
| Builder.Grammar.SetReducer | cpparse/combinator.h:121-126 | `b ^ f` installs `f` as the reducer and returns the same block |
| ParserUtils.LiftVectorWraps | cpparse/parser_utils.h:11-22 | `lift_vector(p)` fails iff `p` fails, and on success returns the one-element vector of `p`'s result |
| ParserUtils.Collect | cpparse/parser_utils.h:31-39 | the reducer succeeds iff "first" holds a non-empty vector and "rest" is bound; its vector has one element more than "rest" |
| ParserUtils.CollectResults | cpparse/parser_utils.h:31-39 | the `push_back` loop over "rest" computes the reducer's result |
| ParserUtils.SepBy | cpparse/parser_utils.h:26-40 | allocates one block holding the two `sep_by` steps, converted by `->*`, and the reducer |
| ParserUtils.EndBy | cpparse/parser_utils.h:44-59 | allocates one block holding the `sep_by` steps, then `s`, and the same reducer |
| ParserUtils.SepByStepsRun | cpparse/parser_utils.h:29-30 | for a vector element type: `p` once, then the repetitions of `s >> p`, with their results |
| ParserUtils.SepByMeaning | cpparse/parser_utils.h:26-40 | fails with the cursor restored iff the first `p` fails; otherwise returns `p`'s result followed by each `s >> p` repetition's result, stopping after the last `p`, so a separator not followed by `p` is left unconsumed |
| ParserUtils.SepByFailsOnlyAtFirst | cpparse/parser_utils.h:28-39 | once the first `p` has succeeded, `sep_by` cannot fail: its "rest" step is a `many` with `min` 0 and the reducer never yields failure, so the block fails only when `p` does |
| ParserUtils.EndByMeaning | cpparse/parser_utils.h:44-59 | fails with the cursor restored when the first `p` fails; otherwise the same list as `sep_by`, but a trailing `s` must follow, the cursor ends after it, and without it the block fails with the cursor restored; a separator of type M tagged "first" or "rest" overwrites that entry, so the list starts from the separator's own first element (out of range when its vector is empty) or has the separator's vector as its tail |
| ParserUtils.EndByRun | cpparse/parser_utils.h:47-58 | once `p` and the repetitions have run, `end_by`'s outcome is the reducer's verdict on "first", "rest" and the separator's result recorded under the tag `->*` leaves it |
| ParserUtils.SepByOfTextLosesRest | cpparse/parser_utils.h:28-39 | for a `char` or `std::string` element, `->*` lifts the string-valued "rest" step into an untagged parser, so after both steps succeed the reducer's lookup of "rest" throws |
| StringUtils.UpperAccepts | cpparse/string_utils.h:9 | `upper` accepts exactly 'A'..'Z' |
| StringUtils.LowerAccepts | cpparse/string_utils.h:10 | `lower` accepts exactly 'a'..'z' |
| StringUtils.LetterAccepts | cpparse/string_utils.h:11 | `letter` (`upper` tried before `lower`) accepts exactly the ASCII letters |
| StringUtils.DigitAccepts | cpparse/string_utils.h:13 | `digit` accepts exactly the ten characters '0'..'9' |
| StringUtils.SymbolsAreDistinct | cpparse/string_utils.h:14 | whatever `symbol` accepts, `letter`, `digit` and the whitespace class reject |
| StringUtils.SymbolClass | cpparse/string_utils.h:14 | each character of the symbol set is neither a letter, nor a digit, nor whitespace |
| StringUtils.LiftStringWraps | cpparse/string_utils.h:20-27 | `lift_string` turns a char result `c` into the string "c" |
| StringUtils.Many1OneOfTakesRun | cpparse/string_utils.h:17 | `many1(one_of(cs))` takes the longest run of characters from `cs` and returns it as a string; with no such character next it fails without consuming |
| StringUtils.SpacesTakesAllWhitespace | cpparse/string_utils.h:17 | `spaces` fails unless space, tab, CR or LF is next, and otherwise consumes and returns the maximal whitespace run |
| Scenarios.LetInLettuce | cpparse/detail/string_parser.h:24-39 | the literal "let" on "lettuce" returns "let" with the cursor before "tuce" |
| Scenarios.CatOrCar | cpparse/detail/combinator.h:66-77 | `string("cat") \| string("car")` on "car" returns "car", the first attempt having rewound |
| Scenarios.DigitsOf123abc | cpparse/string_utils.h:13 | `many1(digit())` on "123abc" returns "123" with the cursor before "abc" |
| Scenarios.NoDigitsInAbc | cpparse/string_utils.h:13 | `many1(digit())` on "abc" fails with the cursor at 0 |
| Scenarios.ParenthesisedDigits | cpparse/detail/combinator.h:245-266 | a block `->* character('(') ->* (many1(digit()) << tag("n")) ->* character(')')`, whose bracket steps `->*` lifts untagged, on "(42)" hands "42" to its reducer and consumes the whole input |

The factories `Builder.Skip`, `Option`, `Optional`, `Lift`, `OneOf`,
`NoneOf`, `Or`, `AndThen`, `MergeWith`, `ManyOf` and `Many1`, and `Convert`,
build parser values (cpparse/parser.h:75-134, cpparse/combinator.h:17-107).
They are the same for `StringUtils.Upper` and the other character classes,
and for `ParserUtils.LiftVector`. What these parsers do is stated by the
lemmas above about the node each one builds.

## Left out

- Template type resolution is not modelled. Types are passed as `Ty` values.
  The input element is always `char`, so `one_of` and `none_of` over other
  token types are not modelled.
- Copying and assigning a `maybe` (cpparse/maybe.h:24-35) is not modelled
  separately. Dafny datatypes are values, so a copy is the same value.
- Placement-new storage in `maybe`, `shared_ptr` ownership,
  `dynamic_pointer_cast` (cpparse/parser.h:30-35), `make_parser`, and
  `std::function` storage are not modelled. They carry no behaviour beyond
  the values and sharing modelled here.
- cpparse/detail/parser_traits.h is not part of this model. It is type
  plumbing only.
- cpparse/string_combinator.h and cpparse/string_parser.h are not part of
  this model. They hold the `char` and `std::string` overloads of `many`,
  `many1`, `>>=`, `one_of`, `none_of`, `character` and `string`, which pick
  the string and concatenating accumulators. Their effect is folded into
  `Join`: a `char` many builds a string, and a string merge concatenates.
  The nodes `OneOf`, `NoneOf`, `Literal` and `Single` stand for the
  `char` versions.
- The older root-level headers and the Lisp example programs are not part
  of this model. The headers are buffer.h, detail.h, parser.h,
  combinator.h, string_parser.h and parser_util.h. The programs are
  lisp.cpp, lisp1.cpp and other.cpp.
- The C++ code has no bound on recursion through forward parsers. Left
  recursion there overflows the stack. Here each cell dereference spends
  fuel, and running out is `OutOfFuel`.
- An unbounded `many` over a parser that succeeds without consuming loops
  forever in C++. Here it is the fault `NoProgress`, not non-termination.
- `many` takes `std::size_t` bounds, modelled as `nat` without
  wrap-around. A count cannot reach 2^64 on an input that fits in memory.
- Ill-typed values, which the C++ compiler rejects, are given a total
  meaning. `Join.Append` ignores a non-`char` value under the `char`
  policy. It ignores a non-string value under the `std::string` policy.
  `LiftString` maps a non-`char` value to the empty string. The reducer
  reads a non-vector "rest" as empty.
- The model accepts some constructions that do not compile in C++:
  - `p << tag(s)` on a parser whose copy constructor is deleted. These are
    choice, sequence, merge, many, block, string and char (for example
    cpparse/detail/combinator.h:183 and 233). `sep_by` and `end_by` do
    this to a `many`.
  - Passing an accumulator template argument from cpparse/combinator.h to
    the two-parameter `merge_combinator` and `many_combinator`.
  
  The model gives these the meaning of the copy or call they spell out.
- Buffers.Buffer.Current: requires a next element. Dereferencing the end
  iterator is undefined in C++.
- Builder.Grammar.Tag, Builder.Grammar.SetTarget, Builder.Grammar.Then,
  Builder.Grammar.Evaluate: require a valid handle. In C++ a dangling or
  null handle cannot arise from these factories.
- CombinatorLaws.ManyMeaning: characterises the result for a run length n
  that the caller supplies together with its stop condition. It does not
  itself show that such an n exists for every input.
- ParserUtils.SepByMeaning and ParserUtils.EndByMeaning: stated for element
  types whose aggregate is a vector. For `char` and `std::string` elements
  the "rest" step loses its tag, and `ParserUtils.SepByOfTextLosesRest`
  states the resulting fault.
- Parsers.Eval: the function of a `lift` parser is a total, non-throwing
  `Value -> Value`. A user lambda passed to `lift` could throw, and
  `parse` would pass the exception on. The lifts the library itself
  builds (`lift_vector`, the `block_converter` default, `lift_string`)
  never throw.
- Builder.CopiesAgree: compares a copy with its original while both cells
  hold the same state. It says nothing after a later `set_target` on one of
  them.
