# A regex-to-NFA compiler and its simulator, in Dafny

The modelled program compiles a tiny regular-expression language into a
non-deterministic finite automaton (NFA) by Thompson's construction. It then
runs the automaton on input strings by subset simulation.

The alphabet has two symbol classes and an epsilon label:
- 'a' is the class of every lower-case letter;
- 'd' is the class of every digit;
- 'e' is reserved for epsilon edges.

The language has:
- 'U' for union, splitting the text at every 'U';
- a literal 'a' or 'd', optionally followed by '*';
- a group `(…)`, which is always starred, followed by the rest of the text.

The model has two parts.

**The automaton** (`src/NFA.java`) is an immutable `NFA` value:
- a set of states;
- a transition map keyed by (state, label) holding sets of destinations;
- a start state;
- a set of final states.

The guarded mutators return the machine and the `boolean` the source returns.
The source's process-wide state counter becomes an explicit `next: nat`,
threaded through every operation that allocates a state. Every machine's
states lie below the counter. Fresh states are therefore new, and the machines
the compiler combines have disjoint states.

Acceptance has two definitions:
- the subset simulation `acceptsString`, modelled as the method
  `Simulation.AcceptsString`;
- an independent reference, `Paths.Accepts`: some walk from the start to a
  final state spells the translated input, with epsilon edges spelling
  nothing.

The simulator is proved to decide exactly the reference. The combinators
`star`, `union` and `concatenate` are proved to accept the Kleene star, union
and concatenation of their operands' languages.

**The compiler** `buildNFA` (`src/Main.java:49-149`) is a family of mutually
recursive methods on strictly shorter texts. `Regex` gives each text a
meaning that never mentions a machine:
- `NullExp`: the texts `buildNFA` answers with `null`;
- `Crashes`: the texts on which it throws (a `NullPointerException`, or an
  `ArrayIndexOutOfBoundsException` for an empty split);
- `Lang`: the words every other text denotes.

`Compiler.Compile` states all three as one contract, `Outcome`:
- the result is null exactly for `NullExp` texts;
- it is a crash exactly for `Crashes` texts;
- otherwise it is a machine over 'a', 'd' and 'e' that accepts exactly the
  words of `Lang`.

The flag `keepRest` selects between two versions of the starred-literal
branch:
- the code as written (`Compiler.BuildNFA`): the text after `c*` is dropped;
- the behaviour its comment describes (`Compiler.BuildNFAIntended`): the text
  after `c*` is concatenated.

`CompilerFacts` derives from this contract:
- a general rejection property;
- the outcome on small texts;
- the difference between the two versions.

Where the code departs from what its comments and names suggest, the model
follows the code:
- **Starred literal.** The branch `c*` returns the star of the literal and
  never compiles what follows the `*` (src/Main.java:107-109). The comment at
  src/Main.java:94-96 says it is concatenated. So
  "a*d" accepts exactly what "a*" accepts.
- **Letter case.** `translateInput` maps only lower-case letters to the
  letter class. An upper-case letter reads as itself and no compiled edge
  reads it, so any input holding one is rejected.
- **Union segments.** Every segment of a union is compiled, empty ones
  included:
  - an empty or otherwise null first segment makes the fold throw;
  - a null later segment is skipped by `union(null)`.
- **Malformed text.** `buildNFA` never rejects a text outright. On malformed
  text it returns `null`, throws (exactly on the `Crashes` texts), or reads
  the text leniently:
  - the character after a group's `)` is skipped unchecked, so "(a)xd" reads
    as "(a)*d";
  - an unterminated group runs to the end of the text;
  - text after a recognised prefix that compiles to `null` is dropped by
    `concatenate(null)`.

Modules, in dependency order:
- `automaton.dfy`: the NFA value and its guarded mutators.
- `paths.dfy`: walks, the reference acceptance, and walk surgery lemmas.
- `simulation.dfy`: `transition`, `epsilonTransition`, `acceptsString`.
- `combinators.dfy`: `star`, `union`, the self-union, `concatenate`.
- `combinator_laws.dfy`: their languages.
- `languages.dfy`: Kleene star and concatenation of languages.
- `split.dfy`: Java's `String.split("U")`.
- `regex.dfy`: the meaning of a regex text.
- `steps.dfy`: the compiler's building blocks and their invariants.
- `compiler.dfy`: `buildNFA`.
- `compiler_facts.dfy`: consequences and examples.

## Model

| member | source | states |
|---|---|---|
| Automaton.NewNFA | src/NFA.java:23-29 | A new machine holds one fresh state, which is its start; it has no edges and no finals. |
| Automaton.AddState | src/NFA.java:32-37 | The state the counter issues is added, and no other part of the machine changes. The issued state is not yet a member and stays below the advanced counter. |
| Automaton.TranslateInput | src/NFA.java:49-53 | Lower-case letters map to 'a' and digits to 'd'. Those are the only characters that map to a symbol class. Every other character, upper-case letters included, is returned unchanged, and no character maps to the epsilon label. |
| Automaton.Translate | src/NFA.java:159-161 | The word an input is matched as has the same length, and its i-th symbol is the translation of the i-th character. |
| Automaton.AddTransition | src/NFA.java:57-71 | The call succeeds exactly when both ends are member states, and a failure changes nothing. On success, exactly the (src, sig) destination set gains dst; earlier destinations and every other entry are kept. The machine invariant is preserved. |
| Automaton.HasTransition | src/NFA.java:74-77 | On a valid machine, an entry exists exactly when the state has a successor on that label. |
| Automaton.GetTransitions | src/NFA.java:79-82 | The result is null exactly when `hasTransition` is false. Otherwise it is the non-empty set of member successors. |
| Automaton.SetStartState | src/NFA.java:86-92 | The call fails with no change for a non-member. Otherwise the start becomes that state and nothing else changes. |
| Automaton.ClearFinalStates | src/NFA.java:100-103 | No state stays final, and nothing else changes. |
| Automaton.AddFinalState | src/NFA.java:105-111 | The call fails with no change for a non-member or an already-final state. Otherwise the final set grows by exactly that one state. |
| Automaton.AddAllStates | src/NFA.java:267-271 | The states become the union with the other set, and nothing else changes. |
| Automaton.AddAllTransitions | src/NFA.java:273-279 | Each successor set grows by the other map's destinations that are member states, and only from member sources. Everything else is unchanged and the invariant is kept. |
| Automaton.AddAllTransitionsSingle | src/NFA.java:273-279 | Merging a one-edge map is the same as the guarded `addTransition` of that edge. |
| Automaton.AddEdgesTo | src/NFA.java:229-231 | The loop adding an epsilon edge from each listed state adds exactly the guarded edges to dst. |
| Automaton.AddFinals | src/NFA.java:236-238 | The loop of `addFinalState` calls makes exactly the listed member states final. |
| Automaton.AddFinalsStep | src/NFA.java:214-216 | One more loop round is one more guarded `addFinalState`, whatever the iteration order. |
| Simulation.Transition | src/NFA.java:117-128 | The result is exactly the union of the current states' sig-successor sets; states without an entry contribute nothing. |
| Simulation.EpsilonTransition | src/NFA.java:132-147 | The result contains the input and no epsilon edge leaves it. |
| Simulation.EpsilonTransitionLeast | src/NFA.java:132-147 | The closure lies inside every epsilon-closed superset of the input: it is the least one. |
| Simulation.EpsilonTransitionIdempotent | src/NFA.java:132-147 | Closing a closed set returns it unchanged; closing twice is closing once. |
| Simulation.EpsilonTransitionReach | src/NFA.java:132-147 | The closure holds exactly the states that an input state reaches by epsilon edges. |
| Simulation.StepReach | src/NFA.java:159-164 | One round, a step and then a closure, maps the states reached on w to exactly the states reached on w followed by c. |
| Simulation.TracksDead | src/NFA.java:165-167 | An empty active set after a prefix means the whole input is rejected, so the early exit is sound. |
| Simulation.TracksEnd | src/NFA.java:169-175 | After the whole input, the active set meets a final state exactly when the input is accepted. |
| Simulation.Simulate | src/NFA.java:154-168 | The loop keeps the active set closed and exactly the states reached on the prefix read so far. When it gives up early, the input is rejected. |
| Simulation.AcceptsString | src/NFA.java:152-176 | The result is true exactly when some walk from the start to a final state spells the translated input. On the empty input, it is true exactly when the closure of the start meets the finals. |
| Combinators.Absorb | src/NFA.java:205-208 | The receiver gains the other machine's states and, all of them being members, every one of its edges. |
| Combinators.Star | src/NFA.java:180-195 | One fresh state becomes the start and is final, with an epsilon edge to the old start. Every old final gets an epsilon edge back to the old start and stays final. |
| Combinators.Union | src/NFA.java:202-217 | `union(null)` changes nothing. Otherwise the receiver absorbs the other machine, and a fresh start gets epsilon edges to both old starts. The finals of both stay final. |
| Combinators.UnionSelf | src/NFA.java:210-213 | For `m.union(m)`, the absorb adds nothing and the second epsilon edge loops on the fresh start, because the other machine's start is read after `setStartState`. |
| Combinators.Concatenate | src/NFA.java:221-239 | `concatenate(null)` changes nothing. Otherwise every receiver final gets an epsilon edge to the other machine's start, and only the other machine's finals stay final. |
| CombinatorLaws.StarShapeLanguage | src/NFA.java:180-195 | The starred machine accepts exactly the Kleene star of the old language. |
| CombinatorLaws.StarLanguage | src/NFA.java:180-195 | `star` accepts exactly L(A)*, and in particular the empty word. |
| CombinatorLaws.UnionShapeLanguage | src/NFA.java:202-217 | For disjoint machines, the union shape accepts exactly the words either operand accepts. |
| CombinatorLaws.UnionLanguage | src/NFA.java:202-217 | `union` of disjoint machines accepts exactly L(A) ∪ L(B). |
| CombinatorLaws.UnionNullLanguage | src/NFA.java:203 | `union(null)` leaves the machine, and so its language, as it is. |
| CombinatorLaws.SelfUnionShapeLanguage | src/Main.java:76-78 | The self-union, with its epsilon self-loop, accepts exactly what the machine accepted. |
| CombinatorLaws.UnionSelfLanguage | src/Main.java:76-78 | The first fold step adds a state but leaves the language unchanged. |
| CombinatorLaws.ConcatShapeLanguage | src/NFA.java:221-239 | For disjoint machines, the concatenation shape accepts exactly the words that split into a word of A followed by a word of B. |
| CombinatorLaws.ConcatenateLanguage | src/NFA.java:221-239 | `concatenate` of disjoint machines accepts exactly L(A)·L(B). |
| CombinatorLaws.ConcatenateNullLanguage | src/NFA.java:222 | `concatenate(null)` leaves the machine, and so its language, as it is. |
| Split.JavaSplit | src/Main.java:70 | No segment contains 'U', and each is shorter than a text that has one. The last segment is non-empty: trailing empty segments are dropped. |
| Split.JoinPieces | src/Main.java:70 | Cutting at every 'U' and joining with 'U' gives the text back. |
| Split.JavaSplitRoundTrip | src/Main.java:70 | Java's split plus the dropped empty segments joins back to the text. |
| Regex.FindClose | src/Main.java:131-136 | The scan stops at the first ')' from index 1, or at the end of the text, and no earlier index holds ')'. |
| Regex.GroupCrashes | src/Main.java:137-140 | A group throws exactly when its inside is null or throws, or the rest after index i+2 throws. |
| Regex.GroupLang | src/Main.java:137-142 | A group denotes the star of its inside, followed by the rest when the rest compiles to something. |
| Steps.Literal | src/Main.java:103-106 | The literal machine has two fresh states, and the only edge reads c from the start to the only final state. |
| Steps.LiteralLang | src/Main.java:103-106 | The literal machine accepts exactly the one-symbol word c. |
| Steps.LiteralLabels | src/Main.java:105 | A literal on 'a' or 'd' labels edges only with 'a', 'd' and 'e'. |
| Steps.StarLabels | src/NFA.java:185-189 | Starring adds only epsilon edges, so the label set is kept. |
| Steps.UnionLabels | src/NFA.java:211-213 | A union adds only epsilon edges, so the label set is kept. |
| Steps.SelfUnionLabels | src/NFA.java:211-213 | The self-union adds only epsilon edges, so the label set is kept. |
| Steps.ConcatLabels | src/NFA.java:229-231 | Concatenation adds only epsilon edges, so the label set is kept. |
| Steps.StarGood | src/NFA.java:183 | Starring a good machine gives a good one: over three labels, with states issued from lo up to the new counter (validity itself is proved by `Combinators.Star`). |
| Steps.ThenRest | src/Main.java:111 | Concatenating a null rest leaves the machine as it is, and a crash propagates. Otherwise the result is the concatenation shape and stays good. |
| Steps.ThenRestLang | src/Main.java:111 | Concatenating the rest denotes L followed by the rest's language, or L alone when the rest is null. |
| Steps.StarThen | src/Main.java:138-141 | Starring and then concatenating the rest yields a machine exactly when the rest does not crash. That machine is the star of m followed by the rest. |
| Steps.StarLang | src/Main.java:108 | A starred machine denotes the Kleene star of the language its operand denotes. |
| Steps.FoldStep | src/Main.java:77-79 | One fold round keeps the fold's machines good and pairwise disjoint. |
| Steps.FoldUnion | src/Main.java:77-79 | The union fold returns a good machine and never moves the counter backwards. |
| Steps.FoldLang | src/Main.java:77-79 | The fold accepts what its first machine or any later non-null machine accepts. |
| Compiler.Compile | src/Main.java:49-149 | The result is null exactly for `NullExp` texts (the empty text, or no 'U' and a first character other than 'a', 'd' or '('), and a crash exactly for `Crashes` texts. Otherwise it is a good machine accepting exactly `Lang(exp)`. Every recursive call is on a shorter text. |
| Compiler.BuildNFA | src/Main.java:49-149 | The code as written: the outcome `Compile` states, with the text after `c*` dropped. |
| Compiler.BuildNFAIntended | src/Main.java:94-96 | The same outcome with the text after `c*` concatenated, as the comment describes. |
| Compiler.CompileUnion | src/Main.java:69-81 | A text with 'U' throws exactly when the split is empty, the first segment is null, or a segment throws. Otherwise it accepts exactly the words of some segment. |
| Compiler.CompileAll | src/Main.java:70-74 | Compiling every segment in order throws exactly when some segment throws. Otherwise each entry is null exactly for a null segment, and accepts exactly that segment's words. |
| Compiler.SegsLang | src/Main.java:72-79 | Some compiled segment accepts a word exactly when some segment denotes it. |
| Compiler.CompileLiteral | src/Main.java:102-114 | A leading 'a' or 'd' never yields null, throws exactly when the compiled rest throws, and otherwise accepts exactly `Lang(exp)`. |
| Compiler.LiteralMeans | src/Main.java:110-113 | The literal followed by the compiled rest, or the literal alone when the rest is null, accepts exactly `Lang(exp)`. |
| Compiler.StarMeans | src/Main.java:107-109 | The starred literal, followed by the kept rest or by nothing, accepts exactly `Lang(exp)`. |
| Compiler.CompileGroup | src/Main.java:130-143 | A group never yields null, throws exactly when `Crashes` says so, and otherwise accepts exactly `Lang(exp)`. |
| Compiler.GroupTail | src/Main.java:138-142 | Starring the inside and concatenating the rest from index i+2 gives the group's outcome. |
| Compiler.GroupCrash | src/Main.java:137-141 | Once the inside has compiled, the group throws exactly when its rest throws. |
| Compiler.GroupMeans | src/Main.java:137-142 | The starred inside followed by the rest accepts exactly the group's words. |
| CompilerFacts.LabelsReject | src/NFA.java:49-53 | A compiled machine rejects every input holding a character that is neither a lower-case letter nor a digit, upper-case letters included. |
| CompilerFacts.TranslateExamples | src/NFA.java:49-53 | Worked translations: "x" reads as 'a', "5" as 'd', "x5" as "ad". |
| CompilerFacts.LangSymbol | src/Main.java:102-113 | A lone 'a' or 'd' compiles, without throwing, to a machine for exactly that one symbol. |
| CompilerFacts.LiteralExamples | src/Main.java:102-113 | "a" accepts "x" and rejects "" and "xy"; "ad" accepts "x5" and rejects "5x" and "". |
| CompilerFacts.SplitTwo | src/Main.java:70 | "aUd" splits into "a" and "d". |
| CompilerFacts.SplitTrailing | src/Main.java:70 | "aU" splits into just "a", and "U" splits into nothing. |
| CompilerFacts.NullDenotesNothing | src/Main.java:147 | A text compiling to null neither throws nor denotes any word. |
| CompilerFacts.UnionOfOne | src/Main.java:69-81 | A one-segment union denotes what the segment does, and throws when that segment is null or throws. |
| CompilerFacts.UnionOfTwo | src/Main.java:69-81 | A two-segment union denotes either segment's words. It throws when the first segment is null or either segment throws, but not when only the second is null. |
| CompilerFacts.UnionLangs | src/Main.java:69-81 | "aUd" compiles to a machine for exactly one letter or one digit. |
| CompilerFacts.UnionExamples | src/Main.java:69-81 | "aUd" accepts "x" and "5", and rejects "" and "x5". |
| CompilerFacts.TrailingBar | src/Main.java:70 | "aU" throws and denotes exactly as "a" does. |
| CompilerFacts.NullSegmentSkipped | src/NFA.java:203 | In "aUx" the null segment "x" is skipped, so the text compiles to what "a" denotes. |
| CompilerFacts.LeadingBarCrashes | src/Main.java:76-78 | Every text starting with 'U' throws, because its first segment is missing or empty. |
| CompilerFacts.EmptyGroupCrashes | src/Main.java:137-138 | Every union-free text starting with "()" throws, because `star` is called on null. |
| CompilerFacts.GroupLangs | src/Main.java:130-143 | "(a)*d" compiles to a machine for exactly some letters followed by one digit. |
| CompilerFacts.GroupExamples | src/Main.java:130-143 | "(a)*d" accepts "5" and "aaa5", and rejects "5a", "x" and "". |
| CompilerFacts.StarIgnoresRest | src/Main.java:107-109 | As written, `c*` followed by any union-free rest denotes exactly the repetitions of c. The rest cannot make it throw. |
| CompilerFacts.StarExamples | src/Main.java:107-109 | "a*" accepts "", "x" and "xyz", and rejects "1". |
| CompilerFacts.StarDropsDigit | src/Main.java:107-109 | As written, "a*d" accepts "" and "x", which end in no digit, and rejects "x5". |
| CompilerFacts.StarKeepsRest | src/Main.java:94-96 | With the rest kept, `c*` followed by a non-null rest denotes repetitions of c followed by a word of the rest, and throws exactly when the rest does. |
| CompilerFacts.StarThenDigit | src/Main.java:94-96 | With the rest kept, "a*d" denotes exactly some letters followed by one digit, the words "(a)*d" denotes. |
| CompilerFacts.StarKeepsDigit | src/Main.java:94-96 | With the rest kept, "a*d" accepts "5" and "aaa5", and rejects "5a", "x" and "". |

## Left out

- `Main.main` and `p` (src/Main.java:6-41) read the pattern and the inputs from the console and print verdicts. That is I/O, so it is not modelled.
- `NFA.toString` is a debug dump with no bearing on behaviour.
- `getStartState` and `getFinalStates` are field reads; the model reads the fields directly.
- `QSig` is a value-equality (state, label) key. Its `equals` and `hashCode` are not part of this model.
- The process-wide counter is not shared mutable state here. Callers pass it in and receive its successor, so a compilation may start from any counter value.
- Automaton.AddState: the counter is an unbounded `nat`. The overflow of Java's `Integer` counter after 2^31 allocations is not modelled.
- Java heap aliasing in general is not modelled. Machines are values. The one aliasing case the compiler reaches, `mainNfa.union(mainNfa)`, has its own function `Combinators.UnionSelf`. After an absorb, the receiver holds fresh destination sets for every absorbed key, so no other sharing arises in `buildNFA`.
- Simulation.EpsilonTransition: the source grows its argument set in place and returns it. The model returns the closed set as a new value; no caller reads the argument afterwards.
- CombinatorLaws.UnionLanguage and CombinatorLaws.ConcatenateLanguage are stated for machines with disjoint states only. That is the only kind the compiler combines, apart from the self-union, which has its own lemma.
- A throwing call is the outcome `Crash`, characterised exactly by `Regex.Crashes`. No machine and no partial state is claimed for it.
- Strings are sequences of Unicode scalar values, not Java's UTF-16 code units. A character outside the Basic Multilingual Plane is one `char` here but two in Java, so index arithmetic on such text differs: for example in "(a)😀d" the character skipped after the group's `)` is the whole emoji here but only its high surrogate in Java. Texts holding lone surrogates cannot be written at all.
- Steps.FoldUnion: states only that the fold's machine is good. Its language is stated by `Steps.FoldLang`.

## Findings

| source | as written | input that shows it | evidently intended | confidence | as-written member | corrected member |
|---|---|---|---|---|---|---|
| src/Main.java:107-109 | After `c*` the branch returns the starred literal; the rest of the text is never compiled. | "a*d" accepts "x", and "a*d" behaves exactly as "a*". | As the comment at src/Main.java:94-96 says, the starred literal is concatenated with the compiled rest. "a*d" then accepts some letters followed by one digit. | high (not executed) | CompilerFacts.StarDropsDigit | CompilerFacts.StarKeepsDigit |

The as-written behaviour is `Compiler.BuildNFA`, that is `Compile` with
`keepRest == false`. `CompilerFacts.StarIgnoresRest` states it for every rest.
The corrected behaviour is `Compiler.BuildNFAIntended`, that is `Compile` with
`keepRest == true`. Its language law is `CompilerFacts.StarKeepsRest`. The
same recursive compiler, with all its proofs, serves both.
