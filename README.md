# Toolbox spec parser, multi-lane artifact sink and resolution root in Dafny

This project models three sequential pieces of the Maveniverse toolbox.

- **The spec parser** (`SpecParser.parse`). It is a single-pass scanner that reads a function-call-style string such as `a(b,c(d))` into a tree of `Op` nodes (named, with ordered children) and `Literal` leaves.
- **The tree traversal.** `Node.accept` walks a tree depth-first with a `Visitor`. The `Dump` visitor prints the tree as an indented outline.
- **The multi-lane artifact sink** (`MultiArtifactSink`). A builder registers (matcher, sink) lanes in insertion order. The built sink hands each artifact to the first lane whose matcher accepts it. It fans `cleanup` and `close` out to every sink.
- **`ResolutionRoot`.** A value type with a fluent `Builder`. The builder has one validation rule, and `prepared()` normalises the root.

Modules:

- `Wrappers` (`wrappers.dfy`): `Option`, `Result`, `Outcome` and `JavaException`. A Java reference that may be null is modelled as an `Option`, and a thrown exception as a `Failure` or `Fail`. `JavaException` lists the runtime exceptions the code throws, with their messages.
- `SpecNodes` (`spec_nodes.dfy`): the `Node` tree, `getChildren` and `addChild`.
- `SpecParser` (`spec_parser.dfy`):
  - the character classes;
  - the parser state `(root, path, value, wasComma)`;
  - `Step`, the effect of one character, with `Run` folding it over a string and `ParseSpec` adding the end-of-input check;
  - `Parse`, the imperative loop of the Java method, proved to compute `ParseSpec`;
  - properties of the grammar the parser accepts.
- `SpecGrammar` (`spec_grammar.dfy`):
  - the trees a successful parse can return (`WellFormed`);
  - a renderer back to text;
  - the round trip parse(render(t)) = t.
- `SpecExamples` (`spec_examples.dfy`): the parser's documented behaviour and its quirks on concrete inputs.
- `SpecVisitor` (`spec_visitor.dfy`):
  - `Walk`, the reference definition of `accept`;
  - `Accept`, the recursive method with its loop and `break`, proved equal to `Walk`;
  - trace properties of the traversal;
  - the `Dump` visitor.
- `Aether` (`aether.dfy`): `Artifact` and `Dependency` as empty classes, because only their identity matters.
- `MultiSink` (`multi_sink.dfy`): the builder, the lane map, and the dispatcher's `accept`, `cleanup` and `close`.
- `Resolution` (`resolution_root.dfy`): `ResolutionRoot`, `prepared()`, the `Builder`, `ofLoaded` and `ofNotLoaded`.

Modelling choices:

- The parser state keeps the stack of open ops as a sequence with the innermost op last. Java attaches a new op to its parent when the op is opened and then fills it in place. The model attaches a child op to its parent when the child is closed. Nothing can be added to a parent while one of its children is open, so the finished tree is the same.
- Java records the root when the first op is opened. The model records it when that op closes. Both report "invalid spec string" whenever the root is still open at the end.
- A Java visitor is an object whose hooks change its own fields. Here a visitor is a pair of hooks that take the visitor's state and return the new state together with the hook's boolean answer. `Dump`'s state is its `nodes` deque, with the front first, plus the lines it has printed.
- The dispatcher model writes everything into one ghost `Journal`: each call on a sink with the outcome it had, and each verbose or warning line. A sink is foreign code, so any call on it may succeed or fail with any exception. Matchers are objects carrying a total test function, and map keys compare by identity, as Java lambdas do. The `LinkedHashMap` is a `LaneMap` object that the builder and the built sink share.
- `Build` on the multi-sink builder returns a sink over the builder's own map. The sink's methods modify only the journal, never the map.

Behaviour of the code that the model keeps as it is:

- `(` resets the comma flag, so a leading comma inside a call is accepted: `"a(,b)"` parses as `a(b)` (`SpecExamples.LeadingCommaInCall`).
- `cleanup` has no catch: the first sink that throws ends the fan-out, and its exception propagates (`MultiSink.MultiArtifactSink.Cleanup`).
- parse throws `IllegalArgumentException` with four different messages, and `"a(b))"` throws the `NoSuchElementException` of `pop` on an empty deque (`SpecExamples.ExtraClose`).

## Model

P = `shared/src/main/java/eu/maveniverse/maven/toolbox/shared/internal/SpecParser.java`, M = `shared/src/main/java/eu/maveniverse/maven/toolbox/shared/internal/MultiArtifactSink.java`, R = `shared/src/main/java/eu/maveniverse/maven/toolbox/shared/ResolutionRoot.java`; the table spells each path out.

| member | source | states |
|---|---|---|
| SpecNodes.Children | shared/src/main/java/eu/maveniverse/maven/toolbox/shared/internal/SpecParser.java:98-101 | A Literal reports no children; an Op reports its own children in order. |
| SpecNodes.AddChild | shared/src/main/java/eu/maveniverse/maven/toolbox/shared/internal/SpecParser.java:93-96 | It fails exactly on a Literal, with IllegalStateException "string literal is leaf". On an Op it keeps the name and the old children in order, and the new child is last. |
| SpecParser.AttachToTop | shared/src/main/java/eu/maveniverse/maven/toolbox/shared/internal/SpecParser.java:141-142 | Adding to the top of the stack succeeds exactly when the top is an Op, and otherwise fails with "string literal is leaf". On success the new top is the old top with the child appended last, and every frame below it is kept. |
| SpecParser.Pop | shared/src/main/java/eu/maveniverse/maven/toolbox/shared/internal/SpecParser.java:126-150 | Popping fails with NoSuchElementException exactly when the stack is empty. The closed op becomes the last child of the op that encloses it, where Java attached it at `(`; the frames below are kept. When it was the outermost op it becomes the root, unless a root closed before; the stack is then empty. The buffer and the comma flag are kept. |
| SpecParser.Parse | shared/src/main/java/eu/maveniverse/maven/toolbox/shared/internal/SpecParser.java:115-173 | The imperative scan over `idx` returns or throws exactly what `ParseSpec` gives: one `Step` per character, stopping at the first exception, then the end check. |
| SpecParser.RunAppend | shared/src/main/java/eu/maveniverse/maven/toolbox/shared/internal/SpecParser.java:121-168 | Scanning `p + q` is scanning `p` and then, unless it threw, scanning `q` from the state reached. |
| SpecParser.TokensAccumulate | shared/src/main/java/eu/maveniverse/maven/toolbox/shared/internal/SpecParser.java:124-125 | A run of token characters never fails. It extends the buffer by exactly those characters, in order, and changes nothing else. |
| SpecParser.StepDepth | shared/src/main/java/eu/maveniverse/maven/toolbox/shared/internal/SpecParser.java:126-150 | A character that does not fail changes the stack depth by +1 for `(`, by -1 for `)`, and otherwise not at all. |
| SpecParser.RunDepth | shared/src/main/java/eu/maveniverse/maven/toolbox/shared/internal/SpecParser.java:121-168 | After scanning a string without an exception, the stack depth is the starting depth plus its number of `(` minus its number of `)`. |
| SpecParser.FailureIsFinal | shared/src/main/java/eu/maveniverse/maven/toolbox/shared/internal/SpecParser.java:144-165 | An exception thrown while scanning a prefix is what parse throws for the whole input. |
| SpecParser.WhitespaceIsIgnored | shared/src/main/java/eu/maveniverse/maven/toolbox/shared/internal/SpecParser.java:123 | Parsing gives the same result with every whitespace character removed, so whitespace inside a token joins its parts (`"a b(c)"` names the op `ab`). |
| SpecParser.NoOpenFails | shared/src/main/java/eu/maveniverse/maven/toolbox/shared/internal/SpecParser.java:169-171 | An input with no `(` fails: no root is ever opened. This includes the empty input and a bare literal. |
| SpecParser.AcceptedIsBalanced | shared/src/main/java/eu/maveniverse/maven/toolbox/shared/internal/SpecParser.java:169-171 | An accepted input has as many `(` as `)`, and at least one of each. |
| SpecParser.LaterInputKeepsRoot | shared/src/main/java/eu/maveniverse/maven/toolbox/shared/internal/SpecParser.java:128-133 | Once `p` parses to `t`, any longer input `p + q` that parses at all still returns `t`. |
| SpecParser.InvalidCharacterFails | shared/src/main/java/eu/maveniverse/maven/toolbox/shared/internal/SpecParser.java:164-165 | Any character that is not whitespace, a token character or `(`, `)`, `,` makes the parse fail. If nothing failed before it, the exception is "invalid character". |
| SpecParser.DigitsAreRejected | shared/src/main/java/eu/maveniverse/maven/toolbox/shared/internal/SpecParser.java:124 | An input containing a digit never parses. |
| SpecGrammar.RunKeepsValid | shared/src/main/java/eu/maveniverse/maven/toolbox/shared/internal/SpecParser.java:121-168 | Scanning keeps the state valid: only well-formed ops on the stack, a token in the buffer, a well-formed op as root. It never throws IllegalStateException. |
| SpecGrammar.ParseResultIsWellFormed | shared/src/main/java/eu/maveniverse/maven/toolbox/shared/internal/SpecParser.java:115-173 | A parsed tree is an Op whose literals are non-empty tokens and whose ops have token names. Parse never throws the leaf exception of `addChild`. |
| SpecGrammar.RenderThenParse | shared/src/main/java/eu/maveniverse/maven/toolbox/shared/internal/SpecParser.java:115-173 | Every well-formed op tree, written out as `name(arg,...)`, parses back to itself. |
| SpecGrammar.ReparseIsIdentity | shared/src/main/java/eu/maveniverse/maven/toolbox/shared/internal/SpecParser.java:115-173 | Writing out a parsed tree and parsing it again gives the same tree. |
| SpecExamples.NestedCall | shared/src/main/java/eu/maveniverse/maven/toolbox/shared/internal/SpecParser.java:110-114 | `"a(b,c(d))"` parses to `a[b, c[d]]`, with children in textual order. |
| SpecExamples.LeadingCommaInCall | shared/src/main/java/eu/maveniverse/maven/toolbox/shared/internal/SpecParser.java:135-149 | `"a(,b)"` is accepted as `a(b)`, because `(` resets the comma flag. |
| SpecExamples.FirstCallClosed | shared/src/main/java/eu/maveniverse/maven/toolbox/shared/internal/SpecParser.java:126-150 | After `"a()"` the root `a` is recorded with nothing left open, whatever follows. |
| SpecExamples.DoubleComma | shared/src/main/java/eu/maveniverse/maven/toolbox/shared/internal/SpecParser.java:160-161 | `"a(b,,c)"` fails with "misplaced comma". |
| SpecExamples.TrailingComma | shared/src/main/java/eu/maveniverse/maven/toolbox/shared/internal/SpecParser.java:146-147 | `"a(b,)"` fails with "misplaced comma". |
| SpecExamples.ExtraClose | shared/src/main/java/eu/maveniverse/maven/toolbox/shared/internal/SpecParser.java:150 | `"a(b))"` fails by popping an empty deque. |
| SpecExamples.Unclosed | shared/src/main/java/eu/maveniverse/maven/toolbox/shared/internal/SpecParser.java:169-170 | `"a(b("` fails with "invalid spec string". |
| SpecExamples.LiteralAfterCall | shared/src/main/java/eu/maveniverse/maven/toolbox/shared/internal/SpecParser.java:141-144 | `"a()b)"` fails with "misplaced closing braces". |
| SpecExamples.EmptySpec | shared/src/main/java/eu/maveniverse/maven/toolbox/shared/internal/SpecParser.java:169-170 | `""` fails with "invalid spec string". |
| SpecExamples.SecondCallDropped | shared/src/main/java/eu/maveniverse/maven/toolbox/shared/internal/SpecParser.java:128-133 | `"a()b()"` returns `a()`: the second top-level op is never attached. |
| SpecExamples.TrailingNameDropped | shared/src/main/java/eu/maveniverse/maven/toolbox/shared/internal/SpecParser.java:169-172 | `"a()b"` returns `a()`: the trailing token is never committed. |
| SpecExamples.EmptyName | shared/src/main/java/eu/maveniverse/maven/toolbox/shared/internal/SpecParser.java:127-129 | `"()"` returns an op with an empty name. |
| SpecVisitor.Walk | shared/src/main/java/eu/maveniverse/maven/toolbox/shared/internal/SpecParser.java:75-85 | The first hook call enters the node and the last exits it, with the answer accept returns. |
| SpecVisitor.Accept | shared/src/main/java/eu/maveniverse/maven/toolbox/shared/internal/SpecParser.java:75-85 | The recursive method, with its loop and break, ends in the visitor state, answer and hook calls that `Walk` defines. |
| SpecVisitor.ExitOncePerEnter | shared/src/main/java/eu/maveniverse/maven/toolbox/shared/internal/SpecParser.java:75-85 | Whatever the hooks answer, visitExit is called on each node exactly as often as visitEnter, and the first node entered is the root. |
| SpecVisitor.ChildrenInOrder | shared/src/main/java/eu/maveniverse/maven/toolbox/shared/internal/SpecParser.java:77-81 | The children walked are a prefix of the children, in order, and there is at least one when children exist. Every walked child but the last answered true. The loop stops early only after a false answer. It runs to the end exactly when all children were walked and all answered true. |
| SpecVisitor.AcceptVisitsChildrenInOrder | shared/src/main/java/eu/maveniverse/maven/toolbox/shared/internal/SpecParser.java:76-84 | Between entering and exiting a node there are no hook calls when visitEnter answered false. Otherwise they are exactly the walk of its children. |
| SpecVisitor.Indent | shared/src/main/java/eu/maveniverse/maven/toolbox/shared/internal/SpecParser.java:38 | The indentation at deque size `d` is `2*(d+1)` spaces. |
| SpecVisitor.DumpPrintsOutline | shared/src/main/java/eu/maveniverse/maven/toolbox/shared/internal/SpecParser.java:36-51 | Dumping a node prints its outline, one line per node, each child one level deeper, in order. It answers true and leaves the deque as it found it. |
| SpecVisitor.DumpOfRoot | shared/src/main/java/eu/maveniverse/maven/toolbox/shared/internal/SpecParser.java:37-40 | A dump started with an empty deque prints the outline at depth 0. The root's line is two spaces, the value, then ` (lit)` or ` (op)`. |
| MultiSink.PutLane | shared/src/main/java/eu/maveniverse/maven/toolbox/shared/internal/MultiArtifactSink.java:37 | Putting a known matcher replaces only its sink and keeps every lane's position. Putting a new matcher appends its lane last. |
| MultiSink.PutKeepsDistinct | shared/src/main/java/eu/maveniverse/maven/toolbox/shared/internal/MultiArtifactSink.java:27 | The lane map never holds the same matcher twice. |
| MultiSink.LookupAfterPut | shared/src/main/java/eu/maveniverse/maven/toolbox/shared/internal/MultiArtifactSink.java:37 | After a put, the matcher finds its new sink and every other matcher finds what it found before. |
| MultiSink.LaneMap.Put | shared/src/main/java/eu/maveniverse/maven/toolbox/shared/internal/MultiArtifactSink.java:37 | The map's lanes become `PutLane` of the old lanes, and its matchers stay distinct. |
| MultiSink.MultiArtifactSinkBuilder.constructor | shared/src/main/java/eu/maveniverse/maven/toolbox/shared/internal/MultiArtifactSink.java:29-32 | A new builder owns a fresh, empty lane map. |
| MultiSink.MultiArtifactSinkBuilder.AddSink | shared/src/main/java/eu/maveniverse/maven/toolbox/shared/internal/MultiArtifactSink.java:34-39 | A null matcher fails with "artifactMatcher" and a null sink with "sink", leaving the map unchanged. Otherwise the lane is put into the map. |
| MultiSink.MultiArtifactSinkBuilder.Build | shared/src/main/java/eu/maveniverse/maven/toolbox/shared/internal/MultiArtifactSink.java:41-43 | The built sink reads the builder's own lane map, not a copy. |
| MultiSink.AddAfterBuild | shared/src/main/java/eu/maveniverse/maven/toolbox/shared/internal/MultiArtifactSink.java:56-59 | A lane added to the builder after `build` is visible to the sink built before. Every artifact its matcher accepts and no earlier lane accepts is routed by that sink to the new lane. |
| MultiSink.FirstMatch | shared/src/main/java/eu/maveniverse/maven/toolbox/shared/internal/MultiArtifactSink.java:64-71 | It gives the position of the first lane whose matcher accepts the artifact, or the number of lanes when none does. |
| MultiSink.MultiArtifactSink.Accept | shared/src/main/java/eu/maveniverse/maven/toolbox/shared/internal/MultiArtifactSink.java:61-75 | After the verbose "Accept artifact" line, the first matching lane's sink alone is called. Only the matchers up to it are tested. Its outcome, including an exception, is the result. With no match there is no call and no exception, only the verbose "Nobody accepted artifact" line. |
| MultiSink.MultiArtifactSink.Cleanup | shared/src/main/java/eu/maveniverse/maven/toolbox/shared/internal/MultiArtifactSink.java:77-80 | Each lane's sink, in order, gets cleanup with the same exception. The first failure stops the fan-out and is the result; otherwise every sink was reached. |
| MultiSink.MultiArtifactSink.Close | shared/src/main/java/eu/maveniverse/maven/toolbox/shared/internal/MultiArtifactSink.java:82-91 | Every lane's sink is closed in order. Each failure is followed by a "Closing sink failed" warning, and close itself never fails. |
| MultiSink.CloseReachesEverySink | shared/src/main/java/eu/maveniverse/maven/toolbox/shared/internal/MultiArtifactSink.java:84-90 | Close calls every lane's sink exactly once, in lane order, whatever the earlier sinks threw. |
| MultiSink.CloseWarnsPerFailure | shared/src/main/java/eu/maveniverse/maven/toolbox/shared/internal/MultiArtifactSink.java:85-89 | The warnings of close are exactly the failures of the sinks' close calls, in order. |
| Resolution.ResolutionRoot.Prepared | shared/src/main/java/eu/maveniverse/maven/toolbox/shared/ResolutionRoot.java:69-76 | The result is marked prepared and keeps the artifact and the load flag. An absent list becomes empty and a present list is kept as it is. |
| Resolution.PreparedIdempotent | shared/src/main/java/eu/maveniverse/maven/toolbox/shared/ResolutionRoot.java:69-76 | Preparing twice gives the same root as preparing once. |
| Resolution.PreparedKeepsConsistent | shared/src/main/java/eu/maveniverse/maven/toolbox/shared/ResolutionRoot.java:69-76 | A prepared root satisfies the build rule, which requires dependencies unless it is loaded. |
| Resolution.Builder.constructor | shared/src/main/java/eu/maveniverse/maven/toolbox/shared/ResolutionRoot.java:117-125 | A new builder keeps its artifact, starts not loaded and has no lists. |
| Resolution.Builder.Load | shared/src/main/java/eu/maveniverse/maven/toolbox/shared/ResolutionRoot.java:127-130 | The flag becomes true and both lists are kept. |
| Resolution.Builder.DoNotLoad | shared/src/main/java/eu/maveniverse/maven/toolbox/shared/ResolutionRoot.java:132-135 | The flag becomes false and both lists are kept. |
| Resolution.Builder.WithDependencies | shared/src/main/java/eu/maveniverse/maven/toolbox/shared/ResolutionRoot.java:137-140 | A null list throws NullPointerException and leaves the builder unchanged. Otherwise the dependencies become a copy of the list's current elements, replacing any earlier list. Nothing else changes. |
| Resolution.Builder.WithManagedDependencies | shared/src/main/java/eu/maveniverse/maven/toolbox/shared/ResolutionRoot.java:142-145 | The same as WithDependencies, for the managed dependencies. |
| Resolution.Builder.Build | shared/src/main/java/eu/maveniverse/maven/toolbox/shared/ResolutionRoot.java:147-152 | It fails, with IllegalStateException "must specify dependencies for non-loaded artifacts", exactly when the builder is not loaded and has no dependencies. Otherwise the root carries the builder's artifact, flag and lists, is not prepared, and satisfies the build rule. |
| Resolution.OfLoaded | shared/src/main/java/eu/maveniverse/maven/toolbox/shared/ResolutionRoot.java:105-107 | A null artifact throws NullPointerException "artifact". Otherwise the result is a fresh builder for it, loaded, with no lists. |
| Resolution.OfNotLoaded | shared/src/main/java/eu/maveniverse/maven/toolbox/shared/ResolutionRoot.java:113-115 | A null artifact throws NullPointerException "artifact". Otherwise the result is a fresh builder for it, not loaded, with no lists. |
| Resolution.NotLoadedNeedsDependencies | shared/src/main/java/eu/maveniverse/maven/toolbox/shared/ResolutionRoot.java:109-115 | A not-loaded builder cannot build until it is given dependencies; an empty list is enough. |
| Resolution.CopyIsIndependent | shared/src/main/java/eu/maveniverse/maven/toolbox/shared/ResolutionRoot.java:137-140 | A change the caller makes to its list after `withDependencies` reaches neither the builder nor the root it builds. |

## Left out

- Unicode classes:
  - `Character.isWhitespace` is modelled exactly for the Basic Multilingual Plane.
  - `Character.isAlphabetic` is exact only up to U+00FF; every character above it counts as not alphabetic.
  - Dafny characters are Unicode scalar values, not UTF-16 code units, so surrogate pairs are not modelled.
- `requireNonNull(spec)` in parse: Dafny strings cannot be null.
- Printing to `System.out` in `Dump`: the model keeps the printed lines in the visitor state instead of writing them to a console.
- `Output.verbose` and `Output.warn`: modelled only as entries in the ghost journal, with the artifact or the exception as argument. Message formatting is not modelled.
- Concrete sinks and matchers: `ArtifactSink` implementations are arbitrary (each call may succeed or throw anything), and a `Predicate` is an arbitrary total function. A matcher with side effects, or one that throws, is not modelled.
- Java `Error`s in `close`, such as a sink whose close throws an `Error` rather than an `Exception`: that would still propagate, and the model does not include it.
- `MultiSink.MultiArtifactSink.Valid`: the model requires every lane's sink to write into the dispatcher's journal. This is a property of the ghost bookkeeping, not something the Java code demands.
- `Collections.unmodifiableMap`: the view is modelled by the built sink never modifying the shared `LaneMap`. Any attempt to mutate through the view, which would throw, is not modelled.
- `ResolutionRoot` getters are the fields of the `ResolutionRoot` datatype. The lists a root or a prepared root hands out are mutable `ArrayList`s in Java and may be shared between a root and its prepared copy. The model treats them as values, so mutation through a getter is not modelled.
- The fluent `return this` of the builders' setters is not modelled; the methods update the builder in place.
- SpecVisitor.Visitor: the hooks are total functions. A Java `visitEnter` or `visitExit` may throw an unchecked exception, which leaves `accept` at once without calling `visitExit` on the nodes still open. So `SpecVisitor.Accept` and `SpecVisitor.ExitOncePerEnter` describe only traversals whose hooks return.
- `requireNonNull(output)` in the multi-sink builder's constructor and `requireNonNull(output, "output")` in the sink's constructor: the output is not modelled as an object, only as the journal's verbose and warning entries, so it cannot be null.
- Concurrency: every component is single-threaded.
- CLI commands, Maven goals and `CommonBuilds` are outside the modelled core.
