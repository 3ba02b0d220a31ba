# A model of the policy engine

The system evaluates policies: trees of AND, OR and NOT over leaves that compare a fact about a
workload with a value, each node coming to TRUE, FALSE or ABSTAIN. It does so twice. The C engine
walks FlatBuffers trees under a global context that remembers an error and may be watched by an
observer. The Go engine decodes the JSON form of the same trees and evaluates them against a context
of facts. A small compiler lowers deployment requirements (version bounds, deny rules) into such trees.

The project models the two engines, the observer protocol with the recorder and printer of the C
example, the Go decoder of rules and actions, and the requirements compiler, and proves what each of
them keeps or preserves. `dafny verify dfyconfig.toml` checks all of it.

How the files fit together:

- `Tristate`, `RuleTree`: the three results, the information order (ABSTAIN below TRUE and FALSE), and
  trees over any kind of leaf. `Value` is the full strong-Kleene value under the depth cap of 64, with no
  short-circuit and no order; both engines are proved to compute it.
- `Glob`, `Comparators`: what a pattern means, the greedy matcher (Go on indices, C on NUL-terminated
  buffers), the other string comparisons, and how they relate.
- `GoEngine`, `Decoder`, `Documents`: facts, leaves and evaluation in Go; decoding of rules; outcomes of
  actions, ids and whole documents. `Decoder.DocumentValue` reads the meaning of rules off the document, and
  both engines are proved to keep it.
- `Wire`, `EvalContext`, `Observation`, `CEngine`: the C engine as a class over fixed tables.
  `CEngineFacts` says what the remembered error and the shape of a run mean. `ObserverProtocol` is a
  monitor that sees only events. `DemoTrace` is the recorder and the printer. `PolicyBuffer` runs
  policies and their actions, and `BufferProtocol` extends the monitor to whole buffers.
- `Converter`, `LibcVersion`: the requirements compiler. `CrossEngine`: the two engines on one document.

Conventions. A char stands for one byte. An evaluator id is its wire code in both engines; the table of
names is one to one and is left out. C strings are texts without NUL. Numbers carry the 64-bit range of
the wire. A custom C evaluator, an action handler and an observer callback are arbitrary functions of what
they are given (an observer also of a state of its own); they do not touch the evaluation context, except
that an evaluator may record an unknown comparator for its own id. The observer is passed to the
evaluation instead of being read from the context. The answers of `should_stop` are a function of how many
policies were evaluated before. A raw JSON message is given by what unmarshalling it yields for each type
it can be unmarshalled to. Wire trees are verified: no null inner node, union tags consistent with values.

## What does not hold as documented

- The comment on the matcher says `*` matches any run of characters. Both engines compare a literal before
  they look for a star, so a `*` of the subject is consumed as a literal. A subject is safe for every
  pattern, and a pattern for every subject, exactly when it holds no `*` (`Glob.SubjectIsSafeIff`,
  `Glob.PatternIsSafeIff`).
- A variable given as null in a deny rule is meant as "set to any non-empty value". Its pattern `*?` misses
  every value that starts with `*` and is not two characters long (`CrossEngine.EnvNullMeansNonEmpty`).
- The order of children matters in C when an id is out of range: the error it sets silences all later
  leaves (`CEngineFacts.OutOfRangeSilences`, `CEngineFacts.OrderMattersOutOfRange`). With ids in range it
  does not (`CEngineFacts.OrderIsIrrelevantInRange`).
- The engines are said to be semantically identical. `CrossEngine.LeafAgreesIff` gives the exact leaves for
  which they are under the conformance harness.
- `buildVersionGreaterThan` and `buildVersionLessThanOrEqual` compare bound with workload, so they build
  "version < min" and "version >= min"; the comments above them say otherwise. The model follows the code.
- Argument i of a list is not always looked for i places after the start. It is exactly when no argument
  after the first up to i is empty and that place, counted from the same end as the start, is one of the
  twelve with an id of their own (`Converter.ArgumentsReadTheirPlacesIff`). Otherwise it may be looked for
  too early, anywhere, or, counting on from the last argument, at the beginning
  (`Converter.PositionsDoNotStopAtTheEnd`).
- Decoding actions is said to mirror running them. Both stop at the same action, but a malformed value makes
  Go drop the whole policy, while C still calls its handlers (`CrossEngine.SameActionsApply`).
- The printer of the example takes the depth of a record for the number of open parentheses; this is right
  exactly when no node that is not printed as an operator contains another (`DemoTrace.OpenIsDepthIff`).
  An operator unknown to this build is such a node (`DemoTrace.UnknownOperatorPrintsFlat`).

## Model

| member | source | states |
|---|---|---|
| Tristate.AllOfExtend | go/policies/evaluator.go:108-132 | folding the binary AND over any results gives the documented meaning: FALSE dominates, TRUE if all are, else ABSTAIN |
| Tristate.AnyOfExtend | go/policies/evaluator.go:99-144 | the same for OR, where TRUE dominates |
| Tristate.CCodesRepresentResults | c/src/evaluator.c:125-157 | the C operators on codes 0, 1, 2, with NOT as `!code`, are the three-valued operators |
| RuleTree.CombineMonotone | README.md:152-155 | more information about children never changes a decided AND, OR or NOT |
| RuleTree.CapLosesInformation | go/policies/evaluator.go:83-120 | at every start depth the capped result is below the uncapped meaning: truncation never flips a result |
| RuleTree.CapIsExact | go/policies/evaluator.go:81-89 | it is the uncapped meaning when height plus depth is at most 64 |
| RuleTree.CapIsTight | go/policies/evaluator.go:84-86 | under n pass-through operators a leaf counts if and only if it is at depth 64 or less |
| RuleTree.ShallowerKnowsMore | go/policies/evaluator.go:83-120 | evaluating the same tree nearer the root only adds information |
| RuleTree.ValuationMonotone | go/policies/evaluator.go:83-120 | better-informed leaves give a better-informed tree, for every tree |
| RuleTree.OrderIsIrrelevant | go/policies/evaluator.go:93-144 | permuting the children of any composites anywhere in a tree never changes its value |
| Glob.GlobIsDivision | go/policies/evaluator.go:283-285 | the recursive glob relation holds iff the subject can be cut into one admissible stretch per pattern character |
| Glob.WildcardMatch | go/policies/evaluator.go:286-318 | the loop accepts only what the pattern matches, accepts all of it unless both texts hold a star, and takes at most (s+1)(p+1) rounds |
| Glob.GreedyIsSound | go/policies/evaluator.go:286-318 | from any state of the loop, a TRUE answer means the rest matches here or from a later restart of the last star |
| Glob.EarliestFitIsBest | go/policies/evaluator.go:295-309 | the greedy choice: forgetting an earlier star at a new one loses no match |
| Glob.GreedyIsComplete | go/policies/evaluator.go:286-318 | from any state of the loop where no star can meet a star, a remaining match is accepted |
| Glob.WildcardIsSound | go/policies/evaluator.go:286-318 | a TRUE answer implies a match, on every subject and pattern |
| Glob.WildcardIsCorrect | go/policies/evaluator.go:286-318 | the answer is the glob relation when the pattern or the subject holds no star |
| Glob.SubjectStarIsEaten | go/policies/evaluator.go:290-295 | every subject with a star is missed by some pattern that matches it |
| Glob.PatternStarIsWasted | c/src/evaluator_default.c:112-132 | every pattern with a star misses some subject it matches |
| Glob.SubjectIsSafeIff | go/policies/evaluator.go:286-318 | a subject is decided correctly for all patterns iff it holds no star |
| Glob.PatternIsSafeIff | c/src/evaluator_default.c:103-148 | a pattern decides all subjects correctly iff it holds no star |
| Comparators.RelationsAreAnOrder | c/src/evaluator_default.c:213-231 | the five relations are those of one total order, with the value of the policy on the left |
| Comparators.StringEvaluatorExact | c/src/evaluator_default.c:26-32 | NULL abstains, else equality, through a bounded comparison of NUL-terminated buffers |
| Comparators.StringEvaluatorPrefix | c/src/evaluator_default.c:42-52 | NULL abstains, else the prefix relation; the loop never reads past a terminator |
| Comparators.StringEvaluatorSuffix | c/src/evaluator_default.c:62-81 | NULL abstains, else the suffix relation |
| Comparators.StringEvaluatorContains | c/src/evaluator_default.c:83-101 | NULL abstains, else the substring relation |
| Comparators.StringEvaluatorWildcard | c/src/evaluator_default.c:103-148 | the pointer version never passes a terminator and answers what the Go version answers |
| Comparators.ExactIsWildcard | go/cmd/dd-requirements-converter/converter/commands.go:19-30 | without `*` and `?` EXACT and WILDCARD agree on every subject |
| Comparators.PrefixAsGlob | c/src/evaluator_default.c:42-52 | PREFIX p agrees with the glob p* iff the subject is not p* followed by something |
| Comparators.SuffixAsGlob | c/src/evaluator_default.c:62-81 | SUFFIX p agrees with the glob *p iff the subject is not a star, something, then p |
| Comparators.ContainsAsGlob | c/src/evaluator_default.c:83-148 | exactly what the glob *p* accepts, for every subject |
| Comparators.ContainsIsGlob | c/src/evaluator_default.c:83-101 | CONTAINS p agrees with the glob *p* on subjects without a star |
| Comparators.NonEmptyGlob | go/policies/model.go:111-115 | the pattern `*?` accepts exactly the non-empty values that do not start with a star or have two characters |
| GoEngine.CompareString | go/policies/evaluator.go:238-255 | each comparator computes its relation, the wildcard one through the matcher |
| GoEngine.EvalString | go/policies/evaluator.go:182-236 | constants, keyed, list and plain facts: an absent source abstains, a list holds iff some element matches |
| GoEngine.CompareNumeric | go/policies/evaluator.go:257-274 | each relation of the evaluator value, on the left, with the workload value; any other comparator abstains |
| GoEngine.ListIsAnyElement | go/policies/evaluator.go:196-214 | a list is the OR over its elements, each compared alone |
| GoEngine.NumericLeafMeans | go/policies/evaluator.go:162-169 | a numeric leaf is its value compared with the fact, ABSTAIN without a fact or at the sentinel |
| GoEngine.EvaluateAt | go/policies/evaluator.go:83-120 | the short-circuiting recursion returns the full strong-Kleene value of the tree under the cap |
| GoEngine.Evaluate | go/policies/evaluator.go:76-79 | the same from depth 0 |
| GoEngine.MoreFactsNeverFlip | go/policies/evaluator.go:158-236 | supplying missing facts, or replacing a not-set sentinel, never flips a TRUE or FALSE of any tree |
| GoEngine.NewLabelCanFlip | go/policies/evaluator.go:223-236 | but adding a key to a label source that was present can: an absent key is FALSE, not ABSTAIN |
| GoEngine.ConstructorsMeanFolds | go/policies/model.go:265-289 | And and Or of 0, 1 or many conditions mean their fold, as long as they fit above the cap |
| EvalContext.EvalCtx.Reset | c/src/eval_ctx.c:230-256 | every table entry is emptied, facts are not set, the error is cleared |
| EvalContext.EvalCtx.RegisterStrEvaluator | c/src/eval_ctx.c:19-31 | a null function or a bad index is refused with its code and changes nothing; else one entry changes |
| EvalContext.EvalCtx.SetStrEvalParam | c/src/eval_ctx.c:61-68 | the same for a fact |
| EvalContext.EvalCtx.GetLastError | c/src/eval_ctx.c:223-228 | returns the error and forgets it |
| EvalContext.EvalCtx.GetStringEvaluator | c/src/eval_ctx.c:114-121 | a bad index gives nothing and sets the error |
| EvalContext.EvalCtx.GetStringParam | c/src/eval_ctx.c:123-130 | a bad index gives no fact and sets the error, a good one changes nothing |
| EvalContext.EvalCtx.GetNumericParam | c/src/eval_ctx.c:141-148 | the same, with the not-set sentinel |
| EvalContext.EvalCtx.GetUNumericParam | c/src/eval_ctx.c:159-166 | the same, unsigned |
| EvalContext.ErrorsAreNotKnowledge | c/src/eval_ctx.c:169-217 | setting the error of an action or of an evaluator changes neither facts nor registrations |
| CEngine.DefaultStringEvaluator | c/src/evaluator_default.c:150-200 | the chosen comparison, and the error recorded for the id exactly on a comparator of the future |
| CEngine.DefaultNumericEvaluator | c/src/evaluator_default.c:202-242 | the chosen relation, and the error recorded for the id exactly on a comparator of the future |
| CEngine.DefaultUNumericEvaluator | c/src/evaluator_default.c:244-284 | the same, unsigned |
| CEngine.EvaluateString | c/src/evaluator.c:27-47 | result and context of a string leaf; a remembered error makes it abstain |
| CEngine.EvaluateNumeric | c/src/evaluator.c:49-73 | the same for a numeric leaf, which abstains first on the sentinel |
| CEngine.EvaluateUNumeric | c/src/evaluator.c:75-101 | the same, unsigned |
| CEngine.DescribeNode | c/src/observer.c:17-104 | the record of a node, and that reading its fact again may set the error |
| CEngine.CompositeEvaluator | c/src/evaluator.c:180-230 | result, context and what the observer saw for a composite, with short-circuit |
| CEngine.EvaluateRules | c/src/evaluator.c:232-263 | whatever observer is attached, result and context are those of a run without one, and the observer is driven through exactly the visits of the run |
| CEngineFacts.StringLeafRuns | c/src/evaluator.c:27-47 | what a string leaf asks of a registered evaluator, the comparison it makes without one, the record it reports and the one error it can leave |
| CEngineFacts.NumericLeafRuns | c/src/evaluator.c:49-73 | the same for a numeric leaf, with the comparison written out and the sentinel |
| CEngineFacts.UNumericLeafRuns | c/src/evaluator.c:75-101 | the same, unsigned |
| CEngineFacts.StickyErrorOnlyLoses | c/src/evaluator.c:27-101 | the result under the remembered error is below the error-free value, for every tree, evaluators and prior error |
| CEngineFacts.NoErrorMeansExact | c/src/eval_ctx.c:219-221 | if no error is remembered at the end the result is the error-free value |
| CEngineFacts.IdsInRangeMeansExact | c/src/eval_ctx.c:114-166 | with ids in range no error appears and the result is the error-free value |
| CEngineFacts.RunKeepsKnowledge | c/src/evaluator.c:232-263 | a run changes no fact and no registration, and the error only to overflow |
| CEngineFacts.RunForgetsErrors | c/src/evaluator.c:316-321 | result and visits do not depend on the errors kept for single evaluators or actions |
| CEngineFacts.OrderIsIrrelevantInRange | c/src/evaluator.c:180-230 | with ids in range, permuting children anywhere leaves the C result unchanged |
| CEngineFacts.ErrorSilences | c/src/evaluator.c:41-46 | under a remembered error any tree comes to the value it has when every leaf abstains, and the error stays |
| CEngineFacts.OutOfRangeSilences | c/src/eval_ctx.c:123-130 | in any composite, a leaf with an id out of range makes everything under the siblings after it abstain, and the error it leaves does so to all that is run later |
| CEngineFacts.OrderMattersOutOfRange | c/src/evaluator.c:42-46 | for every leaf with an id out of range and every leaf with one in range there is a context in which the two orders of their OR come to TRUE and to ABSTAIN |
| CEngineFacts.RunIsFaithful | c/src/evaluator.c:180-263 | the visited nodes mirror the tree; children are omitted only below the cap, after a deciding one, or under a NOT without exactly one; each composite above the cap combines its children's results |
| CEngineFacts.RunIsSelfExplaining | c/src/observer.c:13-63 | with default evaluators and ids in range, the two values every evaluator record reports come to the result it reports |
| ObserverProtocol.EveryRunIsAccepted | c/include/dd/policies/observer.h:79-108 | a monitor that sees only events accepts every run: bracketing, handles, depths and composite results |
| ObserverProtocol.DepthIsOpenCount | c/include/dd/policies/observer.h:54-55 | in an accepted stream every reported depth is the number of open enters and at most 64 |
| BufferProtocol.EveryBufferRunIsFramed | c/include/dd/policies/observer.h:79-108 | a monitor of whole buffers accepts every run: policies do not nest, nodes are entered inside one, and the frames are those of the policies in order, each left with the result of its rules |
| DemoTrace.Trace.NodeEnter | c/examples/basic-reader.c:163-173 | the next place while there is one, else the truncation mark |
| DemoTrace.Trace.NodeExit | c/examples/basic-reader.c:178-197 | the record is stored at its place with bounded copies of its texts; a handle past the end is ignored |
| DemoTrace.StoredKeepsRecord | c/examples/basic-reader.c:90-92 | a stored record keeps all but its texts, which are cut after 127 characters |
| DemoTrace.Trace.PolicyEnter | c/examples/basic-reader.c:200-208 | the description of the policy is kept, length and truncation are reset |
| DemoTrace.RecorderHoldsPreOrder | c/examples/basic-reader.c:163-208 | after a policy the recorder holds its description and the first min(64, n) visited nodes in pre-order, truncated iff n > 64 |
| DemoTrace.CloseComposites | c/examples/basic-reader.c:63-70 | the closing lines printed, and the parentheses left open |
| DemoTrace.PrintEvaluationTrace | c/examples/basic-reader.c:97-159 | the header and the lines printed for any contents of the recorder |
| DemoTrace.PrintedParenthesesBalance | c/examples/basic-reader.c:102-158 | for any records none closes before it opens, each closes at the level of the parentheses left open, and all are closed at the end |
| DemoTrace.PrintedLinesShowRecords | c/examples/basic-reader.c:104-156 | apart from closing lines, one line for each record, in order, with its depth, its result and what it compared |
| DemoTrace.OpenIsDepthIff | c/examples/basic-reader.c:102-109 | on any walk, open equals the depth before each line iff only printed operators contain nodes |
| DemoTrace.RecordedTreesPrintByDepth | c/examples/basic-reader.c:102-156 | every recorded run is such a walk; without unknown operators open equals the depth |
| DemoTrace.UnknownOperatorPrintsFlat | c/examples/basic-reader.c:102-118 | on every context, the run of an unknown operator over one node is recorded and its open count is not the depth |
| PolicyBuffer.PerformActions | c/src/evaluator.c:265-305 | exactly the handled actions before the first with 255 or more values are called, in order; code and kept errors are those of the last calls |
| PolicyBuffer.LastHandlerDecides | c/src/evaluator.c:265-305 | the code is overflow if a handled action has 255 values or more, else what the handler of the last handled action returned, told the result, that action and the policy |
| PolicyBuffer.SingleAction | c/src/evaluator.c:279-300 | the same for one action: skipped without a handler, refused with too many values, else told the result |
| PolicyBuffer.KeptErrorIsLast | c/src/evaluator.c:294-298 | the error kept for an id is what its handler returned at its last call |
| PolicyBuffer.UncalledEntryStays | c/src/evaluator.c:274-281 | an id that no handler was called for keeps its entry |
| PolicyBuffer.AloneMeansRules | c/src/evaluator.c:328-340 | a policy alone comes to the value of its rules, ABSTAIN without any, and its last handler is told that result |
| PolicyBuffer.OutcomeForgetsErrors | c/src/evaluator.c:319-321 | the outcome of a policy depends on facts and registrations only, on no error left before |
| PolicyBuffer.WalkPolicy | c/src/evaluator.c:316-335 | result of a policy, framed for the observer, also when it has no rules |
| PolicyBuffer.EvaluatePolicy | c/src/evaluator.c:307-341 | a policy comes to its outcome evaluated alone, keeps facts and registrations, and keeps for each action the error of its last call |
| PolicyBuffer.EvaluateBufferEarlyExit | c/src/evaluator.c:343-365 | each policy of a buffer comes to its outcome alone, up to the first after which the run is stopped; the total is the sum of their codes |
| PolicyBuffer.RunStopsAtFirstStop | c/src/evaluator.c:351-362 | the policies evaluated are the first ones present, up to the first after which the run is told to stop |
| PolicyBuffer.TotalIsSum | c/src/evaluator.c:350-364 | the total is the sum of the codes |
| Decoder.DecodeNodeWrap | go/policies/dd_wls.go:184-209 | decoding is total; what is unknown or malformed becomes an abstaining leaf |
| Decoder.DecodeComposite | go/policies/dd_wls.go:211-243 | absent and empty children are kept, null and malformed ones abstain, a NOT needs one |
| Decoder.ComposeValue | go/policies/dd_wls.go:229-242 | a decoded BOOL_AND has the AND of its children, BOOL_OR their OR, BOOL_NOT the negation of its only child, anything else abstains |
| Decoder.DecodePreservesMeaning | go/policies/dd_wls.go:184-243 | at every depth and on every document, well formed or not, the decoded tree has the value read off the document: operators by name, absent children as none, what is null, unknown or malformed as ABSTAIN |
| Decoder.CapIsInvisible | go/policies/dd_wls.go:184-192 | evaluating the depth-capped decode equals evaluating an uncapped decode |
| Decoder.DecodedIsBounded | go/policies/dd_wls.go:185-192 | a decoded tree never reaches more than one level past the evaluated ones |
| Decoder.OlderEngineNeverFlips | go/policies/dd_wls.go:174-183 | not recognising any of the constructs of a document at most turns results into ABSTAIN |
| Documents.EnvVars.Upsert | go/policies/evaluator.go:62-74 | the entry of a name is replaced in place, or added at the end |
| Documents.SettledOneMore | go/policies/evaluator.go:62-74 | writing one after the other leaves first-write order and last values |
| Documents.SettledNamesAreDistinct | go/policies/evaluator.go:62-65 | no name is left twice |
| Documents.SettledNamesAreWritten | go/policies/evaluator.go:62-65 | the names left are exactly those written |
| Documents.DecodeActions | go/policies/dd_wls.go:396-462 | fails iff an action before the limit has a malformed value, else last writer wins over the actions before the first over-limit one |
| Documents.AssignmentsAreRead | go/policies/dd_wls.go:444-447 | a value is refused iff it has no name before an `=`, else it is its name, `=` and its value, with no `=` in the name |
| Documents.OutcomeOneMore | go/policies/dd_wls.go:407-438 | what one more action does to an outcome: permission, denial, the profiler variable, or nothing |
| Documents.OutcomeOneMoreValue | go/policies/dd_wls.go:424-449 | one more NAME=value writes that variable in place or at the end, or the version of that name |
| Documents.SingleAssignment | go/policies/dd_wls.go:424-449 | a single assignment leaves exactly the variable, or the version, it says |
| Documents.UuidReadsBack | go/policies/dd_wls.go:384-394 | the groups of a rendered id read back as the high word, then the low one |
| Documents.UuidsAreDistinct | go/policies/dd_wls.go:384-394 | the rendered id determines the pair of words and whether there was one |
| Documents.ParsePolicies | go/policies/dd_wls.go:128-172 | every policy that loads is returned, in order and decoded on its own, and the others are reported |
| Documents.LoadedAsGiven | go/policies/dd_wls.go:150-171 | each policy is skipped exactly if it or its actions are malformed; else it is at its place with its name, version, id, outcome and the meaning of its rules |
| Converter.PatternChoiceIsWildcard | go/cmd/dd-requirements-converter/converter/arguments.go:53-71 | whichever comparator is chosen, the leaf accepts what the wildcard matcher accepts |
| Converter.CollapseMeans | go/cmd/dd-requirements-converter/converter/deny.go:76-81 | a group of one used directly means the same as under an operator |
| Converter.ConvertArguments | go/cmd/dd-requirements-converter/converter/arguments.go:74-134 | both errors, and the leaves with their moving positions |
| Converter.ArgumentsReadTheirPlacesIff | go/cmd/dd-requirements-converter/converter/arguments.go:18-51 | for every start and every command line, the leaf of argument i reads the i-th argument after the start iff none of the arguments 1..i is empty and that place, counted from the same end as the start, has an id of its own |
| Converter.ArgvIdsAreDistinct | go/cmd/dd-requirements-converter/converter/arguments.go:18-51 | positions -6..5 have ids of their own, all others mean any argument |
| Converter.PositionsDoNotStopAtTheEnd | go/cmd/dd-requirements-converter/converter/arguments.go:100-106 | a leaf reads any argument exactly when the counter is outside -6..5, so always from a start past 5, and at any i that does not bring the start to -6; counting on from the last argument leads to the first |
| Converter.ConvertArgumentLists | go/cmd/dd-requirements-converter/converter/deny.go:86-99 | the first list that does not convert decides the error |
| Converter.ConvertEnvs | go/cmd/dd-requirements-converter/converter/deny.go:108-132 | one leaf per variable, for any iteration order of the map |
| Converter.ConvertDeny | go/cmd/dd-requirements-converter/converter/deny.go:36-148 | errors in their order, else the collapsed groups |
| Converter.DenyTreeMeansRule | go/cmd/dd-requirements-converter/converter/deny.go:36-148 | for all leaf values and any map order the tree means OS and (any command) and all arguments and all variables |
| Converter.DenyRunsAsMeant | go/cmd/dd-requirements-converter/converter/deny.go:139-148 | run by the C engine in any context without a remembered error, the rule comes to that meaning |
| Converter.DenyRunsOnFacts | go/cmd/dd-requirements-converter/converter/deny.go:36-148 | run by the C engine with default evaluators, the rule answers on the facts: the OS is the one named, some command matches the executable, every argument and every variable matches, what is missing abstains |
| Converter.DenyConvertsIff | go/cmd/dd-requirements-converter/converter/deny.go:22-99 | a rule converts iff it has a condition, a known OS and, in each argument list, an argument that asks for something; else the error of the first failure |
| LibcVersion.HasMajorMinor | go/cmd/dd-requirements-converter/converter/libc.go:47-67 | accepts exactly texts that start with number, dot, digit after the trimmed prefixes |
| LibcVersion.AcceptedVersions | go/cmd/dd-requirements-converter/converter/libc.go:47-67 | without trimming: v, V, both in this order or neither, then number, dot, digit |
| LibcVersion.BoundsMeanOrder | go/cmd/dd-requirements-converter/converter/libc.go:131-203 | with any parts of the version missing, both bounds are decided iff the known leading parts settle the order, are then right, and negate each other |
| LibcVersion.SettledIsLexicographic | go/cmd/dd-requirements-converter/converter/libc.go:109-124 | with all parts known that order is lexicographic |
| LibcVersion.ConvertRequirement | go/cmd/dd-requirements-converter/converter/libc.go:69-129 | the four cases: no policy, error, or a tree that means, for every reading of the facts, that architecture and flavor are the given ones and the version is on the wrong side of the bound |
| LibcVersion.RequirementRunsAsMeant | go/cmd/dd-requirements-converter/converter/libc.go:90-129 | run by the C engine with default evaluators, the policy answers on the facts: architecture, flavor and version, ABSTAIN where one is missing |
| LibcVersion.BoundsRunAsMeant | c/src/evaluator.c:49-73 | run by the C engine with default evaluators, a fact equal to the sentinel counts as missing |
| CrossEngine.ConfLabelEvaluator | go/policies/conformance/cgo.go:121-157 | the label evaluator of the host: unavailable abstains, absent is FALSE, else the comparison of the value part |
| CrossEngine.LeafAgreesIff | go/policies/conformance/cgo.go:346-437 | a serialized leaf has the same value in both engines for all facts iff LeafAgrees holds of it |
| CrossEngine.BuildPreservesMeaning | go/policies/conformance/cgo.go:346-437 | the serialized tree has, under the evaluators of the harness, the value read off the document, where null children are none |
| CrossEngine.ReadingsAgree | go/policies/conformance/cross_test.go:31-80 | on documents of leaves on which the engines agree, the two readings of the document are the same |
| CrossEngine.EnginesAgree | go/policies/conformance/cross_test.go:31-80 | on documents of such leaves with ids in range the C result equals the Go result, for all facts and label orders |
| CrossEngine.StickyErrorBreaksAgreement | c/src/eval_ctx.c:123-130 | without ids in range they can differ although each leaf agrees |
| CrossEngine.EnvLeafMeans | go/cmd/dd-requirements-converter/converter/deny.go:109-125 | a variable leaf compares the value of the variable before the first `=` as a glob; it is the one named by the rule iff that name holds no `=` |
| CrossEngine.EnvNullMeansNonEmpty | go/cmd/dd-requirements-converter/converter/deny.go:111-112 | null finds a set variable non-empty exactly but for values that start with a star and are not two characters long |
| CrossEngine.SameActionsApply | go/policies/dd_wls.go:399-406 | the C engine calls handlers for the actions that count for Go, in the same order; Go yields their outcome iff all the values that count are well formed, and otherwise drops the policy while C still calls handlers |

## Left out

- The FlatBuffers byte format and all generated readers, builders and verifiers: the model starts from verified trees.
- JSON text parsing and the query parser: the model starts from parsed values.
- Version text parsing: major, minor and patch are given; go-version is not part of this model.
- Descriptions of nodes and actions in trees and records: they do not affect evaluation. The one of a policy is kept as far as the recorder and its printer.
- Enum name tables and value sets: finite tables settled by reading them; the architecture of a libc requirement is given in canonical form.
- Operator codes other than unknown, AND, NOT and OR: the C result is uninitialised for them when there are no children.
- The numeric registration functions and setters of the context repeat the string ones.
- The static arrays of the conformance harness are given as the context they set up, not updated in place; its bounds on label counts and text lengths are not modelled.
- Platforms where C long has 32 bits.
- Aliasing of Go slices and maps between callers: the variables of an outcome are updated in place in an object of their own.
- Custom evaluators, handlers or callbacks that change the context during a run.
- CrossEngine.EnginesAgree: on whole trees the condition is sufficient only, because a deciding sibling can hide a leaf on which the engines differ; it is exact for single leaves.
- EvalContext.EvalCtx.Reset: does not state that the observer is cleared, because the observer is passed to the evaluation and not held by the context.
- CEngine.DescribeNode: does not give the description text of the node.
- DemoTrace.Trace.NodeExit: does not give the bounded copy of the description, because records hold none; the other texts are copied as there.
- CEngineFacts.OrderIsIrrelevantInRange: sufficient only, because some trees with a bad id do not depend on order either, as when the bad leaf has no sibling or every leaf abstains.
- CEngineFacts.IdsInRangeMeansExact: sufficient only, because a short-circuit can keep a bad id from being visited; the error remembered at the end certifies exactness in that case too.
