# Verified model of the capsule8 sensor's core

The sensor turns subscriptions into perf events. A subscription carries filter expressions that
are checked, rewritten and printed for the kernel; perf events are opened on every CPU and kept in
tables; samples come back through ring buffers and are merged across CPUs; and streams of events
are repeated, joined and filtered by container on their way to subscribers. This project states
what each of these parts promises, as Dafny programs that have the form of the Go code, and proves
it for all inputs, all runs and all reachable states.

`dafny verify dfyconfig.toml` checks everything.

## Parts

| file | what it models |
|---|---|
| `Api.dfy`, `Wrappers.dfy`, `Sequences.dfy` | the protobuf messages of expressions and values, with their getters; Go's nil and error results; lists |
| `Validate.dfy` | the structural check, the kernel-filter check and the type checker |
| `Evaluate.dfy` | comparison of values, a stackless meaning of expressions, and the stack machine that computes it |
| `Soundness.dfy` | what the checks guarantee about evaluation |
| `Meaning.dfy` | what each kind of node evaluates to, in terms of the values of its operands alone |
| `KernelFilter.dfy` | the printer of kernel filters, at token level, and two readers of what it prints |
| `FilterMeaning.dfy` | what a filter that was read lets through, against `Evaluate` on the tree that was printed |
| `Rewrite.dfy` | the analysis "bounded by syscall id" and the rewriting of deprecated filter fields |
| `FilterSet.dfy` | collecting printed filters and joining them into one disjunction |
| `Registration.dfy` | from the process and syscall filters of a subscription to what the kernel is given |
| `Monitor.dfy` | the tables of the perf event monitor: register with rollback, unregister, close |
| `MonitorRuns.dfy` | what those tables hold after any run of registrations and unregistrations |
| `Samples.dfy`, `RingBuffer.dfy` | from the kernel's ring buffers to time-ordered calls of the dispatch function |
| `SafeMaps.dfy` | maps and decoder tables that are replaced by copies |
| `Repeater.dfy`, `Joiner.dfy`, `Join.dfy` | the three select loops over a changing set of channels |
| `RepeaterRuns.dfy`, `JoinerRuns.dfy`, `JoinRuns.dfy` | what each has done after any run, in terms of what Select returned |
| `ProcessInfo.dfy` | the two task caches and the walks up the parent graph |
| `ContainerStream.dfy` | the container events of a subscription, by type and expression |
| `Containers.dfy` | pairing of container reports, and the container filter with its memory |

The expression engine is code without assignments and is modelled by functions, except for the
evaluator, whose stack is a field of a class. Everything else updates fields, and is modelled by
classes whose methods are proved against functions on the tables. The kernel, the choices of
`reflect.Select`, the order in which Go ranges over a map, and the order that `sort.Sort` leaves
equal elements in are arbitrary.

## Where the code does less than it means to

Each of these is stated below, most with the exact condition under which the code does meet the
intention.

- `(x || y) && z` is printed as `x || y && z`. A reader for which `&&` binds tighter, as the
  kernel's does, gets the tree back if and only if no `&&` has a `||` immediately to its left;
  otherwise the filter lets through more events, never fewer.
- So the analysis that is to keep out unbounded syscall filters accepts `(arg0 = 1 OR arg1 = 1) AND id = 5`, which
  the kernel reads as true of every id. What the kernel reads is bounded if and only if every
  segment between its ORs is, and always is for filters that gave an id.
- That analysis runs before any check, and panics on trees whose AND, OR or EQ lacks operands,
  exactly where it gets as far as one; never on a filter that gave an id.
- A process filter's exit code is compared as 32 bits with a field of 64, so that `Validate` refuses
  the rewritten filter and `Evaluate` fails on it; read without widths it does what was meant.
- A subscription for container events of one type loses events that one of its filters asks for if
  another filter has an expression and that one has none, if one expression is not valid, or not
  boolean beside others, or if one fails before a true one is reached. Comparisons with a container's
  name are false of every event, because the name is never supplied.
- A null test prints as nothing, which the callers take for "no filter".
- LIKE with the pattern `*` slices out of bounds, and no other pattern does.
- Identifiers are tested by their first byte, so that beyond ASCII one may begin with a digit, and
  one that begins with a Hebrew letter is refused.
- NULL on just one side of `&` is an error, although validation accepts the tree.
- A tracepoint registered twice loses its decoder when either registration goes.
- A ring buffer that is exactly full looks empty to the reader.
- `readRingBuffers` holds samples back only to append them again in the same call, so nothing is
  ever pending between calls and there is never anything to flush.
- The parent graph of the process cache becomes cyclic if and only if a task is inserted whose pid
  is on its parent's chain, which the reuse of a pid can bring about; the walks then never end.
- `lookupLeader` reports a miss as found exactly when the numbers shown there are equal, as those
  of the zero task are.
- The array cache does not know a task without a thread group id, which the map cache does, and it
  remembers what setters say of absent pids; in nothing else do the two differ.
- `Join` takes a message on its control channel for the close of an input, and so can end while an
  input is open.
- Closing a joiner, or a `Join`, panics if and only if two of its streams share a control channel
  or one's is closed already. A stream that was added twice shares one with itself, and so do two
  streams that operators such as `Map` and `Filter` made of one.
- The longer of two Docker configurations of a creation is picked and then overridden by the
  second report's.

## Model

| member | source | states |
|---|---|---|
| `Validate.IdentifiersExactly` | pkg/expression/validate.go:25-43 | which identifiers are accepted: on ASCII, exactly those of 0-9, A-Z, a-z and the underscore that do not begin with a digit; beyond it, for any Unicode tables, letters and digits, of which the first is tested by its first byte, so that it is none whose first byte is 0xD7 |
| `Validate.AcceptedExactly` | pkg/expression/validate.go:79-169 | `NewExpression` accepts a tree if and only if every node carries what its type calls for, identifiers are well formed, and logical nodes are all on top |
| `Validate.OperandExactly` | pkg/expression/validate.go:79-165 | below a comparison it accepts exactly the same without any logical node |
| `Validate.ValidatedIsShaped` | pkg/expression/validate.go:79-165 | what the evaluator, the type checker and the printer dereference is there in any validated tree |
| `Validate.KernelValidExactly` | pkg/expression/validate.go:171-319 | `ValidateKernelFilter` accepts exactly the trees of a small grammar: fields, literals, field-literal tests, masks, masks compared with zero, and their conjunctions and disjunctions |
| `Validate.ZeroExactly` | pkg/expression/validate.go:229-260 | the zero that a mask is compared with is an integer literal, signed or unsigned |
| `Validate.KernelOperands` | pkg/expression/validate.go:189-319 | both operands of a kernel-valid logical node are kernel-valid |
| `Validate.TypesExactly` | pkg/expression/validate.go:321-453 | `validateTypes` finds type t if and only if the typing rules, given as a relation, derive t; so types are unique |
| `Validate.TypesExactlySome` | pkg/expression/validate.go:321-453 | the same for all types at once |
| `Evaluate.TimestampRoundTrip` | pkg/expression/evaluate.go:31-34 | splitting a uint64 field into seconds and nanoseconds and counting them again in wrapping arithmetic loses nothing |
| `Evaluate.TimestampsCompareAsCounts` | pkg/expression/evaluate.go:84-174 | timestamp fields compare as the counts they were given as |
| `Evaluate.OrderLaws` | pkg/expression/evaluate.go:36-174 | on numeric values of one type the six comparisons are those of one order, total apart from NaN |
| `Evaluate.EqualIsSame` | pkg/expression/evaluate.go:36-58 | well-formed strings, booleans and integers compare equal exactly when they are the same value |
| `Evaluate.DoublesCompare` | pkg/expression/evaluate.go:84-174 | doubles with NaN and infinities obey trichotomy exactly when neither is NaN |
| `Evaluate.CompareFailsExactly` | pkg/expression/evaluate.go:36-207 | which comparisons of two values of one type are errors, both directions, and != is the negation of == |
| `Evaluate.MatchesDecides` | pkg/expression/evaluate.go:176-207 | containing, having a suffix, a prefix and equality are what stars at the ends mean |
| `Evaluate.MatchesSplits` | pkg/expression/evaluate.go:176-207 | that meaning is: the string is what is between the stars, with anything before it if there is one in front and anything after it if there is one behind |
| `Evaluate.LikeIsItsMeaning` | pkg/expression/evaluate.go:176-207 | LIKE panics on exactly the pattern "*", and otherwise says whether the string is the pattern with any text for a star at either end |
| `Evaluate.BitAndKeepsCommonBits` | pkg/expression/evaluate.go:418-451 | the k-th bit is set in the result if and only if it is in both operands |
| `Evaluate.SignedAndKeepsCommonBits` | pkg/expression/evaluate.go:436-441 | so it is for signed operands, on their two's complement representations |
| `Evaluate.BitsDetermine` | pkg/expression/evaluate.go:436-450 | so that which bits are in it says which number it is |
| `Evaluate.NoInternalErrors` | pkg/expression/evaluate.go:453-477 | none of the three internal errors can come of a validated tree |
| `Evaluate.OperatorIsNotInternal` | pkg/expression/evaluate.go:342-451 | nor of an operator applied to any two values |
| `Evaluate.EvalContext.constructor` | pkg/expression/evaluate.go:457-462 | evaluation starts with an empty stack |
| `Evaluate.EvalContext.PushIdentifier` | pkg/expression/evaluate.go:230-282 | an identifier pushes its value, or NULL if it is not supplied, or fails for an undefined field or a Go value of the wrong type, or panics for a nil interface, and then pushes nothing |
| `Evaluate.EvalContext.PushComparison` | pkg/expression/evaluate.go:342-384 | a comparison with NULL on either side pushes FALSE, one across types fails, any other pushes its truth |
| `Evaluate.EvalContext.PushBitwiseAnd` | pkg/expression/evaluate.go:418-451 | & pushes the masked integer, or fails when types differ or are not integers |
| `Evaluate.EvalContext.EvaluateNode` | pkg/expression/evaluate.go:284-455 | on success the stack machine leaves the earlier stack untouched and pushes exactly the value that the stackless meaning gives; on failure it reports the meaning's error |
| `Evaluate.EvaluateExpression` | pkg/expression/evaluate.go:457-477 | on any tree that `NewExpression` accepts, Evaluate is the stackless meaning |
| `Meaning.ValuesExactly` | pkg/expression/validate.go:45-77 | a value is accepted exactly with the payload that belongs to its type |
| `Meaning.ShapedExactly` | pkg/expression/validate.go:79-165 | the payload that each kind of node needs, all the way down |
| `Meaning.GoTypesByName` | pkg/expression/evaluate.go:215-240 | a native value is taken for a field exactly if the name of its Go type is the one wanted for the type of the field |
| `Meaning.CountIsNanos` | pkg/expression/evaluate.go:31-34 | timestamps are compared as the nanoseconds they are, modulo 2 to the 64, though seconds and nanoseconds are converted first |
| `Meaning.IdentifierMeans` | pkg/expression/evaluate.go:230-282 | an identifier gives an error if it is not declared, NULL if it is not supplied, and otherwise what was supplied, in the declared type, or an error if its Go type is another |
| `Meaning.LiteralMeans` | pkg/expression/evaluate.go:289-291 | a literal gives itself |
| `Meaning.ResultsAreWellFormed` | pkg/expression/evaluate.go:284-455 | whatever a tree evaluates to is NULL or has the payload of its type |
| `Meaning.CompareIsRelated` | pkg/expression/evaluate.go:36-207 | each comparison operator gives its relation between two values of one type |
| `Meaning.ComparisonMeans` | pkg/expression/evaluate.go:329-384 | a comparison whose operands evaluate, fields or literals or masks on either side, is FALSE if either is NULL, an error if their types differ or the operator has no meaning on them, and otherwise the relation between the two values |
| `Meaning.FirstErrorCounts` | pkg/expression/evaluate.go:333-341 | an operand that fails makes its node fail likewise, the left one first |
| `Meaning.NullComparesFalse` | pkg/expression/evaluate.go:348-351 | so a comparison with an absent field, or a mask of one, on either side is FALSE, != included |
| `Meaning.MaskMeans` | pkg/expression/evaluate.go:408-452 | a mask gives NULL for two NULLs, errors for types that differ or are no integers, and otherwise the integer of that type with exactly the bits of both |
| `Meaning.NullTestMeans` | pkg/expression/evaluate.go:386-406 | IS NULL is TRUE exactly if its operand is NULL, and IS NOT NULL exactly if it is not |
| `Meaning.NullTestOfField` | pkg/expression/evaluate.go:386-406 | on a field they say whether it is supplied |
| `Meaning.TruthIsTruth` | pkg/expression/expression.go:89-113 | a value is true exactly if it is TRUE, a number that is not zero, or a string that is not empty |
| `Meaning.LogicalMeans` | pkg/expression/evaluate.go:293-327 | AND and OR give their left side where that decides or fails, and otherwise whatever the right side gives |
| `Soundness.OperandsAreStrict` | pkg/expression/evaluate.go:284-455 | below a comparison there is nothing to short-circuit |
| `Soundness.ShortCircuitKeepsTruth` | pkg/expression/evaluate.go:293-327 | where evaluating every operand succeeds, so does Evaluate, with the same truth value |
| `Soundness.OperandSound` | pkg/expression/evaluate.go:329-455 | an operand of a well-typed tree evaluates successfully if and only if it is safe, is NULL exactly when its field is not supplied, and otherwise has the validated type |
| `Soundness.TestSound` | pkg/expression/evaluate.go:329-451 | a test of two sound operands is sound: it fails exactly when it is not safe |
| `Soundness.OperatorSound` | pkg/expression/evaluate.go:329-455 | one operator on operands of the validated type fails exactly for a one-sided NULL under & or the pattern "*" |
| `Evaluate.LikeFailsOnStar` | pkg/expression/evaluate.go:188-196 | LIKE on strings fails exactly for the pattern "*", with the slice panic |
| `Soundness.TypeSoundness` | pkg/expression/validate.go:321-453 | type soundness: on well-typed values, Evaluate succeeds on an accepted tree if and only if the tree is safe as far as evaluation gets, and working out every operand does if and only if it is safe altogether; results are NULL or of the validated type, and of that type if all identifiers are supplied; the only failures are the two known ones |
| `Soundness.SuppliedIsNotNull` | pkg/expression/evaluate.go:230-282 | an operand whose identifiers are all supplied is not NULL |
| `Soundness.OneSidedNullFails` | pkg/expression/evaluate.go:422-427 | an accepted, well-typed tree whose evaluation fails because one side of & is NULL |
| `Soundness.StarPatternPanics` | pkg/expression/evaluate.go:188-196 | an accepted, well-typed tree whose evaluation slices out of bounds |
| `KernelFilter.PrintsNothing` | pkg/expression/string.go:131-175 | exactly the null tests print as the empty string |
| `KernelFilter.TestPrintsAs` | pkg/expression/string.go:131-175 | a test is printed as the field, the operator and the literal, and a mask compared with zero as the mask |
| `KernelFilter.KernelTest` | pkg/expression/validate.go:189-319 | a kernel-valid node that is neither logical nor an operand is a test of a field against a literal, or a mask compared with zero |
| `KernelFilter.ReadsTerm` | pkg/expression/string.go:131-175 | a printed test is read back as one term, whatever follows |
| `KernelFilter.ReadsParentheses` | pkg/expression/string.go:142-151 | what is printed in parentheses is read back as one term |
| `KernelFilter.ReadsRight` | pkg/expression/string.go:142-151 | so is a printed right operand |
| `KernelFilter.ReadsChain` | pkg/expression/string.go:131-175 | a printed tree is read as the chain of its left spine, for either way of grouping |
| `KernelFilter.ReadsBack` | pkg/expression/string.go:131-175 | any printed kernel-valid tree can be read, in both ways |
| `KernelFilter.OneLevelRoundTrip` | pkg/expression/string.go:131-175 | with AND and OR grouped left to right at one level, every printed tree is read back as itself, with `x & m != 0` as `x & m` |
| `KernelFilter.OneLevelChain` | pkg/expression/string.go:131-175 | the chain read at one level is the tree |
| `KernelFilter.AndTighterRoundTrip` | pkg/expression/string.go:142-151 | with AND binding tighter, it is read back as itself if and only if no AND has an OR immediately to its left |
| `KernelFilter.AndTighterChain` | pkg/expression/string.go:142-151 | the same of the chain, with what is left waiting before its last OR |
| `FilterMeaning.FieldMeansIdentifier` | pkg/expression/expression.go:89-114 | a field printed by itself is true exactly when IsValueTrue is of its value |
| `FilterMeaning.TestMeansOperator` | pkg/expression/evaluate.go:342-451 | a printed test of a supplied field means what the operator gives |
| `FilterMeaning.IntegerComparison` | pkg/expression/evaluate.go:36-174 | integers of any width compare as the numbers that are printed |
| `FilterMeaning.IntegerAnd` | pkg/expression/evaluate.go:418-451 | a mask of integers of any sign is true exactly when the numbers printed have a common bit |
| `FilterMeaning.TestMeansTree` | pkg/expression/evaluate.go:342-451 | a kernel test evaluates to what its print means, absent fields included |
| `FilterMeaning.CollapseKeepsTruth` | pkg/expression/string.go:153-162 | whenever Evaluate succeeds on a kernel-valid tree, its truth is what the collapsed filter means |
| `FilterMeaning.NotZeroIsTrue` | pkg/expression/string.go:153-162 | `x & m != 0` is true exactly when `x & m` is |
| `FilterMeaning.PrintedFilterMeansTree` | pkg/expression/expression.go:46-52 | the printed filter, read at one level, lets an event through if and only if Evaluate finds the expression true of it |
| `FilterMeaning.TighterReadingOnlyAdds` | pkg/expression/expression.go:46-52 | with AND binding tighter, every event the expression is true of still gets through |
| `FilterMeaning.ChainHolds` | pkg/expression/string.go:142-151 | the chain read that way is implied by the tree |
| `FilterMeaning.TighterReadingDropsParentheses` | pkg/expression/string.go:142-151 | and for any `(x OR y) AND z` an event of x gets through though z is false of it |
| `Rewrite.IDFilterBoundsID` | pkg/sensor/syscall.go:69-94 | soundness of the analysis: values that make an accepted kernel-valid filter true have `id` in a finite set of constants of the tree |
| `Rewrite.ShapedIsAnalysed` | pkg/sensor/syscall.go:69-94 | on a tree whose nodes carry what they should the analysis does not panic |
| `Rewrite.EqualValuesAreSame` | pkg/expression/evaluate.go:36-58 | strings or integers that compare equal are the same value |
| `Rewrite.SelfComparisonIsUnbounded` | pkg/sensor/syscall.go:82-91 | without kernel validity the analysis is unsound: `id == id` passes and is true of every id |
| `Rewrite.BoundedExactly` | pkg/sensor/syscall.go:69-94 | on filters as they are read the analysis is exact: one that passes lets through finitely many ids; one that does not lets through whatever its other parts hold of, whatever the id |
| `Rewrite.CollapseBounds` | pkg/sensor/syscall.go:69-94 | the analysis of a tree is that of the filter it stands for |
| `Rewrite.SegmentsExactly` | pkg/sensor/syscall.go:155-176 | read with AND tighter, a filter is bounded exactly when each of its segments is |
| `Rewrite.ReadIsBoundedExactly` | pkg/sensor/syscall.go:140-155 | the analysis composed with the printer: at one level what is read is bounded exactly when the analysis says so; with AND tighter exactly when all segments are, which is the same unless an AND has an OR immediately to its left |
| `Rewrite.TighterIsMore` | pkg/sensor/syscall.go:140-155 | a tree bounded segment by segment passes the analysis |
| `Rewrite.AcceptedButUnbounded` | pkg/sensor/syscall.go:140-160 | an accepted, kernel-valid filter that passes the analysis and is read as true of every id |
| `Rewrite.ConjoinMeans` | pkg/expression/expression.go:218-228 | LogicalAnd with an optional right side: the result is true exactly when both are, and is bounded by id exactly when either is |
| `Rewrite.ConjoinIsRegistrable` | pkg/expression/expression.go:218-228 | conjoining a registrable test keeps an expression registrable, or not |
| `Rewrite.LogicalIsRegistrable` | pkg/expression/expression.go:218-240 | two registrable expressions make one |
| `Rewrite.FieldEqualsMeans` | pkg/sensor/syscall.go:98-100 | the test put in for a deprecated field passes both checks and is true exactly when the field has the value |
| `Rewrite.FieldLikeMeans` | pkg/sensor/process.go:140-142 | the same for the file name pattern |
| `Rewrite.SyscallEventFilter.Rewrite` | pkg/sensor/syscall.go:96-115 | the rewriting in place computes the specification |
| `Rewrite.RewriteSyscallKeepsMeaning` | pkg/sensor/syscall.go:96-115 | the new expression is true exactly when every applicable deprecated field matches and the old expression is true; it is registrable exactly when the old one was; a filter that had an id is accepted by the analysis; only the fields that were put into the expression are cleared; rewriting again changes nothing |
| `Rewrite.RewriteSyscallReads` | pkg/sensor/syscall.go:96-115 | what is read of a rewritten syscall filter, for either grouping, lets an event through exactly when its deprecated fields match and what is read of its old expression does |
| `Rewrite.ConjoinReads` | pkg/sensor/syscall.go:98-102 | a test put in front of any expression is read as one of two conjuncts, however AND and OR are grouped |
| `Rewrite.RewrittenIsBounded` | pkg/sensor/syscall.go:96-115 | what rewriting makes of a filter with an id is read, however it is grouped, as one that lets through that id only |
| `Rewrite.RewrittenIsTight` | pkg/sensor/syscall.go:96-115 | and is bounded segment by segment |
| `Rewrite.RewrittenIsAnalysed` | pkg/sensor/syscall.go:136-143 | on a filter that gave an id the analysis does not panic and says yes, whatever its expression is |
| `Rewrite.RewriteSyscallIsRegistrable` | pkg/sensor/syscall.go:96-115 | rewriting leaves registrability as it was, of malformed expressions too |
| `Rewrite.ProcessEventFilter.Rewrite` | pkg/sensor/process.go:128-157 | the rewriting in place computes the specification |
| `Rewrite.RewriteProcessIsRegistrable` | pkg/sensor/process.go:128-157 | rewriting leaves registrability as it was, of malformed expressions too |
| `Rewrite.RewriteProcessKeepsMeaning` | pkg/sensor/process.go:128-157 | the same meaning preservation and idempotence, a file name given outright making the pattern irrelevant |
| `Rewrite.TestReads` | pkg/sensor/process.go:131-154 | a test put in front of an expression is read as: both hold |
| `Rewrite.RewriteProcessReads` | pkg/sensor/process.go:128-157 | what rewriting makes is read, without types, as: the file name or the number of the exit code matches, of whatever width, and what is read of the old expression holds |
| `Rewrite.ExitCodeTypesDiffer` | pkg/sensor/process.go:149-152 | with the field declared as the 64 bits it has, the rewritten filter fails Validate and Evaluate, and is read as what was meant |
| `FilterSet.NetworkFilterSet.constructor` | pkg/sensor/network.go:190-203 | no type has a table |
| `FilterSet.NetworkFilterSet.Add` | pkg/sensor/network.go:205-280 | a request is counted once, under its type and its print; a malformed one, or one of another type, is not |
| `FilterSet.FullFilterString` | pkg/sensor/network.go:282-300 | inactive if and only if nothing is counted; the empty wildcard if the empty string is; otherwise each counted string once, in some order |
| `FilterSet.ProcessFilterString` | pkg/sensor/process.go:116-126 | empty for a wildcard, otherwise each filter once, in some order |
| `FilterSet.ReadsJoined` | pkg/sensor/network.go:294-297 | the joined string is read as one chain of its parts |
| `FilterSet.JoinedHolds` | pkg/sensor/network.go:294-297 | which means their disjunction |
| `FilterSet.JoinedIsAny` | pkg/sensor/network.go:294-297 | so joined texts are read as the disjunction of what each is read as |
| `FilterSet.PrintIsReadable` | pkg/sensor/network.go:294 | any kernel-valid expression's print is read alike by itself and in parentheses |
| `FilterSet.PrintedAlike` | pkg/sensor/network.go:205-216 | expressions that print alike, and so are filed together, are read alike |
| `FilterSet.ListingIsAny` | pkg/sensor/network.go:282-300 | in whatever order, however many expressions print alike, and however AND and OR are grouped, the joined filter lets an event through if and only if what is read of some expression does |
| `FilterSet.PlainLets` | pkg/expression/expression.go:46-52 | what is read of an expression that is read faithfully and evaluates lets an event through exactly when it evaluates true |
| `FilterSet.ListingMeansAny` | pkg/sensor/network.go:282-300 | so where the expressions are such, the joined filter lets an event through if and only if some expression evaluates true of it |
| `FilterSet.CountedMeansRequested` | pkg/sensor/network.go:205-280 | over any history, a string is active in a type's table if and only if some request was filed under it |
| `FilterSet.CountIsNumber` | pkg/sensor/network.go:205-280 | its count is the number of requests filed under it |
| `FilterSet.WildcardExactly` | pkg/sensor/network.go:282-300 | a type's filter is the wildcard if and only if some request had no expression, or a null test for one |
| `FilterSet.FiledMeansPrinted` | pkg/sensor/network.go:205-216 | apart from the empty string, what is filed is the prints of the well-formed expressions |
| `FilterSet.FullFilterIsAnyRequest` | pkg/sensor/network.go:205-300 | after any history, for any requests with readable prints, and without types or evaluation: the filter for a type lets an event through if and only if what is read of some request's print does |
| `FilterSet.KernelValidIsReadable` | pkg/sensor/network.go:205-216 | the prints of kernel-valid requests are readable |
| `FilterSet.FullFilterMeansAnyRequest` | pkg/sensor/network.go:205-300 | where the requests' expressions evaluate and are read faithfully, it lets an event through if and only if some request's expression is true of it |
| `Registration.CollectProcessFilters` | pkg/sensor/process.go:159-210 | the loop that rewrites, checks and files the process filters computes the specification |
| `Registration.FiledProcesses` | pkg/sensor/process.go:159-210 | what is filed for a type is the prints of exactly the registrable filters |
| `Registration.WildcardProcesses` | pkg/sensor/process.go:174-192 | a type's wildcard is set if and only if some filter has neither an expression nor a deprecated field that applies |
| `Registration.ForksExactly` | pkg/sensor/process.go:159-172 | forks are asked for if and only if some filter is for them |
| `Registration.FiledMeansWanted` | pkg/sensor/process.go:166-209 | as Evaluate has it, a filter wants an event if and only if it is filed and its rewritten expression evaluates true |
| `Registration.ProcessExprsMean` | pkg/sensor/process.go:159-210 | some expression filed is true of an event if and only if some filter wants it |
| `Registration.FiledMeansKernelWanted` | pkg/sensor/process.go:166-209 | a filter wants an event as the kernel has it if and only if it is filed and what is read of it lets the event through |
| `Registration.ProcessExprsRead` | pkg/sensor/process.go:159-210 | what is read of some expression filed lets an event through if and only if some filter wants it |
| `Registration.ProcessFilterIsAny` | pkg/sensor/process.go:116-256 | from a subscription to the kernel: for any list of process filters, malformed ones included, for either grouping, and without types or evaluation, the filter given to the kernel for a type lets an event through if and only if some filter, as it was before rewriting, wants it |
| `Registration.ProcessFilterMeansAny` | pkg/sensor/process.go:116-256 | the corollary for expressions that evaluate and are read faithfully: it lets an event through if and only if some filter evaluates true of it |
| `Registration.TakenInOrder` | pkg/sensor/syscall.go:140-154 | analysing before checking takes the same filters as the other way round exactly when the analysis does not panic |
| `Registration.AnalysisPanicsOnBareAnd` | pkg/sensor/syscall.go:69-78 | a bare AND makes it panic, where the check would have refused it |
| `Registration.NoPanic` | pkg/sensor/syscall.go:136-143 | a filter that gave an id, or passes the checks, never does |
| `Registration.CollectSyscallFilters` | pkg/sensor/syscall.go:132-165 | the loop, in its own order, panics exactly when the analysis does on some filter, and otherwise files what the specification says |
| `Registration.FiledSyscalls` | pkg/sensor/syscall.go:132-165 | what is filed for a type is the prints of exactly the filters taken |
| `Registration.SyscallFilterIsAny` | pkg/sensor/syscall.go:171-176 | the joined syscall filter lets an event through if and only if what is read of some filter does, for either grouping |
| `Registration.TakenExactly` | pkg/sensor/syscall.go:136-160 | a filter is taken if and only if its expression passes the checks and it gave an id or its expression passes the analysis |
| `Registration.SyscallExprsRead` | pkg/sensor/syscall.go:132-170 | what is read of some expression taken lets an event through if and only if some such filter, as given, wants it: its id, its return value if it is for exits, and what is read of its expression |
| `Registration.SyscallFilterIsWanted` | pkg/sensor/syscall.go:132-176 | from a subscription to the kernel: the joined syscall filter lets an event through if and only if some filter of the subscription, as given, wants it |
| `Registration.SyscallFilterBoundsID` | pkg/sensor/syscall.go:132-246 | no wildcards, for what the kernel reads: if all filters filed are bounded segment by segment, every event let through has an id that one of them names; one that is not lets through whatever its other parts hold of |
| `Monitor.EventMonitor.constructor` | pkg/sys/perf/monitor.go:973-983 | a new monitor's tables are empty |
| `Monitor.EventMonitor.PerfEventOpen` | pkg/sys/perf/monitor.go:224-251 | one descriptor a group, or, at any refusal by open or setFilter, none left open |
| `Monitor.EventMonitor.CloseAll` | pkg/sys/perf/monitor.go:232-234 | exactly the given descriptors are closed, each once |
| `Monitor.EventMonitor.ReadStreamIDs` | pkg/sys/perf/monitor.go:283-296 | every new descriptor gets its stream id, or, if one cannot be read, all are closed and forgotten |
| `Monitor.EventMonitor.RollBack` | pkg/sys/perf/monitor.go:286-289 | the rollback forgets and closes exactly the new descriptors |
| `Monitor.EventMonitor.OpenStreams` | pkg/sys/perf/monitor.go:271-296 | descriptors and stream ids for a new event, or neither |
| `Monitor.EventMonitor.RecordIndices` | pkg/sys/perf/monitor.go:307-309 | each descriptor is recorded with its index |
| `Monitor.EventMonitor.CommitEvent` | pkg/sys/perf/monitor.go:298-318 | all tables get the event's entries and nothing else changes |
| `Monitor.EventMonitor.NewRegisteredEvent` | pkg/sys/perf/monitor.go:254-319 | succeeds if and only if the kernel refuses nothing, and otherwise gives the error of the first refusal; a failure at any point leaves every table but the decoders as it was |
| `Monitor.EventMonitor.RemoveRegisteredEvent` | pkg/sys/perf/monitor.go:377-405 | all entries of the event go from all tables, its descriptors are closed, and nothing else changes |
| `Monitor.EventMonitor.UnregisterEvent` | pkg/sys/perf/monitor.go:407-419 | the event's whole state is undone, or, for an unknown id, an error and no change |
| `Monitor.EventMonitor.Close` | pkg/sys/perf/monitor.go:421-463 | in whatever order events are removed, none of the four stray panics fires and nothing stays open |
| `Monitor.HonestIsFresh` | pkg/sys/perf/monitor.go:271-296 | what an honest kernel answers is new to the tables |
| `Monitor.CommitKeepsOwnership` | pkg/sys/perf/monitor.go:298-318 | after a registration every event still owns its descriptors and their streams |
| `Monitor.CommitKeepsEvents` | pkg/sys/perf/monitor.go:298-318 | every descriptor still belongs to a live event |
| `Monitor.CommitKeepsUnique` | pkg/sys/perf/monitor.go:298-318 | no two descriptors share a stream id |
| `Monitor.CommitKeepsLive` | pkg/sys/perf/monitor.go:298-318 | the stream tables hold only the ids of live descriptors |
| `Monitor.CommitKeepsKernel` | pkg/sys/perf/monitor.go:298-318 | the descriptor tables agree with what is open |
| `Monitor.RegisterKeepsConsistent` | pkg/sys/perf/monitor.go:254-319 | a registration, successful or not, keeps the six tables consistent |
| `Monitor.RemoveKeepsConsistent` | pkg/sys/perf/monitor.go:377-419 | so does removing an event |
| `Monitor.StreamGoesWithFd` | pkg/sys/perf/monitor.go:378-395 | removing an event forgets a stream if and only if the event owns its descriptor |
| `Monitor.RunsAreConsistent` | pkg/sys/perf/monitor.go:254-419 | the tables are consistent after any sequence of registrations, failing wherever they may, and unregistrations |
| `MonitorRuns.RegisterRecords` | pkg/sys/perf/monitor.go:254-319 | a registration that goes through records what was asked for and answered: name, kind, the descriptors in order with their indices and stream ids, and for each stream the event id, the tracepoint id and whether the event is disabled |
| `MonitorRuns.RegisterKeepsOthers` | pkg/sys/perf/monitor.go:254-319 | any registration leaves what is recorded of the other events as it is |
| `MonitorRuns.UnregisterKeepsOthers` | pkg/sys/perf/monitor.go:377-419 | so does unregistering another event |
| `MonitorRuns.EventsAreAsRegistered` | pkg/sys/perf/monitor.go:254-419 | after any run, an event registered in it and not unregistered since is recorded exactly as it was asked for and answered then |
| `MonitorRuns.LiveEventsExactly` | pkg/sys/perf/monitor.go:254-419 | and those are all the events there are; their ids number the registrations that went through |
| `MonitorRuns.NextID` | pkg/sys/perf/monitor.go:279-299 | the next id is one more than the number of registrations that went through |
| `MonitorRuns.DecodersExactly` | pkg/sys/perf/monitor.go:254-405 | after any run a name has a decoder if and only if the last command that touched the name was a registration that went through, and then it is the one of that tracepoint id |
| `Monitor.EventsAreDisjoint` | pkg/sys/perf/monitor.go:311-317 | live events never share a descriptor |
| `Monitor.NoEventsNoStrays` | pkg/sys/perf/monitor.go:437-455 | consistent tables without events are empty and nothing is left open |
| `Monitor.FdsAreOpen` | pkg/sys/perf/monitor.go:379-386 | the descriptors about to be closed are distinct and open |
| `Monitor.UnregisterKeepsDecoders` | pkg/sys/perf/monitor.go:404 | every remaining event keeps its decoder if and only if none has the name of the one removed |
| `Monitor.RegisterKeepsDecoders` | pkg/sys/perf/monitor.go:271-292 | a registration costs a live event its decoder if and only if it fails after its own was added and the names are the same |
| `Samples.Collector.constructor` | pkg/sys/perf/monitor.go:973-983 | nothing is held back at first |
| `Samples.NormalizedTime` | pkg/sys/perf/monitor.go:633-636 | a time is moved by the same amount for all samples of a group, exactly so short of an overflow |
| `Samples.NormalizeMovesTheClock` | pkg/sys/perf/monitor.go:633-636 | normalizing keeps the distances between the samples of a group, and their order short of an overflow |
| `Samples.Collector.ReadSamples` | pkg/sys/perf/monitor.go:630-636 | exactly what one ring buffer yields is appended, moved to the common clock |
| `Samples.Collector.HoldBack` | pkg/sys/perf/monitor.go:644-653 | as many samples are held back, from the end, as are later than the first buffer's last one, not counting the first of this buffer |
| `Samples.LaterAreCounted` | pkg/sys/perf/monitor.go:644-652 | the number held back is that of the places after the first new one with a later time |
| `Samples.Collector.GatherOne` | pkg/sys/perf/monitor.go:627-656 | reading one buffer keeps and holds back exactly what it says, by the time of the last sample of the first buffer that had any; nothing is lost or doubled |
| `Samples.Collector.Gather` | pkg/sys/perf/monitor.go:627-656 | nor does reading all of them |
| `Samples.Collector.ReadRingBuffers` | pkg/sys/perf/monitor.go:615-666 | one batch is sent if anything was read, a permutation of what was pending and all that was read, and nothing is pending after; over any run what was sent is what was read |
| `Samples.Collector.FlushPendingSamples` | pkg/sys/perf/monitor.go:668-673 | between calls there is nothing to flush; otherwise exactly the pending list is sent |
| `Samples.DispatchSortedSamples` | pkg/sys/perf/monitor.go:552-581 | at most one call a sample, in order, for an event that some reading of the changing table gave, never skipping a stream that the fresh table knows; with a steady table exactly one call for each registered sample |
| `Samples.SteadyCalls` | pkg/sys/perf/monitor.go:552-581 | with a table that stays the same there is just one way to make the calls |
| `Samples.CallsAreTimely` | pkg/sys/perf/monitor.go:583-604 | after sorting, the calls come in non-decreasing time |
| `Samples.BatchIsDispatched` | pkg/sys/perf/monitor.go:552-581 | however the table changes during a batch, a sample that every reading knows is dispatched exactly as often as it is there, and one that none knows never |
| `Samples.BatchesAreDispatched` | pkg/sys/perf/monitor.go:583-604 | the same of all batches together |
| `Samples.BatchesAreTimely` | pkg/sys/perf/monitor.go:583-604 | the calls of each batch come in non-decreasing time |
| `Samples.CollectSamples` | pkg/sys/perf/monitor.go:615-673 | over any passes and the flush at the end, the batches sent hold exactly what was read |
| `Samples.AllIsRead` | pkg/sys/perf/monitor.go:606-650 | what is read in some passes is every sample of every ready buffer, as often as it is there |
| `Samples.DispatchSamples` | pkg/sys/perf/monitor.go:583-604 | every batch received is sorted and dispatched, in the order received; samples registered throughout as often as they were sent, others that never are not at all |
| `Samples.RunMonitor` | pkg/sys/perf/monitor.go:552-673 | end to end: a sample whose stream is registered throughout is dispatched exactly as often as there are places in the ring buffers where it is read, on the common clock; one whose stream never is registered not at all; every call is for an event that the table had for its stream; and each batch in non-decreasing time |
| `RingBuffer.DistinctPlaces` | pkg/sys/perf/ringbuffer.go:95-96 | counters less than the length apart have different places |
| `RingBuffer.PlaceOf` | pkg/sys/perf/ringbuffer.go:95-96 | where a counter falls, before or after the wrap |
| `RingBuffer.TakenAt` | pkg/sys/perf/ringbuffer.go:98-104 | the k-th byte of the slice is the one at the k-th counter, at every wrap position |
| `RingBuffer.TakenIsUnread` | pkg/sys/perf/ringbuffer.go:94-104 | the slice is the unread bytes if and only if the buffer is not full |
| `RingBuffer.Buffer.constructor` | pkg/sys/perf/ringbuffer.go:35-77 | an empty buffer |
| `RingBuffer.Buffer.KernelWrites` | pkg/sys/perf/ringbuffer.go:88-118 | a producer that never fills the buffer up leaves what is unread as it is |
| `RingBuffer.Buffer.LoadHead` | pkg/sys/perf/ringbuffer.go:92-116 | the head loaded is one that the producer had published |
| `RingBuffer.Buffer.HandOver` | pkg/sys/perf/ringbuffer.go:95-113 | the callback is given exactly the bytes up to the head read, though the producer goes on meanwhile |
| `RingBuffer.Buffer.Read` | pkg/sys/perf/ringbuffer.go:88-118 | the slices handed over make up the bytes written, in order, none lost, repeated or overwritten, up to the last head read |
| `SafeMaps.SafeMap.GetMap` | pkg/sys/perf/maps.go:42-48 | a reader gets the active map itself |
| `SafeMaps.SafeMap.Copying` | pkg/sys/perf/maps.go:61-107 | update and remove change the contents as a plain map's, in a new map; no map that a reader may hold is written to |
| `SafeMaps.SafeMap.InPlace` | pkg/sys/perf/maps.go:50-89 | the in-place forms make the same change to the map that is there |
| `SafeMaps.SafeMap.CopyingHistory` | pkg/sys/perf/maps.go:148-194 | over any history of copying operations a snapshot never changes and the contents are those of a plain map |
| `SafeMaps.LastUpdateCounts` | pkg/sys/perf/maps.go:148-194 | after any history a key has the value that the last update of it gave it, unless it was removed since |
| `SafeMaps.AddKeepsBijective` | pkg/sys/perf/decoder.go:136-139 | the name and id tables stay each other's inverse if and only if neither the name nor the id is in use for another |
| `SafeMaps.DropKeepsBijective` | pkg/sys/perf/decoder.go:223-251 | removing a decoder always keeps them so |
| `SafeMaps.DecodersStayBijective` | pkg/sys/perf/decoder.go:179-251 | with fixed unique ids, after any history of additions and removals the tables are each other's inverse and agree with the ids |
| `SafeMaps.DecodersThereExactly` | pkg/sys/perf/decoder.go:179-251 | and a trace has its decoder if and only if it was added and not removed since |
| `SafeMaps.DecoderMap.AddDecoder` | pkg/sys/perf/decoder.go:179-203 | both tables are replaced by copies with the one decoder added |
| `SafeMaps.DecoderMap.RemoveDecoder` | pkg/sys/perf/decoder.go:223-251 | both tables are replaced by copies without the one decoder, or nothing happens |
| `SafeMaps.SubscriptionMap.Remove` | pkg/sensor/subscription.go:57-79 | the given keys go, and each that went and has an unregister function has it run exactly once |
| `Repeater.Looper.constructor` | pkg/stream/repeater.go:202-214 | a new repeater has no outputs |
| `Repeater.Looper.Add` | pkg/stream/repeater.go:38-55 | a new output starts at the present end of the input |
| `Repeater.Looper.Remove` | pkg/stream/repeater.go:57-72 | exactly one occurrence of the output goes, the others keep their order |
| `Repeater.Looper.CloseAll` | pkg/stream/repeater.go:74-80 | every output is closed once and dropped |
| `Repeater.Looper.DataHandler` | pkg/stream/repeater.go:82-106 | in whatever order outputs are ready, each is sent the element exactly once |
| `Repeater.Looper.RemoveOutput` | pkg/stream/repeater.go:181-191 | the output whose control channel closed is removed and its data channel closed, once |
| `Repeater.Looper.SelectCases` | pkg/stream/repeater.go:131-161 | Select is given control and the input while they are open and the control channel of every output, which are the events that may come; the loop ends when there is none |
| `Repeater.Looper.Handle` | pkg/stream/repeater.go:161-192 | one turn does what the chosen case calls for; nothing is closed twice or sent on after close |
| `Repeater.Looper.Turn` | pkg/stream/repeater.go:121-194 | and keeps the invariant |
| `Repeater.StepKeepsChannels` | pkg/stream/repeater.go:121-194 | a data channel is open exactly while it is an output's |
| `Repeater.ElementExtendsSegment` | pkg/stream/repeater.go:171-173 | an element lengthens every live output's segment by itself and no other's |
| `Repeater.OtherKeepsSegment` | pkg/stream/repeater.go:121-194 | no other turn changes what any output has received |
| `Repeater.OutputClosedKeepsSegment` | pkg/stream/repeater.go:181-191 | removing an output leaves every segment as it was, its own ended |
| `Repeater.InputClosedKeepsSegment` | pkg/stream/repeater.go:175-178 | so does the end of the input |
| `Repeater.StepKeepsInv` | pkg/stream/repeater.go:121-194 | every turn keeps it that each output has received exactly the segment of the input between its addition and its removal |
| `Repeater.RunsKeepInv` | pkg/stream/repeater.go:121-194 | so it holds in every run |
| `Repeater.StepRecords` | pkg/stream/repeater.go:121-194 | and the record it speaks of is the real one: elements in the order received, outputs begun and ended where they were added and removed |
| `RepeaterRuns.TurnEnds` | pkg/stream/repeater.go:121-194 | a turn removes exactly the output whose own control channel closed, or all with the input, closes their data channels and keeps the order of the others |
| `RepeaterRuns.TurnSends` | pkg/stream/repeater.go:82-106 | an element goes to every output there is and to no other channel |
| `RepeaterRuns.ControlCloses` | pkg/stream/repeater.go:165-173 | after any run control is open, and upstream not closed, exactly until control closed |
| `RepeaterRuns.InputCloses` | pkg/stream/repeater.go:174-182 | and the input is open exactly until it closed |
| `RepeaterRuns.InputAndChannels` | pkg/stream/repeater.go:38-55 | what was received is the elements of the run in order, and channels are numbered as outputs were made |
| `RepeaterRuns.OutputsExactly` | pkg/stream/repeater.go:121-194 | after any run an output is there if and only if it was made in the run and neither its own control channel nor the input closed since |
| `RepeaterRuns.OutputsInOrder` | pkg/stream/repeater.go:38-80 | and the outputs are in the order of their making |
| `RepeaterRuns.OutputReceives` | pkg/stream/repeater.go:121-194 | an output was sent exactly the elements received between its making and its end, and its channel is closed exactly if it has ended |
| `RepeaterRuns.ChannelsAreOutputs` | pkg/stream/repeater.go:38-55 | nothing is sent on any other channel |
| `Joiner.Looper.constructor` | pkg/stream/joiner.go:164-182 | a new joiner has no inputs |
| `Joiner.Looper.Add` | pkg/stream/joiner.go:45-48 | appends a stream, without looking whether it is there |
| `Joiner.Looper.Remove` | pkg/stream/joiner.go:50-65 | takes out the first occurrence, if there is one |
| `Joiner.Looper.RemoveChannel` | pkg/stream/joiner.go:144-153 | the first input with the channel that closed goes |
| `Joiner.Looper.Close` | pkg/stream/joiner.go:67-72 | closes the inputs' control channels in turn, up to the first that is closed, at which it panics |
| `Joiner.Looper.SelectCases` | pkg/stream/joiner.go:105-128 | Select is given the control channel while it is open, and the inputs' channels exactly while the joiner is enabled, which are the events that may come; the loop ends when there is none |
| `Joiner.Looper.Turn` | pkg/stream/joiner.go:96-160 | one turn does what the chosen case calls for and keeps the invariant, whatever streams were added |
| `Joiner.ReceiveInterleaves` | pkg/stream/joiner.go:142-143 | what is received is relayed once, and in the order of its channel |
| `Joiner.StepInterleaves` | pkg/stream/joiner.go:96-160 | after every turn the output is an interleaving of what was taken from each channel, each element once |
| `Joiner.StepKeepsInv` | pkg/stream/joiner.go:96-160 | every turn keeps that, closes upstream only with control, and the output only after it |
| `Joiner.RunsKeepInv` | pkg/stream/joiner.go:96-160 | so it holds in every run |
| `Joiner.ClosePanicsExactly` | pkg/stream/joiner.go:67-72 | closing panics if and only if two of the streams share a control channel or one's is closed already; otherwise each is closed once |
| `Joiner.RunsPanicExactly` | pkg/stream/joiner.go:133-140 | a run panics if and only if control is closed while the streams then listed are such |
| `JoinerRuns.EnabledExactly` | pkg/stream/joiner.go:74-92 | after any run a joiner is enabled unless it was turned off and not on again since |
| `JoinerRuns.OffReceivesNothing` | pkg/stream/joiner.go:115-123 | between off and on nothing is received from any input, not even its close |
| `JoinerRuns.RelayedExactly` | pkg/stream/joiner.go:139-141 | as much was taken from each channel as was received from it in the run, and relayed in that order |
| `JoinerRuns.FinishedExactly` | pkg/stream/joiner.go:125-128 | the output is closed exactly when the loop is done |
| `JoinerRuns.OpenUntilControlCloses` | pkg/stream/joiner.go:130-138 | until control closes, nothing upstream is closed |
| `JoinerRuns.UpstreamClosedExactly` | pkg/stream/joiner.go:67-72 | when control closes, what is closed, for good, is the control channels of the streams listed then; or the loop panics, if they cannot all be closed, and the run is over |
| `JoinerRuns.ListedExactly` | pkg/stream/joiner.go:45-65 | after any run the list holds exactly the streams added and not taken off since, in the order of adding; each removal or close takes off, of the entries that answer to it, the one added first |
| `Joiner.SharedControlPanics` | pkg/stream/joiner.go:45-48 | adding one stream twice, or two that operators made of one, and then closing panics |
| `Joiner.TurnUsesUp` | pkg/stream/joiner.go:125-154 | once control has closed, every turn but the last uses up some of what the inputs have left |
| `Joiner.ClosedJoinerProgresses` | pkg/stream/joiner.go:125-154 | and there is always a turn to take |
| `Joiner.ClosedJoinerTerminates` | pkg/stream/joiner.go:96-160 | so, with finite inputs, the loop ends within a bound, and closes the output once |
| `Join.TurnKeepsInv` | pkg/stream/stream.go:337-354 | every turn of Join keeps the interleaving, and the count is one too low exactly after a control message |
| `Join.TurnReceives` | pkg/stream/stream.go:340-342 | only a turn that receives changes what was taken or sent, by the next element |
| `Join.TurnInterleaves` | pkg/stream/stream.go:340-342 | every turn keeps the output an interleaving of what was taken |
| `Join.TurnKeepsCount` | pkg/stream/stream.go:349-353 | every turn keeps the count that of the open inputs, less one after a control message |
| `Join.TurnKeepsFinished` | pkg/stream/stream.go:349-353 | a case that was disabled is that of an input read to its end |
| `Join.TurnKeepsControl` | pkg/stream/stream.go:343-348 | the inputs' control channels are closed with the loop's own, each once, or it panics |
| `Join.JoinEndsComplete` | pkg/stream/stream.go:337-356 | when the count reaches zero every input is closed if and only if no control message came, and then everything has come out |
| `Join.TurnUsesUp` | pkg/stream/stream.go:337-354 | every turn uses up one of the elements, closes and the control close still to come |
| `Join.JoinProgresses` | pkg/stream/stream.go:337-339 | while an input is counted there is always a turn to take |
| `Join.RunUsesUp` | pkg/stream/stream.go:337-354 | a run has used up exactly as many as it has turns |
| `Join.JoinTerminates` | pkg/stream/stream.go:317-363 | with finite inputs every run is bounded, and until the count is zero, or the loop panics, it can go on |
| `Join.RunsKeepJoinInv` | pkg/stream/stream.go:337-354 | the invariant holds in every run |
| `Join.JoinDelivers` | pkg/stream/stream.go:317-363 | in every run each channel's elements come out in order without gaps, and all of them by the end, if there was no control message; a panic means that the control channels could not all be closed |
| `JoinRuns.CasesExactly` | pkg/stream/stream.go:317-363 | after any run an input is selected from exactly if its close has not come |
| `JoinRuns.ActiveExactly` | pkg/stream/stream.go:337-354 | the inputs left to count are all less one for each close of an input and for a control message |
| `JoinRuns.RelayedExactly` | pkg/stream/stream.go:339-342 | what was received is relayed in the order of receiving |
| `JoinRuns.ControlExactly` | pkg/stream/stream.go:343-350 | what has become of control and of the inputs' control channels, by whether a message or the close came in the run |
| `Join.CloseUpstream` | pkg/stream/stream.go:345-347 | the inputs' control channels are closed in turn, up to one that is closed, at which it panics |
| `Join.Handle` | pkg/stream/stream.go:339-354 | the body of the loop does what the chosen case calls for |
| `Join.Loop` | pkg/stream/stream.go:317-363 | whichever ready case Select returns, the loop ends, within the bound, and has those guarantees |
| `ProcessInfo.ArrayTaskCache.constructor` | pkg/sensor/process_info.go:71-73 | an empty cache |
| `ProcessInfo.ArrayTaskCache.LookupTask` | pkg/sensor/process_info.go:75-86 | hits exactly the pids inserted with a thread group id, and shows the entry in any case |
| `ProcessInfo.ArrayTaskCache.InsertTask` | pkg/sensor/process_info.go:88-91 | stores any task; one without a thread group id takes the pid out of the cache |
| `ProcessInfo.ArrayTaskCache.SetTask` | pkg/sensor/process_info.go:93-107 | changes a task that is there; for an absent pid no look-up can tell by hit or miss |
| `ProcessInfo.MapTaskCache.constructor` | pkg/sensor/process_info.go:114-118 | an empty cache |
| `ProcessInfo.MapTaskCache.LookupTask` | pkg/sensor/process_info.go:120-133 | hits exactly the inserted pids |
| `ProcessInfo.MapTaskCache.InsertTask` | pkg/sensor/process_info.go:135-142 | stores one task |
| `ProcessInfo.MapTaskCache.SetTask` | pkg/sensor/process_info.go:144-178 | changes a task that is there, and nothing otherwise |
| `ProcessInfo.RunBoth` | pkg/sensor/process_info.go:75-178 | after the same operations the array's entry is the map's task wherever the map has one, and has zero numbers elsewhere |
| `ProcessInfo.CachedExactly` | pkg/sensor/process_info.go:135-142 | after any operations a pid is cached by the map if and only if it was inserted |
| `ProcessInfo.NumbersAreLast` | pkg/sensor/process_info.go:135-178 | its numbers, clone flags and command are those of the last insertion |
| `ProcessInfo.SettersAreLast` | pkg/sensor/process_info.go:144-178 | its container id, credentials and command line are those set or inserted last |
| `ProcessInfo.Lockstep` | pkg/sensor/process_info.go:75-178 | after any sequence of operations the two caches agree on hit or miss if and only if the task asked for, if there is one, has a thread group id; where the map hits they show the same task, and where it misses the same numbers |
| `ProcessInfo.MissesDiffer` | pkg/sensor/process_info.go:93-96 | except that a miss of the array shows what setters left there |
| `ProcessInfo.InsertKeepsAcyclic` | pkg/sensor/process_info.go:363-410 | an insertion keeps the parent graph acyclic if and only if the pid is not on its parent's chain |
| `ProcessInfo.DropKeepsAcyclic` | pkg/sensor/process_info.go:88-91 | a pid that drops out of the cache closes no cycle |
| `ProcessInfo.SetKeepsAcyclic` | pkg/sensor/process_info.go:93-107 | setters do not touch the graph |
| `ProcessInfo.PidReuseCloses` | pkg/sensor/process_info.go:407 | the reuse of a pid by a descendant's child makes a walk that never ends |
| `ProcessInfo.RunsStayAcyclic` | pkg/sensor/process_info.go:363-410 | in every run without such an insertion, every walk ends |
| `ProcessInfo.UnreferencedIsOffChains` | pkg/sensor/process_info.go:363-410 | a pid that no cached task has for a parent is on nobody else's chain |
| `ProcessInfo.AnswersStep` | pkg/sensor/process_info.go:264-297 | one step of either walk, at a miss, at an answer and on the way |
| `ProcessInfo.AnswersAsBefore` | pkg/sensor/process_info.go:264-297 | off the new pid's chain both answers stay as they were |
| `ProcessInfo.NewTaskAnswers` | pkg/sensor/process_info.go:363-410 | a new thread has its creator's process id, a new process its own; either has its parent's container; all whose chain does not pass the new pid answer as before |
| `ProcessInfo.ThreadBit` | pkg/sensor/process_info.go:363-410 | a task is a thread exactly if bit 16 of its clone flags is set |
| `ProcessInfo.TaskCache.LookupTask` | pkg/sensor/process_info.go:59-65 | either cache through the interface |
| `ProcessInfo.TaskCache.InsertTask` | pkg/sensor/process_info.go:59-65 | either cache through the interface |
| `ProcessInfo.ProcessInfoCache.LookupLeader` | pkg/sensor/process_info.go:264-284 | the walk ends, with the leader, found, or with what is shown of a pid that is not cached, which is reported as found exactly when its numbers are equal |
| `ProcessInfo.ProcessInfoCache.ProcessContainerId` | pkg/sensor/process_info.go:286-297 | the walk ends with the nearest container id up the chain, or with none |
| `ProcessInfo.ProcessInfoCache.DecodeNewTask` | pkg/sensor/process_info.go:363-410 | caches the new task with its parent's container; an acyclic graph stays so exactly when the child is not its parent's ancestor, or the array does not know the task |
| `ProcessInfo.WalksEnd` | pkg/sensor/process_info.go:264-297 | in a run without an insertion that closes a cycle, the walks from any pid end |
| `ProcessInfo.TasksHaveTgids` | pkg/sensor/process_info.go:88-142 | if every task inserted has a thread group id, so has every task cached |
| `ProcessInfo.MissingIsAbsent` | pkg/sensor/process_info.go:264-272 | a walk that finds no leader has come to a pid that is not cached |
| `ProcessInfo.Ask` | pkg/sensor/process_info.go:277-297 | ProcessId and ProcessContainerId, by either cache |
| `ProcessInfo.SameAnswers` | pkg/sensor/process_info.go:75-297 | after the same operations, every cached task having a thread group id, ProcessId and ProcessContainerId agree between the two caches for any pid from which the walks end |
| `Containers.Repeater.constructor` | pkg/sensor/container.go:193-209 | nothing is pending |
| `Containers.Repeater.TranslateContainerEvent` | pkg/sensor/container.go:77-191 | one report, as specified on values |
| `Containers.PendingTypes` | pkg/sensor/container.go:77-139 | pending events have the type of their table |
| `Containers.EmittedType` | pkg/sensor/container.go:77-191 | an event's type is that of the report's state |
| `Containers.CreationsArePaired` | pkg/sensor/container.go:82-105 | over any trace, half as many creations come out as were reported, rounded down, and one is pending exactly when the number is odd, whatever happens to other containers |
| `Containers.StartsArePaired` | pkg/sensor/container.go:107-139 | the same of starts |
| `Containers.EndsAreNotPaired` | pkg/sensor/container.go:141-167 | exits and removals come out one for one |
| `Containers.ReactsAlike` | pkg/sensor/container.go:77-191 | what a report does to a container depends only on what is pending for that container |
| `Containers.ContainersDoNotInterfere` | pkg/sensor/container.go:77-191 | in any trace, the events that come out for a container, in order, and what is pending for it, are those of a trace with its own reports only |
| `Containers.StartsCommute` | pkg/sensor/container.go:107-139 | two reports of a start make the same event in either order if and only if they do not contradict each other |
| `Containers.CreationsMerge` | pkg/sensor/container.go:82-105 | the event that two reports of a creation make, field by field, and that it has the longer configuration if and only if the second's is empty or no shorter |
| `Containers.StartsMerge` | pkg/sensor/container.go:107-139 | the event that two reports of a start make, field by field |
| `Containers.StopIsReported` | pkg/sensor/container.go:141-164 | the event that a stop makes, field by field, with its wait status taken apart |
| `Containers.RemovalIsReported` | pkg/sensor/container.go:166-191 | the event that a removal makes: nothing but the configurations |
| `Containers.ExitStatusExactly` | pkg/sensor/container.go:157-164 | any wait status is taken apart as Linux puts it together: seven bits of signal, of which none is an exit and all are a stop, a core dump flag, and eight bits of status |
| `Containers.ExitStatusRoundTrip` | pkg/sensor/container.go:157-164 | every exit status, signal and core dump flag put into a wait status is taken out again |
| `Containers.ContainerFilter.constructor` | pkg/sensor/container.go:318-394 | what is configured, without empty strings |
| `Containers.ContainerFilter.AddContainerId` | pkg/sensor/container.go:347-354 | remembers an id unless it is empty |
| `Containers.ContainerFilter.FilterFunc` | pkg/sensor/container.go:396-437 | accepts a remembered id or a match by name, image id or glob, and remembers the id of a match |
| `Containers.ContainerFilter.DoFunc` | pkg/sensor/container.go:439-449 | forgets the id of a destroyed container |
| `Containers.ContainerFilter.Process` | pkg/sensor/sensor.go:523-531 | both, for one event |
| `Containers.MatchesExactly` | pkg/sensor/container.go:396-437 | an event matches by a configured name, image id or glob that is not empty, and by nothing else |
| `Containers.MemoryIsHistory` | pkg/sensor/container.go:396-449 | an id is remembered if and only if it was configured, or matched earlier, and not destroyed since |
| `Containers.FilterMeansHistory` | pkg/sensor/container.go:396-449 | so an event is accepted if and only if it matches by itself or its container is so remembered |
| `ContainerStream.ConvertedIsWellTyped` | pkg/sensor/container.go:30-39 | every value offered to an expression has the type its field is declared with |
| `ContainerStream.FieldsCanBeNamed` | pkg/sensor/container.go:30-39 | every declared field can be named in an expression, and has its type |
| `ContainerStream.FieldsOfEvents` | pkg/sensor/container.go:211-226 | an expression sees the event's own image id, image name and process id, and never a name |
| `ContainerStream.FieldsOfExits` | pkg/sensor/container.go:211-226 | and the exit code, status, signal and core dump flag of an exit, which are NULL for any other event |
| `ContainerStream.NameIsNeverThere` | pkg/sensor/container.go:211-226 | any comparison with the name is accepted and false of every event |
| `ContainerStream.CollectExprs` | pkg/sensor/container.go:234-249 | the loop joins the expressions and collects the views by type as specified |
| `ContainerStream.FiledAt` | pkg/sensor/container.go:234-249 | what is collected for a type is the disjunction of its expressions, and whether some filter asked for the full view |
| `ContainerStream.CheckExprs` | pkg/sensor/container.go:251-271 | exactly the types whose joined expression is invalid are dropped, in whatever order the map is ranged over |
| `ContainerStream.NewEventStream` | pkg/sensor/container.go:233-274 | both together, for any list of filters |
| `ContainerStream.FilterEvent` | pkg/sensor/container.go:281-311 | the stream's filter on one event, and the view it leaves of it |
| `ContainerStream.OrIsValidExactly` | pkg/sensor/container.go:252-268 | joined expressions are valid if and only if each is and, if there are several, each is boolean |
| `ContainerStream.OrEvaluates` | pkg/sensor/container.go:294-299 | joined expressions are true of an event if and only if a true one is reached before one fails, and fail if and only if one fails first |
| `ContainerStream.StreamAcceptsExactly` | pkg/sensor/container.go:233-311 | exactly which events a stream accepts, in terms of the filters as they were given |
| `ContainerStream.StreamOnlyWanted` | pkg/sensor/container.go:233-311 | it accepts nothing that no filter asked for |
| `ContainerStream.WantedExactly` | pkg/sensor/container.go:233-311 | some filter asks for an event exactly when one for its type has no expression or some valid expression is true of it |
| `ContainerStream.LostExactly` | pkg/sensor/container.go:233-311 | exactly which events that were asked for are lost |
| `ContainerStream.StreamMeansWanted` | pkg/sensor/container.go:233-311 | where all filters of a type have expressions, valid together, of which none fails on the event, the stream accepts it if and only if some filter asks for it |
| `ContainerStream.FailsExactly` | pkg/sensor/container.go:294-299 | a valid expression fails on an event exactly when it is not safe as far as evaluation gets |

## Left out

- `Validate.IdentifiersExactly`: leaves the Unicode tables of letters and digits open, and takes identifiers to be well-formed UTF-8, as protobuf has them.
- `KernelFilter.ReadsBack`: is about tokens; how `%q` and `%d` render strings and numbers as characters is not modelled.
- `Rewrite.FieldLikeMeans`: is about the expression put in; that "*" makes its evaluation panic is kept as the pattern matching nothing.
- `FilterSet.FullFilterIsAnyRequest`: network filters are filed without the kernel check; a print that cannot be read at all, as that of `x IS NULL AND y`, is not given a meaning.
- `FilterSet.ListingMeansAny`: is about expressions that evaluate; `ListingIsAny` is about all.
- `Registration.ProcessFilterMeansAny`: likewise, where `ProcessFilterIsAny` is about all filters.
- `Rewrite.RewriteProcessKeepsMeaning`: is about what Evaluate makes of the rewritten filter, which on the 64-bit exit code is a failure; `RewriteProcessReads` is about what the kernel makes of it.
- `ContainerStream.FilterEvent`: gives back a changed event; the original changes the one that all subscribers share, and takes types of event beyond the four that are ever made.
- What the kernel's `~` makes of stars inside a pattern, of question marks and of brackets: it is given the meaning that LIKE has.
- `Samples.RunMonitor`: a stream that is registered or unregistered during the run has its samples dispatched, or not, as `DispatchSortedSamples` says.
- `Samples.CallsAreTimely`: takes `sort.Sort` as giving some sorted permutation, so the order of samples with equal times is open.
- `RingBuffer.Buffer.Read`: assumes, as the kernel's side of the protocol, that the buffer is never completely full, and that the producer writes finitely many bytes during one read; 64-bit overflow of the two counters is not modelled.
- `Repeater.Looper.DataHandler`: every output is eventually ready; a consumer that stops reading blocks the original for ever.
- `Repeater.Step`: elements are never nil; in the original a nil element makes Select panic when there is an output.
- `ProcessInfo.ArrayTaskCache.InsertTask`: takes pids in the range of the array, outside of which the original panics.
- `ProcessInfo.ProcessInfoCache.LookupLeader`: the process id is given by the pair that it is the SHA-256 of.
- `Monitor.EventMonitor.Close`: leaves out stopping a running monitor and closing the group leaders.
- Doubles are reals with infinities and NaN, so that 0.0 and -0.0 are one value; nil timestamps and nil messages in places the code does not test are not modelled.
- Values on the evaluator's stack are values, not pointers into the tree.
- `expressionAsString`, the printer for people, which is not used for filters.
- 64-bit overflow of `nextEventID`; of an event's attribute, all but the tracepoint id and whether it is disabled.
- The twelve tables of `networkFilterSet` are one table by event type.
- Whether the monitor is running only decides between the copying and the in-place forms of its maps; the tables are updated by value in `Monitor`, and both forms are in `SafeMaps`.
- `safeEventAttrMap` is the same code as `safeUInt64Map`, and `safeSubscriptionMap.update` the same as its update; each is modelled once.
- `AddKprobe`, `RemoveKprobe`, enabling, disabling and `SetFilter`; polling, pipes, mmap, cgroups and the measuring of time offsets.
- Parsing of sample records and of tracepoint formats, and `DecodeSample`.
- Credentials, command lines and the runc rename in the process cache beyond the setters they call.
- Compiling globs: a filter is given the relation of matching, and a glob that does not compile is one that matches nothing.
- `DoFunc` runs in a goroutine of its own after `FilterFunc`; here the two run in turn for each event.
- `Join.Loop`: nil control channels, which panic when closed, are not modelled, nor for the joiner.
- Unknown control messages, which panic, and unknown container states.
- File and kprobe filters, tickers, chargen, telemetry, throttling and the service manager.
