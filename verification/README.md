# hgdb in Dafny

hgdb is a debugger for generated hardware. Its core is a set of small state machines and tree
transformations: it parses breakpoint conditions, schedules breakpoints, replays recorded waveforms
backwards and forwards, loads and compresses symbol tables, rewrites value change dumps, hands
control between threads, and watches signals. This project models those pieces, one group of files
per source file, and proves what users of the debugger rely on. `dafny verify dfyconfig.toml` checks
all of it.

| part | files | what is proved in the end |
|---|---|---|
| breakpoint expressions | `ExprSyntax`, `ExprGrammar`, `ExprNames`, `ExprCorrect`, `ExprActions`, `ExprRejected`, `ExprValues`, `ExprMachine`, `ExprPrint` | the grammar accepts exactly the C-like expressions, the actions leave exactly their tree although nothing is undone on backtracking, which rejected texts make them pop an empty stack, what each operator computes, evaluation is the denotation, printing and parsing round-trip |
| breakpoint scheduler | `SchedulerBatches`, `Scheduler` | nothing twice and what exactly is missed in a cycle, sessions with insertions, when reverse-continue is the mirror image of continue |
| replay | `ReplayVisits`, `ReplayEngine`, `PackedValues`, `PackedArrays`, `ArrayTable`, `ElementNames`, `ReplayReads`, `Extremes` | which change times are visited, what callbacks observe before and after a rewind, how names of array elements become a table, bit ranges and conversions |
| symbol tables | `ScopeReorder`, `ModuleResolution`, `InstanceTable`, `InstanceQueries`, `InstanceTree`, `Ancestors`, `SymbolTableCompress`, `VariablePool` | ordered and conserved scope trees, resolution of cyclic module graphs, ids and names, compression that keeps meaning |
| thread hand-off | `RuntimeLock` | every interleaving is an atomic binary semaphore without lost wakeups |
| value change dumps | `VcdText`, `VcdSections`, `VcdRoundTrip`, `VcdTree`, `VcdSignals`, `VcdRewriter`, `VcdConversion` | writing and reading round-trip (section 18.2 of IEEE Std 1364-2005), which dumps make the reader wait forever, remapping conserves signals, from the text of a dump to the text of the rewritten one |
| monitor and names | `MonitorRuns`, `Monitor`, `VariableOrder`, `Tokens`, `Text` | delay lines, change detection over shared cells, when the variable order is an order |

Objects that the source updates in place are classes here; recursive structures of such objects are
tables in which a position stands for an address, except for the scopes of `SymbolTableCompress` and
the modules of `ModuleResolution`, which are objects with references. Hash containers are visited in
an arbitrary order. Undefined behaviour and exceptions are outcomes of their own, or preconditions
where the source asks its callers to avoid them.

Some results describe limits of the code, each with the exact condition under which it shows. A
rejected expression makes the actions pop an empty stack when it breaks off inside a bracket that an
operator with a looser one in front of it was waiting for (`PopsEmptyStackExactly`). Continue and
reverse-continue are mirror images of each other, for normal breakpoints on distinct instances,
unless a batch is led by a breakpoint that is not the first with its condition at its location
(`MirrorsExactly`; `MixedConditionsDoNotMirror` is such a list). The order of variables is one
unless a word stands between two numbers that are in the wrong order for it (`OrdersExactly`); a
word such as `1a` does, `9a` does not (`MixedTokenExactly`). A replay misses a change exactly when
it visits the tick before (`MissedExactly`), and it visits what it should, whatever rewinds are
asked for, unless two changes are one tick apart (`AlwaysAsExpectedExactly`). Integer reads are
exact below 2^31 only (`ConvertExactly`). A dump with a time of 2^31 or more makes the reader throw (`ChangesParse`); a
header without any `$end` behind it, or a dump section without an `$end` that is not taken for the
identifier of a vector value, makes it wait forever (`MetaEndsExactly`, `ValuesEndExactly`). The
rewriter looks a variable up by the last word of its name, in the scope of its instance, where the
comment in its source speaks of descending: it finds the variable that is meant unless the name has
more words than one and there is something to find (`FindsWhatIsMeantExactly`; `FindsTheWrongOne` is
a design in which it moves the wrong signal). Dimensions that do not divide a bus leave some of its
bits to no element (`CoversExactly`). A rewind to a point lands one tick before it exactly when the
point is not 0; for point 0 the subtraction wraps to 2^64 - 1 (`TickBeforeExactly`). Inside the
callback that asked for it the client is told the right time even then, and the handles that have
fired keep their values; the others are read at 2^64 - 1.

## Model

| member | source | states |
|---|---|---|
| `ExprGrammar.NextToken` | src/eval.cc:31-57 | every token ends after it starts, so that the lexer reference used to describe the accepted language terminates |
| `ExprNames.NameExactly` | src/eval.cc:29-35 | the rule for variables takes exactly the dotted names whose words may have selects, a word, a bit or a slice each, and takes them as far as they go |
| `ExprNames.NameRaisesExactly` | src/eval.cc:33 | it throws if and only if such a name is followed by an open bracket that is not a select |
| `ExprNames.SelectExactly` | src/eval.cc:32-33 | a select is matched from bracket to bracket: a word, a number, or two numbers with a colon |
| `ExprNames.HexExactly` | src/eval.cc:28 | a hexadecimal number is a width, a quote with an h, and all hexadecimal digits that follow |
| `ExprNames.LettersAre` | src/eval.cc:29 | words start with a letter, an underscore or a dollar sign |
| `ExprNames.DigitsAre` | src/eval.cc:27-28 | numbers are of decimal digits, behind the quote of hexadecimal digits of either case |
| `ExprGrammar.Atom` | src/eval.cc:76-79 | the alternatives of a value stay inside the input and an accepted one moves forward, whatever the abandoned ones did |
| `ExprGrammar.Bracketed` | src/eval.cc:73-78 | a bracketed group stays inside the input and an accepted one moves forward |
| `ExprGrammar.Unary` | src/eval.cc:80-81 | the unary rule stays inside the input and an accepted one moves forward |
| `ExprGrammar.Binary` | src/eval.cc:82-99 | each of the nine binary levels stays inside the input and an accepted one moves forward |
| `ExprGrammar.Tail` | src/eval.cc:82-99 | the repetition of a binary level always accepts, possibly nothing, and never goes back |
| `ExprCorrect.OperatorToken` | src/eval.cc:40-71 | an operator a level takes with anything but an immediate failure behind it is the token the longest-match lexer sees, of that level and meaning, and no looser level matches at its place |
| `ExprCorrect.TailTakes` | src/eval.cc:40-71 | conversely, where the lexer sees an operator of a level, the rule of that level takes it whole and means it |
| `ExprCorrect.SoundBinary` | src/eval.cc:76-101 | whatever a binary level accepts is the token string of a well-formed left-associative tree of that level, and the actions fired, those of abandoned alternatives included, are exactly the actions of that tree |
| `ExprCorrect.SoundUnary` | src/eval.cc:79-81 | the same for the unary rule, although its first alternative may have parsed an operand and given up |
| `ExprCorrect.SoundBracketed` | src/eval.cc:73-78 | the same for brackets; a group that fails after its opening action never belongs to an accepted input |
| `ExprCorrect.CompleteBinary` | src/eval.cc:82-101 | conversely every well-formed tree of a level is taken by that level, up to its last token |
| `ExprCorrect.CompleteUnary` | src/eval.cc:79-81 | every unary operand in token form is taken by the unary rule |
| `ExprCorrect.CompleteBracketed` | src/eval.cc:73-78 | every bracketed tree is taken by the bracket rule with one opening and one closing action around its own |
| `ExprCorrect.AcceptsExactly` | src/eval.cc:76-103 | the grammar accepts an input if and only if its tokens are those of a well-formed tree of the C precedence grammar (section 6.5 of ISO/IEC 9899:2011, without shifts) |
| `ExprCorrect.FiresExactly` | src/eval.cc:206-352 | on such an input the parse consumes everything and the actions fired over the whole run are exactly the actions of the tree, in order |
| `ExprActions.StepClose` | src/eval.cc:185-192 | opening a group, leaving one expression in it and closing it pushes that expression on the stack below |
| `ExprActions.TreeIsPushed` | src/eval.cc:106-204 | running the actions of a tree on any stack of stacks leaves it with exactly that tree pushed on the top stack |
| `ExprActions.AcceptedLeavesTheTree` | src/eval.cc:354-377 | every accepted input leaves one stack with one expression, the abstract tree of its reading |
| `ExprActions.OneReading` | src/eval.cc:76-103 | an accepted input has one abstract tree only: two readings of the same tokens agree |
| `ExprValues.ArithmeticExactly` | src/eval.cc:387-392 | sum, difference and product are the 64-bit values congruent to the integer results, and no others |
| `ExprValues.SubtractionUndoes` | src/eval.cc:385-390 | subtraction undoes addition and the other way round; negation is subtraction from 0, undoes itself, and fixes 0 and the smallest value only |
| `ExprValues.DivisionTruncates` | src/eval.cc:393-396 | division and remainder satisfy a = b*q + m with |m| < |b| and m of the sign of a |
| `ExprValues.ComparisonsExactly` | src/eval.cc:397-422 | a < b is 1 exactly when something positive leads from a to b, a > b is b < a, equality is what is left, the other three are negations of these, and all are 0 otherwise |
| `ExprValues.LogicExactly` | src/eval.cc:401-410 | negation, conjunction and disjunction have the truth tables in which anything but 0 is true |
| `ExprValues.BitwiseExactly` | src/eval.cc:407-414 | each of the 64 bits of and, or and exclusive or comes from the two bits at its place |
| `ExprValues.BitsDetermine` | src/eval.cc:407-414 | and a 64-bit value is determined by its bits |
| `ExprValues.InvertFlips` | src/eval.cc:403-404 | the complement flips every bit and undoes itself |
| `ExprValues.ValuesFit` | src/eval.cc:379-425 | every value of an expression is one of int64_t |
| `ExprValues.LogicalOperators` | src/eval.cc:405-410 | conjunction and disjunction of expressions, undefined operands included: the right one is looked at only when the left one does not decide |
| `ExprValues.DefinedExactly` | src/eval.cc:379-425 | any other operator has a value exactly when both operands have one, except for division by 0 and of the smallest value by -1 |
| `ExprValues.LiteralsRead` | src/eval.cc:219-246 | decimal numerals, and hexadecimal ones of either case whatever their width, stand for their number, or for the largest value if it is larger |
| `ExprMachine.KeepsTrees` | src/eval.cc:433-448 | adding nodes or setting symbol values changes no tree that hangs off the pool |
| `ExprMachine.GraphIsTree` | src/eval.cc:379-425 | evaluating the pool, with its one shared node per symbol, gives the denotation of the unfolded tree |
| `ExprMachine.NamesOfTree` | src/eval.cc:209-217 | the symbols created while parsing are the names of the tree |
| `ExprMachine.DebugExpression.constructor` | src/eval.cc:354-377 | undefined exactly when the tokens of the text stop behind a waiting operator; otherwise there is a root if and only if the text is accepted, it denotes the tree of the text, and the symbols are the names pushed while parsing, for rejected texts too |
| `ExprMachine.DebugExpression.AddExpression` | src/eval.cc:433-437 | the new node is at the end of the pool and nothing else changes |
| `ExprMachine.DebugExpression.AddSymbol` | src/eval.cc:439-448 | a name used before returns its first node and changes nothing; a new name gets its own node |
| `ExprMachine.DebugExpression.SetStaticValues` | src/eval.cc:459-467 | exactly the used names among the given ones take their values and are recorded as static |
| `ExprMachine.DebugExpression.Eval` | src/eval.cc:450-457 | the result is the value of the tree under the supplied values, or of the value left before, for every tree the root denotes; undefined exactly when the denotation is |
| `ExprMachine.ParserState.PushOperator` | src/eval.cc:127-150 | the node built has the right operand on top and the left one below, and the pointers denote the abstract stacks after the action |
| `ExprMachine.ParserState.PushToken` | src/eval.cc:209-246 | literals and symbols are pushed as the tree leaf they stand for |
| `ExprMachine.ParserState.CloseGroup` | src/eval.cc:187-192 | the root of the group is pushed on the stack below |
| `ExprMachine.ParserState.Root` | src/eval.cc:154-161 | a root exists only when the top stack holds exactly one expression |
| `ExprMachine.ParserState.ActAll` | src/eval.cc:170-204 | the stack machine over pointers follows the abstract machine, and stops exactly where that one finds too few expressions |
| `ExprRejected.BinaryLevel` | src/eval.cc:82-101 | whatever a level does, accepted, given up, failed or ended by an exception, what it leaves on any stacks goes with the verdict of the token scan started there |
| `ExprRejected.GroupRun` | src/eval.cc:73-78 | the same for a bracketed group, which stays open on the stacks when it fails |
| `ExprRejected.TwiceFailed` | src/eval.cc:80 | a prefix operator tries a failing bracket twice and leaves it open twice |
| `ExprRejected.PopsEmptyStackExactly` | src/eval.cc:73-204 | for every text, accepted or not: the actions fired pop an empty stack if and only if the first token that cannot go on, or the end, comes inside a bracket in an operand of a binary operator with a looser operator in front of it in its group; otherwise all actions can be carried out |
| `ExprRejected.RejectedInputCanUnderflow` | src/eval.cc:73-99 | so the rejected text a+b*(c makes the addition pop an empty stack |
| `ExprPrint.ShowIsTree` | src/eval.cc:84-101 | bracketing by precedence gives a well-formed tree that stands for the printed one |
| `ExprPrint.ShowIsMinimal` | src/eval.cc:84-101 | no other well-formed reading of the same tree has fewer brackets |
| `ExprPrint.RenderLexes` | src/eval.cc:31-57 | the rendered text lexes into exactly its tokens |
| `ExprPrint.PrintThenParse` | src/eval.cc:84-103 | printing any tree with minimal brackets and parsing the text is accepted and leaves that tree |
| `Text.DecimalReads` | src/eval.cc:219-230 | a decimal numeral reads back as its number |
| `SchedulerBatches.ForwardReach` | src/scheduler.cc:571-594 | up to its last member a forward scan stays at the location of its leader and takes exactly the breakpoints that join |
| `SchedulerBatches.BatchExactly` | src/scheduler.cc:556-594 | a forward step hands out with a breakpoint exactly those behind it, up to the first at another line, column or file, that are not data breakpoints only, belong to another instance and have the same enable condition, and none unless it is a normal breakpoint only |
| `SchedulerBatches.ReverseBatchExactly` | src/scheduler.cc:566-600 | a reverse step hands out exactly the same kind of breakpoints in front of it, unless it is a data breakpoint |
| `SchedulerBatches.ReverseBatchDescends` | src/scheduler.cc:595-599 | from the back to the front |
| `SchedulerBatches.CycleAscends` | src/scheduler.cc:86-104 | over a whole forward cycle the positions handed out strictly ascend: nothing is handed out twice |
| `SchedulerBatches.CycleIsShort` | src/scheduler.cc:94-102 | a forward cycle has at most one batch per breakpoint |
| `SchedulerBatches.SingleThreadMissesNone` | src/scheduler.cc:106-113 | in single-thread mode a cycle hands out every breakpoint, alone, in list order |
| `SchedulerBatches.CycleMisses` | src/scheduler.cc:556-600 | a breakpoint is missed by a cycle if and only if it lies strictly inside a batch, at its leader’s location, with the leader’s instance, another enable condition or data type |
| `SchedulerBatches.BatchMisses` | src/scheduler.cc:571-594 | the same, both directions, for one batch |
| `SchedulerBatches.WholeIsOneBatch` | src/scheduler.cc:556-600 | on regular lists a maximal run at one location is one batch in both directions |
| `SchedulerBatches.ReverseUndoesForward` | src/scheduler.cc:159-219 | in single-thread mode and on regular lists a reverse sweep is the mirror image of a forward cycle |
| `SchedulerBatches.MirrorsBatchByBatch` | src/scheduler.cc:77-219 | on any list the reverse sweep is the mirrored cycle if and only if one reverse step from the last member of each batch hands out that batch |
| `SchedulerBatches.TakenBackExactly` | src/scheduler.cc:556-600 | for normal breakpoints with distinct instances per run, one reverse step takes a batch back if and only if no earlier breakpoint of the run has the condition of its leader |
| `SchedulerBatches.MirrorsExactly` | src/scheduler.cc:77-219 | so the reverse sweep is the mirrored cycle if and only if every leader of the cycle is the first with its condition in its run |
| `SchedulerBatches.MixedConditionsDoNotMirror` | src/scheduler.cc:583-587 | a list that misses that condition: the conditions a, b, a, b at one location, where continue gives 0,2 then 3, and reverse-continue 3,1 then 0 |
| `Scheduler.ReverseContinueMirrorsContinue` | src/scheduler.cc:159-219 | reverse-continue hands out the very objects of continue, batches and members in reverse order, if and only if in single-thread mode or each leader is the first with its condition in its run |
| `Scheduler.Scheduler.NextNormal` | src/scheduler.cc:77-122 | hands out the batch after the last evaluated breakpoint, all of it unevaluated before, sets the flags on exactly that batch, and makes its first member current; nothing when the end was reached |
| `Scheduler.Scheduler.ForwardBatch` | src/scheduler.cc:591-594 | the objects collected are those of the batch |
| `Scheduler.Scheduler.BackwardBatch` | src/scheduler.cc:595-599 | the objects collected are those of the reverse batch |
| `Scheduler.Scheduler.NextReverse` | src/scheduler.cc:159-219 | asks for a rewind exactly when the current breakpoint is the first one; starts from the last breakpoint after a rewind or without a current one, from the first one when the rewind is refused, and otherwise from the one right in front of the last with the current id |
| `Scheduler.Scheduler.RunCycle` | src/scheduler.cc:77-122 | continuing until nothing is left gives the batches of the cycle in at most one call per breakpoint |
| `Scheduler.Scheduler.RunReverse` | src/scheduler.cc:159-219 | reverse-continuing from the end of a cycle, or from its first breakpoint over a rewind, gives the reverse batches down to the first breakpoint; a rewind is asked for in the second case only, and once |
| `Scheduler.Scheduler.RunBack` | src/scheduler.cc:159-219 | going back over any number of rewinds repeats the same sweep and asks once for each |
| `Scheduler.Scheduler.StartEvaluation` | src/scheduler.cc:300-306 | of every inserted id the first entry goes, and the id with it, exactly if it is an evaluated assertion and nothing else; an evaluated assertion of more kinds stays and loses this bit of its type; all others stay as they are, in order; every flag and the current id are cleared |
| `Scheduler.Scheduler.RemoveEvaluatedAssertion` | src/scheduler.cc:221-292 | the first entry with the id is removed with the id if it is an evaluated assertion only, loses the assertion bit if it is one of more kinds, and nothing changes otherwise |
| `Scheduler.SettledOneMore` | src/scheduler.cc:258-292 | settling one id after another comes to settling all of them, whatever the order of the ids |
| `Scheduler.SettledBehind` | src/scheduler.cc:258-281 | settling one id is what happens to its first entry, and to no other |
| `Scheduler.SettledExactly` | src/scheduler.cc:258-292 | that entry stays unless it is an evaluated assertion; then it goes, or loses this bit of its type if it has another |
| `Scheduler.Scheduler.SetEvaluationMode` | src/scheduler.cc:308-313 | clears the flags exactly when the mode changes |
| `Scheduler.Scheduler.AddBreakpoint` | src/scheduler.cc:355-426 | an id not inserted gets one unevaluated entry per namespace behind the old ones; for an inserted id nothing is added, and its first entry alone takes the new condition and becomes a normal breakpoint, whatever else it is |
| `Scheduler.Scheduler.ReorderBreakpoints` | src/scheduler.cc:506-516 | the same breakpoints in execution order |
| `Scheduler.Scheduler.BatchRanks` | src/scheduler.cc:506-516 | in a sorted list a batch is in execution order and ranks no lower than anything evaluated |
| `Scheduler.Scheduler.Session` | src/scheduler.cc:77-122 | whatever is inserted and reordered between the calls of one cycle, no breakpoint object is handed out twice and the rank handed out never goes down |
| `ReplayVisits.ExpectedIsSorted` | tools/hgdb-replay/engine.cc:79-86 | the expected visits without rewinds are all change times after the start, once each, ascending |
| `ReplayVisits.VisitsAsExpected` | tools/hgdb-replay/engine.cc:78-138 | with any rewinds: the replay visits exactly the expected times if and only if it never leaves a time forward whose next tick has a change |
| `ReplayVisits.SpacedVisitsAsExpected` | tools/hgdb-replay/engine.cc:78-138 | for change times at least 2 apart the replay visits exactly the expected times, whatever rewinds happen |
| `ReplayVisits.AlwaysAsExpectedExactly` | tools/hgdb-replay/engine.cc:78-138 | once there is a change to visit at all, the replay visits exactly the expected times whatever its clients ask for if and only if no two changes after time 0 are one tick apart |
| `ReplayVisits.MissedExactly` | tools/hgdb-replay/engine.cc:131-136 | a run without rewinds visits changes after its start only, and misses one exactly when it visits the tick before it |
| `ReplayVisits.VisitsAllIffSpaced` | tools/hgdb-replay/engine.cc:131-136 | a run without rewinds visits every change after its start if and only if no two of them are one tick apart |
| `ReplayVisits.NeighbourIsMissed` | tools/hgdb-replay/engine.cc:131-136 | of changes at 5, 6 and 7 a run visits 5 and 7 |
| `ReplayVisits.ForwardRunSplits` | tools/hgdb-replay/engine.cc:57-76 | what a rewind to p visits again is the part of a forward run that follows p |
| `ReplayVisits.MovedIsFirst` | tools/hgdb-replay/engine.cc:103-122 | of the points asked for within one visit the first that is another time counts |
| `ReplayVisits.Next` | tools/hgdb-replay/vcd_db.cc:158-167 | the earliest change after the base time, none if there is none |
| `ReplayEngine.LastOneBefore` | tools/hgdb-replay/vcd_db.cc:169-180 | the latest change to 1 before the given time, none if there is none |
| `ReplayEngine.ValueAt` | tools/hgdb-replay/vcd_db.cc:117-129 | the value recorded by the latest change at or before the time, none exactly if there is no such change |
| `ReplayEngine.ToInt32` | tools/hgdb-replay/vpi.cc:73-101 | values in the 32-bit range are unchanged, others become the congruent value modulo 2^32 in it |
| `ReplayEngine.EmulationEngine.ReadFits` | tools/hgdb-replay/vpi.cc:73-118 | what a signal or an array element reads as an integer passes through the 32-bit override unchanged |
| `ReplayEngine.ReplayVpi.AddOverriddenValue` | tools/hgdb-replay/engine.cc:112 | an override set before stays |
| `ReplayEngine.EmulationEngine.OnCallbackAdded` | tools/hgdb-replay/engine.cc:43-48 | a handle of a signal, an instance or an iterator is watched with no stored value, once; handles of array elements are not valid and are not watched |
| `ReplayEngine.EmulationEngine.NextChange` | tools/hgdb-replay/engine.cc:145-158 | the earliest change of any watched signal after the time stamp |
| `ReplayEngine.EmulationEngine.LatestPosedge` | tools/hgdb-replay/engine.cc:57-72 | the result is a change of one of the clocks to 1 before the requested time, no such change is later, and there is none only if no clock has one |
| `ReplayEngine.EmulationEngine.OnRewound` | tools/hgdb-replay/engine.cc:57-76 | moves to one tick before the latest positive edge, in unsigned arithmetic, and refuses when there is none |
| `ReplayEngine.EmulationEngine.ChangedValues` | tools/hgdb-replay/engine.cc:89-100 | a watched handle is in the result, with its value at the current time, exactly when it differs from its stored one |
| `ReplayEngine.EmulationEngine.FireOne` | tools/hgdb-replay/engine.cc:57-115 | inside a callback at visited time T the client reads T, the value at T of every handle fired so far, and the value at T-1 of all others; if it goes back to a point p and reads again, it reads p as the time, still the value at T of those handles, and, for p above 0, the value at p-1 of all others |
| `ReplayEngine.EmulationEngine.TickBeforeExactly` | tools/hgdb-replay/engine.cc:73-74 | a rewind lands one tick before its point if and only if the point is above 0, and at 2^64 - 1 for point 0 |
| `ReplayEngine.EmulationEngine.ShowsThere` | tools/hgdb-replay/vpi.cc:318-324 | in a callback that runs one tick before a point, in unsigned arithmetic, the client is told that point as the time, point 0 included; overrides show, and above 0 all else is as one tick before the point |
| `ReplayReads.ClientReads` | tools/hgdb-replay/engine.cc:57-115 | so at a visited time a fired handle shows the value its signal changed to then, and a handle not yet fired that of the latest change before |
| `ReplayReads.ClientReadsBack` | tools/hgdb-replay/engine.cc:57-115 | and after going back to a point above 0, a handle that has not fired shows the latest change before that point, while fired ones keep showing the visited time |
| `ReplayReads.BitsRead` | tools/hgdb-replay/vpi.cc:16-30 | a recorded number below 2^31 is read as that number, nothing recorded as 0 |
| `ReplayReads.ElementReads` | tools/hgdb-replay/vpi.cc:120-134 | an element of an array is read as its bits of the number recorded for the bus |
| `ReplayEngine.EmulationEngine.FireCallbacks` | tools/hgdb-replay/engine.cc:103-122 | callbacks fire one by one, each handle joining those fired before, each seeing faithfully, all of them unless one of the callbacks moves the time; no override survives |
| `ReplayEngine.EmulationEngine.OneVisit` | tools/hgdb-replay/engine.cc:86-136 | after a visit the replay goes on one tick after the visited time, or at the first point other than it that a callback asked to rewind to |
| `ReplayEngine.EmulationEngine.EmulationLoop` | tools/hgdb-replay/engine.cc:78-138 | the times visited by the loop are those of the visit function for whatever each callback of each visit asks for, every visit is observed, and every observation is faithful, before and after a rewind inside its callback |
| `PackedValues.ConvertValue` | tools/hgdb-replay/vpi.cc:16-30 | the loop computes the conversion function: undefined where the shift is, 0 on x or z before that |
| `PackedValues.BinaryStandsFor` | tools/hgdb-replay/vpi.cc:16-30 | every number is the number of a bit string |
| `PackedValues.ConvertExactly` | tools/hgdb-replay/vpi.cc:16-30 | conversion to an integer is exact if and only if the recorded number is below 2^31 |
| `PackedValues.ConvertedRest` | tools/hgdb-replay/vpi.cc:16-30 | below 2^31 the bits read so far and those still to come add up to the number; from 2^31 on the result is too small or undefined |
| `PackedValues.UnknownExactly` | tools/hgdb-replay/vpi.cc:16-30 | a value with an x or z is read as 0, unless a one too far up to be shifted there comes before the first of these |
| `PackedValues.ConvertStrValue` | tools/hgdb-replay/vpi.cc:32-71 | the loop with its buffer of four computes the hexadecimal text of the groups |
| `PackedValues.HexKeepsValue` | tools/hgdb-replay/vpi.cc:32-71 | at any length the hexadecimal text denotes the recorded number |
| `PackedValues.NibbleShowsUnknown` | tools/hgdb-replay/vpi.cc:38-50 | a digit is x, or z, exactly when all bits of its group are, X exactly when some but not all are x, Z exactly when some but not all are z and none is x, and a hexadecimal digit exactly when all are 0 or 1 |
| `PackedArrays.SelectWithin` | tools/hgdb-replay/vpi.cc:596-612 | the range of an element lies within its array, whether or not the dimensions divide the bus |
| `PackedArrays.SelectDisjoint` | tools/hgdb-replay/vpi.cc:596-612 | different index vectors select disjoint ranges, whatever the dimensions |
| `PackedArrays.SelectOrdered` | tools/hgdb-replay/vpi.cc:596-612 | elements lie on the bus in the order of their indices, the outer ones first |
| `PackedArrays.SelectSize` | tools/hgdb-replay/vpi.cc:596-612 | every element has the width of the bus divided by the number of elements, rounded down, as its width |
| `PackedArrays.SelectCovers` | tools/hgdb-replay/vpi.cc:596-612 | when the dimensions divide the bus, every bit lies in the range of an element that is computed from the bit |
| `PackedArrays.CoversExactly` | tools/hgdb-replay/vpi.cc:596-612 | the ranges of the elements cover the bus if and only if each dimension divides what the outer ones leave |
| `PackedArrays.ExtractDenotes` | tools/hgdb-replay/vpi.cc:120-134 | the substring read denotes floor(v / 2^lo) mod 2^(hi-lo), also when leading zeros were dropped |
| `PackedArrays.ArrayRange` | tools/hgdb-replay/vpi.cc:588-622 | walking down any table in which the element can be looked up gives the bits selected by the sizes of the arrays on the way, and nothing when a handle behind the first array is missing |
| `PackedArrays.RectangularWalk` | tools/hgdb-replay/vpi.cc:588-612 | in a full rectangular table every element is found, nothing is missing, and the sizes met are the dimensions |
| `PackedArrays.RangesApart` | tools/hgdb-replay/vpi.cc:588-612 | there, different elements have disjoint ranges on the bus |
| `PackedArrays.RangesCover` | tools/hgdb-replay/vpi.cc:588-612 | and every bit of the bus is in the range of an element if and only if the dimensions divide it |
| `ArrayTable.FollowGrown` | tools/hgdb-replay/vpi.cc:541-555 | a new element handle opens exactly one path in the table and leaves every other path as it is |
| `ArrayTable.MissingExactly` | tools/hgdb-replay/vpi.cc:588-612 | on a walk that stays within the arrays a handle is missing exactly when the path leads nowhere |
| `ArrayTable.SizesExactly` | tools/hgdb-replay/vpi.cc:596-612 | and the sizes met are those of the arrays the path leads to, step by step |
| `ArrayTable.FullNamePlace` | tools/hgdb-replay/vpi.cc:487-498 | the reconstructed full name of an element stands for the same bus and indices as the name it came from |
| `ElementNames.SpellingsStandForPlace` | tools/hgdb-replay/vpi.cc:487-535 | the name of an element, with its indices in brackets or behind dots, stands for the bus and the numbers, is among the names of interest, and has the spelling with brackets as its full name |
| `ElementNames.PlainIsNot` | tools/hgdb-replay/vpi.cc:500-508 | a name without words that start with digits is not of interest |
| `ArrayTable.ReplayVpiProvider.HandleByName` | tools/hgdb-replay/vpi.cc:203-227 | a known name gets a handle of its own once and keeps it |
| `ArrayTable.ReplayVpiProvider.FillOut` | tools/hgdb-replay/vpi.cc:539-556 | exactly the path of the indices and its prefixes are added below the bus, and the path leads to the handle returned |
| `ArrayTable.ReplayVpiProvider.AddElement` | tools/hgdb-replay/vpi.cc:519-561 | exactly the place of the name is added to the recorded elements, found under its full name; whatever was recorded stays |
| `ArrayTable.ReplayVpiProvider.BuildArrayTable` | tools/hgdb-replay/vpi.cc:500-562 | unless an index does not fit, the table records exactly the elements the names stand for, each found under its full name with its bus and indices, whatever the order of the names |
| `ArrayTable.ReplayVpiProvider.FullNamesGiveRectangles` | tools/hgdb-replay/vpi.cc:500-562 | a bus all of whose elements within some dimensions were named, and no others, has a full rectangular table of these dimensions whose handles carry their index vectors |
| `ArrayTable.ReplayVpiProvider.NamedElementsApart` | tools/hgdb-replay/vpi.cc:500-612 | so the named elements of such a bus have disjoint bits on it |
| `ArrayTable.ReplayVpiProvider.NamedElementsTile` | tools/hgdb-replay/vpi.cc:500-612 | and every bit of it belongs to a named element if and only if the dimensions divide it |
| `ScopeReorder.SortBlockSorts` | src/db.cc:930-942 | the three stable sorts order a block by line, column and type and keep its entries |
| `ScopeReorder.SortKeepsTied` | src/db.cc:930-942 | entries that tie in all three keys keep their order |
| `ScopeReorder.TypesInOrder` | src/db.cc:414 | at one line and column come generic entries, declarations, blocks, assignments and modules, in this order |
| `ScopeReorder.SortedUnique` | src/db.cc:930-942 | a sorted list is determined by its ties, so sorting again moves nothing |
| `ScopeReorder.MergeIsFinal` | src/db.cc:945-982 | after merging no two neighbours are both declarations, or both assignments without indices, with the same line, column and condition |
| `ScopeReorder.RunBecomesOne` | src/db.cc:945-992 | a run of such entries becomes its first one, with the variables of all in order |
| `ScopeReorder.MergesApart` | src/db.cc:945-982 | and where two neighbours are not such entries, both sides are merged on their own |
| `ScopeReorder.MergeKeepsOrder` | src/db.cc:945-982 | merging keeps a block sorted |
| `ScopeReorder.ReorderOrders` | src/db.cc:914-999 | afterwards every block is sorted by line, column and type, starts at the line of its first entry, and has nothing left to merge |
| `ScopeReorder.ReorderIsIdempotent` | src/db.cc:1001-1007 | reordering a reordered tree changes nothing, object identities included, which is what a second root relies on |
| `ScopeReorder.OrderedIsFixed` | src/db.cc:914-999 | an ordered tree is left as it is |
| `ScopeReorder.ReorderKeepsOccurrences` | src/db.cc:914-999 | every statement and every variable of a declaration or assignment occurs as often as before, with its line, column, condition and indices |
| `ScopeReorder.BlockEntry.TakeOver` | src/db.cc:949-974 | the inner cursor hands the entries of one statement over to the first and empties their places |
| `ScopeReorder.BlockEntry.MergeVar` | src/db.cc:945-982 | the two cursors and the clean-up leave exactly the merged block |
| `ScopeReorder.BlockEntry.HandleAfter` | src/db.cc:914-926 | on a block with ordered children the visitor leaves the line and entries of the reordered block |
| `ModuleResolution.Resolve` | src/db.cc:1883-1902 | ends on every module graph; an error means a missing module is reachable, and without one the module and all it links to are done |
| `ModuleResolution.Link` | src/db.cc:1888-1896 | links exactly the declared instances, or reports a name without a module |
| `ModuleResolution.DoneWithin` | src/db.cc:1883-1902 | everything reachable from a done module is done |
| `ModuleResolution.WithinOfChild` | src/db.cc:1883-1902 | what a child reaches, its parent reaches |
| `ModuleResolution.ResolveRoots` | src/db.cc:1904-1919 | loading goes on if and only if no root reaches a missing module, and then every reachable module has its declared instances linked and no name unresolved |
| `InstanceTable.StageNext` | src/db.cc:909-911 | building one child completes its tree and leaves the others as they were |
| `InstanceTree.Design.MakeChildren` | src/db.cc:900-907 | one instance per declared name, in order |
| `InstanceTree.Design.BuildInstanceTree` | src/db.cc:897-912 | builds the declared tree below an instance, in whatever order the children are visited; all final ids differ |
| `InstanceTree.Design.VisitScope` | src/db.cc:1032-1050 | the statements of a scope that have a line get the next ids in the order of the scope |
| `InstanceQueries.BreakpointsAre` | src/db.cc:1032-1050 | these are exactly the statements with a line, in whatever blocks inside |
| `InstanceQueries.BreakpointsSplit` | src/db.cc:1032-1050 | and those of one part of a scope come before those of the next |
| `InstanceTree.Design.BuildBpIds` | src/db.cc:1052-1070 | the instances below one own the ids from start to end, each id exactly one, each instance its scope in order without a gap |
| `InstanceTree.Design.ParseDb` | src/db.cc:1904-1929 | over all roots the instance ids differ and the breakpoint ids below num_bps are partitioned among the instances |
| `InstanceTree.Design.FindById` | src/db.cc:1290-1302 | finds an instance with the id if there is one below |
| `InstanceTree.Design.DottedName` | src/db.cc:1311-1320 | walking up the parents gives the dotted path |
| `InstanceTree.Design.GetInstanceName` | src/db.cc:1306-1325 | none exactly when no instance has the id; otherwise the dotted path of that instance |
| `InstanceTree.Design.GetInstanceId` | src/db.cc:1369-1391 | the id of the instance the path leads to; none if there is no such instance |
| `InstanceTree.Design.NameAndBack` | src/db.cc:1306-1391 | get_instance_id undoes get_instance_name on every id in use |
| `InstanceTree.NameAndIdRoundTrip` | src/db.cc:1369-1391 | a dotted name splits into the path of its instance, and no other instance has that path |
| `InstanceQueries.PathIsUnique` | src/db.cc:1369-1391 | two instances with one path are the same |
| `InstanceQueries.PathGoesOn` | src/db.cc:1374-1385 | on the way to an instance each ancestor lists the next name |
| `InstanceQueries.OwnedJoin` | src/db.cc:1052-1070 | areas that own adjoining ranges of ids together own the whole range |
| `Ancestors.SiblingsApart` | src/db.cc:909-911 | subtrees of different children, or of different roots, have nothing in common |
| `Tokens.GetTokens` | src/util.cc:4-23 | the loop returns the longest runs of non-delimiters |
| `Tokens.TokensAreWords` | src/util.cc:10-22 | no token is empty or holds a delimiter |
| `Tokens.SplitOfJoin` | src/util.cc:4-23 | splitting words joined by a delimiter gives the words back |
| `RuntimeLock.StepKeepsMutex` | src/thread.cc:5-19 | at most one thread is inside the mutex, in every interleaving |
| `RuntimeLock.StepKeepsWakeups` | src/thread.cc:5-19 | the waiter never sleeps on a set flag unless some signaller still has its notification to do, despite the unlocked test |
| `RuntimeLock.StepKeepsLog` | src/thread.cc:5-19 | every completed call, and every call past its effect, stands for one semaphore operation that explains the flag |
| `RuntimeLock.TakesMatchRaises` | src/thread.cc:5-9 | every take uses up one raising of the flag |
| `RuntimeLock.EveryRunIsASemaphore` | src/thread.cc:5-19 | every run of one waiter and any number of signallers is explained by a legal history of an atomic binary semaphore |
| `RuntimeLock.WaitCanFinish` | src/thread.cc:5-9 | with the flag set, a wait that has begun can finish by the steps under way alone |
| `SymbolTableCompress.Scope.CreateScope` | include/json.hh:134-138 | a new scope points to its parent and is listed once, so the scopes stay a tree |
| `SymbolTableCompress.GetFilename` | include/json.hh:177-183 | the own file name if there is one, else that of the parent |
| `SymbolTableCompress.Handle` | include/json.hh:404-415 | one scope loses its file name exactly when its parent, not a module, already implies it |
| `SymbolTableCompress.Visit` | include/json.hh:330-345 | children first: everything below a scope is cleared by the names before the pass, and nothing else changes |
| `SymbolTableCompress.CompressFilename` | include/json.hh:551-556 | the pass over all modules clears exactly the implied names |
| `SymbolTableCompress.ClearingKeepsNames` | include/json.hh:404-415 | the effective file name of every scope is unchanged |
| `SymbolTableCompress.ClearingIsCompression` | include/json.hh:397-416 | every effective name stays and no scope below the top level keeps a name its parent implies |
| `VariablePool.CountVars` | include/json.hh:349-365 | counts each variable of a scope, ids aside |
| `VariablePool.BuildPool` | include/json.hh:532-542 | exactly the variables that occur more than once get an entry, numbered by position, no two alike |
| `VariablePool.AssignVars` | include/json.hh:367-389 | each pooled variable is replaced by its id, the others stay |
| `VariablePool.LookupIsPosition` | src/db.cc:751-762 | the reader finds a pooled variable under its id |
| `VariablePool.Pool.CompressVar` | include/json.hh:526-549 | every slot reads back as its original variable, and a variable is pooled if and only if it occurs more than once |
| `VcdText.VCDParser.NextToken` | tools/vcd/vcd.cc:21-40 | the loop gives out the next token of the text, the spurious one at its end included |
| `VcdText.VCDParser.ParseMeta` | tools/vcd/vcd.cc:149-163 | collects the words up to $end, or never ends |
| `VcdText.VCDParser.ParseScopeDef` | tools/vcd/vcd.cc:165-180 | reports the scope if and only if $end follows its name |
| `VcdText.VCDParser.ParseVarDef` | tools/vcd/vcd.cc:182-208 | reports the variable with or without a slice, rejects a missing $end, and throws on a width that is no number |
| `VcdText.VCDParser.Parse` | tools/vcd/vcd.cc:44-110 | the callbacks fired and the outcome are those of the grammar on the token list |
| `VcdText.VCDParser.ParseVcdValues` | tools/vcd/vcd.cc:210-265 | the same for the change section, with its running time stamp |
| `VcdText.VCDParser.ParseDumpValues` | tools/vcd/vcd.cc:243-260 | the same for a dump section, which never ends without $end |
| `VcdText.NumbersRead` | tools/vcd/vcd.cc:170-230 | a token that starts with a number, signed or not, is read as that number |
| `VcdText.NumbersKept` | tools/vcd/vcd.cc:170-230 | widths are accepted below 2^64 either way and kept modulo 2^32, times below 2^31 and kept modulo 2^64 |
| `VcdSections.SectionReports` | tools/vcd/vcd.cc:243-260 | a dump section reports its command and then its value changes as they were written, identifiers, values and kinds, at the running time |
| `VcdSections.OthersInSection` | tools/vcd/vcd.cc:243-260 | everything else in a section is passed over, times included |
| `VcdSections.ValuesOutside` | tools/vcd/vcd.cc:222-237 | outside of a section the same tokens report the same changes |
| `VcdSections.HeaderKeywords` | tools/vcd/vcd.cc:44-90 | the four headers by their keywords |
| `VcdSections.MetaEndsExactly` | tools/vcd/vcd.cc:149-163 | a header or comment is read forever if and only if no $end follows at all, and otherwise up to the first one |
| `VcdSections.ValuesEndExactly` | tools/vcd/vcd.cc:210-265 | reading changes throws if and only if a time outside of dump sections does not fit, and otherwise never ends if and only if some dump section was opened with no $end read after it, where a token behind a vector value is not read |
| `VcdSections.SwallowedEnd` | tools/vcd/vcd.cc:251-257 | so an $end that a vector value takes for its identifier closes nothing |
| `VcdRoundTrip.ReadsWords` | tools/vcd/vcd.cc:21-40 | a text that ends in white space reads as its words and one spurious token |
| `VcdRoundTrip.ScopeReads` | tools/hgdb-rewrite-vcd/hgdb-rewrite-vcd.cc:278-298 | the text of a scope tree reads as its tokens |
| `VcdRoundTrip.ScopeParses` | tools/vcd/vcd.cc:165-208 | the tokens of a scope tree parse into its callbacks, variables before child scopes |
| `VcdRoundTrip.ChangesParse` | tools/vcd/vcd.cc:210-241 | a change section reads back as written if and only if every time is below 2^31; otherwise the parser throws |
| `VcdRoundTrip.WrittenFileReadsBack` | tools/hgdb-rewrite-vcd/hgdb-rewrite-vcd.cc:278-326 | a written file parses well if and only if its times are below 2^31, and then reports its tree and its changes |
| `VcdTree.RootHeard` | tools/hgdb-rewrite-vcd/hgdb-rewrite-vcd.cc:119-138 | the callbacks put the tree together again, with no scope left open |
| `VcdTree.ScopeHeard` | tools/hgdb-rewrite-vcd/hgdb-rewrite-vcd.cc:119-138 | a scope tree becomes one new child of the scope being read, and nothing else changes |
| `VcdTree.TreeRoundTrip` | tools/hgdb-rewrite-vcd/hgdb-rewrite-vcd.cc:278-326 | writing any single-root tree and any changes with times below 2^31, then parsing and rebuilding, gives the same tree and the same events |
| `VcdSignals.TotalChanges` | tools/hgdb-rewrite-vcd/hgdb-rewrite-vcd.cc:249-276 | a change of the variables of one scope changes the signals below exactly that scope and its ancestors |
| `VcdSignals.ScopeAddsNothing` | tools/hgdb-rewrite-vcd/hgdb-rewrite-vcd.cc:262-271 | a new scope changes no signal anywhere |
| `VcdSignals.VarIsAdded` | tools/hgdb-rewrite-vcd/hgdb-rewrite-vcd.cc:273-275 | inserting a renamed variable adds its signal once |
| `VcdSignals.VarIsRemoved` | tools/hgdb-rewrite-vcd/hgdb-rewrite-vcd.cc:197-198 | emptying a place removes its signal once |
| `VcdSignals.ReadingIsShaped` | tools/hgdb-rewrite-vcd/hgdb-rewrite-vcd.cc:119-138 | whatever definitions are read, the scopes form a tree |
| `VcdRewriter.VCDReWriter.OnScopeDef` | tools/hgdb-rewrite-vcd/hgdb-rewrite-vcd.cc:119-130 | the scope becomes the root or the last child of the scope being read |
| `VcdRewriter.VCDReWriter.OnVarDef` | tools/hgdb-rewrite-vcd/hgdb-rewrite-vcd.cc:132-138 | the variable goes to the scope being read |
| `VcdRewriter.VCDReWriter.OnExitScope` | tools/hgdb-rewrite-vcd/hgdb-rewrite-vcd.cc:63 | the scope being read is closed |
| `VcdRewriter.VCDReWriter.GetScope` | tools/hgdb-rewrite-vcd/hgdb-rewrite-vcd.cc:206-224 | the scope the names after the first lead to, first match first |
| `VcdRewriter.FindsWhereNamesLead` | tools/hgdb-rewrite-vcd/hgdb-rewrite-vcd.cc:206-224 | what is found lies where the names lead |
| `VcdRewriter.FindsTheInstance` | tools/hgdb-rewrite-vcd/hgdb-rewrite-vcd.cc:206-224 | without scopes of one name side by side, the scope of an instance is found by its path below the design root |
| `VcdRewriter.VCDReWriter.GetVar` | tools/hgdb-rewrite-vcd/hgdb-rewrite-vcd.cc:226-247 | the first variable of the given scope itself that has the last word of the name; child scopes are never searched |
| `VcdRewriter.FoundExactly` | tools/hgdb-rewrite-vcd/hgdb-rewrite-vcd.cc:240-246 | that is, the first place whose variable has that name and is still listed |
| `VcdRewriter.FindsWhatIsMeantExactly` | tools/hgdb-rewrite-vcd/hgdb-rewrite-vcd.cc:226-247 | what is found is the variable with the last word in the scope the other words lead to if and only if the name has one word, or there is nothing to find in either place |
| `VcdRewriter.FindsTheWrongOne` | tools/hgdb-rewrite-vcd/hgdb-rewrite-vcd.cc:226-247 | asked for b.c from a scope with a variable c of its own and a child b with another c, the first one is found |
| `VcdRewriter.VCDReWriter.EnterOrMake` | tools/hgdb-rewrite-vcd/hgdb-rewrite-vcd.cc:254-271 | the result is a child of that name; no signal changes |
| `VcdRewriter.VCDReWriter.InsertNewVar` | tools/hgdb-rewrite-vcd/hgdb-rewrite-vcd.cc:249-276 | the variable ends up last, under the last word of its name, in the scope the other words lead to, no other variable moves, and its signal is added once |
| `VcdRewriter.VCDReWriter.RemapOne` | tools/hgdb-rewrite-vcd/hgdb-rewrite-vcd.cc:188-199 | one row of the table takes the variable the two lookups find, and no other, from its place, and puts it under its new name into the scope the name leads to; if they find none, nothing changes; the signals under the root stay the same |
| `VcdRewriter.VCDReWriter.RemapDefinition` | tools/hgdb-rewrite-vcd/hgdb-rewrite-vcd.cc:179-200 | whatever the table holds, the multiset of signals under the root is conserved, the scopes stay a tree, scopes are only added, and with blank-free names the tree can still be written |
| `VcdRewriter.RewrittenFileKeepsSignals` | tools/hgdb-rewrite-vcd/hgdb-rewrite-vcd.cc:179-326 | the text written for any tree with the signals of the original, which remapping yields, reads back with those signals and the original changes |
| `VcdRewriter.TreeIsWritable` | tools/hgdb-rewrite-vcd/hgdb-rewrite-vcd.cc:278-298 | tables whose names are words stand for a tree that can be written and read back |
| `VcdRewriter.VCDReWriter.Serialize` | tools/hgdb-rewrite-vcd/hgdb-rewrite-vcd.cc:278-298 | what is written is the text of the tree the tables stand for |
| `VcdConversion.HeaderReads` | tools/hgdb-rewrite-vcd/hgdb-rewrite-vcd.cc:300-311 | a header as the parser reports it is written as a text that reads back as the same words |
| `VcdConversion.HeadersParse` | tools/hgdb-rewrite-vcd/hgdb-rewrite-vcd.cc:300-311 | the headers written in front of any definitions parse back into themselves, texts included |
| `VcdConversion.ParseReports` | tools/vcd/vcd.cc:44-110 | whatever the text, the parser reports definitions that can be written again, and then what reading the changes does |
| `VcdConversion.ReportedChanges` | tools/vcd/vcd.cc:210-265 | the changes it reports can be written down to be read again if and only if no dump section and no vector value without an identifier is among them |
| `VcdConversion.HeardAllDeclared` | tools/hgdb-rewrite-vcd/hgdb-rewrite-vcd.cc:119-138 | after hearing any definitions the tables list exactly the signals they declared |
| `VcdConversion.OutputIsSameDump` | tools/hgdb-rewrite-vcd/hgdb-rewrite-vcd.cc:278-326 | headers, a tree with the signals of the definitions, and changes, written in this order, parse as a dump with the same headers, signals and changes |
| `VcdConversion.Convert` | tools/hgdb-rewrite-vcd/hgdb-rewrite-vcd.cc:45-85 | from text to text: for a dump that parses, with one root scope, an outcome of the design root search, times below 2^31 and no dump sections, the conversion succeeds, whatever the table, and its output parses into the headers, the signals and the changes of the input |
| `MonitorRuns.NoRepetition` | src/monitor.cc:133-149 | no value is reported twice in a row |
| `MonitorRuns.NothingMissed` | src/monitor.cc:133-149 | after every reading the value reported last is that reading |
| `MonitorRuns.RunsCompose` | src/monitor.cc:133-149 | reports over a run are the reports over its parts, carried on by the value seen last |
| `MonitorRuns.WatchVariableBuffer.GetValue` | src/monitor.cc:178-184 | the sample taken depth samples ago, once there are that many |
| `MonitorRuns.WatchVariableBuffer.SetValue` | src/monitor.cc:186-191 | the queue keeps the last depth samples |
| `MonitorRuns.WatchVariableBuffer.Run` | src/monitor.cc:109-115 | over any run of clock edges, edge k from depth on returns the sample of edge k - depth, and the edge before them the initial value |
| `Monitor.MonitorState.IsMonitored` | src/monitor.cc:57-65 | an id with the same handle and type if there is one |
| `Monitor.MonitorState.AddMonitorVariable` | src/monitor.cc:9-32 | a signal already watched in the same way keeps its id and its own cell; otherwise a new id and a new watch |
| `Monitor.MonitorState.RemoveMonitorVariable` | src/monitor.cc:44-48 | the watch is gone and all others keep their ids |
| `Monitor.MonitorState.VarChanged` | src/monitor.cc:133-149 | reports a readable value exactly when it differs from the cell, and stores it |
| `Monitor.MonitorState.GetChangedValues` | src/monitor.cc:78-108 | in any order of the watches, the answers of those sharing a cell are their readings without repetitions |
| `Monitor.MonitorState.Rounds` | src/monitor.cc:78-119 | the same over any run of rounds |
| `VariableOrder.LocalVarNameCompare` | src/proto.cc:486-518 | the index loop computes the token-by-token comparison, exception included |
| `VariableOrder.FirstPlaceDecides` | src/proto.cc:486-518 | the first place with tokens that are neither numbers of one value nor the same text decides, by value or by text, else the shorter list comes first; only a number of 2^64 or more at that place throws |
| `VariableOrder.TokenTransitive` | src/proto.cc:499-513 | the order of any three tokens is transitive unless one of them is a word wedged between two numbers |
| `VariableOrder.SameTokensCompareAlike` | src/proto.cc:499-513 | spellings of one number compare alike with every token that is not wedged between them |
| `VariableOrder.Trichotomy` | src/proto.cc:486-518 | when all numbers fit nothing throws and exactly one of less, equivalent and greater holds, equivalent being equality of tokens up to numeric value |
| `VariableOrder.Transitive` | src/proto.cc:486-518 | over a vocabulary without wedged words the order of names is transitive |
| `VariableOrder.OrdersExactly` | src/proto.cc:486-518 | the names over any vocabulary whose numbers fit are in strict weak order if and only if no word of it stands, as text, behind one of its numbers and in front of another that is not larger |
| `VariableOrder.StrictWeakOrder` | src/proto.cc:486-518 | on names whose tokens are numbers or words it is a strict weak order, and equivalent names agree token by token up to numeric value |
| `VariableOrder.MixedTokenExactly` | src/proto.cc:499-513 | a word that starts with a digit can join the numbers and plain words exactly when it stands, as text, behind 19 nines, which is behind every number of 64 bits |
| `VariableOrder.MixedTokensMakeACycle` | src/proto.cc:499-513 | so 1a makes a circle, 10 before 1a before 9 before 10, and 9a does not |

## Left out

- `ExprMachine.DebugExpression.constructor`: once the actions pop an empty stack nothing is promised about the object, as the source is undefined from there on.
- Actions run after the match, from the log of the run, because no grammar rule reads the state they change.
- Signed overflow of expressions is two's-complement wrap; division by zero and of the smallest value by -1 are undefined results; an unknown name is reported where `at` would throw.
- Data breakpoints and their clearing, removal by id, and step-over and step-back of the scheduler; entries may be of any mix of types.
- Reverse-continue from an id that is not inserted: the guard that should catch it never fires, so the id is required to be inserted or absent.
- `Scheduler.Scheduler.ReorderBreakpoints`: the order among breakpoints of one rank is not specified, as std::sort does not promise one; every insertion is followed by a reorder.
- `Scheduler.Scheduler.AddBreakpoint`: normal breakpoints only; validation of conditions against the design is not part of this model.
- Replay: stopping from another thread, more than one rewind inside one callback, watches added or removed during a run, and several callbacks on one handle. One value per signal and time.
- `ReplayEngine.EmulationEngine.FireCallbacks`: every watched handle fires at each visit, because stored values are never updated; no claim that unchanged handles stay silent.
- `PackedValues.ConvertValue`: a shift by 32 or more is undefined and reported as such; text conversion is for the characters 0, 1, x and z.
- `ArrayTable.ReplayVpiProvider.BuildArrayTable`: names of instances and signals and full names of elements are kept apart, as the latter have brackets; memory for large indices is not bounded, and an index of 2^64 - 1, for which the source wraps, or more, for which it throws, is a failed outcome.
- `PackedArrays.RangesApart`: full rectangular tables; for others only the walk itself is described.
- `ReplayEngine.EmulationEngine.ShowsThere`: after a rewind to point 0, nothing is said about handles that have not fired, since what the database answers for time 2^64 - 1 is left to it.
- `InstanceTree.Design.BuildInstanceTree`: designs without cycles only, as the source never ends on others; ids are not consecutive, since every child takes two.
- Empty instance names and names with dots: the name and id round trip requires names free of dots, and a looked-up name needs a token.
- `ScopeReorder.BlockEntry.HandleAfter`: works on one block whose children are values; the recursion over the tree is the function it is proved against, with object identity kept as a field.
- Reading JSON, schema validation, SQLite, conditions and file names of breakpoints looked up by id, and context variables.
- `RuntimeLock.EveryRunIsASemaphore`: one waiter; fairness of the scheduler is not assumed, so progress is stated as the existence of a finishing schedule.
- `VcdConversion.Convert`: a dump with dump sections is not claimed to come through, since the rewriter writes the opener of a section without its `$end`; the callbacks are run after the parse, in its order; real-valued changes are ignored by the parser.
- `VcdRewriter.VCDReWriter.RemapDefinition`: names in the table need a token each; without one the source reads out of bounds. Dumps have one root scope, since a second one would use an empty stack.
- `InstanceTree.Design.ParseDb`: module names are taken as resolved and scopes as reordered, which `ModuleResolution` and `ScopeReorder` are about; root names differ.
- Numbers in dumps that start with a vertical tab, and the search for the design root, whose outcome `Convert` is given.
- `Monitor.MonitorState.AddMonitorVariable`: ids are unbounded, the source truncates the returned one to 32 bits; clock-edge and breakpoint watches with conditions are not modelled.
- Delay lines of depth 0, and what a delay line returns before it has filled.
- `VariableOrder.StrictWeakOrder`: characters compare by code, as unsigned bytes do.
- Websocket server, network providers, VPI calls and the search of the design hierarchy, FSDB, logging, command-line tools and Python bindings.
