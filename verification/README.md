# PrismPath: a verified model of the table compiler, its evaluators, live swap and wire decoder

PrismPath compiles a routing policy to a small table image (PPT v1), decides with that image on several
substrates, swaps it while packets are in flight, and carries decisions in a self-delimiting code. The
modules model these parts and prove what each is for.

**Semantics.** `Values`, `Predicates`, `PredicateParser`, `Conditions` and `Engine` are the Go kernel: Python-like
equality, ordering and membership over nested values; the recursive-descent parser, an object with a position, proved
against a parser on token suffixes; the evaluator with its depth bound; the step-bounded engine. `KernelLaws` says what
the comparisons mean without the functions that compute them, `ParserSoundness` that only the grammar's texts are
accepted, and `EngineRuns` explains a whole run from the nodes it visits.

**Compiler and interpreter.** `Compiler` says what the growing field, intern and atom tables become; `TableBuilder`
is the object that grows them in place. `CompilerCorrectness`, `StackDepth`, `Registers`, `Flatten`, `FlowCompiler`,
`Scripts`, `FlowStability` and `FlowRefinement` go from one condition to whole runs: the interpreter (`Table`,
`Interp`) on the compiled image walks the engine's path. `ByteRows` and `ImageCodec` are the bytes between them.

**Bounded evaluators.** `Admission` holds both admission checkers and `KernelEval` the in-kernel evaluator, masks,
clamps and dropped pushes included; `RowAccess` and `ByteEval` are the firmware evaluator that works in place on bytes.

**Live swap.** `Selector` interleaves any number of CPUs on the compare-and-swap cell, `SelectorLedger` accounts for
every packet and receipt of it; `Lookups` and `BankSwap`
interleave table updates, one map write at a time, with packets, one lookup at a time; `SwapRuns` and `NetMaps` tie
those steps to the loader's own writes, and `SwapTears` shows how far a packet may be overtaken; `Migration` carries a
posture across reindexed policies and keeps the trail of what happened, `TrailPolicies` says what each leaf of it names,
`TrailGaps` loses a receipt of it, and `Merkle` seals it.

**Wire and packets.** `Zeckendorf`, `FacetTerms`, `FacetDecoder` and `FacetRewrite` are the Fibonacci-code decoder with
its 32-bit registers, and the frame rewrite; `FacetWire` is the firmware encoder whose bytes it decodes. `NetFrontEnd`
is the packet front end against the canonical reading, to the engine's own first hop, and `NetFrames` the frames built
to certify it. Headers follow section 3.1 of RFC 791 and section 3.1 of RFC 9293.

Where the source loops or updates an object, the model has a method or a class proved against a function on values,
and the theorems are about that function. Check everything with `dafny verify dfyconfig.toml`.

## What does not hold as one might hope

Each of these is a lemma, which says for all inputs when the code does agree.

- A node left with only error or event edges is stuck in the engine and terminal in the table
  (`FlowRefinement.ErrorEdgesPart`); in everything else the two runs agree (`FlowRefinement.TableRunIsEngineRun`).
- The table orders no string. It decides an ordering against a string constant as the kernel does, on every reading,
  exactly for `< ""` (`CompilerCorrectness.StringOrderingDiverges`), so string ordering stays outside Level M.
- Equality of integers goes through float64. It is equality of numbers exactly up to 2^53 in magnitude
  (`Values.EqualityIsExactTo`); a larger integer is still exact if its unit in the last place divides it, and only then
  (`Values.ExactIffUnitDivides`).
- The parser takes texts whose brackets do not match: a closing parenthesis may be missing, and a list swallows whatever
  one token stands where `]` should. It takes nothing else that is not in the grammar
  (`ParserSoundness.AcceptsOnlyTexts`).
- The tooling's admission checker passes a table that stops short of its declared node names, which the loader
  refuses (`Admission.TruncatedNamesDivide`); they part nowhere else (`Admission.CheckersAgree`).
- The firmware's int8 edge index is the edge exactly for the first 128 edges of a node (`ByteEval.Int8IsExact`).
- With no fail-safe declared and the cell unset, the loader's migration starts from node zero and the kernel's
  selector from the last node (`Migration.SourceIsResident`).
- A fail-safe declared on node zero reads as undeclared, and the kernel parks on the last node
  (`Migration.DeclaredFailSafe`); any other declared node is the one it parks on.
- By-name migration there and back returns exactly when no earlier node of the policy has the same name hash
  (`Migration.ThereAndBack`).
- The loader calls the bank it writes one that is never read, but a slow packet may still be reading it. A packet that
  chose its bank with no update under way can spare one update, and one that chose during an update none
  (`BankSwap.SwapIsAtomic`); one update more, and it can leave with a verdict neither policy gives
  (`SwapTears.OverlappingUpdateTears`).
- A full ring buffer loses a receipt and the commit stands. The receipts that are left are one chain exactly when none
  was lost and no commit carries the migration marker as its event (`Migration.TrailIsOneChain`); a lost one shows as a
  jump of the sequence number. A run that loses one is in `TrailGaps.DropHappens`.
- A Merkle root does not fix the length of the trail (`Merkle.RepeatedTailHasSameRoot`), which is why the count
  matters. Barring a collision two trails share a root exactly when, each layer's odd end doubled, the leaves of the lower tree are the
  nodes of that level of the higher (`Merkle.RootBindsTree`, `Merkle.TreeFixesRoot`).
- An address atom is decided as on the unsigned number exactly when it does not see the sign
  (`NetFrontEnd.FaithfulIsExact`). All that the compiler passes is; some of what it refuses would be
  (`NetFrontEnd.RefusalMargin`).

## Model

| member | source | states |
|---|---|---|
| `Values.EqSymmetric` | prismpath-go/predicates.go:299-347 | equality is symmetric over nested lists, maps, numbers with NaN, strings and nil |
| `Values.EqTransitive` | prismpath-go/predicates.go:299-347 | equality is transitive over the same values |
| `Values.OrderSwap` | prismpath-go/predicates.go:379-431 | swapping the operands keeps whether they can be ordered and negates the verdict |
| `Values.OrderZeroIsEq` | prismpath-go/predicates.go:379-431 | the ordering answers 0 only for equal values |
| `Values.EqOrdersAsZero` | prismpath-go/predicates.go:379-431 | equal values that can be ordered get 0 |
| `Values.OrderRespectsEq` | prismpath-go/predicates.go:299-431 | equal values order alike against every value, on either side |
| `Values.OrderTransitive` | prismpath-go/predicates.go:379-431 | where both comparisons have a verdict, not-after is transitive, and strict if either step is |
| `Values.SmallIntsAreExact` | prismpath-go/predicates.go:282-297 | integers up to 2^53 in magnitude survive the conversion to float64 |
| `Values.ExactIffUnitDivides` | prismpath-go/predicates.go:282-297 | an integer of any size survives the conversion exactly when its unit in the last place divides it |
| `Values.EqualityIsExactTo` | prismpath-go/predicates.go:282-347 | equality of all integers up to a bound is mathematical equality exactly for bounds up to 2^53 |
| `Values.LargeIntsConflate` | prismpath-go/predicates.go:282-347 | 2^53 and 2^53 + 1 compare equal |
| `KernelLaws.EqIsNormalEquality` | prismpath-go/predicates.go:299-347 | values are equal exactly when they are the same once every number in them is its float, and no NaN and no ellipsis is in them |
| `KernelLaws.RoundsToNearest` | prismpath-go/predicates.go:282-297 | an integer of any size becomes a nearest multiple of its unit in the last place, of two the even one |
| `KernelLaws.NumbersOrder` | prismpath-go/predicates.go:379-431 | booleans, integers and floats are ordered by where they lie on one line, the infinities at its ends; NaN has no verdict |
| `KernelLaws.StringVerdict` | prismpath-go/predicates.go:379-431 | strings are ordered by their first difference, a proper prefix first |
| `KernelLaws.ListVerdict` | prismpath-go/predicates.go:379-431 | lists are ordered as their first elements that are not equal, else by length |
| `KernelLaws.MembershipMeans` | prismpath-go/predicates.go:433-460 | a string is in a string exactly as a piece of it, a value in a list as an element equal to it, a string in a map as a key, and nothing else is in anything |
| `KernelLaws.FalsyMeans` | prismpath-go/predicates.go:252-280 | what counts as false is nil, whatever equals zero, and the empty string, list and map |
| `KernelLaws.ChainIsConjunction` | prismpath-go/predicates.go:167-216 | a chain holds exactly when each operand compares with the next |
| `KernelLaws.ChainStops` | prismpath-go/predicates.go:167-216 | it is false from the first pair that does not compare, even if a later operand would be an error |
| `KernelLaws.ShallowEvaluates` | prismpath-go/predicates.go:43-250 | every expression no deeper than the bound evaluates without error |
| `PredicateParser.ParseInvertsText` | prismpath-go/predicates.go:765-982 | every tree is parsed back from its text with parentheses only where precedence and the lean to the left need them, or anywhere else besides, and with or without last commas: `not` binds tighter than `and`, looser than a comparison |
| `PredicateParser.ParseInvertsTopTuple` | prismpath-go/predicates.go:765-791 | a tuple at the top is parsed back without its parentheses |
| `PredicateParser.UnclosedParses` | prismpath-go/predicates.go:971-978 | a last closing parenthesis left out is supplied |
| `ParserSoundness.AcceptsOnlyTexts` | prismpath-go/predicates.go:765-982 | whatever is accepted is, token for token, a text of the grammar and is given that text's tree; only closing brackets are treated leniently |
| `PredicateParser.Parser.RunExpr` | prismpath-go/predicates.go:765-791 | terminates on every token list; result and remaining tokens are those of the suffix parser |
| `PredicateParser.Parser.RunOr` | prismpath-go/predicates.go:793-812 | the `or` loop moves the position exactly as the suffix parser consumes |
| `PredicateParser.Parser.RunAnd` | prismpath-go/predicates.go:814-833 | the same for the `and` loop |
| `PredicateParser.Parser.RunNot` | prismpath-go/predicates.go:835-846 | the same for `not` |
| `PredicateParser.Parser.RunCmp` | prismpath-go/predicates.go:848-897 | the same for a comparison or a chain of them |
| `PredicateParser.Parser.RunCmpOp` | prismpath-go/predicates.go:855-885 | the operator at the position, `not in` as one, or none with nothing consumed |
| `PredicateParser.Parser.RunPrimary` | prismpath-go/predicates.go:899-982 | the same for constants, names, parentheses, tuples and lists, missing brackets tolerated as the code tolerates them |
| `Conditions.KernelEvalIsTruth` | prismpath-go/predicates.go:43-250 | a Level M condition evaluates without error exactly when its tree fits the depth bound, and then to its truth |
| `Compiler.KeyKeepsNumbering` | prismpath-hw/ppt_compile.py:136-137 | adding a name keeps every number and keeps the numbers distinct and below the size |
| `Compiler.TranslateGrows` | prismpath-hw/ppt_compile.py:146-188 | compiling any condition, even one refused half way, only extends valid tables |
| `CompilerCorrectness.TranslationIsStable` | prismpath-hw/ppt_compile.py:136-188 | a condition's words are the same indices in any later tables |
| `CompilerCorrectness.TranslationDecides` | prismpath-hw/ppt_compile.py:146-208 | compiler correctness: after any later growth, on every reading, the words push the condition's truth under the kernel's equality, order and membership and nothing else, within the peak depth |
| `CompilerCorrectness.AtomDecides` | prismpath-hw/interp.c:98-123 | an atom on an encoded register is the kernel's comparison, for all six operators and all scalar kinds |
| `CompilerCorrectness.TruthyDecides` | prismpath-hw/interp.c:119-120 | the truthiness atom on an encoded register is Python truthiness, the empty string included |
| `CompilerCorrectness.FlipSwaps` | prismpath-hw/ppt_compile.py:183-186 | a comparison with its constant on the left is the flipped one |
| `CompilerCorrectness.StringOrderingDiverges` | prismpath-hw/interp.c:111-112 | the table decides an ordering against a string constant as the kernel does, on every reading, exactly for `< ""` |
| `CompilerCorrectness.CompilesIffConstsFit` | prismpath-hw/ppt_compile.py:96-112 | a Level M condition is refused exactly when one of its integers is no i32 |
| `CompilerCorrectness.RefusedForInts` | prismpath-hw/ppt_compile.py:96-112 | no Level M condition is refused for any other reason |
| `TableBuilder.TableImage.constructor` | prismpath-hw/ppt_compile.py:121-133 | a new image has empty tables, the empty string interned as 0 |
| `TableBuilder.TableImage.Field` | prismpath-hw/ppt_compile.py:136-137 | the field's number in the tables, grown by it if new |
| `TableBuilder.TableImage.AtomIndex` | prismpath-hw/ppt_compile.py:139-144 | the atom's index, appended if new |
| `TableBuilder.TableImage.Encode` | prismpath-hw/ppt_compile.py:96-112 | type and value of a scalar, interning a new string and nothing else |
| `TableBuilder.TableImage.ProgExpr` | prismpath-hw/ppt_compile.py:146-188 | the recursion over the tree leaves the tables and the words the compiler function gives, on a refusal too |
| `TableBuilder.TableImage.ProgCompare` | prismpath-hw/ppt_compile.py:175-187 | the comparison case, either way round |
| `TableBuilder.TableImage.ProgMember` | prismpath-hw/ppt_compile.py:161-174 | the membership case, the empty list included |
| `Registers.EncodeRegs` | prismpath-hw/ppt_compile.py:354-364 | the row encoded field by field in register order over a copy of the interning |
| `Registers.EncodedRowReads` | prismpath-hw/ppt_compile.py:354-364 | every register of an encoded row stands for its reading, absent ones included, under an interning extending the compiled one |
| `Registers.EncodesIffEncodable` | prismpath-hw/ppt_compile.py:354-364 | a reading is refused exactly when a field the image reads is no scalar or no i32 |
| `Registers.CompiledPredicateAgrees` | prismpath-hw/ppt_compile.py:344-364 | a condition compiled alone, on the registers of any encodable reading, decides as the Go kernel |
| `Registers.VerdictOnRow` | prismpath-hw/ppt_compile.py:146-208 | the same for a condition compiled into tables that already hold others |
| `StackDepth.CountDepth` | prismpath-hw/ppt_compile.py:211-225 | the peak of the walk, or a refusal exactly when the walk does not end at one |
| `StackDepth.CountIsPeak` | prismpath-hw/ppt_compile.py:146-225 | on a compiled condition the counted peak is a structural recursion on the condition |
| `StackDepth.LimitIsPeak` | prismpath-hw/ppt_compile.py:211-225 | a well-formed program runs on a bounded stack exactly when its counted peak is within it |
| `StackDepth.CompiledRunsIffPeakFits` | prismpath-hw/ppt_compile.py:211-225 | a compiled condition runs on a stack of a given size exactly when its peak fits |
| `StackDepth.NestingBoundsPeak` | prismpath-hw/ppt_compile.py:146-174 | depth grows by at most one per nesting level |
| `StackDepth.FlatChainsNeedTwo` | prismpath-ebpf/ppt_common.h:46-49 | any flat and/or chain or membership list needs at most two |
| `Table.DepthIsExact` | prismpath-hw/interp.c:127-142 | the stack effect computed without a reading is the one every reading has |
| `Table.ExecMonotone` | prismpath-hw/interp.c:127-142 | more stack and more atoms change nothing for a program that runs |
| `Table.ScanFindsFirst` | prismpath-hw/interp.c:145-150 | on a table whose programs run, the loop finds the first edge that fires |
| `Table.DecideMonotone` | prismpath-hw/interp.c:145-150 | wherever the smallest stack suffices every deeper one decides alike |
| `Table.AtomLaws` | prismpath-hw/interp.c:98-123 | numbers compare, strings and absence can be equal, `!=` is the rest of `==`, an unknown operator never holds |
| `Table.FirstValueDecides` | prismpath-hw/interp.c:127-142 | a program that leaves one value has the verdict, whatever complete program is appended to it |
| `Interp.EvalProg` | prismpath-hw/interp.c:127-142 | the stack array leaves the machine's verdict, overflow and bad opcode told apart |
| `Interp.Evaluate` | prismpath-hw/interp.c:145-150 | the loop over a node's edges is the scan, its failures included |
| `Interp.Iterate` | prismpath-hw/interp.c:185-203 | one iteration updates the visit counters in place and moves or stops as the step function says, with a fault where a program overflows or holds an unknown opcode |
| `Interp.LoadRow` | prismpath-hw/interp.c:189-198 | the register file of a visit: last outcome repeating, visit counter written over its field |
| `Interp.RunScript` | prismpath-hw/interp.c:169-206 | the whole run prints the trace of the run function, faults included |
| `Flatten.FlattenNodes` | prismpath-hw/ppt_compile.py:228-237 | the loops produce the flat form: each range starts where the one before ends |
| `Flatten.WordsAt` | prismpath-hw/ppt_compile.py:234-236 | the program ranges tile the word array and hold the programs |
| `Flatten.BranchesAt` | prismpath-hw/ppt_compile.py:232-235 | the node ranges tile the edge array and hold the nodes' edges |
| `Flatten.FlatDecides` | prismpath-hw/ppt_compile.py:227-237 | priority evaluation over the flat arrays is priority evaluation over the nested nodes |
| `Flatten.FlatIsSound` | prismpath-hw/ppt_compile.py:227-237 | if every nested branch leads to a node and runs, every flat range, target and program is in order |
| `Engine.Run` | prismpath-go/engine.go:89-263 | the loop is the run function, about which `EngineRuns.RunIsExplained` says everything a run does |
| `Engine.RunWalksEdges` | prismpath-go/engine.go:134-254 | a run follows edges of the graph, within the step bound; one that ends terminal stands at a node without edges, and one out of steps took every step |
| `EngineRuns.RunIsExplained` | prismpath-go/engine.go:89-263 | a whole run from its path alone: after a raise the next node is the target of the first error edge whose handler is absent or holds of the error fields, with that node's visits and failures so far, else the run stops with the message; after an outcome only the first deterministic edge that holds is taken; suspensions, terminal and stuck nodes and the step bound end it where the source says |
| `FlowCompiler.Reachable` | prismpath/kernel/parser.py:171-182 | the worklist gives the least set that holds the start and is closed under edges |
| `FlowCompiler.CompileFlow` | prismpath-hw/ppt_compile.py:297-325 | a flow compiles exactly when its start is a listed node and every edge of every reached node is an error or event edge, or leads to a reached listed node on always, never or a Level M condition whose integers are i32; a refusal names the first misfit |
| `FlowCompiler.CompilesIffInSubset` | prismpath-hw/ppt_compile.py:297-325 | the same of compiling into any tables, the packet compiler's seeded ones included |
| `FlowCompiler.NumberedInOrder` | prismpath-hw/ppt_compile.py:305-307 | nodes are numbered in document order, the reached ones without gaps |
| `FlowCompiler.CompileNode` | prismpath-hw/ppt_compile.py:312-321 | one node's edges, error and event edges skipped, semantic and dangling ones refused |
| `FlowCompiler.MaxStack` | prismpath-hw/ppt_compile.py:231-237 | the largest peak of all programs, or a refusal if one is malformed |
| `FlowCompiler.BuildImage` | prismpath-hw/ppt_compile.py:227-250 | the image of a compiled flow |
| `FlowStability.FlowIsCompiled` | prismpath-hw/ppt_compile.py:297-325 | in the finished tables every node's programs are still those of its conditions |
| `FlowStability.MaxStackIsExact` | prismpath-hw/ppt_compile.py:231-237 | the header's stack bound is exact: the image's programs run on a stack exactly as deep or deeper |
| `FlowStability.CompiledImageIsSound` | prismpath-hw/ppt_compile.py:227-262 | a compiled image has its start, every target, range and field index inside the table, and the header counts what the tables hold |
| `Scripts.EncodeScript` | prismpath-hw/ppt_compile.py:367-393 | one row per outcome of every node, in order, or the first refusal |
| `Scripts.ScriptsStand` | prismpath-hw/ppt_compile.py:367-393 | every encoded row reads as the outcome the scripted worker returns on that visit |
| `FlowRefinement.EdgesAgree` | prismpath-hw/interp.c:145-150 | on registers that stand for a context, the first true program leads where the engine's first true edge leads |
| `FlowRefinement.StepsAgree` | prismpath-hw/interp.c:185-203 | one iteration of the table is one iteration of the engine, visit counters included |
| `FlowRefinement.ErrorEdgesPart` | prismpath-hw/interp.c:185-186 | at a node with edges, all of them error or event edges, the engine counts the visit and is stuck where the table is terminal, whatever the outcome |
| `FlowRefinement.TableRunIsEngineRun` | prismpath-hw/interp.c:169-206 | whole-run refinement: for every portable flow and accepted script the interpreter's trace on the compiled image is the engine's path on the full graph, with the same stop reason up to the one named exception |
| `ByteRows.RowsRoundTrip` | prismpath-hw/ppt_compile.py:247-261 | rows of any fixed-width layout that fit are read back from their bytes, whatever follows |
| `ByteRows.RowsRestore` | prismpath-hw/interp.c:74-90 | packing rows just read gives the bytes back |
| `ImageCodec.WriteImage` | prismpath-hw/ppt_compile.py:247-262 | header and sections in order, or a refusal at the first number that does not fit |
| `ImageCodec.LoadImage` | prismpath-hw/interp.c:58-92 | the image, or a refusal exactly for a bad magic, version or length |
| `ImageCodec.ReadSection` | prismpath-hw/interp.c:74-90 | a section's rows through a moving cursor, and what is left |
| `ImageCodec.ParseInvertsSerialize` | prismpath-hw/ppt_compile.py:247-262 | round trip: parsing what was written, whatever follows it, recovers every count, atom, node, edge and word |
| `ImageCodec.SerializeInvertsParse` | prismpath-hw/interp.c:58-92 | and back: every file the loader takes is exactly what writing its image and colours gives, followed by what was not read |
| `Admission.StackCheckIsExact` | prismpath-ebpf/ppt_image.c:92-124 | a program is accepted exactly when on every reading each operator has operands, depth stays within four and one result is left; what is refused fails on every reading |
| `Admission.PeakDecides` | prismpath-ebpf/ppt_image.c:92-120 | walking freely and checking the peak afterwards is walking under the bound |
| `Admission.ProgramFits` | prismpath-ebpf/ppt_image.c:92-124 | the C walk over one program accepts exactly the well-stacked ones |
| `Admission.CheckEvaluatorLimits` | prismpath-ebpf/ppt_image.c:76-127 | accepts exactly the tables all of whose nodes and edges are within the bounds |
| `Admission.ParseImageBuf` | prismpath-ebpf/ppt_image.c:131-186 | the parsed policy with fail-safe, low flags and name hashes, or a refusal |
| `Admission.LoadNames` | prismpath-ebpf/ppt_image.c:177-184 | the name hashes after the optional attribute section, or a refusal when cut short |
| `Admission.NamesAreLaid` | prismpath-ebpf/gen_migrate_fixtures.py:53-55 | hash `i` is the little-endian number at its place after sections and colours |
| `Admission.ProgramRefusals` | prismpath-ebpf/ebpf_table_limits.py:89-117 | no refusal exactly for well-stacked programs |
| `Admission.TableRefusals` | prismpath-ebpf/ebpf_table_limits.py:47-86 | no refusal exactly for tables the evaluator can run as written |
| `Admission.CheckersAgree` | prismpath-ebpf/ebpf_table_limits.py:47-117 | the byte-level checker and the C parser accept the same tables, but for a names section declared and cut short; each is proved against the one description in its own contract |
| `Admission.TruncatedNamesDivide` | prismpath-ebpf/ppt_image.c:179-184 | such a table passes the one and is refused by the other |
| `KernelEval.ProgWord` | prismpath-ebpf/ppt_eval_bpf.h:170-229 | one word on the four cells: pushes past the depth dropped, operators without operands ignored |
| `KernelEval.EvalProg` | prismpath-ebpf/ppt_eval_bpf.h:234-248 | the bounded loop over masked words |
| `KernelEval.Evaluate` | prismpath-ebpf/ppt_eval_bpf.h:264-316 | the clamped loop over masked edges reports edge and target, or -1 and -1 |
| `KernelEval.ClampingIsLossless` | prismpath-ebpf/ppt_eval_bpf.h:170-316 | on every admitted table, node and register file, whatever rows an older table left above it, the kernel evaluator takes the edge and target of the reference interpreter |
| `KernelEval.OnlyFirstEdgesSeen` | prismpath-ebpf/ppt_eval_bpf.h:264-316 | what clamping costs past the limit: whatever the number of edges, the kernel evaluator takes the reference edge if it is among the node's first 64, and none if it is not |
| `KernelEval.LimitsAreExact` | prismpath-ebpf/ppt_image.c:76-127 | a table is within the limits exactly when its ranges lie in it, the evaluator's loops cut no count short and every program leaves one result within the stack on every reading |
| `KernelEval.CapacityIsExact` | prismpath-ebpf/ppt_image.c:143-152 | a table is within the capacities exactly when the maps can hold it and the registers its fields |
| `RowAccess.SectionsAreLaid` | prismpath-hw/ppt_eval.h:74-75 | every row of the image lies at its offset from the section bases |
| `RowAccess.HeaderIsLaid` | prismpath-hw/ppt_compile.py:247-250 | a header is the four bytes PPTM, version one and eleven numbers in the writer's order, two bytes each, low byte first |
| `ByteEval.FirmwareAccepts` | prismpath-hw/ppt_eval.h:63-77 | the firmware accepts exactly the images the interpreter loads that fit its capacities and start at a node, and reads the same image |
| `ByteEval.Int8IsExact` | prismpath-hw/ppt_eval.h:117-126 | the int8 edge index is the edge exactly below 128 |
| `ByteEval.Firmware.ParseTable` | prismpath-hw/ppt_eval.h:63-77 | the return code, and on success offsets that do not wrap in sixteen bits and rows that lie at them |
| `ByteEval.Firmware.EvalAtom` | prismpath-hw/ppt_eval.h:80-96 | an atom and its register read in place hold as in the reference |
| `ByteEval.Firmware.EvalProg` | prismpath-hw/ppt_eval.h:99-114 | the reference verdict, or the error code that stands for its failure |
| `ByteEval.Firmware.Evaluate` | prismpath-hw/ppt_eval.h:117-126 | the scan's edge, target and code |
| `ByteEval.Firmware.Route` | prismpath-hw/ppt_eval.h:62-126 | from bytes to decision: a table is taken exactly as `ParseCode` says, and a sound one decides, read in place, as the interpreter decides on the parsed image |
| `ByteEval.EmbeddedDecides` | prismpath-hw/ppt_eval.h:99-126 | on a sound table the embedded scan raises no error and returns the reference's target, and its edge exactly when that is below 128 |
| `Selector.StepKeeps` | prismpath-ebpf/ppt_select.bpf.c:202-255 | every snapshot, decision, commit, retry and receipt of any CPU keeps the invariant |
| `Selector.SelectorIsSafe` | prismpath-ebpf/ppt_select.bpf.c:202-255 | over all interleavings: the generation counts the commits on, each commit is the decision at the node then resident, commits chain from the resident node or the fail-safe, every receipt tells one commit field for field and no sequence number repeats |
| `Selector.KernelSelectorIsSafe` | prismpath-ebpf/ppt_select.bpf.c:202-255 | the same with the deployed table: over all interleavings every commit is the reference interpreter's first firing edge at the node the commit before it left resident |
| `Selector.RefusalIsProgress` | prismpath-ebpf/ppt_select.bpf.c:227-237 | a commit is refused exactly when another came since the snapshot; a dropped event saw at least four |
| `SelectorLedger.NothingGoesMissing` | prismpath-ebpf/ppt_select.bpf.c:202-255 | conservation over all interleavings: packets arrived are those in hand, undecided, given up after four attempts or committed; commits are those with a receipt, about to write one, or whose receipt found no room |
| `Selector.KernelPolicyDecides` | prismpath-ebpf/ppt_select.bpf.c:218-222 | the decision committed is the reference interpreter's first firing edge |
| `Selector.KernelPolicyIsSane` | prismpath-ebpf/ppt_select.bpf.c:195-201 | on a deployed table decisions and fail-safe are nodes |
| `Selector.SharedCell.Snapshot` | prismpath-ebpf/ppt_select.bpf.c:213-216 | resident node and generation, the fail-safe when unset |
| `Selector.SharedCell.TryCommit` | prismpath-ebpf/ppt_select.bpf.c:226-238 | the commit happens exactly when the generation is the snapshot's |
| `Selector.SharedCell.Handle` | prismpath-ebpf/ppt_select.bpf.c:206-255 | alone on the cell, a packet with a decision always commits it and emits its receipt |
| `Lookups.LookupKeepsOutcome` | prismpath-ebpf/ppt_eval_bpf.h:170-316 | cutting an evaluation at any single map lookup does not change where it ends |
| `BankSwap.StepKeeps` | prismpath-ebpf/loader.c:691-793 | every row write, config write, flip and packet lookup keeps the invariant |
| `BankSwap.SwapIsAtomic` | prismpath-ebpf/loader.c:774-793 | for every interleaving the active bank is a whole policy with the original drop mask; every packet whose bank was not written to in its flight decided as the reference on the one policy live when it read the selector, and was dropped exactly if it was decided to a node below 64 that is in the mask; and such is every packet that saw at most one update begin after its choice, or none if it chose during one |
| `SwapRuns.UpdateRuns` | prismpath-ebpf/loader.c:691-793 | an update refused after any number of writes, or not at all, is a run of the state machine that leaves exactly the rows, config and selector the loader's writes leave |
| `SwapRuns.FailureChangesNothing` | prismpath-ebpf/loader.c:774-793 | however many updates a run begins and wherever each is refused, if none goes through then active bank, selector and live policy end as they began and every packet ends where it would have without the loader |
| `SwapTears.OverlappingUpdateTears` | prismpath-ebpf/ppt_net.bpf.c:153-164 | from an attached policy, whatever its mask and whatever the packet, two runs that satisfy every step's guard, one for either moment of choice, in which one update more than can be spared makes the packet leave with a verdict neither policy gives |
| `NetMaps.PutRows` | prismpath-ebpf/loader.c:694-697 | the rows a bounded number of writes reach, laid over one half of a map, the other half untouched |
| `NetMaps.LiveMaps.WriteBank` | prismpath-ebpf/loader.c:691-722 | both sides afterwards: the other untouched, this one the rows written before a refusal over those it held, and the config with the inherited drop mask if it was reached |
| `NetMaps.LiveMaps.NetUpdate` | prismpath-ebpf/loader.c:774-793 | the selector flips exactly when every write succeeded, the bank that was live keeps every row, and the maps are those the state machine's update leaves, wherever it is refused |
| `Migration.MigrateNode` | prismpath-ebpf/ppt_image.c:197-209 | the search loop returns node and cause of the migration function |
| `Migration.CauseIsExact` | prismpath-ebpf/ppt_image.c:194-208 | cause 66 exactly when no name lookup supplied the node, and then the node is the fail-safe |
| `Migration.LandsOnANode` | prismpath-ebpf/ppt_image.c:197-209 | a migration lands below the new policy's node count |
| `Migration.MigrationComposes` | prismpath-ebpf/ppt_image.c:197-209 | through a policy that has the name lands where going straight lands, same cause |
| `Migration.ThereAndBack` | prismpath-ebpf/ppt_image.c:197-209 | there and back is the identity exactly when no earlier node shares the hash |
| `Migration.DeclaredFailSafe` | prismpath-hw/ppt_compile.py:330-340 | the declared fail-safe and strategy survive the flags word, and the kernel parks on the declared node exactly when it is not node zero or is the only node |
| `Migration.SourceIsResident` | prismpath-ebpf/ppt_maps.c:116 | the loader's source is the kernel's resident node exactly when the cell is set, a fail-safe is declared or there is one node |
| `Migration.SwapKeeps` | prismpath-ebpf/ppt_maps.c:110-138 | a swap appends one receipt at its boundary's generation, keeps the generation, links on, and leaves loader and kernel agreed on the resident node |
| `Migration.TrafficKeeps` | prismpath-ebpf/ppt_select.bpf.c:202-255 | any interleaved traffic that ends idle links its commits on, in order, whichever receipts were emitted |
| `Migration.ChainShowsLoss` | prismpath-ebpf/ppt_select.bpf.c:240-252 | of a record of what happened the emitted receipts form the chain exactly when none is missing and no commit's event passes for a migration |
| `Migration.TrailIsOneChain` | prismpath-ebpf/ppt_maps.c:110-138 | over runs of interleaved traffic and quiesced swaps what happened is one chain from the first resident node and generation to the last, the resident node is a node of the loaded policy, and the emitted receipts form that chain exactly when none was lost to a full ring buffer |
| `TrailPolicies.LeavesNameThePolicy` | prismpath-ebpf/ppt_maps.c:110-138 | over runs of traffic and swaps every commit's leaf names the policy in force, and every swap's the one it brings into force |
| `TrailPolicies.SwapTells` | prismpath-ebpf/ppt_maps.c:110-138 | a swap's leaf and cell: from the kernel's resident node to the first node of the same name with no cause, else to the fail-safe with cause 66, the generation kept |
| `TrailPolicies.KeptLeafIsReceipt` | prismpath-ebpf/ppt_select.bpf.c:240-252 | a kept commit's leaf is the receipt the kernel emitted for it |
| `Migration.SelectorHotswap` | prismpath-ebpf/ppt_maps.c:110-138 | the swap leaves cell, receipt and node of the trail step |
| `TrailGaps.DropBreaksChain` | prismpath-ebpf/ppt_select.bpf.c:240-252 | one more committing packet leaves a whole chain whole exactly when the ring buffer had room, the commit standing either way |
| `TrailGaps.DropHappens` | prismpath-ebpf/ppt_select.bpf.c:240-252 | a run of a deployed policy whose first commit leaves no receipt and whose receipts are then no chain |
| `Merkle.MerkleRoot` | prismpath-ebpf/merkle.h:17-38 | the layer loop terminates with the root of the recursive tree over the record hashes, zeros for an empty trail |
| `Merkle.HashLayer` | prismpath-ebpf/merkle.h:29-34 | one layer in a fresh buffer, the last node doubled when odd |
| `Merkle.LayersMakeTheTree` | prismpath-ebpf/merkle.h:24-36 | halving layer after layer is the root of the recursive tree over the leaves |
| `Merkle.SealBinds` | prismpath-ebpf/merkle.h:17-38 | same-length trails have equal roots exactly when every record is equal, barring a collision between strings hashed at the same place |
| `Merkle.SealBindsReceipts` | prismpath-ebpf/ppt_common.h:115-126 | the same for receipts, field by field |
| `Merkle.BytesTellRecordsApart` | prismpath-ebpf/ppt_common.h:115-126 | the forty packed bytes of a receipt determine every field |
| `Merkle.RecordIsLaid` | prismpath-ebpf/ppt_common.h:115-126 | where each field lies in the forty bytes, low byte first |
| `Merkle.RepeatedTailHasSameRoot` | prismpath-ebpf/merkle.h:32 | an odd trail and the same with its last record again have one root |
| `Merkle.RootBindsTree` | prismpath-ebpf/merkle.h:17-38 | barring a local collision, trails of any lengths share a root only if the leaves of the lower tree, doubled out to the full one, are the nodes of that level of the higher |
| `Merkle.TreeFixesRoot` | prismpath-ebpf/merkle.h:17-38 | and whenever they are, with any hash |
| `Merkle.HeightsTellTrailsApart` | prismpath-ebpf/merkle.h:17-38 | record trails whose trees differ in height share a root only if some record and some pair of digests collide |
| `Merkle.SealJournal` | prismpath-ebpf/seal_receipts.c:21-51 | the root over the whole records, a torn tail reported, a journal past the limit refused |
| `Merkle.JournalIsSealed` | prismpath-ebpf/seal_receipts.c:21-51 | record after record journalled is sealed as exactly those records in order, with a torn last one noted, and refused past the limit |
| `Zeckendorf.ValueBound` | prismpath-ebpf/facet_decode.bpf.c:62-86 | non-adjacent digits stay below the next Fibonacci number |
| `Zeckendorf.DigitsAreUnique` | prismpath-ebpf/facet_decode.bpf.c:62-86 | Zeckendorf's uniqueness: non-adjacent digits are the greedy digits of their value |
| `Zeckendorf.ClosedDigitsAreCode` | prismpath-ebpf/facet_decode.bpf.c:68-71 | digits ending in a one, closed by another, are the code of their value |
| `FacetTerms.RegisterIsFaithful` | prismpath-ebpf/facet_decode.bpf.c:74-82 | for all 256 bit places no wrapped 32-bit term falls back under the cap, and terms under it are exact |
| `FacetDecoder.DecodeCtx.BitCb` | prismpath-ebpf/facet_decode.bpf.c:62-86 | one bit updates the registers in place as the step function says, with wrap-around |
| `FacetDecoder.DecodeCtx.Decode` | prismpath-ebpf/facet_decode.bpf.c:108-116 | the bounded loop and the three refusals after it |
| `FacetDecoder.RegistersParse` | prismpath-ebpf/facet_decode.bpf.c:62-86 | the wrapping registers compute what a digit parser over unbounded numbers computes |
| `FacetDecoder.ParsedIsFrame` | prismpath-ebpf/facet_decode.bpf.c:108-116 | soundness: an accepted payload is the codes of exactly the values returned, then zeros |
| `FacetDecoder.FrameParses` | prismpath-ebpf/facet_decode.bpf.c:108-116 | completeness: every frame of in-range values is accepted |
| `FacetDecoder.DecoderIsExact` | prismpath-ebpf/facet_decode.bpf.c:62-116 | a payload of at most 32 bytes decodes to v1..vn if and only if its bits are their Fibonacci codes then zeros, 1 to 16 values in 1..65535 |
| `FacetDecoder.FramesAreUnambiguous` | prismpath-ebpf/facet_decode.bpf.c:62-116 | no payload is the frame of two different value lists |
| `FacetDecoder.BytesAreNumbers` | prismpath-ebpf/facet_decode.bpf.c:62-67 | every payload byte is the binary number its own eight bits write, the most significant first |
| `FacetWire.BitAcc.PutBit` | prismpath-hw/walker-demo/bridge-fw/main/zeck.h:55-58 | one more bit stands in the buffer, the high bit of a byte first |
| `FacetWire.Greedy` | prismpath-hw/walker-demo/bridge-fw/main/zeck.h:61-74 | the greedy loop over the Fibonacci numbers gives the code of the value |
| `FacetWire.BitAcc.Encode` | prismpath-hw/walker-demo/bridge-fw/main/zeck.h:61-74 | the code of a value appended, or a refusal of zero |
| `FacetWire.BitAcc.EncodeEvent` | prismpath-hw/walker-demo/bridge-fw/main/zeck.h:77-82 | the codes of the values that are not zero, and how many bytes they take |
| `FacetWire.SentIsReceived` | prismpath-hw/walker-demo/bridge-fw/main/zeck.h:55-82 | end to end: the bytes the encoder packs for 1 to 16 values in 1..65535 decode to exactly those values |
| `FacetRewrite.FacetDecode` | prismpath-ebpf/facet_decode.bpf.c:88-162 | action, statistic and frame for every input: passed untouched, dropped for length, dropped as malformed, or rewritten consistently with nothing else changed |
| `FacetRewrite.OursMeans` | prismpath-ebpf/facet_decode.bpf.c:88-106 | the frames taken, byte by byte: IPv4, five header words, UDP, destination port 4711 |
| `FacetRewrite.Rewrite` | prismpath-ebpf/facet_decode.bpf.c:118-158 | the rewritten frame carries the values, agrees with itself on lengths and checksums, and keeps every other byte |
| `FacetRewrite.WritePayload` | prismpath-ebpf/facet_decode.bpf.c:132-143 | marker, count and little-endian values, other bytes kept |
| `FacetRewrite.WriteHeaders` | prismpath-ebpf/facet_decode.bpf.c:145-158 | lengths and checksums for the new payload, other bytes kept |
| `FacetRewrite.WriteChecksum` | prismpath-ebpf/facet_decode.bpf.c:151-158 | the header's words sum to a multiple of 0xFFFF, only the checksum bytes written |
| `FacetRewrite.ComplementCloses` | prismpath-ebpf/facet_decode.bpf.c:156-158 | two folds suffice for ten words, and the complement closes the sum |
| `FacetRewrite.EitherByteOrder` | prismpath-ebpf/facet_decode.bpf.c:151-158 | a checksum computed on host-order words is valid in network order |
| `NetFrontEnd.FillRegisters` | prismpath-ebpf/ppt_net.bpf.c:96-151 | the register file of every frame evaluated, and none for a frame passed unread |
| `NetFrontEnd.ReadTransport` | prismpath-ebpf/ppt_net.bpf.c:113-131 | ports and flags exactly for a whole TCP or UDP header in a first fragment |
| `NetFrames.TcpReads` | prismpath-ebpf/net_cert.py:41-72 | a TCP frame built field by field, with any options and payload and cut anywhere past the fixed header, is read as those fields, ports and flags exactly for a first fragment with its whole header |
| `NetFrames.UdpReads` | prismpath-ebpf/net_cert.py:41-72 | the same for UDP |
| `NetFrames.OtherReads` | prismpath-ebpf/net_cert.py:41-72 | any other protocol has no ports, whatever its bytes |
| `NetFrames.EvaluatedMeans` | prismpath-ebpf/ppt_net.bpf.c:96-104 | the frames evaluated, byte by byte |
| `NetFrontEnd.AddressRefusals` | prismpath-ebpf/net_compile.py:32-46 | no refusal exactly when no address atom orders or has a negative constant |
| `NetFrontEnd.FaithfulIsExact` | prismpath-ebpf/net_compile.py:25-46 | an address atom is decided on every address as on its unsigned number exactly when its constant is no number, or it is an equality with a constant that is not negative, `<` or `>=` with the least integer, or no comparison |
| `NetFrontEnd.RefusalMargin` | prismpath-ebpf/net_compile.py:25-46 | what is not refused is decided rightly on every address, and exactly which refused atoms would be too |
| `NetFrontEnd.SlotsStay` | prismpath-ebpf/net_compile.py:49-71 | compiling with the seeded schema keeps every schema field in its slot |
| `NetFrontEnd.SignedDecidesUnsigned` | prismpath-ebpf/ppt_net.bpf.c:105-164 | with no refusal, deciding over the signed registers is deciding over the unsigned ones |
| `NetFrontEnd.UnsignedReads` | prismpath-ebpf/net_cert.py:59-72 | the unsigned registers are the canonical reading field by field, absent where it is absent |
| `NetFrontEnd.UnsignedDecidesHop` | prismpath-ebpf/net_cert.py:59-72 | the table on the canonical reading takes the host engine's hop |
| `NetFrontEnd.KernelTakesHostHop` | prismpath-ebpf/ppt_net.bpf.c:96-164 | for every frame evaluated and every admitted table with no refusal, the kernel evaluation goes where the host engine goes on the canonical reading |

## Left out

Premises the code needs, stated in the contracts:

- TableRunIsEngineRun: asks for at most 0x8000 atoms and 0xFFFF fields, a header stack bound within the interpreter's 64, at least one outcome per scripted node and conditions within the kernel's depth bound of 50; the compiler raises or the interpreter exits past them.
- RunScript: asks for the ranges, targets and start that the compiler guarantees (`CompiledImageIsSound`) and the loader does not check, and that no program reads an operand or an atom that is not there; the C code's out-of-range reads have no meaning to model. Overflow and unknown opcodes are faults of the run.
- Iterate: asks the same.
- Route: asks that a table that parses is sound and its programs run, as the compiler guarantees; the firmware does not check it.
- EvalProg: leaves an operator without its operands and an atom past the table undefined, as C does, and asks that they do not happen; the compiler and both admission checkers exclude them.
- Evaluate: asks that no program of the scan meets such an undefined word; the kernel evaluator of the same name has no such premise.
- SelectorIsSafe: asks that the 32-bit generation does not go all the way round between one snapshot and its commit.
- SwapIsAtomic: the loader has one update in progress at a time; two loaders at once are not modelled.
- TrailIsOneChain: swaps are quiesced, as the source's comment asks, their map writes succeed and their receipts are stored; it starts where loader and kernel read the same resident node (`SourceIsResident`) and fewer than 2^32 transitions happen. A commit whose event value is the migration marker is told apart by its sequence number only.
- SelectorHotswap: the table write inside a swap does not fail half way.
- SealBinds: asks for no collision only between strings hashed at the same place of the two trees, not that the hash is injective, which no hash with a fixed output length is.
- ParseInvertsSerialize: a colour list is given for every node when the flag declares colours.
- KernelTakesHostHop: one hop, the program's single evaluation per packet, on a policy that reads schema fields only; the compiler warns of others.
- FlattenNodes: takes the nested programs as values; `TableImage` does not keep nodes and colours as fields, `CompileFlow` returns them instead.
- Encode: the Fibonacci table has any number of places, 78 in the firmware, and the value lies below the number after the last of them; larger ones are not modelled.
- Handle: the packet is alone on the cell; contention is the state machine's (`SelectorIsSafe`).

Not part of this model:

- The tokenizer, Python's `ast`, chain desugaring, the Level M classifier and the static predicate check: conditions start as tokens or as Level M trees.
- Markdown and frontmatter parsing; LED colour parsing, colours being values handed to the writer.
- The bytes of script and register files: rows are sequences of registers.
- The engine's state map, outcome record and the text rendering of non-string outcomes, which routing reads only as a text field.
- The verdict histogram, result maps and debug dumps, which nothing reads back to decide.
- The crafted-packet header of the selector and conformance programs: events are register files.
- The order in which the ring buffer delivers receipts; receipts carry their sequence number.
- SHA-256 itself, an arbitrary function here; policy hashes are opaque numbers; a receipt's 64-bit words are two halves of 32 bits.
- libbpf, XDP attach, pins, file reading, process exits, the command line, signatures, keys, packs and envelopes.
- The circuit, its timing and cycle bounds; quantization and the spiral layout.
- The second host evaluator of the loader, which repeats the in-kernel one line for line.
