# Verified models of a collection of C++ programs

Each program of the collection is modelled by its own modules, in the form the program has:
classes and loops where it updates state, functions where it computes values, a step relation where
threads interleave. The main results are these.

- **Brainfuck** (`Brainfuck*.dfy`): the optimising bytecode compiler is correct with respect to the direct
  interpreter, for all programs that halt, for every hash order, and exactly when both use the same cell
  modulus; and its bytecode halts on nothing more, when the loops it replaces by CLEAR have a net change
  that is invertible modulo the cell size, which is exactly when those loops always end.
- **Git** (`GitTree*.dfy`, `GitPack*.dfy`, `Lexicographic.dfy`): an index written as nested
  trees and flattened again is unchanged exactly for plain indexes; tree names do not depend on hash
  order, and the trees list full names in ascending order with one characterised exception; pack lookup equals a linear filter except for one characterised overrun; every object of a written pack is extracted as it was, however its deltas are chained, with the exact sizes up to which 32-bit arithmetic carries them.
- **Puzzles** (`Queens.dfy`, `Skyscraper*.dfy`): both backtracking searches are sound, complete and
  terminating, and undo their changes exactly.
- **cdiff** (`Diff*.dfy`): the tracebacks spell both files, keep the same lines, and no diff changes fewer.
- **Big integers** (`BigInt*.dfy`): all operators against integer arithmetic, on every value they
  produce; division with the exact
  condition under which it is right.
- **Bitcask** (`Bitcask*.dfy`): replay rebuilds the directory exactly for distinguishable writes; a torn
  log replays to an earlier point of the run, and what a later append to it leaves readable is stated
  exactly.
- **LRU cache** (`OrderedMap.dfy`, `LruCache.dfy`): correct for recursive functions at every capacity exactly
  when equal hashes mean equal values, with least-recently-used eviction.
- **SHA-1 padding** (`Sha1*.dfy`): the block feeder against the bit-vector code and section 5.1.1 of
  FIPS 180-4, with the exact lengths at which they differ.
- **CSV** (`Csv*.dfy`): the grammar that the parser accepts, and what the streaming reader recovers of
  written rows, for all rows.
- **Thread pool** (`ThreadPool.dfy`): conservation, order and `wait` in every interleaving, and exactly
  when the destructor can finish.
- **Minesweeper** (`Minesweeper.dfy`): the board invariants in every reachable state and an exact flood
  fill.

`Wrappers.dfy`, `Seqs.dfy`, `Powers.dfy` and `ModArith.dfy` hold what several programs share.

Integers are unbounded unless a wrap-around or truncation is written out. Clocks, file systems, hash
functions, hash-table iteration order, shuffles, zlib and checksums are parameters. Where code and
documentation disagree the model follows the code: the Brainfuck bytecode reduces cells modulo 255
although cells have 256 values; the worker loop of the thread pool takes no task once the exit flag is
set, although its policy is named ALL_TASKS_COMPLETE; the last call of SHA-1's feeder writes the length
at offset 0 for lengths of 56 to 62 modulo 64; trees are sorted as if every entry but a regular file were a
directory, where git means directories only.

`dafny verify dfyconfig.toml` checks the whole project.

## Model

| member | source | states |
|---|---|---|
| `BrainfuckSource.ScanIffProgram` | misc/brainfuck.cpp:142-168 | The bracket check accepts exactly the texts of program trees: a text passes if and only if some tree flattens to it. |
| `BrainfuckSource.FindCloseSkips` | misc/brainfuck.cpp:299-304 | The forward bracket scan passes over any embedded balanced text without changing its count, so it stops at the matching bracket. |
| `BrainfuckSource.InterpFollowsTree` | misc/brainfuck.cpp:268-316 | From the position of an embedded tree, a halting interpreter run (position, explicit loop stack, machine state) goes through the position after the tree with the stack unchanged and the tree's evaluation as state. |
| `BrainfuckSource.InterpComputesEval` | misc/brainfuck.cpp:268-316 | If the interpreter halts, the independent tree evaluation halts with the same state. |
| `BrainfuckLimits.InterpIffEval` | misc/brainfuck.cpp:268-316 | The interpreter halts in t if and only if the tree evaluation gives t: neither can halt without the other. |
| `BrainfuckLimits.MachineHaltsOnce` | misc/brainfuck.cpp:352-403 | The bytecode machine reaches at most one final state. |
| `BrainfuckBytecode.WriteOutRun` | misc/brainfuck.cpp:483-490 | Reducing shifts and values when the bytecode is written does not change any run of the machine, although C++ `%` keeps the sign. |
| `BrainfuckBytecode.LayoutRuns` | misc/brainfuck.cpp:352-403 | Code that holds the layout of nested blocks runs from their first position to just past their last one with the blocks' meaning: all jump targets are right. |
| `BrainfuckCompiler.CompileIsLayout` | misc/brainfuck.cpp:417-471 | The compiler loop (instruction vector, stack of loop starts, run folding, patched jumps, loop removal) turns the text of any tree into the layout of the blocks built from that tree. |
| `BrainfuckCompiler.CloseKeepsLoop` | misc/brainfuck.cpp:432-434 | Patching LSTART and appending LEND yields the layout of a loop with both targets matched. |
| `BrainfuckCompiler.CompileProgram` | misc/brainfuck.cpp:407-471 | Compiling a whole program is laying out its blocks from position 0. |
| `BrainfuckLoops.PassAddsGains` | misc/brainfuck.cpp:239-251 | One pass over an analysed loop body adds to every cell, modulo M and with wrap-around addressing, what the analysis collected for it. |
| `BrainfuckLoops.AcceptedLoopDistributes` | misc/brainfuck.cpp:232-257 | An accepted distribution loop, run to completion, clears the start cell and adds its old value times the gains everywhere else, by induction on the iterations. |
| `BrainfuckLoops.ReplacementDistributes` | misc/brainfuck.cpp:458-467 | The UPDATE_BY_CURR instructions, in any order, followed by CLEAR do the same. |
| `BrainfuckLoops.DistributedUnique` | misc/brainfuck.cpp:453-468 | Those two descriptions determine the final state, so loop and replacement agree. |
| `BrainfuckLoops.UpdateLoopClears` | misc/brainfuck.cpp:441-444 | A terminating loop of one value update equals CLEAR. |
| `BrainfuckLoops.ShiftLoopSeeks` | misc/brainfuck.cpp:447-450 | A terminating loop of one shift equals SHIFTPTR_ZERO. |
| `BrainfuckCorrect.EffectOfBuild` | misc/brainfuck.cpp:239-256 | The analysis of the folded instructions equals the analysis of the source text. |
| `BrainfuckCorrect.BuildPreserves` | misc/brainfuck.cpp:417-471 | Blocks built from a tree do what the blocks so far do and then what the tree does: folding, loop replacement and nesting keep the meaning. |
| `BrainfuckCorrect.CompilerCorrect` | misc/brainfuck.cpp:407-490 | Compiler correctness: if the interpreter halts on a balanced program, the compiled and written-out bytecode halts with the same memory, pointer, input position and output, for every hash order and one shared modulus. |
| `BrainfuckCorrect.ShortProgramsAreSafe` | misc/brainfuck.cpp:459-464 | A program no longer than the tape meets the no-aliasing condition of CompilerCorrect. |
| `BrainfuckCorrect.AgreeIffSameModulus` | misc/brainfuck.cpp:279-282 | Interpreter and bytecode agree on all programs and states if and only if they use the same cell modulus (the source uses 256 and 255). |
| `BrainfuckCorrect.DecrementDisagrees` | misc/brainfuck.cpp:357-357 | With different moduli the program `-` on an all-zero tape ends differently. |
| `BrainfuckLimits.OnlyBytecodeHalts` | misc/brainfuck.cpp:441-444 | The converse of CompilerCorrect fails without a condition: `[+-]` never ends when interpreted, and its bytecode is one CLEAR. |
| `BrainfuckReflect.LayoutFollows` | misc/brainfuck.cpp:352-403 | The converse of LayoutRuns: a halting machine run from the first position of laid-out blocks passes the position after them in the state the blocks compute, so the blocks end. |
| `BrainfuckReflect.MachineReflects` | misc/brainfuck.cpp:352-403 | What the compiled and written-out bytecode halts in, the blocks of the program compute. |
| `BrainfuckExact.UpdateLoopEndsIff` | misc/brainfuck.cpp:441-444 | A loop that folds to one value update ends from every state if and only if its net change has an inverse modulo M. |
| `BrainfuckExact.DistributionEnds` | misc/brainfuck.cpp:232-257 | A distribution loop that does not alias its start cell always ends, after as many passes as that cell holds. |
| `BrainfuckExact.BuildReflects` | misc/brainfuck.cpp:417-471 | The converse of BuildPreserves: if the blocks built from a tree halt, so do the blocks before it and then the tree, in the same state, when its update loops have invertible net changes. |
| `BrainfuckExact.CompilerReflects` | misc/brainfuck.cpp:407-490 | The converse of CompilerCorrect: if the bytecode of such a program halts, the interpreter halts in the same state. |
| `BrainfuckExact.CompilerExact` | misc/brainfuck.cpp:407-490 | Interpreter and bytecode then halt from the same states and in the same states: each ends in t if and only if the other does. |
| `BrainfuckExact.LoneLoopExactIff` | misc/brainfuck.cpp:441-444 | For a program that is one such loop the condition is exact: both end alike from all states if and only if the net change is invertible. |
| `BrainfuckJumps.LoopsLeft` | misc/brainfuck.cpp:436-468 | The bytecode of a program has a loop for exactly those loops of the source that are neither a run of updates, nor a run of shifts, nor an accepted distribution, nor inside one of these: no replacement is missed. |
| `BrainfuckAliasing.AliasingLoopMiscompiled` | misc/brainfuck.cpp:459-467 | Without the no-aliasing condition the compiler is wrong on every tape of N >= 2 cells, for every modulus of at least 5 and every hash order: a loop that walks N cells right, adds 2, walks N - 1 left, adds 1, walks 1 left and subtracts 1. |
| `BrainfuckTool.RunFits` | misc/brainfuck.cpp:275-316 | On a balanced program the interpreter's loop stack never underflows and its bracket scan never leaves the text, in every reachable configuration. |
| `BrainfuckTool.BrainFuck.ValidateCode` | misc/brainfuck.cpp:142-168 | Returns true exactly for program texts. |
| `BrainfuckTool.BrainFuck.InterpretCode` | misc/brainfuck.cpp:268-316 | The interpreter loop over memory array, pointer and loop stack ends in the state of the interpreter relation. |
| `BrainfuckTool.BrainFuck.ExecuteByteCode` | misc/brainfuck.cpp:346-404 | The machine loop, with its inner SHIFTPTR_ZERO search, ends in the state of the machine relation. |
| `BrainfuckTool.BrainFuck.ValidateSimpleDistributionLoop` | misc/brainfuck.cpp:232-257 | Accepts exactly the bodies with net shift 0 and net change -1 on the start cell, and returns their gains. |
| `BrainfuckTool.BrainFuck.CompileFile` | misc/brainfuck.cpp:407-491 | Fails exactly on unbalanced text and otherwise produces the bytecode of the compiler function. |
| `ModArith.TruncRemResidue` | misc/brainfuck.cpp:483-490 | The C++ remainder is in the residue class of its operand. |
| `BigIntUnsigned.OrderIsNumeric` | misc/bigint.hpp:29-39 | On canonical chunk lists the comparison by length and then from the top chunk is the order of the values. |
| `BigIntUnsigned.AbsCompare` | misc/bigint.hpp:29-39 | Computes that comparison on any chunks, and the numeric order on canonical ones. |
| `BigIntUnsigned.Clean` | misc/bigint.hpp:20-23 | Drops high-order zero chunks without changing the value. |
| `BigIntUnsigned.Add` | misc/bigint.hpp:51-65 | Exact sum, every chunk below 10000, canonical if the operands are. |
| `BigIntUnsigned.Sub` | misc/bigint.hpp:68-83 | Exact difference when it is not negative; otherwise the borrow out of the top chunk is dropped, which adds 10000 to the power of the length. |
| `BigIntUnsigned.Multiply` | misc/bigint.hpp:85-103 | Exact product, canonical, every index in range. |
| `BigIntUnsigned.AddRow` | misc/bigint.hpp:87-95 | One row adds chunk times number at its offset; the carry stays below 10000. |
| `BigIntDigits.CanonicalUnique` | misc/bigint.hpp:20-23 | A value has one canonical chunk list. |
| `BigIntDivision.OrderByLimit` | misc/bigint.hpp:119-130 | Against a canonical number, the comparison on a running remainder with a zero on top is comparison with the largest number of one chunk less. |
| `BigIntDivision.SearchQuotient` | misc/bigint.hpp:125-140 | The binary search finds the unique quotient chunk and never takes its unsigned bound below zero. |
| `BigIntDivision.BringDown` | misc/bigint.hpp:115-146 | One step of the long division on an arbitrary running remainder. |
| `BigIntDivision.StepKeeps` | misc/bigint.hpp:114-147 | One step keeps the exact account of the division: right so far while the safety condition holds, quotient and remainder too large for ever after. |
| `BigIntDivision.Div` | misc/bigint.hpp:105-151 | Fails exactly on an empty divisor; returns quotient and remainder if and only if the dividend is safe for the divisor, otherwise a quotient and a remainder that are both too large. |
| `BigIntDivision.NoZeroChunkIsSafe` | misc/bigint.hpp:114-122 | A dividend without zero chunks is safe. |
| `BigIntDivision.ShortDividendIsSafe` | misc/bigint.hpp:114-122 | A dividend at most one chunk longer than the divisor is safe. |
| `BigIntDivision.ZeroChunkOnEmptyRemainder` | misc/bigint.hpp:115-122 | Chunks [7,0,5] by [5]: a zero brought down onto an empty remainder makes the result wrong. |
| `BigIntSigned.Compare` | misc/bigint.hpp:41-49 | Decides the integer order on canonical values if and only if the operands are not two zeros of different sign flag. |
| `BigIntSigned.Negate` | misc/bigint.hpp:254-254 | The integer negative with the sign flag turned, so zero and negative zero are exchanged. |
| `BigIntSigned.Plus` | misc/bigint.hpp:265-279 | Integer addition on all values without high-order zero chunks, either zero included; the sum is a negative zero exactly for two negative zeros. |
| `BigIntSigned.Minus` | misc/bigint.hpp:282-296 | Integer subtraction on the same values; a negative zero exactly for a negative zero less a positive one. |
| `BigIntSigned.Times` | misc/bigint.hpp:299-304 | Integer multiplication on the same values; a negative zero exactly when one factor is zero and the signs differ. |
| `BigIntSigned.TruncatedDivision` | misc/bigint.hpp:307-331 | The quotient and remainder that the operators are measured against satisfy a = q*b + r, &#124;r&#124; < &#124;b&#124;, and r is zero or of the sign of a. |
| `BigIntSigned.Over` | misc/bigint.hpp:307-318 | Fails exactly on a zero divisor of either sign; otherwise gives the truncated quotient if and only if the operands are safe, and never a negative zero. |
| `BigIntSigned.Modulo` | misc/bigint.hpp:321-331 | Fails exactly on a zero divisor of either sign; otherwise gives the truncated remainder if and only if the operands are safe, with the exact sign flag of a zero remainder. |
| `DiffLcs.LcsIsUpperBound` | cli/cdiff.cpp:32-47 | No common subsequence of two prefixes is longer than the grid value. |
| `DiffLcs.ComputeLcsGrid` | cli/cdiff.cpp:32-47 | The grid filled by the nested loops holds that value for every pair of prefixes. |
| `DiffTraceback.ScriptSpells` | cli/cdiff.cpp:239-253 | The traceback's kept and removed lines spell file 1, its kept and added lines spell file 2, with the recorded line numbers, and it keeps as many lines as the grid says. |
| `DiffTraceback.ScriptIsOptimal` | cli/cdiff.cpp:239-253 | The kept lines are a common subsequence of maximal length, under the code's tie rule, for every pair of files. |
| `DiffTraceback.InsertsOnTies` | cli/cdiff.cpp:245-252 | The tie rule: where the last lines differ, the script ends with an insertion if and only if some shortest script does. |
| `DiffTraceback.UnifiedDeltas` | cli/cdiff.cpp:228-253 | The traceback loop of the unified mode produces that script, ending in the sentinel entry. |
| `DiffTraceback.DefaultHunks` | cli/cdiff.cpp:330-351 | The traceback of the default mode produces maximal runs of changed lines that carry the right positions in both files, leave alone exactly the lines that the unified script keeps, at the same positions, and patch file 1 into file 2 with the minimal number of changes. |
| `DiffTraceback.KeptDeterminesHunks` | cli/cdiff.cpp:330-351 | Two lists of maximal hunks between the same files that leave the same lines alone are equal, so DefaultHunks is determined by its contract. |
| `DiffTraceback.PatchLeavesCommon` | cli/cdiff.cpp:330-351 | The lines that any patch leaves alone are a common subsequence, and the patch changes all others. |
| `DiffTraceback.DefaultDiffIsMinimal` | cli/cdiff.cpp:330-351 | No list of hunks that patches file 1 into file 2 changes fewer lines. |
| `Queens.SolutionCovers` | puzzles/queens.cpp:316-321 | A placement of one queen per row uses every column and every region. |
| `Queens.QueensSolver.CheckNeighbours` | puzzles/queens.cpp:160-172 | True exactly when one of the up to eight cells around has a queen. |
| `Queens.QueensSolver.Check` | puzzles/queens.cpp:174-180 | True exactly when the queen extends the legal placement on the board to a legal one. |
| `Queens.QueensSolver.Set` | puzzles/queens.cpp:182-185 | Keeps board, free columns and free regions in step with the placement. |
| `Queens.QueensSolver.Unset` | puzzles/queens.cpp:187-190 | Undoes Set exactly. |
| `Queens.QueensSolver.Backtrack` | puzzles/queens.cpp:337-343 | Popping an exhausted row keeps the search invariant: nothing legal lies before the position reached. |
| `Queens.QueensSolver.Descend` | puzzles/queens.cpp:346-349 | Placing a queen and descending keeps the search invariant. |
| `Queens.QueensSolver.Advance` | puzzles/queens.cpp:351-352 | Skipping a square that cannot be used keeps the search invariant. |
| `Queens.QueensSolver.Solve` | puzzles/queens.cpp:327-356 | Always terminates; returns true if and only if a solution exists, leaving the lexicographically first one with no free column or region, and otherwise leaves everything as it was. |
| `SkyscraperLines.StackCountsVisible` | puzzles/skyscrapers.cpp:23-31 | The size of the popped stack is the number of buildings not lower than any after them. |
| `SkyscraperLines.ComputeHintActuals` | puzzles/skyscrapers.cpp:20-32 | Returns the numbers of buildings visible from the left and from the right, for every line. |
| `SkyscraperLines.LeftHintBound` | puzzles/skyscrapers.cpp:132-133 | In a line that meets its near hint, the height at a position is bounded by the hint; the pruning bound follows. |
| `SkyscraperLines.RightHintBound` | puzzles/skyscrapers.cpp:124-125 | The same from the far side. |
| `Skyscrapers.PruningKeepsCompletions` | puzzles/skyscrapers.cpp:108-139 | Pruning by row, column and the four hints never removes the value of any valid completion. |
| `Skyscrapers.PruningIsExact` | puzzles/skyscrapers.cpp:119-133 | A near hint keeps exactly the heights that some line with that hint reaches at that distance; a far hint keeps one height more; hints too small to matter keep all. |
| `SkyscraperLines.AttainableIff` | puzzles/skyscrapers.cpp:119-120 | Some line of n buildings that shows h of them reaches height v at distance i exactly up to n - h + 1 + i. |
| `SkyscraperLines.FarAttainableIff` | puzzles/skyscrapers.cpp:123-124 | The same seen from the far end. |
| `SkyscraperSolver.CandidatesFor` | puzzles/skyscrapers.cpp:108-139 | Computes exactly the candidates kept by the rules. |
| `SkyscraperSolver.GenerateCandidates` | puzzles/skyscrapers.cpp:97-145 | Does so for every empty cell, and leaves given cells without candidates. |
| `SkyscraperSolver.InitialInvariant` | puzzles/skyscrapers.cpp:327-330 | The generated candidates satisfy the search invariant. |
| `Skyscrapers.PlaceKeepsComplete` | puzzles/skyscrapers.cpp:171-196 | Placing a candidate and pruning its row and column keeps every completion with that candidate. |
| `Skyscrapers.PlaceKeepsSound` | puzzles/skyscrapers.cpp:171-196 | And keeps the remaining candidates consistent with the grid. |
| `Skyscrapers.PlaceKeepsChecked` | puzzles/skyscrapers.cpp:198-210 | And keeps all full lines checked, if the two lines just touched are. |
| `Skyscrapers.FailedHintIsFinal` | puzzles/skyscrapers.cpp:198-212 | A full line that misses its hints has no completion. |
| `Skyscrapers.FullIsDone` | puzzles/skyscrapers.cpp:166-168 | A full grid under the invariant is a completion. |
| `SkyscraperSolver.Solver.PickCell` | puzzles/skyscrapers.cpp:151-168 | Finds an empty cell with fewest candidates, or a dead end, or that no cell is empty. |
| `SkyscraperSolver.Solver.Prune` | puzzles/skyscrapers.cpp:176-196 | Removes the value from exactly the empty cells of the row and the column, records them once, and reports full lines and starved cells. |
| `SkyscraperSolver.Solver.Restore` | puzzles/skyscrapers.cpp:215-218 | Gives back exactly the candidates before the pruning. |
| `SkyscraperSolver.Solver.TryCandidate` | puzzles/skyscrapers.cpp:171-219 | One candidate: on failure everything is as before and no completion has that value there. |
| `SkyscraperSolver.Solver.BacktrackSolve` | puzzles/skyscrapers.cpp:147-222 | True only with a Latin completion meeting the hints of every line that had an empty cell; false only when none exists, grid and candidates restored exactly. |
| `SkyscraperSolver.Solve` | puzzles/skyscrapers.cpp:327-330 | The whole solver on any board whose givens do not clash: false if and only if there is no such completion. |
| `SkyscraperSolver.AllHintsMetIff` | puzzles/skyscrapers.cpp:199-210 | Lines already complete among the givens are not checked: the answer meets all hints if and only if those lines do. |
| `OrderedMap.OrderedMap.Find` | misc/ordered_map.hpp:114-122 | Finds the entry exactly when the key is in the list. |
| `OrderedMap.OrderedMap.Insert` | misc/ordered_map.hpp:41-49 | Overwrites in place or appends; list and lookup stay in step. |
| `OrderedMap.OrderedMap.Emplace` | misc/ordered_map.hpp:53-59 | Moves or adds the key at the end with the new value. |
| `OrderedMap.OrderedMap.Erase` | misc/ordered_map.hpp:61-70 | Removes exactly that key and says whether it was there. |
| `OrderedMap.OrderedMap.Touch` | misc/ordered_map.hpp:73-81 | Moves the key to the end and returns its value; fails exactly on a missing key. |
| `LruCache.Cache.EnsureCapacity` | misc/cache.hpp:38-41 | Leaves exactly the most recently used entries that fit. |
| `LruCache.Cache.Call` | misc/cache.hpp:70-83 | Value and contents after a call are those of the functional cache at the same capacity, and the counters grow by its exact numbers of hits and misses, recursive calls included, one use each; with compatible hashes and right entries the value is the function's own, even when recursive calls evict; the cache holds the most recently used keys in order. |
| `LruCache.Cache.Hit` | misc/cache.hpp:79-82 | A hit returns the stored value, moves the entry to the end and counts one hit and no miss. |
| `LruCache.Cache.Miss` | misc/cache.hpp:72-76 | A call that finds nothing counts one miss, computes through the cache and stores: exactly what the functional cache does. |
| `LruCache.Cache.Compute` | misc/cache.hpp:74-74 | Running the function with recursive calls through the cache threads the contents through them in order. |
| `LruCache.Cache.Store` | misc/cache.hpp:74-76 | Storing the new entry evicts the least recently used ones first and never the new one. |
| `LruCache.Cache.Resize` | misc/cache.hpp:89-94 | Fails exactly on capacity 0; otherwise keeps the most recent entries that fit. |
| `LruCache.UsedKey` | misc/cache.hpp:74-81 | Using a key keeps the cache a suffix of all keys in order of last use. |
| `LruCache.CallIsRight` | misc/cache.hpp:70-83 | With compatible hashes, a call on right entries returns the cache-free value and leaves right entries, by induction over the recursion of the function. |
| `LruCache.CallIsNewest` | misc/cache.hpp:74-76 | The entry just called is the newest and within capacity: a call never evicts its own entry. |
| `LruCache.SameHashSameValue` | misc/cache.hpp:70-83 | Whatever the cache holds, a call with the hash of the call before it repeats its value. |
| `LruCache.AlwaysRightIffCompatible` | misc/cache.hpp:70-83 | Every sequence of calls on a fresh cache returns the function's values if and only if arguments with equal hash have equal values; otherwise two calls are enough to return a wrong one. |
| `Sha1Feeder.FeederProduces` | cryptography/hashlib.hpp:13-42 | The concatenated blocks of all calls, in closed form, for every message. |
| `Sha1Feeder.FeederPadsIff` | cryptography/hashlib.hpp:13-42 | They are the padding of section 5.1.1 of FIPS 180-4 if and only if the byte length mod 64 is not 56 to 62. |
| `Sha1Feeder.Sha1BlockFeeder.NextBlock` | cryptography/hashlib.hpp:13-42 | One call refines one step of the five-state machine; false exactly when finished. |
| `Sha1Feeder.AllBlocks` | cryptography/hashlib.hpp:111-111 | The calling loop terminates and produces exactly that stream in blocks of 64. |
| `Sha1Words.NewWords` | cryptography/hashlib.hpp:111-119 | The block-to-words step gives the big-endian words of the stream. |
| `Sha1Words.OldPadding` | cryptography/hashlib-old.hpp:29-55 | The bit-vector loops produce message bits, a one, the least number of zeros and the 64-bit length. |
| `Sha1Words.PaddingsAgree` | cryptography/hashlib-old.hpp:29-55 | The bits of the byte padding are the bit padding, for every message. |
| `Sha1Words.OldWords` | cryptography/hashlib-old.hpp:57-69 | Splitting the bit vector gives the words whose bits it holds. |
| `Sha1Words.WordsAgree` | cryptography/hashlib-old.hpp:57-69 | Both word splits of the same padding give the same words. |
| `Sha1Words.WordsAgreeIff` | cryptography/hashlib-old.hpp:29-69 | The new and the old code hand the same 16-word blocks to the rounds if and only if the byte length mod 64 is not 56 to 62. |
| `Sha1Words.CompareVersions` | cryptography/hashlib-old.hpp:29-69 | Both pipelines, composed as methods, with that equivalence on their results. |
| `BitcaskLog.ReadBack` | cli/bitcask.cpp:85-126 | A record written whole is read back with its fields and the offset of its value. |
| `BitcaskLog.ReadTorn` | cli/bitcask.cpp:96-126 | A record cut short anywhere is read as end of file, never as a record and never as corrupt. |
| `BitcaskLog.AcceptedIff` | cli/bitcask.cpp:96-126 | On arbitrary bytes: end of file exactly when no whole record is there, and a record exactly when the number in front is the checksum of all bytes after it: timestamp, sizes, key and value. |
| `BitcaskLog.LoadFile` | cli/bitcask.cpp:173-201 | The replay loop of one file, for arbitrary bytes: stops at the end or at a wrong checksum. |
| `BitcaskLog.LoadPrefix` | cli/bitcask.cpp:183-194 | Replaying a file cut at byte c gives the directory of exactly the records that fit whole. |
| `BitcaskLog.LoadWhole` | cli/bitcask.cpp:183-194 | An uncut file replays to all its records. |
| `BitcaskLog.TornThenAppended` | cli/bitcask.cpp:183-194 | A log cut at byte c, reopened and appended to: on a record boundary the next replay sees the whole records and everything appended; elsewhere it sees exactly the whole records before the cut, unless the spliced bytes pass for a record. |
| `BitcaskLog.TornRecordIsSpliced` | cli/bitcask.cpp:96-126 | When they do: the torn record takes the missing bytes from what was appended, is end of file if there are too few, and otherwise a record exactly if the checksum of the splice equals that of the original. |
| `BitcaskStore.StepInStepIff` | cli/bitcask.cpp:187-193 | A set or erase keeps replay and live directory equal if and only if its timestamp exceeds the live one of its key and it does not look like a tombstone. |
| `BitcaskStore.ReplayRebuildsIff` | cli/bitcask.cpp:183-194 | Replay rebuilds the live directory after every operation of a run if and only if every write was so distinguishable. |
| `BitcaskStore.IncreasingIsDistinguishable` | cli/bitcask.cpp:256-289 | Strictly increasing timestamps below the tombstone value are enough. |
| `BitcaskStore.GetReturnsLast` | cli/bitcask.cpp:263-275 | After any run at all, directory and bytes give for every key the value last set and not erased since. |
| `BitcaskStore.LogsHoldTheRun` | cli/bitcask.cpp:203-209 | In every state the logs hold the records of the run in order, and each log but the last was closed at the size limit, neither earlier nor later. |
| `BitcaskStore.TornTailIsAPrefix` | cli/bitcask.cpp:183-194 | Cutting the newest log at any byte replays to the live directory of some point of the run. |
| `BitcaskStore.LoadAll` | cli/bitcask.cpp:230-246 | All files in order of their ids, damaged ones as far as they go; the log to append to is the largest that an undamaged file asks for (its own id, or the next if it is full), or the first. |
| `BitcaskStore.FullIsNotCurrent` | cli/bitcask.cpp:230-246 | A log that loads is never appended to once it is full. |
| `BitcaskStore.Bitcask.constructor` | cli/bitcask.cpp:212-249 | Opening an empty datastore gives a valid empty store, and opening what a run left behind gives the store as it was. |
| `BitcaskStore.Bitcask.Set` | cli/bitcask.cpp:256-261 | Directory, bytes and current log after a set are those of the run extended by it. |
| `BitcaskStore.Bitcask.Get` | cli/bitcask.cpp:263-275 | Returns the value last set and not erased since, and nothing for other keys. |
| `BitcaskStore.Bitcask.Erase` | cli/bitcask.cpp:277-289 | Returns the old value; the store is that of the run extended by the erase. |
| `BitcaskStore.Bitcask.Write` | cli/bitcask.cpp:203-209 | Appends a record and starts a new log exactly when the size limit is reached. |
| `GitPackIndex.GetPackIdxOffsetStart` | cgit/src/GitPack.cpp:22-43 | The binary search returns the first position of the range not below the part, stays in range whatever lies past the table, and never takes its unsigned bound below zero. |
| `GitPackIndex.GetHashMatchFromIndex` | cgit/src/GitPack.cpp:45-79 | Fan-out, binary search and forward scan return exactly the linear filter of the table, in order, plus the entry past the table if and only if the scan overruns, with the lenient parsing of `stoi`; each error exactly when it is due. |
| `GitPackIndex.ParsedIsBucket` | cgit/src/GitPack.cpp:54-61 | What `stoi` makes of the first two characters is the bucket of every name that starts with the part, also when it accepts less than two hex digits. |
| `GitPackIndex.StoiIff` | cgit/src/GitPack.cpp:54-54 | What `stoi` in base 16 makes of two characters, as a grammar: one or two digits in either case, or a blank or a sign before one digit; nothing else. |
| `GitPackIndex.StartsConvex` | cgit/src/GitPack.cpp:69-75 | The names with a given prefix are contiguous, so the scan may stop at the first mismatch. |
| `GitPackIndex.OverrunHappens` | cgit/src/GitPack.cpp:69-75 | A well-formed index on which the bytes after the table are reported as a match. |
| `GitPackCodes.ReadVarLenInt` | cgit/src/GitPack.cpp:121-133 | Reads a little-endian base-128 number from the front, in a signed 32-bit variable widened to the unsigned size. |
| `GitPackCodes.VarRoundTripIff` | cgit/src/GitPack.cpp:121-133 | Reading gives back a written size if and only if it is below 2^31, whatever follows. |
| `GitPackCodes.VarRoundTripCut` | cgit/src/GitPack.cpp:121-133 | A written size can be read at all if and only if it is below 2^35, and then its low 32 bits are right. |
| `GitPackCodes.VarReadsSigned` | cgit/src/GitPack.cpp:121-133 | The number read is exactly the low 32 bits of what was written, taken as a signed number and spread to 64 bits. |
| `GitPackCodes.ReadOffset` | cgit/src/GitPack.cpp:196-205 | The offset loop with its added ones. |
| `GitPackCodes.OffsetRoundTrip` | cgit/src/GitPack.cpp:196-205 | Decoding undoes encoding, for every number and whatever follows. |
| `GitPackCodes.OffsetCodesAll` | cgit/src/GitPack.cpp:196-205 | Encoding undoes decoding: every continuation-bit string is the code of the number it decodes to; with OffsetRoundTrip a bijection. |
| `GitPackCodes.ReadHeader` | cgit/src/GitPack.cpp:171-186 | The type-and-length loop with its 32-bit shifts, including its restart while the type is 0. |
| `GitPackCodes.HeaderRoundTripIff` | cgit/src/GitPack.cpp:171-186 | A written header can be read if and only if its length is below 2^32, and then gives back type and length. |
| `GitPackCodes.ZeroKindRestarts` | cgit/src/GitPack.cpp:171-186 | Continuing bytes of type 0 in front of a header are skipped, and a last byte of type 0 ends it. |
| `GitPackDelta.SparseRoundTrip` | cgit/src/GitPack.cpp:268-275 | The optional offset and size bytes with their flag bits are read back. |
| `GitPackDelta.Patch` | cgit/src/GitPack.cpp:246-300 | The instruction loop equals the recursive application of the delta, with all its errors. |
| `GitPackDelta.CopyMeans` | cgit/src/GitPack.cpp:266-281 | A written copy appends its bytes, ends with the base if it would reach past it, is an error exactly if it starts past it, and copies 0x10000 bytes when the size is left out. |
| `GitPackDelta.SizesAreChecked` | cgit/src/GitPack.cpp:246-251 | A delta with any two sizes in front is refused exactly when the first is not that of the base or the second not that of what it produces. |
| `GitPackDelta.DeltaRoundTripIff` | cgit/src/GitPack.cpp:246-288 | A delta written for its base, of any copies and insertions, produces what the instructions mean if and only if the base is below 2^31 bytes and the target below 2^32. |
| `GitPackChain.OffsetEntryReads` | cgit/src/GitPack.cpp:195-209 | An offset delta as git writes it is read as a reference back by its distance. |
| `GitPackObjects.WholeEntryReads` | cgit/src/GitPack.cpp:188-192 | An undeltified object is read from just after its header, with its own type and size, if and only if the size is below 2^32. |
| `GitPackObjects.NameEntryReads` | cgit/src/GitPack.cpp:212-217 | A delta on a named object is read from just after the 20 bytes of the name and refers to the object found by it. |
| `GitPackObjects.BadEntryReads` | cgit/src/GitPack.cpp:219-222 | The unused type 5 is refused. |
| `GitPackObjects.SizeIsChecked` | cgit/src/GitPack.cpp:233-235 | An object is extracted exactly if its data inflates to the size in its header. |
| `GitPackObjects.PackMeans` | cgit/src/GitPack.cpp:157-300 | In a pack written as git writes it, of whole objects and of deltas by offset or by name in any order, every chain ends and every object means what its item stands for. |
| `GitPackObjects.ExtractWritten` | cgit/src/GitPack.cpp:157-300 | So extraction from a written pack below 4 GiB gives back the type and the data of every object. |
| `GitPackChain.OffsetChainsEnd` | cgit/src/GitPack.cpp:170-223 | Chains of deltas that refer to earlier objects end. |
| `GitPackChain.ZeroOffsetNeverEnds` | cgit/src/GitPack.cpp:208-208 | A delta on itself never ends. |
| `GitPackChain.MeaningIsUnique` | cgit/src/GitPack.cpp:225-300 | The recursive meaning of a packed object does not depend on how it is bounded. |
| `GitPackChain.SmallPackIsRead` | cgit/src/GitPack.cpp:225-236 | In a pack below 4 GiB the 32-bit cut of positions changes no meaning. |
| `GitPackChain.ChainMeans` | cgit/src/GitPack.cpp:225-300 | Building the chain and resolving it bottom-up gives the recursive meaning, errors included. |
| `GitPackChain.BuildChain` | cgit/src/GitPack.cpp:167-223 | The first loop collects the chain down to a whole object. |
| `GitPackChain.ResolveChain` | cgit/src/GitPack.cpp:225-300 | The second loop pops the chain and applies the deltas. |
| `GitPackChain.Extract` | cgit/src/GitPack.cpp:157-300 | Extraction returns base data, or the delta applied to the meaning of its base, whenever the chain ends, with positions cut to 32 bits; in packs below 4 GiB the meaning without cuts. |
| `GitTreeCodec.Deserialize` | cgit/src/GitObjects.cpp:140-172 | The state machine loop, for arbitrary bytes. |
| `GitTreeCodec.TreeRoundTrip` | cgit/src/GitObjects.cpp:127-182 | Reading undoes writing for every list of writable leaves. |
| `GitTreeCodec.DecodeIff` | cgit/src/GitObjects.cpp:140-172 | For all bytes: reading gives leaves exactly if what follows the whole ones stops before a hash, and fails exactly if it stops inside one. |
| `GitTreeCodec.SortInOrder` | cgit/src/GitObjects.cpp:89-101 | The leaves are written in the order of their modified names; GitTreeListing says what that order means. |
| `GitTreeCodec.SortIsCanonical` | cgit/src/GitObjects.cpp:175-182 | The bytes do not depend on the order in which the leaves were collected. |
| `GitTreeListing.ListedNames` | cgit/src/GitObjects.cpp:89-101 | Reading the written trees depth first lists exactly the full names of the files that survive. |
| `GitTreeListing.ListingAscendsIff` | cgit/src/GitObjects.cpp:89-101 | The listing ascends in byte order of full names if and only if no file that is not regular, and so sorted with a slash, stands beside a name that extends its own by a character below the slash. |
| `GitTreeListing.RegularListing` | cgit/src/GitObjects.cpp:89-101 | For an index of regular files the listing always ascends. |
| `GitTreeListing.LinkIsMisplaced` | cgit/src/GitObjects.cpp:91-98 | A symbolic link `a` beside a file `a.b` is written after it. |
| `GitTreeWrite.PaddingKeepsMode` | cgit/src/GitObjects.cpp:150-153 | A mode of five digits is read as the same number in six digits. |
| `GitTreeBuild.EarlyExit` | cgit/src/GitRepository.cpp:62-69 | Above a parent that is already in the tree nothing is missing, so the walk may stop there. |
| `GitTreeBuild.AddName` | cgit/src/GitRepository.cpp:60-69 | Adding a name gives exactly the directory tree of the larger set of names. |
| `GitTreeBuild.BuildTree` | cgit/src/GitRepository.cpp:55-70 | The nested loops give every directory with exactly its children, and the first entry of each name. |
| `GitTreeWrite.ModeIsOctal` | cgit/src/GitRepository.cpp:77-77 | The six digits of a file's mode are its type and permissions in octal. |
| `GitTreeWrite.Repository.Backtrack` | cgit/src/GitRepository.cpp:72-91 | Writes every directory at or below a path, children before parents, and returns the leaf of the path. |
| `GitTreeWrite.Repository.WriteIndexAsTree` | cgit/src/GitRepository.cpp:50-96 | Fails exactly on an empty index; otherwise returns the root's name with every directory stored under its own. |
| `GitTreeOrder.OrderIsIrrelevant` | cgit/src/GitRepository.cpp:84-88 | The name of every tree is independent of the iteration order of the hash sets. |
| `GitTreeRead.TreeReads` | cgit/src/GitRepository.cpp:792-799 | Reading a written tree gives a leaf for each child of its directory, once, in the order of keys. |
| `GitTreeRead.FlattenHead` | cgit/src/GitRepository.cpp:785-801 | The work-stack loop terminates and rebuilds exactly the names that are not also directories, each with the hash of its first entry. |
| `GitTreeRead.CompareHeadAndIndex` | cgit/src/GitRepository.cpp:803-821 | Added are, in the order of the index, the names that HEAD has not got or gave to an earlier entry; modified those with another hash in HEAD; deleted those of HEAD not in the index. |
| `GitTreeRead.ChangeAfterCommit` | cgit/src/GitRepository.cpp:785-821 | Right after a commit no entry is modified, and one is new exactly if it is not the first of its name or its name is also a directory. |
| `GitTreeRead.SurvivesIffPlain` | cgit/src/GitRepository.cpp:785-821 | All entries survive unchanged if and only if names are distinct and none is a directory prefix of another. |
| `GitTreeRead.StatusAfterCommit` | cgit/src/GitRepository.cpp:785-821 | Writing an index as trees, flattening the root and comparing reports nothing modified or deleted and exactly those entries as added; so no change at all if and only if the names are distinct and none is a directory prefix of another. |
| `CsvLine.WriteField` | misc/CSVUtil.hpp:72-87 | Doubles the quotes and encloses exactly the fields with a quote, comma, newline, carriage return or form feed. |
| `CsvLine.WriteLine` | misc/CSVUtil.hpp:90-97 | Joins the written fields with commas. |
| `CsvLine.ParseLine` | misc/CSVUtil.hpp:33-69 | The parser loop, for arbitrary text. |
| `CsvLine.ParseIff` | misc/CSVUtil.hpp:33-69 | The grammar of all lines: fields exactly for comma-separated texts, each a quoted text with doubled quotes or a bare one without comma and leading quote; incomplete exactly with a quoted field left open; invalid exactly with something other than a comma after a closing quote. |
| `CsvLine.EveryLineHasAShape` | misc/CSVUtil.hpp:33-69 | Every line is of one of these three shapes. |
| `CsvLine.ParseUndoesWrite` | misc/CSVUtil.hpp:33-97 | Parsing undoes writing for every row with at least one field. |
| `CsvLine.CutIsIncomplete` | misc/CSVUtil.hpp:33-97 | Every cut of a written row at an embedded newline parses as incomplete and never throws. |
| `CsvReader.CSVReader.NextCSVLine` | misc/CSVUtil.hpp:294-315 | Joins physical lines until they parse, checks the column count, and stores the row. |
| `CsvReader.NextDecided` | misc/CSVUtil.hpp:294-315 | For any text, the shortest run of physical lines that is not an incomplete row decides: an error exactly if it is invalid or of another width, otherwise that row; without one there is no further row. |
| `CsvReader.CSVReader.ReadAll` | misc/CSVUtil.hpp:258-284 | Iterating over the reader gives the rows up to the end or the first empty line. |
| `CsvReader.ReadsWritten` | misc/CSVUtil.hpp:294-315 | The exact result of reading any written rows: other widths are an error, a blank row ends the reading, and a carriage return directly before a newline is lost. |
| `CsvReader.RoundTripIff` | misc/CSVUtil.hpp:25-97 | Rows written line by line are recovered if and only if they have one width, none serialises to the empty line, and no field has a carriage return directly before a newline. |
| `ThreadPool.StepKeepsInv` | misc/threadPool.hpp:39-81 | Every action keeps: started followed by queued tasks are the enqueued ones in order, started tasks are in execution or returned, and likewise held or counted off, and the counter counts the busy workers. |
| `ThreadPool.RunKeepsInv` | misc/threadPool.hpp:39-81 | So in every state of every interleaving. |
| `ThreadPool.Conservation` | misc/threadPool.hpp:39-81 | Enqueued = queued + active + finished in every state of every run, task by task and in numbers, where finished is the history of tasks counted off; tasks start first-in first-out and at most once, and finished tasks have returned. |
| `ThreadPool.WaitMeansDone` | misc/threadPool.hpp:66-69 | `wait` may return only when every task enqueued so far has returned. |
| `ThreadPool.ExitsOnlyWhenAllowed` | misc/threadPool.hpp:43-45 | A worker leaves only after the exit flag, and under ALL_TASKS_COMPLETE only with an empty queue. |
| `ThreadPool.StuckForever` | misc/threadPool.hpp:43-46 | If the exit flag is set with tasks queued under ALL_TASKS_COMPLETE, none of them is ever started and no further worker ever leaves. |
| `ThreadPool.JoinPossibleIff` | misc/threadPool.hpp:26-32 | After the exit flag the destructor can join all workers in some continuation if and only if nothing is queued, the policy is CURRENT_TASK_COMPLETE, or all have left. |
| `Minesweeper.Minesweeper.constructor` | misc/minesweeper.cpp:64-88 | For any shuffle: mines where drawn, every other cell the number of mines around it, and the counter equal to the number of safe cells. |
| `Minesweeper.CountMines` | misc/minesweeper.cpp:35-46 | Returns the number of mines adjacent to the cell. |
| `Minesweeper.CountIsAdjacentMines` | misc/minesweeper.cpp:35-46 | The sum over the eight directions is the size of the set of adjacent mines. |
| `Minesweeper.EmptyIsSafe` | misc/minesweeper.cpp:35-46 | No neighbour of an empty cell is a mine. |
| `Minesweeper.FillIsExact` | misc/minesweeper.cpp:139-160 | When the queue is empty, exactly the cells connected to the start over empty cells have been revealed. |
| `Minesweeper.ToggleTwice` | misc/minesweeper.cpp:130-132 | A right click changes its cell between hidden and flagged and nothing else, and a second one takes it back. |
| `Minesweeper.Minesweeper.FloodFill` | misc/minesweeper.cpp:139-160 | The queue loop terminates with that result and an exact counter. |
| `Minesweeper.Minesweeper.OnMouseEvent` | misc/minesweeper.cpp:123-166 | Every event keeps: the counter is the number of unrevealed safe cells, no mine is revealed, revealed empty cells have all neighbours revealed; and the exact effect on board and game status. |

## Left out

Brainfuck
- BrainfuckCompiler.CompileIsLayout: the shift of SHIFTPTR_ZERO is taken from the instruction before it is popped; line 449 of misc/brainfuck.cpp reads it afterwards, from a popped element.
- BrainfuckCorrect.CompilerCorrect: inputs and cells are below the modulus, and no distribution loop reaches its start cell around the tape. This condition is sufficient and, by BrainfuckAliasing.AliasingLoopMiscompiled, not to be dropped, but not necessary for each program: aliasing is harmless on a tape of one cell, where a loop that ends leaves 0 as the replacement does, and in a loop that is never entered or never ends when interpreted.
- BrainfuckExact.CompilerExact: the condition on update loops is exact for a single loop (BrainfuckExact.LoneLoopExactIff), and only sufficient inside a larger program, which may never reach a loop that would not end.
- Error messages of the bracket check, the profiling log, the bytecode file header, the transpiler to C and the shell.
- The 64-bit width of folded counts and of products in UPDATE_BY_CURR.

Big integers
- Parsing and printing of decimal strings, and values with leading zero chunks that only parsing can create.

cdiff
- The context mode and the text formatting of hunks, headers and file times.
- DiffTraceback.DefaultHunks: a hunk is its two positions and two lists of lines, before `defaultPatchText` prints them.

Puzzles
- Reading boards from images or text, drawing, board generation and hint generation.
- SkyscraperSolver.Solver.BacktrackSolve: grid and candidates are maps from cells, not vectors of vectors.
- SkyscraperSolver.Solve: heights are 1 to N and givens do not clash; lines complete among the givens are not checked by the code (SkyscraperSolver.AllHintsMetIff).

Cache
- `ordered_map` copy assignment and `extract`; the first keeps old lookup entries and the second uses an erased iterator.
- LruCache.Cache.Call: arguments with equal hash must have equal values; LruCache.AlwaysRightIffCompatible shows that two calls go wrong otherwise. Functions are well founded: recursive calls have smaller arguments.

SHA-1 and Bitcask
- The compression rounds and the CRC arithmetic; the checksum is an arbitrary function.
- Hint files, the order in which directory entries are listed, and `merge`, which leaves stale files of higher id behind and appends to an existing hint file.
- BitcaskStore.Bitcask.Set: the append position of the stream is taken to be the end of the file; C++ leaves the position of a file just opened for appending to the implementation. Records are small enough for the 32-bit fields.

Git
- The offset tables of a pack index (only the name lookup is modelled), commits, tags, references, ignore files, the index file format and the comparison with the working tree.
- GitTreeWrite.Repository.WriteIndexAsTree: names are lists of components without empty ones, hashes are kept as 20 bytes instead of 40 hex digits, and no two different trees share a name.
- GitTreeRead.FlattenHead: entries with the mode of a directory are excluded, since the code would read their blobs as trees.
- GitPackIndex.GetHashMatchFromIndex: a negative number, for which the source seeks to a negative fan-out entry, is an error value; table offsets do not wrap at 32 bits; the check of the file header is left out.
- GitPackCodes.ReadVarLenInt: running off the data and shifts by 32 and more, undefined in the source, are error values.
- GitPackChain.Extract: terminates only if the chain does (GitPackChain.ZeroOffsetNeverEnds), so it asks for a bound on it, which GitPackObjects.PackMeans gives for written packs; the textual object header is not built.

CSV, thread pool, minesweeper
- Typed access to fields, record modification, headers, `skipRows`, and delimiters other than the comma.
- Lost wake-ups and every other liveness property of the thread pool; futures and exceptions of tasks.
- Rendering and input handling of the minesweeper.

Programs not modelled: `networking/`, `torrent/`, `redis-server/`, `url-shortner/`, `json-parser/`, `pacman/`, `finance/`, `ai/`, the remaining `cli/`, `misc/` and `puzzles/` programs, and the XML, INI and barcode code: plumbing over foreign libraries, floating point, or no strong statement to make.
