# Verified model of the BEAM-to-WasmGC compiler, its host runtime and its corpus

The repository compiles BEAM modules to WebAssembly GC, runs them on a JavaScript host, and checks the result against
a corpus of pure Elixir programs. This Dafny project models the parts whose correctness is not visible from one
function body, and proves what they are for.

* **Process scheduler** (`SchedulerState`, `SchedulerCascade`, `SchedulerDeath`, `SchedulerRuns`,
  `SchedulerDelivery`, `SchedulerTimeouts`, `SchedulerNames`, `SchedulerHistory`, `SchedulerTables`,
  `SchedulerFairness`, `Scheduler`).
  `Scheduler.Scheduler` is the scheduler as a class: process table, registry, monitors, run queue, timers, with the
  `proc` and `sched` imports, the `finish` cascade and the main loop as methods that update it in place.
  `SchedulerState` gives each of them as a function on the state, and the other modules prove what those functions
  mean: who dies and who hears of it, an invariant over every run, no lost wakeups, a truthful deadlock report,
  selective receive, conservation of messages, what a timed receive is told, what every name, link, monitor and flag
  goes back to, a fair run queue.
* **Closed-world passes** (`Reachability`, `CallMachine`, `MissedWrites`, `ApplyDispatch`). The pruning worklist is
  the least closed set. A machine with control flow, registers, calls, closures and exceptions never leaves it if no
  path leads to an `apply` whose name comes from a parameter or an unlisted write, nor to `erlang:hibernate/3` or
  `erlang:make_fun/3`; and wherever there is such a path, some program around the function leaves it. The generated
  binary search behind `apply` is the first-match scan of its clause list.
* **Host codecs** (`HostFrames`, `RegexSplit`, `FloatFormat`). The split and scan loops and their big-endian frames,
  written and read back byte by byte; the shortest float format.
* **Interpreter** (`Interpreter`, `InterpretedProgram`, `InterpretedOps`). The BEAM interpreter run on its fixed
  bytecode table, and instruction by instruction.
* **Corpus programs** (`HuffmanOptimal`, `Huffman`, `HuffmanCodes`, `HuffmanTables`, `HuffmanOrder`, `RunLength`,
  `ModArith`, `NumberTheory`, `Fermat`, `RsaPrimality`, `StrongTest`, `Dijkstra`, `BreadthFirst`, `BreadthOrder`,
  `TopoSort`, `TopoOrder`, `Calendar`, `RegexEngine`, `RegexText`, `RegexClasses`, `RegexPatterns`, `Sorts`,
  `LeftistHeap`, `PairingHeap`, `ExprCompiler`, `ExprShapes`).

`Collections` and `Dictionary` hold what several of them share. `dafny verify dfyconfig.toml` checks everything.

Where the code and its comments disagree the model follows the code: day 0 is 1970-01-01
(bench/gaps/p16_calendar_engine.exs:175 says otherwise), the float format uses the length rule of
runtime/imports.mjs:397-412 and not the one in the comments at :357-363, and `exit(:normal)` kills links.

Properties that turned out not to hold everywhere are stated with the condition under which they do:
`MissedWrites.SafeIffAnalysable` (pruning), `Calendar.ZellerAgrees` (Zeller's congruence before year zero),
`ApplyDispatch.KeysInjectiveIff` (dispatch keys), `SchedulerDelivery.MonitorNeedsLiveCaller` (monitors),
`NumberTheory.ModInverseExact` (inverses of negative numbers, which `mod_inverse` accepts but the program never passes:
bench/gaps/p14_number_theory.exs:43 and :68), `SchedulerNames.WhereisLive` (a name registered for a dead process).

## Model

| member | source | states |
|---|---|---|
| Scheduler.Scheduler.constructor | runtime/scheduler.mjs:200-203 | `main` starts with process 1 running, in a state that satisfies the scheduler's invariant |
| Scheduler.Scheduler.ClearTimer | runtime/scheduler.mjs:118 | cancelling a timer is idempotent and lowers the timer count once |
| Scheduler.Scheduler.Wake | runtime/scheduler.mjs:122-126 | only a live waiting process is made runnable and queued once; its timer goes |
| Scheduler.Scheduler.UnwindParked | runtime/scheduler.mjs:132-136 | a parked process loses its timer and both its promise ends |
| Scheduler.Scheduler.Finish | runtime/scheduler.mjs:152-187 | the recursive death in place: it terminates, and the whole new state is the cascade function's |
| Scheduler.Scheduler.SignalLinks | runtime/scheduler.mjs:158-168 | the link loop over a table that changes under it equals the recursion over the remaining links |
| Scheduler.Scheduler.ReportToMonitors | runtime/scheduler.mjs:172-182 | the backward splicing loop equals the recursion over the monitor entries |
| Scheduler.Scheduler.SignalExit | runtime/scheduler.mjs:139-147 | an exit signal is a message to a trapping process, nothing if `:normal`, else death |
| Scheduler.Scheduler.Spawn | runtime/scheduler.mjs:44-51 | a fresh pid is queued to start, linked both ways when asked |
| SchedulerTables.LinksHistory | runtime/scheduler.mjs:44-51 | in every run two live processes are linked exactly when one of them spawned the other with a link |
| Scheduler.Scheduler.Send | runtime/scheduler.mjs:52 | a message to a live process is appended and wakes it; to anyone else it vanishes; it is returned either way |
| Scheduler.Scheduler.SetTrapExit | runtime/scheduler.mjs:54 | sets the flag of the caller and nothing else |
| SchedulerHistory.TrapExitHistory | runtime/scheduler.mjs:54 | in every run a live process traps exits exactly when the last `set_trap_exit` that it called itself turned that on |
| Scheduler.Scheduler.ExitSelf | runtime/scheduler.mjs:55 | records the reason and always marks the death abnormal, also for `:normal` |
| SchedulerHistory.ExitHistory | runtime/scheduler.mjs:55 | a live process carries exactly the reason of the last `exit/1` it called |
| SchedulerHistory.AbnormalHistory | runtime/scheduler.mjs:55 | it counts as abnormal from its first `exit/1` on, whatever the reason |
| SchedulerHistory.ReturnReports | runtime/scheduler.mjs:152-193 | over a run: when a stack completes, each survivor gains what that reason, or `:normal`, calls for, and the death goes along the links exactly if the process called `exit/1` or was thrown out |
| Scheduler.Scheduler.Register | runtime/scheduler.mjs:59 | binds the name without looking at the pid |
| SchedulerNames.WhereisHistory | runtime/scheduler.mjs:59-60 | in every run `whereis` answers pid exactly when the latest `register` of that name named pid and pid has not died since |
| SchedulerNames.WhereisLive | runtime/scheduler.mjs:155 | the process so named is alive exactly when it was alive at that registration or was spawned since; a name registered for a dead one stays |
| Scheduler.Scheduler.MonitorPid | runtime/scheduler.mjs:61 | a fresh reference, and an entry owned by the caller whether or not the target lives |
| SchedulerTables.MonitorsHistory | runtime/scheduler.mjs:61-62 | in every run a monitor entry is there exactly when such a call made it, with that owner, target and reference, and since then neither its reference was demonitored nor its owner or target died |
| Scheduler.Scheduler.Demonitor | runtime/scheduler.mjs:62 | the backward loop removes exactly the entries with that reference |
| Scheduler.Scheduler.AliasPid | runtime/scheduler.mjs:64 | the owner of the first entry with the reference, or 0 if there is none |
| Scheduler.Scheduler.RecvHas | runtime/scheduler.mjs:65-66 | 1 exactly when `recv_cur` has a message to show |
| Scheduler.Scheduler.RecvRemove | runtime/scheduler.mjs:67 | that message goes, the others keep their order, the cursor restarts |
| Scheduler.Scheduler.RecvAdvance | runtime/scheduler.mjs:68 | the cursor moves on by one |
| Scheduler.Scheduler.RecvWait | runtime/scheduler.mjs:72 | the caller parks with cursor 0 and both promise ends |
| Scheduler.Scheduler.RecvWaitTimeout | runtime/scheduler.mjs:77-86 | as `recv_wait`, with a timer counted and nothing timed out yet |
| SchedulerTimeouts.TimeoutAnswerTrue | runtime/scheduler.mjs:74-86 | when it is resumed it is handed 0 exactly when its timer fired before any message came, and 1 exactly when the timer did not fire; then the mailbox has grown |
| Scheduler.Scheduler.Yield | runtime/scheduler.mjs:93 | the caller parks as ready and is queued |
| Scheduler.Scheduler.TimerFires | runtime/scheduler.mjs:83-85 | a firing timer readies and queues a process that still waits |
| Scheduler.Scheduler.StartChild | runtime/scheduler.mjs:189-193 | a live process becomes current and running; a dead one is skipped |
| Scheduler.Scheduler.ResumeProc | runtime/scheduler.mjs:194-198 | as above; the promise is consumed exactly when one was there, and a timed receive gets the answer its record tells |
| Scheduler.Scheduler.Dispatch | runtime/scheduler.mjs:208-209 | one turn of the loop keeps the invariant, and a live process queued for resumption always has a promise to resolve |
| SchedulerTables.CurrentHistory | runtime/scheduler.mjs:189-209 | the current process is the one the last dispatch found alive, or process 1 before any did |
| Scheduler.Scheduler.Returned | runtime/scheduler.mjs:192-203 | a stack that completes ends its process, or the main program |
| SchedulerTables.MainDoneHistory | runtime/scheduler.mjs:202-206 | the main program is done exactly when process 1 has just returned, and no step follows |
| SchedulerCascade.FinishKills | runtime/scheduler.mjs:152-187 | by induction over the cascade: what it removes, delivers and prunes, and that the removed set is closed under links |
| SchedulerCascade.PropagateKills | runtime/scheduler.mjs:158-168 | the same for the link loop, in whatever order the links come |
| SchedulerDeath.DoomedClosed | runtime/scheduler.mjs:158-168 | the processes reachable through non-trapping processes are closed under that reachability |
| SchedulerDeath.FinishRemoves | runtime/scheduler.mjs:152-187 | a death removes exactly the processes link-reachable through non-trapping ones if it is abnormal, and only itself if not |
| SchedulerDeath.FinishReports | runtime/scheduler.mjs:152-187 | each survivor gains exactly one EXIT per removed neighbour if it traps and one DOWN per monitor it holds on a removed process, with the root's reason, and nothing else; no link, monitor or name mentions a removed pid |
| SchedulerDeath.NormalExitStillKills | runtime/scheduler.mjs:55 | `exit(:normal)` kills a linked process that does not trap |
| SchedulerRuns.InitialValid | runtime/scheduler.mjs:200-203 | the invariant holds at the start |
| SchedulerRuns.ValidSpawn | runtime/scheduler.mjs:44-51 | spawning keeps it: links mutual, one queue entry for the newcomer |
| SchedulerRuns.ValidDeliver | runtime/scheduler.mjs:52 | delivering a message keeps it |
| SchedulerRuns.ValidFinish | runtime/scheduler.mjs:152-187 | the whole cascade keeps it |
| SchedulerRuns.ValidFires | runtime/scheduler.mjs:83-85 | a firing timer keeps it |
| SchedulerRuns.ValidDispatch | runtime/scheduler.mjs:189-209 | a dispatch keeps it |
| SchedulerRuns.StepValid | runtime/scheduler.mjs:42-94 | every import call by a live process, dispatch, timer and return keeps it: one queue entry iff new, runnable or ready; resumable entries have promises; the timer count is exact; links are mutual; monitor owners live. Each method of the class that performs such a step promises it too |
| SchedulerRuns.RunValid | runtime/scheduler.mjs:200-214 | hence it holds in every state of every run |
| SchedulerDelivery.StepReceives | runtime/scheduler.mjs:120-147 | what one step of anyone else adds to a process's mailbox, exactly |
| SchedulerDelivery.WaitingUntouched | runtime/scheduler.mjs:120-126 | a message never reaches a process that goes on waiting |
| SchedulerDelivery.NoLostWakeup | runtime/scheduler.mjs:65-86 | if processes park only after scanning their whole mailbox, a waiting process has seen everything in it, in every run |
| SchedulerDelivery.StuckIffNoStep | runtime/scheduler.mjs:206-213 | the loop gives up exactly when no step is possible |
| SchedulerDelivery.DeadlockReportTrue | runtime/scheduler.mjs:212-214 | then every process left waits without a timer and with nothing unseen |
| SchedulerDelivery.ScanRun | runtime/scheduler.mjs:65-68 | during a scan nothing before the cursor matches, and the mailbox only grows at its end |
| SchedulerDelivery.SelectiveReceive | runtime/scheduler.mjs:65-72 | under any interleaving the scan takes the earliest-arrived match, which is what `recv_cur` shows, and keeps the rest in order |
| SchedulerDelivery.StepConserves | runtime/scheduler.mjs:52-72 | one step: the mailbox and the message taken, the one `recv_cur` shows, balance with the old mailbox and the delivered ones |
| SchedulerDelivery.Conservation | runtime/scheduler.mjs:42-94 | over a run, every delivered message was taken once or is still there |
| SchedulerDelivery.MonitorNeedsLiveCaller | runtime/scheduler.mjs:61 | `monitor` keeps all owners live exactly when its caller still has a record |
| SchedulerFairness.QueueStep | runtime/scheduler.mjs:206-213 | a dispatch takes the first queue entry and every other step only appends, also a whole death cascade |
| SchedulerFairness.NoOvertaking | runtime/scheduler.mjs:206-213 | over a run a queued entry moves up one place per dispatch and is never overtaken |
| SchedulerFairness.FairDispatch | runtime/scheduler.mjs:189-213 | so whoever is at place k runs at the (k+1)-st dispatch, if still alive |
| Reachability.ReachableIsLeast | lib/beam2wasm.ex:1541-1571 | the worklist terminates with the least set that has the seeds and is closed under its edges |
| Reachability.ApplyTargetAt | lib/beam2wasm.ex:1580-1595 | an `apply` keeps all functions of its arity, narrowed to the constant names when only those are written |
| Reachability.NarrowedExactly | lib/beam2wasm.ex:1580-1625 | instruction by instruction: all functions of the arity are targets as soon as one `bif`, `gc_bif`, non-constant move, or other instruction with that register in its last slot stands anywhere in the body, or no constant move does; else those whose name some move puts there |
| CallMachine.UnlistedWrites | lib/beam2wasm.ex:1608-1625 | the register writes not seen are exactly those of `get_map_elements`, `make_fun`, a call's answer, and of other instructions outside their last slot |
| Reachability.LiteralFunsAre | lib/beam2wasm.ex:1911-1925 | the functions captured in a constant are those lying anywhere inside it, map keys and values included |
| CallMachine.StepInside | lib/beam2wasm.ex:1547-1571 | no step (move of control, call, closure call, return, exception) leaves the kept functions, nor leaves behind the paths through their code |
| CallMachine.KeptRuns | lib/beam2wasm.ex:1541-1634 | no run from the exports ever calls or makes a function value of a pruned function, if in the kept functions no path leads to a narrowed apply with a name from a parameter or an unlisted write, or to a hidden dispatch |
| MissedWrites.SafeIffAnalysable | lib/beam2wasm.ex:1541-1638 | and not otherwise: pruning is right about a function in every program around it exactly when there is no such path through it |
| MissedWrites.BadPathEscapes | lib/beam2wasm.ex:1600-1625 | a path along which the name comes from a parameter or an unlisted write gives a program and a run into a pruned function |
| MissedWrites.HiddenPathEscapes | lib/beam2wasm.ex:2058-2064 | so does a path to `erlang:hibernate/3` or `erlang:make_fun/3`, which dispatch through the apply helpers without being counted as dispatching |
| MissedWrites.MapElementsMissed | lib/beam2wasm.ex:1614-1615 | straight-line code whose name is overwritten by `get_map_elements` is not safe |
| MissedWrites.OverwrittenParameterSafe | lib/beam2wasm.ex:1600-1625 | straight-line code that overwrites a parameter with a constant name is safe |
| ApplyDispatch.BisectMatches | lib/beam2wasm.ex:2107-2121 | the emitted comparisons on sorted clauses pick the clause of the key |
| ApplyDispatch.BisectCost | lib/beam2wasm.ex:2107-2121 | at most c pivot tests, where c is the least number with N <= 2^c, and one equality test |
| ApplyDispatch.GenApplyIsFirstMatch | lib/beam2wasm.ex:2078-2121 | the whole construction answers as a first-match scan of the original clause list, within that cost |
| ApplyDispatch.KeysInjectiveIff | lib/beam2wasm.ex:2088-2103 | keys tell all pairs of atoms apart exactly while there are at most 1,000,000 atoms |
| ApplyDispatch.ApplyReachesOwnTarget | lib/beam2wasm.ex:2078-2105 | each (module, function) pair reaches its own first clause, or none |
| HostFrames.SetUint32 | runtime/imports.mjs:180-187 | writes the four bytes of a number modulo 2^32, most significant first, and nothing else |
| HostFrames.WriteChunks | runtime/imports.mjs:183-188 | the writing loop puts each chunk after its length and leaves the rest of the buffer |
| HostFrames.FrameParts | runtime/imports.mjs:179-190 | the buffer of a split holds the frame of its parts, with no byte to spare |
| HostFrames.FrameMatches | runtime/imports.mjs:287-299 | the same for the nested frame of a scan |
| HostFrames.DecodeParts | lib/beam2wasm.ex:1048-1065 | the decoding loop with 32-bit offsets recovers the parts, without the empty ones when trimming |
| HostFrames.TrimDrops | lib/beam2wasm.ex:1048-1065 | trimming drops the empty parts wherever they stand and nothing else |
| HostFrames.DecodeMatches | lib/beam2wasm.ex:1216-1237 | the nested loop recovers all matches with their captures |
| HostFrames.FrameInjective | runtime/imports.mjs:179-190 | two part lists with the same frame are equal |
| RegexSplit.SplitParts | runtime/imports.mjs:165-178 | the `exec` loop terminates and yields the parts function |
| RegexSplit.SplitExactly | runtime/imports.mjs:168-178 | part i is the text between match i-1 and match i, the last one goes to the end; without a limit there is one more part than matches, with limit k the smaller of that and k |
| RegexSplit.CapturesKeepSubject | runtime/imports.mjs:169-178 | with captures kept the parts concatenate to the subject, at any limit and after trimming |
| RegexSplit.LimitHolds | runtime/imports.mjs:171-172 | a limit k gives at most k pieces, or 2k-1 with captures |
| RegexSplit.WithoutCaptures | runtime/imports.mjs:169-178 | without captures the result is every other piece of that with captures |
| RegexSplit.RegexSplit3 | lib/beam2wasm.ex:1048-1065 | splitting, framing, decoding and trimming end to end |
| RegexSplit.ScanMatches | runtime/imports.mjs:278-286 | the scan loop terminates with all matches in order |
| RegexSplit.MatchesDisjoint | runtime/imports.mjs:278-286 | its matches have rising indices, each ends before the next begins, and each text is the slice of the subject at its index |
| RegexSplit.NoneSkipped | runtime/imports.mjs:278-286 | for a leftmost `exec` no match is skipped: wherever one starts, the scan has it or is inside one it has |
| RegexSplit.RegexScan2 | lib/beam2wasm.ex:1216-1237 | scanning, framing and decoding end to end |
| FloatFormat.DecomposeRecovers | runtime/imports.mjs:377-396 | the formatter recovers digits and decimal point from every number text of ECMA-262 |
| FloatFormat.LengthsExact | runtime/imports.mjs:403-404 | the two lengths it compares are those of the two renderings |
| FloatFormat.TextDenotes | runtime/imports.mjs:377-396 | the text of an integer denotes that integer |
| FloatFormat.FltFmtShortIs | runtime/imports.mjs:377-413 | the output denotes the same number; if that number is below 2^53 it is the shorter rendering with ties to plain, otherwise scientific |
| FloatFormat.FltFmtShape | runtime/imports.mjs:376-413 | it has digits on both sides of its point and no superfluous zero, one digit before it in scientific notation; zero comes out as the general rule would print it |
| Interpreter.StepKeepsRegs | interp/interp.ex:15-76 | no instruction changes the number of registers, and a call returns to the caller's own registers |
| Interpreter.RunKeepsRegs | interp/interp.ex:10-76 | in any run of any code every state has eight x and eight y registers |
| Interpreter.ReturnsOnly | interp/interp.ex:10-13 | a run that returns a value returns no other |
| InterpretedOps.ComparisonAnswers | interp/interp.ex:38-51 | comparing branches by the order of terms, or by whether they are the same |
| InterpretedOps.ListTestAnswers | interp/interp.ex:28-36 | testing for a list branches by its shape |
| InterpretedOps.ArithAnswers | interp/interp.ex:20-22 | `gc_bif` adds, subtracts and multiplies its operands in that order |
| InterpretedOps.LessTotal | interp/interp.ex:43-51 | any two terms are equal or exactly one is less |
| InterpretedOps.LessTransitive | interp/interp.ex:43-51 | and the order is transitive |
| InterpretedOps.LessIs | interp/interp.ex:43-51 | numbers by value, then atoms in dictionary order, then the empty list, then pairs by head and tail |
| InterpretedOps.MoveAnswers | interp/interp.ex:79-86 | operands: constants as they stand, arguments in the x registers, zeros behind them and in the y registers |
| InterpretedOps.PairAnswers | interp/interp.ex:59-61 | `put_list` makes a pair of head and tail |
| InterpretedOps.ApartAnswers | interp/interp.ex:53-61 | `get_list` takes apart what `put_list` made |
| InterpretedProgram.InterpretedFib | interp/prog.ex:2 | interpreting the bytecode of `fib` ends with what `fib` computes, for all n >= 0 |
| InterpretedProgram.InterpretedSum | interp/prog.ex:2 | the same for `sum` on every list of integers |
| InterpretedProgram.InterpretedUpto | interp/prog.ex:2 | the same for `upto`, for all n >= 0 |
| InterpretedProgram.InterpretedSumOfNonList | interp/interp.ex:72-76 | on a number or atom the interpreted `sum` gives it back, because the guard instruction is ignored |
| Huffman.MergeOptimal | bench/gaps/p07_rle_huffman.exs:129-135 | merging the two lightest, over and over, costs no more than any binary tree on those weights |
| Huffman.BuildTreeOptimal | bench/gaps/p07_rle_huffman.exs:127-138 | `build_tree` minimises total weight times depth over all trees on its symbols |
| HuffmanOrder.BuildCanonical | bench/gaps/p07_rle_huffman.exs:127-138 | the tree is the same for any order of the items, and at every fork the lighter side is on the left, ties by first symbol |
| HuffmanCodes.CodesLead | bench/gaps/p07_rle_huffman.exs:149-157 | each symbol's code is its path in the tree |
| HuffmanCodes.CodesPrefixFree | bench/gaps/p07_rle_huffman.exs:149-177 | no code is a prefix of another's |
| HuffmanCodes.PrefixOfIsPrefix | bench/gaps/p07_rle_huffman.exs:174-177 | `prefix_of?` is the prefix relation |
| HuffmanCodes.UniqueDecoding | bench/gaps/p07_rle_huffman.exs:72-74 | a prefix-free code has one reading of every bit string |
| HuffmanTables.TreeBits | bench/gaps/p07_rle_huffman.exs:57-62 | the sum of frequency times code length over the table is the weighted depth of the tree |
| HuffmanCodes.HuffmanOptimalCode | bench/gaps/p07_rle_huffman.exs:44-74 | all together: the encoding decodes uniquely and no tree on the same symbols encodes the stream shorter |
| HuffmanTables.TableTreeCost | bench/gaps/p07_rle_huffman.exs:57-62 | every prefix-free binary table is a tree that costs no more bits than the table |
| HuffmanTables.HuffmanBestTable | bench/gaps/p07_rle_huffman.exs:44-74 | the encoded stream has as many bits as that sum says, and no prefix-free binary table for its symbols gives a smaller sum |
| RunLength.RleRoundTrip | bench/gaps/p07_rle_huffman.exs:116-122 | decoding undoes encoding |
| RunLength.RleCanonicalRoundTrip | bench/gaps/p07_rle_huffman.exs:116-122 | encoding undoes decoding of every canonical run list |
| RunLength.RleEncodeCanonical | bench/gaps/p07_rle_huffman.exs:116-120 | runs are non-empty and neighbours differ |
| NumberTheory.ModPowIs | bench/gaps/p14_number_theory.exs:118-127 | repeated squaring computes the power modulo m |
| NumberTheory.ExtGcdBezout | bench/gaps/p14_number_theory.exs:132-136 | the coefficients satisfy Bezout's identity and the first result divides both arguments |
| NumberTheory.ModInverseSound | bench/gaps/p14_number_theory.exs:138-142 | an inverse found is one, in range |
| NumberTheory.ModInverseExact | bench/gaps/p14_number_theory.exs:138-142 | for a non-negative argument an inverse is found exactly when coprime, for a negative one exactly when some inverse lies in the lower half of the residues |
| NumberTheory.ModInverseMissesNegative | bench/gaps/p14_number_theory.exs:138-142 | -1 modulo 5 has an inverse that is not found |
| RsaPrimality.RsaRoundTrip | bench/gaps/p14_number_theory.exs:62-79 | decryption undoes encryption for every message below p*q, also those not coprime to it |
| RsaPrimality.RsaKeyWorks | bench/gaps/p14_number_theory.exs:57-79 | every exponent coprime to phi has a key found by `mod_inverse`, and it works |
| RsaPrimality.LoopAccepts | bench/gaps/p14_number_theory.exs:167-175 | the squaring loop meets n - 1 whenever n is prime |
| RsaPrimality.CheckAccepts | bench/gaps/p14_number_theory.exs:159-175 | no witness rejects a prime |
| RsaPrimality.PrimesAccepted | bench/gaps/p14_number_theory.exs:144-175 | `is_prime?` accepts every prime |
| StrongTest.CheckIff | bench/gaps/p14_number_theory.exs:159-175 | one witness check is the strong test: the power to the odd part is 1, or one of its repeated squares is -1 |
| StrongTest.IsPrimeExactly | bench/gaps/p14_number_theory.exs:144-175 | `is_prime?` accepts exactly 2 and the odd numbers that pass the strong test to every witness they do not divide |
| StrongTest.WitnessesAre | bench/gaps/p14_number_theory.exs:150 | the witnesses are the primes up to 37 |
| Dijkstra.DoDijkstraCorrect | bench/gaps/p04_graph_algorithms.exs:255-286 | the loop keeps settled distances final and ends with the shortest ones |
| Dijkstra.DijkstraCorrect | bench/gaps/p04_graph_algorithms.exs:250-286 | every node gets its true shortest distance, `:inf` exactly when it cannot be reached |
| BreadthFirst.StepInv | bench/gaps/p04_graph_algorithms.exs:148-166 | one round keeps the queue layered and every level reached by a walk of that length |
| BreadthFirst.BfsCorrect | bench/gaps/p04_graph_algorithms.exs:144-166 | the order lists exactly the reachable nodes, once, nearest first; levels are least edge counts |
| BreadthOrder.BfsOrder | bench/gaps/p04_graph_algorithms.exs:144-166 | the order down to the last tie: who is found from an earlier place comes first, and of two found from one place the smaller |
| TopoSort.DoTopoIsKahn | bench/gaps/p04_graph_algorithms.exs:204-215 | Kahn's loop terminates; a node comes out when its last predecessor has |
| TopoSort.TopoSortCorrect | bench/gaps/p04_graph_algorithms.exs:195-215 | each node comes after all its predecessors, and all nodes come out exactly when no walk closes |
| TopoOrder.TopoSortLeast | bench/gaps/p04_graph_algorithms.exs:195-215 | at every place stands the smallest node whose predecessors are all in front of it |
| TopoSort.MissingHasCycle | bench/gaps/p04_graph_algorithms.exs:204-215 | behind a node that does not come out there is a closed walk |
| TopoSort.BuiltDagSorts | bench/gaps/p04_graph_algorithms.exs:188-215 | the graphs the program builds have exactly the upward edges, hence no closed walk, so their sort is complete |
| Calendar.DaynumRoundTrip | bench/gaps/p16_calendar_engine.exs:142-163 | a date survives the round trip through its day number, in any year |
| Calendar.NextDaynum | bench/gaps/p16_calendar_engine.exs:126-150 | the next date under `leap?` and `days_in_month` has the next day number |
| Calendar.EveryDaynum | bench/gaps/p16_calendar_engine.exs:142-150 | every integer is the day number of some date |
| Calendar.DateRoundTrip | bench/gaps/p16_calendar_engine.exs:142-163 | a day number survives the round trip through its date |
| Calendar.DowAdvances | bench/gaps/p16_calendar_engine.exs:176-180 | weekdays advance by one, and 1970-01-01 is a Thursday |
| Calendar.ZellerAgrees | bench/gaps/p16_calendar_engine.exs:166-180 | the two weekday computations agree if and only if the shifted year is not negative, or is a leap year and the day is no Sunday or day and month outweigh the year |
| Calendar.ZellerFailsBefore | bench/gaps/p16_calendar_engine.exs:166-180 | they differ on the first of March of year -1 |
| RegexEngine.ParseWellFormed | bench/gaps/p17_regex_engine.exs:108-149 | every pattern parses, with quantifiers on single-character atoms only |
| RegexEngine.CollectIs | bench/gaps/p17_regex_engine.exs:198-203 | the expansions of a star are exactly its possible remainders |
| RegexEngine.MatchHereIs | bench/gaps/p17_regex_engine.exs:171-192 | backtracking succeeds iff some prefix is in the language of the nodes |
| RegexEngine.RegexMatchIs | bench/gaps/p17_regex_engine.exs:152-213 | `regex_match?` is true iff some substring, at the anchored ends, is in the language |
| RegexEngine.PatternMatches | bench/gaps/p17_regex_engine.exs:108-213 | the same from the pattern text on |
| RegexText.ParseShows | bench/gaps/p17_regex_engine.exs:108-149 | parsing the text of a printable node list gives the node list back |
| RegexClasses.ClassTextParses | bench/gaps/p17_regex_engine.exs:141-144 | class text of single members and ranges in any mix is read member by member, up to its bracket or the end of the pattern |
| RegexClasses.EveryClassText | bench/gaps/p17_regex_engine.exs:141-144 | every text is such a text |
| RegexClasses.BracketAccepts | bench/gaps/p17_regex_engine.exs:130-144 | a bracket expression accepts c iff c is one of its members or in one of its ranges, negated by a leading caret |
| RegexPatterns.PiecesParse | bench/gaps/p17_regex_engine.exs:108-149 | pattern text is read piece by piece, marks and anchors where they stand |
| RegexPatterns.EveryPattern | bench/gaps/p17_regex_engine.exs:108-149 | every text is a text of pieces |
| RegexPatterns.TextMatches | bench/gaps/p17_regex_engine.exs:108-213 | from pattern text to answer: true iff some substring, at the anchored ends, splits into words of the pieces in order |
| Sorts.SortsAgree | bench/gaps/p05_priority_queue.exs:179-202 | merge, quick and insertion sort all give the one sorted permutation |
| Sorts.MergeIsSort | bench/gaps/p05_priority_queue.exs:185-189 | merging sorted runs sorts their concatenation |
| LeftistHeap.MergeKeeps | bench/gaps/p05_priority_queue.exs:156-174 | merging keeps elements and heap order; ranks are the lengths of right spines, and 2^rank <= size + 1 |
| LeftistHeap.HeapSorts | bench/gaps/p05_priority_queue.exs:155-176 | building and draining sorts, as the three sorts do |
| PairingHeap.PairsOrdered | bench/gaps/p05_priority_queue.exs:124-126 | merging pairs keeps the heap order |
| PairingHeap.DrainSortsBy | bench/gaps/p05_priority_queue.exs:139-151 | with a key function the drain has the same elements with keys in order |
| PairingHeap.HeapSorts | bench/gaps/p05_priority_queue.exs:115-133 | on integers the drain equals the sorts, and taking k gives the first k |
| ExprCompiler.FoldKeeps | bench/gaps/p03_expr_evaluator.exs:165-194 | folding keeps the value in every environment, never grows or deepens the tree, leaves nothing foldable, and folds closed trees to their value |
| ExprCompiler.FoldIdempotent | bench/gaps/p03_expr_evaluator.exs:165-189 | folding twice is folding once |
| ExprShapes.SizeIs | bench/gaps/p03_expr_evaluator.exs:158-162 | `size` counts the subexpressions |
| ExprShapes.DepthIs | bench/gaps/p03_expr_evaluator.exs:152-156 | `depth` is the length of the longest path |
| ExprShapes.HasVarIs | bench/gaps/p03_expr_evaluator.exs:142-194 | the trees that fold to their value are those in which no variable stands anywhere |
| ExprCompiler.CompiledPushes | bench/gaps/p03_expr_evaluator.exs:198-229 | from any stack and before any code, compiled code pushes exactly the value |
| ExprCompiler.FoldedCompiledPushes | bench/gaps/p03_expr_evaluator.exs:141-229 | the same for the folded tree, compiled after any code |

## Left out

- Scheduler: a dispatched stack is taken to run until it parks, yields, returns or is killed before the next dispatch;
  the loop can in fact dispatch again while a stack is still settling on microtasks.
- Scheduler: a process killed while it is running loses its record but its stack goes on; the runs modelled have only
  import calls by processes that still have one (`MonitorNeedsLiveCaller` shows what the others would break).
- Scheduler: process records are values in a table, not shared objects; the one alias the code keeps, in the timer's
  closure, is not modelled.
- Scheduler: the process dictionary, the reduction budget and dispatch counter, the bound of 200,000,000 turns, and
  the rejection of the main stack when process 1 is killed.
- Reachability: instructions carry the slots the analysis reads and where control goes next; operands that hold no
  register, name or function are dropped, and so are y registers, whose values come back as any value at all.
- CallMachine: one thread of control, in which a spawned function is entered as a call; which branch is taken and what
  a builtin answers are left open, and `Do` on a call stands for a call that has been answered.
- Reachability: how the exports are found, and the emission of the kept functions.
- ApplyDispatch: which functions get a clause (closures, helper and captured external functions) is an arbitrary list.
- HostFrames: strings are byte strings, and a frame is below 2^32 bytes, as a WebAssembly array must be.
- RegexSplit: the JavaScript regular expression engine is an arbitrary function of `lastIndex` whose matches lie at or
  after it and inside the subject; translating patterns and the cache of compiled ones are not part of this model.
- FloatFormat: the digits come from the host's number text; that they are the shortest, and modes 1 to 3, are not part
  of this model. The value compared with 2^53 is the number that the text denotes.
- Interpreter: terms are integers, atoms and lists; a missing clause is one outcome and running out of fuel another.
- NumberTheory: that Miller-Rabin with fixed witnesses rejects every composite rests on a published computation;
  `next_prime`, `pick_e`, base conversion, digit counts and population counts are not modelled.
- Huffman: `bit_width`, `popcount` and packing bits into integers.
- Dijkstra: depth-first search and connected components.
- TopoSort: the listed nodes are distinct and edges start at listed nodes, as in the program's graphs; they may end
  anywhere.
- RegexEngine: the glob matcher of the same file.
- Calendar: business days, conflicts and `day_of_year`.
- PairingHeap: `ph_merge` on plain values is the projected heap with the identity as projection.
- Library sorts (`Enum.sort`, `Enum.sort_by`) are modelled by an insertion or merge sort.
- The emit path and the WAT runtime library, host effects, Durable Object workers, the web application, and the corpus
  programs not named above, whose properties are easier.
- The random generators and checksums of the corpus programs: generated data is arbitrary input here.
