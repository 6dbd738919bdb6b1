# cbuild and cargparse in Dafny

This project is a verified model of two pieces of the cbuild repository.

- **cbuild** is a single-header build system for C programs. A target names an output file, a command prefix, and a list of sources. Each source is either a file or another target. The header decides staleness from modification times and assembles the rebuild command in a NULL-terminated argument vector. It builds a target either sequentially or with a bounded number of parallel compiler processes. The parallel builder drives a linked worklist of targets and an open-addressing table from process ids to targets.
- **cargparse** is the command-line parser shipped beside it (`examples/with_cargparse/cargparse.h`). It registers argument names in a chained hash map. It then walks `argv`, hands each `-x` / `--name[=value]` to a typed value parser, and compacts the positional arguments in place.

Each C function of the core is modelled as written. Where verification showed the C code to be wrong (see Findings), a corrected version sits beside the as-written one under its own name. The parallel builder exists twice: MultiprocessBuildTarget composes the helpers as written, and MultiprocessBuildTargetCorrected composes the corrected ones.

- Buffers that grow by doubling are Dafny classes over `array`s: the string builder, the string vector and the command.
- So are the target stack (a linked list of heap nodes), the process table and the argument map.
- Loops are `while` loops with invariants. Methods are proved against specification functions.
- The facts the C code promises are lemmas about those functions: staleness, join, traversal order, lookup, token splitting and argv compaction.

The filesystem is a map from path to `(sec, nsec)`, and a path absent from the map is one `stat` cannot read. Targets live in an arena (a sequence), and a target source is an index into it. A C static initialiser can only take the address of an earlier target, so target sources point to smaller indices. That is the acyclicity the code assumes. Process creation and `waitpid` are an oracle object `Os`, described below.

Modules, one per file:

| file | module | C code |
|---|---|---|
| wrappers.dfy | Wrappers | `Option` |
| memory.dfy | Memory | `realloc` of a grown buffer |
| freshness.dfy | Freshness | `cbuild_target_is_older_than_source`, the self-rebuild guard |
| cstrings.dfy | CStrings | `cbuild_str_builder_*`, `cbuild_str_vector_*` |
| command.dfy | Commands | `cbuild_command_add_arg(s)` |
| graph.dfy | Graph | `cbuild_source`, `cbuild_target`, command assembly, traversal order |
| sequential.dfy | Sequential | `cbuild_build_target` |
| worklist.dfy | Worklist | `cbuild_target_stack`, `cbuild_setup_target_stack`, `cbuild_find_buildable_target` |
| targetmap.dfy | ProcessTable | `cbuild_target_map_*` |
| scheduler.dfy | Scheduler | `cbuild_build_target_async`, `cbuild_multiprocess_build_target` |
| progress.dfy | Progress | the termination and completion argument of the scheduler loop |
| strview.dfy | StrView | cargparse string views, `cargparse_str_view_eq`, `cargparse_cstr_split` |
| argmap.dfy | ArgMap | `cargparse_hash_str_view`, `cargparse_register_arg`, `cargparse_arg_map_item_get` |
| parsers.dfy | ValueParsers | `cargparse_str_vector`, `cargparse_parse_{bool,cstr,int,str_vec}_arg` |
| argparse.dfy | ArgParse | `cargparse_shift_args`, `cargparse_get_arg_name`, `cargparse_parse_small_arg`, `cargparse_parse_argument`, `cargparse_parse_args` |

The operating system is a parameter, not code. The sequential builder takes a function `exec` that gives each command's exit status (or -1 for a failed `fork`) from the number of commands run before it. The parallel builder takes an object `Os` with two constants:

- `forkOk` says whether the n-th `fork` succeeds;
- `exitCode` gives each child's exit status.

`Os` records the live children, every command started, every status reaped, and whether a `fork` failed. `Spawn` and `Wait` are `cbuild_command_exec_async` and `waitpid(-1, &status, 0)` followed by `WEXITSTATUS`. Both builders' contracts are stated over these records, so they hold for every behaviour of the operating system.

## Model

| member | source | states |
|---|---|---|
| Freshness.IsOlderThanSource | cbuild.h:310-324 | an unreadable source is never stale; a readable source with an unreadable target is stale; otherwise stale exactly when the source's `(sec, nsec)` is lexicographically later than the target's |
| Freshness.EqualTimesNeverStale | cbuild.h:320-322 | equal timestamps are never stale, so a file is never older than itself |
| Freshness.StaleIsAsymmetric | cbuild.h:320-322 | for two readable files at most one is older than the other |
| Freshness.StaleIsTransitive | cbuild.h:320-322 | staleness between readable files is transitive |
| Freshness.RebuildYourselfReturnsEarly | cbuild.h:775-784 | when cargparse is compiled in or `cargparse.h` cannot be read, the self-rebuild returns early exactly when the binary is older than neither its source nor the header; when cargparse is not compiled in, a readable `cargparse.h` always forces the rebuild |
| Freshness.MissingBinaryRebuilds | cbuild.h:778-784 | a missing binary with a readable source is always rebuilt |
| Memory.Realloc | cbuild.h:353-357 | the grown buffer is fresh, has the requested length and keeps the old contents as its prefix |
| CStrings.CPrefix | cbuild.h:361-365 | the C string read from a buffer contains no NUL |
| CStrings.CPrefixIsPrefix | cbuild.h:361-365 | the C string is a prefix of the buffer, ended by the first NUL or by the buffer's end |
| CStrings.CPrefixAt | cbuild.h:361-365 | a NUL-free prefix followed by NUL or the end is exactly the C string |
| CStrings.CPrefixOfCString | cbuild.h:361-365 | a NUL-free string is its own C string |
| CStrings.StrBuilder.constructor | cbuild.h:411 | the zero-initialised builder is empty, with a NULL buffer and capacity 0 |
| CStrings.StrBuilder.AppendChar | cbuild.h:344-359 | the contents grow by exactly `c` at the old size, and earlier characters are unchanged; capacity becomes 8 on the first append and doubles only when full; the buffer is kept when there is room |
| CStrings.StrBuilder.AppendCstr | cbuild.h:361-365 | appends exactly the characters before the first NUL |
| CStrings.StrBuilder.ToCstr | cbuild.h:367-375 | returns a buffer holding the contents then `'\0'` (the old buffer when it had room); the builder is reset to empty with a NULL buffer |
| CStrings.JoinRestSnoc | cbuild.h:413-419 | joining one more element adds exactly its piece at the end |
| CStrings.JoinSpecSnoc | cbuild.h:413-419 | each step of the join loop adds `sep` and the string for a non-NULL element, and nothing for NULL |
| CStrings.InterleavedSnoc | cbuild.h:413-419 | the separator-prefixed run of words, read from the back |
| CStrings.InterleavedLast | cbuild.h:413-419 | the same, split at the last word |
| CStrings.JoinRestIsInterleaved | cbuild.h:413-419 | for NUL-free strings the loop's output after the first string is `sep ++ w` for every later word, in order |
| CStrings.JoinedIsInterleaved | cbuild.h:409-421 | the usual separator join is the first word followed by `sep ++ w` for each later word |
| CStrings.JoinOfWords | cbuild.h:409-421 | joining a vector of NUL-free strings gives the usual separator join, and a trailing NULL adds nothing |
| CStrings.StrVector.constructor | cbuild.h:518 | the zero-initialised vector is empty, with a NULL array and capacity 0 |
| CStrings.StrVector.AddStr | cbuild.h:377-391 | the elements grow by exactly the new pointer; capacity becomes 8 on first use and doubles only when full |
| CStrings.StrVector.AddStrs | cbuild.h:393-402 | the elements grow by the given strings, in order, and the macro's closing NULL is not stored |
| CStrings.StrVector.PopBack | cbuild.h:404-407 | drops the last element; on a never-allocated vector the size wraps from 0 to `SIZE_MAX` |
| CStrings.StrVector.Join | cbuild.h:409-421 | returns a NUL-terminated buffer holding `strs[0]` followed by `sep ++ s` for every later non-NULL `s` |
| CStrings.AppendPiece | cbuild.h:414-418 | one loop step: a NULL element adds nothing, any other adds the separator and the string |
| CStrings.JoinElements | cbuild.h:409-421 | the join loop over the elements yields the join specification, NUL-terminated |
| CStrings.AppendElement | cbuild.h:413-419 | after step `i` the builder holds the join of the first `i + 1` elements |
| Commands.Unwrap | cbuild.h:423-441 | the non-NULL entries of an argument vector, one per entry |
| Commands.Command.constructor | cbuild.h:518 | the zero-initialised command has no arguments and no array |
| Commands.Command.NullTerminated | cbuild.h:423-441 | an allocated command's vector is its arguments followed by exactly one NULL |
| Commands.Command.AddArg | cbuild.h:423-428 | the NULL terminator is replaced by the argument and re-appended: the arguments grow by exactly `arg` and the vector stays NULL-terminated |
| Commands.Command.AddArgs | cbuild.h:430-441 | the same for a list: the arguments grow by exactly the given ones, in order, and the vector stays NULL-terminated |
| Commands.Command.Terminated | cbuild.h:423-441 | a vector holding some strings and then NULL is a valid command with those arguments |
| Commands.WrapAppend | cbuild.h:430-441 | wrapping strings as non-NULL pointers distributes over concatenation |
| Commands.UnwrapWrap | cbuild.h:423-441 | unwrapping wrapped strings gives them back |
| Graph.Arena.constructor | cbuild.h:152-157 | static targets start with `is_built == 0` |
| Graph.SourceArgsSnoc | cbuild.h:524-531 | each source flagged `add_to_command` adds its path to the command, and any other source adds nothing |
| Graph.SourceArgsLength | cbuild.h:524-531 | the sources add one path per flagged source |
| Graph.CountIncludedSnoc | cbuild.h:524-531 | counting flagged sources, one source at a time |
| Graph.SourceArgsKeepsOrder | cbuild.h:524-531 | a flagged source's path sits at the position given by the number of flagged sources before it, so the paths keep source order; a file source gives its file name and a target source its `target_file` |
| Graph.CommandLayoutShape | cbuild.h:518-531 | the rebuild command is the target's command prefix, then `-o`, then the target file, then one path per flagged source |
| Graph.AddEachArg | cbuild.h:519-522 | the first loop appends the command prefix, one string at a time, in order |
| Graph.AddSourceArgs | cbuild.h:524-531 | the last loop appends exactly the paths of the flagged sources, in order |
| Graph.AssembleCommand | cbuild.h:518-531 | the assembled command is exactly the command layout |
| Graph.PreorderBounded | cbuild.h:662-672 | the traversal starts at the root, and every target in it has an index no larger than the root's |
| Graph.PreorderOfSourcesBounded | cbuild.h:667-671 | everything visited below the sources of `t` has an index smaller than `t` |
| Graph.RootOnlyFirst | cbuild.h:662-672 | the root occurs once in its own traversal, at the front |
| Graph.PreorderClosed | cbuild.h:662-672 | the traversal is closed under target sources |
| Graph.PreorderOfSourcesClosed | cbuild.h:667-671 | the same for the traversal below the sources |
| Graph.PreorderOfSourcesContains | cbuild.h:667-671 | every later target source is visited below the sources |
| Graph.PreorderIncludesSource | cbuild.h:667-671 | the traversal from a target contains the traversal from each of its target sources |
| Graph.PreorderOfSourcesIncludes | cbuild.h:667-671 | the same, below the sources from position `i` |
| Graph.PreorderSplit | cbuild.h:662-672 | anything other than the root is reached through one of the root's target sources |
| Graph.PreorderOfSourcesSplit | cbuild.h:667-671 | anything visited below the sources is reached from one of them |
| Graph.Diamond | cbuild.h:172-179 | the example arena is a valid graph of three targets |
| Sequential.Build | cbuild.h:490-536 | the walk only appends to the command log; the shared `built` flag ends set exactly when it was set before or a command ran; a non-zero status implies a command ran |
| Sequential.Scan | cbuild.h:497-535 | the same three facts for the source loop from source `i` on, with `build_needed` so far |
| Sequential.BuildTarget | cbuild.h:490-536 | the recursive method with its source loop computes exactly the walk `Build`: status, final `*built` and the commands run, in order |
| Sequential.RootLayout | cbuild.h:518-533 | the target's own rebuild command is among the commands of the targets reachable from it |
| Sequential.LayoutsOfSource | cbuild.h:499-504 | the commands reachable from a target source are reachable from the target |
| Sequential.RunsWithinConcat | cbuild.h:497-514 | commands run by two successive parts of the loop, each within the reachable targets, stay within them |
| Sequential.BuildRunsWithin | cbuild.h:490-536 | every command the walk runs rebuilds a target reachable from the root |
| Sequential.ScanRunsWithin | cbuild.h:497-535 | the same for the source loop |
| Sequential.FailingDependencyAborts | cbuild.h:499-504 | an unbuilt target source whose walk fails makes the walk return 1; that dependency has a smaller index than the target, and every command run meanwhile rebuilds a target reachable from the dependency |
| Sequential.ScanRebuildsWhenNeeded | cbuild.h:505-533 | once a rebuild is needed or `*built` is set, a walk that succeeds ends by running this target's command layout and sets `*built` |
| Sequential.AlwaysRebuilds | cbuild.h:492 | with `always_recompile` every walk that succeeds ends by running the target's command |
| Sequential.BuiltCascades | cbuild.h:505-516 | once `*built` is set by earlier work, the target is rebuilt whatever its timestamps say (the cascade) |
| Sequential.StaleSourceRebuilds | cbuild.h:506-513 | a source newer than the target makes a successful walk rebuild the target |
| Sequential.ScanReachesStale | cbuild.h:497-535 | a stale source at or after position `i` makes a successful loop end by rebuilding the target |
| Sequential.UpToDateRunsNothing | cbuild.h:490-536 | with `always_recompile == 0`, `*built == 0` and nothing stale among the reachable targets, the walk returns 0, leaves `*built` clear and runs nothing |
| Sequential.ScanUpToDate | cbuild.h:497-535 | the same for the source loop |
| Sequential.SharedDependencyBuiltTwice | cbuild.h:497-533 | the walk never sets `is_built`, so in the diamond arena with `always_recompile` the shared `d.o` is compiled twice: d.o, d.o, a.o, app |
| Worklist.StackItem.constructor | cbuild.h:578-580 | a new item holds the target and links to the old head |
| Worklist.Reverse | cbuild.h:662-672 | the reversal of a sequence, element by element |
| Worklist.ReverseAppend | cbuild.h:662-672 | reversal turns concatenation around |
| Worklist.FirstReadyIndex | cbuild.h:620-660 | the position of the first item whose target sources are all built: every earlier item is not ready, the item found is ready, or there is none |
| Worklist.FirstReadySecond | cbuild.h:640-655 | when the head is not ready and the second item is, the walk stops at position 1 |
| Worklist.FirstReadyIndexNone | cbuild.h:640-659 | with no ready item the walk runs to the end |
| Worklist.LinkedTail | cbuild.h:640-657 | the tail of a linked chain is a linked chain, and the head links to it |
| Worklist.LinkedCons | cbuild.h:576-582 | a new item linked in front of a chain keeps it a linked chain |
| Worklist.WithoutFirst | cbuild.h:637 | removing position 0 leaves the tail |
| Worklist.TargetStack.constructor | cbuild.h:677 | the zero-initialised stack is empty |
| Worklist.TargetStack.Push | cbuild.h:576-582 | the target goes on top and the rest of the stack is unchanged |
| Worklist.TargetStack.FindBuildable | cbuild.h:620-660 | the corrected function: with no ready item it returns NULL (None) and leaves the stack alone, which covers the empty stack; otherwise it unlinks exactly the first ready item, returns its target and leaves the other items in order |
| Worklist.TargetStack.FindBuildableAsWritten | cbuild.h:620-660 | the function as written: the same unlinking, but past the head it returns the target of the item before the ready one (line 652) |
| Worklist.TargetStack.Unlink | cbuild.h:620-660 | the walk both variants share: the item unlinked is the first ready one, the stack loses exactly that position, and the returned target is that item's or, as written, its predecessor's |
| Worklist.TargetStack.FindReadyBelowHead | cbuild.h:640-657 | the `while` loop past a head that is not ready: finds the item whose successor is the first ready one, or null when none is ready |
| Worklist.TargetStack.PopHead | cbuild.h:637 | `head = it->next` removes the head item only |
| Worklist.TargetStack.UnlinkAfter | cbuild.h:653 | `it->next = it->next->next` removes exactly the item after `it`, keeping the others in order and the chain linked |
| Worklist.TargetStack.Contains | cbuild.h:662-672 | true exactly when the target is on the stack; used by the corrected set-up |
| Worklist.StackOrderReversesPreorder | cbuild.h:662-672 | the set-up leaves the traversal order reversed on the stack: the root was pushed first and ends at the bottom |
| Worklist.StackOrderElems | cbuild.h:662-672 | the set-up as written pushes exactly the targets reachable from the root, some of them more than once |
| Worklist.StackOrderOfSourcesReverses | cbuild.h:667-671 | the same for the part pushed by the source loop |
| Worklist.EmptyPrefix | cbuild.h:667-671 | nothing pushed leaves the stack as it was |
| Worklist.PushStep | cbuild.h:667-671 | each loop step moves one source's pushes from "still to push" onto the stack |
| Worklist.SetupTargetStack | cbuild.h:662-672 | as written: pushes the target, then recursively each target source in order; the stack becomes the stack order of the target on top of the old contents |
| Worklist.SetupSources | cbuild.h:667-671 | the loop over the sources pushes each target source's order in turn |
| Worklist.SetupSource | cbuild.h:669-670 | one iteration: a target source pushes its order, a file source nothing |
| Worklist.DistinctCons | cbuild.h:662-672 | pushing a target that is absent keeps the stack free of duplicates |
| Worklist.SetupTargetStackOnce | cbuild.h:662-672 | the corrected set-up pushes a target only when it is absent but always visits its sources; the stack becomes the deduplicated order |
| Worklist.ElemsConcat | cbuild.h:662-672 | the targets of two parts are the union of their targets |
| Worklist.OnceOrderDistinct | cbuild.h:662-672 | the corrected set-up, started without duplicates, leaves none |
| Worklist.OnceOrderOfSourcesDistinct | cbuild.h:667-671 | the same for the source loop |
| Worklist.OnceOrderKeepsBottom | cbuild.h:662-672 | the set-up only pushes: what was on the stack stays, at the bottom |
| Worklist.OnceOrderOfSourcesKeepsBottom | cbuild.h:667-671 | the same for the source loop |
| Worklist.OnceOrderElems | cbuild.h:662-672 | the corrected set-up adds exactly the targets reachable from the root |
| Worklist.OnceOrderOfSourcesElems | cbuild.h:667-671 | the source loop adds exactly the targets visited below the sources |
| Worklist.IsReady | cbuild.h:628-635 | the `for` loop that stops at the first target source not yet built decides exactly readiness |
| Worklist.DiamondLeafStack | cbuild.h:662-672 | in the diamond arena `d.o` alone pushes `[d.o]` |
| Worklist.DiamondLeafOnce | cbuild.h:662-672 | the corrected set-up pushes `d.o` only when it is absent |
| Worklist.DiamondMiddleStack | cbuild.h:662-672 | `a.o` pushes `d.o` then itself |
| Worklist.DiamondMiddleOnce | cbuild.h:662-672 | the corrected set-up of `a.o` on a stack already holding `d.o` adds only `a.o` |
| Worklist.DiamondStackHasDuplicate | cbuild.h:662-672 | as written, the diamond pushes `d.o` twice |
| Worklist.DiamondOnceOrder | cbuild.h:662-672 | the corrected set-up pushes each target of the diamond once |
| Worklist.TwoChains | cbuild.h:172-179 | the second example arena is a valid graph of five targets |
| Worklist.TwoChainsLeafOnce | cbuild.h:662-672 | the two targets with only file sources push themselves when absent |
| Worklist.TwoChainsLeftOnce | cbuild.h:662-672 | the set-up of `a.o` pushes `a1.o` above itself |
| Worklist.TwoChainsRightOnce | cbuild.h:662-672 | the set-up of `b.o` pushes `b1.o` above itself |
| Worklist.TwoChainsOnce | cbuild.h:662-672 | the corrected set-up of `app` stacks `b1.o, b.o, a1.o, a.o, app` from the head |
| Worklist.TwoChainsStack | cbuild.h:662-672 | the set-up as written of `app` stacks the same `b1.o, b.o, a1.o, a.o, app`: no target is shared |
| Worklist.TwoChainsWaiting | cbuild.h:628-660 | with only `b.o` built nothing on `b.o, a.o, app` is ready; with `b1.o` and `b.o` built `b.o` is, and nothing on `a.o, app` is |
| Worklist.TwoChainsReadiness | cbuild.h:628-635 | with nothing built, `a1.o` is ready and `b.o` is not |
| Worklist.TwoChainsFirstReady | cbuild.h:640-655 | on `b.o, a1.o, a.o, app` the first ready item is at position 1, and the item before it is not ready |
| Worklist.PredecessorIsNotReady | cbuild.h:650-654 | after `b1.o` has been handed out, the walk unlinks `a1.o` but the code as written returns `b.o`, which is not ready |
| Worklist.TwoChainsLeafReady | cbuild.h:628-635 | with nothing built, `b1.o`, which has only a file source, is ready |
| Worklist.TwoChainsWorklist | cbuild.h:662-672 | a fresh arena of the two-chain example with nothing built, and a new stack holding the corrected set-up of `app` |
| Worklist.TakeReadyHead | cbuild.h:628-638 | when the head is ready, the search removes and returns it and leaves the rest in order |
| Worklist.TakeSecondAsWritten | cbuild.h:640-654 | as written, when the head waits and the second item is ready, the head's target is returned |
| Worklist.PredecessorReturned | cbuild.h:650-654 | on the two-chain worklist, once `b1.o` has been taken from the head, the search as written returns `b.o`, which is not ready |
| ProcessTable.Occupied | cbuild.h:213-218 | the number of slots whose pid is non-zero, at most the capacity |
| ProcessTable.FreeSlotExists | cbuild.h:594-595 | a table that is not entirely occupied has a slot with pid 0, so the insertion probe ends |
| ProcessTable.OccupiedUpdate | cbuild.h:596-606 | writing one slot changes the count by the difference between the old and new slot |
| ProcessTable.OccupiedNone | cbuild.h:587 | a zeroed table has no occupied slot |
| ProcessTable.NextIndex | cbuild.h:595 | `(i + 1) % capacity` wraps from the last slot to the first |
| ProcessTable.Probe | cbuild.h:593-595 | the `k`-th slot probed from `pid % capacity` is a slot of the table |
| ProcessTable.Distance | cbuild.h:593-595 | every slot is probed within the first `capacity` steps |
| ProcessTable.PutWellFormed | cbuild.h:596-597 | writing a positive pid and a target keeps slots well formed |
| ProcessTable.PutMapped | cbuild.h:596-597 | the written slot maps its new pid to its target |
| ProcessTable.PutStored | cbuild.h:596-597 | every pid of the map is still stored in some slot |
| ProcessTable.PutDistinct | cbuild.h:596-597 | a pid not yet in the map, written into a free slot, keeps the pids distinct |
| ProcessTable.TableInvPut | cbuild.h:596-597 | filling a free slot with a new pid adds exactly that entry |
| ProcessTable.ClearWellFormed | cbuild.h:606-607 | zeroing a slot keeps slots well formed |
| ProcessTable.ClearMapped | cbuild.h:606-607 | after zeroing, the remaining slots map exactly the other pids |
| ProcessTable.ClearStored | cbuild.h:606-607 | every remaining pid is still stored |
| ProcessTable.ClearDistinct | cbuild.h:606-607 | zeroing keeps the pids distinct |
| ProcessTable.MapRemoveCard | cbuild.h:606-607 | removing a present key shrinks the map by one |
| ProcessTable.TableInvClear | cbuild.h:606-607 | zeroing an occupied slot removes exactly its entry |
| ProcessTable.TargetMap.constructor | cbuild.h:584-588 | `calloc` zeroes every slot: the map is empty with the requested capacity |
| ProcessTable.TargetMap.ProbeFree | cbuild.h:593-595 | the probe from `pid % capacity` stops at the first free slot; every slot probed before it is occupied |
| ProcessTable.TargetMap.Place | cbuild.h:593-597 | the insertion writes the pid and target into the first free slot of the probe sequence and changes no other slot; the map gains exactly that entry |
| ProcessTable.TargetMap.Insert | cbuild.h:590-598 | the corrected insertion: the same writes, with `size` counting the entries so that the "Map is full" guard means what it says |
| ProcessTable.TargetMap.InsertAsWritten | cbuild.h:590-598 | the insertion as written: the same writes, and `size` is left unchanged |
| ProcessTable.TargetMap.Find | cbuild.h:614-616 | the probe for a stored pid ends at the slot holding it |
| ProcessTable.TargetMap.Get | cbuild.h:611-618 | returns the target associated with the pid, so a get after the insert of a distinct pid returns the target inserted |
| ProcessTable.TargetMap.Remove | cbuild.h:600-609 | the corrected removal: zeroes exactly the slot holding the pid, leaves every other slot unchanged, drops that one entry and decrements `size` with it |
| ProcessTable.TargetMap.Clear | cbuild.h:602-607 | the probe and the zeroing both removals share: the slot holding the pid is zeroed, no other slot changes, the entry is dropped, `size` and `capacity` unchanged |
| ProcessTable.TargetMap.RemoveAsWritten | cbuild.h:600-609 | the removal as written: the same writes, `size` left unchanged, under the "Map is full" assertion |
| ProcessTable.FullTablePassesGuard | cbuild.h:590-598 | as written, after one insertion into a one-slot table the guard still passes although no slot is free |
| Scheduler.Os.constructor | cbuild.h:674-683 | the operating system at the start of a parallel build: no child, nothing run, nothing reaped, no failed fork |
| Scheduler.Os.Spawn | cbuild.h:450-464 | `fork` fails exactly when the oracle says the n-th fork fails, and then returns -1, records the failure and starts nothing; otherwise it starts one child with a fresh positive pid running `argv` |
| Scheduler.Os.Wait | cbuild.h:701-706 | `waitpid(-1)` returns -1 when no child is live, otherwise one live child, which stops being live, and `WEXITSTATUS`: its exit code modulo 256 |
| Scheduler.CheckStaleness | cbuild.h:540-552 | the loop ORs `always_recompile` with the timestamp test of every source, target sources included, with no cascade from dependencies |
| Scheduler.BuildTargetAsync | cbuild.h:538-574 | when a rebuild is needed, `is_built` is unchanged and the result is the spawn result (a fresh child running the command layout, or -1); otherwise `is_built := 1`, it returns 0 and nothing is spawned |
| Scheduler.StatusLogStep | cbuild.h:705-706 | reaping while `error == 0` makes `error` the new status |
| Scheduler.TrackedReap | cbuild.h:702-709 | reaping a child marks its target built and drops its table entry, keeping the loop's bookkeeping |
| Scheduler.TrackedIdle | cbuild.h:702-704 | with no child left the bookkeeping still holds when the loop ends |
| Scheduler.TrackedPopBuilt | cbuild.h:688-696 | a ready target that needs no work is marked built and leaves the worklist |
| Scheduler.TrackedPopSpawn | cbuild.h:688-698 | a ready target handed to a new child leaves the worklist and enters the table |
| Scheduler.TrackedForkFailed | cbuild.h:692-694 | a target whose fork failed is lost from the worklist; the bookkeeping holds without the progress argument |
| Scheduler.TrackedStuck | cbuild.h:686-690 | with nothing built before, no failed fork and no child running, finding no ready target means the worklist is empty |
| Scheduler.TrackedDone | cbuild.h:684-712 | under the same conditions an empty worklist at the end means every target reachable from the root is built |
| Scheduler.StatusLogOutcome | cbuild.h:705-712 | `error` is non-zero exactly when a child was reaped and the last one failed, and every child reaped before it exited 0 |
| Scheduler.StartTarget | cbuild.h:692-698 | one call of the asynchronous step plus, for a positive pid, the table insertion: 0 exactly when no rebuild is needed, and then the target is marked built; -1 exactly when a rebuild is needed and the fork fails, and then only the failure is recorded; a pid adds the entry `pid -> t` and one command. As written the insertion leaves `size` at 0, corrected it counts the entry |
| Scheduler.LaunchOne | cbuild.h:688-698 | one pass of the inner loop: no ready target leaves everything unchanged; otherwise the first ready item leaves the worklist and the target started as in StartTarget is that item's, or as written past the head the one before it |
| Scheduler.LaunchStep | cbuild.h:686-699 | one pass of the inner loop keeps the object invariant (one table entry per running child, at most `nb_process`) and the bookkeeping; it counts one more child exactly when one was started |
| Scheduler.LaunchReady | cbuild.h:686-699 | the inner `while (running_processes < nb_process)` loop keeps the invariants and never lets the table hold more than `nb_process` entries; it stops with an empty worklist when nothing is running and progress applies |
| Scheduler.ReapChild | cbuild.h:701-709 | waiting reaps one child, reports its exit code modulo 256, marks its target built and removes exactly its table entry; -1 means no child was left |
| Scheduler.Retire | cbuild.h:707-709 | `cbuild_target_map_get`, `is_built = 1` and `cbuild_target_map_remove`: the pid's target is marked built and exactly its entry removed, through RemoveAsWritten as written and Remove corrected |
| Scheduler.ReapStep | cbuild.h:701-709 | the reaping step with the running count decremented and `error` set to the status |
| Scheduler.TrackedOutcome | cbuild.h:684-712 | when the loop ends, `error` reflects the last status reaped, only reachable targets changed `is_built`, and with nothing built before, some process allowed and no failed fork, `error == 0` means all reachable targets are built |
| Scheduler.SetUp | cbuild.h:677-680 | as written the worklist is the stack order of the root; corrected it is the deduplicated order; either way it holds exactly the reachable targets, and the table is empty with capacity `nb_process` |
| Scheduler.RunLoop | cbuild.h:684-710 | the main loop ends with the bookkeeping intact; with progress in force and `error == 0` the worklist is empty |
| Scheduler.RunAndReport | cbuild.h:684-712 | the main loop and `return error != 0`: the result is 1 exactly when the last child reaped failed, every earlier one exited 0, only reachable targets change, nothing happens with `nb_process == 0`, and with progress in force a result of 0 means every reachable target is built |
| Scheduler.MultiprocessBuildTarget | cbuild.h:674-713 | as written: returns 0 or 1; 1 exactly when the last child reaped exited non-zero, every earlier one exited 0; only reachable targets change `is_built`; with `nb_process == 0` nothing happens. It promises no completion: see LostTargets |
| Scheduler.MultiprocessBuildTargetCorrected | cbuild.h:674-713 | over the deduplicated set-up, the corrected search and the counting table: the same, and with nothing reachable built before, `nb_process >= 1`, no failed fork and result 0, every reachable target is built |
| Scheduler.SourcesOnlyStaleness | cbuild.h:540-552 | with only `a1.c` and `b1.c` on disk, `b1.o` needs a build and `b.o`, whose dependency cannot be read, does not |
| Scheduler.LostSecond | cbuild.h:640-654 | in that run the second search unlinks `a1.o` at position 1 and hands back `b.o`, which needs no build |
| Scheduler.LostScheduleHolds | cbuild.h:620-660 | every search of that run: `b1.o` first, then `b.o` for `a1.o`, then nothing until `b1.o` is reaped, then `b.o` once more and nothing below it |
| Scheduler.LostFirstTurn | cbuild.h:684-709 | the first turn of the main loop as written: `b1.o` goes to a child, `a1.o` leaves the worklist while `b.o` is marked built, and the child is reaped with status 0 |
| Scheduler.LostLastTurns | cbuild.h:684-709 | the turns after it: `b.o` is handed out again, nothing below it is ready, and the loop ends when `waitpid` finds no child |
| Scheduler.LostTargets | cbuild.h:674-713 | the main function as written on `app` of the two-chain arena with two processes, every fork succeeding and every child exiting with 0: the result is 0, yet `a1.o`, `a.o` and `app` are never built and `a.o`, `app` stay on the worklist |
| Progress.ReachableBounded | cbuild.h:662-672 | reachable targets have indices no larger than the root |
| Progress.ReadyMonotone | cbuild.h:628-635 | marking one more target built keeps ready targets ready |
| Progress.BuiltBelow | cbuild.h:684-710 | below a built target everything is built |
| Progress.RootReadyAllBuilt | cbuild.h:684-710 | once the root is ready, every other reachable target is built |
| Progress.WithoutElements | cbuild.h:653 | removing position `k` shifts the later items down by one |
| Progress.DistinctWithout | cbuild.h:653 | removing an item from a duplicate-free worklist removes exactly that target |
| Progress.InvInit | cbuild.h:677-678 | the deduplicated worklist of a fresh arena satisfies the invariant and holds the root |
| Progress.InvPopBuilt | cbuild.h:572 | a ready target that needs no work, marked built, keeps the invariant |
| Progress.InvPopSpawn | cbuild.h:697-698 | a ready target handed to a new child keeps the invariant |
| Progress.InvReap | cbuild.h:707-709 | reaping keeps the invariant; with the root off the worklist the child reaped was building the root or something else still running |
| Progress.InvStuck | cbuild.h:686-690 | with no child running, a non-empty worklist has a ready item: the lowest index on it |
| Progress.Lowest | cbuild.h:686-690 | the smallest index on a non-empty worklist |
| StrView.StrnEqPrefix | examples/with_cargparse/cargparse.h:256-262 | when the first string has at least `n` bytes, `strncmp(a, b, n) == 0` holds exactly when `b` has `n` bytes and the first `n` agree |
| StrView.ViewEqIff | examples/with_cargparse/cargparse.h:256-262 | two views are equal exactly when their sizes agree and so do the bytes they designate |
| StrView.ViewEqReflexive | examples/with_cargparse/cargparse.h:256-262 | every view equals itself |
| StrView.ViewEqSymmetric | examples/with_cargparse/cargparse.h:256-262 | the comparison does not depend on the order of its operands |
| StrView.ViewEqTransitive | examples/with_cargparse/cargparse.h:256-262 | view equality is transitive |
| StrView.FromCstr | examples/with_cargparse/cargparse.h:264-268 | the view covers the whole string and its size is `strlen` |
| StrView.SkipDelims | examples/with_cargparse/cargparse.h:273-274 | the first loop of cargparse_cstr_split stops at the first byte that is not a delimiter, or the NUL |
| StrView.RunEnd | examples/with_cargparse/cargparse.h:279-283 | the second loop stops at the first delimiter, or the NUL |
| StrView.StripAppend | examples/with_cargparse/cargparse.h:270-285 | removing delimiters distributes over concatenation |
| StrView.StripAll | examples/with_cargparse/cargparse.h:273-276 | a run of delimiters strips to nothing |
| StrView.StripNone | examples/with_cargparse/cargparse.h:279-283 | a run without delimiters strips to itself |
| StrView.TokensShape | examples/with_cargparse/cargparse.h:270-285 | every token the split yields is non-empty and holds no delimiter |
| StrView.TokensCover | examples/with_cargparse/cargparse.h:270-285 | together the tokens are exactly the non-delimiter bytes of the rest of the string |
| StrView.StripSkipRun | examples/with_cargparse/cargparse.h:270-285 | delimiters, a run of other bytes, then the rest: the run followed by the stripped rest |
| StrView.CstrSplit | examples/with_cargparse/cargparse.h:270-285 | the split skips delimiters; at the NUL it yields NULL (None) and leaves the pointer there; otherwise it yields the maximal run of other bytes and leaves the pointer after it; the view is the next token and the rest are the tokens from there |
| StrView.TokensOfJoin | examples/with_cargparse/cargparse.h:270-285 | splitting undoes joining for non-empty words without a delimiter: the `"\|"`-separated names register one by one |
| StrView.JoinAtOfJoin | examples/with_cargparse/cargparse.h:270-285 | a join that occupies the string from offset `i` to the end is laid out word by word |
| StrView.TokensOfJoinAt | examples/with_cargparse/cargparse.h:270-285 | the tokens from offset `i` of such a layout are the words |
| StrView.TokensCons | examples/with_cargparse/cargparse.h:270-285 | a word followed by a delimiter is the first token, then the tokens after the delimiter |
| StrView.TokensLast | examples/with_cargparse/cargparse.h:270-285 | a word running to the end of the string is its only token |
| StrView.WordsTail | examples/with_cargparse/cargparse.h:270-285 | the words after the first are still non-empty and free of delimiters |
| StrView.JoinHead | examples/with_cargparse/cargparse.h:270-285 | the first word of a join, and the delimiter and the join of the others after it |
| StrView.TokensOfWord | examples/with_cargparse/cargparse.h:270-285 | a word ended by the delimiter or the end is the next token |
| StrView.TokensStep | examples/with_cargparse/cargparse.h:270-285 | a token starting at a non-delimiter runs to RunEnd |
| StrView.RunEndOfWord | examples/with_cargparse/cargparse.h:279-283 | the second loop stops right after a word that ends at a delimiter or the NUL |
| StrView.TokensSkipOne | examples/with_cargparse/cargparse.h:273-274 | a delimiter starts no token |
| ArgMap.HashFromStep | examples/with_cargparse/cargparse.h:292-293 | one loop round of the hash |
| ArgMap.HashStrView | examples/with_cargparse/cargparse.h:289-295 | the byte loop computes Hash |
| ArgMap.Bucket | examples/with_cargparse/cargparse.h:306 | `hash % capacity` is a valid bucket |
| ArgMap.BucketOfEqual | examples/with_cargparse/cargparse.h:306 | equal names land in the same bucket, so a lookup searches the chain a registration went to |
| ArgMap.NewItem | examples/with_cargparse/cargparse.h:301-305 | the new item has the name, parser and variable given, and needs a value exactly when its parser is not the bool one |
| ArgMap.Lookup | examples/with_cargparse/cargparse.h:453-456 | the chain walk finds nothing exactly when no item's name is equal, otherwise an item of the chain with an equal name |
| ArgMap.LookupFirst | examples/with_cargparse/cargparse.h:453-456 | the walk stops at the first equal name |
| ArgMap.FindInChain | examples/with_cargparse/cargparse.h:453-456 | the `while` loop computes Lookup |
| ArgMap.LastIndex | examples/with_cargparse/cargparse.h:297-315 | the position of the newest registration with an equal name, or -1 |
| ArgMap.LastIndexIsLast | examples/with_cargparse/cargparse.h:297-315 | no later registration has an equal name |
| ArgMap.LastMatchSpec | examples/with_cargparse/cargparse.h:448-457 | None exactly when no registration has an equal name; otherwise a registered item with an equal name |
| ArgMap.ChainSnoc | examples/with_cargparse/cargparse.h:311-313 | registering an item puts it at the head of its bucket's chain and leaves the other chains alone |
| ArgMap.LookupCons | examples/with_cargparse/cargparse.h:453-456 | the walk over a chain with a new head |
| ArgMap.LastMatchSnoc | examples/with_cargparse/cargparse.h:297-315 | the newest match after one more registration |
| ArgMap.LookupChain | examples/with_cargparse/cargparse.h:448-457 | looking a name up in its bucket finds the newest registration of an equal name: later registrations shadow earlier ones |
| ArgMap.ArgMap.constructor | examples/with_cargparse/cargparse.h:321-323 | the map cargparse_setup_args allocates: ten empty buckets |
| ArgMap.ArgMap.Register | examples/with_cargparse/cargparse.h:297-315 | returns 0; the new item goes to the head of its bucket's chain and no other bucket changes |
| ArgMap.ArgMap.ItemGet | examples/with_cargparse/cargparse.h:448-457 | the result is the newest registration whose name equals the one asked for, or NULL (None) |
| ValueParsers.StrVec.constructor | examples/with_cargparse/cargparse.h:401 | the zero-initialised vector holds nothing and no array |
| ValueParsers.StrVec.AddStr | examples/with_cargparse/cargparse.h:236-249 | one element is appended; the capacity becomes 8 on first use and doubles when the vector is full |
| ValueParsers.StrVec.Get | examples/with_cargparse/cargparse.h:251-254 | the element at an index below the size |
| ValueParsers.Globals.constructor | examples/with_cargparse/cargparse.h:319-342 | the variables with their initial values |
| ValueParsers.ParseBoolArg | examples/with_cargparse/cargparse.h:412-417 | returns no error and flips the variable, ignoring the argument |
| ValueParsers.ParseCstrArg | examples/with_cargparse/cargparse.h:419-426 | NULL is a missing value and changes nothing; otherwise the variable holds the argument |
| ValueParsers.SpaceEnd | examples/with_cargparse/cargparse.h:428-436 | `strtol` first skips the white space |
| ValueParsers.DigitEnd | examples/with_cargparse/cargparse.h:428-436 | then the longest run of decimal digits |
| ValueParsers.StrToL | examples/with_cargparse/cargparse.h:433 | the conversion ends within the string and its value is within `long` |
| ValueParsers.ToInt32 | examples/with_cargparse/cargparse.h:433 | the `(int)` cast lands in the `int` range and keeps values already in it |
| ValueParsers.IntArgAsWritten | examples/with_cargparse/cargparse.h:428-436 | as written: the value written is the truncated conversion, and the error is WrongValueType exactly when `strtol` stopped before the end |
| ValueParsers.EmptyIntAccepted | examples/with_cargparse/cargparse.h:433-435 | the empty argument converts nothing, yet as written it is accepted as 0 |
| ValueParsers.IntArg | examples/with_cargparse/cargparse.h:428-436 | corrected: WrongValueType exactly when `strtol` stopped before the end or the argument is empty |
| ValueParsers.IntArgFixesOnlyEmpty | examples/with_cargparse/cargparse.h:428-436 | the correction changes the outcome on the empty argument alone |
| ValueParsers.Digits | examples/with_cargparse/cargparse.h:428-436 | a non-empty run of decimal digits |
| ValueParsers.DecimalOfDigits | examples/with_cargparse/cargparse.h:428-436 | the digits of a natural number denote that number |
| ValueParsers.DigitEndOfDigits | examples/with_cargparse/cargparse.h:428-436 | the digit run over a string of digits reaches the end |
| ValueParsers.IntArgOfNumeral | examples/with_cargparse/cargparse.h:428-436 | every `int` written as a numeral parses back to itself without error, as written and corrected |
| ValueParsers.Somes | examples/with_cargparse/cargparse.h:398-410 | each token as a non-NULL pointer |
| ValueParsers.VecArg | examples/with_cargparse/cargparse.h:398-410 | the vector holds NULL alone when there is no token, otherwise exactly the comma-separated tokens |
| ValueParsers.VecArgOfJoin | examples/with_cargparse/cargparse.h:398-410 | values joined by commas come back one by one |
| ValueParsers.ParseIntArg | examples/with_cargparse/cargparse.h:428-436 | NULL is a missing value and changes nothing; otherwise the error and the value written are those of IntArgAsWritten, so an empty value is stored as 0 without error |
| ValueParsers.TokenVector | examples/with_cargparse/cargparse.h:400-404 | the `strtok` loop fills a fresh vector with VecArg of the argument |
| ValueParsers.ParseStrVecArg | examples/with_cargparse/cargparse.h:398-410 | NULL is a missing value and changes nothing; otherwise no error and the variable holds the vector of tokens |
| ArgParse.Shift | examples/with_cargparse/cargparse.h:438-446 | no argument left: NULL and nothing changes; otherwise the first argument and one fewer left |
| ArgParse.Cursor.constructor | examples/with_cargparse/cargparse.h:513-515 | `argc` and `argv` as `main` receives them |
| ArgParse.Cursor.ShiftArgs | examples/with_cargparse/cargparse.h:438-446 | the shift on the caller's `argc`/`argv`, agreeing with Shift |
| ArgParse.Cursor.Keep | examples/with_cargparse/cargparse.h:523-526 | the kept argument is written after the ones kept before, below the arguments not yet read |
| ArgParse.Cursor.CopyRemaining | examples/with_cargparse/cargparse.h:533-534 | the second loop keeps the arguments up to the first NULL, in order |
| ArgParse.Cursor.Close | examples/with_cargparse/cargparse.h:533-538 | after the second loop the vector ends in NULL and `argc`/`argv` designate the kept arguments |
| ArgParse.Invoke | examples/with_cargparse/cargparse.h:486 | the indirect call changes the variables as Apply says |
| ArgParse.EmptyIntValueStored | examples/with_cargparse/cargparse.h:433-435 | an int item given an empty value, as in `--count=`, is set to 0 without error |
| ArgParse.Find | examples/with_cargparse/cargparse.h:466-467 | the scan for '=' stops at the first one or the NUL |
| ArgParse.ArgName | examples/with_cargparse/cargparse.h:459-471 | a string not starting with '-' gives the empty name after it and leaves `*is_equal_arg` alone; otherwise the name starts after one or two dashes, runs to the first '=' or the end, and `*is_equal_arg` says whether it stopped at '=' |
| ArgParse.GetArgName | examples/with_cargparse/cargparse.h:459-471 | the loop computes ArgName |
| ArgParse.HelpPrefix | examples/with_cargparse/cargparse.h:498 | `strncmp(name, "help", size) == 0` holds exactly for the prefixes of "help", the empty one included |
| ArgParse.FirstEqualEndsName | examples/with_cargparse/cargparse.h:505-506 | the '=' `strchr` finds in the argument is the one that ended the name |
| ArgParse.SmallSpec | examples/with_cargparse/cargparse.h:473-490 | each byte after '-' is looked up as a one-letter name: unknown stops with UnknownArg; a value-taking item shifts the next argument; an error stops; the loop ends at the NUL with no error |
| ArgParse.SmallStep | examples/with_cargparse/cargparse.h:476-488 | one letter of a group that names a registered item |
| ArgParse.LongValue | examples/with_cargparse/cargparse.h:502-506 | the value is the next argument when there is no '=' and one is needed, the text after the first '=' when there is one, the argument itself otherwise |
| ArgParse.LongSpec | examples/with_cargparse/cargparse.h:494-510 | for "--": a prefix of "help" asks for help, an unregistered name is UnknownArg, otherwise the parser gets LongValue |
| ArgParse.ArgumentSpec | examples/with_cargparse/cargparse.h:492-511 | one '-' selects the short group, two the long form |
| ArgParse.SmallLetter | examples/with_cargparse/cargparse.h:476-488 | one loop iteration of the short group follows SmallSpec |
| ArgParse.ParseSmallArg | examples/with_cargparse/cargparse.h:473-490 | its error, the variables and the arguments left are those of SmallSpec |
| ArgParse.ParseArgument | examples/with_cargparse/cargparse.h:492-511 | its error, the variables and the arguments left are those of ArgumentSpec |
| ArgParse.ParseLongArg | examples/with_cargparse/cargparse.h:494-510 | the long form's error, variables and arguments left are those of LongSpec |
| ArgParse.LongArgValue | examples/with_cargparse/cargparse.h:502-506 | the value passed is LongValue's, consuming the next argument only in its first case |
| ArgParse.ScanStop | examples/with_cargparse/cargparse.h:519-522 | NULL or "--" ends the first loop |
| ArgParse.ScanKeep | examples/with_cargparse/cargparse.h:523-527 | an argument not starting with '-' is kept and the loop goes on |
| ArgParse.ScanOption | examples/with_cargparse/cargparse.h:529-531 | an option is parsed; an error ends the parse in `cargparse_print_help` |
| ArgParse.CopyRestKeepsAll | examples/with_cargparse/cargparse.h:533-534 | the second loop keeps everything up to the first NULL |
| ArgParse.CopyStep | examples/with_cargparse/cargparse.h:533-534 | one more argument kept by the second loop |
| ArgParse.CopyEnd | examples/with_cargparse/cargparse.h:533-534 | the NULL ends the second loop with everything kept |
| ArgParse.UntilNullPrefix | examples/with_cargparse/cargparse.h:533-534 | the arguments kept are a NULL-free prefix, stopped by a NULL |
| ArgParse.ScanKeepsOperands | examples/with_cargparse/cargparse.h:519-531 | the first loop keeps no more than it reads, and only operands |
| ArgParse.ScanOperands | examples/with_cargparse/cargparse.h:519-531 | without options every argument is kept in order and no variable changes |
| ArgParse.DoubleDashStops | examples/with_cargparse/cargparse.h:521-522 | after "--" nothing is parsed: everything up to the first NULL is kept |
| ArgParse.FindAt | examples/with_cargparse/cargparse.h:466-467 | the '=' scan stops at the first '=' |
| ArgParse.LongName | examples/with_cargparse/cargparse.h:459-471 | the name of `--name` or `--name=value` is `name` and the first '=' follows it |
| ArgParse.LongHelp | examples/with_cargparse/cargparse.h:498-499 | `--h`, `--he`, `--hel` and `--help`, with or without `=value`, ask for help whether registered or not, consuming nothing |
| ArgParse.LongUnknown | examples/with_cargparse/cargparse.h:500-502 | an unregistered long name is an unknown argument and consumes nothing |
| ArgParse.LongWithValue | examples/with_cargparse/cargparse.h:505-510 | `--name=value` for a registered name passes the text after '=' and shifts nothing |
| ArgParse.LongSeparate | examples/with_cargparse/cargparse.h:502-510 | `--name` for a registered name takes the next argument when it needs a value, and the argument itself when it is a flag |
| ArgParse.ShortSingle | examples/with_cargparse/cargparse.h:473-490 | `-x` is the one call of its parser, shifting first when it needs a value |
| ArgParse.OptionError | examples/with_cargparse/cargparse.h:529-531 | an error ends the first loop and names the argument being parsed |
| ArgParse.ParsedFits | examples/with_cargparse/cargparse.h:513-539 | with a program name present, the program name and the kept arguments never outnumber the original vector, and only operands are kept before "--" |
| ArgParse.EmptyArgvOverrun | examples/with_cargparse/cargparse.h:515-537 | as written, with `argc == 0` the count starts at 1: the closing NULL goes one past the vector and `*argc` is 1 |
| ArgParse.ScanOptions | examples/with_cargparse/cargparse.h:519-531 | the first loop follows Scan: an error names the argument and the variables, otherwise the arguments kept are written in order at the front |
| ArgParse.ScanOne | examples/with_cargparse/cargparse.h:519-531 | one iteration of the first loop follows Scan |
| ArgParse.ParseArgs | examples/with_cargparse/cargparse.h:513-539 | the variables end as ParseArgsSpec says; an error exits with status 0 for help and 1 otherwise; otherwise it returns 0 and `argv` holds entry 0 as the program name (whatever `argc` was), then the operands and the arguments after "--", ending in NULL, with `argc` 1 more than the arguments kept |

## Left out

- Process creation and waiting (`pid_wait`, `cbuild_command_exec_async`, `cbuild_command_exec_sync`, `waitpid`, `execvp`, `exit`, cbuild.h:443-472 and 701): the operating system is the `exec` function and the `Os` object described above. The children's own work, and true concurrency between them and the parent, are not modelled.
- The self-rebuild and bootstrap code (`__cbuild_rebuild_yourself`, `cbuild_bootstrap_first_step`, `cbuild_rename`, `cbuild_write_argument`): it renames, recompiles over and re-executes the running binary. Only its early return (cbuild.h:778-784) is stated, as RebuildYourselfReturnsEarly.
- `cbuild_clean_target`: it only removes files.
- `cbuild_log` and the ANSI level strings: console output only.
- `cargparse_print_help`: it only prints. Its `exit` is the `Exited` ending of ParseArgs, with the status it would exit with.
- `cargparse_setup_args` and the `ARGUMENT` X-macro: they read a generated file and declare globals. The registry is an `ArgMap` built by `Register` calls, and the globals are the numbered variables of `Globals`.
- `malloc`, `calloc` and `realloc` failure, and `free`: allocation always succeeds and memory is never released.
- `stat` and `access` are the path-to-timestamp map. A failed `stat` is a path absent from the map.
- `strtok` writes NUL bytes into the argument string. The model splits the argument by value, the same way `cargparse_cstr_split` does, and does not model the bytes overwritten in `argv`.
- `strtol`: locale-dependent white space and `errno` are not modelled. White space is the C locale's, and out-of-range values saturate at the `long` bounds.
- ValueParsers.ToInt32: the `(int)` cast of a `long` is taken as two's complement truncation, as GCC and Clang do. C leaves it implementation-defined.
- ArgMap.Widen: `char` is taken as signed, as on x86. With unsigned `char`, bytes 128..255 would hash differently, but equal names would still share a bucket.
- Scheduler.MultiprocessBuildTarget: the function as written promises no completion at all. Its search hands out the item before the ready one and loses the ready one, so it can return 0 with targets unbuilt (LostTargets, and Findings).
- Scheduler.MultiprocessBuildTargetCorrected: completion (every reachable target built when the result is 0) is promised only when nothing reachable was built before, `nb_process >= 1` and no `fork` failed. A failed `fork` drops its target from the worklist, and the code can then return 0 with that target unbuilt. A target already built before the call may have unbuilt, stale dependencies, and the progress argument does not cover that.
- Scheduler.LostTargets: the run is written out turn by turn from the helpers the main loop calls (SetUp, LaunchOne, ReapChild), in the loop's order, and not as one call of MultiprocessBuildTarget, whose contract does not say which targets stay unbuilt.
- Scheduler.Os: the filesystem does not change during a parallel build, so a file a child writes is not seen by later staleness tests. LostTargets covers both outcomes of the second hand-out of `b.o`, and `a1.o` is lost before any child is reaped.
- Scheduler.MultiprocessBuildTarget: the `int *built` out-parameter is never written by the C function, so the model has none.
- Sequential.Build: `cbuild_build_target` never sets `is_built`. The model keeps that, so a shared dependency is rebuilt once per path (SharedDependencyBuiltTwice).
- ProcessTable.TargetMap.InsertAsWritten: the C probe loop never ends on a full table. The as-written method requires the free slot its termination needs.
- ProcessTable.TargetMap.Get and ProcessTable.TargetMap.Remove: the "Map is full" assertion is dropped. With `size` counting entries it would fire on a full table, and the scheduler fills the table whenever `nb_process` children run. RemoveAsWritten keeps it as a precondition, which the as-written scheduler meets because `size` stays 0.
- ProcessTable.TargetMap.Insert and ProcessTable.TargetMap.Remove: these corrected versions keep `size` equal to the number of entries, so Remove decrements it, which the C code never does. The as-written scheduler uses InsertAsWritten and RemoveAsWritten, which leave `size` at 0.
- ArgParse.ParseArgs: requires a second buffer entry. With `argc == 0` the C code writes the closing NULL to `argv[1]`, past the vector; the model requires that entry instead of modelling the overrun (EmptyArgvOverrun).
- A few C functions are split into several methods so that each loop has its own contract: Unlink, FindReadyBelowHead, StartTarget, LaunchOne, LaunchStep, LaunchReady, ReapChild, Retire, ReapStep, SetUp, RunLoop, RunAndReport, SmallLetter, ScanOne, ParseLongArg, LongArgValue, CopyRemaining, Close. Each models one part of a single C function, and the C function's own row states the whole.
- A lone `-` is passed to `cargparse_parse_small_arg`, whose loop runs zero times, so it is accepted and consumed with no effect. The model keeps this.
- An empty long name (`--=x`) is a prefix of "help" under `strncmp(…, "help", 0)`, so it asks for help. The model keeps this (LongHelp).
- When `cargparse_parse_str_vec_arg` finds no token (`""` or `","`), it stores a one-element vector holding NULL. The model keeps this (VecArg).
- Example programs are left out: they are only `main` wiring.

## Findings

| source | as written | input that shows it | evidently intended | confidence | as-written member | corrected member |
|---|---|---|---|---|---|---|
| cbuild.h:650-654 | when the first ready item is not the head, it is unlinked but the target of the item before it is returned | the two-chain arena once `b1.o` has been started and is still running: on the worklist `b.o, a1.o, a.o, app`, `a1.o` is unlinked and `b.o`, whose dependency is not built, is returned | return the target of the item unlinked | not executed | Worklist.PredecessorReturned | Worklist.TargetStack.FindBuildable |
| cbuild.h:662-672 | every path to a dependency pushes it again, so a shared dependency is on the worklist twice | diamond: `app` on `a.o` and `d.o`, `a.o` on `d.o`; the stack is `d.o, a.o, d.o, app` | push each target once | not executed | Worklist.DiamondStackHasDuplicate | Worklist.OnceOrderDistinct |
| cbuild.h:590-598 | `map->size` is never incremented, so the "Map is full" guard only tests `capacity != 0` and the probe loop on a full table never ends | a table of capacity 1 after one insertion: the guard reads `0 != 1` and no slot is free | count entries so the guard refuses a full table | not executed | ProcessTable.FullTablePassesGuard | ProcessTable.TargetMap.Insert |
| cbuild.h:674-713 | the loop runs the set-up that pushes duplicates, the search that hands out the item before the ready one (line 652) and the table that never counts; an item the search unlinks but does not hand out is never built, and the call can still return 0 | `app` of the two-chain arena, `nb_process == 2`, only `a1.c` and `b1.c` on disk, every fork succeeding and every child exiting with 0: `b1.o` is started, the next search unlinks `a1.o` but returns `b.o`; `a1.o`, `a.o` and `app` are never built and the result is 0 | with result 0 and no failed fork, every target reachable from the root is built | not executed | Scheduler.LostTargets | Scheduler.MultiprocessBuildTargetCorrected |
| examples/with_cargparse/cargparse.h:428-436 | only `*endptr == '\0'` is checked, so an empty value is accepted as 0 | `--count=` for an int argument | reject a value from which `strtol` converts nothing | not executed | ValueParsers.EmptyIntAccepted | ValueParsers.IntArgFixesOnlyEmpty |
| examples/with_cargparse/cargparse.h:513-539 | `final_argc` starts at 1 even when `argc == 0`, so the closing NULL is stored at `argv[1]`, past the vector, and `argc` becomes 1 | `argc == 0`, `argv == {NULL}` | keep the program name only when it is there | not executed | ArgParse.EmptyArgvOverrun | ArgParse.ParsedFits |
