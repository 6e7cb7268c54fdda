# Verified models of the algorithmic cores

The repository is a copy of the ns-3 network simulator with UAV scenarios and a replay viewer. Most
of it configures simulations; this project models the parts that compute something one can be wrong
about, and proves what they are for.

| file | what it models |
|---|---|
| `Rotation.dfy` | the rotation test on cyclic lists |
| `Dependencies.dfy`, `Topsort.dfy` | dependency sorting, level by level and as one list |
| `Cycles.dfy` | the enumeration of all simple cycles with a stack of paths |
| `CycleReport.dfy` | the cycles in the details of a cycle error |
| `SortOrder.dfy` | which orders the sort can answer with |
| `ModuleScan.dfy`, `Collisions.dfy` | section numbering on top of the sort, and what name collisions do to it |
| `WorkerPool.dfy` | the worker pool of the test runner as a transition system over all interleavings |
| `TypePaths.dfy` | the traversal that lists every configuration path of the type graph |
| `PatchText.dfy`, `WhitespacePass.dfy`, `PatchObjects.dfy` | unified diffs: parser, printer, and the pass that changes shared line objects in place |
| `ShellSyntax.dfy`, `AndOrLists.dfy`, `Shell.dfy` | the mini shell: token parser, meaning of `&&` and `\|\|`, and the executor with pipes, files and directories |
| `RadUtil.dfy` | permutations, binary strings and the ripple counter |
| `Replay.dfy` | the cached before/after search of the replay viewer |
| `TcpWriter.dfy` | the writer that resumes on every send callback |
| `Timeline.dfy` | the binary searches of the timeline |

Run `dafny verify dfyconfig.toml` (Dafny 4.11).

Code that works step by step is modelled as methods and classes and proved against functions or
predicates on values; what the code promises is then proved of those. A dict is a `map`; where the
code goes through a dict or a set, the order is left arbitrary, so the results hold for every order.
Exceptions are constructors of a result datatype.

## Where the code and its descriptions differ

The model follows the code; each of these is a proved statement.

* `Pipeline.run` evaluates `a || b && c` as `a || (b && c)`. Section 2.9.3 (Lists) of the POSIX.1-2017
  Shell Command Language gives both operators the same precedence and associates them to the left. The two agree for
  all exit codes exactly when only one of the operators is used, cds at the front aside
  (`AndOrLists.AgreesIffOneOperator`; `AndOrLists.MixedExample` is an input where they differ).
* `binary_range(0)` is empty, although there is one binary string of width 0 (`BinaryNumbers.BinaryRange`).
* Two module names that differ only in `-` and `_` share a section, and then a dependency can get a
  larger precedence than its dependent (`Collisions.CollisionLosesOrder`). The answer of the sort is determined
  by the order in which the dict lists the modules without dependencies (`SortOrder.AnswerForRoots`,
  `SortOrder.AnswerIsUnique`); precedences follow dependencies for every such order exactly when sections keep up
  (`ModuleScan.OrderedIffSectionsKeepUp`), a condition on the pairs that can be checked before the sort. A module
  that depends on nothing and that nothing depends on gets no section.
* Printing a patch and parsing it again gives something else exactly when a removed line starts with
  `-- ` or an added line with `++ ` (`PatchText.RoundTrip`). What the parser itself yields never does that, but the
  whitespace pass can turn an added `++` into such a line (`WhitespacePass.PassCanBreakPrinting`;
  `PatchObjects.PassedReadsBack` says exactly when).
* The whitespace pass stops silently at the first chunk that has fewer destination than source lines,
  after changing part of that chunk (`PatchObjects.RemoveTrailingWhitespaceChanges`).
* A comment in `topsort` infers the cycle from everything left over having a child. An item can be left over
  without any (`CycleReport.LeftoverWithoutChildren`); the cycle follows because each has a parent that is left
  over (`Topsort.RemainingIsStuck`).
* After the pass has gone through a whole chunk, a source line can be its destination line and one blank:
  a shared line may gain its blank after it has been compared (`WhitespacePass.PairApartIffSpoilt`;
  `WhitespacePass.PassCanPartPair` is such a chunk).
* `get_ranges_bounds` answers (0, 0) when both end points fall into gaps, even if ranges lie between
  them (`Timeline.TimelineDataRange.GetRangesBounds`; `Timeline.BetweenGapsIsMissed` is such an input).
* `get_events_bounds` can leave out events at an end point when several events are at the same time
  (`Timeline.CoveredIff`; `Timeline.TiedEventsAreMissed` is such a list).

## Model

| member | source | states |
|---|---|---|
| Rotation.IsRotated | bindings/python/rad_util.py:761-775 | decides rotation exactly, for lists with repetitions too; raises IndexError exactly for two empty lists |
| Rotation.RotationSymmetric | bindings/python/rad_util.py:735-736 | being a rotation does not depend on the order of the two lists |
| Rotation.RotationTransitive | bindings/python/rad_util.py:735-736 | rotations compose, so "the same cycle up to rotation" is an equivalence |
| Cycles.FindCycles | bindings/python/topsort.py:343-385 | terminates on every finite graph; every result is a simple cycle, no two are rotations of each other, and every simple cycle is a rotation of some result, although visited parents are not started from |
| Cycles.Explore | bindings/python/topsort.py:351-385 | the loop over the stack of paths ends, closes every simple path from the start node, and marks only nodes reachable from it |
| Cycles.ExpandPath | bindings/python/topsort.py:357-385 | one popped path: its closing edges are recorded, its extensions are pushed, and the work left on the stack shrinks by exactly one path |
| Cycles.RecordCycle | bindings/python/topsort.py:367-378 | the suffix from the repeated node is a simple cycle and is on the list afterwards, itself or as a rotation |
| Cycles.IsDuplicate | bindings/python/topsort.py:371-375 | a cycle counts as duplicate exactly when a rotation of it is on the list |
| Cycles.ReachableCycleFound | bindings/python/topsort.py:346-349 | once every simple path from a node is closed, every cycle reachable from that node has been found: why skipping visited parents loses nothing |
| Cycles.ApproachAndRound | bindings/python/topsort.py:367-383 | the way to a cycle followed by one round of it is itself a simple path that closes the cycle |
| Cycles.SuffixIsCycle | bindings/python/topsort.py:369 | the slice from the first occurrence of the child is a simple cycle |
| Dependencies.DepthFromParents | bindings/python/topsort.py:203-224 | the longest incoming path is one longer than that of the deepest parent |
| Dependencies.DepthParents | bindings/python/topsort.py:203-224 | the converse: an item at depth k has only shallower parents, one of them at depth k - 1 |
| Dependencies.DepthsExcludeCycles | bindings/python/topsort.py:108-112 | when every item has a longest incoming path there is no cycle |
| Dependencies.AcyclicHasDepth | bindings/python/topsort.py:108-112 | the converse: without a cycle every item has one, because a long walk repeats an item |
| Dependencies.StuckMeansCyclic | bindings/python/topsort.py:108-111 | items each of which has a parent among them contain a cycle |
| Dependencies.PendingZero | bindings/python/topsort.py:101-102 | the count of an item is 0 exactly when all its parents are accounted for, repeated pairs included |
| Dependencies.PendingStep | bindings/python/topsort.py:100-101 | accounting for a parent lowers the count of each child by the number of pairs between them |
| Dependencies.SuccessorsInOrder | bindings/python/topsort.py:89-90 | a child list holds the second halves of the pairs of its parent, in the order of the pairs |
| Topsort.BuildGraph | bindings/python/topsort.py:77-90 | the dicts hold every mentioned item with its number of incoming pairs and the child lists in pair order |
| Topsort.WithoutParents | bindings/python/topsort.py:93 | exactly the items whose count is 0, each once |
| Topsort.Sort | bindings/python/topsort.py:77-112 | CycleError exactly on cyclic pairs (self-pairs included); otherwise every mentioned item once; always every parent before its child, depths never decreasing, first the items without parents, each once, then items with parents in the order of their last parent and then of their last place among its children, and the answer holds exactly the items with a longest incoming path; no key is ever missing; the error carries the counts and child lists of the rest |
| SortOrder.AnswerForRoots | bindings/python/topsort.py:92-106 | without a cycle, every order of the items without parents is continued by some list with all that the sort promises of its answer |
| SortOrder.RootsComeFirst | bindings/python/topsort.py:92-106 | every such list starts with the items without parents, each once |
| SortOrder.AnswerIsUnique | bindings/python/topsort.py:92-106 | and by only one: with the row before, the answer is determined by the order in which the dict lists the items without parents |
| SortOrder.LastClimbExists | bindings/python/topsort.py:97-103 | following last parents upwards from an item retraces a longest walk to it |
| SortOrder.ClimbDecides | bindings/python/topsort.py:97-103 | of two items at the same depth the one stands first whose climb along last parents starts at an earlier root or, from the same root, takes an earlier child where the climbs part |
| Topsort.RemainingIsStuck | bindings/python/topsort.py:108-111 | every item left over has a parent that is left over, and no depth; if anything is left there is a cycle, so the raise is right |
| Topsort.KnockDown | bindings/python/topsort.py:97-106 | one parent of the growing answer: the invariant of the loop |
| Topsort.KnockDownChildren | bindings/python/topsort.py:99-103 | a child is appended exactly when its last parent is accounted for, one level below that parent |
| Topsort.SortLevelsCore | bindings/python/topsort.py:203-232 | level k is exactly the set of items whose longest incoming path has k steps, no level is missing, and CycleError is raised exactly on cyclic pairs, carrying what has no such path |
| Topsort.SortLevels | bindings/python/topsort.py:157-172 | the same for the pairs themselves |
| Topsort.LevelIsDepth | bindings/python/topsort.py:205 | when everything shallower is accounted for, the items without parents are those at depth k |
| Topsort.ReleaseLevel | bindings/python/topsort.py:217-224 | a whole level is accounted for without touching a missing key |
| Topsort.SortIsLevelsConcatenated | bindings/python/topsort.py:92-112 | the answer of topsort is the levels one after the other, up to the order within a level |
| CycleReport.LeftoverWithoutChildren | bindings/python/topsort.py:108-111 | cyclic pairs with an item left over that has no children |
| CycleReport.RemainingChildrenHaveAllCycles | bindings/python/topsort.py:104-111 | the child dict of a CycleError has exactly the simple cycles of the pairs |
| CycleReport.CyclicHasSimpleCycle | bindings/python/topsort.py:108-111 | a cyclic input has a simple cycle |
| CycleReport.ErrorIffCyclesFound | bindings/python/topsort.py:108-112 | sorting fails exactly when find_cycles, applied to the reported children, yields something |
| ModuleScan.BuildModuleGraph | bindings/python/ns3modulescan.py:271-279 | the pairs, in the order of the loops, are exactly those of a dependency and its module |
| ModuleScan.AddHeaders | bindings/python/ns3modulescan.py:291-292 | the headers of a module now belong to its section, all others stay |
| ModuleScan.NumberSections | bindings/python/ns3modulescan.py:283-293 | KeyError exactly when a sorted name is not a module; otherwise one section per name in order after the main one, precedences are last positions, and a header belongs to the last module that lists it |
| ModuleScan.ScanModules | bindings/python/ns3modulescan.py:269-293 | CycleError exactly on cyclic dependencies, KeyError exactly when an acyclic scan has an unknown dependency; otherwise one section per mentioned module, dependencies first, numbered in one of the orders the sort may answer with, and precedences follow dependencies when sections keep up (in particular without name collisions) |
| ModuleScan.OwnPositions | bindings/python/ns3modulescan.py:287-293 | every module keeps its own position exactly when no two section names collide |
| ModuleScan.OrderedIffSectionsKeepUp | bindings/python/ns3modulescan.py:269-293 | for acyclic modules: precedences follow dependencies for every answer the sort can give if and only if whatever shares a dependency's section is outdone by something that shares its dependent's, either deeper or with a later climb from the same root for every longest climb |
| ModuleScan.KeepingUpOrders | bindings/python/ns3modulescan.py:283-293 | the sufficient half, for any answer and its last positions |
| ModuleScan.FallingBehindBreaks | bindings/python/ns3modulescan.py:283-293 | the necessary half: where a section does not keep up, an order of the modules without dependencies that makes a precedence go wrong |
| ModuleScan.DeeperSectionsLater | bindings/python/ns3modulescan.py:283-293 | a simpler sufficient condition: whatever shares a dependency's section is less deep than something that shares its dependent's |
| ModuleScan.NoCollisionDeepens | bindings/python/ns3modulescan.py:287 | without name collisions that condition holds |
| ModuleScan.SectionsCollide | bindings/python/ns3modulescan.py:287-289 | two modules share a section exactly when their names have the same length and differ at most in - and _ |
| ModuleScan.GraphMeaning | bindings/python/ns3modulescan.py:271-279 | the pairs are cyclic exactly when modules depend on each other in a circle, and mention exactly the modules that depend on something or are depended on |
| Collisions.CollisionLosesOrder | bindings/python/ns3modulescan.py:269-293 | three modules whose scan succeeds and gives, in every order the sort may pick, a dependency a larger precedence than its dependent |
| Collisions.TiedKeepsUp | bindings/python/ns3modulescan.py:269-293 | on the pairs of four colliding modules sections keep up although the simpler condition fails |
| Collisions.TiedScanIsOrdered | bindings/python/ns3modulescan.py:269-293 | the scan of these modules succeeds, and whatever the sort answers every dependency gets a smaller precedence than its dependent, although the simpler condition fails |
| WorkerPool.StepInv | test.py:978-1046 | every step of every thread and of the interrupt handler keeps the invariant |
| WorkerPool.RunInv | test.py:1423-1484 | the invariant holds after every run, whatever the interleaving |
| WorkerPool.EveryJobInOnePlace | test.py:1445-1484 | every dispatched job is in exactly one place: queued, with one worker, reported or collected |
| WorkerPool.SentinelsComeLast | test.py:1696-1699 | when a worker holds a sentinel, no real job is queued any more |
| WorkerPool.StepDecreases | test.py:978-1046 | every step lowers a measure |
| WorkerPool.RunsAreBounded | test.py:1423-1721 | no run takes more than 6 jobs + 7 processors + 1 steps |
| WorkerPool.Progress | test.py:1716-1721 | with a worker, some thread other than the interrupt handler can go on until everything is done |
| WorkerPool.AllStoppedMeansCollected | test.py:1716-1721 | if all workers have stopped and nothing is waiting, all results have been collected: the collector never waits in vain |
| WorkerPool.FinishedIsDone | test.py:1863-1864 | every run that cannot go on has ended properly: each job collected once, both queues empty, every worker joined after one sentinel |
| WorkerPool.NoWorkersNeverDone | test.py:1423-1426 | without a worker a run with jobs never ends properly |
| WorkerPool.TallyIsComplete | test.py:1712-1752 | passed, failed, valgrind, crashed, skipped and turned-back jobs add up to the number dispatched |
| WorkerPool.ExitStatusMeaning | test.py:1948-1951 | the run returns 0 exactly when no job was turned back and each was skipped or exited 0 |
| WorkerPool.UninterruptedExitStatus | test.py:1948-1951 | without Ctrl-C the exit status depends on the jobs only |
| WorkerPool.UninterruptedTally | test.py:1729-1752 | without Ctrl-C every schedule ends with the same five counts, those of the jobs by skip flag and exit code |
| WorkerPool.NoneStartedAfterCtrlC | test.py:992-995 | no job is started after Ctrl-C: what runs later was running then |
| WorkerPool.WaitingIsTurnedBack | test.py:992-995 | every job still to be dispatched, queued or merely fetched when Ctrl-C is pressed is collected as turned back, and the run returns 1 |
| WorkerPool.RunningIsReported | test.py:1018-1046 | a job that is running at some moment is collected with the code of its command, even if Ctrl-C is pressed meanwhile |
| WorkerPool.JobOutcome | test.py:992-1046 | in the end each job is collected as turned back exactly if it was still to be dispatched, queued or merely fetched at Ctrl-C, and otherwise with its own skip flag and exit code |
| WorkerPool.TallyOfRun | test.py:1712-1752 | after every schedule, interrupted or not, the five counters count exactly the jobs that were not waiting at Ctrl-C, each by its own skip flag and exit code |
| WorkerPool.CtrlCAnytime | test.py:585-589 | Ctrl-C can follow any run in which it has not occurred |
| WorkerPool.FlagMeansCtrlC | test.py:585-589 | the flag is set exactly when Ctrl-C has been pressed |
| TypePaths.StaticInformation.Gather | utils/print-introspected-doxygen.cc:411-417 | adds one record (end type, path) for each edge sequence whose types are all distinct, none missing, none twice, nothing else, and leaves both stacks empty |
| TypePaths.StaticInformation.DoGather | utils/print-introspected-doxygen.cc:420-503 | terminates on cyclic type graphs, restores both stacks, and records exactly the routes that avoid the types on the path, in order |
| TypePaths.StaticInformation.Follow | utils/print-introspected-doxygen.cc:449-453 | one edge followed: what is recorded are the routes that start with it, and the pops undo the pushes |
| TypePaths.StaticInformation.GatherAttribute | utils/print-introspected-doxygen.cc:431-467 | pointers are followed unless they point to Object, containers always, other attributes never |
| TypePaths.StaticInformation.GatherSubtypes | utils/print-introspected-doxygen.cc:469-481 | the registered children of the type are followed |
| TypePaths.StaticInformation.GatherAggregates | utils/print-introspected-doxygen.cc:482-502 | the other sides of the recorded aggregations are followed |
| TypePaths.StaticInformation.GetCurrentPath | utils/print-introspected-doxygen.cc:329-338 | the labels, each after a slash |
| TypePaths.StaticInformation.HasAlreadyBeenProcessed | utils/print-introspected-doxygen.cc:350-361 | membership in the stack of types |
| TypePaths.StaticInformation.Get | utils/print-introspected-doxygen.cc:365-377 | the paths in all records of the type, in the order of the records |
| TypePaths.RoutesAreSimple | utils/print-introspected-doxygen.cc:424-427 | what the recursion visits are exactly the routes with distinct types outside the stack |
| TypePaths.RoutesOnce | utils/print-introspected-doxygen.cc:420-503 | no route is visited twice |
| TypePaths.FollowDocuments | utils/print-introspected-doxygen.cc:449-453 | the records of an edge, appended to those of the edges before it, document the routes so far |
| TypePaths.EdgesOfType | utils/print-introspected-doxygen.cc:429-502 | the ways on from a type are exactly its pointers to other types than Object, its containers with "/[i]" added, its registered children, and the types it is aggregated with on either side, the last two labelled by "$" and their names |
| TypePaths.PathTextFromFront | utils/print-introspected-doxygen.cc:329-338 | each label of a path comes after a slash of its own |
| TypePaths.NextIsRecorded | utils/print-introspected-doxygen.cc:449-453 | where a recorded route can go on to a type that is not on it, that type is recorded with the path prolonged by a slash and the label |
| TypePaths.AggregateIsRecorded | utils/print-introspected-doxygen.cc:482-502 | in particular from either side of an aggregation to the other, with "/$" and its name |
| TypePaths.RecordedIffReachable | utils/print-introspected-doxygen.cc:411-503 | after gathering from a type, a type has a record exactly if any sequence of edges leads to it |
| PatchText.RoundTrip | utils/check-style.py:363-418 | parsing what was printed gives the same patches if and only if no removed line starts with "-- " and no added line with "++ " |
| PatchText.ParsePrintParse | utils/check-style.py:374-418 | whatever the parser accepts survives printing and parsing unchanged |
| PatchText.ParsedIsPrintable | utils/check-style.py:384-416 | the parser never yields an unprintable line |
| PatchText.LineReads | utils/check-style.py:219-232 | how each kind of printed line is read, the two unprintable kinds included |
| PatchText.HeaderReads | utils/check-style.py:307-308 | the four numbers of a printed header are read back |
| PatchText.HeaderCountsLines | utils/check-style.py:289-310 | the counts of a printed header equal the numbers of source and destination lines printed below it |
| PatchText.DecimalRoundTrip | utils/check-style.py:254-255 | a printed number is read back as itself |
| PatchText.ParseFailsEarly | utils/check-style.py:417 | an exception at one line is the outcome of the whole parse |
| PatchText.ParseErrors | utils/check-style.py:374-418 | parsing fails at the first line that matches no pattern, names a destination or starts a chunk before any "--- " line, or is content before any chunk, with the exception for that; without such a line it succeeds |
| PatchText.ParseKeepsLines | utils/check-style.py:394-416 | chunk starts and content lines come out in the order in which they are read: each line belongs to the chunk started last, even across patches |
| PatchText.ParseKeepsFiles | utils/check-style.py:384-398 | file names and chunk starts come out in order: each chunk belongs to the patch started last |
| PatchText.LastNameWins | utils/check-style.py:390-393 | the destination of the latest patch is that of the last "+++ " line since its "--- " line, or empty |
| PatchText.HeaderMatches | utils/check-style.py:377-395 | a line of the form of the pattern, with anything after it, is read as a header with its four numbers |
| PatchText.HeaderSplits | utils/check-style.py:377-395 | and every line read as a header has that form |
| PatchText.ExampleWritten | utils/check-style.py:219-362 | one patch and its text, line by line |
| PatchText.ExampleRead | utils/check-style.py:363-418 | that text is parsed to that patch |
| PatchText.ParseCounts | utils/check-style.py:399-416 | the parsed patches hold as many lines as content lines were read |
| PatchObjects.ParsePatchset | utils/check-style.py:374-418 | the objects built step by step show exactly the parsed values, with the same exceptions, and no two places share an object |
| PatchObjects.ParseLine | utils/check-style.py:384-417 | one line of input; a chunk stays current when a new patch starts |
| PatchObjects.PatchChunk.Src | utils/check-style.py:269-278 | the source view: the line objects themselves at the source positions |
| PatchObjects.PatchChunk.Dst | utils/check-style.py:279-288 | the destination view of the same objects |
| PatchObjects.FixChunk | utils/check-style.py:425-435 | the loop over one chunk changes the shared objects exactly as the pass on values does, and fails exactly when destination lines run out |
| PatchObjects.PassedMeans | utils/check-style.py:422-436 | after the pass a chunk is as parsed exactly if a chunk before it has fewer destination than source lines; names and positions stay |
| PatchObjects.PassedReadsBack | utils/check-style.py:363-436 | for any parsed input, the patches after the pass are read back from print unchanged if and only if no chunk that is reached has an added "++" compared with a line that reads "++ " at that moment |
| PatchObjects.RemoveTrailingWhitespaceChanges | utils/check-style.py:420-436 | the parser's exception, or objects that show the patches after the pass: exactly the chunks up to and including the first one that runs out have been processed, all others are as parsed |
| WhitespacePass.ApartMeans | utils/check-style.py:421-432 | a line is one blank apart from another if it is the other and one space or one tab |
| WhitespacePass.SrcInOrder | utils/check-style.py:269-278 | the source lines are the removed and the shared ones, in order |
| WhitespacePass.DstInOrder | utils/check-style.py:279-288 | the destination lines are the added and the shared ones, in order |
| WhitespacePass.OnlyBlanksAppended | utils/check-style.py:428-433 | order and kinds stay, a line gains at most one blank or tab, only compared destination lines change, removed lines never |
| WhitespacePass.HeaderKept | utils/check-style.py:301-308 | the printed header stays as it was |
| WhitespacePass.SourceKeptIffSelfPaired | utils/check-style.py:425-433 | no text can change the source view if and only if every shared line is compared with itself |
| WhitespacePass.AlignedIsSelfPaired | utils/check-style.py:425-430 | if the k-th source and destination lines are shared together or not at all, every shared line is compared with itself |
| WhitespacePass.PairApartIffSpoilt | utils/check-style.py:428-433 | after the pass a compared pair differs by exactly one trailing blank if and only if its source line is shared, is compared as a destination line later, and what it gains there leaves it one blank away from its partner |
| WhitespacePass.PassCanPartPair | utils/check-style.py:425-433 | a completely processed chunk that ends with a pair one blank apart |
| WhitespacePass.NoPairApart | utils/check-style.py:428-433 | if every shared line is compared with itself, then in a fully processed chunk no pair still differs by one trailing blank |
| WhitespacePass.PassKeepsPrintable | utils/check-style.py:428-433 | a printable chunk stays printable if and only if no added "++" is compared with a line that reads "++ " at that moment |
| WhitespacePass.FixedInClosedForm | utils/check-style.py:428-433 | every compared destination line becomes the line it is compared with if that is the same text and a space or a tab, and stays otherwise, in terms of the parsed lines only: shared lines may have changed before they are compared as source lines |
| WhitespacePass.PassCanBreakPrinting | utils/check-style.py:420-436 | a chunk that the parser yields and that is not read back after the pass |
| ShellSyntax.ParsedIsWellFormed | waf-tools/shellcmd.py:136-201 | every successful parse is item (op item)*, a command pipes exactly when a Pipe follows, a cd that is not last is followed by And |
| ShellSyntax.StepInv | waf-tools/shellcmd.py:137-199 | each token keeps the parser's invariant |
| ShellSyntax.ParseTokens | waf-tools/shellcmd.py:136-201 | however a well-formed list is written down, each command as assignments, its name and then arguments and redirections in any order, parsing the tokens gives the list back: assignments reach the command they precede and no other, the last one to a name wins |
| ShellSyntax.ReadPieces | waf-tools/shellcmd.py:154-199 | reading a command name, arguments and redirections in any order fails exactly if a stream is redirected twice, and otherwise gathers all of them |
| ShellSyntax.CommandHasWriting | waf-tools/shellcmd.py:136-199 | every command whose arguments cannot be taken for operators can be written down |
| ShellSyntax.ParseIsOnto | waf-tools/shellcmd.py:136-201 | so every well-formed list of such commands is the parse of some tokens |
| ShellSyntax.FileAndPipeRejected | waf-tools/shellcmd.py:164-165 | a command whose output goes to a file cannot be piped, whatever precedes and follows |
| ShellSyntax.SecondDirRejected | waf-tools/shellcmd.py:185-187 | a cd with a second directory is rejected |
| ShellSyntax.AssignmentToCdRejected | waf-tools/shellcmd.py:144-147 | a cd after assignments is rejected |
| AndOrLists.EvaluateIsRightNested | waf-tools/shellcmd.py:214-346 | running a list is right-nested short-circuit evaluation, each pipeline's status being its last command's |
| AndOrLists.ParsedRuns | waf-tools/shellcmd.py:121-346 | parsing and running together never fail an assertion or an index, unless the list ends in cd or a cd lacks its directory |
| AndOrLists.NeverRaisesIffRunnable | waf-tools/shellcmd.py:220-234 | a parsed list raises for no exit codes if and only if it does not end in cd and every cd has a directory |
| AndOrLists.FinalCdRaises | waf-tools/shellcmd.py:225-227 | a list that ends in cd raises IndexError unless a command decides before |
| AndOrLists.OneOperatorAgrees | waf-tools/shellcmd.py:312-342 | with one operator right-nested and left-to-right evaluation agree |
| AndOrLists.MixedDisagree | waf-tools/shellcmd.py:312-342 | with both operators some exit codes tell them apart |
| AndOrLists.MixedExample | waf-tools/shellcmd.py:214-346 | one list with both operators: with the first command ending 0 and the last one 1, run returns 0 and left-to-right evaluation gives 1 |
| AndOrLists.AgreesIffOneOperator | waf-tools/shellcmd.py:214-346 | run agrees with POSIX AND-OR lists for all exit codes if and only if only one operator is used, leading cds aside |
| Shell.Pipeline.Parse | waf-tools/shellcmd.py:121-201 | the loop over the fields computes the same list as the parser on values, or fails an assertion on the same input |
| Shell.Pipeline.ParseToken | waf-tools/shellcmd.py:137-199 | one turn of that loop |
| Shell.Pipeline.ExecPipedCommands | waf-tools/shellcmd.py:203-212 | waits for each process once, in order, and returns the last one's code |
| Shell.Pipeline.OpenOut | waf-tools/shellcmd.py:252-274 | the stream is the one asked for; a file to be closed is opened under its own name, the null device is not |
| Shell.Pipeline.OpenStdin | waf-tools/shellcmd.py:242-250 | in a pipe the output of the process before, else the named file or nothing |
| Shell.Pipeline.Start | waf-tools/shellcmd.py:242-291 | the process started runs the command at this position with its streams, directory and environment |
| Shell.Pipeline.RunCommand | waf-tools/shellcmd.py:242-346 | one command; at the end of a pipeline all its processes have been waited for and its files closed |
| Shell.ExecutedIff | waf-tools/shellcmd.py:220-346 | a command is started exactly if every cd before it has a directory and every command before it ends with 0 before And and with something else before Or |
| Shell.ExecutedInOrder | waf-tools/shellcmd.py:220-222 | commands are started in the order of the list, each once |
| Shell.LastStartedDecides | waf-tools/shellcmd.py:291-342 | the code returned is that of the command started last |
| Shell.PipedIntoMeans | waf-tools/shellcmd.py:242-243 | a command reads from a pipe exactly if there is a Pipe before it with only cds in between |
| Shell.DirsInOrder | waf-tools/shellcmd.py:224-228 | the directories a command is started in are those of all cds before it, in order |
| Shell.Pipeline.Run | waf-tools/shellcmd.py:214-346 | the outcome is that of evaluating the list; exactly the evaluated commands are started, each with the streams and the directory asked for and with its own assignments on top of the inherited environment, each piped one reading from a process that really pipes; after a normal return every file opened has been closed once and every process waited for once |
| Permutations.Permutations | bindings/python/rad_util.py:310-326 | exactly n! lists, exactly the rearrangements of the input, pairwise different if the items are; the first is the input, the last its reverse |
| Permutations.InsertInjective | bindings/python/rad_util.py:319-322 | a new item shows where it was inserted, so no list arises twice |
| Permutations.TakeOut | bindings/python/rad_util.py:312-322 | every rearrangement arises by inserting the first item into a rearrangement of the rest |
| BinaryNumbers.Int2BinRoundTrip | bindings/python/rad_util.py:91-130 | for n >= 1 raises exactly when the number needs more than n bits, else yields n digits that bin2int reads back |
| BinaryNumbers.Int2BinNoBits | bindings/python/rad_util.py:98-105 | for n = 0 nothing is checked or cut off |
| BinaryNumbers.HexBitsValue | bindings/python/rad_util.py:91-96 | mapping hex digits to four bits each keeps the value |
| BinaryNumbers.DocumentedExamples | bindings/python/rad_util.py:74-130 | the examples in the descriptions of int2bin and bin2int, and KeyError for a negative number |
| BinaryNumbers.Ripple | bindings/python/rad_util.py:649-659 | the inner loop adds one, with the carry in the last toggle |
| BinaryNumbers.BinaryRange | bindings/python/rad_util.py:639-660 | terminates with 2^n strings, the k-th being int2bin(k, n); for n = 0 with none |
| Replay.Player.Search | Visualizer/vis.py:287-311 | started at a valid cached index, the search finds what a scan from line 0 finds, and leaves the index of the sample before, else of the one after, else the end, which is valid |
| Replay.Player.SearchAll | Visualizer/vis.py:279-314 | all UAVs have their full-scan answer, and the counter is the number of those without a later sample |
| Replay.Player.Frame | Visualizer/vis.py:279-408 | one frame at any time step of at least 0 keeps the cache valid: over every sequence of frames the indices are those of full scans |
| Replay.FullScanUnique | Visualizer/vis.py:287-306 | a full scan has one answer only |
| Replay.DrawnBetween | Visualizer/vis.py:77-83 | the factor lies in [0, 1) and the drawn position between the two samples |
| Replay.DrawnInProportion | Visualizer/vis.py:77-336 | between two samples the drawn position is on their line, as far along as the time is; with one sample it is that one; nothing is drawn without any |
| TcpWriter.Writer.constructor | examples/tcp/tcp-large-transfer.cc:81-86 | the buffer holds whole alphabets |
| TcpWriter.Writer.WriteUntilBufferFull | examples/tcp/tcp-large-transfer.cc:198-219 | whatever partial or failed sends happen, slices stay inside the buffer, the k-th byte ever accepted is 'a' + k mod 26, the count never exceeds the total; it gives up only without room or after a failed send, and closes only, and then always, when complete |
| TcpWriter.SamePhase | examples/tcp/tcp-large-transfer.cc:50-53 | an offset into the buffer is in phase with the stream because the buffer length is a multiple of 26 |
| TcpWriter.ExpectedIsAlphabet | examples/tcp/tcp-large-transfer.cc:81-86 | the bytes spell the alphabet, over and over |
| Timeline.TimelineDataRange.Search | utils/grid.py:105-122 | what is found contains the key; among sorted and disjoint ranges it is the one range that does, or -1 exactly when there is none |
| Timeline.BetweenGapsIsMissed | utils/grid.py:162-163 | one range between two end points that lie in gaps meets the interval and is not covered |
| Timeline.TimelineDataRange.GetRangesBounds | utils/grid.py:153-169 | the bounds are those of the ranges of the two end points, whichever is larger; for an interval, covers every range that meets the interval if and only if an end point lies in a range or there is nothing to cover |
| Timeline.TimelineEvent.Search | utils/grid.py:201-218 | an event at the key if there is one, else the place where it would be |
| Timeline.PlaceMeans | utils/grid.py:201-218 | with at most one event at the key, the place is the number of events before it |
| Timeline.TimelineEvent.GetEventsBounds | utils/grid.py:236-245 | the lower bound is the place of the start, the upper one is one more than the place of the end |
| Timeline.CoveredIff | utils/grid.py:236-245 | every event of the interval is within the bounds if no two events are at the start and no two at the end; in general exactly if none at the start stands before the lower bound and none at the end from the upper bound on |
| Timeline.NothingElse | utils/grid.py:236-245 | besides the interval the bounds hold at most the first event after it, and only if there is none at the end; the upper one is one past the list exactly when all events are before the end |
| Timeline.TiedEventsAreMissed | utils/grid.py:201-245 | three events at one time of which the bounds leave out two |

## Left out

- Topsort.SortLevelsCore: takes counts and child lists that come from some list of pairs; other dicts handed to `topsort_levels_core` are not modelled. The levels are collected in a list, and the `StopIteration` at the end counts as the normal end of the generator.
- Cycles.FindCycles: the generator's cycles are collected in a list; a consumer that changes a yielded list while the enumeration goes on is not modelled.
- ModuleScan.ScanModules: files and sections as objects, and everything after the precedences; names and dependencies are taken as already sorted lists (the results hold for any listing).
- WorkerPool.Progress: commands always end with a code; a worker that dies of an exception, the XML and HTML reports, name lists, elapsed times and the command lines are not modelled. A second Ctrl-C changes nothing and is not an event. Options and the choice of the number of processors are parameters.
- TypePaths.StaticInformation.Gather: attributes, names, registered types and the child relation are parameters; recording aggregations by name, the list of unknown names, and printing are left out. Two routes may have the same labels, so a record can occur twice. `Uniquefy`, called at the end, is omitted because it works on a copy; no claim is made that the output is sorted or free of duplicates.
- PatchText.RoundTrip: a line is a string without its newline, so texts with embedded newlines do not occur. Numbers are unbounded, as in Python.
- PatchObjects.ParsePatchset: the kinds of exceptions are told apart, their Python classes are not (using no patch is an AttributeError there, using no chunk an unbound local). `Patch.apply` does nothing.
- ShellSyntax.ParsedIsWellFormed: splitting a command line into tokens, and the pattern for NAME=VALUE, are parameters.
- ShellSyntax.ParseTokens: tokens that need quoting; how an assignment is written is a parameter that the pattern must read back.
- Shell.Pipeline.Parse: command objects are values; they are reachable only through current_command until they are committed.
- Shell.Pipeline.Run: exit codes come from an oracle; opening a file and starting a process always succeed; the directory is the list of the cds (the path join is not modelled); no files are tracked for runs that raise; verbose mode (which reads a variable before it is set) and the display string are left out. `stderr` as a pipe cannot come out of the parser.
- BinaryNumbers.Int2BinRoundTrip: numbers from 0 on. For a negative number the lookup of the letter x raises KeyError (part of the function, not of the lemma); a negative width is not modelled.
- Replay.Player.Frame: times and positions are reals; drawing, colours, data collection, the choice of a single UAV to follow and the early end of the main loop when all UAVs are done are left out.
- TcpWriter.Writer.WriteUntilBufferFull: a send fails or takes at least one byte of what it is given, and free space is whatever the socket says; 32-bit wrap-around cannot occur below two million bytes. Further callbacks after completion close the socket again, as in the code.
- Timeline.TimelineDataRange.GetRangesBounds: for ranges that overlap only the limits of the bounds are stated; sorting, `get_ranges`, `get_bounds` and `get_events` are left out; positions and times are integers.
- Simulation scenarios, helpers, plots, statistics, build configuration and option parsing: configuration and input/output only.
