# Verified models of the ns-3 tooling and the TCP-AAD experiment scripts

A Dafny model of the parts of this repository that are algorithms in their own right: the tools around the ns-3 build
and a few self-contained routines of the examples and of `pylib`.  Loops and objects of the source are methods, loops
and classes here, each proved against a specification; what the specification means is then proved about it.
`dafny verify dfyconfig.toml` checks everything.

| files | what they model |
|---|---|
| `TypeGraph.dfy`, `StaticInformation.dfy`, `RegistryPaths.dfy`, `Repetitions.dfy`, `TypicalAggregations.dfy` | the depth-first enumeration of configuration paths over the type registry, with its two stacks; the reference notion is a simple path of a multigraph; when an entry is repeated, and that the program's own relations do it |
| `TestRunner.dfy`, `Interrupts.dfy`, `Tally.dfy`, `Rerun.dfy` | the parallel test runner as a state machine (main thread, W workers, two queues, sentinels, interrupt flag), where each result comes from, the tally of its results and the chain of `--rerun-failed` runs |
| `DependencySort.dfy` | the round-based load order of the ns-3 libraries, recursing up to the interpreter's recursion limit |
| `Text.dfy`, `StyleFix.dfy`, `StyleDriver.dfy` | Python's line and string operations, the whitespace and tab fixers with their clang-format guards, and the driver that runs one after the other |
| `Welford.dfy`, `Fairness.dfy` | the online mean and second moment, and Jain's fairness index in 64-bit arithmetic |
| `LargeTransfer.dfy` | the resumable writer of a periodic byte stream against an arbitrary socket |
| `Bars.dfy`, `Experiments.dfy` | running group averages, the pivot table, the Cartesian product of a suite configuration, and when every lookup of the plot is defined |
| `Timeline.dfy` | the binary searches and slice queries of the timeline viewer |
| `Sequences.dfy`, `Sorting.dfy`, `Wrappers.dfy` | facts about sequences, Python's sorting for any total order, `Option` |

Three places where the code and its own words part, kept as the code has them:

- The comment above `Uniquefy` says that it works in place, but it takes its container by value, so nothing is ever
  removed from `m_output` (utils/print-introspected-doxygen.cc:408-445).  `Repetitions.DistinctIffNoFork` says exactly when
  the output of one root has no entry twice, for graphs whose labels are unambiguous: no simple path ends at a type
  with two equal edges to a type not on the path.  Two equal edges repeat an entry in every graph
  (`Repetitions.ParallelEdgesRepeat`), and ambiguous labels can do it without them (`Repetitions.AmbiguousLabelsRepeat`).  The
  program records the relation of `ns3::Node` and `ns3::Icmpv4L4Protocol` twice, at lines 565 and 567, which is such a
  pair of edges (`TypicalAggregations.OutputRepeats`).
- `get_ranges` reads as an intersection query.  It is one exactly under the condition of `Timeline.ExactIff`, and
  `Timeline.QueriesThatAreNoIntersections` gives a missed range and a superfluous one (utils/grid.py:130-163).
- The list of failed jobs holds some jobs twice.  For the results of a run it has no job twice exactly if no suite came
  back with a code other than 0 while not both having run to completion (code 1 or 2) and reporting PASS or SKIP in its
  own file: `Tally.FailedJobsDistinctIff`, with `Tally.FailedSuiteListedTwice` as the input (test.py:1783, 1893-1909).

Inputs that the model takes as arbitrary: what the type registry answers (it does not change while paths are gathered
and knows the types it hands out); the schedule, the return codes and the moment of an interrupt; what a suite's own
result file says; the socket's free space, its refusals and how much it takes of each write; the throughput files.
The answers of the two
style checkers that are not modelled are arbitrary too.  Doubles are reals, and the square root is any function that is
one on them.

## Model

| member | source | states |
|---|---|---|
| `TypeGraph.ConsistentIsClosed` | utils/print-introspected-doxygen.cc:456-530 | if the registry and the recorded aggregations name registered types only, every edge the search can follow leads to a registered type |
| `TypeGraph.SimpleStep` | utils/print-introspected-doxygen.cc:450-455 | refusing the types on the stack is what makes a path simple: a path is simple from a type exactly if its tail is simple from the next type with this one added to the stack |
| `TypeGraph.WalksExact` | utils/print-introspected-doxygen.cc:447-531 | sound and complete: for every finite type graph and stack, the search records a path exactly if it is a simple path that avoids the stack |
| `TypeGraph.FanExact` | utils/print-introspected-doxygen.cc:456-530 | the same after any number of attributes, children and aggregations of one type (which of these are edges is `RegistryPaths.SlotExact`) |
| `TypeGraph.WalksOrdered` | utils/print-introspected-doxygen.cc:447-531 | every simple path is recorded once, in depth-first preorder |
| `TypeGraph.WalkEntriesAreThoseOfWalks` | utils/print-introspected-doxygen.cc:360-377 | what is appended is one entry for each recorded path, in their order: the end type and the labels along the path, each after a slash |
| `TypeGraph.RootWalksExact` | utils/print-introspected-doxygen.cc:586-590 | over all roots: exactly the simple paths of each root |
| `TypeGraph.RootWalksOrdered` | utils/print-introspected-doxygen.cc:586-590 | root by root, and for each root in preorder without repetition of a path |
| `TypeGraph.GatheredAreThoseOfRootWalks` | utils/print-introspected-doxygen.cc:586-590 | the output after all roots is one entry for each of these paths, in that order |
| `TypeGraph.SelectMember` | utils/print-introspected-doxygen.cc:393-406 | a string is selected for a type exactly if the output pairs them |
| `RegistryPaths.SelectConcat` | utils/print-introspected-doxygen.cc:393-406 | the strings come in the order of the output, each as often as it is there |
| `TypeGraph.GatheredSlotPathsExact` | utils/print-introspected-doxygen.cc:393-406 | after all roots, a string is among the paths of a type exactly if it is the text of a simple path from some root to that type |
| `RegistryPaths.SlotExact` | utils/print-introspected-doxygen.cc:456-530 | in the registry's terms: an attribute is an edge exactly if it is a pointer to another type than Object, under its name, or a container, with "/[i]" after its name; a registered type exactly if it is a child, and an aggregation exactly if it names the type, both with "$" before the type's name |
| `RegistryPaths.LinkOfSlot` | utils/print-introspected-doxygen.cc:456-530 | every edge the search follows is one of these |
| `RegistryPaths.SlotOfLink` | utils/print-introspected-doxygen.cc:456-530 | and every one of these is followed |
| `RegistryPaths.TrailOfPath` | utils/print-introspected-doxygen.cc:360-370 | the text of a path is the labels of its edges, each after a slash |
| `RegistryPaths.PathOfTrail` | utils/print-introspected-doxygen.cc:360-370 | every chain of such edges is a path, through the same types and with the same text |
| `RegistryPaths.GatheredPathsExact` | utils/print-introspected-doxygen.cc:393-406 | after all roots, a string is reported for a type exactly if it is the labels of a chain of such edges that leads from a root to the type and meets no type twice |
| `Repetitions.ParallelEdgesRepeat` | utils/print-introspected-doxygen.cc:423-445 | two equal edges to a new type at the end of any simple path put an entry into the output twice, so nothing removes duplicates |
| `Repetitions.SimpleSnoc` | utils/print-introspected-doxygen.cc:450-455 | a simple path stays simple over one more edge exactly if that leads to a type it has not met |
| `Repetitions.Diverge` | utils/print-introspected-doxygen.cc:360-370 | with unambiguous labels, two different simple paths of the same text part at two equal edges of one type |
| `Repetitions.DistinctIffNoFork` | utils/print-introspected-doxygen.cc:423-445 | with unambiguous labels, the output of a root has no entry twice exactly if no simple path ends at a type with two equal edges to a type not on it |
| `Repetitions.AmbiguousLabelsRepeat` | utils/print-introspected-doxygen.cc:476-489 | a container and a pointer of one name can repeat an entry without equal edges, so the labels matter |
| `Repetitions.RootRepeats` | utils/print-introspected-doxygen.cc:586-590 | what one root repeats is repeated in the output of all roots |
| `Repetitions.AggregateTwice` | utils/print-introspected-doxygen.cc:510-530 | a relation recorded twice gives both of its types two equal edges |
| `TypicalAggregations.GetTypicalAggregations` | utils/print-introspected-doxygen.cc:537-594 | the relations with known names are recorded in order and the unknown names noted; the output is the concatenation over the roots, and for each type exactly the labels of the chains of edges that lead to it |
| `TypicalAggregations.PairTwice` | utils/print-introspected-doxygen.cc:559-579 | a known name listed at two places is recorded at two places |
| `TypicalAggregations.OutputRepeats` | utils/print-introspected-doxygen.cc:565-567 | if some root reaches the node type by a simple path that does not meet `ns3::Icmpv4L4Protocol`, the output has an entry twice |
| `StaticInformationModel.StaticInformation.constructor` | utils/print-introspected-doxygen.cc:542-542 | starts with empty stacks, output and relations |
| `StaticInformationModel.StaticInformation.RecordAggregationInfo` | utils/print-introspected-doxygen.cc:328-348 | records the pair if both names are known, and otherwise only the first unknown name |
| `StaticInformationModel.StaticInformation.GetCurrentPath` | utils/print-introspected-doxygen.cc:360-370 | the labels on the stack, each after a slash |
| `StaticInformationModel.StaticInformation.RecordOutput` | utils/print-introspected-doxygen.cc:372-377 | appends the type with the text of the stack, and changes nothing else |
| `StaticInformationModel.StaticInformation.HasAlreadyBeenProcessed` | utils/print-introspected-doxygen.cc:379-391 | true exactly for the types on the stack |
| `StaticInformationModel.StaticInformation.Get` | utils/print-introspected-doxygen.cc:393-406 | the strings paired with the type, in output order |
| `StaticInformationModel.StaticInformation.DoGather` | utils/print-introspected-doxygen.cc:447-531 | ends on every cyclic graph, restores both stacks, keeps them duplicate-free and equally long, and only extends the output, by the entries of the enumeration |
| `StaticInformationModel.StaticInformation.GatherBelow` | utils/print-introspected-doxygen.cc:455-530 | for a type not on the stack: its own entry, then those of all its slots |
| `StaticInformationModel.StaticInformation.GatherAttributes` | utils/print-introspected-doxygen.cc:456-496 | the first loop covers the attribute slots and restores the stacks |
| `StaticInformationModel.StaticInformation.GatherChildren` | utils/print-introspected-doxygen.cc:497-509 | the second loop covers the slots of the registered types |
| `StaticInformationModel.StaticInformation.GatherAggregates` | utils/print-introspected-doxygen.cc:510-530 | the third loop covers the slots of the aggregations |
| `StaticInformationModel.StaticInformation.Descend` | utils/print-introspected-doxygen.cc:476-480 | push, recurse, pop: extends the output by what lies behind one slot, with the stacks as before |
| `StaticInformationModel.StaticInformation.Gather` | utils/print-introspected-doxygen.cc:439-445 | from empty stacks: appends the enumeration from the type, and leaves what `Uniquefy` was to remove |
| `StaticInformationModel.StaticInformation.GatherRoots` | utils/print-introspected-doxygen.cc:586-590 | the output is the concatenation over the roots, and the stacks are empty again |
| `TestRunner.PlacesAfter` | test.py:987-1055 | a step changes in how many places a job is only by dispatching it |
| `TestRunner.StepConserves` | test.py:987-1055 | no step of main, a worker or the interrupt loses, copies or invents a job |
| `TestRunner.StepInputShape` | test.py:1744-1747 | the input queue stays first in, first out: undispatched work in order, then the sentinels not yet taken; a worker has left only when no job waits |
| `TestRunner.RunsKeepInv` | test.py:1466-1768 | the invariant holds after every interleaving, with an interrupt at any moment or none |
| `TestRunner.EachJobInOnePlace` | test.py:987-1055 | in every reachable state a dispatched job is in exactly one of: input queue, one worker, output queue, received |
| `TestRunner.BusyWorkerCanStep` | test.py:1001-1055 | a worker that holds a job is never blocked |
| `TestRunner.NotStuck` | test.py:1767-1918 | with at least one worker, no reachable state before the last join is stuck, without the help of an interrupt |
| `TestRunner.StepGetsCloser` | test.py:987-1055 | every step lowers the number of steps that can still come |
| `TestRunner.RunsAreBounded` | test.py:1466-1918 | no run has more than 6 steps a job, 3 a worker and 1 for the interrupt |
| `TestRunner.FinishedMeansAllReceived` | test.py:1917-1918 | when all joins have returned, both queues are empty, every worker has taken its sentinel and main has received every job exactly once |
| `TestRunner.MaximalRunsFinish` | test.py:1767-1918 | every run that cannot be continued has passed all joins and received every job exactly once |
| `TestRunner.InterruptStopsWork` | test.py:1001-1004 | from the moment of an interrupt on, wherever it comes in a run, no further job is executed, and every job no worker had looked at comes back as a break |
| `Interrupts.OnePlace` | test.py:987-1055 | two places that hold a job are the same place |
| `Interrupts.ResultsAreDecided` | test.py:1001-1055 | after any run a result is there exactly if a step of the run decided it: the worker holding the job saw the flag, or, without the flag, that the job was to be skipped, or the job returned with that code |
| `Interrupts.ResultsUnchanged` | test.py:1003-1055 | what has a result at any moment comes back with that result |
| `Interrupts.RunningJobKeepsItsCode` | test.py:1027-1055 | a job that is running at any moment, with the flag set or not, comes back with the code of its own return |
| `Interrupts.BreaksExactly` | test.py:1001-1006 | a job comes back as a break exactly if no worker had decided it when the flag was set |
| `TestRunner.FaithfulRunsUndisturbed` | test.py:1001-1055 | without an interrupt, every result is a skip exactly for the jobs to be skipped, and otherwise the job's own return code |
| `TestRunner.ExpectedCount` | test.py:1001-1055 | how often a result occurs among results as expected |
| `TestRunner.ResultsIndependentOfSchedule` | test.py:987-1055 | two finished, uninterrupted runs receive the same multiset of results |
| `Tally.CollectLoop` | test.py:1759-1803 | the counters and the lists in the order of arrival, each as a function of the received results |
| `Tally.SortedNames` | test.py:1937-1948 | the list of a kind is in order and holds exactly the names of its results, each as often, skipped ones with their reason |
| `Tally.KindsByCode` | test.py:1777-1803 | the kinds are the return codes 0, 1, 2 and any other, skipped, and none for a break |
| `Tally.CollectResults` | test.py:1759-1803 | on return codes alone: how many results returned 0, 1, 2, anything else, or were skipped; the sorted names of each kind; and with one result per job exit code 0 exactly if every job returned 0 or was skipped |
| `Tally.VerdictsPartition` | test.py:1769-1803 | every received result is tallied in exactly one of passed, failed, valgrind, crashed, skipped, interrupted |
| `Tally.PassedOrSkipped` | test.py:2011-2014 | passed and skipped add up to all results exactly if no result is of another kind |
| `Tally.ExitZeroIff` | test.py:2011-2014 | with one result per job, the exit code is 0 exactly if every report is a skip or the return code 0 |
| `Tally.NamesOfPermutation` | test.py:1777-1803 | the names under a verdict are the same multiset for every completion order |
| `Sorting.SortSorts` | test.py:1937-1948 | for any total order, the sorted list is in order and has the same elements, each as often |
| `Sorting.SortedUnique` | test.py:1937-1948 | a list in order is determined by the multiset of its elements |
| `Sorting.SortOfPermutation` | test.py:1937-1948 | sorting gives the same list for every completion order |
| `Sorting.StringOrder` | test.py:1937-1948 | comparing strings by their first difference is a total order |
| `Tally.SummaryIndependentOfSchedule` | test.py:1930-2014 | two finished, uninterrupted runs of the parallel runner, whatever their schedules, print the same counters and sorted lists and have the same exit code |
| `Tally.FailedJobsCount` | test.py:1783-1904 | a job is on the list of failed jobs as often as its results put it there |
| `Tally.ListedIff` | test.py:1783-1909 | with one result per job, a job is on the list exactly if it returned another code than 0, or is a suite that ran and did not both run to completion and report PASS or SKIP in its own file |
| `Tally.FailedJobsDistinctIff` | test.py:1783-1909 | with one result per job, no job is on the list twice exactly if no suite came back with a code other than 0 and did not both run to completion and report PASS or SKIP in its own file |
| `Tally.FinishedRunListsTwiceIff` | test.py:1767-1909 | the same for every finished run of the parallel runner, interrupted or not |
| `Tally.FailedSuiteListedTwice` | test.py:1783-1909 | the input: a suite that fails and says so in its own file, or crashes whatever the file says |
| `Rerun.WriteResults` | test.py:1811-1911 | an entry is in the results file exactly if some received result writes it; interrupted jobs write nothing |
| `Rerun.LoadNames` | test.py:1075-1083 | a name is loaded exactly if the file lists it as PASS or SKIP under that element |
| `Rerun.LoadPreviouslySuccessfulTests` | test.py:1060-1084 | the same for suites and for examples |
| `Rerun.DispatchSkips` | test.py:1517-1519 | writing a run's file and reading it back: a job is dispatched to be skipped exactly if it is skipped anyway or that run recorded its name and kind as PASS or SKIP |
| `Rerun.SkipPersists` | test.py:1885-1891 | a suite or example skipped in one run is skipped in the next |
| `Rerun.OnceGoodAlwaysSkipped` | test.py:1060-1084 | once recorded PASS or SKIP, a suite or C++ example is skipped in every later run of the chain |
| `Rerun.ExecutedExactly` | test.py:1327-1329 | it is executed in a run exactly if it is not skipped anyway and no earlier run recorded it as PASS or SKIP |
| `Rerun.ExecutedSetShrinks` | test.py:1587-1589 | the executed set only shrinks along the chain |
| `Rerun.FinishedRunIsComplete` | test.py:987-1055 | the runs of a chain are what the parallel runner delivers: a finished, uninterrupted run brings back every job, skipped exactly if dispatched so |
| `Rerun.RunnerGivesCompleteRun` | test.py:1517-1519 | a faithful, finished run of the parallel runner with the skip flags of run k is a complete run k of the chain |
| `Rerun.GoodIff` | test.py:1826-1904 | PASS or SKIP is written exactly for a skipped job, an example that returned 0, and a suite that returned 0 or 1 and whose own file says so |
| `Rerun.OthersIff` | test.py:1826-1910 | nothing, VALGR, CRASH and FAIL are written exactly for a break, code 2, other codes, and a failed example or suite file |
| `Rerun.SucceededIff` | test.py:1075-1083 | a suite or C++ example is skipped in the next run exactly if such a result came back under its name and sort |
| `DependencySort.AcyclicBounds` | bindings/python/ns__init__.py:394-405 | on a closed acyclic map no dependency chain is as long as there are libraries |
| `DependencySort.CyclesAreDeep` | bindings/python/ns__init__.py:398-401 | a library on a cycle is never loaded |
| `DependencySort.LoadsIffClosedAcyclic` | bindings/python/ns__init__.py:394-416 | some number of rounds loads everything exactly if every dependency is a key and none is circular |
| `DependencySort.ModulesThatCanBeLoaded` | bindings/python/ns__init__.py:394-405 | the loop with its early exit finds the loadable modules in pending order |
| `DependencySort.LoadableMember` | bindings/python/ns__init__.py:398-404 | a module is loadable exactly if it is pending and all its dependencies are loaded |
| `DependencySort.LoadableKeepsOrder` | bindings/python/ns__init__.py:396-405 | the loadable modules keep the order of the keys |
| `DependencySort.RoundAdvances` | bindings/python/ns__init__.py:412-415 | after k rounds exactly the libraries without a chain of length k are loaded, in dependency order, and the two lists still make up the keys |
| `DependencySort.Loader.Move` | bindings/python/ns__init__.py:412-415 | moves modules from pending to current in order, one occurrence each, losing none |
| `DependencySort.Loader.LoadStep` | bindings/python/ns__init__.py:410-415 | step k is filled with exactly the libraries whose longest chain has length k |
| `DependencySort.Loader.DependencyOrder` | bindings/python/ns__init__.py:407-416 | succeeds exactly if the remaining recursion depth reaches past the longest chain; every round before the last loads something |
| `DependencySort.SomeLibraryInStep` | bindings/python/ns__init__.py:394-405 | while a later round completes the load, no round is empty |
| `DependencySort.SortToDependencies` | bindings/python/ns__init__.py:418-421 | returns a permutation of the keys in which each library follows all its dependencies, in steps that are not empty and each in the order of the keys; hits the recursion limit otherwise, and exactly if the limit does not suffice |
| `DependencySort.SortEndsIffClosedAcyclic` | bindings/python/ns__init__.py:407-421 | some recursion limit suffices exactly on closed acyclic maps, and there one more than the number of libraries does |
| `DependencySort.LayersAreDeepEnough` | bindings/python/ns__init__.py:407-416 | every valid layering puts a library at least as late as its chains are long |
| `DependencySort.FewestSteps` | bindings/python/ns__init__.py:407-416 | no valid layering has fewer steps than the sort, and none has a library earlier |
| `DependencySort.StepIsLongestChain` | bindings/python/ns__init__.py:407-416 | on a closed map a library is put into step k exactly if its longest dependency chain has length k |
| `Text.StripParts` | utils/check-style-clang-format.py:636-636 | what `strip` leaves is trimmed, and only whitespace was taken off both ends |
| `Text.StripUnique` | utils/check-style-clang-format.py:636-636 | and it is the only such text |
| `Text.StripOfExpand` | utils/check-style-clang-format.py:654-654 | expanding the tabs around a text without tabs does not change what `strip` leaves |
| `Text.SplitOfConcat` | utils/check-style-clang-format.py:604-605 | round trip: writing lines and reading them again gives the same lines |
| `Text.ReadOfWritten` | utils/check-style-clang-format.py:669-670 | the same through text mode, with its translation of line ends |
| `Text.ConcatOfSplit` | utils/check-style-clang-format.py:630-631 | splitting a text into lines loses nothing |
| `Text.TranslatePair` | utils/check-style-clang-format.py:630-631 | reading takes a carriage return and a line feed as one line end |
| `Text.TranslateReturn` | utils/check-style-clang-format.py:630-631 | and a carriage return alone as one |
| `Text.ExpandCharacter` | utils/check-style-clang-format.py:654-654 | within a line a tab becomes the one to four blanks up to the next multiple of four, and every other character stays |
| `StyleFix.TabLine` | utils/check-style-clang-format.py:635-654 | one line: the guard state after it, whether it is reported, and what becomes of it |
| `StyleFix.TabPass` | utils/check-style-clang-format.py:633-665 | the loop with its early exit: compliant exactly if no looked-at line has a tab, the rewritten lines in fix mode, all error lines in verbose mode |
| `StyleFix.SpaceLine` | utils/check-style-clang-format.py:580-587 | one line of the whitespace pass |
| `StyleFix.SpacePass` | utils/check-style-clang-format.py:580-600 | the same for trailing whitespace |
| `StyleFix.SpaceCleanLine` | utils/check-style-clang-format.py:581-584 | a line is accepted exactly if it ends with a line end that no whitespace precedes |
| `StyleFix.CheckedIff` | utils/check-style-clang-format.py:626-645 | a line is looked at exactly if it is a guard, or no guard stands before it, or the last guard before it is "// clang-format on" |
| `StyleFix.WithoutGuards` | utils/check-style-clang-format.py:625-672 | a file without guards is accepted exactly if it has no tab, and its fix expands every line |
| `StyleFix.TabErrorsIncrease` | utils/check-style-clang-format.py:656-661 | the lines are reported in order, each once |
| `StyleFix.GuardsStay` | utils/check-style-clang-format.py:636-654 | expanding the tabs of a guard line leaves it the same guard |
| `StyleFix.TraceShrinks` | utils/check-style-clang-format.py:638-645 | after the rewrite checking is on only where it was on before, although the rewrite can create guards |
| `StyleFix.CheckedShrinks` | utils/check-style-clang-format.py:638-645 | a second pass looks at no line that the first one skipped |
| `StyleFix.TabFixIsOk` | utils/check-style-clang-format.py:633-654 | the rewritten lines have no line to report |
| `StyleFix.TabFixedFileIsClean` | utils/check-style-clang-format.py:625-672 | for every file: a check after a tab fix reports compliant, and the fix brings back no trailing whitespace |
| `StyleFix.TabFixIdempotent` | utils/check-style-clang-format.py:625-672 | fixing tabs twice is fixing them once |
| `StyleFix.ExpansionCreatesGuard` | utils/check-style-clang-format.py:638-641 | a comment with a tab in it can become a guard, so idempotence is not a fact about single lines |
| `StyleFix.SpaceFixKeepsTrace` | utils/check-style-clang-format.py:580-587 | whitespace fixing never changes the guard trace |
| `StyleFix.SpaceFixedFileIsClean` | utils/check-style-clang-format.py:573-607 | for every file: a check after a whitespace fix reports compliant |
| `StyleFix.ExpandKeepsTrimmed` | utils/check-style-clang-format.py:654-654 | expanding the tabs of a line without trailing whitespace gives a line without it |
| `StyleFix.FixesInOrder` | utils/check-style-clang-format.py:329-349 | the whitespace fix followed by the tab fix gives a file both checks accept, and the whitespace fix does not change which lines the tab pass looks at |
| `StyleFix.SourceFile.CheckTabs` | utils/check-style-clang-format.py:625-672 | reports compliance before the call, and rewrites the file exactly if it fixes and there was something to fix |
| `StyleFix.SourceFile.CheckTrailingWhitespace` | utils/check-style-clang-format.py:573-607 | the same for trailing whitespace |
| `StyleDriver.CheckStyleFile` | utils/check-style-clang-format.py:359-420 | a pass over a list of files (possibly repeated): in check mode successful exactly if all are clean, and no file changes; in fix mode all are clean afterwards, and files of the other pass stay so |
| `StyleDriver.EffectsRepair` | utils/check-style-clang-format.py:573-672 | both passes repair what they check, and the tab pass keeps what the whitespace pass repaired |
| `StyleDriver.WhitespaceThenTabs` | utils/check-style-clang-format.py:329-349 | the last two passes as enabled: after a fix the files of each are clean, although the second rewrites files of the first; a check succeeds exactly if they are, and changes nothing |
| `StyleDriver.CheckStyle` | utils/check-style-clang-format.py:271-356 | all four passes as enabled, in the order of the driver, with arbitrary answers for include prefixes and formatting: a fix reports success and leaves the files of the last two clean, whatever the first two did; a check succeeds exactly if all enabled passes accept their files |
| `StyleDriver.FixThenCheck` | utils/check-style-clang-format.py:271-356 | a check right after a fix succeeds for all lists of files exactly if the two checkers that are not modelled accept theirs |
| `Welford.DeviationsExpanded` | utils/bench-scheduler.cc:358-362 | the sum of squared deviations from any number, multiplied out |
| `Welford.MomentIsExact` | utils/bench-scheduler.cc:358-362 | the loop's invariant says that the second moment is the sum of squared deviations from the current average |
| `Welford.RoundIsExact` | utils/bench-scheduler.cc:351-372 | one round keeps it; the first round, on the element the average starts with, establishes it |
| `Welford.Accumulate` | utils/bench-scheduler.cc:358-362 | one use of the macro, for one field |
| `Welford.AccumulateAll` | utils/bench-scheduler.cc:364-369 | one round keeps the invariant for all six fields |
| `Welford.AccumulatedIsExact` | utils/bench-scheduler.cc:374-381 | at the end, average and second moment over n are the exact mean and mean squared deviation, in every field |
| `Welford.RootsAreDeviations` | utils/bench-scheduler.cc:374-381 | the roots of these are the standard deviations: not negative, and their squares the mean squared deviations |
| `Welford.Log` | utils/bench-scheduler.cc:332-384 | nothing for fewer than two results, and otherwise the exact mean and the exact standard deviation of every field |
| `Fairness.GroupFairness` | examples/tcp/dctcp-example.cc:191-197 | the loop that wraps at 64 bits in every operation gives the throughput and the index of the wrapped exact sums |
| `Fairness.CauchySchwarz` | examples/tcp/dctcp-example.cc:183-197 | sum * sum <= n * sumSquares, with equality exactly for equal counters |
| `Fairness.SquaresBelow` | examples/tcp/dctcp-example.cc:183-197 | sumSquares <= sum * sum, with equality exactly if at most one counter is not zero |
| `Fairness.NothingWrapsIff` | examples/tcp/dctcp-example.cc:191-197 | no sum, square or product wraps exactly if n * sumSquares stays below 2^64 |
| `Fairness.SmallCountersDoNotWrap` | examples/tcp/dctcp-example.cc:205-211 | with at most 20 flows of less than 2^32/20 bytes nothing wraps |
| `Fairness.FairnessBounds` | examples/tcp/dctcp-example.cc:197-197 | without wrapping the index lies between 1/n and 1; it is 1 exactly for equal counters, 1/n exactly if one flow has everything, and no number exactly if all are zero |
| `Fairness.WrappedFairnessAboveOne` | examples/tcp/dctcp-example.cc:194-197 | counters for which a product wraps and the computed index is above 1 |
| `Fairness.ExactFairness` | examples/tcp/dctcp-example.cc:197-197 | without wrapping the computed index is the quotient of the exact products, the square of the sum over n times the sum of squares |
| `Fairness.AddGroup` | examples/tcp/dctcp-example.cc:230-237 | adding one group of counters to a running sum, modulo 2^64 |
| `Fairness.ThroughputUnwrapped` | examples/tcp/dctcp-example.cc:196-196 | with at least 8 flows only the sum of the bytes can wrap in the average throughput |
| `Fairness.ThroughputBounds` | examples/tcp/dctcp-example.cc:196-196 | without wrapping the printed average is the throughput of all bytes but a remainder of less than one byte a flow, and the exact mean exactly if the bytes divide evenly |
| `Fairness.GbpsExact` | examples/tcp/dctcp-example.cc:238-239 | below 2^61 bytes the printed aggregate is eight bits a byte in units of 10^9 |
| `Fairness.Aggregate` | examples/tcp/dctcp-example.cc:229-239 | two groups after each other, in Gbps, modulo 2^64 bits |
| `Fairness.PrintFairness` | examples/tcp/dctcp-example.cc:184-251 | throughput and index of each of the three groups with its own size, and which groups the two aggregates add up |
| `LargeTransfer.Sender.constructor` | examples/tcp/tcp-large-transfer.cc:105-110 | the buffer holds the letters in turn, from 'a' |
| `LargeTransfer.Sender.WriteOnce` | examples/tcp/tcp-large-transfer.cc:226-237 | one write, as large as the bytes left, the rest of the buffer and the free space allow: it is refused, and nothing changes, or the accepted bytes go on with the stream |
| `LargeTransfer.Sender.WriteUntilBufferFull` | examples/tcp/tcp-large-transfer.cc:221-243 | for any free space, partial writes and refusals: it ends with all sent, a refusal or no space; with space and bytes left on entry it sends something or is refused; reads stay in the buffer, the accepted bytes stay a prefix of the stream and never exceed the total, and it closes exactly when all are sent |
| `LargeTransfer.Resumes` | examples/tcp/tcp-large-transfer.cc:226-231 | reading the buffer at the offset reached continues the stream where it stopped |
| `LargeTransfer.StartFlow` | examples/tcp/tcp-large-transfer.cc:209-219 | the same over any number of callbacks, between which the free space changes at will: every call that finds space and has bytes left sends something or is refused, the refusals are those of the socket, and at the end all is sent, or the last call was refused, or there is no space |
| `LargeTransfer.StreamSentIff` | examples/tcp/tcp-large-transfer.cc:51-54 | the bytes sent are 97 + k % 26 for every k exactly if 26 divides the size of the buffer |
| `LargeTransfer.RunSendsStreamIff` | examples/tcp/tcp-large-transfer.cc:46-54 | the bytes of a run of totalTxBytes bytes are those of the stream exactly if 26 divides the size of the buffer or one buffer holds them all |
| `LargeTransfer.AcceptedIsStreamIff` | examples/tcp/tcp-large-transfer.cc:221-243 | under that condition the accepted bytes are a prefix of the stream at every moment; a completed run has sent the stream only under it |
| `LargeTransfer.AcceptedIsStreamPrefix` | examples/tcp/tcp-large-transfer.cc:51-56 | with the program's 1040 bytes, the k-th accepted byte is 97 + k % 26 |
| `Bars.CountPositive` | pylib/plots.py:151-156 | a key has a count exactly if some suite has it |
| `Bars.TotalsOfPermutation` | pylib/plots.py:151-156 | totals and counts of a key are the same for every order of the suites |
| `Bars.RunningAverages` | pylib/plots.py:147-156 | after the loop every key has its exact count and the exact mean of its values, and there are no other keys |
| `Bars.Pivot` | pylib/plots.py:164-171 | the nested table has an entry for exactly the (case, group) pairs that are keys, with their values |
| `Bars.LookUp` | pylib/plots.py:177-180 | stops with a missing key exactly if some pair has no entry; otherwise one value for each group and case |
| `Bars.Headings` | pylib/plots.py:158-159 | groups and cases list exactly those of the suites, each once and in order |
| `Bars.BarsOf` | pylib/plots.py:147-191 | bars are plotted exactly if there are suites and every group occurs with every case, and then each bar is the exact mean over the suites that share its keys, with groups and cases in order |
| `Bars.PresentIffComplete` | pylib/plots.py:164-180 | every lookup is defined exactly if every group occurs with every case |
| `Bars.BarsIndependentOfOrder` | pylib/plots.py:147-180 | whether bars are plotted, and which value each has, is the same for every order of the suites |
| `Experiments.ProductOrder` | pylib/configuration.py:118-120 | the choices come in the order of an odometer, and their number is the product of the lengths of the lists |
| `Experiments.ProductExact` | pylib/configuration.py:116-121 | a dictionary is among the choices exactly if it holds the case and a listed value for each field used |
| `Experiments.ExperimentsExact` | pylib/configuration.py:110-121 | a suite is among the experiments exactly if each field has a listed value, with `beta` a listed one for AAD and 300 for every other case |
| `Experiments.BetaOfExperiments` | pylib/configuration.py:63-114 | experiments of AAD take `beta` from the list, those of every other case have 300 |
| `Experiments.KeysEqualIff` | pylib/configuration.py:81-82 | two suites have the same key exactly if they agree in its columns; dividing `beta` by 100 merges none |
| `Experiments.KeyHolds` | pylib/configuration.py:81-82 | a key holds the values of its columns in order, `beta` divided by 100 |
| `Experiments.KeyOrder` | pylib/plots.py:158-159 | keys compare as tuples do, by their first difference, with cases by their names: a total order |
| `Experiments.RunOnce` | pylib/suite.py:64-74 | the number of nodes times the exact mean of the results there are, 0 without any; leaving out zeros with the missing results does not matter |
| `Experiments.SucceededCounts` | pylib/suite.py:72-72 | the runs are the seeds from 1 on that have a result |
| `Experiments.ThroughputIsMean` | pylib/suite.py:72-74 | times the number of results, the throughput is the number of nodes times their sum; without any it is 0 |
| `Experiments.CollectConfig` | pylib/suite.py:84-88 | one entry for each experiment of the configuration, each with its throughput |
| `Experiments.CollectCase` | pylib/suite.py:83-92 | merging into the entry of the configuration's name loses and overwrites nothing |
| `Experiments.CollectThroughput` | pylib/suite.py:77-94 | the entry of a name holds exactly the experiments of its configurations for all the cases, each with its throughput |
| `Experiments.CollectedIsData` | pylib/suite.py:81-92 | for a name that only one configuration has, these are that configuration's experiments |
| `Experiments.ComparisonBars` | pylib/plots.py:141-193 | one row for each suite, and the outcome of `Bars.BarsOf` on these rows |
| `Experiments.OccursIffCombined` | pylib/plots.py:151-153 | a (case, group) pair has an entry exactly if some collected suite has the group of the one and the case of the other suite |
| `Experiments.CombinedIfTogether` | pylib/configuration.py:110-121 | unless `beta` and `case` are split between the sides, or if the cases share their choice of `beta`, any two suites combine |
| `Experiments.NotCombinedIfSplit` | pylib/configuration.py:113-114 | otherwise there are a suite of AAD and one of another case that do not combine |
| `Experiments.LookupsDefinedIff` | pylib/plots.py:177-180 | for the suites of one configuration, every lookup is defined exactly if `beta` and `case` are not split between the sides or the listed cases cannot differ in `beta` |
| `Experiments.TotalsOfSuites` | pylib/plots.py:151-156 | the totals of the rows are the sums of the throughputs of the suites that have the keys |
| `Experiments.BarsAreMeanThroughputs` | pylib/plots.py:177-180 | exact bars of the rows are the means of the throughputs of the suites |
| `Experiments.CompareCases` | pylib/suite.py:77-94 | collecting one configuration and plotting it: no data exactly if it has no experiments, a missing key exactly if the condition fails, and otherwise each bar is the mean throughput of the collected suites that share its group and case, both in order |
| `Timeline.RangeSearchFinds` | utils/grid.py:99-116 | a range that is found covers the key, and on ranges in order none is missed |
| `Timeline.FindIsTheCover` | utils/grid.py:99-116 | the search gives the one index whose range covers the key, and -1 exactly if there is none |
| `Timeline.TimelineDataRange.Search` | utils/grid.py:99-116 | the loop ends, with the result of the recursive search |
| `Timeline.TimelineDataRange.AddRange` | utils/grid.py:117-123 | appends |
| `Timeline.SliceAt` | utils/grid.py:142-146 | a slice has the elements at its indices, in order |
| `Timeline.TimelineDataRange.GetRangesBounds` | utils/grid.py:147-163 | on ranges in order, the indices of exactly the ranges that meet the interval if both endpoints are covered, of at least those if one is, and of none if none is |
| `Timeline.TimelineDataRange.GetRanges` | utils/grid.py:130-146 | the slice given by `GetRangesBounds`, for every list of ranges; on ranges in order, exactly (or at least) the ranges that meet the interval; always a contiguous part in order |
| `Timeline.NothingMissed` | utils/grid.py:141-146 | with a covered endpoint every range that meets the interval is in the slice |
| `Timeline.ExactIff` | utils/grid.py:130-163 | when the slice is exactly the ranges meeting the interval: always with both endpoints covered; with one, exactly if no range lies beyond the other; with none, exactly if both lie in one gap |
| `Timeline.QueriesThatAreNoIntersections` | utils/grid.py:139-142 | a range inside an interval with uncovered endpoints is missed, and a range before the interval is returned if only the end is covered |
| `Timeline.EventSearchEnds` | utils/grid.py:194-211 | the search ends at an event of that time or where the times pass the key |
| `Timeline.Splits` | utils/grid.py:194-211 | on increasing times it gives the first event not before the key |
| `Timeline.TimelineEvent.Search` | utils/grid.py:194-211 | the loop ends, with the result of the recursive search |
| `Timeline.TimelineEvent.GetEvents` | utils/grid.py:219-228 | the contiguous slice between the two positions, the second included; on increasing times exactly the events in the interval and the first after an end that is no event time |
| `Timeline.TimelineEvent.GetEventsBounds` | utils/grid.py:229-238 | the bounds of that slice, with the same meaning for indices |
| `Timeline.EventsExact` | utils/grid.py:219-228 | an event is in the slice exactly if it lies in the interval, or is the first after its end and the end is no event time |
| `Timeline.NoneAfterIff` | utils/grid.py:219-228 | the slice has nothing after the end exactly if the end is an event time or no event comes after it |

## Left out

- ns-3 itself: sockets, schedulers, routing, Wi-Fi and the type registry are represented by their answers; the TCP-AAD
  sources under `src/` are not part of this model.
- The topology scripts in `examples/` and `scratch/`.
- Deduplicated configuration paths: the code does not produce them.  When entries of two different roots coincide is not
  characterised.
- The rest of print-introspected-doxygen.cc: `Print`, the sorted list of names without type ids, all documentation output.
- In test.py: exceptions in workers, a worker count below one, selecting one example or Python example on the command
  line, building, valgrind and performance options, the XML and HTML texts, wall-clock times.
- `Rerun.DispatchSkips`: Python examples are never skipped by --rerun-failed in the code, so the chain says nothing about
  them; which results file is the latest one, and the errors for a missing or broken one, are not modelled.
- `Rerun.WriteResults`: a suite's own file is taken to hold one element that carries the suite's display name.
- In ns__init__.py: finding and reading the libraries, the comparison of versions, and loading.  Library names are
  identities; a dependency map is what line 392 leaves.
- `DependencySort.SortToDependencies`: the recursion limit is counted in calls of `dependency_order` alone.
- In check-style-clang-format.py: what the include-prefix and clang-format checkers find and write (regular expressions,
  files beside the file, an external process that may be missing), finding the files, encodings other than a sequence of characters, and the texts of the messages; verbose mode is
  represented by the line numbers it reports.
- `StyleDriver.CheckStyle`: the answers of two of its passes are inputs.
- `StyleDriver.CheckStyleFile`: the process pool is modelled as handling the files one after another, in order.
- `Welford.Log`: rounding is left out.
- `Fairness.PrintFairness`: rounding is left out.
- `LargeTransfer.Sender.WriteUntilBufferFull`: a `Send` that returns 0 is excluded; the loop of the source would not make
  progress on it.
- `Bars.RunningAverages`: rounding is left out.
- `Experiments.ComparisonBars`: titles, labels, axes and the saved figure; columns that `get_params` does not have.
- `Experiments.CollectedIsData`: configurations that share a name are merged, and then the result on lookups does not apply.
- In configuration.py and suite.py: coercion of values by the model classes, `dump_params` and the command line, detailed
  statistics, and the concurrent reading of result files, which are taken not to change meanwhile.
- In grid.py: the two calls of `sort` (the comparator style of an older Python), `get_bounds`, and all drawing; lists are
  taken to be sorted as their comparators say.
