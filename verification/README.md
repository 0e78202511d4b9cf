# Verified algorithms of the ns-3 project tree

This Dafny project models nine self-contained algorithms of the repository and proves what
they are for. Verify everything with `dafny verify dfyconfig.toml`.

| file | models | main results |
|---|---|---|
| TypeGraph.dfy | the search for configuration paths in utils/print-introspected-doxygen.cc | the search lists exactly the walks that repeat no type, each once; exactly when the list repeats an entry |
| TestSummary.dfy, TestRunner.dfy | the parallel test runner of test.py | no lost jobs, no deadlock, termination, the exact effect of an interrupt and a schedule-independent report, over all interleavings |
| DependencyOrder.dfy | the load order of the libraries in bindings/python/ns__init__.py | success exactly on closed acyclic maps, steps by longest chain, topological order |
| PythonText.dfy, StyleCheck.dfy | the tab and whitespace fixers of utils/check-style-clang-format.py | idempotent, commuting, clean afterwards, same verdict in check mode, whitespace the only change |
| Timeline.dfy, Legend.dfy | the timeline index and the legend of utils/grid.py | searches equal linear filters, touching ranges and equal times included; drawn items do not overlap and fit |
| Welford.dfy, SchedulerBench.dfy | the benchmark of utils/bench-scheduler.cc | exact mean and second moment; constant event population |
| Fairness.dfy | Jain's index in examples/tcp/dctcp-example.cc | bounds of the index with their equality cases; exactly when 64 bits suffice; the printed index is that of the bytes received |
| LargeTransfer.dfy | the writer of examples/tcp/tcp-large-transfer.cc | the accepted stream is a prefix of the alphabet pattern |
| RttDetector.dfy | the probe of scratch/wormhole_attack_detection.cc | when a steady or a jumping round-trip time is reported |

Objects whose methods update fields are classes with those fields, loops are loops, and each
is proved against a specification function; what the source promises is then proved about
that function. The threads of the test runner are a transition system: a schedule is any
sequence of enabled steps of the main thread, the workers and the interrupt handler, and the
results are about every schedule.

Environment that is modelled as "anything it may do": the type registry is any finite graph;
a job has any return code; the Python stack has any depth; text extents are any non-negative
numbers; random delays are any durations; a socket refuses or accepts any number of bytes
from one on.

Where code and documentation differ, the model follows the code:

- `Uniquefy` says that it modifies its container in place, but takes it by value, so the
  recorded paths keep their repetitions. The shipped list of aggregations causes some: it names
  ns3::Node with ns3::Icmpv4L4Protocol twice (`TypeGraph.RepeatedAggregation`). The list, gathered
  from all root objects, has none exactly if no two simple walks to the same type, from one root
  or from two, are written alike (`TypeGraph.NoRepeatIff`).
- The detection threshold is configured as 2.5 ms, but `MilliSeconds` takes a whole number
  (src/core/model/nstime.h:1347-1351), so 2 ms is used
  (`RttDetector.ConfiguredThresholdTruncates`); samples as close together as configured stay
  unreported exactly for whole numbers (`RttDetector.ConfiguredBandsQuietIff`), and below 1 ms the
  reports of a jump never end (`RttDetector.FlagsEndIff`).
- A negative process limit leaves the test runner without workers (test.py:1416-1421), and a
  run that has jobs then never returns (`TestRunner.NoWorkersNeverReturns`).
- With both ends of an interval in gaps, `get_ranges` returns nothing even if ranges lie
  between (`Timeline.RangesBetweenGapsAreMissed`, `Timeline.SelectedIsFilterIff`).
- The products of the fairness ratio wrap around at 2^64: ten equal counts of 2^32 divide by
  zero (`Fairness.EqualCountsWrap`), and one flow with 1358187914 bytes beside nine idle ones
  prints a ratio above a million (`Fairness.OneCountLeavesRange`). `Fairness.PrintedIsJainIff` says
  exactly when the printed ratio is Jain's index.

## Model

| member | source | states |
|---|---|---|
| TypeGraph.StepsAreEdges | utils/print-introspected-doxygen.cc:456-531 | the slots that the search looks at hold exactly the edges: pointers to other types than Object, containers with their index part, subclasses, and aggregations from either side, with their labels |
| TypeGraph.SlotsAre | utils/print-introspected-doxygen.cc:456-531 | which slot holds which of them: attributes first, then subclasses by registration, then aggregations |
| TypeGraph.GatherEnumeratesSimpleWalks | utils/print-introspected-doxygen.cc:447-532 | on every finite type graph the walks met by a search from a root are exactly those that repeat no type, and no walk is met twice, parallel edges included |
| TypeGraph.WalksInOrder | utils/print-introspected-doxygen.cc:447-532 | the walks are met in the order of their slots, each before those that continue it |
| TypeGraph.EntriesAreReached | utils/print-introspected-doxygen.cc:447-532 | what a search records are exactly the ends and texts of the paths of edges that repeat no type, said without slots or walks |
| TypeGraph.RenderMeans | utils/print-introspected-doxygen.cc:360-370 | the text of a path puts a slash before every label |
| TypeGraph.WalksAreSimple | utils/print-introspected-doxygen.cc:447-532 | the same below any stack of processed types: sound and complete for the walks that repeat no type and stay off the stack |
| TypeGraph.WalksDistinct | utils/print-introspected-doxygen.cc:447-532 | no walk is met twice below any stack |
| TypeGraph.StaticInformation.DoGather | utils/print-introspected-doxygen.cc:447-532 | terminates, restores both stacks, only appends to the output, and appends the entry (end, path) of each of those walks in order |
| TypeGraph.StaticInformation.Descend | utils/print-introspected-doxygen.cc:475-480 | push, recurse and pop keep the stack of types free of repetitions and joined by the edges named in the path |
| TypeGraph.StaticInformation.GatherAttributes | utils/print-introspected-doxygen.cc:456-496 | the attribute loop follows pointers to other types than Object and containers, and nothing else |
| TypeGraph.StaticInformation.GatherSubclasses | utils/print-introspected-doxygen.cc:497-509 | the loop over registered types follows exactly the subclasses |
| TypeGraph.StaticInformation.GatherAggregates | utils/print-introspected-doxygen.cc:510-531 | the aggregation loop follows each aggregation from either side |
| TypeGraph.StaticInformation.HasAlreadyBeenProcessed | utils/print-introspected-doxygen.cc:379-391 | true exactly for the types on the stack |
| TypeGraph.StaticInformation.GetCurrentPath | utils/print-introspected-doxygen.cc:360-370 | the labels of the path in order, each after a slash |
| TypeGraph.StaticInformation.Gather | utils/print-introspected-doxygen.cc:422-444 | a top-level search starts and ends with empty stacks and adds exactly the entries that a path from the type reaches; making the list unique has no effect |
| TypeGraph.StaticInformation.Get | utils/print-introspected-doxygen.cc:393-406 | the recorded paths of one type in recording order |
| TypeGraph.GetTypicalAggregations | utils/print-introspected-doxygen.cc:587-593 | searches from any list of root objects leave the entries of all of them in one list, root after root; an entry is in it exactly if a path from some root reaches it |
| TypeGraph.GetCountsSimpleWalks | utils/print-introspected-doxygen.cc:393-406 | then the list of a type holds each path as often as there are pairs of a root and a simple walk from it to the type that are written that way |
| TypeGraph.NoRepeatIff | utils/print-introspected-doxygen.cc:422-444 | for any list of roots, the recorded list is free of repetitions if and only if any two simple walks to the same type, from one root or from two, are written differently |
| TypeGraph.DistinctNamesSuffice | utils/print-introspected-doxygen.cc:422-444 | with names free of slashes and no attribute called "[i]", it is whenever the roots differ and no two edges out of one type, or out of two roots, have the same name |
| TypeGraph.ParallelEdgesRepeatEntries | utils/print-introspected-doxygen.cc:422-444 | two parallel edges to a type not passed yet leave a repeated entry wherever a search gets to them |
| TypeGraph.RepeatedAggregation | utils/print-introspected-doxygen.cc:557-577 | the doubled aggregation of the shipped list repeats an entry below the list of nodes |
| TypeGraph.SharedNameRepeats | utils/print-introspected-doxygen.cc:587-591 | two roots whose searches are each free of repetitions, but not together |
| TestRunner.StepInv | test.py:987-1055 | every step of any thread keeps the invariant: queue contents, one place per job, one worker ended per break job taken, job contents, counters |
| TestRunner.AlwaysInv | test.py:1427-1721 | the invariant holds after every schedule |
| TestRunner.NoDeadlock | test.py:1697-1859 | with at least one worker, or no jobs, some thread can go on until the main thread returns |
| TestRunner.NoWorkersNeverReturns | test.py:1416-1430 | without workers and with jobs no schedule lets the main thread return |
| TestRunner.EveryRunReturns | test.py:987-1055 | every schedule has at most 6 * jobs + 6 * workers + 5 steps, and one that cannot be continued has returned |
| TestRunner.NothingIsLost | test.py:1697-1859 | at the end both queues are empty, all workers have ended on their own break job, each job came back exactly once, unchanged if it was to be skipped, else with its own return code, or, only after an interrupt, marked as a break |
| TestRunner.InterruptCutsOff | test.py:1001-1011 | wherever in a run the interrupt falls, exactly the jobs that no worker had checked yet come back as breaks, and all others with their own results |
| TestRunner.FinalReport | test.py:1873-1945 | in every run the report is that of the return codes, the five counters and the interrupted jobs add up to the total, and the exit code is 0 exactly if all jobs were skipped or returned 0 and none was interrupted |
| TestRunner.ScheduleDoesNotMatter | test.py:1711-1753 | without an interrupt every schedule gives the counters, sorted name lists and exit code of a one-at-a-time run |
| TestRunner.RunsReturn | test.py:1427-1721 | with at least one worker, or no jobs, there is a schedule that returns, with an interrupt and without |
| TestRunner.OneWorkerIsOneAtATime | test.py:1420-1430 | with a single worker there are runs without an interrupt, and all of them collect the jobs one at a time in dispatch order |
| TestSummary.CollectResults | test.py:1711-1753 | the collecting loop counts and lists every job by its return code: 0 passed, 1 failed, 2 memory error, anything else crashed; skipped jobs with their reason, interrupted ones not at all; exit code as above |
| TestSummary.StatusesPartition | test.py:1719-1753 | every job has exactly one status |
| TestSummary.ReportIgnoresOrder | test.py:1878-1889 | permuted results give the same counters and the same sorted lists |
| TestSummary.StringLeqMeans | test.py:1878-1889 | strings are ordered by the first character in which they differ, prefixes first |
| TestSummary.SortSorts | test.py:1878-1889 | every list of names has a sort: the same names, each before those that follow it in that order |
| TestSummary.SameSortIff | test.py:1878-1889 | two lists sort to the same list exactly if they hold the same names equally often |
| TestSummary.ExitCodeMeaning | test.py:1942-1945 | exit code 0 means that all jobs were skipped or returned 0 and none was interrupted |
| DependencyOrder.SortToDependencies | bindings/python/ns__init__.py:385-421 | succeeds if and only if the map is closed and no chain is too long for the stack; then the result is a duplicate-free permutation of the keys, every library after its dependencies, in steps by longest chain and within a step in the order of the keys |
| DependencyOrder.DependencyLoader.DependencyOrder | bindings/python/ns__init__.py:407-416 | the recursion empties the pending list exactly if the remaining frames suffice for all rounds |
| DependencyOrder.DependencyLoader.Round | bindings/python/ns__init__.py:410-415 | one round moves exactly the ready libraries from the pending list to the loaded ones and to the step |
| DependencyOrder.DependencyLoader.ModulesThatCanBeLoaded | bindings/python/ns__init__.py:394-405 | the pending libraries all of whose dependencies are loaded, in order |
| DependencyOrder.AllLoadedIff | bindings/python/ns__init__.py:407-416 | all libraries get loaded if and only if the map is closed and acyclic, in at most as many rounds as libraries |
| DependencyOrder.DeepStackSuffices | bindings/python/ns__init__.py:407-416 | with more frames than libraries success means closed and acyclic |
| DependencyOrder.StepIsLongestChain | bindings/python/ns__init__.py:410-416 | step k holds exactly the libraries whose longest chain has k dependencies |
| DependencyOrder.StuckRound | bindings/python/ns__init__.py:394-416 | a round that loads nothing while libraries are pending implies a missing dependency or an explicit cycle among the pending ones |
| PythonText.WriteThenRead | utils/check-style-clang-format.py:680-716 | lines that are written come back unchanged when the file is read again |
| PythonText.TranslateMeans | utils/check-style-clang-format.py:680-681 | reading turns each line end, `\r\n` or `\r`, into one `\n` |
| PythonText.ExpandTabsMeans | utils/check-style-clang-format.py:702 | in a line a tab becomes one to four spaces, up to the next multiple of four characters, and nothing else changes |
| PythonText.TabStops | utils/check-style-clang-format.py:128 | a tab ends on the next tab stop |
| StyleCheck.EnabledMeans | utils/check-style-clang-format.py:676-691 | formatting is enabled unless it was switched off and not on again since |
| StyleCheck.TabsMeaning | utils/check-style-clang-format.py:683-702 | said with the texts of the guards: a tab is reported exactly if some line with a tab is a guard or not in a region switched off, and the fix expands exactly those lines |
| StyleCheck.NoTabLeft | utils/check-style-clang-format.py:683-702 | in a file that never switches formatting off the fix leaves no tab |
| StyleCheck.TrailingSpaceMeaning | utils/check-style-clang-format.py:573-589 | whitespace is reported exactly if some line does not end right after its last other character; fixed lines do, and differ only in the whitespace at their end |
| StyleCheck.TabsFixedIdempotent | utils/check-style-clang-format.py:683-718 | a second run of the tab fix finds no tabs and leaves the file as it is |
| StyleCheck.SecondPassEnabled | utils/check-style-clang-format.py:685-696 | the simulation: where the second pass is enabled the first was, although it may have made new guards |
| StyleCheck.ExpansionMakesGuard | utils/check-style-clang-format.py:685-702 | expanding a tab can turn an ordinary line into a guard |
| StyleCheck.DisabledLinesStay | utils/check-style-clang-format.py:693-696 | ordinary lines in regions switched off stay unchanged and are not looked at later |
| StyleCheck.HasTabsMeansChange | utils/check-style-clang-format.py:698-702 | a tab is reported exactly if the fix changes something |
| StyleCheck.FileFixesCommute | utils/check-style-clang-format.py:573-594 | on every file, whatever its line ends, the two fixes commute |
| StyleCheck.BothChecksClean | utils/check-style-clang-format.py:340-356 | after whitespace and then tabs neither check reports anything |
| StyleCheck.WorkToDo | utils/check-style-clang-format.py:340-365 | the two checks together report something if and only if the two fixes together change something, in either order |
| StyleCheck.ScanTabs | utils/check-style-clang-format.py:683-711 | the loop gives the same answer with and without its early exit, and all fixed lines when fixing |
| StyleCheck.ScanSpace | utils/check-style-clang-format.py:573-589 | the same for trailing whitespace |
| StyleCheck.CheckTabsFile | utils/check-style-clang-format.py:662-718 | same verdict in both modes; the file changes only when fixing |
| StyleCheck.CheckTrailingWhitespaceFile | utils/check-style-clang-format.py:552-594 | same verdict in both modes; the file changes only when fixing |
| StyleCheck.CheckTabs | utils/check-style-clang-format.py:602-659 | over a list of files: every file is fixed when fixing, and the answer is true exactly if nothing was found or everything was fixed |
| StyleCheck.CheckTrailingWhitespace | utils/check-style-clang-format.py:491-549 | the same for trailing whitespace |
| StyleCheck.CheckStyle | utils/check-style-clang-format.py:328-365 | for any two lists of files: check mode changes nothing and exits with 0 exactly if no file needs fixing; fix mode leaves each file as its fixes in either order would, and exits with 0 |
| StyleCheck.StyledIsClean | utils/check-style-clang-format.py:340-365 | a file that fix mode has gone over has nothing left to report, and one without findings is left alone |
| StyleCheck.StyledKeepsSolid | utils/check-style-clang-format.py:340-365 | fix mode changes whitespace only: a file keeps its number of lines, and each line its other characters in order |
| Timeline.TimelineDataRange.Search | utils/grid.py:99-116 | finds a range that contains the key, or, for ranges with starts and ends in order, touching and overlapping ones included, there is none |
| Timeline.FindMonotone | utils/grid.py:99-116 | in any list at all, a later key is not found before an earlier one |
| Timeline.TimelineDataRange.GetRanges | utils/grid.py:130-146 | for ranges in order, a slice that begins with a range containing the start and finishes with one containing the end; for ranges that do not touch, in all four cases, what is selected relative to the linear filter of overlapping ranges |
| Timeline.TimelineDataRange.GetRangesBounds | utils/grid.py:147-163 | the bounds delimit the same slice in all four cases; `DelimitedRanges` says what it holds and leaves out when ranges touch or overlap |
| Timeline.SelectedIsFilterIff | utils/grid.py:139-146 | the result is the linear filter exactly if no range lies beyond an endpoint in a gap and, with both in gaps, none starts between them |
| Timeline.BothInside | utils/grid.py:145-146 | with both endpoints inside ranges the slice is the linear filter |
| Timeline.RangesBetweenGapsAreMissed | utils/grid.py:139-140 | an input on which a range between the endpoints is missed |
| Timeline.TimelineEvent.Search | utils/grid.py:194-212 | for increasing times, the first index at or after the key; when events share a time, one of those at the key if there are any |
| Timeline.TimelineEvent.GetEvents | utils/grid.py:219-228 | for increasing times, all events in the interval and, only if none falls on its end, the first one after it; when events share a time, all strictly inside with a non-empty part of those at either endpoint |
| Timeline.TimelineEvent.GetEventsBounds | utils/grid.py:229-238 | bounds of the same slice |
| Legend.TopLegendRenderer.Layout | utils/grid.py:522-547 | computes the height of the layout in which a box goes on in its row if it fits and otherwise starts one that is lower by the greatest height so far |
| Legend.ComputedLayout | utils/grid.py:534-547 | the boxes and the height of the loops are such a layout, said without the variables of the loops |
| Legend.LayoutIsUnique | utils/grid.py:534-547 | there is no other such layout |
| Legend.TopLegendRenderer.Draw | utils/grid.py:555-590 | square and text of a legend are at fixed places in its box of that layout; different legends' drawings are apart and under the reserved height, and within the width whenever the item alone would fit after the padding |
| Legend.ItemsDoNotOverlap | utils/grid.py:565-577 | no two item boxes overlap |
| Legend.ItemsFitHeight | utils/grid.py:534-547 | every item box ends above the reserved height |
| Legend.ItemFitsWidthIff | utils/grid.py:539-544 | an item fits the width exactly if it would fit after the padding |
| Welford.WelfordStep | utils/bench-scheduler.cc:358-362 | one more sample keeps the exact mean and the exact sum of squared deviations |
| Welford.MomentIsSumOfSquares | utils/bench-scheduler.cc:373-380 | the second moment is the sum of squares less n times the squared mean |
| Welford.Log | utils/bench-scheduler.cc:331-380 | all six averages and second moments are exact, although the average is seeded with the first sample; nothing with fewer than two results |
| SchedulerBench.Bench.Run | utils/bench-scheduler.cc:133-161 | exactly `population` events before every callback, time never goes back, stop in callback total + 1 with count total and population - 1 events left |
| SchedulerBench.Bench.Cb | utils/bench-scheduler.cc:163-176 | stops at the total, otherwise replaces its event and counts |
| Fairness.CauchySchwarz | examples/tcp/dctcp-example.cc:191-197 | the squared sum is at most n times the sum of squares, equal exactly if all counts are |
| Fairness.SquaresBelowSquare | examples/tcp/dctcp-example.cc:191-197 | the sum of squares is at most the squared sum, equal exactly if one flow at most received anything |
| Fairness.JainIndexMeaning | examples/tcp/dctcp-example.cc:182-197 | the index lies in [1/n, 1]; 1 exactly if all are equal, 1/n exactly if one takes all |
| Fairness.FitsIff | examples/tcp/dctcp-example.cc:191-197 | the sums and both products stay below 2^64 if and only if n times the sum of squares does |
| Fairness.SmallCountsFit | examples/tcp/dctcp-example.cc:191-197 | they do if every count is at most b with n * b below 2^32 |
| Fairness.PrintedIsJainIff | examples/tcp/dctcp-example.cc:191-197 | the wrapping computation gives Jain's index if and only if all flows are idle, or the wrapped divisor is not zero and the quotients of both products by 2^64 are in the proportion of the remainders |
| Fairness.PrintedIsJain | examples/tcp/dctcp-example.cc:191-197 | in particular while n times the sum of squares stays below 2^64 |
| Fairness.PrintGroup | examples/tcp/dctcp-example.cc:191-197 | the loop gives the sums modulo 2^64 and the wrapped ratio |
| Fairness.EqualCountsWrap | examples/tcp/dctcp-example.cc:191-197 | ten equal counts for which the divisor wraps to zero |
| Fairness.OneCountLeavesRange | examples/tcp/dctcp-example.cc:191-197 | one busy flow of ten for which the printed index is above a million instead of 1/10 |
| Fairness.Counters.TraceSink | examples/tcp/dctcp-example.cc:125-141 | after any packet every one of the forty counters still holds the bytes of its own flow modulo 2^64 |
| Fairness.BytesConserved | examples/tcp/dctcp-example.cc:125-141 | the flows of the three groups together received the sizes of all packets |
| Fairness.Counters.InitializeCounters | examples/tcp/dctcp-example.cc:143-158 | from any state, all forty counters hold the bytes of no packets |
| Fairness.Counters.PrintFairness | examples/tcp/dctcp-example.cc:183-228 | each of the three printed indices is Jain's index of the bytes that its group received, if the divisor of that group fits |
| Fairness.Measure | examples/tcp/dctcp-example.cc:125-228 | after the counters are set to zero, for any sequence of packets the three indices are those of exactly these packets |
| LargeTransfer.Writer.WriteUntilBufferFull | examples/tcp/tcp-large-transfer.cc:221-243 | terminates, goes on until the stream is complete or the socket is full or refuses, never offers more than there is room for, keeps the accepted stream a prefix of the pattern and writes inside the buffer, closes exactly if the stream is complete |
| LargeTransfer.Flow | examples/tcp/tcp-large-transfer.cc:209-243 | for any callbacks and partial acceptances the stream is a prefix of the pattern and is complete exactly once closed |
| LargeTransfer.Writer.constructor | examples/tcp/tcp-large-transfer.cc:105-110 | the buffer holds the alphabet pattern |
| LargeTransfer.PatternIsAlphabet | examples/tcp/tcp-large-transfer.cc:105-110 | the pattern is the lower-case alphabet, again and again |
| LargeTransfer.CyclicBufferIff | examples/tcp/tcp-large-transfer.cc:51-54 | a buffer size preserves the pattern exactly if it is a multiple of 26 or is never wrapped |
| RttDetector.EstimateInBand | scratch/wormhole_attack_detection.cc:265-274 | for positive samples the estimate stays between the least and the greatest |
| RttDetector.SteadyNeverFlagged | scratch/wormhole_attack_detection.cc:247-252 | samples in a band no wider than the effective threshold are never reported |
| RttDetector.JumpFlaggedIff | scratch/wormhole_attack_detection.cc:247-274 | after a steady baseline sample i of a jump by d is reported exactly while what remains of d exceeds the threshold |
| RttDetector.JumpFlaggedMeans | scratch/wormhole_attack_detection.cc:247-274 | with a threshold configured between t and t + 1 ms, exactly while the size of d * 0.8^i exceeds t |
| RttDetector.RemainingIsPower | scratch/wormhole_attack_detection.cc:271-273 | what remains of d after i samples is d * 0.8^i |
| RttDetector.FlagsArePrefix | scratch/wormhole_attack_detection.cc:247-274 | the reports of a jump are one unbroken run from its first sample |
| RttDetector.FlagsEndIff | scratch/wormhole_attack_detection.cc:247-274 | the reports of a jump end for good if and only if the configured threshold is at least 1 ms; below, every sample is reported |
| RttDetector.QuietBandIff | scratch/wormhole_attack_detection.cc:247-252 | no samples between lo and hi are ever reported if and only if hi - lo is within the effective threshold |
| RttDetector.QuietBandMeans | scratch/wormhole_attack_detection.cc:247-252 | with a threshold configured between n and n + 1 ms, samples between lo and hi are never reported if and only if hi - lo is at most n |
| RttDetector.ConfiguredBandsQuietIff | scratch/wormhole_attack_detection.cc:251 | no samples in any band as wide as the configured threshold are ever reported if and only if that is a whole number of milliseconds |
| RttDetector.ConfiguredThresholdTruncates | scratch/wormhole_attack_detection.cc:24 | a deviation below the configured 2.5 ms is reported |
| RttDetector.RttProbeClient.HandleRead | scratch/wormhole_attack_detection.cc:238-277 | every tagged packet in order adds one sample that makes up the time of arrival with the time it was sent, and the verdict that the sample history calls for |
| RttDetector.RttProbeClient.FireSend | scratch/wormhole_attack_detection.cc:216-236 | a transmission only ever runs on an open socket, counts what it sends, and schedules the next one exactly while the limit is not reached |
| RttDetector.RttProbeClient.StopApplication | scratch/wormhole_attack_detection.cc:198-214 | cancels the pending transmission and closes the socket |

## Left out

- Type registration, lookup by name and attribute tables: the registry is a given graph; `IsChildOf` is a given relation.
- Doxygen text output, XML, HTML, CSV and console output of all programs, including the verbose messages of the style checker.
- Building the dispatch list of test.py and running subprocesses: a job is given with the return code it would have. Elapsed times are not modelled.
- Exceptions raised inside test.py's threads or while its result files are copied.
- The clang-format step of the style checker, its choice of files, decoding errors, and its process pool: a file is text, and the files of a list are handled one after the other.
- Finding the linked libraries and their versions in ns__init__.py: the dependency map is given.
- Ranges nested in one another in the timeline index, whose ends are not in the order of their starts, and intervals that end before they start.
- Sorting of ranges and events, and all cairo drawing besides the coordinates of the legend.
- Square roots of the variance, wall-clock timing and event order at equal times in the benchmark.
- Rounding of floating point: averages, the fairness ratio and round-trip times are reals; times are not rounded to nanoseconds.
- The average throughput lines of PrintFairness, and that its vectors are reserved but never resized: the arrays have their sizes.
- TCP connection set-up and delivery: the socket is the sending side only, and a successful send takes at least one byte; the loop would not end on a socket that keeps taking none.
- Starting the probe a second time while a transmission is pending, which the simulator's application framework does not do.
