# CodeGraph: verified models of its algorithmic cores

This project models, in Dafny, the parts of the CodeGraph command-line tool and its benchmark that carry an algorithm, and proves what they are for:

- the **ordered parallel window** that parses files on many workers and persists them in index order (`OrderedWindow`);
- the **streaming persist pipeline** built on it, which has to leave the same store as one all-at-once insert (`Store`, `Streaming`);
- the indexer's **progress tracker** under that window (`Diagnostics`);
- the **depth-bounded walk** of `codegraph affected` (`Affected`);
- the **canonical graph diff** and its line difference (`GraphRows`, `GraphDiff`, `GraphDiffRun`, `LineDiff`);
- **path normalisation** and the resolution of an index root that refuses symlinks (`LexicalPaths`, `IndexPaths`);
- the **banner scanner** for generated files (`Phrases`, `GeneratedHeader`), the **path-segment scan** (`FileClass`) and the **glob matcher** (`Glob`), all over UTF-8 bytes (`Bytes`);
- the **robust statistics** (`Metrics`), the **shell quoter** (`ShellQuote`) and the **interleaved A/B loop** (`AbBench`) of the benchmark.

## How it is modelled

*The window.* The scheduling loop is a method with the source's local variables and its reorder buffer is a class. Worker timing is an adversary: `NextArrival` promises only that the index it returns is outstanding. Every run is recorded as a trace of a small transition system, and `Allowed` states the protocol's guards: its `Received` case holds wherever the caller blocks. The result and the consumer's final state equal those of `Sequential`, the plain loop; run properties are lemmas over all traces. `parse` is a function of the index and `consume` a function of the consumer's state.

*The pipeline.* `IndexProject` runs the window with the consumer closure `PersistFile`, then flushes the pending nodes and replays the spilled edges and references. The store keeps rows in row-id order; nodes and files are updated in place by key, an edge with a missing endpoint is dropped, and so is one whose identity is already stored. `AllAtOnce` is the reference: one insert per table. What it stores is stated file by file: `PathsStored`, `IdsStored`, `LastFileIsStored`, `LastNodeIsStored`, `EdgesStored` and `RefsStored`.

*The diff.* `IsDiff` says what a diff of two graphs has to be without saying how it is found: which key a row belongs under is said by its columns (`BelongsUnder`), not by the function that computes the key; `DiffGraphs` is proved to produce one and `DiffIsUnique` that there is only one. Conservation, mirror symmetry and independence of row order are lemmas about `IsDiff`. `GraphDiffRun` holds the loops.

*Paths.* A path is its component list. `Follow` reads it as an action on a stack of directory names. The file system is a tree of directories, files and links with a limit on links followed; `Exists`, `IsSymlink`, `IsDir` and `Canonicalize` are resolutions in that tree.

*Text.* A `Text` is a string read byte by byte, one `char` per UTF-8 byte; `IsStr` is well-formed UTF-8, by Table 3-7 in section 3.9 of the Unicode Standard, which `StrMeans` shows to be the encodings by Table 3-6. Every slice of a `str` that the scanner methods take goes through `SliceFrom` or `SliceTo`, which demand a character boundary, as the source would panic otherwise. The Unicode tables (white space, alphanumeric) are a parameter.

*Time and numbers.* Clock readings are parameters in nanoseconds. Floating-point statistics and ratios are exact reals; `u64` sums wrap at 64 bits where the source's release build does.

`dafny verify dfyconfig.toml` checks everything.

## Where the code and its description differ

- `..` directly after the root is kept: `/..` normalises to itself although it means `/`. `RootParentIsKept` gives the input; `SameNormalForm` says exactly when two paths normalise to the same path.
- `/..` is therefore not refused as a root alias by `physical_normalize` and, unless the project is itself `/`, comes out as `/`. `RootParentPassesForRoot` gives the input, `AcceptedAs` says exactly which targets stand for the root, and `Resolve` never passes such a target.
- A quoted empty path is the empty text, which a shell reads as no word. `QuoteRoundTrips` covers it.
- The integer median of an even number of values adds the two middle ones in 64 bits. `OverflowingMedian` gives an input, and `IntegerMedianIsFlooredMedian` says exactly when it is the floor of the true median; beyond that a debug build panics instead of wrapping.
- The greedy phrase scan is exact only for leads that do not overlap themselves. `OverlapHidesATail` gives an input for every other lead, `ScanExactIffNoOverlap` the exact condition; every lead it is called with qualifies (`LeadsDoNotOverlap`).
- Three of the eight banner shapes are looked for only at the first occurrence of their lead, so the line "this code this code is generated" is no banner. `RepeatedSubjectIsOverlooked`, `SecondDocTagIsOverlooked` and `SecondToolIsOverlooked` give an input for each, `FirstSearchIsExactIffOnce` the exact condition.
- The directories of a path are described as every segment but the last; empty segments are left out as well. `DoubledSlashIsDropped` gives the input, `DirectoriesAreAllComponents` the exact condition.
- The configured directory name is described as one directory name, but may not contain `..` anywhere. `DotsInsideAreRefused` gives the input `a..b`, `ConfiguredNameIsOneComponent` the exact condition.

## Model

| member | source | states |
|---|---|---|
| `OrderedWindow.RunOrderedParallelWindow` | crates/codegraph-cli/src/main.rs:6692-6724 | for every arrival order, every parse and every stateful consumer, with a window of at least one: the final consumer state and the result are those of the sequential loop, hence never the "stopped without an ordered error" failure; the caller's events are a run of the transition system and nothing is left outstanding or unreported; a failing run ends failed at the first failing index, with everything before it consumed and that index's error; a zero window is refused untouched |
| `OrderedWindow.RunScoped` | crates/codegraph-cli/src/main.rs:6726-6835 | the scheduling loop itself, terminating, with the same guarantees |
| `OrderedWindow.Schedule` | crates/codegraph-cli/src/main.rs:6746-6769 | submits the next index, once, inside the window, as the one event added to the run |
| `OrderedWindow.Receive` | crates/codegraph-cli/src/main.rs:6771-6784 | whichever outstanding result arrives is buffered; a received error stops scheduling; the window invariant holds at the wait |
| `OrderedWindow.TakeNext` | crates/codegraph-cli/src/main.rs:6786-6790 | the head leaves the buffer exactly if it has arrived, with the result parse gives for that index |
| `OrderedWindow.ConsumePayload` | crates/codegraph-cli/src/main.rs:6792-6804 | a success is followed by exactly one replacement while work is left and no error was seen; a failure ends the run with the consumer's error |
| `OrderedWindow.ConsumeReady` | crates/codegraph-cli/src/main.rs:6786-6811 | drains the ready prefix in index order until the head is missing or has failed |
| `OrderedWindow.DrainRest` | crates/codegraph-cli/src/main.rs:6813-6825 | after a terminal error one result per running task is received and dropped |
| `OrderedWindow.ReorderBuffer.Insert` | crates/codegraph-cli/src/main.rs:6671-6673 | the payload is pending under its index and nothing else changes |
| `OrderedWindow.ReorderBuffer.Take` | crates/codegraph-cli/src/main.rs:6675-6678 | gives and removes the payload of that index, if any |
| `OrderedWindow.SequentialErrorIsTheFirstFailure` | crates/codegraph-cli/src/main.rs:6685-6691 | the sequential loop fails exactly when some index is the first to fail, and then with the error of the smallest such index |
| `OrderedWindow.FirstFailureIsUnique` | crates/codegraph-cli/src/main.rs:6685-6691 | at most one index and one error can be first |
| `OrderedWindow.SequentialStopsAt` | crates/codegraph-cli/src/main.rs:6685-6691 | the sequential loop stops at the first failing index, with the state it fails in and its error |
| `OrderedWindow.RunStaysInWindow` | crates/codegraph-cli/src/main.rs:6765-6814 | at every point of every run what is scheduled and not consumed fits the window |
| `OrderedWindow.TasksFitWindow` | crates/codegraph-cli/src/main.rs:6685-6691 | at all times, failed states included, running plus buffered tasks are at most the window |
| `OrderedWindow.TasksAreAccounted` | crates/codegraph-cli/src/main.rs:6771-6811 | before a failure they are exactly what is scheduled and not consumed, less the one result taken and not yet consumed, if there is one |
| `OrderedWindow.RunIsInFlight` | crates/codegraph-cli/src/main.rs:6771-6811 | no task is both running and buffered, all lie between consumed and scheduled, and before a failure none past the next expected index is missing |
| `OrderedWindow.RunGoesInOrder` | crates/codegraph-cli/src/main.rs:6745-6808 | indices are scheduled and consumed as 0, 1, 2, ..., each once: scheduled and consumed indices form prefixes |
| `OrderedWindow.ArrivalsAreCounted` | crates/codegraph-cli/src/main.rs:6771-6823 | results received plus tasks outstanding equal tasks scheduled, so a finished run received all it scheduled |
| `OrderedWindow.RunIsMonotone` | crates/codegraph-cli/src/main.rs:6736-6742 | the counters never go back; once stopped nothing is scheduled, once failed nothing is consumed |
| `OrderedWindow.ErrorStopsScheduling` | crates/codegraph-cli/src/main.rs:6776-6782 | after any received error no further index is scheduled |
| `OrderedWindow.FailureIsNotPassed` | crates/codegraph-cli/src/main.rs:6786-6814 | no run consumes an index that fails, or anything after it |
| `OrderedWindow.FailureBoundsScheduling` | crates/codegraph-cli/src/main.rs:6765-6814 | no index at least a window past a failing one is ever scheduled |
| `OrderedWindow.FailureIsTheHead` | crates/codegraph-cli/src/main.rs:6786-6809 | a failed run stands at an index that failed to parse or was rejected |
| `OrderedWindow.FailedRunIsBounded` | crates/codegraph-cli/src/main.rs:6765-6825 | hence a failed run scheduled nothing a whole window past the index it failed at, and consumed nothing from it on |
| `OrderedWindow.WaitingIsFull` | crates/codegraph-cli/src/main.rs:6771-6814 | whenever the caller waits, running plus buffered equals scheduled minus consumed, at most the window, and equals the smaller of the window and the remaining work until an error has been received |
| `OrderedWindow.StopHasACause` | crates/codegraph-cli/src/main.rs:6776-6808 | scheduling stops before the terminal error only because an error was received |
| `OrderedWindow.ChangesAreReported` | crates/codegraph-cli/src/main.rs:6783-6790 | whenever a result enters or leaves the buffer the next event reports the new size, and no other event is such a report |
| `OrderedWindow.ConsumedWasTaken` | crates/codegraph-cli/src/main.rs:6745-6808 | whatever is consumed or rejected was scheduled, received and taken out of the buffer before |
| `Store.UpsertPlaces` | crates/codegraph-store/src/queries.rs:113-160 | an upsert replaces the first row with the key where it stands, or else appends the row; nothing else changes |
| `Store.UpsertedRows` | crates/codegraph-store/src/queries.rs:113-160 | after any number of upserts the keys are still distinct, stored rows have kept their place and key and changed only if a row was offered under their key, nothing but old and offered rows is stored, and of the rows offered under one key the last is |
| `Store.UpsertedKeys` | crates/codegraph-store/src/queries.rs:113-160 | a key is stored exactly if it was or was offered |
| `Store.FirstIncompleteIsFirst` | crates/codegraph-store/src/queries.rs:3024-3038 | the node named is incomplete and every node before it is complete |
| `Store.FirstIncompleteAfter` | crates/codegraph-store/src/queries.rs:3024-3038 | the node a failing batch names is the first incomplete one, complete nodes in front or not |
| `Store.UpsertAllSplits` | crates/codegraph-store/src/queries.rs:809-824 | upserting rows in two parts, files by path or nodes by id, gives the same rows in the same order as in one |
| `Store.InsertEdgeRowsSplits` | crates/codegraph-store/src/queries.rs:702-806 | inserting edges in two batches over one set of nodes is inserting them in one |
| `Store.InsertRefRowsSplits` | crates/codegraph-store/src/queries.rs:3155-3180 | the same for unresolved references |
| `Store.IdentityIsSameEdge` | crates/codegraph-store/src/schema.rs:143-148 | the unique index takes two edges for one exactly if source, target and kind agree and line and column do, a missing one being as good as -1 |
| `Store.InsertedEdges` | crates/codegraph-store/src/queries.rs:700-744 | stored edges stay in front; of those offered some follow, in order, each with both its ends stored; no two edges come to be the same; and the first of those that are the same, with its ends stored, is among them |
| `Store.EveryEdgeIsStored` | crates/codegraph-store/src/queries.rs:700-744 | every offered edge with both its ends stored is stored, or one that is the same |
| `Store.InsertedRefs` | crates/codegraph-store/src/queries.rs:3155-3176 | stored references stay in front; those offered follow in order, each as often as offered if it starts from a stored node, and not at all otherwise |
| `Streaming.IndexProject` | crates/codegraph-cli/src/main.rs:6028-6490 | for every arrival order and all positive flush sizes: indexing succeeds exactly when every file parses and every node is complete, then leaves exactly the store of the all-at-once insert, and writes all node batches, then all edge batches, then all reference batches; a failed run has touched no edge and no reference, has stored the file rows of the files taken and of their nodes a prefix in whole batches, and reports the first file that cannot be parsed or the first incomplete node of the files taken |
| `Streaming.AcceptedMeans` | crates/codegraph-cli/src/main.rs:6280-6378 | the projects accepted: every file parses, and no node of any file lacks its id, name, file path or qualified name |
| `Streaming.PathsStored` | crates/codegraph-cli/src/main.rs:6280-6290 | in the store of an accepted project, a path is stored exactly if it was or some file offers it |
| `Streaming.IdsStored` | crates/codegraph-cli/src/main.rs:6372-6378 | the same for node ids |
| `Streaming.LastFileIsStored` | crates/codegraph-cli/src/main.rs:6280-6290 | of the files that offer one path the last in index order is the one stored |
| `Streaming.LastNodeIsStored` | crates/codegraph-cli/src/main.rs:6372-6378 | of the nodes offered under one id, file by file and within a file, the last is the one stored |
| `Streaming.EdgesStored` | crates/codegraph-cli/src/main.rs:6459-6469 | stored are the edges that were and, in file order, those the files offer with both ends among the stored nodes, of the same ones the first; every such edge or one that is the same is there |
| `Streaming.RefsStored` | crates/codegraph-cli/src/main.rs:6475-6483 | stored are the references that were and, in file order and as often as offered, those the files offer that start from a stored node |
| `Streaming.NodePassAt` | crates/codegraph-cli/src/main.rs:6280-6290 | before each index: flushed and pending nodes are together the nodes of the files so far in order, the store holds exactly the flushed ones, fewer than a flush are pending, and the spill holds the edges and references in file order |
| `Streaming.NodePassStep` | crates/codegraph-cli/src/main.rs:6280-6290 | one more file keeps that, or fails because a node so far is incomplete |
| `Streaming.StoppedInPass` | crates/codegraph-cli/src/main.rs:6280-6294 | where the store stands when the window reports an error, and which error that is |
| `Streaming.FlushPending` | crates/codegraph-cli/src/main.rs:6372-6378 | the last partial batch completes the node table; it fails exactly if some node is incomplete |
| `Streaming.Replay` | crates/codegraph-cli/src/main.rs:6903-6939 | reading the spill back flushes exactly its consecutive pieces of the batch size, in order |
| `Streaming.ChunksAreFull` | crates/codegraph-cli/src/main.rs:6903-6939 | those pieces concatenate to the spilled rows, none is empty, and all but the last are exactly full |
| `Streaming.EdgesInBatches` | crates/codegraph-cli/src/main.rs:6463-6469 | inserting the edge pieces one by one is inserting all edges at once |
| `Streaming.RefsInBatches` | crates/codegraph-cli/src/main.rs:6475-6483 | the same for the reference pieces |
| `Streaming.ReplaySpill` | crates/codegraph-cli/src/main.rs:6459-6490 | replay leaves the store of one edge insert followed by one reference insert |
| `Streaming.SpillTouchesNoEdges` | crates/codegraph-cli/src/main.rs:6032-6039 | however the node pass ends, it has written no edge and no reference |
| `Diagnostics.FileTrace.constructor` | crates/codegraph-cli/src/diagnostics.rs:361-377 | a new file is in its first stage with nothing credited and nothing reported |
| `Diagnostics.FileTrace.Enter` | crates/codegraph-cli/src/diagnostics.rs:379-385 | the stage that ends is credited its elapsed milliseconds and the slow report is forgotten; credited time never exceeds elapsed time |
| `Diagnostics.FileTrace.FinishStage` | crates/codegraph-cli/src/diagnostics.rs:387-391 | the current stage is credited without being left, and its reports stay |
| `Diagnostics.FileTrace.Probe` | crates/codegraph-cli/src/diagnostics.rs:644-656 | a slow report is made exactly five seconds into the stage or later and thirty seconds after the last one; reports of a stage stay that far apart |
| `Diagnostics.FileTrace.StagesFitElapsed` | crates/codegraph-cli/src/diagnostics.rs:379-391 | the stage durations of a file sum to at most its total elapsed milliseconds |
| `Diagnostics.FileTrace.Close` | crates/codegraph-cli/src/diagnostics.rs:543-553 | the completion record's stage durations sum to at most its duration |
| `Diagnostics.CreditAdds` | crates/codegraph-cli/src/diagnostics.rs:379-382 | crediting a stage, old or new, gives it exactly that much more, leaves every other one as it is, and so adds as much to the sum |
| `Diagnostics.IndexTracker.constructor` | crates/codegraph-cli/src/diagnostics.rs:430-444 | tracking is on exactly with a sink or a visible bar, and all counters start at zero |
| `Diagnostics.IndexTracker.Scheduled` | crates/codegraph-cli/src/diagnostics.rs:463-471 | one more scheduled and a fresh trace under the index, every other file untouched; nothing with tracking off |
| `Diagnostics.IndexTracker.Stage` | crates/codegraph-cli/src/diagnostics.rs:473-482 | only the named file changes stage, no counter moves |
| `Diagnostics.IndexTracker.Parsed` | crates/codegraph-cli/src/diagnostics.rs:507-521 | one more parsed, and the file waits in stage "buffered" |
| `Diagnostics.IndexTracker.Buffered` | crates/codegraph-cli/src/diagnostics.rs:523-530 | records the buffer's size |
| `Diagnostics.IndexTracker.Persisted` | crates/codegraph-cli/src/diagnostics.rs:532-565 | one more persisted, the next index expected, the file gone from the table and the rest of the table untouched; with tracking off only the bar moves; a completion record exactly when there is a sink and the file was known |
| `Diagnostics.IndexTracker.ReportSlow` | crates/codegraph-cli/src/diagnostics.rs:643-657 | one monitor pass reports exactly the slow files and remembers exactly those |
| `Diagnostics.CountersFollow` | crates/codegraph-cli/src/main.rs:6128-6352 | at every callback boundary of every interleaving of caller and worker callbacks the counters describe the window's progress and the table is exactly the indices scheduled and not consumed |
| `Diagnostics.TrackerMatchesWindow` | crates/codegraph-cli/src/main.rs:6128-6352 | hence the table size is scheduled minus persisted and at most the window, the next expected index is the number persisted and is in the table unless the table is empty, parsed is at most scheduled and buffered at most the window; but for the moment between a change of the buffer and its report, the size shown is its size |
| `Diagnostics.BarAlwaysCounts` | crates/codegraph-cli/src/diagnostics.rs:532-536 | with tracking off every counter stays zero while the bar still counts what was persisted |
| `Affected.CmdAffected` | crates/codegraph-cli/src/main.rs:5221-5259 | a file is traversed exactly when some changed non-test file other than it reaches it in 1 to depth steps through non-test files; the affected tests are the tests among those and among the changed files; the affected files are the two together |
| `Affected.WalkFrom` | crates/codegraph-cli/src/main.rs:5228-5249 | one walk visits exactly what lies within the depth, and labels each file with its shortest distance |
| `Affected.Expand` | crates/codegraph-cli/src/main.rs:5234-5248 | expanding the head of the queue keeps the queue ordered by distance and settles the file |
| `Affected.DistancesAreShortest` | crates/codegraph-cli/src/main.rs:5228-5249 | when the queue is empty no file within the depth was missed or labelled too far |
| `Affected.Exact` | crates/codegraph-cli/src/main.rs:5228-5249 | then visited means within the depth, and labels are shortest distances |
| `Affected.VisitKeepsWalking` | crates/codegraph-cli/src/main.rs:5238-5247 | visiting one dependent keeps the breadth-first invariant |
| `Affected.DequeueKeepsWalking` | crates/codegraph-cli/src/main.rs:5230-5233 | so does leaving the head of the queue, expanded or cut off |
| `GraphRows.LanguagesAreTheNodes` | crates/codegraph-bench/src/graph_diff.rs:474-484 | with unique ids, an id speaks a language exactly if a node with that id and language exists |
| `GraphRows.LanguagesSay` | crates/codegraph-bench/src/graph_diff.rs:474-484 | of several nodes with one id and a language the last is looked up, ids without one give nothing |
| `GraphRows.LanguagesForgetOrder` | crates/codegraph-bench/src/graph_diff.rs:474-484 | with unique ids the order of the nodes does not matter |
| `GraphRows.KeyIsWhereItBelongs` | crates/codegraph-bench/src/graph_diff.rs:486-542 | the key computed for a row is the one it belongs under by its columns: nodes, references and files show their language, nodes and edges their kind, references their reference kind, files "file"; an edge shows the language of its source node on its own side, failing that on the other, failing that `?`, and its resolver, failing that its synthesizer, failing that `-` |
| `GraphRows.KeyLeIsTotalOrder` | crates/codegraph-bench/src/graph_diff.rs:235-242 | group keys are totally ordered by surface, language, kind and resolver |
| `GraphRows.KeyLeIsByField` | crates/codegraph-bench/src/graph_diff.rs:235-242 | that order: nodes, edges, references, files; then by language, by kind and by resolver |
| `Sorting.StringLeIsLexicographic` | crates/codegraph-bench/src/graph_diff.rs:235-253 | strings are ordered as proper prefixes first, otherwise by the first character that differs |
| `GraphRows.SomeGraphsAreKeptApart` | crates/codegraph-bench/src/graph_diff.rs:559-561 | two graphs that differ and share a row, and their rows' compact texts, which differ: the assumption the diff lemmas make can be met |
| `GraphDiffRun.DiffGraphs` | crates/codegraph-bench/src/graph_diff.rs:291-324 | produces a diff as specified: groups in key order without repetition, one for every key some surplus row belongs under by its columns, each with exactly the surplus copies that belong there, sorted, and the schema part exactly when the schema texts differ |
| `GraphDiffRun.DiffSurface` | crates/codegraph-bench/src/graph_diff.rs:295-306 | files the surplus of one surface both ways, keeping what is filed already |
| `GraphDiffRun.CountedRows` | crates/codegraph-bench/src/graph_diff.rs:451-457 | every row text is counted with its multiplicity and kept with a row that has it |
| `GraphDiffRun.SurplusRows` | crates/codegraph-bench/src/graph_diff.rs:460-472 | every text is listed as often as its count exceeds the other side's, with its own row |
| `GraphDiffRun.FileUnder` | crates/codegraph-bench/src/graph_diff.rs:298-305 | each listed copy goes under its own key on one side and nothing else moves |
| `GraphDiffRun.KeyedIsExpected` | crates/codegraph-bench/src/graph_diff.rs:486-519 | all copies of one text land under one key, of the surface they come from |
| `GraphDiff.DiffIsUnique` | crates/codegraph-bench/src/graph_diff.rs:291-324 | two graphs have one diff |
| `GraphDiff.ReportedRowsBelong` | crates/codegraph-bench/src/graph_diff.rs:486-519 | a removed text is that of a row of the left graph that belongs under the key of its group by its columns, an added one that of such a row of the right graph |
| `GraphDiff.DiffConserves` | crates/codegraph-bench/src/graph_diff.rs:268-324 | on each surface left minus removed plus added is right, no row is both removed and added, and the totals are the sizes of the two multiset differences |
| `GraphDiff.SchemaConserves` | crates/codegraph-bench/src/graph_diff.rs:319-322 | the schema part is there exactly if the schema texts differ, and lists in order and with multiplicity what each text has more of |
| `GraphDiff.OneKeyPerText` | crates/codegraph-bench/src/graph_diff.rs:486-519 | every surplus copy lies in exactly one group |
| `GraphDiff.TotalsAreSizes` | crates/codegraph-bench/src/graph_diff.rs:274-281 | the totals of a surface are the numbers of rows over its groups |
| `GraphDiff.IdenticalMeansEqual` | crates/codegraph-bench/src/graph_diff.rs:269-271 | identical is reported exactly when all four row multisets and the schema text agree |
| `GraphDiff.MirrorIsDiff` | crates/codegraph-bench/src/graph_diff.rs:291-324 | removed and added swapped, a diff is a diff of the swapped graphs |
| `GraphDiff.SwappingMirrors` | crates/codegraph-bench/src/graph_diff.rs:291-324 | swapping the graphs gives the same groups in the same order with removed and added swapped, although edge languages are looked up own side first |
| `GraphDiff.RowOrderDoesNotMatter` | crates/codegraph-bench/src/graph_diff.rs:451-484 | with unique node ids, permuting the rows of both graphs changes nothing |
| `GraphDiff.TextsDetermineRows` | crates/codegraph-bench/src/graph_diff.rs:559-561 | among rows with distinct texts, equal texts with multiplicity mean equal rows with multiplicity |
| `LineDiff.UnmatchedLines` | crates/codegraph-bench/src/graph_diff.rs:544-557 | the counting loop computes the greedy difference |
| `LineDiff.UnmatchedIsTheDifference` | crates/codegraph-bench/src/graph_diff.rs:544-557 | what is left over is a subsequence of the input and, with multiplicity, its difference from the other side |
| `LineDiff.DirectionsAgree` | crates/codegraph-bench/src/graph_diff.rs:319-322 | both directions match equally many lines, and both leave nothing exactly when the lists are permutations |
| `LexicalPaths.LexicalNormalize` | crates/codegraph-core/src/index_paths.rs:256-272 | the component loop computes the normal form |
| `LexicalPaths.NormalizeLexical` | crates/codegraph-cli/src/main.rs:7939-7958 | the twin gives `.` for an empty result and the same otherwise |
| `LexicalPaths.NormalizeKeepsMeaning` | crates/codegraph-core/src/index_paths.rs:256-272 | both normal forms act on every starting directory like the original path |
| `LexicalPaths.NormalizeRenders` | crates/codegraph-core/src/index_paths.rs:256-272 | a normal form is the root if absolute, then how far up, then the names down |
| `LexicalPaths.NormalShape` | crates/codegraph-cli/src/main.rs:7939-7958 | no `.` is left but the twin's lone one, no `..` follows a name, and no root follows anything |
| `LexicalPaths.NormalizeIsIdempotent` | crates/codegraph-core/src/index_paths.rs:256-272 | normalising twice is normalising once, for both twins |
| `LexicalPaths.SameMeaningIsSameForm` | crates/codegraph-core/src/index_paths.rs:256-272 | two paths act the same exactly when they are both absolute or both relative, climb equally far if relative, and go down the same names |
| `LexicalPaths.SameNormalForm` | crates/codegraph-core/src/index_paths.rs:256-272 | two paths normalise to the same path exactly when they act the same and keep equally many leading `..` |
| `LexicalPaths.UpsAreLeadingParents` | crates/codegraph-core/src/index_paths.rs:256-272 | that number is what the normal form shows: the root if absolute, so many `..`, then names only |
| `LexicalPaths.RelativeNormalFormIsCanonical` | crates/codegraph-core/src/index_paths.rs:256-272 | relative paths with the same action normalise to the same path |
| `LexicalPaths.RootParentIsKept` | crates/codegraph-core/src/index_paths.rs:261-267 | for absolute paths that fails: `/..` means `/` and keeps its `..` |
| `IndexPaths.Resolve` | crates/codegraph-core/src/index_paths.rs:113-137 | the whole result: the root is one name directly below the canonical project, the trimmed override or else `.codegraph`, on a WSL drive `.codegraph-wsl` if that is a directory or `.codegraph` holds no database; the outside-project branch is never taken; and each refusal comes exactly when the project is inaccessible or not identifiable, the override is not one plain name, or the root is a symlink |
| `IndexPaths.NameIsChosen` | crates/codegraph-core/src/index_paths.rs:273-324 | the chosen name in these terms, for every override and every content of the disk |
| `IndexPaths.IsDirMeans` | crates/codegraph-core/src/index_paths.rs:287-289 | a path is a directory exactly if it resolves to one |
| `IndexPaths.PhysicalNormalize` | crates/codegraph-core/src/index_paths.rs:392-447 | over any tree and canonical project an absolute target is accepted exactly when its normal form is not the root and has no existing symlink component below the project, or anywhere if it lies outside, and otherwise the first symlink is named; it is accepted as its normal form, without any `..` right after the root unless it lies under the project |
| `IndexPaths.AcceptedAs` | crates/codegraph-core/src/index_paths.rs:392-447 | a target whose normal form has no `..` is accepted as that normal form; what is accepted stands for the root exactly when the normal form ends in no name |
| `IndexPaths.RootParentPassesForRoot` | crates/codegraph-core/src/index_paths.rs:392-399 | the input: over any tree and canonical project `/..` is not the root and has no symlink component, so `PhysicalNormalize` accepts it, and as the root unless the project is `/` |
| `IndexPaths.UnlinkedIsCanonical` | crates/codegraph-core/src/index_paths.rs:437-446 | canonicalising the existing part of a target without symlinks only drops its leading `..` |
| `IndexPaths.NearestExistingAncestor` | crates/codegraph-core/src/index_paths.rs:355-364 | finds the longest existing prefix; there always is one |
| `IndexPaths.ProbeForLink` | crates/codegraph-core/src/index_paths.rs:410-436 | finds the first symlink among the prefixes beyond the trusted ones, exactly if there is one |
| `IndexPaths.ConfiguredNameIsOneComponent` | crates/codegraph-core/src/index_paths.rs:300-324 | an override is accepted exactly when, trimmed, it is not empty, not `.`, and holds no `..`, slash or backslash; it then is one plain component |
| `IndexPaths.DotsInsideAreRefused` | crates/codegraph-core/src/index_paths.rs:304-322 | the input: `a..b` is one plain component and is refused |
| `IndexPaths.OneComponentBelow` | crates/codegraph-core/src/index_paths.rs:328-352 | one name below a canonical project is its own normal form, aliases neither the project nor an ancestor nor the root, and only it can be a symlink to refuse |
| `IndexPaths.CanonicalIsPhysical` | crates/codegraph-core/src/index_paths.rs:114-120 | canonicalising lands on something that is no link and is its own canonical form |
| `IndexPaths.UnlinkedIsPhysical` | crates/codegraph-core/src/index_paths.rs:430-436 | an existing path with no symlink prefix lies physically where it says |
| `IndexPaths.NormalizedIsRooted` | crates/codegraph-core/src/index_paths.rs:393-399 | normalising keeps an absolute path absolute |
| `Phrases.PhraseThen` | crates/codegraph-core/src/generated_header.rs:287-297 | for a non-empty lead without a self-overlap, true exactly when some occurrence of the lead is followed, within the gap, by the start of some tail; for any strings, ASCII or not |
| `Phrases.FollowedByPositions` | crates/codegraph-core/src/generated_header.rs:286-308 | what is searched for by positions: the lead somewhere and, at most the gap after its end, the start of a tail |
| `Phrases.Within` | crates/codegraph-core/src/generated_header.rs:300-308 | true exactly when the needle starts within the first gap bytes, cutting at character boundaries included, for any string |
| `Phrases.ScanIsExact` | crates/codegraph-core/src/generated_header.rs:287-297 | skipping past a failed lead loses nothing if the lead does not overlap itself |
| `Phrases.ScanExactIffNoOverlap` | crates/codegraph-core/src/generated_header.rs:287-297 | and for any lead that does, some string and tails show the loss |
| `Phrases.OverlapHidesATail` | crates/codegraph-core/src/generated_header.rs:287-297 | that string and those tails, for every self-overlap |
| `Phrases.WindowKeepsNeedle` | crates/codegraph-core/src/generated_header.rs:300-308 | moving the window back to a character boundary loses no needle |
| `Phrases.FirstIsEnoughIffOnce` | crates/codegraph-core/src/generated_header.rs:206-263 | asking only the first occurrence of each lead answers every question about what follows as asking all occurrences would, if and only if no lead occurs twice |
| `Phrases.SecondIsOverlooked` | crates/codegraph-core/src/generated_header.rs:206-263 | for every lead, a second occurrence that qualifies after a first that does not is missed |
| `Bytes.BoundaryAround` | crates/codegraph-core/src/generated_header.rs:287-308 | in well-formed UTF-8 a string occurs only between character boundaries, so no slice at the end of a hit panics |
| `Bytes.StrMeans` | crates/codegraph-core/src/generated_header.rs:145-154 | the strings are exactly the encodings of sequences of Unicode scalar values, by Table 3-6 in section 3.9 of the Unicode Standard |
| `Bytes.BoundaryCuts` | crates/codegraph-core/src/generated_header.rs:145-154 | a position is a character boundary exactly if cutting there leaves two strings |
| `Bytes.LinesJoin` | crates/codegraph-core/src/generated_header.rs:110-111 | a text is its lines with their ends: each without a newline and ended by one, with the carriage return before it if there is one; only the last may lack an end |
| `Bytes.LinesAreUnique` | crates/codegraph-core/src/generated_header.rs:110-111 | no other lines make up the text that way |
| `GeneratedHeader.HasGeneratedHeader` | crates/codegraph-core/src/generated_header.rs:97-138 | fast reject included, the scan answers whether one of the first 60 lines of the window, on a comment line or in an open block, carries a banner |
| `GeneratedHeader.CaseDoesNotMatter` | crates/codegraph-core/src/generated_header.rs:97-138 | two files that differ only in the case of ASCII letters have the same verdict |
| `GeneratedHeader.LowerForgetsCase` | crates/codegraph-core/src/generated_header.rs:111 | lower-casing leaves no capital and changes nothing but capitals, each into the letter 32 further on; two texts come out equal exactly if they differ in case only |
| `GeneratedHeader.GoBannerIsFound` | crates/codegraph-core/src/generated_header.rs:181-185 | the indented line "// Code generated by protoc-gen-go. DO NOT EDIT." is found |
| `GeneratedHeader.MatchesGeneratedBanner` | crates/codegraph-core/src/generated_header.rs:180-284 | the eight searches decide the eight shapes; the fourth, sixth and seventh at the first occurrence of their lead, the others anywhere in the line |
| `GeneratedHeader.FirstSearchIsExactIffOnce` | crates/codegraph-core/src/generated_header.rs:180-284 | whatever the three shapes ask of what follows, the search finds them wherever they are in the line if and only if another shape is there anyhow or none of their seven leads is in the line twice |
| `GeneratedHeader.BannerIsAnywhereIfOnce` | crates/codegraph-core/src/generated_header.rs:180-284 | a banner is one of the eight shapes somewhere, and if none of these leads is in the line twice, any of them anywhere is a banner |
| `GeneratedHeader.RepeatedSubjectIsOverlooked` | crates/codegraph-core/src/generated_header.rs:245-263 | the input for the seventh shape: "this code this code is generated" holds it and is no banner |
| `GeneratedHeader.SecondDocTagIsOverlooked` | crates/codegraph-core/src/generated_header.rs:207-214 | the input for the fourth shape: "<autogenerated <autogenerated>" holds it and is no banner |
| `GeneratedHeader.SecondToolIsOverlooked` | crates/codegraph-core/src/generated_header.rs:233-242 | the input for the sixth shape: "generated by, generated by x by running y" holds it and is no banner |
| `GeneratedHeader.FindDocTag` | crates/codegraph-core/src/generated_header.rs:207-214 | the fourth shape, slicing at character boundaries |
| `GeneratedHeader.DeclaresItself` | crates/codegraph-core/src/generated_header.rs:245-263 | the seventh shape, slicing at character boundaries |
| `GeneratedHeader.RejectedHasNoBanner` | crates/codegraph-core/src/generated_header.rs:103-107 | the fast reject never changes the answer |
| `GeneratedHeader.BannerHoldsStem` | crates/codegraph-core/src/generated_header.rs:180-284 | every banner holds the stem the fast reject looks for |
| `GeneratedHeader.ShapesHoldStem` | crates/codegraph-core/src/generated_header.rs:180-284 | so does every line with one of the shapes anywhere |
| `GeneratedHeader.AppendingKeepsVerdict` | crates/codegraph-core/src/generated_header.rs:97-154 | appending to a file of at least 8192 bytes never changes its verdict |
| `GeneratedHeader.SixtyLinesCount` | crates/codegraph-core/src/generated_header.rs:109-110 | the verdict is decided by the first sixty lines of the window and no other |
| `GeneratedHeader.HeaderWindow` | crates/codegraph-core/src/generated_header.rs:145-154 | the window is the text up to the largest character boundary within 8192 bytes |
| `GeneratedHeader.WindowLosesLittle` | crates/codegraph-core/src/generated_header.rs:145-154 | a text of more than 8192 bytes is cut to its first 8189 to 8192 bytes, a shorter one is not cut |
| `GeneratedHeader.StemInLineIsInHead` | crates/codegraph-core/src/generated_header.rs:158-165 | a stem in a lower-cased line is in the window in some case |
| `GeneratedHeader.LeadsDoNotOverlap` | crates/codegraph-core/src/generated_header.rs:183-281 | none of the leads overlaps itself |
| `GeneratedHeader.FindStandaloneTag` | crates/codegraph-core/src/generated_header.rs:315-334 | true exactly when some tag stands alone |
| `GeneratedHeader.RunsNamedTool` | crates/codegraph-core/src/generated_header.rs:233-242 | true exactly when the first "generated by" is followed by white space and a tool that is said to be run |
| `GeneratedHeader.AdvanceBlock` | crates/codegraph-core/src/generated_header.rs:118-134 | the delimiter loop moves the block state as specified, slicing at character boundaries |
| `GeneratedHeader.OpenedIsLeftOpen` | crates/codegraph-core/src/generated_header.rs:126-134 | a line opens a block exactly when no earlier delimiter occurs on it, this one does, and it is not closed after its first occurrence |
| `GeneratedHeader.OpenBlockIsUnclosed` | crates/codegraph-core/src/generated_header.rs:109-136 | the block open before a line is one an earlier line left open, when none was, and no line since has closed |
| `FileClass.ContainsPathSegment` | crates/codegraph-core/src/file_class.rs:218-234 | for a segment that starts with an ASCII byte the in-place scan terminates and answers whether the segment is one of the components but the last, equally whether it is one of the directories |
| `FileClass.ResumesAtBoundary` | crates/codegraph-core/src/file_class.rs:229-231 | one byte past an occurrence is a character boundary exactly when the segment starts with an ASCII byte; otherwise the next slice panics |
| `FileClass.SegmentIsComponent` | crates/codegraph-core/src/file_class.rs:218-234 | sitting between slashes somewhere is being a component other than the last, self-overlapping segments included |
| `FileClass.DirectoriesAreComponents` | crates/codegraph-core/src/file_class.rs:129-132 | the directories are the non-empty components but the last |
| `FileClass.DirectoriesAreAllComponents` | crates/codegraph-core/src/file_class.rs:127-132 | they are all of these exactly when none is empty |
| `FileClass.DoubledSlashIsDropped` | crates/codegraph-core/src/file_class.rs:127-132 | the input: `a//b/c` has the components `a`, empty and `b` but the directories `a` and `b` |
| `Glob.MatchesIsTheLanguage` | crates/codegraph-cli/src/main.rs:8078-8092 | the matcher decides the language in which `*` stands for any bytes, `?` for one byte but a slash, and any other byte for itself |
| `Glob.MatchesConcatenation` | crates/codegraph-cli/src/main.rs:8078-8092 | a concatenated pattern matches exactly the values that split between its two parts |
| `Glob.AdjacentStarsCollapse` | crates/codegraph-cli/src/main.rs:8083-8086 | two adjacent stars match what one does, anywhere in a pattern |
| `Metrics.PercentileForgetsOrder` | crates/codegraph-bench/src/metrics.rs:206-221 | a percentile depends only on the multiset of samples |
| `Metrics.PercentileIsInterpolated` | crates/codegraph-bench/src/metrics.rs:206-221 | between two neighbours of any sorted arrangement the percentile lies on the line that joins them, at a whole rank it is the element |
| `Metrics.PercentileIsInRange` | crates/codegraph-bench/src/metrics.rs:206-221 | it lies between the least and the greatest sample |
| `Metrics.PercentileIsMonotone` | crates/codegraph-bench/src/metrics.rs:206-221 | it grows with the percentile asked for |
| `Metrics.MedianIsMiddle` | crates/codegraph-bench/src/metrics.rs:196-198 | the median is the middle sample in order, or the mean of the two middle ones |
| `Metrics.MiddleHalves` | crates/codegraph-bench/src/metrics.rs:196-198 | what is in the middle in that sense is the median, with half the samples on either side |
| `Metrics.MedianHalves` | crates/codegraph-bench/src/metrics.rs:196-198 | at least half the samples are at most the median and at least half at least it |
| `Metrics.CountsArePositions` | crates/codegraph-bench/src/metrics.rs:196-198 | how many samples are at most or at least a value, as numbers of positions |
| `Metrics.MadIsMiddle` | crates/codegraph-bench/src/metrics.rs:200-204 | the deviation is in the middle of the distances from the median |
| `Metrics.MadHalves` | crates/codegraph-bench/src/metrics.rs:200-204 | at least half the samples lie within the deviation of the median, and at least half no nearer |
| `Metrics.PresentIsGiven` | crates/codegraph-bench/src/pipeline.rs:677-679 | the values present are those given, each as often, and nothing for a missing one |
| `Metrics.IntegerMedianIsFlooredMedian` | crates/codegraph-bench/src/pipeline.rs:677-689 | the integer median is the floor of the exact median of the values present exactly when the two middle values do not overflow together |
| `Metrics.OverflowingMedian` | crates/codegraph-bench/src/pipeline.rs:683-688 | the input: two values of 2^63 have the median 2^63 and the integer median 0 |
| `Sorting.SortDependsOnContents` | crates/codegraph-bench/src/metrics.rs:211-212 | sorting forgets the order of its input and nothing else |
| `ShellQuote.QuoteRoundTrips` | crates/codegraph-bench/src/pipeline.rs:691-700 | splitting the quoted text by sections 2.2.1 and 2.2.2 of the POSIX Shell Command Language gives exactly one word, the original string; for the empty string it gives no word |
| `ShellQuote.CommandReadsBack` | crates/codegraph-bench/src/pipeline.rs:401-450 | a command line of quoted words with blanks between them reads back as these words, the empty ones gone |
| `ShellQuote.QuoteIsInjective` | crates/codegraph-bench/src/pipeline.rs:691-700 | distinct non-empty strings are quoted differently |
| `ShellQuote.LeftAlone` | crates/codegraph-bench/src/pipeline.rs:691-700 | a string is left as it is exactly if it is made of ASCII letters, digits and `/._-` |
| `AbBench.MeasureCorpus` | crates/codegraph-bench/src/ab.rs:433-529 | it succeeds exactly with at least one thread count and two runs if no run fails and every run of a binary, over all thread counts, has the hash of its first; otherwise it fails with the first run that fails or differs, or for want of a measured run; on success every cell was timed in the interleaved order and holds exactly the runs asked for per binary, numbered from 1, only the first a warm-up, each with what it measured and the one hash reported for that binary, the middle of the measured times and of their distances from it, the same of the peaks if every measured run has one, rows per second, the four ratios where the baseline is positive, and the verdict of these; the graphs are reported identical exactly if their surface hashes agree |
| `AbBench.CellHalves` | crates/codegraph-bench/src/ab.rs:270-277 | so of the runs after the first half took at most the reported median and half at least it; half lie within the reported deviation and half no nearer |
| `AbBench.TimeCell` | crates/codegraph-bench/src/ab.rs:445-483 | one cell ends well exactly if none of its runs goes wrong, and otherwise with what goes wrong first; its samples are its runs |
| `AbBench.TimeOne` | crates/codegraph-bench/src/ab.rs:446-482 | one run is refused exactly if it fails or its hash differs from that of the first run of its binary, and otherwise recorded with what it measured |
| `AbBench.RunsStayBalanced` | crates/codegraph-bench/src/ab.rs:399-406 | at every point in a cell the run counts differ by at most one |
| `AbBench.EachGoesFirstHalfTheTime` | crates/codegraph-bench/src/ab.rs:399-406 | each binary goes first in half of any even number of runs |
| `AbBench.SeriesMeasured` | crates/codegraph-bench/src/ab.rs:648-669 | all runs but the warm-up are measured, so statistics exist exactly from two runs on |
| `AbBench.NewSeriesReports` | crates/codegraph-bench/src/ab.rs:648-674 | a series reports the statistics of all its runs but the first, and rows per second where the median is positive |
| `AbBench.ThroughputIsRowsOverWall` | crates/codegraph-bench/src/ab.rs:660-694 | the throughput ratio is the row ratio over the wall-time ratio |
| `AbBench.WallBudgetMeaning` | crates/codegraph-bench/src/ab.rs:296-312 | with a positive baseline the wall verdict is that the median is at most 1.10 times the baseline's, or there are more rows and at least 0.90 times as many per time; otherwise there is none |
| `AbBench.PeakBudgetMeaning` | crates/codegraph-bench/src/ab.rs:304-306 | with both peaks and a positive baseline the peak verdict is that the peak is at most 1.15 times the baseline's; otherwise there is none |

## Left out

- OrderedWindow.NextArrival: real threads, the worker pool, channels and panic capture are replaced by a free choice of the next arriving index; a panicking parse is an error result of that index.
- OrderedWindow.RunOrderedParallelWindow: `parse` has to be a function of the index and `consume` a function of the consumer's state, so effects of a parse on shared data are not modelled.
- Streaming.IndexProject: the consumer closure's captured variables are one value threaded through the window, since a method cannot be passed as a function; updates of the pending vector in place are not captured.
- Streaming.Replay: encoding a spilled row as one JSON line and decoding it again is taken to be the identity; opening, reading and deleting the spill files is not modelled.
- Store.InsertedEdges: SQLite itself, WAL checkpoints, full-text triggers, concurrent writers and every store failure but the incomplete-node check.
- Further columns, the module-surface rows, file counters and warnings gathered by the consumer closure.
- Diagnostics.IndexTracker.Persisted: JSON fields other than index, duration and stages; the poisoned-lock branches; the cast of milliseconds to 64 bits.
- Heartbeat events, the oldest and waiting file of a heartbeat, and when the monitor thread wakes.
- Affected.CmdAffected: the store's own failures; sorting and removal of duplicates in the dependents and in the printed lists, which a set does not see; the message for an empty file list.
- GraphDiff.DiffConserves: that the compact JSON texts of distinct rows of the two graphs are distinct is an assumption of this and the other lemmas that mention it; serialisation itself is a parameter.
- GraphRows.KeyLeIsTotalOrder: column values that are neither text nor null enter as already rendered text.
- IndexPaths.Resolve: the physical identity of a project, its SHA-256 and the WSL drive test are parameters; Windows prefixes, case-insensitive file systems, permissions, and file systems that change during the call.
- IndexPaths.PhysicalNormalize: nothing is stated for a project that is not canonical; `Resolve` always passes a canonical one.
- GeneratedHeader.HasGeneratedHeader: the Unicode white-space and alphanumeric tables are parameters with the few properties the scan needs; the webpack detector and path-based detection.
- Phrases.PhraseThen: an empty lead, for which the source's loop does not end.
- FileClass.ContainsPathSegment: a segment that is empty, holds a slash or starts with a character outside ASCII; the last makes the source panic, as `ResumesAtBoundary` shows, and no caller passes any of them.
- Metrics.MedianHalves: IEEE rounding, infinities and not-a-number; the library sort is modelled by a sorting function, not in place.
- AbBench.MeasureCorpus: process spawning, copying, timing and the run directories are one function giving each run's outcome; ratios of infinite values.
- Keyword tables and regular expressions of the structural gate, schema normalisation, argument parsing, installers, the daemon and watcher, and the user interface, which carry no algorithm.
