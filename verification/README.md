# Verified models of the idlebox monorepo

Dafny models of the parts of the repository whose correctness is a statement about whole runs, all
inputs or all interleavings, and proofs of what those parts are for. `dafny verify dfyconfig.toml`
checks the whole project.

Code that changes state is modelled twice. A *value model* says what each step does to the state,
and the theorems are about runs of it, mostly in the form `After(initial, steps)` for an arbitrary
list of steps; a step that is not enabled changes nothing. A *class* or a *method* with the loops
and fields of the program is proved to take exactly those steps.

| files | what they model |
|---|---|
| `JobGraphModel`, `JobGraphSafety`, `JobGraphRuns`, `JobGraphProgress`, `JobGraphOutcomes`, `JobGraphStarts`, `JobGraphOrder`, `JobGraph`, `JobGraphBuilder` | the job-graph scheduler of `@idlebox/dependency-graph`: jobs whose state changes at once, a scheduler that hears of it through delayed and coalesced events, the `startup()` call that waits for it all, the order of the graph, and finalizing a builder |
| `CodeUnits`, `DisplayWidth`, `WidthLimit`, `TextChunks`, `FirstCompleteChar` | cutting, padding and chunking text by display width, over any segmenter that obeys a law, and the segmenter of `cjke-strings` |
| `Tokenizer`, `ArgumentsModel`, `ArgumentsRuns`, `ArgumentsRepeat`, `ArgumentsAnswers`, `ArgumentsBindings`, `Arguments` | the tokenizer of `@idlebox/args` and the binding of tokens to parameters, for every sequence of calls |
| `QueuedLatest`, `WatchHelper`, `Mutexes`, `AsyncDataSource` | four small concurrency machines, for every interleaving |
| `DockerfileLines`, `Dockerfile`, `DockerfileKept` | the Dockerfile splitter and its here-documents |
| `DeepMerge`, `JsonExtends` | deep merge with the default strategies, and the chain of files a JSON file extends |
| `Paths`, `Backoff` | absolute POSIX paths, and the back-off arithmetic over the reals |
| `Wrappers`, `FiniteSets` | optional values, and the size of a subset |

## What the proofs found

Where a promise does not hold for all inputs, the model keeps the code as it is; a lemma gives an
input that breaks it or says exactly when it holds.

- The emitter puts a new listener before the older ones (`@idlebox/common/src/lifecycle/event/event.ts:143`).
  So at the delivery of a fatal event the starter pumps before the graph stops it, and a job may
  start in that very delivery: exactly if one is ready (`FatalEventStartsExactlyIfReady`,
  `FatalEventMayStartAJob`). None starts afterwards (`NoStartAfterFatalEvent`).
- `startup()` settles exactly if the concurrency is at least 1 or there is nothing to run
  (`StartupSettlesExactly`).
- Taking an empty job out of a graph takes the orders with it that went through that job
  (`ChainsKeptExactly`, `OrderThroughEmptyJobIsLost`).
- `limitWidth` keeps within the limit exactly if the limit is not negative (`CutFits`), `fixedWidth`
  throws exactly without a limit, and a negative limit yields width 0, not the limit.
- Greedy chunks are the fewest possible exactly if there is at most one, or the last one has a
  width (`ChunksOptimalExactly`). The loop ends exactly if no segment is wider than the limit
  (`LoopEndsExactlyIfAllFit`).
- The comment of `boxText` says that line breaks are kept. A blank line has no row, and only a blank
  line has none: every line has a row exactly if the text is not empty, does not begin or end with a
  line break and has no two in a row (`LineBreaksKeptExactly`); two in a row make the same box as one
  (`DoubleBreakIsSingle`, `ABreakIsLost`).
- A call of the argument reader that throws leaves the bindings alone, except that `single` binds all
  values before it finds too many, and `flag` binds before its negation throws
  (`FailedCallsBindNothing`, `SingleBindsTooMany`, `FlagBindsBeforeNegation`).
- Ranges conflict by their numbers, not their tokens: an empty range inside another one is in conflict
  with it, and a range whose tokens were taken stays registered and in the way of later ones
  (`RangeBinds`).
- `makeQueuedLatest` gives every caller a promise of its own; its comment says that all calls
  return the same one. What holds instead: callers that wait at the same time are settled at the same
  time, by the same EXEC (`SettledTogether`, `SameRunExactlyIfTogether`), which is the first one that
  started after the call and that no later call overlapped (`SettledByFirstStable`).
- While a batch runs that the end of another batch has started, `WatchHelper.dispose()` has no
  `lastRun` to wait for (`LastRunExactlyIfByTimer`, `SecondBatchIsForgotten`).
- A data source in throw mode keeps the item whose push threw, so its buffer has no bound
  (`ThrowModeIsUnbounded`). With truthy errors the error about an abnormal state is reachable
  exactly in drop mode without a buffer (`AbnormalExactlyWithoutBuffer`); a falsy one always reaches
  it (`FalsyFailureIsAbnormal`). A consumer is left asleep with an item in the queue exactly in throw
  mode without a buffer (`StrandsExactlyWithoutRoom`). Who asks gets what is queued before a failure;
  who has been woken gets the failure first (`ConsumerAnswer`).
- Deep merge reads inherited properties: with a key such as `toString` even associativity fails
  (`AssociativityNeedsOrdinaryKey`).
- Loading a file that extends others ends exactly if no file is read twice (`EndsExactlyIfChain`).
- With jitter a delay may be shorter than the one before it (`JitterMayShorten`). Before rounding that
  is impossible exactly if the multiplier is at least one more than the jitter, or the second delay is
  the longest one already (`NeverShrinksExactly`); with such settings rounded delays never get shorter
  either (`DelaysOfARun`).
- The relative path from the root to anything else begins with `../`; with a slash between it and the
  root the text would be no POSIX path any more (`RelativePathFromRoot`, `RelativePathRoundTrip`).
- A here-document is recognized only with a quoted delimiter, and its two quotes need not be the
  same (`HeredocIsFound`).

## Model

| member | source | states |
|---|---|---|
| JobGraphModel.ScheduleIsExecutable | @idlebox/dependency-graph/src/common/job-graph.graph.pre.ts:110-116 | what a pump schedules may start, and is not more than asked for |
| JobGraphModel.ScheduleIsIncreasing | @idlebox/dependency-graph/src/common/job-graph.graph.pre.ts:110-116 | it is scheduled in the overall order, no job twice |
| JobGraphSafety.FirstUnstarted | @idlebox/dependency-graph/src/common/job-graph.graph.pre.ts:141-157 | while jobs wait and the working ones are done, the first one in the overall order may start: no deadlock in an acyclic graph |
| JobGraphSafety.PumpKeepsCore | @idlebox/dependency-graph/src/common/job-graph.graph.pre.ts:91-133 | a pump keeps the link between `working`, running jobs and pending events, and the concurrency bound |
| JobGraphSafety.HearingKeepsCore | @idlebox/dependency-graph/src/common/job-graph.graph.pre.ts:65-82 | so does hearing of a state change; it rejects the promise exactly if the job has failed |
| JobGraphSafety.EventKeepsInv | @idlebox/dependency-graph/src/common/base-graph.ts:64-74 | the delivery of an event, to all listeners, keeps the invariant of the whole system |
| JobGraphSafety.StepKeepsInv | @idlebox/dependency-graph/src/common/job-graph.job.ts:98-125 | so does every other step |
| JobGraphRuns.FulfilledMeansAllSucceeded | @idlebox/dependency-graph/src/common/job-graph.graph.pre.ts:94-102 | in every run, the start-up is fulfilled only if every job has succeeded, and rejected only if one has failed |
| JobGraphRuns.ThrowsOnlyWhenNothingRuns | @idlebox/dependency-graph/src/common/job-graph.graph.ts:58-82 | when `startup()` throws no job is running, and in no continuation does a job change its state |
| JobGraphRuns.DependencySafety | @idlebox/dependency-graph/src/common/job-graph.graph.pre.ts:141-157 | a job that has left `NotStarted` has all its dependencies succeeded, indirect ones too |
| JobGraphRuns.FailureBlocksDependants | @idlebox/dependency-graph/src/common/job-graph.graph.pre.ts:147-153 | no dependant of a job that fails, now or later, is ever started |
| JobGraphRuns.ConcurrencyBound | @idlebox/dependency-graph/src/common/job-graph.graph.pre.ts:104-129 | running jobs are working jobs, and these never exceed the concurrency |
| JobGraphRuns.ExecutedAtMostOnce | @idlebox/dependency-graph/src/common/job-graph.job.ts:101-106 | `_execute` of a job is entered at most once in a run, and each time the job starts |
| JobGraphRuns.NoStartAfterFatalEvent | @idlebox/dependency-graph/src/common/job-graph.graph.ts:95-107 | once a fatal event has been delivered, no continuation of the run starts a job |
| JobGraphRuns.FatalEventStartsExactlyIfReady | @idlebox/dependency-graph/src/common/job-graph.graph.pre.ts:29-36 | the delivery of a fatal event itself starts a job exactly if one may start |
| JobGraphRuns.FatalEventMayStartAJob | @idlebox/dependency-graph/src/common/job-graph.graph.pre.ts:29-36 | a run of two jobs in which it does |
| JobGraphProgress.StepDecreases | @idlebox/dependency-graph/src/common/job-graph.graph.pre.ts:91-133 | every enabled step lowers a measure of what is left to do |
| JobGraphProgress.PumpLeavesNoIdleSlot | @idlebox/dependency-graph/src/common/job-graph.graph.pre.ts:104-129 | after a pump every slot is in use, or no job may start |
| JobGraphProgress.RunsAreFinite | @idlebox/dependency-graph/src/common/job-graph.graph.pre.ts:91-157 | a run has at most six steps for each job, two for each join and four more |
| JobGraphProgress.RunsReachQuiescence | @idlebox/dependency-graph/src/common/base-graph.ts:64-74 | from every state of a run some steps lead to a state where nothing more can happen |
| JobGraphProgress.StartupSettles | @idlebox/dependency-graph/src/common/job-graph.graph.ts:58-71 | in such a state `startup()` has returned, with all jobs succeeded, or has thrown |
| JobGraphProgress.NoSlotNoStart | @idlebox/dependency-graph/src/common/job-graph.graph.pre.ts:104-108 | with a concurrency below 1 no job ever starts |
| JobGraphProgress.StartupSettlesExactly | @idlebox/dependency-graph/src/common/job-graph.graph.ts:58-71 | at the end of a run `startup()` has settled exactly if there is a slot, or nothing to run |
| JobGraphOutcomes.OutcomeIsAsReported | @idlebox/dependency-graph/src/common/job-graph.job.ts:108-124 | in every run a job has succeeded exactly if a step that found it running reported success, and failed exactly if one reported failure |
| JobGraphOutcomes.EndsOnce | @idlebox/dependency-graph/src/common/job-graph.job.ts:98-124 | there is at most one such step for a job |
| JobGraphOutcomes.MayEnd | @idlebox/dependency-graph/src/common/job-graph.job.ts:98-124 | a running job may report and go on or end, either way; it ends once, and does not throw after reporting success |
| JobGraphOutcomes.StartupIsAsReported | @idlebox/dependency-graph/src/common/job-graph.graph.ts:58-82 | at the end of a run with a slot, or without jobs, `startup()` has thrown exactly if a step reported the failure of a running job, and has returned otherwise, with all jobs succeeded |
| JobGraphStarts.ScheduledExactly | @idlebox/dependency-graph/src/common/job-graph.graph.pre.ts:110-116 | scheduled are those jobs that may start and have fewer than so many of these before them in the overall order |
| JobGraphStarts.PumpStartsExactly | @idlebox/dependency-graph/src/common/job-graph.graph.pre.ts:91-132 | a pump starts the first jobs that may start, as many as there are free slots, and changes no other |
| JobGraphStarts.StartsExactly | @idlebox/dependency-graph/src/common/job-graph.graph.pre.ts:24-132 | in every run, exactly which jobs the next step starts, and what it makes of each other job |
| JobGraphOrder.ClosureIsReachability | @idlebox/dependency-graph/src/common/base-graph.ts:153-159 | the transitive dependencies of a job are those that a chain of direct ones leads to |
| JobGraphOrder.GraphOf | @idlebox/dependency-graph/src/common/base-graph.ts:103-137 | direct dependencies in an overall order make a graph the scheduler theorems apply to |
| JobGraph.Job.SetState | @idlebox/dependency-graph/src/common/base-graph.ts:54-61 | an event is published exactly if the state changes |
| JobGraph.Job.Execute | @idlebox/dependency-graph/src/common/job-graph.job.ts:98-108 | a started job is refused; otherwise `_execute` is entered |
| JobGraph.Job.FinishExecute | @idlebox/dependency-graph/src/common/job-graph.job.ts:108-124 | the end of `_execute` is the step of the model |
| JobGraph.JobGraph.ShouldExecuteNode | @idlebox/dependency-graph/src/common/job-graph.graph.pre.ts:141-157 | the loop over the dependencies decides whether a job may start |
| JobGraph.JobGraph.CollectSchedule | @idlebox/dependency-graph/src/common/job-graph.graph.pre.ts:110-116 | the loop over the overall order collects the schedule of the model |
| JobGraph.JobGraph.Pump | @idlebox/dependency-graph/src/common/job-graph.graph.pre.ts:91-133 | `pump` is the pump of the model |
| JobGraph.JobGraph.CheckRemoveWorking | @idlebox/dependency-graph/src/common/job-graph.graph.pre.ts:65-82 | `checkRemoveWorking` updates `working` and the promise as in the model |
| JobGraph.JobGraph.FireStateEvent | @idlebox/dependency-graph/src/common/base-graph.ts:64-74 | a delivered event calls its listeners in the emitter's order, and is the step of the model |
| JobGraph.JobGraph.Startup | @idlebox/dependency-graph/src/common/job-graph.graph.ts:58-59 | `startup()` pumps at once |
| JobGraph.JobGraph.ContinueStartup | @idlebox/dependency-graph/src/common/job-graph.graph.ts:61-82 | its continuation waits for the promise, then joins the nodes one by one |
| JobGraphBuilder.ChainsKeptExactly | @idlebox/dependency-graph/src/common/job-graph.build.ts:27-36 | finalizing keeps exactly the chains of dependencies that touch no empty job |
| JobGraphBuilder.RealJobsRemain | @idlebox/dependency-graph/src/common/base-graph.ts:343-356 | every real job remains, with its dependencies on real jobs, and nothing else |
| JobGraphBuilder.FinalizedInOrder | @idlebox/dependency-graph/src/common/job-graph.build.ts:27-36 | the real jobs are left, each once, in their order, with just the dependencies that name no empty job |
| JobGraphBuilder.OrderThroughEmptyJobIsLost | @idlebox/dependency-graph/src/common/job-graph.build.ts:27-36 | an order that goes through an empty job is lost |
| JobGraphBuilder.Builder.AddNode | @idlebox/dependency-graph/src/common/base-graph.ts:301-317 | a node is added, unless the graph is finalized |
| JobGraphBuilder.Builder.RemoveNode | @idlebox/dependency-graph/src/common/base-graph.ts:343-356 | a node is removed, and its name from all dependencies |
| JobGraphBuilder.Builder.Finalize | @idlebox/dependency-graph/src/common/job-graph.build.ts:27-36 | removing node after node while iterating yields the real jobs without dependencies on the others |
| CodeUnits.SplitJoin | standalone/cjke-strings/src/limitWidth.ts:77 | splitting a text loses nothing but the separators |
| CodeUnits.SplitOfJoin | @idlebox/common/src/path/normalizePath.ts:108 | joining pieces and splitting gives them back |
| DisplayWidth.StringWidth | standalone/cjke-strings/src/stringWidth.ts:5-14 | the loop adds up the widths of all segments |
| WidthLimit.LimitWidth | standalone/cjke-strings/src/limitWidth.ts:90-109 | result and remaining text are the original, cut where the greedy prefix ends |
| WidthLimit.CutIsAligned | standalone/cjke-strings/src/limitWidth.ts:96-105 | the cut is at the end of a segment, and the width is the sum of the widths kept |
| WidthLimit.CutFits | standalone/cjke-strings/src/limitWidth.ts:97-99 | the width is within the limit exactly if the limit is not negative |
| WidthLimit.CutIsMaximal | standalone/cjke-strings/src/limitWidth.ts:93-108 | nothing remains, or the width is the limit, or the next segment does not fit |
| WidthLimit.LongerDoesNotFit | standalone/cjke-strings/src/limitWidth.ts:93-108 | a longer prefix of whole segments is too wide, or wider by nothing |
| WidthLimit.WideEnoughKeepsWidth | standalone/cjke-strings/src/limitWidth.ts:101-103 | at a limit the text does not exceed the width is that of the text, and with no limit all of it is kept |
| WidthLimit.FixedWidth | standalone/cjke-strings/src/limitWidth.ts:40-48 | for a limit that is not negative the width reported is the limit; without a limit it throws |
| WidthLimit.MaxWidthMultiline | standalone/cjke-strings/src/limitWidth.ts:53-63 | the width of the widest line |
| WidthLimit.FixedWidthMultiline | standalone/cjke-strings/src/limitWidth.ts:76-85 | every line is cut and padded to the smaller of the widest line and the limit |
| WidthLimit.MultilineLosesNoWidth | standalone/cjke-strings/src/limitWidth.ts:76-85 | if the limit is not below the widest line, whatever is dropped has width 0 |
| TextChunks.LoopEndsExactlyIfAllFit | standalone/cjke-strings/src/limitWidth.ts:114-122 | the loop reaches the end of the text exactly if no segment is wider than the limit |
| TextChunks.ChunkText | standalone/cjke-strings/src/limitWidth.ts:114-122 | the loop yields the greedy chunks |
| TextChunks.ChunkTextConserves | standalone/cjke-strings/src/limitWidth.ts:114-122 | the chunks make up the text, end at segments, and fit |
| TextChunks.NeededIsLeast | standalone/cjke-strings/src/limitWidth.ts:114-122 | no split into fitting pieces of whole segments has fewer pieces than there are chunks before a last one of width 0 |
| TextChunks.ChunksOptimalExactly | standalone/cjke-strings/src/limitWidth.ts:114-122 | the chunks are the fewest possible exactly if there is at most one or the last one is not of width 0 |
| TextChunks.VisibleChunksAreOptimal | standalone/cjke-strings/src/limitWidth.ts:114-122 | they are if every segment has a width between 1 and the limit |
| TextChunks.ZeroWidthTailCostsAChunk | standalone/cjke-strings/src/limitWidth.ts:101-103 | at one column, texts for which they are not |
| TextChunks.EscapeCostsAChunk | standalone/cjke-strings/src/limitWidth.ts:101-103 | among them, with the segments of the program, a letter in front of an escape sequence |
| TextChunks.BoxText | standalone/cjke-strings/src/limitWidth.ts:127-134 | the loop over the lines yields the chunks of all lines in order |
| TextChunks.BoxKeepsText | standalone/cjke-strings/src/limitWidth.ts:127-134 | they hold the text of all lines |
| TextChunks.BoxDropsBlankLines | standalone/cjke-strings/src/limitWidth.ts:127-134 | a blank line makes no difference to the rows |
| TextChunks.NoRowExactlyIfBlank | standalone/cjke-strings/src/limitWidth.ts:114-122 | a line has no row exactly if it is blank |
| TextChunks.LineBreaksKeptExactly | standalone/cjke-strings/src/limitWidth.ts:124-134 | every line of a text has a row, as the comment promises, exactly if the text is not empty, neither begins nor ends with a line break, and has no two in a row |
| TextChunks.DoubleBreakIsSingle | standalone/cjke-strings/src/limitWidth.ts:127-134 | anywhere in a text, two line breaks in a row make the same box as one |
| TextChunks.ABreakIsLost | standalone/cjke-strings/src/limitWidth.ts:127-134 | a text of three lines and two rows |
| FirstCompleteChar.ReadFirst | standalone/cjke-strings/src/firstCompleteChar.ts:21-109 | the first character is a prefix of the text, not empty unless the text is, and takes all combining characters with it |
| FirstCompleteChar.WidthOfCharacter | standalone/cjke-strings/src/firstCompleteChar.ts:111-118 | a visible character has two columns if it is of full width, else one, and one more for each combining character if these are not supported |
| FirstCompleteChar.WidthOfPair | standalone/cjke-strings/src/firstCompleteChar.ts:79-89 | a pair of surrogates has two, or one if pairs are supported and it is not of full width |
| FirstCompleteChar.WidthOfEmoji | standalone/cjke-strings/src/firstCompleteChar.ts:64-78 | an emoji has two, or two for each simple one in it |
| FirstCompleteChar.WidthOfInvisible | standalone/cjke-strings/src/firstCompleteChar.ts:27-63 | control characters and escape sequences have no column, a tab as many as it is set to, combining characters alone one each if not supported |
| FirstCompleteChar.PairIsCodePoint | standalone/cjke-strings/src/firstCompleteChar.ts:24 | a code point above 0xFFFF is read from its two units |
| FirstCompleteChar.ReadFirstCompleteChar | standalone/cjke-strings/src/firstCompleteChar.ts:21-109 | building and then editing the result yields that character |
| Tokenizer.LongExactly | @idlebox/args/src/tools/tokenize.ts:6 | the first alternative of the expression matches exactly `--name` or `--name=value`, with that name and value |
| Tokenizer.ShortExactly | @idlebox/args/src/tools/tokenize.ts:6 | the second one exactly `-flags` or `-flags=value` |
| Tokenizer.BundleTokens | @idlebox/args/src/tools/tokenize.ts:19-30 | a bundle of short flags is one token for each flag, the value at the last |
| Tokenizer.ExplodeMultipleFlags | @idlebox/args/src/tools/tokenize.ts:19-30 | splicing in place from the last argument to the first is exploding each argument from left to right |
| Tokenizer.ExplodeAllSingles | @idlebox/args/src/tools/tokenize.ts:59-62 | after that no bundle is left, so the assertion about short flags holds |
| Tokenizer.TokenizeArguments | @idlebox/args/src/tools/tokenize.ts:37-84 | the loops yield the tokens of the model |
| Tokenizer.TokensSayArguments | @idlebox/args/src/tools/tokenize.ts:59-81 | each token says what its argument is: a value, or a flag with exactly its name and a value that is not empty; behind the double dash all are values |
| Tokenizer.ExplodeSays | @idlebox/args/src/tools/tokenize.ts:19-30 | a bundle becomes one argument for each flag, any other argument stays as it is |
| Tokenizer.PrintSaysArguments | @idlebox/args/src/library/token.ts:77-89 | printed, the tokens are the exploded arguments without the `=` of an empty value, then `--` and what is behind it |
| Tokenizer.PrintingGivesBack | @idlebox/args/src/library/token.ts:77-89 | without bundles, empty values and a last `--`, printing the tokens gives back the command line |
| Tokenizer.RoundTrip | @idlebox/args/src/library/token.ts:77-89 | printing the tokens and tokenizing again gives the same kinds, names, values and positions |
| Tokenizer.IndexesAreOwn | @idlebox/args/src/tools/tokenize.ts:42-81 | token k has index k, and the total is the number of arguments before the double dash |
| ArgumentsModel.FirstConflict | @idlebox/args/src/library/parameter.holder.ts:35-41 | a new range is refused at the first range it is not apart from |
| ArgumentsRuns.SingletonGood | @idlebox/args/src/library/parameter.holder.ts:19-51 | registering a parameter binds nothing, keeps the invariant, and a refused one changes nothing |
| ArgumentsRuns.BindIs | @idlebox/args/src/library/parameter.ts:47-68 | `bindArgType` binds all tokens or, if one of them is bound to something else, none; no `die` is reached |
| ArgumentsRuns.CallGood | @idlebox/args/src/library/reader.app.ts:46-209 | every call keeps the invariant and all bindings, and hands out only tokens bound to its parameter |
| ArgumentsRuns.BindingsAreForever | @idlebox/args/src/library/token.ts:67-73 | in every run, a binding never changes once it is set |
| ArgumentsRuns.ListsAreBound | @idlebox/args/src/library/parameter.ts:63-67 | a token in a parameter's list is bound to it, and a bound token to a registered parameter of the right kind |
| ArgumentsRuns.RangesAreDisjoint | @idlebox/args/src/library/parameter.holder.ts:35-47 | no position is in two registered ranges, and a level has one command parameter |
| ArgumentsRuns.NeverDies | @idlebox/args/src/library/parameter.ts:48-50 | no call of any run ends in `die`, and what it hands out stays bound to its parameter |
| ArgumentsRuns.NoTokenForTwo | @idlebox/args/src/library/parameter.ts:52-61 | in no run is one token handed out for two parameters |
| ArgumentsRepeat.FailedCallsBindNothing | @idlebox/args/src/library/parameter.ts:52-61 | what is bound after a call that throws: as before, except that `single` leaves what finding its values has bound, and `flag` what counting the flags has bound before their negations |
| ArgumentsRepeat.SingleBindsTooMany | @idlebox/args/src/library/reader.app.ts:46-50 | with `--a=1 --a=1`, `single` throws and both tokens stay bound |
| ArgumentsRepeat.FlagBindsBeforeNegation | @idlebox/args/src/library/reader.app.ts:90-111 | with `--a --no-a=1`, `flag` throws and the first token stays bound |
| ArgumentsRepeat.RepeatedCallIsSame | @idlebox/args/src/library/parameter.holder.ts:20-23 | a call that succeeds, repeated at once, gives the same and changes nothing |
| ArgumentsRepeat.NegationIsAnother | @idlebox/args/src/library/reader.app.ts:94-111 | a flag and its negation are never the same parameter |
| ArgumentsAnswers.FlagAnswer | @idlebox/args/src/library/reader.app.ts:81-114 | `flag` answers how many tokens before the double dash are, printed, one of the flags, less how many are the negation of one |
| ArgumentsAnswers.FlagRefusesValue | @idlebox/args/src/library/match.ts:74-89 | it refuses the first token that gives one of the flags a value, and binds nothing then |
| ArgumentsAnswers.FlagNamesExactly | @idlebox/args/src/tools/param-desc.ts:85-106 | a name for a flag is `--` and a name without `=`, or `-` and one unit |
| ArgumentsAnswers.ValuesAnswer | @idlebox/args/src/library/reader.app.ts:46-79 | `multiple` answers all values of the flags in order, or refuses the first flag without one; `single` the same with at most one value, and refuses the second |
| ArgumentsAnswers.RangeAnswer | @idlebox/args/src/library/reader.app.ts:116-169 | `range` answers those of the values not bound to a flag that are counted from its index on, so many of them; with a double dash, what stands so far behind that |
| ArgumentsAnswers.CommandAnswer | @idlebox/args/src/library/reader.cmd.ts:44-69 | `command` answers the first value from its position on that no flag and no range has taken, if it is one of the commands, and how many values are before it |
| ArgumentsBindings.OptionsBind | @idlebox/args/src/library/reader.app.ts:53-79 | `multiple`, and `single` with it, binds exactly the flags and their values if none of them is taken; otherwise the first one taken is the conflict and nothing is bound |
| ArgumentsBindings.FlagsBind | @idlebox/args/src/library/reader.app.ts:81-114 | `flag` binds exactly the flags it counts and then their negations to another parameter, each step refusing the first flag with a value, else the first token taken |
| ArgumentsBindings.NegationIsParameter | @idlebox/args/src/library/reader.app.ts:94-111 | the parameter of the negation is that of `--no-name`, or of the list of the negations |
| ArgumentsBindings.RangeBinds | @idlebox/args/src/library/reader.app.ts:155-169 | a new range is in conflict exactly with the first registered one that it overlaps with; otherwise exactly its tokens are bound if none is taken, and the range is registered |
| ArgumentsBindings.CommandBinds | @idlebox/args/src/library/reader.cmd.ts:44-69 | exactly when `command` refuses its definition, its level, or the value it finds, and that it binds that value alone |
| ArgumentsBindings.SameNamesExactly | @idlebox/args/src/tools/param-desc.ts:57-81 | without U+200B in a name, two lists of names have the same id exactly if they are the same list |
| Arguments.ApplicationArguments.MakeSingleton | @idlebox/args/src/library/parameter.holder.ts:19-51 | the holder is changed as in the model |
| Arguments.ApplicationArguments.BindArgType | @idlebox/args/src/library/parameter.ts:47-68 | the two loops bind as in the model, throw where it does, and die where it does |
| Arguments.ApplicationArguments.MatchOptionByFlags | @idlebox/args/src/library/match.ts:49-72 | the loop finds the options with their values, or the misplaced token |
| Arguments.ApplicationArguments.MatchFlagByFlags | @idlebox/args/src/library/match.ts:74-89 | the loop finds the flags, or the one that has a value |
| Arguments.ApplicationArguments.Multiple | @idlebox/args/src/library/reader.app.ts:53-79 | `multiple` is the call of the model |
| Arguments.ApplicationArguments.Single | @idlebox/args/src/library/reader.app.ts:46-52 | so is `single` |
| Arguments.ApplicationArguments.Flag | @idlebox/args/src/library/reader.app.ts:81-114 | so is `flag`, with its recursion for the negations, which ends; what it answers is `FlagAnswer` |
| Arguments.ApplicationArguments.ArgPositional | @idlebox/args/src/library/reader.app.ts:116-144 | the loop with its two counters yields a section of the eligible tokens |
| Arguments.ApplicationArguments.PositionalArguments | @idlebox/args/src/library/reader.app.ts:146-153 | after a double dash positions count from there |
| Arguments.ApplicationArguments.Range | @idlebox/args/src/library/reader.app.ts:155-169 | `range`, and so `at`, is the call of the model |
| Arguments.ApplicationArguments.Command | @idlebox/args/src/library/reader.cmd.ts:44-69 | `command` at any level is the call of the model |
| Arguments.ApplicationArguments.Unused | @idlebox/args/src/library/reader.app.ts:171-182 | the loop lists what is left over |
| Arguments.UnusedExactly | @idlebox/args/src/library/reader.app.ts:171-182 | what is unused are the texts, in order and as often as they occur, of exactly the tokens that nothing is bound to |
| QueuedLatest.NeverTwoAtOnce | @build-script/codegen/src/common/shared.ts:64-120 | in every run at most one EXEC is active, and somebody waits exactly while something runs |
| QueuedLatest.CallsAreCounted | @build-script/codegen/src/common/shared.ts:108-119 | every call of a run is a caller |
| QueuedLatest.SettledOnceAndFresh | @build-script/codegen/src/common/shared.ts:87-103 | every caller waits or is settled once, with the outcome of an EXEC that started after the call and was not overlapped by another |
| QueuedLatest.SettledByFirstStable | @build-script/codegen/src/common/shared.ts:71-103 | that EXEC is the first one that started after the call and that no later call overlapped |
| QueuedLatest.SettledTogether | @build-script/codegen/src/common/shared.ts:92-103 | two callers that wait at the same time go on waiting, or both have been settled, by the same EXEC, whatever happens next |
| QueuedLatest.SameRunExactlyIfTogether | @build-script/codegen/src/common/shared.ts:92-103 | two callers were settled by the same EXEC exactly if at some time both of them waited |
| QueuedLatest.DroppedExactlyIfOverlapped | @build-script/codegen/src/common/shared.ts:87-90 | an EXEC settles nobody exactly if a call came in while it lasted |
| QueuedLatest.NoMoreExecsThanCalls | @build-script/codegen/src/common/shared.ts:73-90 | there are no more EXECs than calls |
| QueuedLatest.TwoMoreRunsSettleEverybody | @build-script/codegen/src/common/shared.ts:73-105 | once calls stop, at most two more EXECs end before all callers are settled |
| QueuedLatest.Closure.Wrapped | @build-script/codegen/src/common/shared.ts:108-119 | a call is the step of the model |
| QueuedLatest.Closure.GoOn | @build-script/codegen/src/common/shared.ts:87-104 | so is the rest of the loop's round |
| WatchHelper.StateTellsAll | @idlebox/chokidar/src/main.ts:66-136 | a timer is set exactly in SCHEDULE, a batch in flight exactly in BUSY and RESCHEDULE, never two; changes only in SCHEDULE and RESCHEDULE |
| WatchHelper.ComesExactlyIfWanted | @idlebox/chokidar/src/main.ts:82-114 | a batch is to come, in SCHEDULE or RESCHEDULE, exactly if a path was reported or a batch wanted since the last one started |
| WatchHelper.EventsBeginWaitAgain | @idlebox/chokidar/src/main.ts:82-106 | outside a batch such an event sets a timer that was never set before in place of the old one; during a batch none is set; an event that wants nothing changes nothing |
| WatchHelper.NeverInvalid | @idlebox/chokidar/src/main.ts:102-103 | no error about an invalid state is thrown |
| WatchHelper.ReportsAreBatched | @idlebox/chokidar/src/main.ts:82-114 | what the events of a run reported is, in that order, what the batches took, one after the other, and what is still to come; a batch has each of its paths once |
| WatchHelper.IdleMeansDelivered | @idlebox/chokidar/src/main.ts:123-126 | in IDLE every report has been delivered |
| WatchHelper.ComesToRest | @idlebox/chokidar/src/main.ts:66-136 | once events stop, at most four steps follow; nothing more can happen exactly in IDLE, and then all that was reported has been delivered, in that order |
| WatchHelper.LastRunExactlyIfByTimer | @idlebox/chokidar/src/main.ts:116-135 | `lastRun` is set exactly while a batch that a timer started is in flight |
| WatchHelper.SecondBatchIsForgotten | @idlebox/chokidar/src/main.ts:134 | a run in which a batch is in flight and `lastRun` is not set |
| WatchHelper.Helper.OnEvent | @idlebox/chokidar/src/main.ts:82-106 | the event handler is the step of the model |
| WatchHelper.Helper.OnTimer | @idlebox/chokidar/src/main.ts:71-74 | so is the timer |
| WatchHelper.Helper.OnFinally | @idlebox/chokidar/src/main.ts:123-135 | so is the end of a batch |
| Mutexes.AtMostOneHolder | @idlebox/common/src/async/mutex.ts:91-115 | in every run at most one lock is held, before the disposal the present one |
| Mutexes.LocksAlternate | @idlebox/common/src/async/mutex.ts:91-115 | locks are acquired and released one after the other, each caller at most once |
| Mutexes.RejectedExactlyIfRepeated | @idlebox/common/src/async/mutex.ts:97-105 | before the disposal a release is rejected, and then changes nothing, exactly if that lock has been released before |
| Mutexes.CallerAnswer | @idlebox/common/src/async/mutex.ts:45-115 | whoever calls, or is woken, while nobody holds a lock gets one, unless it only waits for that; otherwise it waits, and who only tries, or whose time is over, goes on without |
| Mutexes.OthersGoOnWaiting | @idlebox/common/src/async/mutex.ts:63-89 | no step ends or changes the waiting of anybody but the one it is about |
| Mutexes.LocksAreAskedFor | @idlebox/common/src/async/mutex.ts:85-89 | in every run who owns a lock has asked for one, and who waits waits for what it called for |
| Mutexes.DisposalAnswer | @idlebox/common/src/async/mutex.ts:122-132 | the disposal happens once, and moves no lock |
| Mutexes.AnyWaiterMayBeNext | @idlebox/common/src/async/mutex.ts:29-35 | whoever waits before the disposal is woken when the present lock is released, and gets the lock if woken first |
| Mutexes.NeverDestroyedError | @idlebox/common/src/async/mutex.ts:92 | the error about a destroyed lock is never thrown |
| Mutexes.NobodyAfterDispose | @idlebox/common/src/async/mutex.ts:118-132 | after the disposal nobody acquires or releases, and who waits without a timeout waits forever |
| Mutexes.MutexObject.Critical | @idlebox/common/src/async/mutex.ts:91-115 | acquiring is the step of the model |
| Mutexes.MutexObject.Round | @idlebox/common/src/async/mutex.ts:64-89 | so is a round of a waiting loop |
| Mutexes.MutexObject.ReleaseLock | @idlebox/common/src/async/mutex.ts:97-105 | so is a release |
| Mutexes.MutexObject.DisposeMutex | @idlebox/common/src/async/mutex.ts:122-132 | so is the disposal |
| AsyncDataSource.DropModeKeepsNewest | @idlebox/common/src/iterate/custom-async-iterator.ts:111-126 | in drop mode the queue stays within the bound and is the newest items; what was delivered is a subsequence of those before it |
| AsyncDataSource.PushDropsExactlyIfFull | @idlebox/common/src/iterate/custom-async-iterator.ts:117-123 | a push drops one item, the oldest, exactly if the queue was full |
| AsyncDataSource.ThrowModeKeepsAll | @idlebox/common/src/iterate/custom-async-iterator.ts:117-123 | in throw mode what was delivered and the queue are all that was pushed |
| AsyncDataSource.ThrowModeIsUnbounded | @idlebox/common/src/iterate/custom-async-iterator.ts:117-121 | so the queue grows without bound while every push throws |
| AsyncDataSource.DoneMeansAllDelivered | @idlebox/common/src/iterate/custom-async-iterator.ts:164-194 | if nothing was dropped, the end is announced, to a request or after a sleep, only when everything has been delivered |
| AsyncDataSource.ConsumerAnswer | @idlebox/common/src/iterate/custom-async-iterator.ts:164-194 | a request gets the oldest item; without one what the first end or failure of the run says; without that it sleeps; after a sleep a failure goes before the items |
| AsyncDataSource.SleepsAndWakes | @idlebox/common/src/iterate/custom-async-iterator.ts:109-153 | a consumer is woken by the first accepted push, end, failure or disposal, and by nothing else |
| AsyncDataSource.ProducerAnswer | @idlebox/common/src/iterate/custom-async-iterator.ts:93-153 | the producer is told that the source is disposed of, or that it has ended or failed as its first end says, or that there is no room |
| AsyncDataSource.AbnormalExactlyWithoutBuffer | @idlebox/common/src/iterate/custom-async-iterator.ts:178-180 | with truthy errors the error about an abnormal state is reachable exactly in drop mode without a buffer |
| AsyncDataSource.FalsyFailureIsAbnormal | @idlebox/common/src/iterate/custom-async-iterator.ts:176-180 | with a falsy error it is reached, whatever the buffer |
| AsyncDataSource.StrandsExactlyWithoutRoom | @idlebox/common/src/iterate/custom-async-iterator.ts:119-125 | a consumer sleeps on beside a queued item exactly in throw mode without a buffer |
| AsyncDataSource.DisposalEndsAll | @idlebox/common/src/iterate/custom-async-iterator.ts:93-106 | after the disposal nothing is accepted or delivered, nobody sleeps, and who slept is told of the cancellation |
| AsyncDataSource.ActiveAsyncDataSource.PushItem | @idlebox/common/src/iterate/custom-async-iterator.ts:111-126 | `push` is the step of the model |
| AsyncDataSource.ActiveAsyncDataSource.DropOldest | @idlebox/common/src/iterate/custom-async-iterator.ts:118-123 | the loop drops the oldest items until the queue fits, or throws with the queue as it is |
| AsyncDataSource.ActiveAsyncDataSource.FinishSource | @idlebox/common/src/iterate/custom-async-iterator.ts:131-139 | so is `finish` |
| AsyncDataSource.ActiveAsyncDataSource.Fail | @idlebox/common/src/iterate/custom-async-iterator.ts:144-153 | so is `throwError` |
| AsyncDataSource.ActiveAsyncDataSource.DisposeSource | @idlebox/common/src/iterate/custom-async-iterator.ts:93-106 | so is the disposal |
| AsyncDataSource.ActiveAsyncDataSource.AskForNext | @idlebox/common/src/iterate/custom-async-iterator.ts:164-183 | so is `_next` up to its sleep |
| AsyncDataSource.ActiveAsyncDataSource.WakeUp | @idlebox/common/src/iterate/custom-async-iterator.ts:184-194 | so is what follows the sleep, which always answers |
| DockerfileLines.HeredocIsFound | @idlebox/dockerfile-split/src/heredoc.ts:1 | whatever matches the expression for here-documents is found, with its word as the delimiter |
| DockerfileLines.FoundIsHeredoc | @idlebox/dockerfile-split/src/heredoc.ts:1 | whatever is found matches it |
| DockerfileLines.MatchAll | @idlebox/dockerfile-split/src/heredoc.ts:15-18 | the search from left to right yields all delimiters |
| DockerfileKept.DelimitersAre | @idlebox/dockerfile-split/src/heredoc.ts:1-18 | the delimiters of a line are that of its first match and those behind that match |
| DockerfileLines.UnitsExactly | @idlebox/dockerfile-split/src/heredoc.ts:1 | the letters, digits and white space that the expressions mean |
| DockerfileLines.DefaultExactly | @idlebox/dockerfile-split/src/index.ts:3-22 | the default instructions are those eighteen words |
| DockerfileLines.HeredocWaiter.HandleLine | @idlebox/dockerfile-split/src/heredoc.ts:6-20 | a delimiter that is the whole line is over, those in the line begin |
| DockerfileLines.InstructionStable | @idlebox/dockerfile-split/src/index.ts:149-163 | an instruction line as it is kept is the same instruction, kept the same |
| DockerfileLines.InstructionDelimiters | @idlebox/dockerfile-split/src/index.ts:114-126 | and begins the same here-documents |
| Dockerfile.LineStable | @idlebox/dockerfile-split/src/index.ts:100-142 | a line of any sort, as it is kept, is found to be the same again |
| DockerfileKept.OpenExactly | @idlebox/dockerfile-split/src/heredoc.ts:6-20 | a here-document is open from a line that has its delimiter, unless that is a comment outside all of them, to the line that is the delimiter |
| DockerfileKept.LinesAreKept | @idlebox/dockerfile-split/src/index.ts:100-142 | every line is kept: as it is while a here-document is open, as the capital word, a space and the rest if it is an instruction, otherwise without the white space at its end |
| DockerfileKept.SegmentsAreOfNearest | @idlebox/dockerfile-split/src/index.ts:83-98 | a line belongs to a segment of the kind of the nearest instruction or comment up to it, outside here-documents, and each such instruction begins a segment |
| Dockerfile.PrintThenParse | @idlebox/dockerfile-split/src/index.ts:76-147 | joining the lines of the segments and parsing again gives the same segments |
| Dockerfile.SegmentsTile | @idlebox/dockerfile-split/src/index.ts:83-98 | the segments begin at line 0, each where the one before ends, cover the text, and no two neighbours are comments |
| Dockerfile.FailsExactlyIfFirstIsOrphan | @idlebox/dockerfile-split/src/index.ts:134-137 | parsing fails exactly if line 0 is neither empty nor a comment nor an instruction |
| Dockerfile.DockerfileParser.Replace | @idlebox/dockerfile-split/src/index.ts:83-98 | a new segment, or a comment merged with the one before |
| Dockerfile.DockerfileParser.HandleLine | @idlebox/dockerfile-split/src/index.ts:100-142 | one round of the loop finds what the line is; a here-document always belongs to a segment |
| Dockerfile.DockerfileParser.ParseText | @idlebox/dockerfile-split/src/index.ts:76-147 | the loop yields the segments of the model |
| DeepMerge.UndefinedIsIdentity | @idlebox/deepmerge/src/index.ts:89-91 | `undefined` on either side changes nothing, whatever the keys; nor does `null` on the right of an object |
| DeepMerge.ObjectsPrevail | @idlebox/deepmerge/src/index.ts:144-150 | a value that is not an object changes nothing of an object on its left |
| DeepMerge.MergeIsAssociative | @idlebox/deepmerge/src/index.ts:108-151 | merging is associative |
| DeepMerge.ReadPathCommutes | @idlebox/deepmerge/src/index.ts:146-149 | reading a path of the merged tree is merging what both trees hold there |
| DeepMerge.AssociativityNeedsOrdinaryKey | @idlebox/deepmerge/src/index.ts:145-147 | with a key that a prototype has associativity fails, with any other it holds |
| DeepMerge.DeepMergeTrees | @idlebox/deepmerge/src/index.ts:108-151 | the recursion with its loop over the keys of both sides computes the merge |
| JsonExtends.EndsExactlyIfChain | @idlebox/json-extends-loader/src/default.ts:64-84 | loading ends exactly if no file is read twice, and then soon enough |
| JsonExtends.ReadsChain | @idlebox/json-extends-loader/src/default.ts:64-84 | the loop reads the files that follow each other, and the data of each |
| JsonExtends.ChainsDoNotRepeat | @idlebox/json-extends-loader/src/default.ts:64-84 | no file is read twice exactly if no such chain has a file twice |
| JsonExtends.ResultIsMergeAll | @idlebox/json-extends-loader/src/default.ts:86-94 | returning a single file as it is makes no difference to merging |
| JsonExtends.LoadedValue | @idlebox/json-extends-loader/src/default.ts:86-94 | at every path: an object exactly if some file has one there, otherwise the last value defined from base to derived file |
| JsonExtends.LoadInheritedJson | @idlebox/json-extends-loader/src/default.ts:56-95 | for every chain of files that follow each other to an end: at every path an object exactly if one of them holds one there, otherwise what the first file that defines it holds; or which of the errors, for which file |
| JsonExtends.MergeBack | @idlebox/json-extends-loader/src/default.ts:86-94 | the loop back along the chain computes that result |
| Paths.NormalizingIsIdempotent | @idlebox/common/src/path/normalizePath.ts:98-126 | a normal form is an absolute path and its own normal form |
| Paths.NormalFormKeepsSegments | @idlebox/common/src/path/normalizePath.ts:98-108 | a normal form has the segments of the path |
| Paths.SameNormalFormExactly | @idlebox/common/src/path/normalizePath.ts:119-126 | two paths have the same normal form exactly if they have the same segments |
| Paths.SegmentsAreLeft | @idlebox/common/src/path/normalizePath.ts:98-108 | the segments of a path are, in order, exactly the names between its slashes that no `..` behind them takes back |
| Paths.SegmentsOfMore | @idlebox/common/src/path/normalizePath.ts:98-108 | one more item adds a name, takes the last one back, or does nothing |
| Paths.DoubleSlashExactly | @idlebox/common/src/path/normalizePath.ts:9-10 | what begins with two slashes is no path of this kind, unless there are only slashes |
| Paths.RelativePathLeadsThere | @idlebox/common/src/path/normalizePath.ts:129-152 | followed from the directory `from`, the relative path leads to `to`, the root included |
| Paths.RelativePathFromRoot | @idlebox/common/src/path/normalizePath.ts:129-152 | from the root, the relative path is `../` and the segments of `to`, or empty |
| Paths.RelativePathRoundTrip | @idlebox/common/src/path/normalizePath.ts:129-152 | below the directory `from`, the text of the relative path names `to`; after the root it must have no slash of its own in front |
| Paths.ContainsExactly | @idlebox/common/src/path/pathCalc.ts:11-18 | equal paths are as told; otherwise a parent contains a child exactly if it is not the root and its segments are a proper prefix |
| Paths.AnalyzePath | @idlebox/common/src/path/normalizePath.ts:98-108 | the loop over a stack of segments yields the normal form |
| Paths.Relative | @idlebox/common/src/path/normalizePath.ts:136-151 | the search for the common prefix and the splices yield the relative path |
| Paths.Contains | @idlebox/common/src/path/pathCalc.ts:11-18 | the two comparisons of text decide containment of segments |
| Backoff.AcceptedExactly | @idlebox/common/src/algorithm/exponential-backoff.ts:57-60 | the constructor accepts exactly the settings whose delays are positive and grow past every maximum, and whose jitter neither shortens a delay nor more than doubles it |
| Backoff.DelaysMultiply | @idlebox/common/src/algorithm/exponential-backoff.ts:105-109 | without a random part the delays begin with the initial one and are multiplied, up to the maximum |
| Backoff.JitterAdds | @idlebox/common/src/algorithm/exponential-backoff.ts:111-115 | jitter adds to that in proportion to the random value, up to the maximum |
| Backoff.Round | @idlebox/common/src/algorithm/exponential-backoff.ts:117 | rounding gives the nearest integer, of two the higher one |
| Backoff.NeverAboveMax | @idlebox/common/src/algorithm/exponential-backoff.ts:99-118 | no delay is negative or above `round(maxDelay)` |
| Backoff.NeverShrinksExactly | @idlebox/common/src/algorithm/exponential-backoff.ts:105-115 | before rounding no delay can be below the one before it, whatever the random values, exactly if the jitter is not above the growth or the second delay is the longest one already |
| Backoff.NeverShorter | @idlebox/common/src/algorithm/exponential-backoff.ts:105-117 | with such settings the rounded delays never get shorter |
| Backoff.EventuallyMax | @idlebox/common/src/algorithm/exponential-backoff.ts:105-117 | from a given attempt on every delay is `round(maxDelay)`, whatever the jitter |
| Backoff.JitterMayShorten | @idlebox/common/src/algorithm/exponential-backoff.ts:111-115 | with more jitter than growth a delay may be shorter than the one before |
| Backoff.ImmediateFirstRetryShifts | @idlebox/common/src/algorithm/exponential-backoff.ts:100-106 | an immediate first retry puts a zero before the same delays |
| Backoff.DelaysOfARun | @idlebox/common/src/algorithm/exponential-backoff.ts:86-97 | in any run of calls and resets, between two resets: the delays keep their bounds, end at the longest one, and with such settings never get shorter |
| Backoff.ExponentialBackoff.NextDelay | @idlebox/common/src/algorithm/exponential-backoff.ts:93-97 | `next` returns the delay for the calls since the last reset |

## Left out

- Jobs that return to Running, temporary error and success states, `restart` and stopping from outside: the concurrency bound is not claimed for them.
- Jobs that report success inside `_execute` and throw afterwards: such a job goes from success to error after its dependants may have started.
- The concurrency of a graph is fixed during a run: `changeConcurrency` after the start is not a step.
- `Pauser`, child processes, the five seconds that `stop` waits and what it sends to the jobs: process signals.
- The `DepGraph` library, `Emitter`, promises, timers and `setImmediate`: an order that lists every dependency first, the order of the listeners, and explicit steps. The errors of building a graph, for a repeated name, a missing dependency or a cycle, are not part of this model.
- The regular expressions for escape sequences, emoji and full-width characters: parameters of the segmenter; any segmenter that obeys the law will do.
- TextChunks.ChunkText: does not model the endless loop over a segment wider than the limit; `LoopEndsExactlyIfAllFit` says when there is one.
- TextChunks.BoxText: does not model that endless loop over a line either.
- The conflict between two parameters with a flag in common: the holder looks flags up in a map whose keys are the ids of parameters, so it is never found; only the tokens conflict.
- Numbers in ranges are integers, and the text of an id is modelled by its parts.
- Deep merge of arrays, strings, custom and special handlers, and a strategy for objects: outside the domain of the laws. The own properties of what is read from a prototype are not modelled.
- The field that names the file to extend has been taken from the data: the `object-path` library is not part of this model, and an `extends` value that is not a string is left out.
- JsonExtends.LoadInheritedJson: does not model the loop without end over a chain that repeats a file; `EndsExactlyIfChain` says when there is one.
- Paths of the kinds URL, UNC, Windows, CIFS and relative: only absolute POSIX paths are modelled.
- A negative `maxBufferSize`, with which the loop of `push` in drop mode never ends, and the passive data source with the iterator around both.
- What registered disposables do when a data source is disposed, and the answer to disposing twice.
- Adding and removing watched files, and the promise that a watcher's callback returns: the program does not wait for it.
- Code units are integers and texts sequences of them, without a bound of 16 bits; delays are real numbers, not floating point.
- The warnings the programs log, and the texts of their errors.
