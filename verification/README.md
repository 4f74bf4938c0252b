# CellProfiler core: analysis start-up, measurement merging, worker environment, pipeline v5 writer

This project is a Dafny model of three pieces of `cellprofiler_core`, each with proofs about its behaviour.

- **The analysis runner's planning and bookkeeping** (`analysis/_runner.py`).
  - *Statuses.* The four processing statuses are stored per image set under the image feature `ProcessingStatus`.
  - *Selection.* The runner picks the image sets in `[start, end]`.
  - *Overwrite.* It decides whether to overwrite earlier results: forced by aggregation, and by grouping when no status was ever stored.
  - *Group statuses.* It computes whether each group is done.
  - *Reset.* Every image set that must be (re)processed is set back to Unprocessed.
  - *Jobs.* The image sets are cut into jobs. A grouped run gets one job per group, groups ascending and members ordered by `(Group_Index, image number)`. An ungrouped run gets one singleton job per image set.
  - *Initial queue.* An ungrouped run queues only its first job, asking for the shared dictionaries, and holds the rest back until the first image set finishes.
  - *Merge.* A worker's measurements for a batch are merged into the runner's store, and the batch is marked Done.
  - *Completion.* The run ends when the Done count equals the number of image sets to process.
- **`find_worker_env`** (`analysis/__init__.py`). This builds a worker's environment. The package root goes onto `PYTHONPATH` unless it is already one of its components. The frozen-macOS interpreter paths are added. `CP_JDWP_PORT` is dropped. `AW_JDWP_PORT` is renamed to `CP_JDWP_PORT`, with the worker's index added to the port.
- **The version-5 pipeline writer `dump`** (`pipeline/io/_v5.py`). It writes:
  - the six header lines (banner, native version, the date revision computed from the package version, an empty git hash, the module count, and whether image plane details follow);
  - one block per module: a blank line, the module line with its eight attributes, then one line per setting;
  - optionally a blank line and the file list.

  The writer's partner is a reader (`PipelineV5Reader`) that parses these lines back. The round-trip lemma proves that it recovers the header fields and the modules exactly.

## Structure

| file | module | contents |
|---|---|---|
| wrappers.dfy | Wrappers | `Option`, `Result` |
| text.dfy | Text | `Split`/`Join` on a separator character (Python `str.split`/`str.join`), `IndexOf`, `Unlines` |
| decimal.dfy | Decimal | decimal digits, Python `int()` on text (`ParseInt`), `str()` of an int (`IntToString`) |
| seqs.dfy | Seqs | `Filter`, `Flatten`, `Count`, subsequences |
| sorting.dfy | Sorting | sorting distinct group numbers; sorting by `(index, value)` |
| measurement.dfy | Measurement | the measurement store: `(object, feature, image number) -> value` |
| analysis_status.dfy | AnalysisStatus | statuses, `SetStatus`, the completion test |
| job_planning.dfy | JobPlanning | selection, overwrite, group statuses, reset, jobs, dispatch |
| analysis_plan.dfy | AnalysisPlan | the start-up sequence composed end to end (`PlanAnalysis`) |
| measurement_merge.dfy | MeasurementMerge | `copy_recieved_measurements` and chains of merges |
| analysis_run.dfy | AnalysisRun | planned jobs + merges ⇒ the run completes |
| worker_env.dfy | WorkerEnv | `find_worker_env` |
| pipeline_v5.dfy | PipelineV5 | the version-5 writer |
| pipeline_v5_reader.dfy | PipelineV5Reader | a reader for the writer's lines and the round trip |

## Model

| member | source | states |
|---|---|---|
| AnalysisStatus.StatusNamesDistinct | cellprofiler_core/analysis/_runner.py:84-94 | the four status texts are pairwise distinct, so a stored text names exactly one status; the status list holds each of the four statuses exactly once |
| AnalysisStatus.SetStatus | cellprofiler_core/analysis/_runner.py:315-319 | after the writes, every listed image set has the given status; every other entry of the store and the image numbers are unchanged |
| AnalysisStatus.CompleteIffAllDone | cellprofiler_core/analysis/_runner.py:406-413 | the runner's test (the Done count equals the number of image sets) holds exactly when every image set to process is Done |
| JobPlanning.SelectImageSets | cellprofiler_core/analysis/_runner.py:260-267 | fails exactly when no end is given and the store has no image numbers; otherwise it returns an order-preserving subsequence of the stored image numbers holding exactly those in `[start, end]`, each with its stored multiplicity, where a missing end means the last stored image number |
| JobPlanning.EffectiveOverwrite | cellprofiler_core/analysis/_runner.py:273-278 | overwrite is in effect iff the caller asked for it, or the pipeline aggregates, or the run is grouped and no status feature is stored |
| JobPlanning.GroupStatuses | cellprofiler_core/analysis/_runner.py:280-291 | succeeds iff every stored image set has a group number, and otherwise names one that lacks it; the table has exactly the groups that occur; a group is Done iff all its image sets are Done, and Unprocessed otherwise |
| JobPlanning.DecideReset | cellprofiler_core/analysis/_runner.py:295-314 | an image set needs a reset iff overwrite is in effect, or it is not Done, or the run is grouped and its group's status is not Done |
| JobPlanning.ResetImageSets | cellprofiler_core/analysis/_runner.py:293-320 | the kept image sets are, in order, exactly those the reset rule selects, judged on the store as loaded; the store is the loaded one with exactly those set to Unprocessed |
| JobPlanning.OverwriteResetsAll | cellprofiler_core/analysis/_runner.py:295-319 | with overwrite in effect every image set to process is reset, in order |
| JobPlanning.MissingGrouping | cellprofiler_core/analysis/_runner.py:327-333 | no error iff every image set has an integer group number and group index; otherwise the error names the first image set, in order, whose grouping is missing |
| JobPlanning.GroupJob | cellprofiler_core/analysis/_runner.py:334-339 | a group's job holds exactly the image sets of that group, each as often as in the input, sorted by `(Group_Index, image number)` |
| JobPlanning.GroupedJobs | cellprofiler_core/analysis/_runner.py:324-340 | succeeds iff every image set is grouped, and otherwise fails with the first missing grouping; the result has one non-empty job per group, groups strictly ascending, each job exactly its group's image sets in index order, and all jobs together a permutation of the input |
| JobPlanning.JobsPartition | cellprofiler_core/analysis/_runner.py:334-340 | the grouped jobs, concatenated, are a permutation of the image sets to process |
| JobPlanning.JobsNotEmpty | cellprofiler_core/analysis/_runner.py:334-340 | every grouped job has at least one image set |
| JobPlanning.JobsInIndexOrder | cellprofiler_core/analysis/_runner.py:337-340 | within each grouped job, image sets are ordered by `(Group_Index, image number)` |
| JobPlanning.SingletonJobs | cellprofiler_core/analysis/_runner.py:341-345 | one job per image set, holding only that image set, in input order; the jobs concatenate back to the input |
| JobPlanning.StartDispatch | cellprofiler_core/analysis/_runner.py:350-362 | an ungrouped run with no jobs fails; otherwise an ungrouped run queues just the first job, asking for the shared dictionaries, and holds back the rest; a grouped run queues every job in order and holds nothing back |
| JobPlanning.EveryJobQueuedOnce | cellprofiler_core/analysis/_runner.py:394-402 | once the first image set has finished, every job has been queued exactly once and in order, and only the first job of an ungrouped run asked for the shared dictionaries |
| AnalysisPlan.BuildJobs | cellprofiler_core/analysis/_runner.py:324-345 | the jobs are always a permutation of the image sets to process; an ungrouped run never fails and gets singleton jobs in order; a grouped run succeeds iff every image set is grouped, with the grouped shape |
| AnalysisPlan.ResetRuleAgrees | cellprofiler_core/analysis/_runner.py:280-314 | the reset decision read through the computed group-status table equals the decision read from the store directly: overwrite, not Done, or (grouped) a group not all Done |
| AnalysisPlan.ResetAndSchedule | cellprofiler_core/analysis/_runner.py:293-362 | given the selected image sets, the overwrite flag and the runner's group table: on success the image sets are those needing a reset, the store has exactly those reset, and the jobs and queue are built from them; a grouping error names a stored image set without grouping; `NoImageSets` never arises here; an ungrouped run succeeds iff some image set needs a reset, and its only failure is `NoJobs`; a grouped run over a fully grouped store never fails |
| AnalysisPlan.PlanAnalysis | cellprofiler_core/analysis/_runner.py:260-362 | on success:<br>• the effective overwrite is as decided;<br>• the image sets are, in order, the selected ones that need a reset;<br>• the store has exactly those reset;<br>• the jobs and the initial queue are built from them.<br>On failure: `NoImageSets` occurs exactly when there is no end and the store is empty; a grouping error names a stored image set without grouping; `NoJobs` occurs only for an ungrouped run, and a run with neither groups nor aggregation fails only with `NoImageSets` or `NoJobs`. An ungrouped run with image sets to select succeeds iff some selected image set needs a reset. A grouped run over a fully grouped store never fails |
| MeasurementMerge.CopyValues | cellprofiler_core/analysis/_runner.py:490-494 | after copying, the feature holds the received value at every image number of the batch; every other entry is unchanged |
| MeasurementMerge.ChangedImageNumbers | cellprofiler_core/analysis/_runner.py:470-485 | exactly the batch's image numbers whose local value differs from the received one, in batch order |
| MeasurementMerge.CopyChangedOnly | cellprofiler_core/analysis/_runner.py:465-489 | writing only the changed image numbers leaves the same store as writing the whole batch |
| MeasurementMerge.CopyFeature | cellprofiler_core/analysis/_runner.py:461-494 | experiment features are never copied; every other received feature ends up as if copied for the whole batch, including the image features written only where they changed |
| MeasurementMerge.CopyReceivedMeasurements | cellprofiler_core/analysis/_runner.py:449-496 | the result keeps the image numbers. At each entry it holds Done for the batch's statuses, the received value for the batch's image numbers of every received non-experiment feature, and the local value everywhere else |
| MeasurementMerge.MergeMarksDone | cellprofiler_core/analysis/_runner.py:495-496 | after a merge every image set of the batch is Done, and every image set that was Done still is |
| MeasurementMerge.MergeChainDone | cellprofiler_core/analysis/_runner.py:370-377 | after any sequence of merges, an image set that was Done, or was in some merged batch, is Done |
| MeasurementMerge.RunCompletes | cellprofiler_core/analysis/_runner.py:406-413 | once every image set to process has been in some merged batch, the completion test holds |
| AnalysisRun.JobsCoverImageSets | cellprofiler_core/analysis/_runner.py:324-345 | every image set to process lies in some job |
| AnalysisRun.PlannedRunCompletes | cellprofiler_core/analysis/_runner.py:370-413 | if every job's measurements have come back and been merged, in any order, the completion test holds |
| WorkerEnv.FindWorkerEnv | cellprofiler_core/analysis/__init__.py:33-66 | fails exactly when `AW_JDWP_PORT` is set and is not an integer. On success:<br>• `PYTHONPATH` is the computed path;<br>• `AW_JDWP_PORT` is gone;<br>• `CP_JDWP_PORT` is present iff `AW_JDWP_PORT` was, and then holds the text of the port plus the index;<br>• every other variable is unchanged |
| WorkerEnv.WithPythonPath | cellprofiler_core/analysis/__init__.py:56-58 | the worker's `PYTHONPATH` is set, any inherited `CP_JDWP_PORT` is gone, `AW_JDWP_PORT` is kept as inherited, and every other variable is unchanged |
| WorkerEnv.RenamePort | cellprofiler_core/analysis/__init__.py:59-62 | `AW_JDWP_PORT` is gone, `CP_JDWP_PORT` holds the new port text, and `PYTHONPATH` and every other variable are unchanged |
| WorkerEnv.DebugPortOffset | cellprofiler_core/analysis/__init__.py:57-62 | the worker's `CP_JDWP_PORT` reads back as the inherited port plus the worker index |
| WorkerEnv.PythonPathAbsent | cellprofiler_core/analysis/__init__.py:47-56 | with no inherited `PYTHONPATH`, the worker's is the root followed by the frozen-build paths; with none of those, just the root |
| WorkerEnv.PythonPathPresent | cellprofiler_core/analysis/__init__.py:43-56 | when the root already is an inherited component, the new `PYTHONPATH` is the inherited value followed by the frozen-build paths; with no frozen-build paths it is unchanged |
| WorkerEnv.PythonPathAppended | cellprofiler_core/analysis/__init__.py:43-56 | otherwise the inherited value comes first, then one separator, the root and the frozen-build paths; with no frozen-build paths, just the root |
| WorkerEnv.PythonPathComponents | cellprofiler_core/analysis/__init__.py:42-56 | for a root and frozen-build paths without the path separator, the components of the new `PYTHONPATH` are the inherited components, then the root if it was missing, then the frozen-build paths |
| WorkerEnv.RootOnPythonPath | cellprofiler_core/analysis/__init__.py:42-56 | for a root and frozen-build paths without the path separator, the root is always a component of the worker's `PYTHONPATH` |
| WorkerEnv.PythonPathIdempotent | cellprofiler_core/analysis/__init__.py:42-56 | with no frozen-build paths and a root without the path separator, computing the path again from an environment that already holds it changes nothing, so the root is never added twice |
| WorkerEnv.RootWithSeparatorAppendedAgain | cellprofiler_core/analysis/__init__.py:43-56 | a root that contains the path separator never matches an inherited component, so it is appended after one more separator, followed by the frozen-build paths, on every call |
| WorkerEnv.FrozenPathsAppendedAgain | cellprofiler_core/analysis/__init__.py:42-56 | on a frozen build with separator-free paths, computing the path again from an environment that already holds it appends the frozen-build paths once more after one separator |
| WorkerEnv.WorkerEnvPythonPathStable | cellprofiler_core/analysis/__init__.py:33-66 | with no frozen-build paths and a root without the path separator, running the whole construction on a worker's environment succeeds and leaves its `PYTHONPATH` as it was |
| Text.Split | cellprofiler_core/analysis/__init__.py:45 | `str.split` with one separator: at least one piece, and no piece holds the separator |
| Text.JoinSplit | cellprofiler_core/analysis/__init__.py:45 | joining the pieces of a split with the same separator gives the string back |
| Text.SplitJoin | cellprofiler_core/analysis/__init__.py:56 | splitting a join of separator-free parts gives the parts back |
| Text.SplitAround | cellprofiler_core/analysis/__init__.py:45 | the pieces of `a + sep + b` are the pieces of `a` followed by the pieces of `b` |
| Decimal.ParseIntOfString | cellprofiler_core/analysis/__init__.py:60 | `int(str(n)) == n` for every integer n |
| PipelineV5.Dump | cellprofiler_core/pipeline/io/_v5.py:8-51 | fails exactly when the lines cannot be built, that is when the version string does not reduce to an integer |
| PipelineV5.DumpLines | cellprofiler_core/pipeline/io/_v5.py:8-51 | fails exactly when the version string does not reduce to an integer, and then names that version |
| PipelineV5.EmptyFileListWritesNoDetails | cellprofiler_core/pipeline/io/_v5.py:9-20 | with an empty file list, asking for image plane details writes exactly what not asking does, and the header says `HasImagePlaneDetails:False` |
| PipelineV5.HeaderLayout | cellprofiler_core/pipeline/io/_v5.py:15-20 | the first six lines are: the banner, `Version:` with the native version, `DateRevision:` with the date revision, `GitHash:` (empty), `ModuleCount:` with the module count, and `HasImagePlaneDetails:` True iff details were asked for and the file list is non-empty |
| PipelineV5.SettingLines | cellprofiler_core/pipeline/io/_v5.py:45-46 | one indented `text:value` line per setting, in order |
| PipelineV5.ModuleBlocksLength | cellprofiler_core/pipeline/io/_v5.py:33-46 | a count only: the blocks take two lines per module plus one per setting |
| PipelineV5.ModuleBlockAt | cellprofiler_core/pipeline/io/_v5.py:33-46 | the `k`-th module's block starts after the blocks of the modules before it and holds a blank line, that module's line, then its setting lines in order |
| PipelineV5.StripVersion | cellprofiler_core/pipeline/io/_v5.py:12 | the stripped version is no longer than the original and holds no dot |
| PipelineV5.StripVersionRemovesDots | cellprofiler_core/pipeline/io/_v5.py:12 | a version in which no `rc` is followed by a digit loses exactly its dots, and nothing else changes |
| PipelineV5.ReleaseDateRevision | cellprofiler_core/pipeline/io/_v5.py:12 | a version made of digits and dots has the date revision its digits spell |
| PipelineV5.DateRevisionExample | cellprofiler_core/pipeline/io/_v5.py:12 | version `4.0.3` has date revision 403 |
| PipelineV5.ReleaseCandidateTag | cellprofiler_core/pipeline/io/_v5.py:12 | `rc` followed by a digit is removed together with that digit, and nothing else around it changes |
| PipelineV5.ReleaseCandidateSecondDigit | cellprofiler_core/pipeline/io/_v5.py:12 | only one digit goes with `rc`: a second digit after the tag stays in the revision (so `rc12` leaves `2`) |
| PipelineV5Reader.AttributesRoundTrip | cellprofiler_core/pipeline/io/_v5.py:36-43 | the `|`-joined attribute fields read back as the same attributes, provided no repr contains `|` |
| PipelineV5Reader.ModuleHeaderRoundTrip | cellprofiler_core/pipeline/io/_v5.py:43 | a module line reads back as the module's name and attributes |
| PipelineV5Reader.SettingLineRoundTrip | cellprofiler_core/pipeline/io/_v5.py:46 | a setting line reads back as the same setting when its label has no colon |
| PipelineV5Reader.SettingLinesRoundTrip | cellprofiler_core/pipeline/io/_v5.py:45-46 | all of a module's setting lines read back as its settings, in order |
| PipelineV5Reader.BlocksRoundTrip | cellprofiler_core/pipeline/io/_v5.py:33-49 | the module blocks, with or without the blank line before the file list, read back as the same modules, and the reader reports whether that blank line is present |
| PipelineV5Reader.HeaderRoundTrip | cellprofiler_core/pipeline/io/_v5.py:15-20 | the six header lines read back as the native version, date revision, empty git hash, module count and details flag written |
| PipelineV5Reader.DumpRoundTrip | cellprofiler_core/pipeline/io/_v5.py:8-51 | reading the written lines gives back:<br>• the native version;<br>• the date revision;<br>• an empty git hash;<br>• a module count equal to the number of modules;<br>• exactly the pipeline's modules;<br>• the details flag, which is true iff details were asked for and the file list is non-empty, in which case the file list follows |
| PipelineV5Reader.DumpTextLines | cellprofiler_core/pipeline/io/_v5.py:15-49 | without image plane details, splitting the written text on newlines gives the lines followed by one empty piece: every line ends with a newline |
| PipelineV5Reader.DumpWithDetails | cellprofiler_core/pipeline/io/_v5.py:8-51 | with image plane details, the text is the lines, each ending in a newline, followed by the file list's text; the lines split back out of their part, they number the six header lines, the module blocks and one more, and that last line is the blank line before the file list |

## Left out

- Threads, queues, events, ZMQ workers, the deadman switches and cancellation. The runner's loop is modelled by its effect: merges applied in arrival order (`MergeChain`), and the first finished image set releasing the held-back jobs (`ImageSetFinished`).
- The `InProcess` and `FinishedWaitingMeasurements` status writes (lines 380-393) are left out. The writes themselves are unconditional. `MergeChainDone`, `RunCompletes` and `PlannedRunCompletes` assume the message order that keeps them off Done image sets: the jobserver queues a job's in-process notice (line 566) before it can take that job's `ImageSetSuccess` (line 631), and a worker waits for the `Ack` (line 403) before it sends measurements. A race between the drains at lines 381 and 389 that moved a Done image set back to `InProcess` is outside the model.
- `copy_relationships` (line 460) is left out: relationship tables are not part of the measurement store modelled here.
- Values are compared per image number with `!=`. The numpy element-wise array comparison, which is needed when one image holds an array of per-object values, is left out.
- Whether the store has groups (`has_groups`) and whether the pipeline requires aggregation are parameters, because the Measurements and Pipeline classes are not part of this model.
- PlanAnalysis: a missing or non-integer `Group_Number` or `Group_Index` becomes an error (`MissingGroupNumber`/`MissingGroupIndex`). The source would use whatever the store returns, and that behaviour is not part of this model.
- PlanAnalysis: an empty store with no end, and an ungrouped run with nothing to process, are errors (`NoImageSets`, `NoJobs`). In the source they are the `IndexError`s at `[-1]` and `job_groups[0]`.
- ResetImageSets: requires that every image set of a grouped run has a known group in the status table. The source's caller guarantees this, and `ResetRuleAgrees` proves it for the table `GroupStatuses` computes.
- find_worker_env: the package root directory, `os.pathsep` and the frozen-macOS `sys.path` entries are parameters. They come from the interpreter and the file system.
- RootOnPythonPath: holds only for a root without the path separator. A root containing it is never equal to a piece of `split`, so `RootWithSeparatorAppendedAgain` shows it is appended again on every call.
- PythonPathIdempotent: holds only for a root without the path separator and with no frozen-build paths. A root containing the separator grows `PYTHONPATH` on every call (`RootWithSeparatorAppendedAgain`), and a frozen macOS build appends its `sys.path` entries again on every call (`FrozenPathsAppendedAgain`).
- WorkerEnvPythonPathStable: holds only with no frozen-build paths and a root without the path separator, for the reasons given for `PythonPathIdempotent`.
- FindWorkerEnv: environment values are strings, so the closing loop (lines 63-65) is the identity and is omitted.
- ParseInt models Python `int()` on text as: strip whitespace, optional sign, ASCII digits. Underscore separators and non-ASCII digits are not modelled. The version's `rc\d` tag is likewise recognised with an ASCII digit only.
- The package version, `NATIVE_VERSION` and the text `write_file_list` produces are parameters. Module attribute reprs and setting values are opaque strings, because `repr` and the settings classes are not part of this model.
- DumpLines: the function's own contract states only when it fails. The content of the output is stated by `HeaderLayout`, `ModuleBlockAt`, `DumpRoundTrip`, `DumpTextLines` and `DumpWithDetails`.
- Dump: the function's own contract states only when it fails. Its text is stated by `DumpTextLines` without image plane details and by `DumpWithDetails` with them.
- DumpRoundTrip: proved for modules whose names and setting labels contain no colon and whose reprs contain no `|`. The reader needs these separators to be unambiguous. The writer itself accepts any text.
- The date revision strips `rc` followed by exactly one digit, as the regular expression `\.|rc\d` does. It does not strip `rc` followed by all its digits: `4.1.0rc12` gives `4102`.
