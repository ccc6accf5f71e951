# Loom render helpers, modelled in Dafny

Loom is a Blender add-on for rendering image sequences. This project models
the parts of `loom.py` that decide which frames are rendered and where they
are written, and proves what they promise:

- **Frame specification** (`frame_spec.dfy`, `frame_props.dfy`).
  `filter_frames` turns text such as `1-10x2, ^5, 20-15` into a sorted,
  duplicate-free frame list. It has two layers, a tokenizer for the add-on's
  three patterns and an evaluator loop with its `frame_list`, `exclude_list`,
  `conform_list` and `conform_flag`. Two exclusion modes are modelled:
  global propagation of the first exclude marker, and isolate mode.
- **Ranges** (`ranges.dfy`). `rangify_frames` prints a frame list compactly
  and is proved to parse back. `missing_frames` (both forms) and the
  extension of the gaps to the scene's frame range are also modelled.
- **Sequence index** (`sequence_index.dfy`). A directory listing is scanned
  for the files `name####.ext` of one sequence, giving a map from frame
  number to path. The gap filler then plans which existing image is copied
  to every missing frame.
- **Paths** (`paths.dfy`). This covers:
  - the version tags of `version_number` and `remove_version`;
  - `number_suffix` and the next snapshot counter;
  - the renderer's `file_extension`, `safe_filename` and `format_frame`.
- **Render scheduler** (`scheduler.dfy`). `LOOM_OT_render_image_sequence` is
  a class with one method per event:
  - `execute`;
  - the modal timer tick;
  - `pre_render`, `post_render` and `cancel_render`.

  It also keeps `frame_repath`, `reset_output_paths`, `start_render`,
  `log_sequence` and the silent render loop. Its invariant ties the queue
  to the frame list the run started with. It also ties every output node
  to the record taken before rendering, so the paths are restored on every
  exit.
- **Batch list** (`batch.dfy`). This covers the up/down/remove/add actions
  of the batch dialog and the duplicate finder and remover of
  `LOOM_OT_batch_remove_doubles`.

`text.dfy` holds the string and number helpers the Python code takes from
its standard library (`str.zfill`, `os.path.split`, `os.path.splitext`,
`str.split`, `str.rstrip`, ...). `wrappers.dfy` holds `Option`.

The file system, the renderer, the clock and the user's global variables
are parameters:

- The set of existing files is the `files` parameter.
- A directory listing is a sequence of names.
- `replace_globals`, `bpy.path.abspath` and `os.path.realpath` are
  functions passed in.
- The time stamp of a log entry is a string passed in.

## Model

| member | source | states |
|---|---|---|
| FrameSpec.FirstExcluded | loom.py:105 | the index of the first item carrying a `^`/`!` marker, with no marked item before it; `None` exactly when no item is marked |
| FrameSpec.PropagateEffect | loom.py:103-109 | global mode with a first marker at index i > 0 marks every item from i on and keeps the others; a marker at index 0, no marker, or isolate mode leave the items as they are; bodies never change |
| FrameSpec.MatchAt | loom.py:68-83 | a match of the numeric pattern at the head of the text is never empty and stays inside the text |
| FrameSpec.Arange | loom.py:136 | `arange(start, end, step)` is empty exactly when `start >= end`, starts at `start`, and its last value lies within one step below `end` |
| FrameSpec.ArangeAt | loom.py:136 | the k-th value of `arange` is `start + k * step` |
| FrameSpec.SpanValues | loom.py:131-150 | a proper range yields values exactly when its step is positive; otherwise the source raises |
| FrameSpec.StepRaises | loom.py:133-140 | a range `A-B` with A != B and a non-positive step (given or inherited from the frame step) makes the evaluator raise |
| FrameSpec.StepPoint | loom.py:152-156 | a range `A-A` adds only A, to the frames or to the exclusions by its marker, and leaves the isolate flag alone |
| FrameSpec.Without | loom.py:159-160 | holds exactly the values of the first list that are not in the second |
| FrameSpec.SortedUnique | loom.py:160 | `sorted(set(xs))`: strictly increasing, with the same members as `xs` |
| FrameSpec.EvaluateItem | loom.py:115-156 | one pass of the evaluator loop on the four accumulators agrees with the item's effect `StepItem`, including raising on a non-positive step |
| FrameSpec.FilterFrames | loom.py:54-164 | the loop computes `Evaluate`; it returns no match exactly when the tokenizer finds no item; a frame result is strictly increasing |
| FrameProps.ArangeMember | loom.py:136 | v is produced by `arange(lo, hi, step)` exactly when `lo <= v < hi` and v is on the step grid from lo |
| FrameProps.ArangeLast | loom.py:136-145 | the last value of `arange` is the largest grid value below `hi`, so `hi` lies at most one step beyond it |
| FrameProps.SpanGrid | loom.py:131-150 | for steps up to 100000, a range yields exactly the grid values from its low end up to and including its high end |
| FrameProps.SpanOvershoot | loom.py:140-145 | `0-100000x100001` yields 0 and 100000, although 100000 is not on the step grid |
| FrameProps.ExactSpanValues | loom.py:131-150 | the corrected range appends its end only when that end is exactly one step past the last value; it is defined exactly for positive steps |
| FrameProps.ExactSpanGrid | loom.py:131-150 | for every positive step, the corrected range is exactly the grid from `lo` up to and including `hi` |
| FrameProps.SpanAgrees | loom.py:140-150 | up to a step of 100000 the source's closeness test and the exact test give the same range |
| FrameProps.FoldEffect | loom.py:112-156 | the loop raises exactly when some item has a non-positive step; otherwise the frames gain what unmarked items yield, the exclusions gain what marked items yield, the isolate flag is raised by a marked single value or proper range, and the re-included list gains what later unmarked items yield |
| FrameProps.EvaluateRaises | loom.py:100-140 | `filter_frames` raises exactly when the text has items and one of them is a range with a non-positive step |
| FrameProps.EvaluateMembership | loom.py:100-164 | the result is strictly increasing; v is in it exactly when an unmarked item yields v and either no marked item yields v or, in isolate mode, an unmarked item after a marked one yields it again |
| FrameProps.GlobalPropagation | loom.py:104-109 | global mode, first marker at index i > 0: v is in the result exactly when an item before i yields it and no item from i on yields it |
| FrameProps.GlobalWithoutPropagation | loom.py:104-109 | global mode with no marker, or a marker on the first item: v is in the result exactly when an unmarked item yields it and no marked item does |
| FrameProps.IsolateMode | loom.py:112-160 | isolate mode: marked items exclude only their own frames, and an unmarked single value or proper range after a marked one brings its frames back |
| Ranges.RunLength | loom.py:1022 | the length of the leading run of consecutive integers, as `groupby` on `next(c) - x` cuts it |
| Ranges.RunText | loom.py:1023 | a run prints as non-empty text |
| Ranges.Rangify | loom.py:1020-1023 | the compact text is empty exactly when the list is empty |
| Ranges.TokenizeRangify | loom.py:1020-1023 | the tokenizer reads the compact text back as one unmarked item per run: a single value for a run of one, `a-b` otherwise |
| Ranges.FoldRuns | loom.py:1020-1023 | evaluating the run items with step 1 appends exactly the original frames, in order |
| Ranges.RangifyRoundTrip | loom.py:1020-1023 | for a strictly increasing list, parsing the compact text with increment 1 gives the list back in either mode, and no match for the empty list |
| Ranges.RangifyAtFrameStep | loom.py:1094-1096 | the compact text `3-5` read with a frame step of 2 gives only 3 and 5 |
| Ranges.MissingInTimeline | loom.py:1017-1018 | strictly increasing, and holds exactly the timeline frames that were not rendered |
| Ranges.MissingInSpan | loom.py:1675-1676 | the gaps within the observed span, strictly increasing |
| Ranges.MissingInSpanMembers | loom.py:1675-1676 | v is a gap exactly when it lies between the first and the last frame and is not a frame |
| Ranges.Sort | loom.py:3093 | `sorted`: ordered and a permutation of its input |
| Ranges.ExtendToScene | loom.py:3089-3093 | the gaps extended by the scene frames before the first and after the last frame, sorted |
| Ranges.SceneGaps | loom.py:3085-3093 | the extended gaps are strictly increasing and hold exactly the scene frames before the first frame, the inner gaps, and the scene frames after the last frame |
| SequenceIndex.SequencePattern | loom.py:3366-3377 | a sequence path is usable exactly when its stem contains `#`; its directory is then the resolved absolute directory of the path, its extension the path's extension, its name has no `#`, and the name length plus the hash count is the stem length |
| SequenceIndex.FrameOf | loom.py:3378-3382 | an accepted entry has exactly `hashes` digits after the name, and its frame is their value |
| SequenceIndex.RePath | loom.py:3354-3357 | `re_path` ends with the frame's file name, which starts with the name and ends with the extension |
| SequenceIndex.FileNameScanned | loom.py:3354-3357 | a file written under `re_path`'s name is read back by the scan as its own frame exactly when the frame is not negative and fits in the digit count |
| SequenceIndex.WideNotScanned | loom.py:3378-3382 | an entry with more digits than `#` is rejected |
| SequenceIndex.LastEntry | loom.py:3379-3382 | the last entry of the listing that stands for a frame, with no later one standing for it |
| SequenceIndex.ScanEntries | loom.py:3379-3382 | a frame is in the index exactly when some entry stands for it, and it maps to the path of the last such entry, because later entries overwrite earlier ones |
| SequenceIndex.FrameNumbers | loom.py:3389 | the sorted frame numbers: strictly increasing, exactly the keys of the index, one per key |
| SequenceIndex.ScanDirectory | loom.py:3379-3389 | the scan loop builds exactly the index `Scan` and the sorted key list `FrameNumbers` |
| SequenceIndex.MissingToRender | loom.py:1079-1089 | the detection cancels exactly when the scan found fewer than two frames; otherwise the frames to render are strictly increasing |
| SequenceIndex.MissingToRenderMeaning | loom.py:1074-1096 | no frames when the scan found fewer than two; otherwise the frames to render are exactly the scene frames without a file, and their compact text parses back to them |
| SequenceIndex.GapWalk | loom.py:3394-3401 | every planned copy comes from an existing image and fills a missing frame of the span; targets increase |
| SequenceIndex.Lead | loom.py:3404-3411 | every planned copy takes the given source image and fills a frame in the range; targets increase |
| SequenceIndex.GroupTargets | loom.py:3399 | `setdefault(...).append` groups the targets by source: a source has an entry exactly when it has a copy, and its list is its targets in plan order |
| SequenceIndex.PlanGapLoop | loom.py:3394-3401 | the loop over the span with `f_prev` builds exactly the grouping of the walk's copies |
| SequenceIndex.PlanLeadLoop | loom.py:3404-3411 | the scene-range loops append exactly the lead copies to the plan |
| SequenceIndex.FillGapPlan | loom.py:3388-3411 | the whole planner builds the grouping of `PlanPairs` |
| SequenceIndex.FillSequenceGaps | loom.py:3362-3411 | no plan when the stem has no `#` or when the scan of the resolved directory finds at most one frame; otherwise the planned copies per source image |
| SequenceIndex.GapWalkMembers | loom.py:3394-3401 | (s, t) is planned in the span exactly when t is missing and s is the latest existing frame before t |
| SequenceIndex.PlanMembers | loom.py:3394-3411 | (s, t) is planned exactly when t is an inner gap and s is the latest frame before it, or, with the scene range on, t is before the first frame and s is the first, or t is after the last frame and s is the last |
| SequenceIndex.PlanCovers | loom.py:3394-3411 | a frame gets a copy exactly when it has no image and lies inside the span, or inside the scene range when that option is on |
| SequenceIndex.PlanTargetsDistinct | loom.py:3394-3411 | no frame is planned twice |
| Paths.FirstTag | loom.py:169 | the position of the first `v` followed by a digit, with none before it, or -1 |
| Paths.Tag | loom.py:169-171 | the matched tag is `v` and its whole digit run |
| Paths.VersionNumberReadsBack | loom.py:167-196 | for every path and version number n >= 0, the versioned path carries version n as its first tag |
| Paths.RetagReadsBack | loom.py:169-173 | replacing an existing tag gives the new number as the first tag |
| Paths.RetagKeepsHead | loom.py:169-173 | re-tagging keeps the text before the first tag and puts `v` and the new number, padded to the old digit count, where the tag was; a number with fewer digits than the old tag keeps the tag's length |
| Paths.InsertedTag | loom.py:175-196 | without a tag, `_vNN_` goes before the `#` run (trailing `_` stripped), `_vNN` before a listed image extension, or `_vNN_` at the end, and the inserted tag is the first tag |
| Paths.RemoveVersionFails | loom.py:3504-3514 | `remove_version` raises exactly when the path's first tag occurs again later |
| Paths.RemoveVersionRepeatedTag | loom.py:3504-3514 | `comp_v01/comp_v01_` makes `remove_version` raise, while cutting at the first tag gives `comp_/comp_v01` |
| Paths.RemoveFirstVersionAgrees | loom.py:3504-3514 | the corrected removal agrees with the source wherever the source does not raise; the source raises only on tagged paths |
| Paths.RemoveAppendedVersion | loom.py:192-196 | removing an appended tag gives back the path without trailing `_` |
| Paths.RemoveInsertedVersion | loom.py:180-185 | removing a tag inserted before the `#` run gives back the path with the delimiters around the tag joined |
| Paths.NumberSuffix | loom.py:1944-1947 | the last digit run that ends at a word boundary, non-empty and all digits |
| Paths.NumberSuffixOfNumeral | loom.py:1944-1947 | a name ending in digits after a non-digit has exactly those digits as its suffix |
| Paths.MaxOf | loom.py:1997 | `max`: a member, and no member is larger |
| Paths.NextSnapshotSuffix | loom.py:1994-1998 | the next counter is at least two digits, above every existing number, and one more than one of them |
| Paths.FileExtensionDomain | loom.py:3683-3686 | `file_extension` succeeds exactly on the sixteen formats of the table; any other format raises |
| Paths.PlainExtension | loom.py:3683-3686 | every extension of the table is non-empty and has no `.` or `/` |
| Paths.TrailingHashes | loom.py:3748-3750 | the length of the `#` run at the end of the name |
| Paths.HashWidth | loom.py:3747-3750 | without `#` the padding stays; with a trailing `#` run it is that run's length; with `#` only elsewhere it is 4 |
| Paths.GuardDigit | loom.py:3751 | adds `_` exactly after a final digit and otherwise returns the name itself, so the result never ends in a digit |
| Paths.SafeFilename | loom.py:3742-3756 | the name never ends in a digit; a given name loses every `#`; no name gives the blend file's name with `_` and keeps the padding |
| Paths.SafeFilenameDropsExtension | loom.py:3743-3751 | a stem without `#` or `/` that does not end in `.`, followed by `.` and an extension of the table, loses that extension: the result is the stem with `_` after a final digit, and the padding stays |
| Paths.LowerCaseExtension | loom.py:3683-3686 | every extension of the table is written in lower case, so the lower-cased name test matches it |
| Paths.SafeFilenameHashes | loom.py:3746-3751 | a trailing run of k hashes sets the padding to k and leaves the stem, with `_` after a final digit |
| Paths.SafeFilenameNoHashes | loom.py:3742-3751 | a name without `#` keeps the padding |
| Paths.FormatFrameReadsBack | loom.py:3722-3729 | a written name splits into the padded frame and the extension, and `number_suffix` reads the frame back from it |
| Scheduler.AddOnce | loom.py:3810-3811 | the frame is present afterwards, nothing else is added, and a duplicate-free list stays duplicate-free |
| Scheduler.Repath | loom.py:3782-3798 | repathing keeps the number of nodes |
| Scheduler.RestoreRecovers | loom.py:3764-3768 | restoring a node from its record gives back the node as it was before rendering |
| Scheduler.RepathAgrees | loom.py:3782-3798 | a repathed node still agrees with its record |
| Scheduler.RepathTracks | loom.py:3782-3798 | repathing all nodes keeps every node in agreement with its record |
| Scheduler.RestoredTracks | loom.py:3762-3768 | the restored nodes agree with their records |
| Scheduler.RepathPaths | loom.py:3782-3798 | the node loop of `frame_repath` computes the repathed node |
| Scheduler.ResolveSlots | loom.py:3785-3790 | every slot path becomes the resolved recorded slot path |
| Scheduler.AssignSlots | loom.py:3767-3768 | every slot path becomes the recorded one |
| Scheduler.RecordAgrees | loom.py:3881-3892 | a node agrees with the record taken of it |
| Scheduler.Records | loom.py:3881-3892 | one record per output node |
| Scheduler.RecordsTrack | loom.py:3881-3892 | the records taken of the nodes agree with them |
| Scheduler.RecordNodes | loom.py:3881-3892 | the record loop succeeds exactly when every node's format has an extension, and its records agree with the nodes; otherwise it raises |
| Scheduler.SkipSetMember | loom.py:3801-3802 | a frame is skipped exactly when overwrite is off and its output file exists |
| Scheduler.Step | loom.py:3800-3811 | in silent mode a skipped frame takes the head off the queue, and a rendered one leaves the queue's length alone |
| Scheduler.Kept | loom.py:3803 | the skipped frames of a list, in order |
| Scheduler.SnapshotSkips | loom.py:3916-3921 | the corrected loop skips exactly the skippable frames in order, and the queue loses one head per skip |
| Scheduler.SnapshotRenders | loom.py:3916-3921 | the corrected loop renders exactly the frames that are not skipped, never twice |
| Scheduler.SilentLoopMissesFrame | loom.py:3916-3918 | with frames 1, 2, 3 and frame 1 skipped, the loop as written never visits frame 2 |
| Scheduler.SilentLoopWithoutSkips | loom.py:3916-3918 | without skips the loop as written and the corrected loop agree |
| Scheduler.SilentLoopSound | loom.py:3916-3918 | the loop as written renders only queued frames whose file is missing, skips only queued frames whose file exists, and renders no frame twice |
| Scheduler.SilentRunSound | loom.py:3916-3918 | from a fresh start, the loop as written renders and skips only queued frames, as their files say, and renders none twice |
| Scheduler.Trim | loom.py:3816-3818 | the corrected trim keeps the newest entries and leaves room for one more below the limit |
| Scheduler.TrimAgrees | loom.py:3816-3818 | the corrected trim agrees with the source whenever the log is not over its limit |
| Scheduler.TrimAsWrittenOverLimit | loom.py:3816-3818 | as written, a log of three entries with a limit of two grows to four |
| Scheduler.LoggedWithinLimit | loom.py:3816-3819 | a logged run keeps a log that was within its limit within it |
| Scheduler.SilentRunVisitsAll | loom.py:3916-3921 | the corrected silent run skips exactly the frames whose file exists, renders every other queued frame, and renders none twice |
| Scheduler.RenderImageSequence.constructor | loom.py:3688-3692 | the operator starts with empty frame lists, no saved nodes, not rendering and not stopped |
| Scheduler.RenderImageSequence.PreRender | loom.py:3698-3700 | sets the rendering flags |
| Scheduler.RenderImageSequence.PostRender | loom.py:3707-3710 | takes the head off the queue and clears the rendering flags; raises on an empty queue |
| Scheduler.RenderImageSequence.ResetOutputPaths | loom.py:3762-3768 | the render path and every output node are back to their values before rendering |
| Scheduler.RenderImageSequence.FrameRepath | loom.py:3770-3798 | sets the frame, points the render path at the frame's file, and repaths the nodes, keeping them in agreement with their records |
| Scheduler.RenderImageSequence.StartRender | loom.py:3800-3811 | with overwrite off and the file present, the frame is skipped and the queue loses its head; otherwise it is added once to the rendered frames |
| Scheduler.RenderImageSequence.CancelRender | loom.py:3702-3705 | sets stop, restores all paths, and drops the last rendered frame; raises when there is none |
| Scheduler.RenderImageSequence.Tick | loom.py:3936-3959 | finishes exactly on an empty queue or a stop, with all paths restored; while rendering it changes nothing; otherwise it repaths and starts the head frame |
| Scheduler.RenderImageSequence.VisitFrame | loom.py:3917-3918 | one visit of the silent loop is one `Step` |
| Scheduler.RenderImageSequence.RenderSilentAsWritten | loom.py:3916-3918 | the loop over the shrinking queue computes `SilentLoop` |
| Scheduler.RenderImageSequence.RenderSilent | loom.py:3916-3918 | the corrected loop over a copy of the queue computes `SnapshotLoop` |
| Scheduler.RenderImageSequence.LogSequence | loom.py:3813-3826 | raises exactly when the limit is 0 and the log is empty (removing from an empty collection); otherwise the oldest entry is dropped only when the log is exactly at the limit, then one entry is added with its number (the new length), time, first and last frame, name, path, padding and extension; a log within its limit stays within it |
| Scheduler.RenderImageSequence.Locate | loom.py:3865-3892 | raises on an unknown main or node format; cancels when the folder holds a global variable and the resolved folder does not exist after the attempt to create it; otherwise it records the output path, the extension, the resolved folder, the safe file name and padding of the path's file part, and one record per node |
| Scheduler.RenderImageSequence.LocateMain | loom.py:3865-3879 | the main output's part of `Locate`: its outcome, and on success the output path, extension, folder, safe file name and padding |
| Scheduler.RenderImageSequence.Prepare | loom.py:3854-3892 | raises on a bad step; cancels when no frame is left; otherwise it queues the non-empty frame list of `filter_frames` and locates the output as `Locate` does |
| Scheduler.RenderImageSequence.Begin | loom.py:3895-3905 | clears the frame lists and starts the run on the whole queue; raises exactly when logging is on with a zero limit and an empty log; otherwise the log gains the run's entry as `log_sequence` writes it |
| Scheduler.RenderImageSequence.RunSilent | loom.py:3908-3922 | renders the queue silently with the loop as written and leaves the render path and nodes as they were |
| Scheduler.RenderImageSequence.Launch | loom.py:3895-3934 | raises exactly when logging raises, leaving the scene alone; silent: finishes with the loop as written and the paths restored; otherwise it enters the modal loop with a full queue, not stopped and not rendering; the log gains the run's entry |
| Scheduler.RenderImageSequence.Proceed | loom.py:3908-3934 | silent: finishes with the loop as written and the paths restored; otherwise it enters the modal loop with a full queue, not stopped and not rendering |
| Scheduler.RenderImageSequence.Execute | loom.py:3849-3934 | raises on a bad step, an unknown format or a zero log limit on an empty log; cancels on no frames or on a resolved global folder that does not exist; in both cases the scene is unchanged; otherwise the queue is the `filter_frames` result, the output is located as `Locate` does, the paths are back as they were, the log gains the run's entry, and a silent run ends with the loop as written |
| Batch.Move | loom.py:2259-2267 | swapping two neighbouring entries keeps the length and the multiset and exchanges exactly those two entries |
| Batch.RemoveAt | loom.py:2269-2274 | removing an entry in range drops exactly that entry: the entries before it stay in place and the ones after it move up by one; out of range nothing changes |
| Batch.UpThenDown | loom.py:2259-2267 | moving the selected entry up and then down restores the list and the selection |
| Batch.DownThenUp | loom.py:2259-2267 | moving the selected entry down and then up restores the list and the selection |
| Batch.MoveKeepsSelection | loom.py:2259-2267 | a move keeps the entries and the selection still points at the moved entry |
| Batch.RemoveDropsSelected | loom.py:2269-2274 | remove drops exactly the selected entry, keeping the others in order, and the selection moves back by one, not below 0 |
| Batch.NegativeSelectionKeepsList | loom.py:2250-2274 | with a negative selection the list stays as it is; remove sets the selection to 0 and up and down leave it alone |
| Batch.BatchList.Invoke | loom.py:2250-2280 | the dialog action changes the list and the selection as `Apply` prescribes; a selection that cannot be looked up leaves both alone, except that `ADD` selects the end |
| Batch.Group | loom.py:2326-2328 | every path in the order has a group |
| Batch.GroupShape | loom.py:2326-2328 | the groups are exactly the paths in first-seen order, each once, and none is empty |
| Batch.GroupKeys | loom.py:2326-2328 | a path has a group exactly when some item has that path |
| Batch.DuplicatesAreLater | loom.py:2325-2333 | the duplicates found are, as a multiset, the names of the items whose path occurred earlier in the list |
| Batch.Find | loom.py:2343 | the first position holding the name, or -1 when none does |
| Batch.KeepFirstPaths | loom.py:2339-2345 | removing the later duplicates keeps every path |
| Batch.KeepFirstDistinct | loom.py:2339-2345 | after removing the later duplicates no path occurs twice |
| Batch.KeepFirstDropsLater | loom.py:2339-2345 | the names kept plus the duplicates found are the names of the list |
| Batch.RemoveByNameDropsWrongEntry | loom.py:2339-2345 | with two files of the same name, one listed twice, removal by name drops the unique entry and keeps both copies of the other |
| Batch.RemoveDoubles.FindDuplicates | loom.py:2325-2333 | appends the duplicates of the list to `doubles` and returns the new count |
| Batch.RemoveDoubles.GroupPaths | loom.py:2326-2328 | the `setdefault` loop builds exactly the grouping by path |
| Batch.RemoveDoubles.Invoke | loom.py:2354-2360 | clears `doubles`, finds the duplicates, and asks for confirmation exactly when there are any |
| Batch.RemoveDoubles.ExecuteAsWritten | loom.py:2339-2347 | removes, for each duplicate name, the first entry with that name, and selects the last entry |
| Batch.RemoveDoubles.Execute | loom.py:2339-2347 | the corrected removal keeps the first entry of every path, and selects the last entry |
| Text.PadIntValue | loom.py:3724-3726 | a frame padded to a width reads back as the frame and has the padded length |
| Text.SplitPath | loom.py:3866 | the file part has no `/` and ends the path |
| Text.SplitPathParts | loom.py:3866 | the file part is everything after the last `/`; the head is a prefix of the rest, only `/` lies between them, and a head ending in `/` is all slashes and unstripped |
| Text.SplitExt | loom.py:3369 | stem and extension concatenate to the name, and the extension is empty or starts with `.` |
| Text.SplitExtParts | loom.py:3369 | the extension has no `/` and no `.` after its first character, and a non-empty extension follows a stem part after the last `/` that is not all dots |
| Text.RStrip | loom.py:183-184 | strips exactly the trailing run of the character |
| Text.RemoveChar | loom.py:3377 | drops every occurrence of the character and nothing else |
| Text.RemoveCharCounts | loom.py:3377 | every other character occurs as often as before, and the removed one not at all |
| Text.RemoveCharAppend | loom.py:3377 | removal works piece by piece, so the remaining characters keep their order |
| Text.Count | loom.py:3376 | the count is zero exactly when the character is absent, and at most the length |
| Text.CountOccurrences | loom.py:3376 | the count is the number of occurrences of the character |

## Left out

- Sub-frames and floating-point frames are not modelled: `repr` splitting, `_dec`, `format_subframe`, `numpy.around` and the float branch of `filter_frames`. A `.` in the frame text is excluded by a precondition, so every value is an integer.
- FrameSpec.FilterFrames: requires the text to have no `.`, because only integer notation is modelled.
- Scheduler.RenderImageSequence.Execute: requires the frame text to have no `.`, for the same reason; Scheduler.RenderImageSequence.Prepare carries the same precondition.
- `numpy.isclose` is written exactly for integers (`100000·|a−b| <= |b|`). Its absolute tolerance of `1e-08` never matters between integers.
- Regular expressions are modelled by the scans they perform, with ASCII digits and ASCII case folding. The scan pattern interpolates the sequence name and extension unescaped; the model matches them literally.
- `replace_globals`, `bpy.path.abspath` and `os.path.realpath` are opaque functions passed in. They evaluate user expressions and read the file system.
- Creating the output directory (`loom.create_directory`) is not modelled. Neither are the render itself, the presets, `final_report`, the `report` messages, or timer and handler registration. Those are Blender calls; renderer events are methods the environment calls in any order.
- Scheduler.Repath: requires each node to have as many file slots as were recorded. Blender's File Output nodes cannot gain slots during a render, so the count is assumed unchanged.
- `_rendered_frames` and `_skipped_frames` are class attributes in the source, shared by every instance; `execute` clears both before a run, so the model keeps them as fields of the one operator instance.
- Scheduler.RenderImageSequence.ResetOutputPaths: restores only the nodes recorded by the current run. In the source `_output_nodes` is a class-level dictionary keyed by node that `execute` adds to and never clears, so nodes recorded by an earlier run (and since removed from the tree) are restored too; the model keeps one record per current node. Scheduler.RenderImageSequence.CancelRender, Scheduler.RenderImageSequence.Tick and Scheduler.RenderImageSequence.RunSilent restore through it and inherit this.
- Scheduler.RenderImageSequence.FrameRepath: repaths only the nodes recorded by the current run, for the same reason; the stale entries of earlier runs that the source's dictionary still holds are not modelled.
- Paths.VersionNumberReadsBack: requires a version number of at least 0. A negative number gives a tag like `v-1`, which is not a version tag.
- The file browser that the batch dialog's `ADD` opens is not modelled. Only the selection update of `ADD` is.
- Batch.Move: only moves between neighbouring positions are modelled, the only moves the dialog makes. Out of range, Blender's collection `move` and `remove` raise `KeyError` and leave the collection as it was; the model returns the list unchanged and does not model the exception.
- Batch.RemoveAt: out of range it returns the list unchanged instead of raising, for the same reason.
- Batch.BatchList.Invoke: a negative selection passes the source's `IndexError` guard (Blender collections accept negative indices), and the `move` or `remove` that follows raises; the model keeps the list and the selection the source has set by then (Batch.NegativeSelectionKeepsList) and does not model the exception.
- `LOOM_OT_batch_remove_doubles.doubles` is a class attribute shared across invocations. The model keeps it as a field of one instance, which `invoke` clears as the source does.
- The reports (`removed_items`, `set(...)` in messages) are not modelled, because they only produce text.

## Findings

| source | as written | input that shows it | evidently intended | confidence | as-written member | corrected member |
|---|---|---|---|---|---|---|
| loom.py:140-145 | `isclose(step, end - frame_range[-1])` appends the range's end whenever it is within the relative tolerance of one step | `0-100000x100001` yields frames 0 and 100000; 100000 is not on the step grid | append the end only when it lies exactly one step past the last generated frame | not executed | FrameProps.SpanOvershoot | FrameProps.ExactSpanValues |
| loom.py:3507 | `head, tail = fpath.split(match.group(0))` splits at every occurrence of the tag | `comp_v01/comp_v01_` splits into three pieces, so unpacking raises `ValueError` | cut at the first tag only (`split(tag, 1)`), giving `comp_/comp_v01` | not executed | Paths.RemoveVersionRepeatedTag | Paths.RemoveFirstVersion |
| loom.py:3916-3918 | the silent loop iterates `self._frames` while a skipped frame's `post_render` pops its head | frames 1, 2, 3 with frame 1's file present: frame 2 is never visited, rendered or skipped | visit every queued frame (iterate over a copy) | not executed | Scheduler.RenderImageSequence.RenderSilentAsWritten | Scheduler.RenderImageSequence.RenderSilent |
| loom.py:3816-3817 | the oldest log entry is removed only when the count is exactly at the limit | a log of 3 entries after the limit is lowered to 2 grows to 4 | drop the oldest entries until the log is below the limit | not executed | Scheduler.TrimAsWrittenOverLimit | Scheduler.Trim |
| loom.py:1094-1096 | the detected missing frames are written into the frame input with `rangify_frames`, which `execute` then reads with the scene's frame step (loom.py:3855) | with a frame step of 2 and frames 3, 4 and 5 missing, the text `3-5` renders only 3 and 5 | the frame input reads back as exactly the detected frames (an explicit `x1`, or reading it with increment 1) | not executed | Ranges.RangifyAtFrameStep | Ranges.RangifyRoundTrip |
| loom.py:2339-2347 | each duplicate is removed by `find(name)`, the first item with that name, although duplicates are found by path | items `(n, a)`, `(n, b)`, `(n, b)`: the unique `(n, a)` is removed and both `(n, b)` stay | remove the later items of each path | not executed | Batch.RemoveDoubles.ExecuteAsWritten | Batch.RemoveDoubles.Execute |

The corrected members carry the proofs of the intended behaviour:

- Range: FrameProps.ExactSpanGrid (the corrected range is exactly the grid up to and including the end) and FrameProps.SpanAgrees (it agrees with the source up to a step of 100000).
- Version removal: Paths.RemoveFirstVersionAgrees. Cutting at the first tag only is the repair because the two-name unpacking expects exactly one head and one tail, and the tag it cuts at is the first match of `re.search`, the one `version_number` re-tags; later copies of the tag are part of the tail.
- Missing frames: Ranges.RangifyAtFrameStep exhibits the lost frame; Ranges.RangifyRoundTrip proves that with increment 1 the text reads back as the list, which SequenceIndex.MissingToRenderMeaning uses.
- Silent loop:
  - Scheduler.SilentLoopMissesFrame exhibits the missed frame.
  - Scheduler.SilentRunVisitsAll proves the corrected loop visits every frame.
- Log: Scheduler.RenderImageSequence.LogSequence follows the source as written (it trims once, at the limit), and Scheduler.TrimAsWrittenOverLimit exhibits the growing log. The corrected Scheduler.Trim keeps the newest entries below the limit, and Scheduler.TrimAgrees proves that it agrees with the source whenever the log is not over its limit, which Scheduler.LoggedWithinLimit shows a run preserves.
- Duplicate removal:
  - Batch.RemoveByNameDropsWrongEntry exhibits the input.
  - Batch.KeepFirstPaths, Batch.KeepFirstDistinct and Batch.KeepFirstDropsLater prove the corrected removal.
