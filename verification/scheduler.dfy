/*
  The image-sequence render operator. It turns the user's frame text into a
  queue, points the scene's output paths (the render output and every File
  Output node) at one frame after another, renders or skips each frame, and
  puts the paths back when it is done. Blender calls it on four kinds of
  events: the timer tick of the modal loop and the three render handlers
  (before a render, after a render, render cancelled).
*/
module Scheduler {
  import opened Wrappers
  import opened Text
  import FrameSpec
  import Paths

  /** A File Output node of the compositor: its base path, its image format and the path of each file slot. */
  datatype OutputNode = OutputNode(basePath: string, fileFormat: string, slots: seq<string>)

  /**
    What the operator records about an output node before rendering: its
    format and the format's extension, the base path as it was, the folder
    and file name the base path resolves to, and the slot paths unless the
    format is a multilayer one (whose slots are layers of one file).
   */
  datatype SavedNode = SavedNode(fileFormat: string, extension: string, basePath: string,
                                 folder: string, filename: string, slots: Option<seq<string>>)

  /** One entry of the render log the scene keeps for playback. */
  datatype LogEntry = LogEntry(renderId: nat, startTime: string, startFrame: string, endFrame: string,
                               name: string, filePath: string, paddedZeros: nat, imageFormat: string)

  /** What an operator call returns to Blender; `Raised` stands for a Python exception. */
  datatype Status = Finished | Cancelled | RunningModal | PassThrough | Raised

  /** Where the render output of a frame goes: the folder, the file name, the padding and the extension. */
  datatype Target = Target(folder: string, filename: string, digits: nat, extension: string) {
    /** The path `frame_repath` gives the render output for `frame`. */
    function Path(resolve: string -> string, frame: int): string {
      JoinPath(folder, Paths.FormatFrame(resolve, filename, frame, digits, extension))
    }
  }

  /** The frame lists of the operator: still queued, rendered, skipped. */
  datatype Progress = Progress(frames: seq<int>, rendered: seq<int>, skipped: seq<int>)

  /** The scene the operator works on, reduced to the fields it reads and writes. */
  class Scene {
    var filepath: string        // render.filepath
    var fileFormat: string      // render.image_settings.file_format
    var useOverwrite: bool      // render.use_overwrite
    var frameStep: int
    var frameCurrent: int
    var isRendering: bool       // loom.is_rendering
    var nodes: seq<OutputNode>  // the File Output nodes of the compositing tree
    var log: seq<LogEntry>      // loom.render_collection
  }

  predicate NoDuplicates(s: seq<int>) {
    forall i, j :: 0 <= i < j < |s| ==> s[i] != s[j]
  }

  /** Append `f` unless it is already there (`if frame not in rendered: rendered.append(frame)`). */
  function AddOnce(s: seq<int>, f: int): (r: seq<int>)
    ensures f in r
    ensures forall x :: x in r <==> x in s || x == f
    ensures NoDuplicates(s) ==> NoDuplicates(r)
  {
    if f in s then s else s + [f]
  }

  /** A multilayer format keeps its slots as layers; every other format writes one file per slot. */
  predicate HasFileSlots(fileFormat: string) {
    !Contains(fileFormat, "LAYER")
  }

  /** The record made for one output node, given its format's extension. */
  function Record(node: OutputNode, extension: string, abspath: string -> string,
                  realpath: string -> string): SavedNode
  {
    var (folder, filename) := SplitPath(abspath(node.basePath));
    SavedNode(node.fileFormat, extension, node.basePath, realpath(folder), filename,
              if HasFileSlots(node.fileFormat) then Some(node.slots) else None)
  }

  /**
    A node during rendering still agrees with the node `o` recorded at start:
    same format, same number of slots, the record holds `o`'s base path and
    (for file slots) its slot paths, and the slots of a multilayer node were
    not touched.
   */
  predicate Agrees(n: OutputNode, s: SavedNode, o: OutputNode) {
    && n.fileFormat == o.fileFormat
    && |n.slots| == |o.slots|
    && s.basePath == o.basePath
    && s.slots == (if HasFileSlots(o.fileFormat) then Some(o.slots) else None)
    && (s.slots.None? ==> n.slots == o.slots)
  }

  predicate Tracks(nodes: seq<OutputNode>, saved: seq<SavedNode>, original: seq<OutputNode>) {
    && |nodes| == |saved| == |original|
    && forall i :: 0 <= i < |nodes| ==> Agrees(nodes[i], saved[i], original[i])
  }

  /** `reset_output_paths` for one node: the recorded base path and, for file slots, the recorded slot paths. */
  function RestoreNode(n: OutputNode, s: SavedNode): OutputNode {
    OutputNode(s.basePath, n.fileFormat, if s.slots.Some? then s.slots.value else n.slots)
  }

  /** `frame_repath` for one node. */
  function RepathNode(n: OutputNode, s: SavedNode, resolve: string -> string): OutputNode
    requires SlotsFit(n, s)
  {
    if s.slots.Some? then
      OutputNode(resolve(n.basePath), n.fileFormat, seq(|n.slots|, c requires 0 <= c < |n.slots| => resolve(s.slots.value[c])))
    else OutputNode(JoinPath(resolve(s.folder), resolve(s.filename)), n.fileFormat, n.slots)
  }

  /** A node has as many slots as its record (the slot loops index the record by the node's slots). */
  predicate SlotsFit(n: OutputNode, s: SavedNode) {
    s.slots.Some? ==> |s.slots.value| == |n.slots|
  }

  function Repath(nodes: seq<OutputNode>, saved: seq<SavedNode>, resolve: string -> string): (r: seq<OutputNode>)
    requires |nodes| == |saved| && forall i :: 0 <= i < |nodes| ==> SlotsFit(nodes[i], saved[i])
    ensures |r| == |nodes|
  {
    seq(|nodes|, i requires 0 <= i < |nodes| => RepathNode(nodes[i], saved[i], resolve))
  }

  /** Restoring a node that still agrees with its record gives back the node as it was at start. */
  lemma RestoreRecovers(n: OutputNode, s: SavedNode, o: OutputNode)
    requires Agrees(n, s, o)
    ensures RestoreNode(n, s) == o
  {
  }

  /** Repathing a node keeps it in agreement with its record. */
  lemma RepathAgrees(n: OutputNode, s: SavedNode, o: OutputNode, resolve: string -> string)
    requires Agrees(n, s, o)
    ensures Agrees(RepathNode(n, s, resolve), s, o)
  {
  }

  /** Repathing every node keeps the nodes in agreement with their records. */
  lemma RepathTracks(nodes: seq<OutputNode>, saved: seq<SavedNode>, original: seq<OutputNode>,
                     resolve: string -> string)
    requires Tracks(nodes, saved, original)
    ensures Tracks(Repath(nodes, saved, resolve), saved, original)
  {
    forall i | 0 <= i < |nodes| ensures Agrees(Repath(nodes, saved, resolve)[i], saved[i], original[i]) {
      RepathAgrees(nodes[i], saved[i], original[i], resolve);
    }
  }

  /** Once the nodes are back as they were, they still agree with their records. */
  lemma RestoredTracks(nodes: seq<OutputNode>, saved: seq<SavedNode>, original: seq<OutputNode>)
    requires Tracks(nodes, saved, original)
    ensures Tracks(original, saved, original)
  {
  }

  /** `frame_repath` for one node, with the slot loop of the source. */
  method RepathPaths(node: OutputNode, s: SavedNode, resolve: string -> string) returns (next: OutputNode)
    requires SlotsFit(node, s)
    ensures next == RepathNode(node, s, resolve)
  {
    if s.slots.Some? {
      var slots := ResolveSlots(node.slots, s.slots.value, resolve);
      next := OutputNode(resolve(node.basePath), node.fileFormat, slots);
    } else {
      next := OutputNode(JoinPath(resolve(s.folder), resolve(s.filename)), node.fileFormat, node.slots);
    }
  }

  /** A node agrees with its own record. */
  lemma RecordAgrees(o: OutputNode, extension: string, abspath: string -> string, realpath: string -> string)
    ensures Agrees(o, Record(o, extension, abspath, realpath), o)
  {
  }

  /** Every output node's format is in the table of image formats. */
  predicate KnownFormats(nodes: seq<OutputNode>) {
    forall m :: 0 <= m < |nodes| ==> Paths.FileExtension(nodes[m].fileFormat).Some?
  }

  /** The records of all output nodes, each with its format's extension. */
  function Records(nodes: seq<OutputNode>, abspath: string -> string, realpath: string -> string): (r: seq<SavedNode>)
    requires KnownFormats(nodes)
    ensures |r| == |nodes|
  {
    seq(|nodes|, m requires 0 <= m < |nodes| =>
      Record(nodes[m], Paths.FileExtension(nodes[m].fileFormat).value, abspath, realpath))
  }

  /** Every node agrees with its own record. */
  lemma RecordsTrack(nodes: seq<OutputNode>, abspath: string -> string, realpath: string -> string)
    requires KnownFormats(nodes)
    ensures Tracks(nodes, Records(nodes, abspath, realpath), nodes)
  {
    var saved := Records(nodes, abspath, realpath);
    forall i | 0 <= i < |nodes| ensures Agrees(nodes[i], saved[i], nodes[i]) {
      RecordAgrees(nodes[i], Paths.FileExtension(nodes[i].fileFormat).value, abspath, realpath);
    }
  }

  /** One more node known, one more record. */
  lemma RecordsGrow(nodes: seq<OutputNode>, k: nat, extension: string, abspath: string -> string,
                    realpath: string -> string)
    requires k < |nodes| && KnownFormats(nodes[..k]) && Paths.FileExtension(nodes[k].fileFormat) == Some(extension)
    ensures KnownFormats(nodes[..k + 1])
    ensures Records(nodes[..k + 1], abspath, realpath)
            == Records(nodes[..k], abspath, realpath) + [Record(nodes[k], extension, abspath, realpath)]
  {
    assert forall m :: 0 <= m < k ==> nodes[..k + 1][m] == nodes[..k][m];
  }

  /**
    The loop of `execute` over the output nodes: one record per node, or a
    `KeyError` (`None`) at the first node whose format has no extension.
   */
  method RecordNodes(nodes: seq<OutputNode>, abspath: string -> string, realpath: string -> string)
    returns (r: Option<seq<SavedNode>>)
    ensures r == (if KnownFormats(nodes) then Some(Records(nodes, abspath, realpath)) else None)
    ensures r.Some? ==> Tracks(nodes, r.value, nodes)
  {
    var records: seq<SavedNode> := [];
    var k := 0;
    while k < |nodes|
      invariant 0 <= k <= |nodes|
      invariant KnownFormats(nodes[..k]) && records == Records(nodes[..k], abspath, realpath)
    {
      var extension := Paths.FileExtension(nodes[k].fileFormat);
      if extension.None? {
        assert !KnownFormats(nodes) by {
          assert Paths.FileExtension(nodes[k].fileFormat).None?;
        }
        return None;
      }
      RecordsGrow(nodes, k, extension.value, abspath, realpath);
      records := records + [Record(nodes[k], extension.value, abspath, realpath)];
      k := k + 1;
    }
    assert nodes[..k] == nodes;
    RecordsTrack(nodes, abspath, realpath);
    r := Some(records);
  }

  /** `for c, fs in enumerate(slots): fs.path = values[c]`. */
  method AssignSlots(current: seq<string>, values: seq<string>) returns (slots: seq<string>)
    requires |current| == |values|
    ensures slots == values
  {
    slots := current;
    var c := 0;
    while c < |slots|
      invariant 0 <= c <= |slots| == |values|
      invariant slots[..c] == values[..c]
    {
      slots := slots[c := values[c]];
      c := c + 1;
    }
    assert slots == slots[..c];
  }

  /** `for c, f in enumerate(slots): f.path = replace_globals(values[c])`. */
  method ResolveSlots(current: seq<string>, values: seq<string>, resolve: string -> string)
    returns (slots: seq<string>)
    requires |current| == |values|
    ensures |slots| == |values|
    ensures forall c :: 0 <= c < |slots| ==> slots[c] == resolve(values[c])
  {
    slots := current;
    var c := 0;
    while c < |slots|
      invariant 0 <= c <= |slots| == |values|
      invariant forall d :: 0 <= d < c ==> slots[d] == resolve(values[d])
    {
      slots := slots[c := resolve(values[c])];
      c := c + 1;
    }
  }

  /** The frames of `fs` that `start_render` skips: overwriting is off and the frame's file exists. */
  function SkipSet(fs: seq<int>, useOverwrite: bool, files: set<string>, t: Target, resolve: string -> string): set<int>
  {
    set f | f in fs && !useOverwrite && t.Path(resolve, f) in files
  }

  lemma SkipSetMember(fs: seq<int>, useOverwrite: bool, files: set<string>, t: Target, resolve: string -> string, f: int)
    requires f in fs
    ensures f in SkipSet(fs, useOverwrite, files, t, resolve) <==> !useOverwrite && t.Path(resolve, f) in files
  {
  }

  /**
    What `start_render` does to the frame lists for one frame in silent
    mode: a skipped frame is listed as skipped and the queue loses its head;
    any other frame is listed once as rendered (the render handlers that
    would take it off the queue are not installed in silent mode).
   */
  function Step(p: Progress, f: int, skips: set<int>): (r: Progress)
    requires p.frames != []
    ensures |r.frames| == if f in skips then |p.frames| - 1 else |p.frames|
  {
    if f in skips then Progress(p.frames[1..], p.rendered, p.skipped + [f])
    else Progress(p.frames, AddOnce(p.rendered, f), p.skipped)
  }

  /**
    The silent loop as written: `for frame in self._frames` walks the list
    by index while skipping a frame pops the list's head, so the frame after
    a skipped one moves into the slot just visited and is never visited.
   */
  function SilentLoop(p: Progress, i: nat, skips: set<int>): Progress
    decreases |p.frames|, |p.frames| - i
  {
    if i >= |p.frames| then p
    else SilentLoop(Step(p, p.frames[i], skips), i + 1, skips)
  }

  /** The silent loop over a copy of the queue (`for frame in list(self._frames)`). */
  function SnapshotLoop(p: Progress, todo: seq<int>, skips: set<int>): Progress
    requires |todo| <= |p.frames|
    decreases |todo|
  {
    if todo == [] then p
    else SnapshotLoop(Step(p, todo[0], skips), todo[1..], skips)
  }

  lemma SilentLoopUnfold(p: Progress, i: nat, skips: set<int>)
    requires i < |p.frames|
    ensures SilentLoop(p, i, skips) == SilentLoop(Step(p, p.frames[i], skips), i + 1, skips)
  {
  }

  lemma SnapshotLoopUnfold(p: Progress, todo: seq<int>, skips: set<int>)
    requires todo != [] && |todo| <= |p.frames|
    ensures SnapshotLoop(p, todo, skips) == SnapshotLoop(Step(p, todo[0], skips), todo[1..], skips)
  {
  }

  /** The frames of `s` that are in `skips`, in order. */
  function Kept(s: seq<int>, skips: set<int>): (r: seq<int>)
    ensures |r| <= |s|
    ensures forall x :: x in r <==> x in s && x in skips
  {
    if s == [] then [] else (if s[0] in skips then [s[0]] else []) + Kept(s[1..], skips)
  }

  /**
    The corrected silent loop skips exactly the frames whose file exists, in
    queue order, and takes that many frames off the head of the queue.
   */
  lemma {:induction false} SnapshotSkips(p: Progress, todo: seq<int>, skips: set<int>)
    requires |todo| <= |p.frames|
    ensures SnapshotLoop(p, todo, skips).skipped == p.skipped + Kept(todo, skips)
    ensures SnapshotLoop(p, todo, skips).frames == p.frames[|Kept(todo, skips)|..]
    decreases |todo|
  {
    if todo != [] {
      var f := todo[0];
      var q := Step(p, f, skips);
      SnapshotSkips(q, todo[1..], skips);
      if f in skips {
        assert Kept(todo, skips) == [f] + Kept(todo[1..], skips);
        assert p.skipped + Kept(todo, skips) == q.skipped + Kept(todo[1..], skips);
        assert p.frames[1..][|Kept(todo[1..], skips)|..] == p.frames[|Kept(todo, skips)|..];
      } else {
        assert Kept(todo, skips) == Kept(todo[1..], skips);
      }
    }
  }

  /**
    The corrected silent loop renders every frame it does not skip, renders
    nothing else, and keeps the rendered list free of duplicates.
   */
  lemma {:induction false} SnapshotRenders(p: Progress, todo: seq<int>, skips: set<int>)
    requires |todo| <= |p.frames|
    ensures forall f :: f in p.rendered ==> f in SnapshotLoop(p, todo, skips).rendered
    ensures forall f :: f in todo && f !in skips ==> f in SnapshotLoop(p, todo, skips).rendered
    ensures forall f :: f in SnapshotLoop(p, todo, skips).rendered ==> f in p.rendered || (f in todo && f !in skips)
    ensures NoDuplicates(p.rendered) ==> NoDuplicates(SnapshotLoop(p, todo, skips).rendered)
    decreases |todo|
  {
    if todo != [] {
      var q := Step(p, todo[0], skips);
      SnapshotRenders(q, todo[1..], skips);
      assert forall f :: f in todo <==> f == todo[0] || f in todo[1..];
      assert todo[0] !in skips ==> todo[0] in q.rendered;
      assert forall f :: f in q.rendered ==> f in p.rendered || (f == todo[0] && f !in skips);
    }
  }

  /**
    As written, the silent loop leaves a frame unvisited: with frames 1, 2, 3
    and the file of frame 1 already there, frame 1 is skipped, frame 2 is
    never looked at and only frame 3 is rendered.
   */
  lemma SilentLoopMissesFrame()
    ensures SilentLoop(Progress([1, 2, 3], [], []), 0, {1}) == Progress([2, 3], [3], [1])
    ensures 2 !in SilentLoop(Progress([1, 2, 3], [], []), 0, {1}).rendered
    ensures 2 !in SilentLoop(Progress([1, 2, 3], [], []), 0, {1}).skipped
  {
    var p1 := Progress([2, 3], [], [1]);
    assert [1, 2, 3][1..] == [2, 3];
    assert Step(Progress([1, 2, 3], [], []), 1, {1}) == p1;
    assert Step(p1, 3, {1}) == Progress([2, 3], [3], [1]);
  }

  /** When no frame is skipped, the loop as written and the corrected loop do the same. */
  lemma {:induction false} SilentLoopWithoutSkips(p: Progress, i: nat, skips: set<int>)
    requires i <= |p.frames|
    requires forall f :: f in p.frames[i..] ==> f !in skips
    ensures SilentLoop(p, i, skips) == SnapshotLoop(p, p.frames[i..], skips)
    decreases |p.frames| - i
  {
    if i < |p.frames| {
      var q := Step(p, p.frames[i], skips);
      assert p.frames[i] in p.frames[i..];
      assert p.frames[i..][1..] == q.frames[i + 1..];
      assert forall f :: f in q.frames[i + 1..] ==> f in p.frames[i..];
      SilentLoopWithoutSkips(q, i + 1, skips);
    }
  }

  /**
    What the loop as written still guarantees: it renders only queued frames
    whose file is missing, skips only queued frames whose file exists, and
    renders no frame twice.
   */
  lemma {:induction false} SilentLoopSound(p: Progress, i: nat, skips: set<int>)
    ensures forall f :: f in SilentLoop(p, i, skips).rendered ==> f in p.rendered || (f in p.frames && f !in skips)
    ensures forall f :: f in SilentLoop(p, i, skips).skipped ==> f in p.skipped || (f in p.frames && f in skips)
    ensures NoDuplicates(p.rendered) ==> NoDuplicates(SilentLoop(p, i, skips).rendered)
    decreases |p.frames|, |p.frames| - i
  {
    if i < |p.frames| {
      var f := p.frames[i];
      var q := Step(p, f, skips);
      SilentLoopSound(q, i + 1, skips);
      assert forall g :: g in q.frames ==> g in p.frames;
      assert forall g :: g in q.rendered ==> g in p.rendered || (g == f && f !in skips);
      assert forall g :: g in q.skipped ==> g in p.skipped || (g == f && f in skips);
    }
  }

  /** A silent run as written, from a fresh start, renders and skips only queued frames, as their files say. */
  lemma SilentRunSound(queued: seq<int>, skips: set<int>)
    ensures forall f :: f in SilentLoop(Progress(queued, [], []), 0, skips).rendered ==> f in queued && f !in skips
    ensures forall f :: f in SilentLoop(Progress(queued, [], []), 0, skips).skipped ==> f in queued && f in skips
    ensures NoDuplicates(SilentLoop(Progress(queued, [], []), 0, skips).rendered)
  {
    SilentLoopSound(Progress(queued, [], []), 0, skips);
  }

  /** The log as written drops its oldest entry only when it is exactly at the limit. */
  function TrimAsWritten(log: seq<LogEntry>, limit: int): seq<LogEntry> {
    if |log| == limit && log != [] then log[1..] else log
  }

  /** The log with its oldest entries dropped until there is room for one more under the limit. */
  function Trim(log: seq<LogEntry>, limit: int): (r: seq<LogEntry>)
    ensures |r| <= |log|
    ensures limit >= 1 ==> |r| < limit
    ensures |log| < limit ==> r == log
    ensures r == log[|log| - |r|..]
    decreases |log|
  {
    if log != [] && |log| >= limit then Trim(log[1..], limit) else log
  }

  /** The corrected trim agrees with the one written whenever the log is not over its limit. */
  lemma TrimAgrees(log: seq<LogEntry>, limit: int)
    requires |log| <= limit
    ensures Trim(log, limit) == TrimAsWritten(log, limit)
  {
    if |log| == limit && log != [] {
      assert Trim(log[1..], limit) == log[1..];
    }
  }

  /**
    As written, a log over its limit (the limit was lowered) never shrinks:
    three entries and a limit of two give four entries after one more render.
   */
  lemma TrimAsWrittenOverLimit(e: LogEntry)
    ensures |TrimAsWritten([e, e, e], 2) + [e]| == 4
    ensures |Trim([e, e, e], 2) + [e]| == 2
  {
  }

  /**
    `after` is the log `before` once a run was logged: unchanged when the
    run is not logged, otherwise trimmed as written under the limit, then
    one more entry, numbered by the new length.
   */
  predicate LoggedAs(after: seq<LogEntry>, before: seq<LogEntry>, logLimit: Option<int>, entry: LogEntry) {
    match logLimit
    case None => after == before
    case Some(limit) =>
      var kept := TrimAsWritten(before, limit);
      after == kept + [entry.(renderId := |kept| + 1)]
  }

  /**
    A logged run keeps a log that was within its limit within it (an empty
    log under a zero limit is the case where logging raises instead).
   */
  lemma LoggedWithinLimit(after: seq<LogEntry>, before: seq<LogEntry>, limit: int, entry: LogEntry)
    requires LoggedAs(after, before, Some(limit), entry) && |before| <= limit
    requires !(limit == 0 && before == [])
    ensures |after| <= limit
  {
    assert |after| == |TrimAsWritten(before, limit)| + 1;
  }

  /** Some global variable's key occurs in the folder path. */
  predicate HasGlobal(folder: string, globalKeys: seq<string>) {
    exists k :: 0 <= k < |globalKeys| && Contains(folder, globalKeys[k])
  }

  /**
    The folder `execute` renders into: the real path of the output path's
    directory, with the globals replaced when one of their keys occurs in it.
   */
  function OutputFolder(outputPath: string, abspath: string -> string, realpath: string -> string,
                        resolve: string -> string, globalKeys: seq<string>): string
  {
    var located := realpath(SplitPath(abspath(outputPath)).0);
    if HasGlobal(located, globalKeys) then resolve(located) else located
  }

  /**
    How locating the main output ends `execute` early: an unknown render
    format raises `KeyError`, and a folder with globals that cannot be
    created cancels.
   */
  function MainEarly(fileFormat: string, outputPath: string, abspath: string -> string, realpath: string -> string,
                     resolve: string -> string, globalKeys: seq<string>, dirs: set<string>): Option<Status>
  {
    var located := realpath(SplitPath(abspath(outputPath)).0);
    if Paths.FileExtension(fileFormat).None? then Some(Raised)
    else if HasGlobal(located, globalKeys) && resolve(located) !in dirs then Some(Cancelled)
    else None
  }

  /** How locating the output ends `execute` early: as for the main output, or an output node with an unknown format raises. */
  function LocateEarly(fileFormat: string, outputPath: string, nodes: seq<OutputNode>, abspath: string -> string,
                       realpath: string -> string, resolve: string -> string, globalKeys: seq<string>,
                       dirs: set<string>): Option<Status>
  {
    var main := MainEarly(fileFormat, outputPath, abspath, realpath, resolve, globalKeys, dirs);
    if main.Some? then main
    else if !KnownFormats(nodes) then Some(Raised)
    else None
  }

  /**
    The output as `execute` locates it from the render settings: the
    extension of the format, the output path, its folder, the safe file
    name and padding, and the records of the output nodes.
   */
  predicate Located(t: Target, outputPath: string, saved: seq<SavedNode>,
                    fileFormat: string, filepath: string, nodes: seq<OutputNode>, digitsSetting: nat,
                    abspath: string -> string, realpath: string -> string, resolve: string -> string,
                    blendPath: string, globalKeys: seq<string>)
  {
    && Paths.FileExtension(fileFormat) == Some(t.extension)
    && KnownFormats(nodes)
    && outputPath == filepath
    && t.folder == OutputFolder(filepath, abspath, realpath, resolve, globalKeys)
    && Paths.SafeName(t.filename, t.digits) == Paths.SafeFilename(SplitPath(abspath(filepath)).1, digitsSetting, blendPath)
    && saved == Records(nodes, abspath, realpath)
  }

  /**
    How `execute` ends before the output nodes are touched: it raises on a
    bad step, cancels when no frame is left, and otherwise ends as locating
    the output ended.
   */
  function PrepareEarly(outcome: FrameSpec.Outcome, located: Option<Status>): Option<Status> {
    if outcome.Raises? then Some(Raised)
    else if outcome.NoMatch? || outcome.list == [] then Some(Cancelled)
    else located
  }

  /** How `execute` ends before any frame is rendered: as above, or it raises when logging removes from an empty log. */
  function ExecuteEarly(outcome: FrameSpec.Outcome, located: Option<Status>, logLimit: Option<int>,
                        log: seq<LogEntry>): Option<Status>
  {
    var early := PrepareEarly(outcome, located);
    if early.Some? then early
    else if logLimit == Some(0) && log == [] then Some(Raised)
    else None
  }

  /** How `execute` ends early, once it is known whether preparing the run ended it. */
  lemma ExecuteEarlyCases(outcome: FrameSpec.Outcome, located: Option<Status>, logLimit: Option<int>,
                          log: seq<LogEntry>)
    ensures PrepareEarly(outcome, located).Some?
            ==> ExecuteEarly(outcome, located, logLimit, log) == PrepareEarly(outcome, located)
    ensures PrepareEarly(outcome, located).None?
            ==> ExecuteEarly(outcome, located, logLimit, log)
                == (if logLimit == Some(0) && log == [] then Some(Raised) else None)
  {
  }

  /** `LOOM_OT_render_image_sequence`: its state between events. */
  class RenderImageSequence {
    const resolve: string -> string   // replace_globals with the user's global variables
    var frames: seq<int>
    var rendering: bool
    var stop: bool
    var rendered: seq<int>
    var skipped: seq<int>
    var outputPath: string
    var folder: string
    var filename: string
    var extension: string
    var digits: nat
    var saved: seq<SavedNode>
    /** The frame list the run started with, how many of them are done, and the nodes as they were. */
    ghost var queued: seq<int>
    ghost var done: nat
    ghost var original: seq<OutputNode>

    constructor (resolve: string -> string)
      ensures this.resolve == resolve
      ensures frames == [] && rendered == [] && skipped == [] && saved == [] && digits == 4
      ensures !rendering && !stop
    {
      this.resolve := resolve;
      frames, rendered, skipped, saved := [], [], [], [];
      rendering, stop := false, false;
      outputPath, folder, filename, extension := [], [], [], [];
      digits := 4;
      queued, done, original := [], 0, [];
    }

    /**
      What holds between events: the queue is what is left of the starting
      list after its head was taken `done` times, every rendered or skipped
      frame comes from that list, no frame is listed as rendered twice, and
      the output nodes still agree with their records.
     */
    ghost predicate Valid(scene: Scene)
      reads this`frames, this`queued, this`done, this`rendered, this`skipped, this`saved, this`original
      reads scene`nodes
    {
      && done <= |queued| && frames == queued[done..]
      && (forall f :: f in rendered ==> f in queued)
      && (forall f :: f in skipped ==> f in queued)
      && NoDuplicates(rendered)
      && Tracks(scene.nodes, saved, original)
    }

    /** The modal loop takes over a fresh run: the whole queue is left, nothing is done, and no render is going on. */
    ghost predicate ModalReady()
      reads this`frames, this`queued, this`rendered, this`skipped, this`stop, this`rendering
    {
      frames == queued && rendered == [] && skipped == [] && !stop && !rendering
    }

    /**
      A run `execute` handed on: it is logged over `log0` as `logLimit` says,
      and either the modal loop takes over the whole queue or the silent
      loop as written has run over it.
     */
    ghost predicate Launched(scene: Scene, silent: bool, logLimit: Option<int>, now: string, files: set<string>,
                             status: Status, log0: seq<LogEntry>)
      reads this, scene
    {
      && queued != []
      && Valid(scene)
      && LoggedAs(scene.log, log0, logLimit,
                  LogEntry(0, now, IntToString(queued[0]), IntToString(queued[|queued| - 1]),
                           filename, outputPath, digits, extension))
      && status == (if silent then Finished else RunningModal)
      && (status == RunningModal ==> ModalReady())
      && (status == Finished ==>
            Progress(frames, rendered, skipped)
            == SilentLoop(Progress(queued, [], []), 0, SkipSet(queued, scene.useOverwrite, files, Naming(), resolve)))
    }

    /** Where this run writes its frames. */
    function Naming(): Target
      reads this`folder, this`filename, this`digits, this`extension
    {
      Target(folder, filename, digits, extension)
    }

    /** The `render_pre` handler. */
    method PreRender(scene: Scene)
      modifies this`rendering, scene`isRendering
      ensures rendering && scene.isRendering
    {
      rendering := true;
      scene.isRendering := true;
    }

    /** The `render_post` handler: the head of the queue is done; an empty queue raises `IndexError`. */
    method PostRender(scene: Scene) returns (status: Status)
      requires Valid(scene)
      modifies this`frames, this`done, this`rendering, scene`isRendering
      ensures Valid(scene)
      ensures status == Raised <==> old(frames) == []
      ensures status == Raised ==> frames == old(frames) && rendering == old(rendering)
                                   && scene.isRendering == old(scene.isRendering)
      ensures status != Raised ==> frames == old(frames)[1..] && !rendering && !scene.isRendering
    {
      if frames == [] {
        return Raised;
      }
      assert frames[1..] == queued[done + 1..];
      frames := frames[1..];
      done := done + 1;
      rendering := false;
      scene.isRendering := false;
      status := Finished;
    }

    /**
      `reset_output_paths`: the render output path and every node's base
      path and file slots go back to what was recorded, which is how they
      were when the run started.
     */
    method ResetOutputPaths(scene: Scene)
      requires Valid(scene)
      modifies scene`filepath, scene`nodes
      ensures Valid(scene)
      ensures scene.filepath == outputPath
      ensures scene.nodes == original
    {
      scene.filepath := outputPath;
      var nodes := scene.nodes;
      var i := 0;
      while i < |saved|
        invariant 0 <= i <= |saved| == |nodes| == |scene.nodes|
        invariant forall m :: 0 <= m < i ==> nodes[m] == original[m]
        invariant forall m :: i <= m < |saved| ==> nodes[m] == scene.nodes[m]
        invariant Tracks(scene.nodes, saved, original)
        modifies {}
      {
        var node := nodes[i];
        var slots := node.slots;
        if saved[i].slots.Some? {
          slots := AssignSlots(slots, saved[i].slots.value);
        }
        RestoreRecovers(node, saved[i], original[i]);
        nodes := nodes[i := OutputNode(saved[i].basePath, node.fileFormat, slots)];
        i := i + 1;
      }
      assert nodes == original;
      RestoredTracks(scene.nodes, saved, original);
      scene.nodes := nodes;
    }

    /**
      `frame_repath`: set the current frame, point the render output at the
      frame's file, and resolve the globals in every node's paths.
     */
    method FrameRepath(scene: Scene, frame: int)
      requires Valid(scene)
      modifies scene`frameCurrent, scene`filepath, scene`nodes
      ensures Valid(scene)
      ensures scene.frameCurrent == frame
      ensures scene.filepath == Naming().Path(resolve, frame)
      ensures scene.nodes == Repath(old(scene.nodes), saved, resolve)
    {
      var current := scene.nodes;
      var nodes := current;
      var i := 0;
      while i < |saved|
        invariant 0 <= i <= |saved| == |nodes| == |current|
        invariant forall m :: 0 <= m < i ==> nodes[m] == RepathNode(current[m], saved[m], resolve)
        invariant forall m :: i <= m < |saved| ==> nodes[m] == current[m]
        modifies {}
      {
        var next := RepathPaths(nodes[i], saved[i], resolve);
        nodes := nodes[i := next];
        i := i + 1;
      }
      RepathTracks(current, saved, original, resolve);
      assert nodes == Repath(current, saved, resolve);
      scene.frameCurrent := frame;
      scene.filepath := Naming().Path(resolve, frame);
      scene.nodes := nodes;
    }

    /**
      `start_render`: with overwriting off and the frame's file already
      there, the frame is skipped and taken off the queue as a finished
      render would; otherwise it is rendered and listed once.
     */
    method StartRender(scene: Scene, frame: int, files: set<string>)
      requires Valid(scene) && frame in queued && frames != []
      modifies this`frames, this`done, this`rendering, this`rendered, this`skipped, scene`isRendering
      ensures Valid(scene)
      ensures !scene.useOverwrite && scene.filepath in files ==>
                && skipped == old(skipped) + [frame] && rendered == old(rendered)
                && frames == old(frames)[1..] && !rendering && !scene.isRendering
      ensures !(!scene.useOverwrite && scene.filepath in files) ==>
                && rendered == AddOnce(old(rendered), frame) && skipped == old(skipped)
                && frames == old(frames) && rendering == old(rendering)
                && scene.isRendering == old(scene.isRendering)
    {
      if !scene.useOverwrite && scene.filepath in files {
        skipped := skipped + [frame];
        var _ := PostRender(scene);
      } else {
        rendered := AddOnce(rendered, frame);
      }
    }

    /**
      The `render_cancel` handler: stop the run, put the paths back and drop
      the last rendered frame (an empty list raises `IndexError`).
     */
    method CancelRender(scene: Scene) returns (status: Status)
      requires Valid(scene)
      modifies this`stop, this`rendered, scene`filepath, scene`nodes
      ensures Valid(scene)
      ensures stop
      ensures scene.filepath == outputPath && scene.nodes == original
      ensures status == Raised <==> old(rendered) == []
      ensures old(rendered) != [] ==> rendered == old(rendered)[..|old(rendered)| - 1]
      ensures old(rendered) == [] ==> rendered == old(rendered)
    {
      stop := true;
      ResetOutputPaths(scene);
      if rendered == [] {
        return Raised;
      }
      rendered := rendered[..|rendered| - 1];
      status := Finished;
    }

    /**
      The timer tick of the modal loop: with the queue empty or the run
      stopped, put the paths back and finish; otherwise, unless a render is
      under way, start the head of the queue.
     */
    method Tick(scene: Scene, files: set<string>) returns (status: Status)
      requires Valid(scene)
      modifies this`frames, this`done, this`rendering, this`rendered, this`skipped
      modifies scene`isRendering, scene`frameCurrent, scene`filepath, scene`nodes
      ensures Valid(scene)
      ensures status == Finished <==> old(frames) == [] || old(stop)
      ensures status != Finished ==> status == PassThrough
      ensures status == Finished ==>
                && scene.filepath == outputPath && scene.nodes == original
                && frames == old(frames) && rendered == old(rendered) && skipped == old(skipped)
      ensures status == PassThrough && old(rendering) ==> unchanged(this) && unchanged(scene)
      ensures status == PassThrough && !old(rendering) ==>
                && scene.frameCurrent == old(frames)[0]
                && scene.filepath == Naming().Path(resolve, old(frames)[0])
                && scene.nodes == Repath(old(scene.nodes), saved, resolve)
      ensures status == PassThrough && !old(rendering) && !scene.useOverwrite && scene.filepath in files ==>
                && skipped == old(skipped) + [old(frames)[0]] && rendered == old(rendered)
                && frames == old(frames)[1..]
      ensures status == PassThrough && !old(rendering) && !(!scene.useOverwrite && scene.filepath in files) ==>
                && rendered == AddOnce(old(rendered), old(frames)[0]) && skipped == old(skipped)
                && frames == old(frames)
    {
      if frames == [] || stop {
        ResetOutputPaths(scene);
        return Finished;
      }
      if !rendering {
        var frame := frames[0];
        assert frame == queued[done];
        FrameRepath(scene, frame);
        StartRender(scene, frame, files);
      }
      status := PassThrough;
    }

    /**
      One pass of the silent loop's body: repath the scene for `frame` and
      start its render, which skips it exactly when it is in `skips`.
     */
    method VisitFrame(scene: Scene, frame: int, files: set<string>, ghost skips: set<int>, ghost t: Target)
      requires Valid(scene) && frame in queued && frames != []
      requires t == Naming()
      requires frame in skips <==> !scene.useOverwrite && t.Path(resolve, frame) in files
      modifies this`frames, this`done, this`rendering, this`rendered, this`skipped
      modifies scene`isRendering, scene`frameCurrent, scene`filepath, scene`nodes
      ensures Valid(scene)
      ensures Progress(frames, rendered, skipped) == Step(old(Progress(frames, rendered, skipped)), frame, skips)
    {
      FrameRepath(scene, frame);
      StartRender(scene, frame, files);
    }

    /** The silent loop as written, over the shrinking queue. */
    method RenderSilentAsWritten(scene: Scene, files: set<string>)
      requires Valid(scene)
      modifies this`frames, this`done, this`rendering, this`rendered, this`skipped
      modifies scene`isRendering, scene`frameCurrent, scene`filepath, scene`nodes
      ensures Valid(scene)
      ensures Progress(frames, rendered, skipped)
              == SilentLoop(old(Progress(frames, rendered, skipped)), 0,
                            old(SkipSet(queued, scene.useOverwrite, files, Naming(), resolve)))
    {
      ghost var t := Naming();
      ghost var skips := SkipSet(queued, scene.useOverwrite, files, t, resolve);
      ghost var start := Progress(frames, rendered, skipped);
      var i := 0;
      while i < |frames|
        invariant Valid(scene)
        invariant SilentLoop(Progress(frames, rendered, skipped), i, skips) == SilentLoop(start, 0, skips)
        decreases |frames|, |frames| - i
      {
        var frame := frames[i];
        ghost var before := Progress(frames, rendered, skipped);
        assert frame == queued[done + i];
        SkipSetMember(queued, scene.useOverwrite, files, t, resolve, frame);
        VisitFrame(scene, frame, files, skips, t);
        SilentLoopUnfold(before, i, skips);
        i := i + 1;
      }
    }

    /** The silent loop over a copy of the queue: every queued frame is visited once. */
    method RenderSilent(scene: Scene, files: set<string>)
      requires Valid(scene)
      modifies this`frames, this`done, this`rendering, this`rendered, this`skipped
      modifies scene`isRendering, scene`frameCurrent, scene`filepath, scene`nodes
      ensures Valid(scene)
      ensures Progress(frames, rendered, skipped)
              == SnapshotLoop(old(Progress(frames, rendered, skipped)), old(frames),
                              old(SkipSet(queued, scene.useOverwrite, files, Naming(), resolve)))
    {
      ghost var t := Naming();
      ghost var skips := SkipSet(queued, scene.useOverwrite, files, t, resolve);
      ghost var start := Progress(frames, rendered, skipped);
      var todo := frames;
      while todo != []
        invariant |todo| <= |frames|
        invariant Valid(scene)
        invariant forall f :: f in todo ==> f in queued
        invariant SnapshotLoop(Progress(frames, rendered, skipped), todo, skips)
                  == SnapshotLoop(start, start.frames, skips)
      {
        var frame := todo[0];
        ghost var before := Progress(frames, rendered, skipped);
        SkipSetMember(queued, scene.useOverwrite, files, t, resolve, frame);
        VisitFrame(scene, frame, files, skips, t);
        SnapshotLoopUnfold(before, todo, skips);
        todo := todo[1..];
      }
    }

    /**
      `log_sequence`: drop the oldest entry when the log is exactly at the
      limit, then add an entry for this run (its id is the new length of the
      log). Removing from an empty log raises `KeyError` in Blender, which
      happens only with a limit of 0; `ok` is false then.
     */
    method LogSequence(scene: Scene, limit: int, now: string) returns (ok: bool)
      requires frames != []
      modifies scene`log
      ensures ok <==> !(limit == 0 && old(scene.log) == [])
      ensures !ok ==> scene.log == old(scene.log)
      ensures ok ==> |scene.log| >= 1 && scene.log[..|scene.log| - 1] == TrimAsWritten(old(scene.log), limit)
      ensures ok ==> scene.log[|scene.log| - 1]
                     == LogEntry(|scene.log|, now, IntToString(frames[0]), IntToString(frames[|frames| - 1]),
                                 filename, outputPath, digits, extension)
      ensures ok && |old(scene.log)| <= limit ==> |scene.log| <= limit
    {
      var log := scene.log;
      if |log| == limit {
        if log == [] {
          return false;
        }
        log := log[1..];
      }
      var entry := LogEntry(|log| + 1, now, IntToString(frames[0]), IntToString(frames[|frames| - 1]),
                            filename, outputPath, digits, extension);
      scene.log := log + [entry];
      ok := true;
    }

    /**
      The part of `execute` between reading the frames and starting the run:
      split the output path, look up the extension, make the file name safe,
      check the folder and record the output nodes. `None` means the run
      goes on; `Some(status)` is the status `execute` returns at once.
      `abspath`, `realpath` and the directories that exist after the folder
      was created stand for the file system.
     */
    method Locate(scene: Scene, digitsSetting: nat, abspath: string -> string, realpath: string -> string,
                  blendPath: string, globalKeys: seq<string>, dirs: set<string>)
      returns (early: Option<Status>)
      modifies this`outputPath, this`folder, this`extension, this`filename, this`digits, this`saved
      ensures early == LocateEarly(scene.fileFormat, scene.filepath, scene.nodes, abspath, realpath, resolve, globalKeys, dirs)
      ensures early.Some? ==> (early.value == Cancelled || early.value == Raised)
      ensures early.None? ==>
                && Located(Target(folder, filename, digits, extension), outputPath, saved,
                           scene.fileFormat, scene.filepath, scene.nodes, digitsSetting, abspath, realpath, resolve,
                           blendPath, globalKeys)
                && Tracks(scene.nodes, saved, scene.nodes)
    {
      early := LocateMain(scene, digitsSetting, abspath, realpath, blendPath, globalKeys, dirs);
      if early.Some? {
        return;
      }
      var records := RecordNodes(scene.nodes, abspath, realpath);
      if records.None? {
        return Some(Raised);
      }
      saved := records.value;
    }

    /** The main output of `Locate`: the output path, its folder, the extension and the safe file name. */
    method LocateMain(scene: Scene, digitsSetting: nat, abspath: string -> string, realpath: string -> string,
                      blendPath: string, globalKeys: seq<string>, dirs: set<string>)
      returns (early: Option<Status>)
      modifies this`outputPath, this`folder, this`extension, this`filename, this`digits
      ensures early == MainEarly(scene.fileFormat, scene.filepath, abspath, realpath, resolve, globalKeys, dirs)
      ensures early.None? ==>
                && Paths.FileExtension(scene.fileFormat) == Some(extension)
                && outputPath == scene.filepath
                && folder == OutputFolder(scene.filepath, abspath, realpath, resolve, globalKeys)
                && Paths.SafeName(filename, digits)
                   == Paths.SafeFilename(SplitPath(abspath(scene.filepath)).1, digitsSetting, blendPath)
    {
      outputPath := scene.filepath;
      var (outputFolder, name) := SplitPath(abspath(outputPath));
      var located := realpath(outputFolder);
      folder := located;
      var format := Paths.FileExtension(scene.fileFormat);
      if format.None? {
        return Some(Raised);
      }
      extension := format.value;
      var safe := Paths.SafeFilename(name, digitsSetting, blendPath);
      filename, digits := safe.name, safe.digits;
      if HasGlobal(located, globalKeys) {
        folder := resolve(located);
        if folder !in dirs {
          return Some(Cancelled);
        }
      }
      early := None;
    }

    /**
      Second half of `execute`, once the output nodes are recorded: start a
      fresh run over `frames`, log it when `logLimit` is given, then either
      render the whole sequence at once (silent) or hand over to the modal
      loop.
     */
    method Launch(scene: Scene, silent: bool, logLimit: Option<int>, now: string, files: set<string>)
      returns (status: Status)
      requires frames != [] && Tracks(scene.nodes, saved, scene.nodes) && outputPath == scene.filepath
      modifies this`frames, this`done, this`rendering, this`stop, this`rendered, this`skipped
      modifies this`queued, this`original
      modifies scene`isRendering, scene`frameCurrent, scene`filepath, scene`nodes, scene`log
      ensures status == Raised <==> logLimit == Some(0) && old(scene.log) == []
      ensures status == Raised ==> unchanged(scene)
      ensures queued == old(frames) && original == old(scene.nodes)
      ensures scene.filepath == old(scene.filepath) && scene.nodes == old(scene.nodes)
      ensures Valid(scene)
      ensures status != Raised ==> Launched(scene, silent, logLimit, now, files, status, old(scene.log))
    {
      var ok := Begin(scene, logLimit, now);
      if !ok {
        return Raised;
      }
      status := Proceed(scene, silent, files);
    }

    /** The end of `execute` once the run is logged: the silent loop, or the hand-over to the modal loop. */
    method Proceed(scene: Scene, silent: bool, files: set<string>) returns (status: Status)
      requires Valid(scene) && outputPath == scene.filepath && scene.nodes == original
      requires queued == frames && rendered == [] && skipped == []
      modifies this`frames, this`done, this`rendering, this`stop, this`rendered, this`skipped
      modifies scene`isRendering, scene`frameCurrent, scene`filepath, scene`nodes
      ensures status == (if silent then Finished else RunningModal)
      ensures scene.filepath == old(scene.filepath) && scene.nodes == old(scene.nodes)
      ensures Valid(scene)
      ensures status == RunningModal ==> ModalReady()
      ensures status == Finished ==>
                Progress(frames, rendered, skipped)
                == SilentLoop(Progress(queued, [], []), 0, SkipSet(queued, scene.useOverwrite, files, Naming(), resolve))
    {
      if silent {
        RunSilent(scene, files);
        return Finished;
      }
      stop, rendering := false, false;
      status := RunningModal;
    }

    /**
      A fresh run over `frames`, logged when `logLimit` is given; `ok` is
      false when logging raised.
     */
    method Begin(scene: Scene, logLimit: Option<int>, now: string) returns (ok: bool)
      requires frames != [] && Tracks(scene.nodes, saved, scene.nodes)
      modifies this`done, this`rendered, this`skipped, this`queued, this`original, scene`log
      ensures queued == frames && original == scene.nodes && done == 0 && rendered == [] && skipped == []
      ensures Valid(scene)
      ensures ok <==> !(logLimit == Some(0) && old(scene.log) == [])
      ensures !ok ==> scene.log == old(scene.log)
      ensures ok ==>
                LoggedAs(scene.log, old(scene.log), logLimit,
                         LogEntry(0, now, IntToString(queued[0]), IntToString(queued[|queued| - 1]),
                                  filename, outputPath, digits, extension))
    {
      skipped, rendered := [], [];
      queued, done, original := frames, 0, scene.nodes;
      assert queued[done..] == queued;
      assert Valid(scene);
      ok := true;
      if logLimit.Some? {
        ok := LogSequence(scene, logLimit.value, now);
      }
    }

    /**
      The silent branch of `execute`: the loop as written over the queue,
      then the paths put back.
     */
    method RunSilent(scene: Scene, files: set<string>)
      requires Valid(scene) && outputPath == scene.filepath && scene.nodes == original
      modifies this`frames, this`done, this`rendering, this`rendered, this`skipped
      modifies scene`isRendering, scene`frameCurrent, scene`filepath, scene`nodes
      ensures Valid(scene)
      ensures scene.filepath == old(scene.filepath) && scene.nodes == old(scene.nodes)
      ensures Progress(frames, rendered, skipped)
              == SilentLoop(old(Progress(frames, rendered, skipped)), 0, SkipSet(queued, scene.useOverwrite, files, Naming(), resolve))
    {
      ghost var t := Naming();
      ghost var skips := SkipSet(queued, scene.useOverwrite, files, t, resolve);
      RenderSilentAsWritten(scene, files);
      ghost var after := Progress(frames, rendered, skipped);
      ResetOutputPaths(scene);
      assert t == Naming() && after == Progress(frames, rendered, skipped);
    }

    /**
      The first half of `execute`: read the frames, then locate the output.
      `None` means the run goes on; `Some(status)` is the status `execute`
      returns at once.
     */
    method Prepare(scene: Scene, text: string, isolate: bool, digitsSetting: nat,
                   abspath: string -> string, realpath: string -> string, blendPath: string,
                   globalKeys: seq<string>, dirs: set<string>)
      returns (early: Option<Status>)
      requires '.' !in text
      modifies this`frames, this`outputPath, this`folder, this`extension, this`filename, this`digits, this`saved
      ensures early == PrepareEarly(FrameSpec.Evaluate(text, scene.frameStep, isolate),
                                    LocateEarly(scene.fileFormat, scene.filepath, scene.nodes, abspath, realpath,
                                                resolve, globalKeys, dirs))
      ensures early.Some? ==> (early.value == Cancelled || early.value == Raised)
      ensures early.None? ==>
                && FrameSpec.Evaluate(text, scene.frameStep, isolate) == FrameSpec.Frames(frames)
                && frames != []
                && Located(Target(folder, filename, digits, extension), outputPath, saved,
                           scene.fileFormat, scene.filepath, scene.nodes, digitsSetting, abspath, realpath, resolve,
                           blendPath, globalKeys)
                && Tracks(scene.nodes, saved, scene.nodes)
    {
      var outcome := FrameSpec.FilterFrames(text, scene.frameStep, isolate);
      if outcome.Raises? {
        return Some(Raised);
      }
      if outcome.NoMatch? || outcome.list == [] {
        frames := [];
        return Some(Cancelled);
      }
      frames := outcome.list;
      early := Locate(scene, digitsSetting, abspath, realpath, blendPath, globalKeys, dirs);
    }

    /** `execute`: prepare the run, then launch it. */
    method Execute(scene: Scene, text: string, isolate: bool, silent: bool, digitsSetting: nat,
                   abspath: string -> string, realpath: string -> string, blendPath: string,
                   globalKeys: seq<string>, dirs: set<string>, logLimit: Option<int>, now: string,
                   files: set<string>)
      returns (status: Status)
      requires '.' !in text
      modifies this, scene`isRendering, scene`frameCurrent, scene`filepath, scene`nodes, scene`log
      ensures ExecuteEarly(FrameSpec.Evaluate(text, old(scene.frameStep), isolate),
                           LocateEarly(old(scene.fileFormat), old(scene.filepath), old(scene.nodes), abspath,
                                       realpath, resolve, globalKeys, dirs),
                           logLimit, old(scene.log))
              == (if (status == Finished || status == RunningModal) then None else Some(status))
      ensures (status == Cancelled || status == Raised) ==> unchanged(scene)
      ensures (status == Finished || status == RunningModal) ==>
                && FrameSpec.Evaluate(text, old(scene.frameStep), isolate) == FrameSpec.Frames(queued)
                && original == old(scene.nodes)
                && Located(Target(folder, filename, digits, extension), outputPath, saved,
                           old(scene.fileFormat), old(scene.filepath), old(scene.nodes), digitsSetting, abspath,
                           realpath, resolve, blendPath, globalKeys)
                && scene.filepath == old(scene.filepath) && scene.nodes == old(scene.nodes)
                && Launched(scene, silent, logLimit, now, files, status, old(scene.log))
      ensures status != PassThrough
    {
      ExecuteEarlyCases(FrameSpec.Evaluate(text, scene.frameStep, isolate),
                        LocateEarly(scene.fileFormat, scene.filepath, scene.nodes, abspath, realpath, resolve,
                                    globalKeys, dirs),
                        logLimit, scene.log);
      var early := Prepare(scene, text, isolate, digitsSetting, abspath, realpath, blendPath, globalKeys, dirs);
      if early.Some? {
        return early.value;
      }
      status := Launch(scene, silent, logLimit, now, files);
    }
  }

  /** The corrected silent run renders or skips every frame of the queue, and skips only frames whose file exists. */
  lemma SilentRunVisitsAll(queued: seq<int>, skips: set<int>)
    ensures forall f :: f in queued ==>
              (f in SnapshotLoop(Progress(queued, [], []), queued, skips).skipped <==> f in skips)
    ensures forall f :: f in queued && f !in skips ==> f in SnapshotLoop(Progress(queued, [], []), queued, skips).rendered
    ensures forall f :: f in SnapshotLoop(Progress(queued, [], []), queued, skips).rendered ==> f in queued && f !in skips
    ensures NoDuplicates(SnapshotLoop(Progress(queued, [], []), queued, skips).rendered)
  {
    SnapshotSkips(Progress(queued, [], []), queued, skips);
    SnapshotRenders(Progress(queued, [], []), queued, skips);
  }
}
