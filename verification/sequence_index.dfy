/**
  The image-sequence index: a directory listing is scanned for the files of
  one sequence `name####.ext`, giving a map from frame number to path, and
  the gap filler plans which existing image is copied to every missing
  frame. The listing is given as a list of file names (only regular files);
  reading the directory and copying files are not part of the model.
 */
module SequenceIndex {
  import opened Wrappers
  import opened Text
  import opened FrameSpec
  import opened Ranges

  /**
    A sequence path `dir/name####.ext` taken apart: the directory, the name
    without its `#` characters, the number of `#` (the digit count) and the
    extension with its dot.
   */
  datatype Pattern = Pattern(basedir: string, nameReal: string, hashes: nat, ext: string)

  /**
    The path split into a pattern; `None` when its stem holds no `#` ("No
    valid image sequence"). The directory is made absolute against the blend
    file and resolved through links, by `abspath` and `realpath` (Blender's
    `bpy.path.abspath` and `os.path.realpath`, which read the file system).
   */
  function SequencePattern(sequencePath: string, abspath: string -> string, realpath: string -> string): (r: Option<Pattern>)
    ensures r.Some? <==> '#' in SplitExt(SplitPath(sequencePath).1).0
    ensures r.Some? ==> r.value.basedir == realpath(abspath(SplitPath(sequencePath).0))
    ensures r.Some? ==> r.value.ext == SplitExt(SplitPath(sequencePath).1).1
    ensures r.Some? ==> r.value.hashes > 0 && '#' !in r.value.nameReal
    ensures r.Some? ==> |r.value.nameReal| + r.value.hashes == |SplitExt(SplitPath(sequencePath).1).0|
  {
    var (basedir, filename) := SplitPath(sequencePath);
    var (noext, ext) := SplitExt(filename);
    if '#' !in noext then None
    else Some(Pattern(realpath(abspath(basedir)), RemoveChar(noext, '#'), Count(noext, '#'), ext))
  }

  /**
    The frame number a directory entry stands for: the entry must end with
    the extension exactly, and must read, ignoring ASCII case, as the name,
    then exactly `hashes` digits, then the extension with an optional dot in
    front of it.
   */
  function FrameOf(name: string, p: Pattern): (r: Option<nat>)
    ensures r.Some? ==> |p.nameReal| + p.hashes <= |name|
    ensures r.Some? ==> AllDigits(name[|p.nameReal|..|p.nameReal| + p.hashes])
    ensures r.Some? ==> r.value == DigitsValue(name[|p.nameReal|..|p.nameReal| + p.hashes])
  {
    var n := |p.nameReal|;
    if EndsWith(name, p.ext) && n + p.hashes <= |name|
       && LowerString(name[..n]) == LowerString(p.nameReal)
       && AllDigits(name[n..n + p.hashes])
       && (LowerString(name[n + p.hashes..]) == LowerString(p.ext)
           || LowerString(name[n + p.hashes..]) == LowerString("." + p.ext))
    then Some(DigitsValue(name[n..n + p.hashes]))
    else None
  }

  /** The file name of frame `frame` in the sequence: the number zero-padded to `hashes` digits. */
  function FileName(p: Pattern, frame: int): (r: string)
    ensures StartsWith(r, p.nameReal) && EndsWith(r, p.ext)
  {
    p.nameReal + PadInt(frame, p.hashes) + p.ext
  }

  /** `re_path`: the path of frame `frame` in the sequence's directory. */
  function RePath(p: Pattern, frame: int): (r: string)
    ensures EndsWith(r, FileName(p, frame))
  {
    JoinPath(p.basedir, FileName(p, frame))
  }

  /**
    A file written under the name `re_path` gives it is found again by the
    scan exactly when its frame is not negative and fits in the digit count.
   */
  lemma FileNameScanned(p: Pattern, frame: int)
    requires p.hashes > 0
    ensures FrameOf(FileName(p, frame), p) == if 0 <= frame && |NatToString(frame)| <= p.hashes then Some(frame) else None
  {
    var name, digits := FileName(p, frame), PadInt(frame, p.hashes);
    FileNameParts(p, frame, name, digits);
    if frame < 0 {
      NegativeNotScanned(p, name, digits);
    } else {
      PadIntValue(frame, p.hashes);
      if |NatToString(frame)| <= p.hashes {
        FittingScanned(p, name, digits, frame);
      } else {
        WideNotScanned(p, name, digits);
      }
    }
  }

  lemma FileNameParts(p: Pattern, frame: int, name: string, digits: string)
    requires name == FileName(p, frame) && digits == PadInt(frame, p.hashes)
    ensures |name| == |p.nameReal| + |digits| + |p.ext|
    ensures name[..|p.nameReal|] == p.nameReal
    ensures name[|p.nameReal|..|p.nameReal| + |digits|] == digits
    ensures name[|p.nameReal| + |digits|..] == p.ext
    ensures EndsWith(name, p.ext)
    ensures frame < 0 ==> digits != [] && digits[0] == '-'
  {
    assert name[..|p.nameReal|] == p.nameReal;
    assert name[|p.nameReal|..|p.nameReal| + |digits|] == digits;
    assert name[|p.nameReal| + |digits|..] == p.ext;
  }

  /** A negative frame's name has a minus sign where the digits belong. */
  lemma NegativeNotScanned(p: Pattern, name: string, digits: string)
    requires p.hashes > 0 && digits != [] && digits[0] == '-'
    requires |name| == |p.nameReal| + |digits| + |p.ext|
    requires name[|p.nameReal|..|p.nameReal| + |digits|] == digits
    ensures FrameOf(name, p) == None
  {
    var n := |p.nameReal|;
    assert name[n] == '-';
    if n + p.hashes <= |name| {
      assert name[n..n + p.hashes][0] == '-';
    }
  }

  /** A frame whose numeral fits the digit count reads back as itself. */
  lemma FittingScanned(p: Pattern, name: string, digits: string, frame: nat)
    requires AllDigits(digits) && DigitsValue(digits) == frame && |digits| == p.hashes
    requires |name| == |p.nameReal| + |digits| + |p.ext|
    requires name[..|p.nameReal|] == p.nameReal
    requires name[|p.nameReal|..|p.nameReal| + |digits|] == digits
    requires name[|p.nameReal| + |digits|..] == p.ext
    requires EndsWith(name, p.ext)
    ensures FrameOf(name, p) == Some(frame)
  {
  }

  /** A numeral wider than the digit count leaves a digit where the extension should start. */
  lemma WideNotScanned(p: Pattern, name: string, digits: string)
    requires AllDigits(digits) && |digits| > p.hashes
    requires |name| == |p.nameReal| + |digits| + |p.ext|
    requires name[|p.nameReal|..|p.nameReal| + |digits|] == digits
    ensures FrameOf(name, p) == None
  {
    var n, h := |p.nameReal|, p.hashes;
    var rest := name[n + h..];
    assert rest[0] == digits[h];
    assert |rest| == |digits| - h + |p.ext|;
    assert IsDigit(LowerString(rest)[0]);
    assert |LowerString(rest)| != |LowerString(p.ext)|;
    assert LowerString("." + p.ext)[0] == '.';
  }

  // ---------------------------------------------------------------------
  // Scanning a directory listing
  // ---------------------------------------------------------------------

  /**
    The index built by the scan loop: every accepted entry sets its frame to
    its path, so a later entry for the same frame overwrites an earlier one.
   */
  function Scan(names: seq<string>, p: Pattern): (image: map<int, string>)
  {
    if names == [] then map[]
    else
      var image := Scan(names[..|names| - 1], p);
      var name := names[|names| - 1];
      match FrameOf(name, p)
      case Some(f) => image[f := JoinPath(p.basedir, name)]
      case None => image
  }

  /** The accepted frame numbers in listing order, repeats included. */
  function Accepted(names: seq<string>, p: Pattern): (r: seq<int>)
    ensures forall v :: v in r ==> v >= 0
  {
    if names == [] then []
    else
      var frames := Accepted(names[..|names| - 1], p);
      match FrameOf(names[|names| - 1], p)
      case Some(f) => frames + [f]
      case None => frames
  }

  /** The index of the last entry of the listing that stands for `frame`, or -1. */
  function LastEntry(names: seq<string>, p: Pattern, frame: int): (i: int)
    ensures -1 <= i < |names|
    ensures i >= 0 ==> FrameOf(names[i], p) == Some(frame)
    ensures forall j :: i < j < |names| ==> FrameOf(names[j], p) != Some(frame)
  {
    if names == [] then -1
    else if FrameOf(names[|names| - 1], p) == Some(frame) then |names| - 1
    else LastEntry(names[..|names| - 1], p, frame)
  }

  /**
    The index holds a frame exactly when some entry stands for it, and then
    maps it to the path of the last such entry; the accepted frames are the
    index's frames.
   */
  lemma {:induction false} ScanEntries(names: seq<string>, p: Pattern, frame: int)
    ensures frame in Scan(names, p) <==> LastEntry(names, p, frame) >= 0
    ensures frame in Scan(names, p) ==> Scan(names, p)[frame] == JoinPath(p.basedir, names[LastEntry(names, p, frame)])
    ensures frame in Accepted(names, p) <==> frame in Scan(names, p)
    decreases |names|
  {
    if names != [] {
      ScanEntries(names[..|names| - 1], p, frame);
    }
  }

  /** `sorted(image.keys())` of the index the scan builds: its frames in increasing order, once each. */
  function FrameNumbers(names: seq<string>, p: Pattern): (r: seq<int>)
    ensures StrictlyIncreasing(r)
    ensures forall v :: v in r <==> v in Scan(names, p)
    ensures |r| == |Scan(names, p)|
  {
    ScanKeys(names, p);
    SortedUnique(Accepted(names, p))
  }

  lemma ScanKeys(names: seq<string>, p: Pattern)
    ensures forall v :: v in SortedUnique(Accepted(names, p)) <==> v in Scan(names, p)
    ensures |SortedUnique(Accepted(names, p))| == |Scan(names, p)|
  {
    forall v ensures v in SortedUnique(Accepted(names, p)) <==> v in Scan(names, p) {
      ScanEntries(names, p, v);
    }
    KeysCount(Scan(names, p), SortedUnique(Accepted(names, p)));
  }

  /** A directory holds a sequence only when at least two frames were found. */
  predicate IsSequence(image: map<int, string>) {
    |image| > 1
  }

  lemma {:induction false} DistinctCount(s: seq<int>)
    requires StrictlyIncreasing(s)
    ensures |set v | v in s| == |s|
    decreases |s|
  {
    if s != [] {
      DistinctCount(s[1..]);
      assert (set v | v in s) == {s[0]} + (set v | v in s[1..]);
    }
  }

  /** A map has as many entries as the strictly increasing list of its keys. */
  lemma KeysCount(image: map<int, string>, keys: seq<int>)
    requires StrictlyIncreasing(keys)
    requires forall v :: v in keys <==> v in image
    ensures |image| == |keys|
  {
    DistinctCount(keys);
    var ks := set v | v in keys;
    assert forall v :: v in image.Keys <==> v in ks;
    assert image.Keys == ks;
  }

  /**
    The scan loop over the listing, with `sorted(image.keys())`: the index
    and its frame numbers in increasing order.
   */
  method ScanDirectory(names: seq<string>, p: Pattern) returns (image: map<int, string>, frameNumbers: seq<int>)
    ensures image == Scan(names, p)
    ensures frameNumbers == FrameNumbers(names, p)
    ensures StrictlyIncreasing(frameNumbers)
    ensures forall v :: v in frameNumbers <==> v in image
    ensures |frameNumbers| == |image|
  {
    image := map[];
    var accepted := [];
    for i := 0 to |names|
      invariant image == Scan(names[..i], p)
      invariant accepted == Accepted(names[..i], p)
    {
      assert names[..i + 1][..i] == names[..i];
      match FrameOf(names[i], p) {
        case Some(f) =>
          image := image[f := JoinPath(p.basedir, names[i])];
          accepted := accepted + [f];
        case None =>
      }
    }
    assert names[..|names|] == names;
    frameNumbers := SortedUnique(accepted);
  }

  /**
    The frames of the scene's range with no file in the index, which the
    missing-frame detection compacts into the frame input; `None` when the
    scan found no sequence (fewer than two frames), where the detection
    cancels and the frame input keeps the timeline range.
   */
  function MissingToRender(image: map<int, string>, frameNumbers: seq<int>, sceneStart: int, sceneEnd: int): (r: Option<seq<int>>)
    ensures r.None? <==> |image| <= 1
    ensures r.Some? ==> StrictlyIncreasing(r.value)
  {
    if !(|image| > 1) then None
    else Some(MissingInTimeline(Arange(sceneStart, sceneEnd + 1, 1), frameNumbers))
  }

  /**
    The detection cancels exactly when the scan finds fewer than two
    frames; otherwise the detected frames are exactly the scene's frames that
    have no file, and the compact text written into the frame input reads
    back as them.
   */
  lemma MissingToRenderMeaning(names: seq<string>, p: Pattern, sceneStart: int, sceneEnd: int, filterIndividual: bool)
    ensures var image, frameNumbers := Scan(names, p), FrameNumbers(names, p);
            var missing := MissingToRender(image, frameNumbers, sceneStart, sceneEnd);
            (missing.None? <==> |image| <= 1) &&
            (missing.Some? ==>
               (forall v :: v in missing.value <==> sceneStart <= v <= sceneEnd && v !in image) &&
               (missing.value != [] ==> Evaluate(Rangify(missing.value), 1, filterIndividual) == Frames(missing.value)))
  {
    var image := Scan(names, p);
    var missing := MissingToRender(image, FrameNumbers(names, p), sceneStart, sceneEnd);
    if missing.Some? {
      forall v {
        MissingToRenderMember(names, p, sceneStart, sceneEnd, v);
      }
      MissingReadsBack(missing.value, image, sceneStart, sceneEnd, filterIndividual);
    }
  }

  lemma MissingReadsBack(missing: seq<int>, image: map<int, string>, sceneStart: int, sceneEnd: int, filterIndividual: bool)
    requires StrictlyIncreasing(missing)
    requires forall v :: v in missing <==> sceneStart <= v <= sceneEnd && v !in image
    ensures (forall v :: v in missing <==> sceneStart <= v <= sceneEnd && v !in image) &&
            (missing != [] ==> Evaluate(Rangify(missing), 1, filterIndividual) == Frames(missing))
  {
    RangifyRoundTrip(missing, filterIndividual);
  }

  lemma MissingToRenderMember(names: seq<string>, p: Pattern, sceneStart: int, sceneEnd: int, v: int)
    requires |Scan(names, p)| > 1
    ensures v in MissingToRender(Scan(names, p), FrameNumbers(names, p), sceneStart, sceneEnd).value
        <==> sceneStart <= v <= sceneEnd && v !in Scan(names, p)
  {
    RangeMember(sceneStart, sceneEnd + 1, v);
    ScanEntries(names, p, v);
  }

  // ---------------------------------------------------------------------
  // Planning the gap fill
  // ---------------------------------------------------------------------

  /** One planned copy: an existing image and the path it is copied to. */
  datatype Copy = Copy(source: string, target: string)

  /** `s` is the latest frame of the index before frame `t`. */
  predicate IsLatestBefore(image: map<int, string>, s: int, t: int) {
    s in image && s < t && forall k :: s < k < t ==> k !in image
  }

  /**
    The gap loop from `frame` up to `last` as (source frame, target frame)
    pairs: a frame of the index becomes the current source, every other
    frame is a target copied from the current source `prev`.
   */
  function GapWalk(image: map<int, string>, frame: int, last: int, prev: int): (r: seq<(int, int)>)
    requires prev in image
    ensures forall i :: 0 <= i < |r| ==> r[i].0 in image && frame <= r[i].1 <= last && r[i].1 !in image
    ensures forall i, j :: 0 <= i < j < |r| ==> r[i].1 < r[j].1
    decreases last - frame
  {
    if frame > last then []
    else if frame in image then GapWalk(image, frame + 1, last, frame)
    else [(prev, frame)] + GapWalk(image, frame + 1, last, prev)
  }

  /** Pairs copying frame `source` to every frame from `lo` up to, not including, `hi`. */
  function Lead(source: int, lo: int, hi: int): (r: seq<(int, int)>)
    ensures forall i :: 0 <= i < |r| ==> r[i].0 == source && lo <= r[i].1 < hi
    ensures forall i, j :: 0 <= i < j < |r| ==> r[i].1 < r[j].1
    decreases hi - lo
  {
    if lo >= hi then [] else [(source, lo)] + Lead(source, lo + 1, hi)
  }

  /**
    Every copy the operator plans, as frame pairs in planning order: the gaps
    between the first and the last frame (only when there are gaps), then,
    with the scene range on, the scene's frames before the first frame from
    the first image and those after the last frame from the last image.
   */
  function PlanPairs(image: map<int, string>, frameNumbers: seq<int>, sceneRange: bool, sceneStart: int, sceneEnd: int)
    : (r: seq<(int, int)>)
    requires frameNumbers != [] && forall v :: v in frameNumbers <==> v in image
    ensures forall i :: 0 <= i < |r| ==> r[i].0 in image
  {
    var first, last := frameNumbers[0], frameNumbers[|frameNumbers| - 1];
    (if MissingInSpan(frameNumbers) != [] then GapWalk(image, first, last, first) else [])
    + (if sceneRange then Lead(first, sceneStart, first) + Lead(last, last + 1, sceneEnd + 1) else [])
  }

  /** The path a copy to frame `frame` is written to: `re_path` with the sequence's pattern. */
  function Target(p: Pattern): int -> string
  {
    frame => RePath(p, frame)
  }

  /** Every pair copies from a frame of the index. */
  predicate FromImage(image: map<int, string>, pairs: seq<(int, int)>) {
    forall i :: 0 <= i < |pairs| ==> pairs[i].0 in image
  }

  /** The frame pairs as copies from the image's path to the target frame's path. */
  function Copies(image: map<int, string>, target: int -> string, pairs: seq<(int, int)>): (r: seq<Copy>)
    requires FromImage(image, pairs)
    ensures |r| == |pairs|
  {
    if pairs == [] then []
    else
      var x := pairs[|pairs| - 1];
      Copies(image, target, pairs[..|pairs| - 1]) + [Copy(image[x.0], target(x.1))]
  }

  /** `plan.setdefault(source, []).append(target)`. */
  function AddTarget(plan: map<string, seq<string>>, source: string, target: string): map<string, seq<string>>
  {
    plan[source := (if source in plan then plan[source] else []) + [target]]
  }

  /** The dictionary of copies per source, built by `setdefault(...).append(...)` for every copy in order. */
  function Group(copies: seq<Copy>): (plan: map<string, seq<string>>)
  {
    if copies == [] then map[]
    else
      var c := copies[|copies| - 1];
      AddTarget(Group(copies[..|copies| - 1]), c.source, c.target)
  }

  /** The targets of the copies from `source`, in order. */
  function TargetsFrom(copies: seq<Copy>, source: string): (r: seq<string>)
    ensures |r| <= |copies|
  {
    if copies == [] then []
    else (if copies[0].source == source then [copies[0].target] else []) + TargetsFrom(copies[1..], source)
  }

  lemma {:induction false} TargetsFromAppend(copies: seq<Copy>, c: Copy, source: string)
    ensures TargetsFrom(copies + [c], source)
         == TargetsFrom(copies, source) + (if c.source == source then [c.target] else [])
    decreases |copies|
  {
    if copies == [] {
      assert [c][1..] == [];
    } else {
      var head := if copies[0].source == source then [copies[0].target] else [];
      var tail := if c.source == source then [c.target] else [];
      assert (copies + [c])[0] == copies[0];
      assert (copies + [c])[1..] == copies[1..] + [c];
      TargetsFromAppend(copies[1..], c, source);
      assert head + (TargetsFrom(copies[1..], source) + tail) == (head + TargetsFrom(copies[1..], source)) + tail;
    }
  }

  /**
    The grouped plan has an entry for a source exactly when some copy reads
    from it, and that entry lists the copy targets from that source in order.
   */
  lemma {:induction false} GroupTargets(copies: seq<Copy>, source: string)
    ensures source in Group(copies) <==> TargetsFrom(copies, source) != []
    ensures source in Group(copies) ==> Group(copies)[source] == TargetsFrom(copies, source)
    decreases |copies|
  {
    if copies != [] {
      var init, c := copies[..|copies| - 1], copies[|copies| - 1];
      assert copies == init + [c];
      GroupTargets(init, source);
      TargetsFromAppend(init, c, source);
    }
  }

  /** One more planned copy extends the grouped plan the way `setdefault(...).append(...)` does. */
  lemma GroupStep(image: map<int, string>, target: int -> string, done: seq<(int, int)>, x: (int, int))
    requires FromImage(image, done)
    requires x.0 in image
    ensures Group(Copies(image, target, done + [x])) == AddTarget(Group(Copies(image, target, done)), image[x.0], target(x.1))
  {
    var all := done + [x];
    assert all[..|all| - 1] == done;
    var cs := Copies(image, target, all);
    assert cs[..|cs| - 1] == Copies(image, target, done);
  }

  /** The gap loop as a recursion: the plan it leaves when started at `frame` with source `prev` and plan `plan`. */
  function GapPlanAfter(image: map<int, string>, target: int -> string, frame: int, last: int, prev: int,
                        plan: map<string, seq<string>>): map<string, seq<string>>
    requires prev in image
    decreases last - frame
  {
    if frame > last then plan
    else if frame in image then GapPlanAfter(image, target, frame + 1, last, frame, plan)
    else GapPlanAfter(image, target, frame + 1, last, prev, AddTarget(plan, image[prev], target(frame)))
  }

  /** Continuing the gap loop groups the copies of the rest of the gap walk into the plan. */
  lemma {:induction false} GapPlanAfterWalk(image: map<int, string>, target: int -> string, frame: int, last: int, prev: int,
                                            done: seq<(int, int)>)
    requires prev in image
    requires FromImage(image, done)
    ensures GapPlanAfter(image, target, frame, last, prev, Group(Copies(image, target, done)))
         == Group(Copies(image, target, done + GapWalk(image, frame, last, prev)))
    decreases last - frame
  {
    if frame > last {
      assert done + [] == done;
    } else if frame in image {
      GapPlanAfterWalk(image, target, frame + 1, last, frame, done);
    } else {
      GapStep(image, target, frame, last, prev, done);
      GapPlanAfterWalk(image, target, frame + 1, last, prev, done + [(prev, frame)]);
    }
  }

  lemma GapStep(image: map<int, string>, target: int -> string, frame: int, last: int, prev: int, done: seq<(int, int)>)
    requires prev in image && frame <= last && frame !in image
    requires FromImage(image, done)
    ensures FromImage(image, done + [(prev, frame)])
    ensures done + GapWalk(image, frame, last, prev) == (done + [(prev, frame)]) + GapWalk(image, frame + 1, last, prev)
    ensures GapPlanAfter(image, target, frame, last, prev, Group(Copies(image, target, done)))
         == GapPlanAfter(image, target, frame + 1, last, prev, Group(Copies(image, target, done + [(prev, frame)])))
  {
    GroupStep(image, target, done, (prev, frame));
    MoveHead(done, (prev, frame), GapWalk(image, frame + 1, last, prev));
  }

  lemma MoveHead(done: seq<(int, int)>, x: (int, int), rest: seq<(int, int)>)
    ensures done + ([x] + rest) == (done + [x]) + rest
  {
  }

  /** A scene-range loop as a recursion: `source` copied to the frames from `lo` to before `hi`. */
  function LeadPlanAfter(image: map<int, string>, target: int -> string, source: int, lo: int, hi: int,
                         plan: map<string, seq<string>>): map<string, seq<string>>
    requires source in image
    decreases hi - lo
  {
    if lo >= hi then plan
    else LeadPlanAfter(image, target, source, lo + 1, hi, AddTarget(plan, image[source], target(lo)))
  }

  lemma {:induction false} LeadPlanAfterLead(image: map<int, string>, target: int -> string, source: int, lo: int, hi: int,
                                             done: seq<(int, int)>)
    requires source in image
    requires FromImage(image, done)
    ensures LeadPlanAfter(image, target, source, lo, hi, Group(Copies(image, target, done)))
         == Group(Copies(image, target, done + Lead(source, lo, hi)))
    decreases hi - lo
  {
    if lo >= hi {
      assert done + [] == done;
    } else {
      LeadStep(image, target, source, lo, hi, done);
      LeadPlanAfterLead(image, target, source, lo + 1, hi, done + [(source, lo)]);
    }
  }

  lemma LeadStep(image: map<int, string>, target: int -> string, source: int, lo: int, hi: int, done: seq<(int, int)>)
    requires source in image && lo < hi
    requires FromImage(image, done)
    ensures FromImage(image, done + [(source, lo)])
    ensures done + Lead(source, lo, hi) == (done + [(source, lo)]) + Lead(source, lo + 1, hi)
    ensures LeadPlanAfter(image, target, source, lo, hi, Group(Copies(image, target, done)))
         == LeadPlanAfter(image, target, source, lo + 1, hi, Group(Copies(image, target, done + [(source, lo)])))
  {
    GroupStep(image, target, done, (source, lo));
    MoveHead(done, (source, lo), Lead(source, lo + 1, hi));
  }

  /** The gap loop: every frame from `first` to `last` that has no image is planned as a copy of the latest image before it. */
  method PlanGapLoop(image: map<int, string>, target: int -> string, first: int, last: int)
    returns (plan: map<string, seq<string>>)
    requires first in image
    ensures plan == Group(Copies(image, target, GapWalk(image, first, last, first)))
  {
    plan := map[];
    var prev := first;
    var frame := first;
    while frame <= last
      invariant prev in image
      invariant GapPlanAfter(image, target, frame, last, prev, plan) == GapPlanAfter(image, target, first, last, first, map[])
      decreases last - frame
    {
      if frame !in image {
        var source := image[prev];
        plan := plan[source := (if source in plan then plan[source] else []) + [target(frame)]];
      } else {
        prev := frame;
      }
      frame := frame + 1;
    }
    GapPlanAfterWalk(image, target, first, last, first, []);
    assert [] + GapWalk(image, first, last, first) == GapWalk(image, first, last, first);
  }

  /**
    A scene-range loop: every frame from `lo` up to, not including, `hi` is
    planned as a copy of frame `source`'s image, after the copies `done0`.
   */
  method PlanLeadLoop(image: map<int, string>, target: int -> string, source: int, lo: int, hi: int,
                      plan0: map<string, seq<string>>, ghost done0: seq<(int, int)>)
    returns (plan: map<string, seq<string>>)
    requires source in image && FromImage(image, done0)
    requires plan0 == Group(Copies(image, target, done0))
    ensures FromImage(image, done0 + Lead(source, lo, hi))
    ensures plan == Group(Copies(image, target, done0 + Lead(source, lo, hi)))
  {
    plan := plan0;
    var i := lo;
    while i < hi
      invariant LeadPlanAfter(image, target, source, i, hi, plan) == LeadPlanAfter(image, target, source, lo, hi, plan0)
      decreases hi - i
    {
      var path := image[source];
      plan := plan[path := (if path in plan then plan[path] else []) + [target(i)]];
      i := i + 1;
    }
    LeadPlanAfterLead(image, target, source, lo, hi, done0);
  }

  lemma Associate(a: seq<(int, int)>, b: seq<(int, int)>, c: seq<(int, int)>)
    ensures a + (b + c) == (a + b) + c
  {
  }

  /** The pairs of the plan as the parts the three loops produce. */
  lemma PlanPairsParts(image: map<int, string>, frameNumbers: seq<int>, sceneRange: bool, sceneStart: int, sceneEnd: int,
                       first: int, last: int, walk: seq<(int, int)>, before: seq<(int, int)>, after: seq<(int, int)>)
    requires frameNumbers != [] && forall v :: v in frameNumbers <==> v in image
    requires first == frameNumbers[0] && last == frameNumbers[|frameNumbers| - 1]
    requires walk == if MissingInSpan(frameNumbers) != [] then GapWalk(image, first, last, first) else []
    requires before == Lead(first, sceneStart, first) && after == Lead(last, last + 1, sceneEnd + 1)
    ensures PlanPairs(image, frameNumbers, sceneRange, sceneStart, sceneEnd)
              == if sceneRange then (walk + before) + after else walk
  {
    var pairs := PlanPairs(image, frameNumbers, sceneRange, sceneStart, sceneEnd);
    assert pairs == walk + (if sceneRange then before + after else []);
    RegroupParts(pairs, walk, before, after, sceneRange);
  }

  lemma RegroupParts(pairs: seq<(int, int)>, walk: seq<(int, int)>, before: seq<(int, int)>, after: seq<(int, int)>,
                     sceneRange: bool)
    requires pairs == walk + (if sceneRange then before + after else [])
    ensures pairs == if sceneRange then (walk + before) + after else walk
  {
    assert walk + [] == walk;
    Associate(walk, before, after);
  }

  /**
    The planning part of the gap filler: the frames between the first and
    the last found frame, then the scene's range before and after them.
    The scan must have found a sequence.
   */
  method FillGapPlan(image: map<int, string>, frameNumbers: seq<int>, p: Pattern,
                     sceneRange: bool, sceneStart: int, sceneEnd: int)
    returns (plan: map<string, seq<string>>)
    requires |frameNumbers| > 1 && StrictlyIncreasing(frameNumbers)
    requires forall v :: v in frameNumbers <==> v in image
    ensures plan == Group(Copies(image, Target(p), PlanPairs(image, frameNumbers, sceneRange, sceneStart, sceneEnd)))
  {
    var first, last := frameNumbers[0], frameNumbers[|frameNumbers| - 1];
    assert first in image && last in image;
    ghost var walk: seq<(int, int)> := [];
    plan := map[];
    if MissingInSpan(frameNumbers) != [] {
      plan := PlanGapLoop(image, Target(p), first, last);
      walk := GapWalk(image, first, last, first);
    }
    PlanPairsParts(image, frameNumbers, sceneRange, sceneStart, sceneEnd, first, last, walk,
                   Lead(first, sceneStart, first), Lead(last, last + 1, sceneEnd + 1));
    if sceneRange {
      plan := PlanLeadLoop(image, Target(p), first, sceneStart, first, plan, walk);
      plan := PlanLeadLoop(image, Target(p), last, last + 1, sceneEnd + 1, plan, walk + Lead(first, sceneStart, first));
    }
  }

  /**
    The gap filler's execute, without the copying: `None` ("No valid image
    sequence") when the path has no `#` or the listing holds fewer than two
    frames of the sequence, otherwise the planned copies per source image.
   */
  method FillSequenceGaps(sequencePath: string, abspath: string -> string, realpath: string -> string,
                          names: seq<string>, sceneRange: bool, sceneStart: int, sceneEnd: int)
    returns (r: Option<map<string, seq<string>>>)
    ensures SequencePattern(sequencePath, abspath, realpath).None? ==> r.None?
    ensures SequencePattern(sequencePath, abspath, realpath).Some? ==>
              var p := SequencePattern(sequencePath, abspath, realpath).value;
              (r.None? <==> |Scan(names, p)| <= 1) &&
              (r.Some? ==> r.value == Group(Copies(Scan(names, p), Target(p),
                                                   PlanPairs(Scan(names, p), FrameNumbers(names, p), sceneRange, sceneStart, sceneEnd))))
  {
    var pattern := SequencePattern(sequencePath, abspath, realpath);
    if pattern.None? {
      return None;
    }
    var p := pattern.value;
    var image, frameNumbers := ScanDirectory(names, p);
    if !(|image| > 1) {
      return None;
    }
    var plan := FillGapPlan(image, frameNumbers, p, sceneRange, sceneStart, sceneEnd);
    return Some(plan);
  }

  // ---------------------------------------------------------------------
  // What the plan copies
  // ---------------------------------------------------------------------

  lemma {:induction false} LeadMembers(source: int, lo: int, hi: int, s: int, t: int)
    ensures (s, t) in Lead(source, lo, hi) <==> s == source && lo <= t < hi
    decreases hi - lo
  {
    if lo < hi {
      LeadMembers(source, lo + 1, hi, s, t);
    }
  }

  lemma LatestUnique(image: map<int, string>, a: int, b: int, t: int)
    requires IsLatestBefore(image, a, t) && IsLatestBefore(image, b, t)
    ensures a == b
  {
  }

  /**
    The gap walk copies to exactly the frames without an image, each from
    the latest image before it.
   */
  lemma {:induction false} GapWalkMembers(image: map<int, string>, frame: int, last: int, prev: int, s: int, t: int)
    requires prev in image && prev <= frame
    requires forall k :: prev < k < frame ==> k !in image
    ensures (s, t) in GapWalk(image, frame, last, prev) <==> frame <= t <= last && t !in image && IsLatestBefore(image, s, t)
    decreases last - frame
  {
    if frame <= last {
      if frame in image {
        GapWalkMembers(image, frame + 1, last, frame, s, t);
      } else {
        GapWalkMembers(image, frame + 1, last, prev, s, t);
        if t == frame && IsLatestBefore(image, s, t) {
          LatestUnique(image, s, prev, t);
        }
      }
    }
  }

  /** Every frame the gap walk passes that has no image gets a copy. */
  lemma {:induction false} GapWalkSource(image: map<int, string>, frame: int, last: int, prev: int, t: int) returns (s: int)
    requires prev in image
    requires frame <= t <= last && t !in image
    ensures (s, t) in GapWalk(image, frame, last, prev)
    decreases last - frame
  {
    if frame == t {
      s := prev;
      assert GapWalk(image, frame, last, prev)[0] == (prev, frame);
    } else if frame in image {
      s := GapWalkSource(image, frame + 1, last, frame, t);
      assert GapWalk(image, frame, last, prev) == GapWalk(image, frame + 1, last, frame);
    } else {
      s := GapWalkSource(image, frame + 1, last, prev, t);
      assert GapWalk(image, frame, last, prev) == [(prev, frame)] + GapWalk(image, frame + 1, last, prev);
    }
  }

  /**
    The planned copies: a frame strictly between the first and the last
    frame that has no image is copied from the latest image before it; with
    the scene range on, a scene frame before the first frame is copied from
    the first image and one after the last frame from the last image.
    Nothing else is planned.
   */
  lemma PlanMembers(image: map<int, string>, frameNumbers: seq<int>, sceneRange: bool, sceneStart: int, sceneEnd: int,
                    s: int, t: int)
    requires |frameNumbers| > 1 && StrictlyIncreasing(frameNumbers)
    requires forall v :: v in frameNumbers <==> v in image
    ensures var first, last := frameNumbers[0], frameNumbers[|frameNumbers| - 1];
            (s, t) in PlanPairs(image, frameNumbers, sceneRange, sceneStart, sceneEnd) <==>
              (first < t < last && t !in image && IsLatestBefore(image, s, t)) ||
              (sceneRange && sceneStart <= t < first && s == first) ||
              (sceneRange && last < t <= sceneEnd && s == last)
  {
    var first, last := frameNumbers[0], frameNumbers[|frameNumbers| - 1];
    var walk := if MissingInSpan(frameNumbers) != [] then GapWalk(image, first, last, first) else [];
    var before, after := Lead(first, sceneStart, first), Lead(last, last + 1, sceneEnd + 1);
    PlanPairsParts(image, frameNumbers, sceneRange, sceneStart, sceneEnd, first, last, walk, before, after);
    GapPartMembers(image, frameNumbers, first, last, walk, s, t);
    LeadMembers(first, sceneStart, first, s, t);
    LeadMembers(last, last + 1, sceneEnd + 1, s, t);
    PartsMembers(PlanPairs(image, frameNumbers, sceneRange, sceneStart, sceneEnd), walk, before, after, sceneRange,
                 image, first, last, sceneStart, sceneEnd, s, t);
  }

  /** A pair is in the plan when it is in one of the parts the plan is made of. */
  lemma PartsMembers(pairs: seq<(int, int)>, walk: seq<(int, int)>, before: seq<(int, int)>, after: seq<(int, int)>,
                     sceneRange: bool, image: map<int, string>, first: int, last: int, sceneStart: int, sceneEnd: int,
                     s: int, t: int)
    requires pairs == if sceneRange then (walk + before) + after else walk
    requires (s, t) in walk <==> first < t < last && t !in image && IsLatestBefore(image, s, t)
    requires (s, t) in before <==> s == first && sceneStart <= t < first
    requires (s, t) in after <==> s == last && last + 1 <= t < sceneEnd + 1
    ensures (s, t) in pairs <==>
              (first < t < last && t !in image && IsLatestBefore(image, s, t)) ||
              (sceneRange && sceneStart <= t < first && s == first) ||
              (sceneRange && last < t <= sceneEnd && s == last)
  {
  }

  /** The gap part of the plan: only when there are gaps, which are the frames strictly inside without an image. */
  lemma GapPartMembers(image: map<int, string>, frameNumbers: seq<int>, first: int, last: int, walk: seq<(int, int)>,
                        s: int, t: int)
    requires |frameNumbers| > 1 && StrictlyIncreasing(frameNumbers)
    requires forall v :: v in frameNumbers <==> v in image
    requires first == frameNumbers[0] && last == frameNumbers[|frameNumbers| - 1]
    requires walk == if MissingInSpan(frameNumbers) != [] then GapWalk(image, first, last, first) else []
    ensures (s, t) in walk <==> first < t < last && t !in image && IsLatestBefore(image, s, t)
  {
    assert first in image && last in image;
    MissingInSpanMembers(frameNumbers, t);
    if MissingInSpan(frameNumbers) != [] {
      GapWalkMembers(image, first, last, first, s, t);
    }
  }

  /**
    After the copies, every frame from the earlier of the scene's start and
    the first frame to the later of the scene's end and the last frame has a
    file when the scene range is on (between the first and the last frame
    when it is off), and no frame that already has an image is a target.
   */
  lemma PlanCovers(image: map<int, string>, frameNumbers: seq<int>, sceneRange: bool, sceneStart: int, sceneEnd: int, t: int)
    requires |frameNumbers| > 1 && StrictlyIncreasing(frameNumbers)
    requires forall v :: v in frameNumbers <==> v in image
    ensures var first, last := frameNumbers[0], frameNumbers[|frameNumbers| - 1];
            (exists s :: (s, t) in PlanPairs(image, frameNumbers, sceneRange, sceneStart, sceneEnd)) <==>
              t !in image && (first < t < last || (sceneRange && (sceneStart <= t < first || last < t <= sceneEnd)))
  {
    var first, last := frameNumbers[0], frameNumbers[|frameNumbers| - 1];
    var pairs := PlanPairs(image, frameNumbers, sceneRange, sceneStart, sceneEnd);
    assert first in image && last in image;
    forall s | (s, t) in pairs
      ensures t !in image && (first < t < last || (sceneRange && (sceneStart <= t < first || last < t <= sceneEnd)))
    {
      PlanMembers(image, frameNumbers, sceneRange, sceneStart, sceneEnd, s, t);
    }
    if t !in image && first < t < last {
      MissingInSpanMembers(frameNumbers, t);
      var s := GapWalkSource(image, first, last, first, t);
      PlanMembers(image, frameNumbers, sceneRange, sceneStart, sceneEnd, s, t);
      GapWalkMembers(image, first, last, first, s, t);
      assert (s, t) in pairs;
    } else if t !in image && sceneRange && sceneStart <= t < first {
      PlanMembers(image, frameNumbers, sceneRange, sceneStart, sceneEnd, first, t);
      assert (first, t) in pairs;
    } else if t !in image && sceneRange && last < t <= sceneEnd {
      PlanMembers(image, frameNumbers, sceneRange, sceneStart, sceneEnd, last, t);
      assert (last, t) in pairs;
    }
  }

  /** No frame is the target of two copies. */
  predicate DistinctTargets(pairs: seq<(int, int)>) {
    forall i, j :: 0 <= i < j < |pairs| ==> pairs[i].1 != pairs[j].1
  }

  lemma ConcatDistinct(a: seq<(int, int)>, b: seq<(int, int)>)
    requires DistinctTargets(a) && DistinctTargets(b)
    requires forall i, j :: 0 <= i < |a| && 0 <= j < |b| ==> a[i].1 != b[j].1
    ensures DistinctTargets(a + b)
  {
    forall i, j | 0 <= i < j < |a + b| ensures (a + b)[i].1 != (a + b)[j].1 {
      if j < |a| {
        assert (a + b)[i] == a[i] && (a + b)[j] == a[j];
      } else if i >= |a| {
        assert (a + b)[i] == b[i - |a|] && (a + b)[j] == b[j - |a|];
      } else {
        assert (a + b)[i] == a[i] && (a + b)[j] == b[j - |a|];
      }
    }
  }

  /** Every target frame is planned once, so no copy overwrites another. */
  lemma PlanTargetsDistinct(image: map<int, string>, frameNumbers: seq<int>, sceneRange: bool, sceneStart: int, sceneEnd: int)
    requires |frameNumbers| > 1 && StrictlyIncreasing(frameNumbers)
    requires forall v :: v in frameNumbers <==> v in image
    ensures DistinctTargets(PlanPairs(image, frameNumbers, sceneRange, sceneStart, sceneEnd))
  {
    var first, last := frameNumbers[0], frameNumbers[|frameNumbers| - 1];
    assert first in image;
    var walk := if MissingInSpan(frameNumbers) != [] then GapWalk(image, first, last, first) else [];
    var before, after := Lead(first, sceneStart, first), Lead(last, last + 1, sceneEnd + 1);
    PlanPairsParts(image, frameNumbers, sceneRange, sceneStart, sceneEnd, first, last, walk, before, after);
    IncreasingBounds(frameNumbers, last);
    if sceneRange {
      PartsDistinct(walk, before, after, first, last);
    }
  }

  /** The targets of the pairs all lie between `lo` and `hi`, both included. */
  predicate TargetsWithin(pairs: seq<(int, int)>, lo: int, hi: int) {
    forall i :: 0 <= i < |pairs| ==> lo <= pairs[i].1 <= hi
  }

  /** Gap copies inside the span and lead copies on either side of it never share a target. */
  lemma PartsDistinct(walk: seq<(int, int)>, before: seq<(int, int)>, after: seq<(int, int)>, first: int, last: int)
    requires DistinctTargets(walk) && DistinctTargets(before) && DistinctTargets(after)
    requires first <= last && TargetsWithin(walk, first, last)
    requires forall i :: 0 <= i < |before| ==> before[i].1 < first
    requires forall i :: 0 <= i < |after| ==> last < after[i].1
    ensures DistinctTargets((walk + before) + after)
  {
    ConcatDistinct(walk, before);
    forall i | 0 <= i < |walk + before| ensures (walk + before)[i].1 <= last {
      if i >= |walk| {
        assert (walk + before)[i] == before[i - |walk|];
      } else {
        assert (walk + before)[i] == walk[i];
      }
    }
    ConcatDistinct(walk + before, after);
  }
}
