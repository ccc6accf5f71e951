/**
  The add-on's helpers between frame lists and frame text: `rangify_frames`,
  which writes a list as comma-separated runs (`[1,2,3,5]` becomes `1-3,5`),
  and the gap finders `missing_frames` together with the extension of the
  gaps to the scene's frame range.
 */
module Ranges {
  import opened Wrappers
  import opened Text
  import opened FrameSpec
  import opened FrameProps

  // ---------------------------------------------------------------------
  // rangify_frames
  // ---------------------------------------------------------------------

  /** The length of the run of consecutive frames (each one more than the one before) that opens `xs`. */
  function RunLength(xs: seq<int>): (n: nat)
    requires xs != []
    ensures 1 <= n <= |xs|
    ensures forall i :: 0 <= i < n ==> xs[i] == xs[0] + i
    ensures n < |xs| ==> xs[n] != xs[0] + n
  {
    if |xs| == 1 || xs[1] != xs[0] + 1 then 1 else 1 + RunLength(xs[1..])
  }

  /** One group written out: `first` for a group of one, `first-last` otherwise. */
  function RunText(run: seq<int>): (r: string)
    requires run != []
    ensures r != []
  {
    if |run| == 1 then IntToString(run[0])
    else IntToString(run[0]) + "-" + IntToString(run[|run| - 1])
  }

  /** `rangify_frames`: the groups of consecutive frames, in list order, joined with `,`. */
  function Rangify(xs: seq<int>): (r: string)
    ensures r == [] <==> xs == []
    decreases |xs|
  {
    if xs == [] then []
    else
      var n := RunLength(xs);
      RunText(xs[..n]) + (if n == |xs| then [] else "," + Rangify(xs[n..]))
  }

  // ---------------------------------------------------------------------
  // Reading the runs back
  // ---------------------------------------------------------------------

  lemma {:induction false} DigitRunExact(s: string, p: nat, n: nat)
    requires p + n <= |s|
    requires forall i :: p <= i < p + n ==> IsDigit(s[i])
    requires p + n == |s| || !IsDigit(s[p + n])
    ensures DigitRunAt(s, p) == n
    decreases n
  {
    if n > 0 {
      DigitRunExact(s, p + 1, n - 1);
    }
  }

  /** A numeral written by `str`, followed by a character that is not a digit, reads back as its number. */
  lemma SignedAtNumeral(s: string, p: nat, a: int)
    requires p + |IntToString(a)| <= |s| && s[p..p + |IntToString(a)|] == IntToString(a)
    requires p + |IntToString(a)| == |s| || !IsDigit(s[p + |IntToString(a)|])
    ensures SignedAt(s, p) == Some(Num(a, p + |IntToString(a)|))
  {
    var t := IntToString(a);
    assert s[p] == t[0];
    if a < 0 {
      var u := IntToString(-a);
      assert t == "-" + u && t[1..] == u;
      SliceTail(s, p, t);
      UnsignedNumeral(s, -a, p + 1);
    } else {
      NumeralHead(a);
      UnsignedNumeral(s, a, p);
    }
  }

  /** Where `t` sits at `p`, its tail sits one further on. */
  lemma SliceTail(s: string, p: nat, t: string)
    requires t != [] && p + |t| <= |s| && s[p..p + |t|] == t
    ensures s[p + 1..p + |t|] == t[1..]
  {
    forall i | 0 <= i < |t| - 1
      ensures s[p + 1..p + |t|][i] == t[1..][i]
    {
      assert s[p + 1 + i] == s[p..p + |t|][i + 1];
    }
  }

  /** The item a group of consecutive frames is read back as. */
  function RunItem(run: seq<int>): (r: Item)
    requires run != []
    ensures !r.excluded
  {
    if |run| == 1 then Item(false, Single(run[0])) else Item(false, Span(run[0], run[|run| - 1], None))
  }

  /** A numeral starts with a minus sign or a digit, and a non-negative one is all digits. */
  lemma NumeralHead(a: int)
    ensures var t := IntToString(a);
            (a < 0 ==> t[0] == '-') && (a >= 0 ==> AllDigits(t) && IsDigit(t[0]))
  {
  }

  /** A numeral at the start of the text is the start of an item without marker. */
  lemma NumeralStart(s: string, a: int)
    requires |IntToString(a)| <= |s| && s[..|IntToString(a)|] == IntToString(a)
    ensures !IsMark(s[0]) && SpaceRunAt(s, 0) == 0
  {
    NumeralHead(a);
    assert s[0] == IntToString(a)[0];
  }

  /** After a single numeral comes nothing or a `,`: no range follows. */
  lemma NoRangeAfter(s: string, a: int, p: nat)
    requires p <= |s| && (p == |s| || s[p] == ',')
    ensures RangeWithStepAt(s, a, p).None? && RangeAt(s, a, p).None?
  {
  }

  lemma MatchSingleText(s: string, a: int)
    requires |IntToString(a)| <= |s| && s[..|IntToString(a)|] == IntToString(a)
    requires |IntToString(a)| == |s| || s[|IntToString(a)|] == ','
    ensures MatchAt(s) == Some(Match(Item(false, Single(a)), |IntToString(a)|))
  {
    NumeralStart(s, a);
    assert s[0..|IntToString(a)|] == s[..|IntToString(a)|];
    SignedAtNumeral(s, 0, a);
    NoRangeAfter(s, a, |IntToString(a)|);
    MatchAtSingle(s, a, |IntToString(a)|);
  }

  /** An unmarked number with no range after it is matched as a single frame. */
  lemma MatchAtSingle(s: string, a: int, e: nat)
    requires e <= |s| && s != [] && !IsMark(s[0]) && SpaceRunAt(s, 0) == 0
    requires SignedAt(s, 0) == Some(Num(a, e))
    requires RangeWithStepAt(s, a, e).None? && RangeAt(s, a, e).None?
    ensures MatchAt(s) == Some(Match(Item(false, Single(a)), e))
  {
  }

  /** An unmarked number followed by a range without a step is matched as that range. */
  lemma MatchAtSpan(s: string, a: int, ea: nat, b: int, e: nat)
    requires ea <= |s| && s != [] && !IsMark(s[0]) && SpaceRunAt(s, 0) == 0
    requires SignedAt(s, 0) == Some(Num(a, ea))
    requires RangeWithStepAt(s, a, ea).None? && RangeAt(s, a, ea) == Some((Span(a, b, None), e))
    ensures MatchAt(s) == Some(Match(Item(false, Span(a, b, None)), e))
  {
  }

  /** `a-b` followed by nothing or `,` is read as the range from `a` to `b` without a step. */
  lemma RangeText(s: string, a: int, b: int, p: nat)
    requires p + 1 + |IntToString(b)| <= |s| && s[p] == '-'
    requires s[p + 1..p + 1 + |IntToString(b)|] == IntToString(b)
    requires p + 1 + |IntToString(b)| == |s| || s[p + 1 + |IntToString(b)|] == ','
    ensures RangeWithStepAt(s, a, p).None?
    ensures RangeAt(s, a, p) == Some((Span(a, b, None), p + 1 + |IntToString(b)|))
  {
    DashNumeral(s, b, p);
    var e := p + 1 + |IntToString(b)|;
    if b >= 0 {
      UnsignedNumeral(s, b, p + 1);
      assert StepMarkAt(s, e).None?;
    } else {
      NumeralHead(b);
      assert s[p + 1] == '-';
      assert UnsignedAt(s, p + 1).None?;
    }
  }

  /** The dash before `b` is found, and `b` is read after it. */
  lemma DashNumeral(s: string, b: int, p: nat)
    requires p + 1 + |IntToString(b)| <= |s| && s[p] == '-'
    requires s[p + 1..p + 1 + |IntToString(b)|] == IntToString(b)
    requires p + 1 + |IntToString(b)| == |s| || s[p + 1 + |IntToString(b)|] == ','
    ensures DashAt(s, p) == Some(p + 1)
    ensures SignedAt(s, p + 1) == Some(Num(b, p + 1 + |IntToString(b)|))
  {
    var tb := IntToString(b);
    NumeralHead(b);
    assert s[p + 1] == tb[0];
    assert !IsSpace(s[p]) && !IsSpace(s[p + 1]);
    SignedAtNumeral(s, p + 1, b);
  }

  /** A non-negative numeral is read as an unsigned number too. */
  lemma UnsignedNumeral(s: string, b: int, q: nat)
    requires b >= 0 && q + |IntToString(b)| <= |s|
    requires s[q..q + |IntToString(b)|] == IntToString(b)
    requires q + |IntToString(b)| == |s| || !IsDigit(s[q + |IntToString(b)|])
    ensures UnsignedAt(s, q) == Some(Num(b, q + |IntToString(b)|))
  {
    var tb := IntToString(b);
    NumeralHead(b);
    IntToStringValue(b);
    forall i | q <= i < q + |tb| ensures IsDigit(s[i]) {
      assert s[i] == tb[i - q];
    }
    DigitRunExact(s, q, |tb|);
  }

  /** A numeral opening the text is an unmarked number read to its end. */
  lemma NumeralOpens(s: string, a: int)
    requires |IntToString(a)| < |s| && s[..|IntToString(a)|] == IntToString(a) && s[|IntToString(a)|] == '-'
    ensures s != [] && !IsMark(s[0]) && SpaceRunAt(s, 0) == 0
    ensures SignedAt(s, 0) == Some(Num(a, |IntToString(a)|))
  {
    NumeralStart(s, a);
    assert s[0..|IntToString(a)|] == s[..|IntToString(a)|];
    SignedAtNumeral(s, 0, a);
  }

  /** A group's text at the start of the frame text, followed by nothing or by `,`, is matched as one item. */
  lemma MatchRun(run: seq<int>, rest: string)
    requires run != []
    requires rest == [] || rest[0] == ','
    ensures MatchAt(RunText(run) + rest) == Some(Match(RunItem(run), |RunText(run)|))
  {
    if |run| == 1 {
      MatchSingleRun(run[0], rest);
      assert RunText(run) == IntToString(run[0]) && RunItem(run) == Item(false, Single(run[0]));
    } else {
      MatchSpanRun(run[0], run[|run| - 1], rest);
      assert RunText(run) == IntToString(run[0]) + "-" + IntToString(run[|run| - 1]);
      assert RunItem(run) == Item(false, Span(run[0], run[|run| - 1], None));
    }
  }

  lemma MatchSingleRun(a: int, rest: string)
    requires rest == [] || rest[0] == ','
    ensures MatchAt(IntToString(a) + rest) == Some(Match(Item(false, Single(a)), |IntToString(a)|))
  {
    var ta := IntToString(a);
    var s := ta + rest;
    assert s[..|ta|] == ta;
    MatchSingleText(s, a);
  }

  lemma MatchSpanRun(a: int, b: int, rest: string)
    requires rest == [] || rest[0] == ','
    ensures MatchAt(IntToString(a) + "-" + IntToString(b) + rest)
            == Some(Match(Item(false, Span(a, b, None)), |IntToString(a) + "-" + IntToString(b)|))
  {
    var s := IntToString(a) + "-" + IntToString(b) + rest;
    var ea, e := |IntToString(a)|, |IntToString(a)| + 1 + |IntToString(b)|;
    assert |IntToString(a) + "-" + IntToString(b)| == e;
    SpanRunParts(a, b, rest, s, ea, e);
    MatchAtSpan(s, a, ea, b, e);
  }

  /** What the tokenizer's parts read in the text of the group `a-b` followed by nothing or by `,`. */
  lemma SpanRunParts(a: int, b: int, rest: string, s: string, ea: nat, e: nat)
    requires rest == [] || rest[0] == ','
    requires s == IntToString(a) + "-" + IntToString(b) + rest
    requires ea == |IntToString(a)| && e == ea + 1 + |IntToString(b)|
    ensures ea <= |s| && s != [] && !IsMark(s[0]) && SpaceRunAt(s, 0) == 0
    ensures SignedAt(s, 0) == Some(Num(a, ea))
    ensures RangeWithStepAt(s, a, ea).None? && RangeAt(s, a, ea) == Some((Span(a, b, None), e))
  {
    SpanHead(a, b, rest, s, ea);
    SpanTail(a, b, rest, s, ea, e);
  }

  lemma SpanHead(a: int, b: int, rest: string, s: string, ea: nat)
    requires rest == [] || rest[0] == ','
    requires s == IntToString(a) + "-" + IntToString(b) + rest
    requires ea == |IntToString(a)|
    ensures ea <= |s| && s != [] && !IsMark(s[0]) && SpaceRunAt(s, 0) == 0
    ensures SignedAt(s, 0) == Some(Num(a, ea))
  {
    SpanShape(IntToString(a), IntToString(b), rest, s);
    NumeralOpens(s, a);
  }

  lemma SpanTail(a: int, b: int, rest: string, s: string, ea: nat, e: nat)
    requires rest == [] || rest[0] == ','
    requires s == IntToString(a) + "-" + IntToString(b) + rest
    requires ea == |IntToString(a)| && e == ea + 1 + |IntToString(b)|
    ensures RangeWithStepAt(s, a, ea).None? && RangeAt(s, a, ea) == Some((Span(a, b, None), e))
  {
    SpanShape(IntToString(a), IntToString(b), rest, s);
    RangeText(s, a, b, ea);
  }

  /** Where the two numerals, the dash and the rest sit in `ta-tb` followed by the rest. */
  lemma SpanShape(ta: string, tb: string, rest: string, s: string)
    requires rest == [] || rest[0] == ','
    requires s == ta + "-" + tb + rest
    ensures |ta| + 1 + |tb| <= |s|
    ensures s[..|ta|] == ta && s[|ta|] == '-' && s[|ta| + 1..|ta| + 1 + |tb|] == tb
    ensures |ta| + 1 + |tb| == |s| || s[|ta| + 1 + |tb|] == ','
  {
    assert s[..|ta|] == ta;
    assert s[|ta| + 1..|ta| + 1 + |tb|] == tb;
  }

  /** A separating `,` is skipped. */
  lemma TokenizeComma(rest: string)
    ensures Tokenize("," + rest) == Tokenize(rest)
  {
    assert MatchAt("," + rest).None?;
    assert ("," + rest)[1..] == rest;
  }

  /** The items of a list's groups, in order. */
  function RunItems(xs: seq<int>): (r: seq<Item>)
    ensures forall j :: 0 <= j < |r| ==> !r[j].excluded
    decreases |xs|
  {
    if xs == [] then []
    else
      var n := RunLength(xs);
      [RunItem(xs[..n])] + RunItems(xs[n..])
  }

  /** The tokenizer reads the written list back as one unmarked item per group. */
  lemma {:induction false} TokenizeRangify(xs: seq<int>)
    ensures Tokenize(Rangify(xs)) == RunItems(xs)
    decreases |xs|
  {
    if xs != [] {
      var n := RunLength(xs);
      var run := xs[..n];
      var rest := if n == |xs| then [] else "," + Rangify(xs[n..]);
      var s := RunText(run) + rest;
      assert Rangify(xs) == s;
      MatchRun(run, rest);
      assert s[|RunText(run)|..] == rest;
      if n < |xs| {
        TokenizeComma(Rangify(xs[n..]));
        TokenizeRangify(xs[n..]);
      }
    }
  }

  lemma {:induction false} ArangeUnit(a: int, b: int)
    requires a <= b
    ensures |Arange(a, b, 1)| == b - a
    ensures forall i :: 0 <= i < b - a ==> Arange(a, b, 1)[i] == a + i
    decreases b - a
  {
    if a < b {
      ArangeUnit(a + 1, b);
    }
  }

  /** With increment 1 a group's item stands for exactly the group. */
  lemma RunValues(run: seq<int>)
    requires run != []
    requires forall i :: 0 <= i < |run| ==> run[i] == run[0] + i
    ensures Values(RunItem(run).body, 1) == Some(run)
  {
    if |run| > 1 {
      var a, b := run[0], run[|run| - 1];
      ArangeUnit(a, b);
      var range := Arange(a, b, 1);
      assert range[|range| - 1] == b - 1;
      assert IsClose(1, b - range[|range| - 1]);
      assert SpanValues(a, b, 1) == Some(range + [b]);
      assert range + [b] == run;
      assert Min(a, b) == a && Max(a, b) == b;
    } else {
      assert run == [run[0]];
    }
  }

  /** Over the groups of a list, with increment 1, the evaluator collects the list and excludes nothing. */
  lemma {:induction false} FoldRuns(xs: seq<int>, frames: seq<int>, filterIndividual: bool)
    ensures Fold(RunItems(xs), Acc(frames, [], [], false), 1, filterIndividual) == Some(Acc(frames + xs, [], [], false))
    decreases |xs|
  {
    if xs != [] {
      var n := RunLength(xs);
      var run, items := xs[..n], RunItems(xs);
      assert items == [RunItem(run)] + RunItems(xs[n..]);
      StepRun(frames, run, filterIndividual);
      FoldFirst(items, Acc(frames, [], [], false), Acc(frames + run, [], [], false), 1, filterIndividual);
      assert items[1..] == RunItems(xs[n..]);
      FoldRuns(xs[n..], frames + run, filterIndividual);
      AppendSplit(frames, xs, n);
    } else {
      assert frames + xs == frames;
    }
  }

  lemma AppendSplit(frames: seq<int>, xs: seq<int>, n: nat)
    requires n <= |xs|
    ensures frames + xs[..n] + xs[n..] == frames + xs
  {
    assert xs[..n] + xs[n..] == xs;
  }

  /** An unmarked group of consecutive frames, with increment 1, adds exactly the group to the frames. */
  lemma StepRun(frames: seq<int>, run: seq<int>, filterIndividual: bool)
    requires run != []
    requires forall i :: 0 <= i < |run| ==> run[i] == run[0] + i
    ensures StepItem(Acc(frames, [], [], false), RunItem(run), 1, filterIndividual) == Some(Acc(frames + run, [], [], false))
  {
    RunValues(run);
  }

  /** A fold over items whose first step succeeds continues from that step's accumulators. */
  lemma FoldFirst(items: seq<Item>, acc: Acc, next: Acc, increment: int, filterIndividual: bool)
    requires items != [] && StepItem(acc, items[0], increment, filterIndividual) == Some(next)
    ensures Fold(items, acc, increment, filterIndividual) == Fold(items[1..], next, increment, filterIndividual)
  {
  }

  lemma {:induction false} WithoutNothing(xs: seq<int>)
    ensures Without(xs, []) == xs
  {
    if xs != [] {
      WithoutNothing(xs[1..]);
    }
  }

  /** Sorting a list that is already strictly increasing, without its duplicates, changes nothing. */
  lemma {:induction false} SortedUniqueOfIncreasing(xs: seq<int>)
    requires StrictlyIncreasing(xs)
    ensures SortedUnique(xs) == xs
  {
    if xs != [] {
      SortedUniqueOfIncreasing(xs[1..]);
    }
  }

  /**
    Written with `rangify_frames` and read back by `filter_frames` with
    increment 1 (in either mode), a strictly increasing list of frames comes
    back unchanged; the empty list comes back as no match.
   */
  lemma RangifyRoundTrip(xs: seq<int>, filterIndividual: bool)
    requires StrictlyIncreasing(xs)
    ensures xs == [] ==> Evaluate(Rangify(xs), 1, filterIndividual) == NoMatch
    ensures xs != [] ==> Evaluate(Rangify(xs), 1, filterIndividual) == Frames(xs)
  {
    TokenizeRangify(xs);
    if xs != [] {
      var items := RunItems(xs);
      assert items != [];
      UnmarkedUnchanged(items, filterIndividual);
      FoldRuns(xs, [], filterIndividual);
      assert [] + xs == xs;
      FinishPlain(xs, filterIndividual);
      EvaluateFolded(Rangify(xs), 1, filterIndividual, items, Acc(xs, [], [], false));
    }
  }

  /** Propagation leaves items without markers alone. */
  lemma UnmarkedUnchanged(items: seq<Item>, filterIndividual: bool)
    requires forall j :: 0 <= j < |items| ==> !items[j].excluded
    ensures Propagate(items, filterIndividual) == items
  {
    assert FirstExcluded(items).None?;
    PropagateEffect(items, filterIndividual);
  }

  /** With nothing excluded, the final set arithmetic returns strictly increasing frames as they are. */
  lemma FinishPlain(xs: seq<int>, filterIndividual: bool)
    requires StrictlyIncreasing(xs)
    ensures Finish(Acc(xs, [], [], false), filterIndividual) == xs
  {
    assert Without([], []) == [];
    WithoutNothing(xs);
    SortedUniqueOfIncreasing(xs);
  }

  /** The evaluator's outcome once the items and the fold over them are known. */
  lemma EvaluateFolded(text: string, increment: int, filterIndividual: bool, items: seq<Item>, acc: Acc)
    requires Tokenize(text) != [] && Propagate(Tokenize(text), filterIndividual) == items
    requires Fold(items, Start, increment, filterIndividual) == Some(acc)
    ensures Evaluate(text, increment, filterIndividual) == Frames(Finish(acc, filterIndividual))
  {
  }

  /** Text holding one unmarked item evaluates to that item's frames. */
  lemma EvaluateOneItem(text: string, item: Item, increment: int, filterIndividual: bool, vs: seq<int>)
    requires Tokenize(text) == [item] && !item.excluded
    requires Values(item.body, increment) == Some(vs) && StrictlyIncreasing(vs)
    ensures Evaluate(text, increment, filterIndividual) == Frames(vs)
  {
    UnmarkedUnchanged([item], filterIndividual);
    var acc := Acc(vs, [], [], false);
    assert Start.frames + vs == vs;
    assert StepItem(Start, item, increment, filterIndividual) == Some(acc);
    FoldFirst([item], Start, acc, increment, filterIndividual);
    assert [item][1..] == [];
    FinishPlain(vs, filterIndividual);
    EvaluateFolded(text, increment, filterIndividual, [item], acc);
  }

  lemma RangifyThreeToFive()
    ensures Rangify([3, 4, 5]) == "3-5"
    ensures RunItems([3, 4, 5]) == [Item(false, Span(3, 5, None))]
  {
    var xs := [3, 4, 5];
    assert RunLength(xs[2..]) == 1;
    assert RunLength(xs[1..]) == 2;
    assert RunLength(xs) == 3;
    assert xs[..3] == xs;
    assert xs[3..] == [];
  }

  /**
    The round trip needs increment 1: read back with the scene's frame step,
    here 2, the group `3-5` loses its middle frame.
   */
  lemma RangifyAtFrameStep()
    ensures Evaluate(Rangify([3, 4, 5]), 2, false) == Frames([3, 5])
  {
    RangifyThreeToFive();
    TokenizeRangify([3, 4, 5]);
    SpanAtStepTwo();
    EvaluateOneItem("3-5", Item(false, Span(3, 5, None)), 2, false, [3, 5]);
  }

  lemma SpanAtStepTwo()
    ensures Values(Span(3, 5, None), 2) == Some([3, 5])
  {
    assert Arange(5, 5, 2) == [];
    assert Arange(3, 5, 2) == [3];
    assert IsClose(2, 5 - 3);
    assert Min(3, 5) == 3 && Max(3, 5) == 5;
    assert [3] + [5] == [3, 5];
  }

  // ---------------------------------------------------------------------
  // missing_frames
  // ---------------------------------------------------------------------

  /** `missing_frames(timeline, rendered)`: the timeline frames not rendered, sorted, once each. */
  function MissingInTimeline(timeline: seq<int>, rendered: seq<int>): (r: seq<int>)
    ensures StrictlyIncreasing(r)
    ensures forall v :: v in r <==> v in timeline && v !in rendered
  {
    SortedUnique(Without(timeline, rendered))
  }

  /** `missing_frames(frames)`: the frames from the first to the last given frame that are not given. */
  function MissingInSpan(frames: seq<int>): (r: seq<int>)
    requires frames != []
    ensures StrictlyIncreasing(r)
  {
    SortedUnique(Without(Arange(frames[0], frames[|frames| - 1] + 1, 1), frames))
  }

  lemma RangeMember(a: int, b: int, v: int)
    ensures v in Arange(a, b, 1) <==> a <= v < b
  {
    ArangeMember(a, b, 1, v);
    if a <= v {
      ModUnique(v - a, 1, v - a, 0);
    }
  }

  /** The gaps are exactly the frames between the first and the last given frame that are not given. */
  lemma MissingInSpanMembers(frames: seq<int>, v: int)
    requires frames != []
    ensures v in MissingInSpan(frames) <==> frames[0] <= v <= frames[|frames| - 1] && v !in frames
  {
    RangeMember(frames[0], frames[|frames| - 1] + 1, v);
  }

  // ---------------------------------------------------------------------
  // Extending the gaps to the scene's frame range
  // ---------------------------------------------------------------------

  predicate Sorted(s: seq<int>) {
    forall i, j :: 0 <= i < j < |s| ==> s[i] <= s[j]
  }

  function InsertSorted(x: int, s: seq<int>): (r: seq<int>)
    requires Sorted(s)
    ensures Sorted(r) && multiset(r) == multiset(s) + multiset{x}
    ensures r != [] && r[0] == if s == [] || x <= s[0] then x else s[0]
  {
    if s == [] || x <= s[0] then
      PrependSorted(x, s);
      [x] + s
    else
      SortedTail(s);
      var rest := InsertSorted(x, s[1..]);
      assert s[1..] != [] ==> s[0] <= s[1..][0];
      PrependSorted(s[0], rest);
      assert s == [s[0]] + s[1..];
      ConsMultiset(s[0], s[1..]);
      ConsMultiset(s[0], rest);
      [s[0]] + rest
  }

  /** An element no greater than the head of a sorted list goes in front of it. */
  lemma PrependSorted(h: int, t: seq<int>)
    requires Sorted(t) && (t == [] || h <= t[0])
    ensures Sorted([h] + t)
  {
    var r := [h] + t;
    forall i, j | 0 <= i < j < |r|
      ensures r[i] <= r[j]
    {
      assert r[j] == t[j - 1];
      if i > 0 {
        assert r[i] == t[i - 1];
      }
    }
  }

  lemma ConsMultiset(h: int, t: seq<int>)
    ensures multiset([h] + t) == multiset{h} + multiset(t)
  {
  }

  /** Python's `sorted` on a list of integers: sorted, with every element kept as often as it occurs. */
  function Sort(xs: seq<int>): (r: seq<int>)
    ensures Sorted(r) && multiset(r) == multiset(xs)
  {
    if xs == [] then []
    else
      assert xs == [xs[0]] + xs[1..];
      InsertSorted(xs[0], Sort(xs[1..]))
  }

  /** A list has only one sorted arrangement. */
  lemma {:induction false} SortedArrangementUnique(a: seq<int>, b: seq<int>)
    requires Sorted(a) && Sorted(b) && multiset(a) == multiset(b)
    ensures a == b
    decreases |a|
  {
    if a != [] {
      SortedHeads(a, b);
      SortedTails(a, b);
      SortedArrangementUnique(a[1..], b[1..]);
      SameHeadTail(a, b);
    } else {
      assert |b| == |multiset(b)|;
    }
  }

  /** Two sorted arrangements of the same elements start with the same, least, element. */
  lemma SortedHeads(a: seq<int>, b: seq<int>)
    requires Sorted(a) && Sorted(b) && multiset(a) == multiset(b) && a != []
    ensures b != [] && a[0] == b[0]
  {
    assert a[0] in multiset(b);
    var k :| 0 <= k < |b| && b[k] == a[0];
    assert b[0] in multiset(a);
    var m :| 0 <= m < |a| && a[m] == b[0];
  }

  /** Without their common head, two sorted arrangements of the same elements stay so. */
  lemma SortedTails(a: seq<int>, b: seq<int>)
    requires Sorted(a) && Sorted(b) && multiset(a) == multiset(b)
    requires a != [] && b != [] && a[0] == b[0]
    ensures Sorted(a[1..]) && Sorted(b[1..]) && multiset(a[1..]) == multiset(b[1..])
  {
    assert a == [a[0]] + a[1..];
    assert b == [b[0]] + b[1..];
    assert multiset(a[1..]) == multiset(a) - multiset{a[0]};
    assert multiset(b[1..]) == multiset(b) - multiset{b[0]};
    SortedTail(a);
    SortedTail(b);
  }

  lemma SortedTail(s: seq<int>)
    requires Sorted(s) && s != []
    ensures Sorted(s[1..])
  {
    forall i, j | 0 <= i < j < |s| - 1
      ensures s[1..][i] <= s[1..][j]
    {
      assert s[1..][i] == s[i + 1] && s[1..][j] == s[j + 1];
    }
  }

  lemma SameHeadTail(a: seq<int>, b: seq<int>)
    requires a != [] && b != [] && a[0] == b[0] && a[1..] == b[1..]
    ensures a == b
  {
    assert a == [a[0]] + a[1..];
    assert b == [b[0]] + b[1..];
  }

  /**
    The gaps extended to the scene: the frames from the scene's start up to
    the first found frame and after the last found frame up to the scene's
    end are added to the gaps, and the whole is sorted.
   */
  function ExtendToScene(missing: seq<int>, frames: seq<int>, sceneStart: int, sceneEnd: int): (r: seq<int>)
    requires frames != []
    ensures Sorted(r)
  {
    Sort(missing + Arange(sceneStart, frames[0], 1) + Arange(frames[|frames| - 1] + 1, sceneEnd + 1, 1))
  }

  lemma RangeIncreasing(a: int, b: int)
    ensures StrictlyIncreasing(Arange(a, b, 1))
    ensures forall v :: v in Arange(a, b, 1) <==> a <= v < b
  {
    if a <= b {
      ArangeUnit(a, b);
    }
    forall v ensures v in Arange(a, b, 1) <==> a <= v < b {
      RangeMember(a, b, v);
    }
  }

  /** Three strictly increasing lists, each wholly below the next, make one strictly increasing list. */
  lemma ConcatThree(lower: seq<int>, middle: seq<int>, upper: seq<int>, first: int, last: int)
    requires StrictlyIncreasing(lower) && StrictlyIncreasing(middle) && StrictlyIncreasing(upper)
    requires first <= last
    requires forall v :: v in lower ==> v < first
    requires forall v :: v in middle ==> first <= v <= last
    requires forall v :: v in upper ==> last < v
    ensures StrictlyIncreasing(lower + middle + upper)
  {
    var ys := lower + middle + upper;
    forall i, j | 0 <= i < j < |ys|
      ensures ys[i] < ys[j]
    {
      if i < |lower| {
        assert ys[i] == lower[i] && lower[i] in lower;
      } else if i < |lower| + |middle| {
        assert ys[i] == middle[i - |lower|] && middle[i - |lower|] in middle;
      } else {
        assert ys[i] == upper[i - |lower| - |middle|];
      }
      if j < |lower| {
        assert ys[j] == lower[j];
      } else if j < |lower| + |middle| {
        assert ys[j] == middle[j - |lower|] && middle[j - |lower|] in middle;
      } else {
        assert ys[j] == upper[j - |lower| - |middle|] && upper[j - |lower| - |middle|] in upper;
      }
    }
  }

  /** The scene's frames before the first found frame, the gaps, and the scene's frames after the last found frame, in that order, increase. */
  lemma SceneGapsArranged(frames: seq<int>, sceneStart: int, sceneEnd: int, gaps: seq<int>)
    requires frames != [] && StrictlyIncreasing(frames)
    requires gaps == Arange(sceneStart, frames[0], 1) + MissingInSpan(frames)
                     + Arange(frames[|frames| - 1] + 1, sceneEnd + 1, 1)
    ensures StrictlyIncreasing(gaps)
  {
    MissingInSpanBounds(frames);
    SceneOrder(sceneStart, sceneEnd, MissingInSpan(frames), frames[0], frames[|frames| - 1]);
  }

  lemma MissingInSpanBounds(frames: seq<int>)
    requires frames != [] && StrictlyIncreasing(frames)
    ensures frames[0] <= frames[|frames| - 1]
    ensures forall v :: v in MissingInSpan(frames) ==> frames[0] <= v <= frames[|frames| - 1]
  {
    forall v | v in MissingInSpan(frames) ensures frames[0] <= v <= frames[|frames| - 1] {
      MissingInSpanMembers(frames, v);
    }
  }

  lemma SceneOrder(sceneStart: int, sceneEnd: int, missing: seq<int>, first: int, last: int)
    requires first <= last && StrictlyIncreasing(missing)
    requires forall v :: v in missing ==> first <= v <= last
    ensures StrictlyIncreasing(Arange(sceneStart, first, 1) + missing + Arange(last + 1, sceneEnd + 1, 1))
  {
    RangeIncreasing(sceneStart, first);
    RangeIncreasing(last + 1, sceneEnd + 1);
    ConcatThree(Arange(sceneStart, first, 1), missing, Arange(last + 1, sceneEnd + 1, 1), first, last);
  }

  /** The extended gaps are the one sorted arrangement of the gaps and the two scene ranges. */
  lemma ExtendToSceneIs(missing: seq<int>, frames: seq<int>, sceneStart: int, sceneEnd: int)
    requires frames != []
    requires StrictlyIncreasing(Arange(sceneStart, frames[0], 1) + missing
                                + Arange(frames[|frames| - 1] + 1, sceneEnd + 1, 1))
    ensures ExtendToScene(missing, frames, sceneStart, sceneEnd)
            == Arange(sceneStart, frames[0], 1) + missing + Arange(frames[|frames| - 1] + 1, sceneEnd + 1, 1)
  {
    var lower := Arange(sceneStart, frames[0], 1);
    var upper := Arange(frames[|frames| - 1] + 1, sceneEnd + 1, 1);
    var ys := lower + missing + upper;
    assert multiset(ys) == multiset(missing + lower + upper);
    IncreasingSorted(ys);
    SortedArrangementUnique(ExtendToScene(missing, frames, sceneStart, sceneEnd), ys);
  }

  lemma IncreasingSorted(s: seq<int>)
    requires StrictlyIncreasing(s)
    ensures Sorted(s)
  {
  }

  lemma IncreasingBounds(frames: seq<int>, v: int)
    requires frames != [] && StrictlyIncreasing(frames) && v in frames
    ensures frames[0] <= v <= frames[|frames| - 1]
  {
  }

  lemma SceneGapMember(frames: seq<int>, sceneStart: int, sceneEnd: int, v: int)
    requires frames != [] && StrictlyIncreasing(frames)
    ensures v in Arange(sceneStart, frames[0], 1) + MissingInSpan(frames) + Arange(frames[|frames| - 1] + 1, sceneEnd + 1, 1)
            <==> Min(sceneStart, frames[0]) <= v <= Max(sceneEnd, frames[|frames| - 1]) && v !in frames
  {
    var first, last := frames[0], frames[|frames| - 1];
    ConcatMember(Arange(sceneStart, first, 1), MissingInSpan(frames), Arange(last + 1, sceneEnd + 1, 1), v);
    RangeMember(sceneStart, first, v);
    RangeMember(last + 1, sceneEnd + 1, v);
    MissingInSpanMembers(frames, v);
    MissingInSpanBounds(frames);
    if v in frames {
      IncreasingBounds(frames, v);
    }
    GapCases(sceneStart, sceneEnd, first, last, v, v in frames);
  }

  lemma ConcatMember(a: seq<int>, b: seq<int>, c: seq<int>, v: int)
    ensures v in a + b + c <==> v in a || v in b || v in c
  {
  }

  /** Below the first frame, between the first and the last, or above the last: the three parts of the extended gaps. */
  lemma GapCases(sceneStart: int, sceneEnd: int, first: int, last: int, v: int, found: bool)
    requires first <= last
    requires found ==> first <= v <= last
    ensures (sceneStart <= v < first || (first <= v <= last && !found) || last + 1 <= v < sceneEnd + 1)
            <==> Min(sceneStart, first) <= v <= Max(sceneEnd, last) && !found
  {
  }

  /**
    For a strictly increasing list of found frames, the gaps extended to the
    scene are strictly increasing and are exactly the frames not found from
    the earlier of the scene's start and the first found frame to the later
    of the scene's end and the last found frame.
   */
  lemma SceneGaps(frames: seq<int>, sceneStart: int, sceneEnd: int)
    requires frames != [] && StrictlyIncreasing(frames)
    ensures StrictlyIncreasing(ExtendToScene(MissingInSpan(frames), frames, sceneStart, sceneEnd))
    ensures forall v :: v in ExtendToScene(MissingInSpan(frames), frames, sceneStart, sceneEnd) <==>
              Min(sceneStart, frames[0]) <= v <= Max(sceneEnd, frames[|frames| - 1]) && v !in frames
  {
    var gaps := Arange(sceneStart, frames[0], 1) + MissingInSpan(frames)
                + Arange(frames[|frames| - 1] + 1, sceneEnd + 1, 1);
    SceneGapsArranged(frames, sceneStart, sceneEnd, gaps);
    ExtendToSceneIs(MissingInSpan(frames), frames, sceneStart, sceneEnd);
    SceneGapMembers(frames, sceneStart, sceneEnd, gaps);
  }

  lemma SceneGapMembers(frames: seq<int>, sceneStart: int, sceneEnd: int, gaps: seq<int>)
    requires frames != [] && StrictlyIncreasing(frames)
    requires gaps == Arange(sceneStart, frames[0], 1) + MissingInSpan(frames)
                     + Arange(frames[|frames| - 1] + 1, sceneEnd + 1, 1)
    ensures forall v :: v in gaps <==>
              Min(sceneStart, frames[0]) <= v <= Max(sceneEnd, frames[|frames| - 1]) && v !in frames
  {
    forall v
      ensures v in gaps <==> Min(sceneStart, frames[0]) <= v <= Max(sceneEnd, frames[|frames| - 1]) && v !in frames
    {
      SceneGapMember(frames, sceneStart, sceneEnd, v);
    }
  }
}
