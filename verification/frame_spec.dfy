/**
  The frame specification parser of the add-on (`filter_frames`): free text
  such as `1-10x2, ^5, 20-15` becomes an ordered, duplicate-free list of
  frame numbers.

  It is modelled in two layers, as the source is written:
  - the tokenizer, which cuts the items out of the text the way `findall`
    of the add-on's numeric pattern does, and reads each item the way the
    range and exclude patterns do;
  - the evaluator, which accumulates the frames, the excluded frames and
    (in isolate mode) the re-included frames item by item.

  Only integer notation is modelled: the text contains no `.`, so every
  value is integral and the result is always a list of integers.
 */
module FrameSpec {
  import opened Wrappers
  import opened Text

  // ---------------------------------------------------------------------
  // Items
  // ---------------------------------------------------------------------

  /** What an item denotes: one frame, or a range `first-last` with an optional `x`/`%` step. */
  datatype Body = Single(value: int) | Span(first: int, last: int, step: Option<int>)

  /** One item of the frame text; `excluded` is the leading `^` or `!` marker. */
  datatype Item = Item(excluded: bool, body: Body)

  predicate IsMark(c: char) { c == '^' || c == '!' }

  predicate IsSign(c: char) { c == '-' || c == '+' }

  predicate IsStepMark(c: char) { c == 'x' || c == '%' }

  // ---------------------------------------------------------------------
  // Tokenizer
  // ---------------------------------------------------------------------

  /** The length of the run of digits that starts at `p`. */
  function DigitRunAt(s: string, p: nat): (n: nat)
    requires p <= |s|
    ensures p + n <= |s|
    ensures forall i :: p <= i < p + n ==> IsDigit(s[i])
    ensures p + n == |s| || !IsDigit(s[p + n])
    decreases |s| - p
  {
    if p < |s| && IsDigit(s[p]) then 1 + DigitRunAt(s, p + 1) else 0
  }

  /** The length of the run of white space that starts at `p` (the lazy `\s*?` after the marker). */
  function SpaceRunAt(s: string, p: nat): (n: nat)
    requires p <= |s|
    ensures p + n <= |s|
    ensures forall i :: p <= i < p + n ==> IsSpace(s[i])
    ensures p + n == |s| || !IsSpace(s[p + n])
    decreases |s| - p
  {
    if p < |s| && IsSpace(s[p]) then 1 + SpaceRunAt(s, p + 1) else 0
  }

  /** `\s?`: one optional white-space character. */
  function OptSpace(s: string, p: nat): (n: nat)
    requires p <= |s|
    ensures p + n <= |s|
  {
    if p < |s| && IsSpace(s[p]) then 1 else 0
  }

  /** A number read from the text, and the index just after it. */
  datatype Num = Num(value: int, end: nat)

  /** An unsigned number: on integer text `\d*\.?\d+` is a maximal run of digits. */
  function UnsignedAt(s: string, p: nat): (r: Option<Num>)
    requires p <= |s|
    ensures r.Some? ==> p < r.value.end <= |s| && r.value.value >= 0
  {
    var n := DigitRunAt(s, p);
    if n == 0 then None else Some(Num(DigitsValue(s[p..p + n]), p + n))
  }

  /** `[-+]?` followed by a number; a sign not followed by a digit matches nothing. */
  function SignedAt(s: string, p: nat): (r: Option<Num>)
    requires p <= |s|
    ensures r.Some? ==> p < r.value.end <= |s|
  {
    if p < |s| && IsSign(s[p]) then
      match UnsignedAt(s, p + 1)
      case None => None
      case Some(m) => Some(Num(if s[p] == '-' then -m.value else m.value, m.end))
    else
      UnsignedAt(s, p)
  }

  /** `\s? \- \s?` between the two ends of a range: the index after it. */
  function DashAt(s: string, p: nat): (r: Option<nat>)
    requires p <= |s|
    ensures r.Some? ==> p < r.value <= |s|
  {
    var q := p + OptSpace(s, p);
    if q < |s| && s[q] == '-' then Some(q + 1 + OptSpace(s, q + 1)) else None
  }

  /** `\s? [x%] \s?` before the step of a range: the index after it. */
  function StepMarkAt(s: string, p: nat): (r: Option<nat>)
    requires p <= |s|
    ensures r.Some? ==> p < r.value <= |s|
  {
    var q := p + OptSpace(s, p);
    if q < |s| && IsStepMark(s[q]) then Some(q + 1 + OptSpace(s, q + 1)) else None
  }

  /** The first alternative of the pattern: `A-Bxs` (the end `B` carries no sign). */
  function RangeWithStepAt(s: string, a: int, p: nat): (r: Option<(Body, nat)>)
    requires p <= |s|
    ensures r.Some? ==> p < r.value.1 <= |s|
  {
    match DashAt(s, p)
    case None => None
    case Some(q) =>
      match UnsignedAt(s, q)
      case None => None
      case Some(b) =>
        match StepMarkAt(s, b.end)
        case None => None
        case Some(q2) =>
          match SignedAt(s, q2)
          case None => None
          case Some(st) => Some((Span(a, b.value, Some(st.value)), st.end))
  }

  /** The second alternative of the pattern: `A-B`, where `B` may carry a sign. */
  function RangeAt(s: string, a: int, p: nat): (r: Option<(Body, nat)>)
    requires p <= |s|
    ensures r.Some? ==> p < r.value.1 <= |s|
  {
    match DashAt(s, p)
    case None => None
    case Some(q) =>
      match SignedAt(s, q)
      case None => None
      case Some(b) => Some((Span(a, b.value, None), b.end))
  }

  /** An item cut out of the text, and its length. */
  datatype Match = Match(item: Item, len: nat)

  /**
    The item the numeric pattern matches at the start of `s`, if any: an
    optional marker, white space, an optional sign and a number, followed by
    a stepped range, a range or nothing more, tried in that order.
   */
  function MatchAt(s: string): (r: Option<Match>)
    ensures r.Some? ==> 0 < r.value.len <= |s|
  {
    if s == [] then None
    else
      var excluded := IsMark(s[0]);
      var p := if excluded then 1 else 0;
      var q := p + SpaceRunAt(s, p);
      match SignedAt(s, q)
      case None => None
      case Some(a) =>
        match RangeWithStepAt(s, a.value, a.end)
        case Some(m) => Some(Match(Item(excluded, m.0), m.1))
        case None =>
          match RangeAt(s, a.value, a.end)
          case Some(m) => Some(Match(Item(excluded, m.0), m.1))
          case None => Some(Match(Item(excluded, Single(a.value)), a.end))
  }

  /**
    `findall` of the numeric pattern: scanning from the left, each match is
    an item and the scan resumes after it; a character where nothing
    matches is skipped.  Faithful for text without `.`.
   */
  function Tokenize(s: string): (items: seq<Item>)
    decreases |s|
  {
    if s == [] then []
    else match MatchAt(s)
      case Some(m) => [m.item] + Tokenize(s[m.len..])
      case None => Tokenize(s[1..])
  }

  // ---------------------------------------------------------------------
  // Propagation of the exclude marker (global mode)
  // ---------------------------------------------------------------------

  /** The index of the first item carrying an exclude marker. */
  function FirstExcluded(items: seq<Item>): (r: Option<nat>)
    ensures r.Some? ==> r.value < |items| && items[r.value].excluded
    ensures r.Some? ==> forall j :: 0 <= j < r.value ==> !items[j].excluded
    ensures r.None? ==> forall j :: 0 <= j < |items| ==> !items[j].excluded
  {
    if items == [] then None
    else if items[0].excluded then Some(0)
    else match FirstExcluded(items[1..])
      case None => None
      case Some(i) => Some(i + 1)
  }

  function ExcludeAll(items: seq<Item>): (r: seq<Item>)
    ensures |r| == |items|
    ensures forall j :: 0 <= j < |items| ==> r[j] == Item(true, items[j].body)
  {
    if items == [] then [] else [Item(true, items[0].body)] + ExcludeAll(items[1..])
  }

  /**
    Outside isolate mode, every item after the first marked one is treated as
    marked too -- unless that first marked item is the very first item
    (index 0 reads as false in the source's test).
   */
  function Propagate(items: seq<Item>, filterIndividual: bool): (r: seq<Item>)
    ensures |r| == |items|
  {
    if filterIndividual then items
    else match FirstExcluded(items)
      case None => items
      case Some(i) => if i == 0 then items else items[..i] + ExcludeAll(items[i..])
  }

  /**
    Propagation keeps every item's value; in isolate mode, or when no item is
    marked, or when the first marked item is the first item, nothing changes;
    otherwise the items before the first marked one stay unmarked and every
    item from it on is marked.
   */
  lemma PropagateEffect(items: seq<Item>, filterIndividual: bool)
    ensures forall j :: 0 <= j < |items| ==> Propagate(items, filterIndividual)[j].body == items[j].body
    ensures filterIndividual || FirstExcluded(items) == Some(0) || FirstExcluded(items).None? ==>
              Propagate(items, filterIndividual) == items
    ensures !filterIndividual && FirstExcluded(items).Some? && FirstExcluded(items).value > 0 ==>
              (forall j :: 0 <= j < FirstExcluded(items).value ==> !Propagate(items, filterIndividual)[j].excluded) &&
              (forall j :: FirstExcluded(items).value <= j < |items| ==> Propagate(items, filterIndividual)[j].excluded)
  {
    var first := FirstExcluded(items);
    if !filterIndividual && first.Some? && first.value > 0 {
      var i := first.value;
      assert Propagate(items, filterIndividual) == items[..i] + ExcludeAll(items[i..]);
      ExcludeFrom(items, i);
    }
  }

  lemma ExcludeFrom(items: seq<Item>, i: nat)
    requires i <= |items|
    ensures forall j :: 0 <= j < i ==> (items[..i] + ExcludeAll(items[i..]))[j] == items[j]
    ensures forall j :: i <= j < |items| ==> (items[..i] + ExcludeAll(items[i..]))[j] == Item(true, items[j].body)
  {
    var r := items[..i] + ExcludeAll(items[i..]);
    forall j | i <= j < |items|
      ensures r[j] == Item(true, items[j].body)
    {
      assert r[j] == ExcludeAll(items[i..])[j - i];
    }
  }

  // ---------------------------------------------------------------------
  // Range expansion
  // ---------------------------------------------------------------------

  function Min(a: int, b: int): int { if a <= b then a else b }

  function Max(a: int, b: int): int { if a <= b then b else a }

  function Abs(a: int): nat { if a < 0 then -a else a }

  /** `numpy.arange(start, end, step)` on integers with a positive step. */
  function Arange(start: int, end: int, step: int): (r: seq<int>)
    requires step > 0
    ensures |r| > 0 <==> start < end
    ensures |r| > 0 ==> r[0] == start && r[|r| - 1] < end <= r[|r| - 1] + step
    decreases end - start
  {
    if start < end then [start] + Arange(start + step, end, step) else []
  }

  /** The k-th frame of `arange` is `start + k * step`. */
  lemma {:induction false} ArangeAt(start: int, end: int, step: int, k: nat)
    requires step > 0 && k < |Arange(start, end, step)|
    ensures Arange(start, end, step)[k] == start + k * step
    decreases end - start
  {
    if k > 0 {
      ArangeAt(start + step, end, step, k - 1);
    }
  }

  /**
    `numpy.isclose(a, b)` with its default tolerances, `|a - b| <= 1e-08 + 1e-05 * |b|`,
    written exactly for integers.
   */
  predicate IsClose(a: int, b: int) {
    100000 * Abs(a - b) <= Abs(b)
  }

  /**
    The frames of a range `lo-hi` with `lo < hi`: `arange(lo, hi, step)`, plus `hi`
    itself when the distance from the last generated frame to `hi` is close
    to the step.  A step that is not positive makes the source raise.
   */
  function SpanValues(lo: int, hi: int, step: int): (r: Option<seq<int>>)
    requires lo < hi
    ensures r.Some? <==> step > 0
  {
    if step <= 0 then None
    else
      var range := Arange(lo, hi, step);
      Some(range + if IsClose(step, hi - range[|range| - 1]) then [hi] else [])
  }

  /**
    The frames an item stands for, whatever its marker: a single value, or a
    range taken from its smaller to its larger end (`A-A` is just `A`).
    `None` when the source raises (a range with a step that is not positive).
   */
  function Values(body: Body, increment: int): (r: Option<seq<int>>)
  {
    match body
    case Single(v) => Some([v])
    case Span(a, b, st) =>
      var lo, hi := Min(a, b), Max(a, b);
      if lo < hi then SpanValues(lo, hi, if st.Some? then st.value else increment)
      else Some([lo])
  }

  /** A single value or a range with distinct ends (not `A-A`): only these touch the isolate-mode bookkeeping. */
  predicate Proper(body: Body) {
    body.Single? || Min(body.first, body.last) < Max(body.first, body.last)
  }

  /** The item yields `v`. */
  predicate Contributes(item: Item, increment: int, v: int) {
    var r := Values(item.body, increment);
    r.Some? && v in r.value
  }

  // ---------------------------------------------------------------------
  // Evaluation
  // ---------------------------------------------------------------------

  /** The evaluator's accumulators: `frame_list`, `exclude_list`, `conform_list`, `conform_flag`. */
  datatype Acc = Acc(frames: seq<int>, excludes: seq<int>, conforms: seq<int>, conformFlag: bool)

  /** One item's effect on the accumulators; `None` when the source raises. */
  function StepItem(acc: Acc, item: Item, increment: int, filterIndividual: bool): (r: Option<Acc>)
  {
    match Values(item.body, increment)
    case None => None
    case Some(vs) =>
      if item.excluded then
        Some(acc.(excludes := acc.excludes + vs,
                  conformFlag := acc.conformFlag || (filterIndividual && Proper(item.body))))
      else
        Some(acc.(frames := acc.frames + vs,
                  conforms := if acc.conformFlag && Proper(item.body) then acc.conforms + vs else acc.conforms))
  }

  /** The accumulators after all items, from `acc`. */
  function Fold(items: seq<Item>, acc: Acc, increment: int, filterIndividual: bool): (r: Option<Acc>)
    decreases |items|
  {
    if items == [] then Some(acc)
    else match StepItem(acc, items[0], increment, filterIndividual)
      case None => None
      case Some(next) => Fold(items[1..], next, increment, filterIndividual)
  }

  lemma FoldAt(items: seq<Item>, i: nat, acc: Acc, increment: int, filterIndividual: bool)
    requires i < |items|
    ensures Fold(items[i..], acc, increment, filterIndividual)
         == match StepItem(acc, items[i], increment, filterIndividual)
            case None => None
            case Some(next) => Fold(items[i + 1..], next, increment, filterIndividual)
  {
    assert items[i..][1..] == items[i + 1..];
  }

  lemma StepSingle(acc: Acc, excluded: bool, v: int, increment: int, filterIndividual: bool)
    ensures StepItem(acc, Item(excluded, Single(v)), increment, filterIndividual)
         == Some(if excluded then Acc(acc.frames, acc.excludes + [v], acc.conforms, acc.conformFlag || filterIndividual)
                 else Acc(acc.frames + [v], acc.excludes, if acc.conformFlag then acc.conforms + [v] else acc.conforms, acc.conformFlag))
  {
  }

  lemma StepSpan(acc: Acc, excluded: bool, a: int, b: int, st: Option<int>, increment: int, filterIndividual: bool,
                 range: seq<int>, closing: bool, vs: seq<int>)
    requires Min(a, b) < Max(a, b)
    requires (if st.None? then increment else st.value) > 0
    requires range == Arange(Min(a, b), Max(a, b), if st.None? then increment else st.value)
    requires closing == IsClose(if st.None? then increment else st.value, Max(a, b) - range[|range| - 1])
    requires vs == range + (if closing then [Max(a, b)] else [])
    ensures StepItem(acc, Item(excluded, Span(a, b, st)), increment, filterIndividual)
         == Some(if excluded then Acc(acc.frames, acc.excludes + vs, acc.conforms, acc.conformFlag || filterIndividual)
                 else Acc(acc.frames + vs, acc.excludes, if acc.conformFlag then acc.conforms + vs else acc.conforms, acc.conformFlag))
  {
  }

  lemma StepRaises(acc: Acc, excluded: bool, a: int, b: int, st: Option<int>, increment: int, filterIndividual: bool)
    requires Min(a, b) < Max(a, b)
    requires (if st.None? then increment else st.value) <= 0
    ensures StepItem(acc, Item(excluded, Span(a, b, st)), increment, filterIndividual) == None
  {
  }

  lemma StepPoint(acc: Acc, excluded: bool, a: int, b: int, st: Option<int>, increment: int, filterIndividual: bool)
    requires Min(a, b) == Max(a, b)
    ensures StepItem(acc, Item(excluded, Span(a, b, st)), increment, filterIndividual)
         == Some(if excluded then acc.(excludes := acc.excludes + [Min(a, b)]) else acc.(frames := acc.frames + [Min(a, b)]))
  {
  }

  /** The elements of `xs` that are not in `ys`, in order. */
  function Without(xs: seq<int>, ys: seq<int>): (r: seq<int>)
    ensures forall v :: v in r <==> v in xs && v !in ys
  {
    if xs == [] then [] else (if xs[0] in ys then [] else [xs[0]]) + Without(xs[1..], ys)
  }

  predicate StrictlyIncreasing(s: seq<int>) {
    forall i, j :: 0 <= i < j < |s| ==> s[i] < s[j]
  }

  /** Insert `x` into a strictly increasing list, unless it is already there. */
  function Insert(x: int, s: seq<int>): (r: seq<int>)
    requires StrictlyIncreasing(s)
    ensures StrictlyIncreasing(r)
    ensures forall v :: v in r <==> v == x || v in s
  {
    if s == [] then [x]
    else if x < s[0] then [x] + s
    else if x == s[0] then s
    else
      var rest := Insert(x, s[1..]);
      HeadBelow(s);
      ConsIncreasing(s[0], rest);
      [s[0]] + rest
  }

  lemma HeadBelow(s: seq<int>)
    requires StrictlyIncreasing(s) && s != []
    ensures forall v :: v in s[1..] ==> s[0] < v
  {
    forall v | v in s[1..]
      ensures s[0] < v
    {
      var k :| 0 <= k < |s[1..]| && s[1..][k] == v;
      assert s[k + 1] == v;
    }
  }

  lemma ConsIncreasing(h: int, rest: seq<int>)
    requires StrictlyIncreasing(rest)
    requires forall v :: v in rest ==> h < v
    ensures StrictlyIncreasing([h] + rest)
  {
    var r := [h] + rest;
    forall i, j | 0 <= i < j < |r|
      ensures r[i] < r[j]
    {
      assert r[j] == rest[j - 1] && rest[j - 1] in rest;
      if i > 0 {
        assert r[i] == rest[i - 1];
      }
    }
  }

  /** `sorted(set(xs))`. */
  function SortedUnique(xs: seq<int>): (r: seq<int>)
    ensures StrictlyIncreasing(r)
    ensures forall v :: v in r <==> v in xs
  {
    if xs == [] then [] else Insert(xs[0], SortedUnique(xs[1..]))
  }

  /** The final set arithmetic: frames minus the excluded frames (minus the re-included ones in isolate mode). */
  function Finish(acc: Acc, filterIndividual: bool): (r: seq<int>)
  {
    var excludes := if filterIndividual then Without(acc.excludes, acc.conforms) else acc.excludes;
    SortedUnique(Without(acc.frames, excludes))
  }

  /** What `filter_frames` returns, or that it raises. */
  datatype Outcome = NoMatch | Raises | Frames(list: seq<int>)

  const Start := Acc([], [], [], false)

  /** The items the evaluator works through. */
  function Items(text: string, filterIndividual: bool): seq<Item>
  {
    Propagate(Tokenize(text), filterIndividual)
  }

  /** `filter_frames(text, increment, filterIndividual)` as a function. */
  function Evaluate(text: string, increment: int, filterIndividual: bool): (r: Outcome)
  {
    if Tokenize(text) == [] then NoMatch
    else match Fold(Items(text, filterIndividual), Start, increment, filterIndividual)
      case None => Raises
      case Some(acc) => Frames(Finish(acc, filterIndividual))
  }

  /**
    The body of the evaluator's loop for one item: the three lists and the
    flag after it, or `raised` when the item is a range whose step is not
    positive.
   */
  method EvaluateItem(frameList: seq<int>, excludeList: seq<int>, conformList: seq<int>, conformFlag: bool,
                      item: Item, increment: int, filterIndividual: bool)
    returns (raised: bool, frames: seq<int>, excludes: seq<int>, conforms: seq<int>, flag: bool)
    ensures var next := StepItem(Acc(frameList, excludeList, conformList, conformFlag), item, increment, filterIndividual);
            if raised then next.None? else next == Some(Acc(frames, excludes, conforms, flag))
  {
    ghost var before := Acc(frameList, excludeList, conformList, conformFlag);
    raised, frames, excludes, conforms, flag := false, frameList, excludeList, conformList, conformFlag;
    match item.body {
      case Single(v) =>
        StepSingle(before, item.excluded, v, increment, filterIndividual);
        if !item.excluded {
          frames := frames + [v];
          if flag { conforms := conforms + [v]; }
        } else {
          excludes := excludes + [v];
          if filterIndividual { flag := true; }
        }
      case Span(a, b, st) =>
        var start, end := Min(a, b), Max(a, b);
        var step := if st.None? then increment else st.value;
        if start < end {
          if step <= 0 {
            StepRaises(before, item.excluded, a, b, st, increment, filterIndividual);
            return true, frames, excludes, conforms, flag;
          }
          var frameRange := Arange(start, end, step);
          var closing := IsClose(step, end - frameRange[|frameRange| - 1]);
          ghost var vs := frameRange + (if closing then [end] else []);
          StepSpan(before, item.excluded, a, b, st, increment, filterIndividual, frameRange, closing, vs);
          if item.excluded {
            if filterIndividual { flag := true; }
            excludes := excludes + frameRange;
            if closing { excludes := excludes + [end]; }
            assert excludes == excludeList + vs;
          } else {
            frames := frames + frameRange;
            if closing { frames := frames + [end]; }
            assert frames == frameList + vs;
            if flag {
              conforms := conforms + frameRange;
              if closing { conforms := conforms + [end]; }
              assert conforms == conformList + vs;
            }
          }
        } else {
          StepPoint(before, item.excluded, a, b, st, increment, filterIndividual);
          if !item.excluded {
            frames := frames + [start];
          } else {
            excludes := excludes + [start];
          }
        }
    }
  }

  /**
    `filter_frames`: the loop of the source over the items, with its three
    lists and the `conform_flag`.
   */
  method FilterFrames(text: string, increment: int, filterIndividual: bool) returns (r: Outcome)
    requires '.' !in text
    ensures r == Evaluate(text, increment, filterIndividual)
    ensures r == NoMatch <==> Tokenize(text) == []
    ensures r.Frames? ==> StrictlyIncreasing(r.list)
  {
    var found := Tokenize(text);
    if found == [] {
      return NoMatch;
    }
    var items := Propagate(found, filterIndividual);
    var frameList, excludeList, conformList := [], [], [];
    var conformFlag := false;
    var i := 0;
    while i < |items|
      invariant 0 <= i <= |items|
      invariant Fold(items, Start, increment, filterIndividual)
             == Fold(items[i..], Acc(frameList, excludeList, conformList, conformFlag), increment, filterIndividual)
    {
      FoldAt(items, i, Acc(frameList, excludeList, conformList, conformFlag), increment, filterIndividual);
      var raised;
      raised, frameList, excludeList, conformList, conformFlag :=
        EvaluateItem(frameList, excludeList, conformList, conformFlag, items[i], increment, filterIndividual);
      if raised {
        return Raises;
      }
      i := i + 1;
    }
    assert items[i..] == [];
    r := Frames(Finish(Acc(frameList, excludeList, conformList, conformFlag), filterIndividual));
  }
}
