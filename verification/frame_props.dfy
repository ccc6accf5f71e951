/**
  What the frame specification parser promises: which frames an item stands
  for, which items can make it raise, and which frames end up in the result
  in each of its two modes.
 */
module FrameProps {
  import opened Wrappers
  import opened FrameSpec

  // ---------------------------------------------------------------------
  // Ranges
  // ---------------------------------------------------------------------

  lemma MulStep(step: int, d: int)
    requires step > 0 && d >= 1
    ensures step * d >= step
  {
  }

  /** Euclidean division has one quotient and remainder. */
  lemma ModUnique(x: int, step: int, q: int, r: int)
    requires step > 0 && 0 <= r < step && x == step * q + r
    ensures x % step == r
  {
    var q0, r0 := x / step, x % step;
    assert step * (q0 - q) == r - r0;
    if q0 > q {
      MulStep(step, q0 - q);
    } else if q0 < q {
      MulStep(step, q - q0);
    }
  }

  lemma ModAddStep(x: int, step: int)
    requires step > 0
    ensures (x + step) % step == x % step
  {
    ModUnique(x + step, step, x / step + 1, x % step);
  }

  /** `arange(lo, hi, step)` holds exactly the frames of the step grid from `lo` below `hi`. */
  lemma {:induction false} ArangeMember(lo: int, hi: int, step: int, v: int)
    requires step > 0
    ensures v in Arange(lo, hi, step) <==> lo <= v < hi && (v - lo) % step == 0
    decreases hi - lo
  {
    if lo < hi {
      ArangeMember(lo + step, hi, step, v);
      assert Arange(lo, hi, step) == [lo] + Arange(lo + step, hi, step);
      GridStep(lo, step, v);
    }
  }

  /** A frame is on the grid from `lo` exactly when it is `lo` or on the grid from the next step. */
  lemma GridStep(lo: int, step: int, v: int)
    requires step > 0
    ensures (v == lo || (lo + step <= v && (v - (lo + step)) % step == 0)) <==> lo <= v && (v - lo) % step == 0
  {
    if v >= lo + step {
      ModAddStep(v - (lo + step), step);
    } else if v > lo {
      ModUnique(v - lo, step, 0, v - lo);
    }
  }


  /** The last frame `arange` generates lies on the grid, less than one step below `hi`. */
  lemma ArangeLast(lo: int, hi: int, step: int)
    requires step > 0 && lo < hi
    ensures var range := Arange(lo, hi, step);
            var d := hi - range[|range| - 1];
            0 < d <= step && ((hi - lo) % step == 0 <==> d == step)
  {
    var range := Arange(lo, hi, step);
    var last := range[|range| - 1];
    ArangeMember(lo, hi, step, last);
    var q := (last - lo) / step;
    assert last - lo == step * q;
    var d := hi - last;
    if d == step {
      ModUnique(hi - lo, step, q + 1, 0);
    } else {
      ModUnique(hi - lo, step, q, d);
    }
  }

  /**
    For a step of at most 100000, a range `lo-hi` with `lo < hi` stands for
    exactly the frames `lo + k * step` up to and including `hi`.
   */
  lemma SpanGrid(lo: int, hi: int, step: int, v: int)
    requires lo < hi && 0 < step <= 100000
    ensures SpanValues(lo, hi, step).Some?
    ensures v in SpanValues(lo, hi, step).value <==> lo <= v <= hi && (v - lo) % step == 0
  {
    ArangeLast(lo, hi, step);
    ArangeMember(lo, hi, step, v);
  }

  /**
    With a step above 100000 the closeness test lets in an end that is not
    on the grid: `0-100000x100001` yields `0` and `100000`.
   */
  lemma SpanOvershoot()
    ensures SpanValues(0, 100000, 100001) == Some([0, 100000])
    ensures (100000 - 0) % 100001 != 0
  {
    assert Arange(100001, 100000, 100001) == [];
    assert Arange(0, 100000, 100001) == [0];
    assert IsClose(100001, 100000 - 0);
    assert [0] + [100000] == [0, 100000];
  }

  /** The range with its end appended only when the end is exactly one step past the last generated frame. */
  function ExactSpanValues(lo: int, hi: int, step: int): (r: Option<seq<int>>)
    requires lo < hi
    ensures r.Some? <==> step > 0
  {
    if step <= 0 then None
    else
      var range := Arange(lo, hi, step);
      Some(range + if hi - range[|range| - 1] == step then [hi] else [])
  }

  /** For every positive step, the exact range is the step grid from `lo` up to and including `hi`. */
  lemma ExactSpanGrid(lo: int, hi: int, step: int, v: int)
    requires lo < hi && step > 0
    ensures v in ExactSpanValues(lo, hi, step).value <==> lo <= v <= hi && (v - lo) % step == 0
  {
    ArangeLast(lo, hi, step);
    ArangeMember(lo, hi, step, v);
  }

  /** Up to a step of 100000 the source's range and the exact range agree. */
  lemma {:induction false} SpanAgrees(lo: int, hi: int, step: int)
    requires lo < hi && 0 < step <= 100000
    ensures SpanValues(lo, hi, step) == ExactSpanValues(lo, hi, step)
  {
    ArangeLast(lo, hi, step);
  }

  // ---------------------------------------------------------------------
  // Evaluation
  // ---------------------------------------------------------------------

  /** Some item is a range whose step is not positive. */
  predicate Raising(items: seq<Item>, increment: int) {
    exists j :: 0 <= j < |items| && Values(items[j].body, increment).None?
  }

  /** Some unmarked item yields `v`. */
  predicate Yields(items: seq<Item>, increment: int, v: int) {
    exists j :: 0 <= j < |items| && !items[j].excluded && Contributes(items[j], increment, v)
  }

  /** Some marked item yields `v`. */
  predicate Blocks(items: seq<Item>, increment: int, v: int) {
    exists j :: 0 <= j < |items| && items[j].excluded && Contributes(items[j], increment, v)
  }

  /** In isolate mode, a marked single value or proper range comes before index `j`. */
  predicate Isolating(items: seq<Item>, j: int, filterIndividual: bool) {
    filterIndividual && exists k :: 0 <= k < j && k < |items| && items[k].excluded && Proper(items[k].body)
  }

  /**
    `v` is yielded by an unmarked single value or proper range that comes
    after the accumulator's flag was raised (`flag`) or after an isolating
    item.
   */
  predicate Restores(items: seq<Item>, increment: int, filterIndividual: bool, flag: bool, v: int) {
    exists j :: 0 <= j < |items| && !items[j].excluded && Proper(items[j].body)
      && (flag || Isolating(items, j, filterIndividual)) && Contributes(items[j], increment, v)
  }

  lemma ShiftPredicates(items: seq<Item>, increment: int, filterIndividual: bool, flag: bool, v: int)
    requires items != []
    ensures Raising(items, increment) <==> Values(items[0].body, increment).None? || Raising(items[1..], increment)
    ensures Yields(items, increment, v) <==>
              (!items[0].excluded && Contributes(items[0], increment, v)) || Yields(items[1..], increment, v)
    ensures Blocks(items, increment, v) <==>
              (items[0].excluded && Contributes(items[0], increment, v)) || Blocks(items[1..], increment, v)
    ensures Isolating(items, |items|, filterIndividual) <==>
              (filterIndividual && items[0].excluded && Proper(items[0].body))
              || Isolating(items[1..], |items| - 1, filterIndividual)
    ensures Restores(items, increment, filterIndividual, flag, v) <==>
              (!items[0].excluded && Proper(items[0].body) && flag && Contributes(items[0], increment, v))
              || Restores(items[1..], increment, filterIndividual,
                          flag || (filterIndividual && items[0].excluded && Proper(items[0].body)), v)
  {
    var rest := items[1..];
    assert forall j :: 0 <= j < |rest| ==> rest[j] == items[j + 1];
    ShiftIsolating(items, filterIndividual);
    ShiftRestores(items, increment, filterIndividual, flag, v);
  }

  /** An isolating item before index `j` is the first item or an isolating item of the rest. */
  lemma ShiftIsolating(items: seq<Item>, filterIndividual: bool)
    requires items != []
    ensures forall j :: 0 < j <= |items| ==>
              (Isolating(items, j, filterIndividual) <==>
                 (filterIndividual && items[0].excluded && Proper(items[0].body))
                 || Isolating(items[1..], j - 1, filterIndividual))
  {
    var rest := items[1..];
    var raised := filterIndividual && items[0].excluded && Proper(items[0].body);
    forall j | 0 < j <= |items|
      ensures Isolating(items, j, filterIndividual) <==> raised || Isolating(rest, j - 1, filterIndividual)
    {
      if Isolating(rest, j - 1, filterIndividual) {
        var k :| 0 <= k < j - 1 && k < |rest| && rest[k].excluded && Proper(rest[k].body);
        assert items[k + 1] == rest[k];
      }
      if Isolating(items, j, filterIndividual) && !raised {
        var k :| 0 <= k < j && k < |items| && items[k].excluded && Proper(items[k].body);
        assert rest[k - 1] == items[k];
      }
    }
  }

  lemma ShiftRestores(items: seq<Item>, increment: int, filterIndividual: bool, flag: bool, v: int)
    requires items != []
    ensures Restores(items, increment, filterIndividual, flag, v) <==>
              (!items[0].excluded && Proper(items[0].body) && flag && Contributes(items[0], increment, v))
              || Restores(items[1..], increment, filterIndividual,
                          flag || (filterIndividual && items[0].excluded && Proper(items[0].body)), v)
  {
    var rest := items[1..];
    var raised := filterIndividual && items[0].excluded && Proper(items[0].body);
    ShiftIsolating(items, filterIndividual);
    if Restores(items, increment, filterIndividual, flag, v) {
      var j :| 0 <= j < |items| && !items[j].excluded && Proper(items[j].body)
        && (flag || Isolating(items, j, filterIndividual)) && Contributes(items[j], increment, v);
      if j > 0 {
        assert rest[j - 1] == items[j];
      } else {
        assert !Isolating(items, 0, filterIndividual);
      }
    }
    if Restores(rest, increment, filterIndividual, flag || raised, v) {
      var j :| 0 <= j < |rest| && !rest[j].excluded && Proper(rest[j].body)
        && (flag || raised || Isolating(rest, j, filterIndividual)) && Contributes(rest[j], increment, v);
      assert items[j + 1] == rest[j];
    }
  }

  /**
    What the evaluator's loop accumulates: it raises exactly when some item
    raises; otherwise the frame list gains what the unmarked items yield, the
    exclude list what the marked items yield, the flag is raised by an
    isolating item, and the re-include list gains what restoring items yield.
   */
  lemma {:induction false} FoldEffect(items: seq<Item>, acc: Acc, increment: int, filterIndividual: bool, v: int)
    ensures Fold(items, acc, increment, filterIndividual).None? <==> Raising(items, increment)
    ensures match Fold(items, acc, increment, filterIndividual)
            case None => true
            case Some(r) =>
              (v in r.frames <==> v in acc.frames || Yields(items, increment, v)) &&
              (v in r.excludes <==> v in acc.excludes || Blocks(items, increment, v)) &&
              (r.conformFlag <==> acc.conformFlag || Isolating(items, |items|, filterIndividual)) &&
              (v in r.conforms <==> v in acc.conforms || Restores(items, increment, filterIndividual, acc.conformFlag, v))
    decreases |items|
  {
    if items != [] {
      ShiftPredicates(items, increment, filterIndividual, acc.conformFlag, v);
      match StepItem(acc, items[0], increment, filterIndividual)
      case None =>
      case Some(next) =>
        FoldEffect(items[1..], next, increment, filterIndividual, v);
    }
  }

  /** The source raises exactly when some item (after propagation) is a range whose step is not positive. */
  lemma EvaluateRaises(text: string, increment: int, filterIndividual: bool)
    ensures Evaluate(text, increment, filterIndividual) == Raises <==>
              Tokenize(text) != [] && Raising(Items(text, filterIndividual), increment)
  {
    FoldEffect(Items(text, filterIndividual), Start, increment, filterIndividual, 0);
  }

  /**
    The result is sorted without duplicates, and holds `v` exactly when an
    unmarked item yields it and either no marked item yields it or, in
    isolate mode, an unmarked single value or proper range after a marked
    one yields it again.
   */
  lemma EvaluateMembership(text: string, increment: int, filterIndividual: bool, v: int)
    requires Evaluate(text, increment, filterIndividual).Frames?
    ensures StrictlyIncreasing(Evaluate(text, increment, filterIndividual).list)
    ensures var items := Items(text, filterIndividual);
            v in Evaluate(text, increment, filterIndividual).list <==>
              Yields(items, increment, v) &&
              (!Blocks(items, increment, v) || Restores(items, increment, filterIndividual, false, v))
  {
    var items := Items(text, filterIndividual);
    FoldEffect(items, Start, increment, filterIndividual, v);
  }

  /**
    Global mode, marker after the first item: every item from the first
    marked one on excludes, so the result is what the items before it yield
    minus everything any later item yields.
   */
  lemma GlobalPropagation(text: string, increment: int, v: int)
    requires Evaluate(text, increment, false).Frames?
    requires FirstExcluded(Tokenize(text)).Some? && FirstExcluded(Tokenize(text)).value > 0
    ensures var tokens, i := Tokenize(text), FirstExcluded(Tokenize(text)).value;
            v in Evaluate(text, increment, false).list <==>
              (exists j :: 0 <= j < i && Contributes(tokens[j], increment, v)) &&
              !(exists j :: i <= j < |tokens| && Contributes(tokens[j], increment, v))
  {
    var tokens, i := Tokenize(text), FirstExcluded(Tokenize(text)).value;
    var items := Items(text, false);
    PropagateEffect(tokens, false);
    EvaluateMembership(text, increment, false, v);
    assert forall j :: 0 <= j < |items| ==>
      (Contributes(items[j], increment, v) <==> Contributes(tokens[j], increment, v));
  }

  /**
    Global mode, no marker or a marker on the very first item: nothing is
    propagated, so a frame is kept when an unmarked item yields it and no
    marked item does (`^5, 1-10` keeps 1-4 and 6-10).
   */
  lemma GlobalWithoutPropagation(text: string, increment: int, v: int)
    requires Evaluate(text, increment, false).Frames?
    requires FirstExcluded(Tokenize(text)).None? || FirstExcluded(Tokenize(text)) == Some(0)
    ensures v in Evaluate(text, increment, false).list <==>
              Yields(Tokenize(text), increment, v) && !Blocks(Tokenize(text), increment, v)
  {
    PropagateEffect(Tokenize(text), false);
    EvaluateMembership(text, increment, false, v);
  }

  /**
    Isolate mode: each marked item excludes only its own frames, and an
    unmarked single value or proper range after any marked one brings its
    frames back.
   */
  lemma IsolateMode(text: string, increment: int, v: int)
    requires Evaluate(text, increment, true).Frames?
    ensures var tokens := Tokenize(text);
            v in Evaluate(text, increment, true).list <==>
              Yields(tokens, increment, v) &&
              (!Blocks(tokens, increment, v) || Restores(tokens, increment, true, false, v))
  {
    EvaluateMembership(text, increment, true, v);
  }
}
