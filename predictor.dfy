/**
 * `EpitopePredictor` (app/model_predictor.py): the predictor object with its
 * window size, stride and confidence threshold, and the operations that run
 * the engine on one sequence.
 */
module Predictor {
  import opened Wrappers
  import opened Decimal
  import opened Residues
  import opened Selection
  import opened Ranking
  import opened Markup

  /** Both lists of a successful prediction, each sorted as `predict_epitopes` sorts it. */
  function Ranked(r: Result<Epitopes, PredictError>): Result<Epitopes, PredictError> {
    match r
    case Ok(e) => Ok(Epitopes(SortByConfidence(e.bCell), SortByConfidence(e.tCell)))
    case Err(err) => Err(err)
  }

  /** Why `set_confidence_threshold` raises `ValueError`. */
  datatype ThresholdError = ThresholdOutOfRange

  class EpitopePredictor {
    /** The loaded network; loading it from disk is not part of this model. */
    const model: Model
    var windowSize: nat
    var stepSize: nat
    var confidenceThreshold: real

    /** Python's `range` needs a non-zero stride; nothing ever changes the stride of 1. */
    ghost predicate Valid()
      reads this
    {
      stepSize > 0
    }

    /** The constructor's defaults: windows of 20 residues, stride 1, threshold 0.5. */
    constructor (model: Model)
      ensures Valid()
      ensures this.model == model
      ensures windowSize == 20 && stepSize == 1 && confidenceThreshold == 0.5
    {
      this.model := model;
      windowSize := 20;
      stepSize := 1;
      confidenceThreshold := 0.5;
    }

    /**
     * `sliding_window_prediction`: enumerate the windows, score them in one
     * batch, and put each window that passes the rule into its list.
     */
    method SlidingWindowPrediction(s: string) returns (r: Result<Epitopes, PredictError>)
      requires Valid()
      ensures r == Prediction(s, windowSize, stepSize, confidenceThreshold, model)
      ensures |s| < windowSize ==> r == Ok(Epitopes([], []))
    {
      var w, step := windowSize, stepSize;
      if |s| < w {
        return Ok(Epitopes([], []));
      }
      var positions, subseqs := WindowBatch(s, w, step);
      var scored := model(subseqs);
      if scored.None? {
        return Err(ClassifierFailed);
      }
      var e := Classify(s, positions, scored.value, confidenceThreshold);
      return Ok(e);
    }

    /**
     * `predict_epitopes`: clean the sequence, predict with the given threshold
     * (or the stored one), rank both lists, and leave the stored threshold as
     * it was, on success and on failure alike.
     */
    method PredictEpitopes(s: string, threshold: Option<real>) returns (r: Result<Epitopes, PredictError>)
      requires Valid()
      modifies this
      ensures Valid()
      ensures windowSize == old(windowSize) && stepSize == old(stepSize)
      ensures confidenceThreshold == old(confidenceThreshold)
      ensures r == Ranked(Prediction(Clean(s), windowSize, stepSize,
                                     if threshold.Some? then threshold.value else confidenceThreshold, model))
    {
      var originalThreshold := confidenceThreshold;
      if threshold.Some? {
        confidenceThreshold := threshold.value;
      }
      var cleanSequence := Clean(s);
      var result := SlidingWindowPrediction(cleanSequence);
      match result {
        case Ok(e) =>
          r := Ok(Epitopes(SortByConfidence(e.bCell), SortByConfidence(e.tCell)));
        case Err(err) =>
          r := Err(err);
      }
      if threshold.Some? {
        confidenceThreshold := originalThreshold;
      }
    }

    /**
     * `get_sequence_markup`: `.` for every residue, then the marker over each
     * call's range, clipped at the end of the sequence.
     */
    method GetSequenceMarkup(s: string, epitopes: seq<Call>, epitopeType: string) returns (r: Result<string, MarkupError>)
      ensures r.Err? <==> FirstFailure(epitopes, |s|).Some?
      ensures r.Err? ==> r.error == FirstFailure(epitopes, |s|).value
      ensures r.Ok? ==> |r.value| == |s|
      ensures r.Ok? ==> forall j :: 0 <= j < |s| ==>
        r.value[j] == if Covered(epitopes, |s|, j) then MarkerFor(epitopeType) else '.'
    {
      var markup := new char[|s|](_ => '.');
      var marker := MarkerFor(epitopeType);
      var k := 0;
      while k < |epitopes|
        invariant 0 <= k <= |epitopes| && markup.Length == |s|
        invariant FirstFailure(epitopes[..k], |s|).None?
        invariant forall j :: 0 <= j < |s| ==>
          markup[j] == if Covered(epitopes[..k], |s|, j) then marker else '.'
      {
        assert epitopes[..k + 1][..k] == epitopes[..k];
        var parsed := ParseRange(epitopes[k].posRange);
        if parsed.None? {
          FirstFailureOfPrefix(epitopes, |s|, k + 1);
          return Err(BadRange);
        }
        var (lo, hi) := parsed.value;
        var ok := MarkRange(markup, lo, hi, marker);
        if !ok {
          FirstFailureOfPrefix(epitopes, |s|, k + 1);
          return Err(IndexOutOfRange);
        }
        CoveredStep(epitopes, |s|, k);
        k := k + 1;
      }
      assert epitopes[..k] == epitopes;
      return Ok(markup[..]);
    }

    /** `set_confidence_threshold`: store `t` when it lies in [0, 1]; otherwise raise and keep the old value. */
    method SetConfidenceThreshold(t: real) returns (r: Result<(), ThresholdError>)
      modifies this`confidenceThreshold
      ensures r.Ok? <==> 0.0 <= t <= 1.0
      ensures confidenceThreshold == if r.Ok? then t else old(confidenceThreshold)
    {
      if 0.0 <= t <= 1.0 {
        confidenceThreshold := t;
        r := Ok(());
      } else {
        r := Err(ThresholdOutOfRange);
      }
    }
  }

  // ----- What `predict_epitopes` returns -----

  /** Calls whose starts strictly increase keep ties in that order. */
  lemma IncreasingTiesOrdered(xs: seq<Call>)
    requires StartsIncrease(xs)
    ensures TiesOrdered(xs, StartKey)
  {
  }

  /** One list as the engine found it: `StartKey` strictly increases along it. */
  lemma EngineListOrdered(s: string, w: nat, step: nat, probs: seq<ProbVector>, threshold: real, kind: Label)
    requires step > 0
    ensures var positions := Windows(|s|, w, step);
      var n := if |probs| < |positions| then |probs| else |positions|;
      TiesOrdered(Select(s, positions, probs, threshold, kind, n), StartKey)
  {
    var positions := Windows(|s|, w, step);
    var n := if |probs| < |positions| then |probs| else |positions|;
    SelectStartsIncrease(s, w, step, probs, threshold, kind, n);
    IncreasingTiesOrdered(Select(s, positions, probs, threshold, kind, n));
  }

  /** One ranked list: best first, the same calls, and calls of equal confidence in sequence order. */
  predicate RankedFrom(ranked: seq<Call>, found: seq<Call>) {
    && SortedByConfidence(ranked)
    && multiset(ranked) == multiset(found)
    && TiesOrdered(ranked, StartKey)
  }

  /**
   * `predict_epitopes` fails exactly when the engine fails; otherwise each
   * list holds the engine's calls, highest confidence first, and calls of
   * equal confidence in the order of their windows.
   */
  lemma RankedPrediction(s: string, w: nat, step: nat, threshold: real, model: Model)
    requires step > 0
    ensures var found := Prediction(s, w, step, threshold, model);
      var r := Ranked(found);
      && (r.Ok? <==> found.Ok?)
      && (r.Err? ==> r == found)
      && (r.Ok? ==> RankedFrom(r.value.bCell, found.value.bCell) && RankedFrom(r.value.tCell, found.value.tCell))
  {
    var found := Prediction(s, w, step, threshold, model);
    if found.Ok? {
      var e := found.value;
      if |s| >= w {
        var positions := Windows(|s|, w, step);
        var probs := model(EncodedWindows(s, positions)).value;
        EngineListOrdered(s, w, step, probs, threshold, BCellPositive);
        EngineListOrdered(s, w, step, probs, threshold, TCellPositive);
      }
      SortSpec(e.bCell);
      SortSpec(e.tCell);
      SortKeepsTiesOrdered(e.bCell, StartKey);
      SortKeepsTiesOrdered(e.tCell, StartKey);
    }
  }

  /** Every call the engine lists shows a window of the sequence. */
  lemma FoundCallIsWindow(s: string, w: nat, step: nat, threshold: real, model: Model, c: Call)
    requires step > 0
    requires var found := Prediction(s, w, step, threshold, model);
      found.Ok? && (c in found.value.bCell || c in found.value.tCell)
    ensures IsWindowCall(s, w, c)
  {
    var positions := Windows(|s|, w, step);
    var probs := model(EncodedWindows(s, positions)).value;
    CallShape(s, w, step, probs, threshold, c);
  }

  /**
   * `get_sequence_markup` on a list `predict_epitopes` returned for `s`
   * never raises, and marks a residue exactly when it lies in the window of
   * one of the listed calls.
   */
  lemma PredictedMarkup(s: string, w: nat, step: nat, threshold: real, model: Model, calls: seq<Call>)
    requires step > 0
    requires var r := Ranked(Prediction(s, w, step, threshold, model));
      r.Ok? && (calls == r.value.bCell || calls == r.value.tCell)
    ensures FirstFailure(calls, |s|) == None
    ensures forall j :: Covered(calls, |s|, j) <==> InSomeWindow(s, w, calls, j)
  {
    var e := Prediction(s, w, step, threshold, model).value;
    var found := if calls == SortByConfidence(e.bCell) then e.bCell else e.tCell;
    assert multiset(calls) == multiset(found);
    forall k | 0 <= k < |calls| ensures IsWindowCall(s, w, calls[k]) {
      assert calls[k] in multiset(found);
      FoundCallIsWindow(s, w, step, threshold, model, calls[k]);
    }
    WindowCallsNeverFail(s, w, calls);
    forall j ensures Covered(calls, |s|, j) <==> InSomeWindow(s, w, calls, j)
    {
      WindowCallsMarkup(s, w, calls, j);
    }
  }

  /** The windows of `sliding_window_prediction`'s first loop, with each window's residues encoded. */
  method WindowBatch(s: string, w: nat, step: nat) returns (positions: seq<(nat, nat)>, subseqs: seq<seq<int>>)
    requires step > 0
    ensures positions == Windows(|s|, w, step)
    ensures InBounds(s, positions)
    ensures subseqs == EncodedWindows(s, positions)
  {
    subseqs, positions := [], [];
    var i: nat := 0;
    while i + w <= |s|
      invariant positions + WindowsFrom(i, |s|, w, step) == Windows(|s|, w, step)
      invariant InBounds(s, positions)
      invariant subseqs == EncodedWindows(s, positions)
      decreases |s| - i
    {
      var sub := s[i..i + w];
      WindowsStep(positions, i, |s|, w, step);
      EncodedWindowsAppend(s, positions, (i, i + w));
      subseqs := subseqs + [Encode(sub)];
      positions := positions + [(i, i + w)];
      i := i + step;
    }
  }

  /** `sliding_window_prediction`'s second loop: each scored window joins the list of its top class when it passes the threshold. */
  method Classify(s: string, positions: seq<(nat, nat)>, probs: seq<ProbVector>, threshold: real) returns (e: Epitopes)
    requires InBounds(s, positions)
    ensures e == Bucket(s, positions, probs, threshold)
  {
    var bCell: seq<Call> := [];
    var tCell: seq<Call> := [];
    var k := 0;
    while k < |probs| && k < |positions|
      invariant k <= |probs| && k <= |positions|
      invariant bCell == Select(s, positions, probs, threshold, BCellPositive, k)
      invariant tCell == Select(s, positions, probs, threshold, TCellPositive, k)
    {
      SelectNext(s, positions, probs, threshold, BCellPositive, k);
      SelectNext(s, positions, probs, threshold, TCellPositive, k);
      var p := probs[k];
      var start, end := positions[k].0, positions[k].1;
      var predictedClass := ArgMax(p);
      var confidence := p[predictedClass];
      var predictedLabel := LabelOf(predictedClass);
      if confidence >= threshold {
        var call := Call(s[start..end], confidence, NatToString(start + 1) + "-" + NatToString(end));
        assert call == MakeCall(s, positions[k], p);
        if predictedLabel == BCellPositive {
          bCell := bCell + [call];
        } else if predictedLabel == TCellPositive {
          tCell := tCell + [call];
        }
      }
      k := k + 1;
    }
    e := Epitopes(bCell, tCell);
  }

  lemma WindowsStep(prefix: seq<(nat, nat)>, i: nat, n: nat, w: nat, step: nat)
    requires step > 0 && i + w <= n
    requires prefix + WindowsFrom(i, n, w, step) == Windows(n, w, step)
    ensures (prefix + [(i, i + w)]) + WindowsFrom(i + step, n, w, step) == Windows(n, w, step)
  {
    assert WindowsFrom(i, n, w, step) == [(i, i + w)] + WindowsFrom(i + step, n, w, step);
    assert (prefix + [(i, i + w)]) + WindowsFrom(i + step, n, w, step) == prefix + WindowsFrom(i, n, w, step);
  }

  /** One more scored window: its call joins the list of `kind` exactly when it passes the rule for `kind`. */
  lemma SelectNext(s: string, positions: seq<(nat, nat)>, probs: seq<ProbVector>, threshold: real, kind: Label, k: nat)
    requires InBounds(s, positions) && k < |positions| && k < |probs|
    ensures Select(s, positions, probs, threshold, kind, k + 1) ==
      Select(s, positions, probs, threshold, kind, k) +
      (if Accepts(probs[k], threshold, kind) then [MakeCall(s, positions[k], probs[k])] else [])
  {
  }

  lemma EncodedWindowsAppend(s: string, positions: seq<(nat, nat)>, pos: (nat, nat))
    requires InBounds(s, positions) && pos.0 <= pos.1 <= |s|
    ensures InBounds(s, positions + [pos])
    ensures EncodedWindows(s, positions + [pos]) == EncodedWindows(s, positions) + [Encode(s[pos.0..pos.1])]
  {
  }

  /**
   * The inner loop of `get_sequence_markup` for a call read back as `lo-hi`:
   * `for i in range(lo - 1, min(hi, len))`, where index -1 is the last slot
   * and fails on an empty list.
   */
  method MarkRange(markup: array<char>, lo: nat, hi: nat, marker: char) returns (ok: bool)
    modifies markup
    ensures ok <==> !(markup.Length == 0 && lo == 0)
    ensures ok ==> forall j :: 0 <= j < markup.Length ==>
      markup[j] == if Writes(lo, hi, markup.Length, j) then marker else old(markup[j])
  {
    var start: int, end: int := lo - 1, hi - 1;
    var stop := if end + 1 < markup.Length then end + 1 else markup.Length;
    var i := start;
    while i < stop
      invariant start <= i && (i <= stop || i == start)
      invariant markup.Length == 0 && lo == 0 ==> i == start
      invariant forall j :: 0 <= j < markup.Length ==>
        markup[j] == if Done(lo, i, markup.Length, j) then marker else old(markup[j])
    {
      if i < 0 {
        if markup.Length + i < 0 {
          return false;
        }
        markup[markup.Length + i] := marker;
      } else {
        markup[i] := marker;
      }
      i := i + 1;
    }
    forall j | 0 <= j < markup.Length
      ensures Done(lo, i, markup.Length, j) <==> Writes(lo, hi, markup.Length, j)
    {
      if start < stop {
        assert i == stop;
      } else {
        assert i == start && lo != 0;
      }
    }
    return true;
  }

  /** The slots written so far by `MarkRange`, which has reached index `i`. */
  predicate Done(lo: nat, i: int, len: nat, j: int) {
    (lo <= j + 1 && j < i) || (lo == 0 && i > -1 && j == len - 1)
  }

  /** One more call in the prefix: a slot is covered when it was, or when this call's range writes it. */
  lemma CoveredStep(calls: seq<Call>, len: nat, k: nat)
    requires k < |calls| && ParseRange(calls[k].posRange).Some?
    ensures var r := ParseRange(calls[k].posRange).value;
      forall j :: Covered(calls[..k + 1], len, j) <==> Covered(calls[..k], len, j) || Writes(r.0, r.1, len, j)
  {
    assert calls[..k + 1][..k] == calls[..k];
  }
}
