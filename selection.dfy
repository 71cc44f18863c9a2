/**
 * The specification of `EpitopePredictor.sliding_window_prediction`
 * (app/model_predictor.py): window enumeration, the classifier port, the
 * argmax/threshold decision rule, and the B-cell and T-cell call lists.
 */
module Selection {
  import opened Wrappers
  import opened Decimal
  import opened Residues
  import opened Text

  /** One probability per class, in the order of `class_mapping`. */
  type ProbVector = p: seq<real> | |p| == 4 witness [0.0, 0.0, 0.0, 0.0]

  /**
   * The trained network: it scores a batch of encoded windows, one vector per
   * window in input order, or fails (`None`) for the whole batch.
   */
  type Model = seq<seq<int>> -> Option<seq<ProbVector>>

  /** `class_mapping`, read backwards as `idx_to_class`. */
  datatype Label = BCellNegative | BCellPositive | TCellNegative | TCellPositive

  function LabelOf(k: nat): Label
    requires k < 4
  {
    [BCellNegative, BCellPositive, TCellNegative, TCellPositive][k]
  }

  /** An epitope call: `(sub_seq, confidence, pos_range)`. */
  datatype Call = Call(epitope: string, confidence: real, posRange: string)

  /** The two lists `sliding_window_prediction` returns. */
  datatype Epitopes = Epitopes(bCell: seq<Call>, tCell: seq<Call>)

  datatype PredictError = ClassifierFailed

  /** `np.argmax`: the first index holding the largest entry. */
  function ArgMax(p: seq<real>): (k: nat)
    requires |p| > 0
    ensures k < |p|
    ensures forall j :: 0 <= j < |p| ==> p[j] <= p[k]
    ensures forall j :: 0 <= j < k ==> p[j] < p[k]
  {
    if |p| == 1 then 0
    else
      var k := ArgMax(p[..|p| - 1]);
      if p[|p| - 1] > p[k] then |p| - 1 else k
  }

  /** `np.max`. */
  function Confidence(p: ProbVector): real {
    p[ArgMax(p)]
  }

  /** The decision rule: the window's top class is `kind` and its probability reaches the threshold. */
  predicate Accepts(p: ProbVector, threshold: real, kind: Label) {
    Confidence(p) >= threshold && LabelOf(ArgMax(p)) == kind
  }

  /** `f"{start+1}-{end}"`. */
  function RangeText(start: nat, end: nat): string {
    NatToString(start + 1) + "-" + NatToString(end)
  }

  /**
   * `map(int, pos_range.split('-'))` unpacked into two numbers, as
   * `get_sequence_markup` reads a range back; `None` where Python raises
   * `ValueError` (not exactly two parts, or a part that is not a number).
   */
  function ParseRange(r: string): Option<(nat, nat)> {
    var parts := Split(r, '-');
    if |parts| != 2 then None
    else match (ParseNat(parts[0]), ParseNat(parts[1]))
      case (Some(a), Some(b)) => Some((a, b))
      case _ => None
  }

  /** Reading a printed range back gives the 1-based first and last positions. */
  lemma RangeTextRoundTrip(start: nat, end: nat)
    ensures ParseRange(RangeText(start, end)) == Some((start + 1, end))
  {
    var a, b := NatToString(start + 1), NatToString(end);
    assert '-' !in a && '-' !in b by {
      assert forall k :: 0 <= k < |a| ==> IsDigit(a[k]);
      assert forall k :: 0 <= k < |b| ==> IsDigit(b[k]);
    }
    assert Join([a, b], '-') == RangeText(start, end);
    SplitJoin([a, b], '-');
    ParseNatToString(start + 1);
    ParseNatToString(end);
  }

  /**
   * The `(start, end)` pairs of `range(i, n - w + 1, step)`, end exclusive:
   * the windows from offset `i` on.
   */
  function WindowsFrom(i: nat, n: nat, w: nat, step: nat): (r: seq<(nat, nat)>)
    requires step > 0
    ensures forall k :: 0 <= k < |r| ==> i <= r[k].0 && r[k].1 == r[k].0 + w <= n
    decreases n - i
  {
    if i + w > n then [] else [(i, i + w)] + WindowsFrom(i + step, n, w, step)
  }

  /** The `positions` list of a sequence of length `n`. */
  function Windows(n: nat, w: nat, step: nat): seq<(nat, nat)>
    requires step > 0
  {
    WindowsFrom(0, n, w, step)
  }

  predicate InBounds(s: string, positions: seq<(nat, nat)>) {
    forall k :: 0 <= k < |positions| ==> positions[k].0 <= positions[k].1 <= |s|
  }

  /** The `subseq_list` batch: each window's residues, encoded. */
  function EncodedWindows(s: string, positions: seq<(nat, nat)>): (r: seq<seq<int>>)
    requires InBounds(s, positions)
    ensures |r| == |positions|
  {
    seq(|positions|, k requires 0 <= k < |positions| => Encode(s[positions[k].0..positions[k].1]))
  }

  /** The call a window produces once accepted. */
  function MakeCall(s: string, pos: (nat, nat), p: ProbVector): Call
    requires pos.0 <= pos.1 <= |s|
  {
    Call(s[pos.0..pos.1], Confidence(p), RangeText(pos.0, pos.1))
  }

  /** The calls of label `kind` among the first `n` scored windows, in window order. */
  function Select(s: string, positions: seq<(nat, nat)>, probs: seq<ProbVector>,
                  threshold: real, kind: Label, n: nat): seq<Call>
    requires InBounds(s, positions) && n <= |positions| && n <= |probs|
  {
    if n == 0 then []
    else
      Select(s, positions, probs, threshold, kind, n - 1) +
      (if Accepts(probs[n - 1], threshold, kind) then [MakeCall(s, positions[n - 1], probs[n - 1])] else [])
  }

  /** The lists of the `n` first windows once the model has scored them. */
  function Bucket(s: string, positions: seq<(nat, nat)>, probs: seq<ProbVector>, threshold: real): Epitopes
    requires InBounds(s, positions)
  {
    var n := if |probs| < |positions| then |probs| else |positions|;
    Epitopes(Select(s, positions, probs, threshold, BCellPositive, n),
             Select(s, positions, probs, threshold, TCellPositive, n))
  }

  /**
   * What `sliding_window_prediction` returns for `s` with window `w`, stride
   * `step` and threshold `threshold`. Scores pair with windows as `zip` pairs
   * them, so surplus scores or surplus windows are ignored.
   */
  function Prediction(s: string, w: nat, step: nat, threshold: real, model: Model): Result<Epitopes, PredictError>
    requires step > 0
  {
    if |s| < w then Ok(Epitopes([], []))
    else
      var positions := Windows(|s|, w, step);
      match model(EncodedWindows(s, positions))
      case None => Err(ClassifierFailed)
      case Some(probs) => Ok(Bucket(s, positions, probs, threshold))
  }

  // ----- Windows -----

  /**
   * How many windows `range(i, n - w + 1, step)` yields: none when the first
   * does not fit, otherwise the count `c` with `(c - 1) * step <= n - w - i < c * step`.
   */
  lemma {:induction false} WindowsFromCount(i: nat, n: nat, w: nat, step: nat)
    requires step > 0
    ensures var c := |WindowsFrom(i, n, w, step)|;
      if i + w > n then c == 0 else c >= 1 && (c - 1) * step <= n - w - i < c * step
    decreases n - i
  {
    if i + w <= n {
      WindowsFromCount(i + step, n, w, step);
      var c' := |WindowsFrom(i + step, n, w, step)|;
      assert (c' + 1) * step == c' * step + step;
      if c' > 0 {
        assert c' * step == (c' - 1) * step + step;
      }
    }
  }

  /** The k-th window starts `k` strides after `i` and spans `w` residues. */
  lemma {:induction false} WindowsFromAt(i: nat, n: nat, w: nat, step: nat, k: nat)
    requires step > 0 && k < |WindowsFrom(i, n, w, step)|
    ensures WindowsFrom(i, n, w, step)[k] == (i + k * step, i + k * step + w)
    decreases k
  {
    if k > 0 {
      WindowsFromAt(i + step, n, w, step, k - 1);
      assert i + step + (k - 1) * step == i + k * step;
    }
  }

  /**
   * With the default stride of 1 a sequence of length `n >= w` has exactly
   * `n - w + 1` windows, the k-th one being `[k, k + w)`.
   */
  lemma UnitStrideWindows(n: nat, w: nat)
    requires n >= w
    ensures |Windows(n, w, 1)| == n - w + 1
    ensures forall k :: 0 <= k < n - w + 1 ==> Windows(n, w, 1)[k] == (k, k + w)
  {
    WindowsFromCount(0, n, w, 1);
    var c := |Windows(n, w, 1)|;
    assert (c - 1) * 1 == c - 1 && c * 1 == c;
    forall k | 0 <= k < n - w + 1 ensures Windows(n, w, 1)[k] == (k, k + w) {
      WindowsFromAt(0, n, w, 1, k);
    }
  }

  /** Window starts strictly increase, so no two windows share a start. */
  lemma WindowStartsIncrease(n: nat, w: nat, step: nat, j: nat, k: nat)
    requires step > 0 && j < k < |Windows(n, w, step)|
    ensures Windows(n, w, step)[j].0 < Windows(n, w, step)[k].0
  {
    WindowsFromAt(0, n, w, step, j);
    WindowsFromAt(0, n, w, step, k);
    assert j * step < k * step;
  }

  /** A sequence shorter than the window yields two empty lists whatever the model does, so the model is not consulted. */
  lemma ShortSequenceYieldsNothing(s: string, w: nat, step: nat, threshold: real, model: Model)
    requires step > 0 && |s| < w
    ensures Prediction(s, w, step, threshold, model) == Ok(Epitopes([], []))
    ensures Prediction(s, w, step, threshold, _ => None) == Ok(Epitopes([], []))
  {
  }

  /** A sequence at least as long as the window always has a first window, `[0, w)`. */
  lemma LongSequenceHasWindows(n: nat, w: nat, step: nat)
    requires step > 0 && n >= w
    ensures |Windows(n, w, step)| >= 1 && Windows(n, w, step)[0] == (0, w)
  {
  }

  // ----- The decision rule -----

  /** Accepted calls, by window: a call is listed exactly when some window up to `n` produced it under the rule. */
  lemma {:induction false} SelectMembership(s: string, positions: seq<(nat, nat)>, probs: seq<ProbVector>,
                                            threshold: real, kind: Label, n: nat, c: Call)
    requires InBounds(s, positions) && n <= |positions| && n <= |probs|
    ensures c in Select(s, positions, probs, threshold, kind, n) <==>
      exists k :: 0 <= k < n && Accepts(probs[k], threshold, kind) && c == MakeCall(s, positions[k], probs[k])
  {
    if n > 0 {
      SelectMembership(s, positions, probs, threshold, kind, n - 1, c);
    }
  }

  /** Every call carries the window's top-class probability, which reaches the threshold. */
  lemma {:induction false} SelectedConfidence(s: string, positions: seq<(nat, nat)>, probs: seq<ProbVector>,
                                              threshold: real, kind: Label, n: nat)
    requires InBounds(s, positions) && n <= |positions| && n <= |probs|
    ensures forall c :: c in Select(s, positions, probs, threshold, kind, n) ==> c.confidence >= threshold
  {
    if n > 0 {
      SelectedConfidence(s, positions, probs, threshold, kind, n - 1);
    }
  }

  /** The entries of `calls` whose confidence reaches `t`, in order. */
  function AtLeast(calls: seq<Call>, t: real): (r: seq<Call>)
    ensures |r| <= |calls|
    ensures forall c :: c in r <==> c in calls && c.confidence >= t
  {
    if calls == [] then []
    else AtLeast(calls[..|calls| - 1], t) + (if calls[|calls| - 1].confidence >= t then [calls[|calls| - 1]] else [])
  }

  /**
   * Raising the threshold only removes calls: the list at the higher threshold
   * is the list at the lower one without the entries below the higher threshold.
   */
  lemma {:induction false} RaisingThresholdFilters(s: string, positions: seq<(nat, nat)>, probs: seq<ProbVector>,
                                                   low: real, high: real, kind: Label, n: nat)
    requires InBounds(s, positions) && n <= |positions| && n <= |probs| && low <= high
    ensures Select(s, positions, probs, high, kind, n) == AtLeast(Select(s, positions, probs, low, kind, n), high)
  {
    if n > 0 {
      RaisingThresholdFilters(s, positions, probs, low, high, kind, n - 1);
      var p := probs[n - 1];
      var call := MakeCall(s, positions[n - 1], p);
      var before := Select(s, positions, probs, low, kind, n - 1);
      var extra := if Accepts(p, low, kind) then [call] else [];
      var kept := if Accepts(p, high, kind) then [call] else [];
      assert Select(s, positions, probs, low, kind, n) == before + extra;
      assert Select(s, positions, probs, high, kind, n) == AtLeast(before, high) + kept;
      AtLeastAppend(before, extra, high);
      AtLeastOne(extra, call, high);
      assert AtLeast(extra, high) == kept by {
        assert call.confidence == Confidence(p);
      }
    }
  }

  /** At most one call: kept exactly when its confidence reaches the threshold. */
  lemma AtLeastOne(xs: seq<Call>, c: Call, t: real)
    requires xs == [] || xs == [c]
    ensures AtLeast(xs, t) == if xs != [] && c.confidence >= t then [c] else []
  {
    if xs != [] {
      assert xs[..0] == [];
    }
  }

  lemma AtLeastAppend(a: seq<Call>, b: seq<Call>, t: real)
    requires |b| <= 1
    ensures AtLeast(a + b, t) == AtLeast(a, t) + AtLeast(b, t)
  {
    if b != [] {
      assert (a + b)[..|a + b| - 1] == a;
    } else {
      assert a + b == a;
    }
  }

  /** The same comparison on whole predictions: a higher threshold keeps a sub-list of each list. */
  lemma RaisingThresholdNeverAdds(s: string, w: nat, step: nat, low: real, high: real, model: Model)
    requires step > 0 && low <= high
    ensures Prediction(s, w, step, low, model).Ok? <==> Prediction(s, w, step, high, model).Ok?
    ensures Prediction(s, w, step, low, model).Ok? ==>
      var lo, hi := Prediction(s, w, step, low, model).value, Prediction(s, w, step, high, model).value;
      hi.bCell == AtLeast(lo.bCell, high) && hi.tCell == AtLeast(lo.tCell, high) &&
      |hi.bCell| <= |lo.bCell| && |hi.tCell| <= |lo.tCell|
  {
    if |s| >= w {
      var positions := Windows(|s|, w, step);
      var out := model(EncodedWindows(s, positions));
      if out.Some? {
        var probs := out.value;
        var n := if |probs| < |positions| then |probs| else |positions|;
        RaisingThresholdFilters(s, positions, probs, low, high, BCellPositive, n);
        RaisingThresholdFilters(s, positions, probs, low, high, TCellPositive, n);
      }
    }
  }

  // ----- The two lists -----

  /** Two windows of one sequence produce calls with different range texts. */
  lemma RangesIdentifyWindows(s: string, w: nat, step: nat, probs: seq<ProbVector>, j: nat, k: nat)
    requires step > 0
    requires j < |Windows(|s|, w, step)| && k < |Windows(|s|, w, step)| && j < |probs| && k < |probs|
    ensures var positions := Windows(|s|, w, step);
      MakeCall(s, positions[j], probs[j]).posRange == MakeCall(s, positions[k], probs[k]).posRange ==> j == k
  {
    var positions := Windows(|s|, w, step);
    WindowsFromAt(0, |s|, w, step, j);
    WindowsFromAt(0, |s|, w, step, k);
    RangeTextRoundTrip(positions[j].0, positions[j].1);
    RangeTextRoundTrip(positions[k].0, positions[k].1);
    if MakeCall(s, positions[j], probs[j]).posRange == MakeCall(s, positions[k], probs[k]).posRange {
      MulCancel(j, k, step);
    }
  }

  lemma MulCancel(j: nat, k: nat, step: nat)
    requires step > 0
    ensures j * step == k * step ==> j == k
  {
    if j < k {
      assert j * step < k * step;
    } else if k < j {
      assert k * step < j * step;
    }
  }

  /** A window's call lands in a list exactly when the window passes the rule for that list's class. */
  lemma {:induction false} WindowCallListed(s: string, w: nat, step: nat, probs: seq<ProbVector>,
                                            threshold: real, kind: Label, k: nat)
    requires step > 0
    requires k < |Windows(|s|, w, step)| && k < |probs|
    ensures var positions := Windows(|s|, w, step);
      var n := if |probs| < |positions| then |probs| else |positions|;
      MakeCall(s, positions[k], probs[k]) in Select(s, positions, probs, threshold, kind, n) <==>
        Accepts(probs[k], threshold, kind)
  {
    var positions := Windows(|s|, w, step);
    var n := if |probs| < |positions| then |probs| else |positions|;
    var c := MakeCall(s, positions[k], probs[k]);
    SelectMembership(s, positions, probs, threshold, kind, n, c);
    forall j | 0 <= j < n && c == MakeCall(s, positions[j], probs[j])
      ensures j == k
    {
      RangesIdentifyWindows(s, w, step, probs, j, k);
    }
  }

  /**
   * The decision rule for whole lists: window k is in the B-cell list iff its
   * top class is B-cell-positive with enough confidence, in the T-cell list iff
   * it is T-cell-positive with enough confidence, so never in both, and a
   * window whose top class is a negative one is in neither.
   */
  lemma BucketRule(s: string, w: nat, step: nat, probs: seq<ProbVector>, threshold: real, k: nat)
    requires step > 0
    requires k < |Windows(|s|, w, step)| && k < |probs|
    ensures var positions := Windows(|s|, w, step);
      var e := Bucket(s, positions, probs, threshold);
      var c := MakeCall(s, positions[k], probs[k]);
      && (c in e.bCell <==> Confidence(probs[k]) >= threshold && ArgMax(probs[k]) == 1)
      && (c in e.tCell <==> Confidence(probs[k]) >= threshold && ArgMax(probs[k]) == 3)
      && !(c in e.bCell && c in e.tCell)
      && (ArgMax(probs[k]) == 0 || ArgMax(probs[k]) == 2 ==> c !in e.bCell && c !in e.tCell)
  {
    WindowCallListed(s, w, step, probs, threshold, BCellPositive, k);
    WindowCallListed(s, w, step, probs, threshold, TCellPositive, k);
  }

  /** No call is in both lists. */
  lemma BucketsDisjoint(s: string, w: nat, step: nat, probs: seq<ProbVector>, threshold: real, c: Call)
    requires step > 0
    ensures var e := Bucket(s, Windows(|s|, w, step), probs, threshold);
      c in e.bCell ==> c !in e.tCell
  {
    var positions := Windows(|s|, w, step);
    var n := if |probs| < |positions| then |probs| else |positions|;
    SelectMembership(s, positions, probs, threshold, BCellPositive, n, c);
    SelectMembership(s, positions, probs, threshold, TCellPositive, n, c);
    forall j, k | 0 <= j < n && 0 <= k < n && Accepts(probs[j], threshold, BCellPositive) &&
                  c == MakeCall(s, positions[j], probs[j]) && c == MakeCall(s, positions[k], probs[k])
      ensures !Accepts(probs[k], threshold, TCellPositive)
    {
      RangesIdentifyWindows(s, w, step, probs, j, k);
    }
  }

  /** `c` shows the residues `[a, a + w)` of `s` and names them by the range `a + 1` to `a + w`. */
  predicate CoversWindow(s: string, w: nat, a: nat, c: Call) {
    a + w <= |s| && c.epitope == s[a..a + w] && ParseRange(c.posRange) == Some((a + 1, a + w))
  }

  /**
   * Every listed call is the window `[a, a + w)` of the sequence, its range
   * text reads back as `a + 1` to `a + w` (exactly `w` residues), and its
   * confidence reaches the threshold.
   */
  lemma CallShape(s: string, w: nat, step: nat, probs: seq<ProbVector>, threshold: real, c: Call)
    requires step > 0
    ensures var e := Bucket(s, Windows(|s|, w, step), probs, threshold);
      c in e.bCell || c in e.tCell ==> c.confidence >= threshold && exists a: nat :: CoversWindow(s, w, a, c)
  {
    var positions := Windows(|s|, w, step);
    var n := if |probs| < |positions| then |probs| else |positions|;
    if c in Select(s, positions, probs, threshold, BCellPositive, n) {
      var a := SelectedShape(s, w, positions, probs, threshold, BCellPositive, n, c);
    } else if c in Select(s, positions, probs, threshold, TCellPositive, n) {
      var a := SelectedShape(s, w, positions, probs, threshold, TCellPositive, n, c);
    }
  }

  /** A call selected among windows of width `w` shows the window starting at `a`, with enough confidence. */
  lemma SelectedShape(s: string, w: nat, positions: seq<(nat, nat)>, probs: seq<ProbVector>,
                      threshold: real, kind: Label, n: nat, c: Call) returns (a: nat)
    requires InBounds(s, positions) && n <= |positions| && n <= |probs|
    requires forall k :: 0 <= k < |positions| ==> positions[k].1 == positions[k].0 + w
    requires c in Select(s, positions, probs, threshold, kind, n)
    ensures c.confidence >= threshold && CoversWindow(s, w, a, c)
  {
    SelectMembership(s, positions, probs, threshold, kind, n, c);
    var k :| 0 <= k < n && Accepts(probs[k], threshold, kind) && c == MakeCall(s, positions[k], probs[k]);
    a := positions[k].0;
    MakeCallCovers(s, w, positions[k], probs[k]);
  }

  /** A window's call shows that window. */
  lemma MakeCallCovers(s: string, w: nat, pos: (nat, nat), p: ProbVector)
    requires pos.1 == pos.0 + w <= |s|
    ensures CoversWindow(s, w, pos.0, MakeCall(s, pos, p))
  {
    RangeTextRoundTrip(pos.0, pos.1);
  }

  // ----- Order of the lists -----

  /** The 1-based first position a call's range names, or -1 when it does not read back. */
  function StartKey(c: Call): int {
    match ParseRange(c.posRange)
    case Some(r) => r.0
    case None => -1
  }

  /** A window's call reads back as starting at the window's 1-based first position. */
  lemma StartKeyOfCall(s: string, pos: (nat, nat), p: ProbVector)
    requires pos.0 <= pos.1 <= |s|
    ensures StartKey(MakeCall(s, pos, p)) == pos.0 + 1
  {
    RangeTextRoundTrip(pos.0, pos.1);
  }

  /** The calls' starts strictly increase from left to right. */
  predicate StartsIncrease(xs: seq<Call>) {
    forall i, j :: 0 <= i < j < |xs| ==> StartKey(xs[i]) < StartKey(xs[j])
  }

  predicate StartsAtMost(xs: seq<Call>, bound: int) {
    forall i :: 0 <= i < |xs| ==> StartKey(xs[i]) <= bound
  }

  /** Window starts strictly increase along `positions`. */
  predicate PositionsIncrease(positions: seq<(nat, nat)>) {
    forall j, k :: 0 <= j < k < |positions| ==> positions[j].0 < positions[k].0
  }

  /** Each list runs in strictly increasing window start, every entry starting at most at window `n - 1`. */
  lemma SelectStartsIncrease(s: string, w: nat, step: nat, probs: seq<ProbVector>,
                             threshold: real, kind: Label, n: nat)
    requires step > 0 && n <= |Windows(|s|, w, step)| && n <= |probs|
    ensures StartsIncrease(Select(s, Windows(|s|, w, step), probs, threshold, kind, n))
    ensures n > 0 ==> StartsAtMost(Select(s, Windows(|s|, w, step), probs, threshold, kind, n), Windows(|s|, w, step)[n - 1].0 + 1)
  {
    var positions := Windows(|s|, w, step);
    forall j, k | 0 <= j < k < |positions| ensures positions[j].0 < positions[k].0 {
      WindowStartsIncrease(|s|, w, step, j, k);
    }
    SelectStartsIncreaseFrom(s, positions, probs, threshold, kind, n);
  }

  lemma {:induction false} SelectStartsIncreaseFrom(s: string, positions: seq<(nat, nat)>, probs: seq<ProbVector>,
                                                    threshold: real, kind: Label, n: nat)
    requires InBounds(s, positions) && n <= |positions| && n <= |probs| && PositionsIncrease(positions)
    ensures StartsIncrease(Select(s, positions, probs, threshold, kind, n))
    ensures n > 0 ==> StartsAtMost(Select(s, positions, probs, threshold, kind, n), positions[n - 1].0 + 1)
  {
    if n > 0 {
      var m := n - 1;
      var before := Select(s, positions, probs, threshold, kind, m);
      var bound := positions[m].0 + 1;
      SelectStartsIncreaseFrom(s, positions, probs, threshold, kind, m);
      if m > 0 {
        AtMostWeaken(before, positions[m - 1].0 + 1, bound - 1);
      }
      var call := MakeCall(s, positions[m], probs[m]);
      StartKeyOfCall(s, positions[m], probs[m]);
      var extra := if Accepts(probs[m], threshold, kind) then [call] else [];
      assert Select(s, positions, probs, threshold, kind, n) == before + extra;
      AppendIncreasing(before, extra, bound);
    }
  }

  lemma AtMostWeaken(xs: seq<Call>, a: int, b: int)
    requires StartsAtMost(xs, a) && a <= b
    ensures StartsAtMost(xs, b)
  {
  }

  lemma AppendIncreasing(xs: seq<Call>, extra: seq<Call>, bound: int)
    requires StartsIncrease(xs) && StartsAtMost(xs, bound - 1)
    requires forall i :: 0 <= i < |extra| ==> StartKey(extra[i]) == bound
    requires |extra| <= 1
    ensures StartsIncrease(xs + extra) && StartsAtMost(xs + extra, bound)
  {
  }
}
