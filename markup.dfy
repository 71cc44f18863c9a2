/**
 * What `EpitopePredictor.get_sequence_markup` (app/model_predictor.py)
 * computes: one character per residue, a marker where some call's range
 * covers the residue and `.` elsewhere.
 */
module Markup {
  import opened Wrappers
  import opened Selection

  /** `'E' if epitope_type == 'B-cell' else 'T'`. */
  function MarkerFor(epitopeType: string): char {
    if epitopeType == "B-cell" then 'E' else 'T'
  }

  /** Why the markup loop raises: a range that does not read back, or an index off an empty list. */
  datatype MarkupError = BadRange | IndexOutOfRange

  /**
   * Whether `for i in range(lo - 1, min(hi, len))` writes slot `j` of a list
   * of length `len`: the slots from `lo - 1` on, and, when `lo` is 0, the
   * last slot, which Python's index -1 designates.
   */
  predicate Writes(lo: nat, hi: nat, len: nat, j: int) {
    (lo <= j + 1 && j < hi && j < len) || (lo == 0 && j == len - 1)
  }

  /** Slot `j` is marked on behalf of call `c`. */
  predicate CoveredBy(c: Call, len: nat, j: int) {
    match ParseRange(c.posRange)
    case Some(r) => Writes(r.0, r.1, len, j)
    case None => false
  }

  /** Slot `j` is marked on behalf of some call of the list. */
  predicate Covered(calls: seq<Call>, len: nat, j: int) {
    calls != [] && (Covered(calls[..|calls| - 1], len, j) || CoveredBy(calls[|calls| - 1], len, j))
  }

  /** A slot covered by one call of the list is covered by the list. */
  lemma {:induction false} CoveredByMember(calls: seq<Call>, len: nat, j: int, k: nat)
    requires k < |calls| && CoveredBy(calls[k], len, j)
    ensures Covered(calls, len, j)
  {
    var last := |calls| - 1;
    var init := calls[..last];
    if k < last {
      assert init[k] == calls[k];
      CoveredByMember(init, len, j, k);
      assert Covered(init, len, j);
    } else {
      assert CoveredBy(calls[last], len, j);
    }
    assert Covered(calls, len, j) == (Covered(init, len, j) || CoveredBy(calls[last], len, j));
  }

  /** A slot covered by the list is covered by one of its calls. */
  lemma {:induction false} CoveredHasMember(calls: seq<Call>, len: nat, j: int) returns (k: nat)
    requires Covered(calls, len, j)
    ensures k < |calls| && CoveredBy(calls[k], len, j)
  {
    var last := |calls| - 1;
    if CoveredBy(calls[last], len, j) {
      k := last;
    } else {
      var init := calls[..last];
      k := CoveredHasMember(init, len, j);
      assert calls[k] == init[k];
    }
  }

  /** `Covered` means: some call of the list covers the slot. */
  lemma CoveredIff(calls: seq<Call>, len: nat, j: int)
    ensures Covered(calls, len, j) <==> exists k :: 0 <= k < |calls| && CoveredBy(calls[k], len, j)
  {
    if Covered(calls, len, j) {
      var k := CoveredHasMember(calls, len, j);
    }
    forall k | 0 <= k < |calls| && CoveredBy(calls[k], len, j) ensures Covered(calls, len, j) {
      CoveredByMember(calls, len, j, k);
    }
  }

  /** The error one call raises, if any. */
  function FailureOf(c: Call, len: nat): Option<MarkupError> {
    match ParseRange(c.posRange)
    case None => Some(BadRange)
    case Some(r) => if len == 0 && r.0 == 0 then Some(IndexOutOfRange) else None
  }

  /** The error of the first call that raises, if any: Python stops at it. */
  function FirstFailure(calls: seq<Call>, len: nat): Option<MarkupError> {
    if calls == [] then None
    else if FirstFailure(calls[..|calls| - 1], len).Some? then FirstFailure(calls[..|calls| - 1], len)
    else FailureOf(calls[|calls| - 1], len)
  }

  lemma {:induction false} FirstFailureOfPrefix(calls: seq<Call>, len: nat, k: nat)
    requires k <= |calls| && FirstFailure(calls[..k], len).Some?
    ensures FirstFailure(calls, len) == FirstFailure(calls[..k], len)
    decreases |calls| - k
  {
    if k < |calls| {
      assert calls[..k + 1][..k] == calls[..k];
      FirstFailureOfPrefix(calls, len, k + 1);
    } else {
      assert calls[..k] == calls;
    }
  }

  // ----- Markup of the engine's own calls -----

  /** A call that shows window `[a, a + w)` never raises, and marks exactly that window. */
  lemma WindowCallMarks(s: string, w: nat, a: nat, c: Call, j: int)
    requires CoversWindow(s, w, a, c)
    ensures FailureOf(c, |s|) == None
    ensures CoveredBy(c, |s|, j) <==> a <= j < a + w
  {
  }

  /** `c` shows some window of width `w` of `s`. */
  ghost predicate IsWindowCall(s: string, w: nat, c: Call) {
    exists a: nat :: CoversWindow(s, w, a, c)
  }

  /** A list of calls the engine could have made never makes the markup raise. */
  lemma {:induction false} WindowCallsNeverFail(s: string, w: nat, calls: seq<Call>)
    requires forall k :: 0 <= k < |calls| ==> IsWindowCall(s, w, calls[k])
    ensures FirstFailure(calls, |s|) == None
  {
    if calls != [] {
      var last := |calls| - 1;
      var init := calls[..last];
      forall k | 0 <= k < |init| ensures IsWindowCall(s, w, init[k]) {
        assert init[k] == calls[k];
      }
      WindowCallsNeverFail(s, w, init);
      var a: nat :| CoversWindow(s, w, a, calls[last]);
      WindowCallMarks(s, w, a, calls[last], 0);
    }
  }

  /** Residue `j` lies in the window one of the calls shows. */
  ghost predicate InSomeWindow(s: string, w: nat, calls: seq<Call>, j: int) {
    exists k, a: nat :: 0 <= k < |calls| && CoversWindow(s, w, a, calls[k]) && a <= j < a + w
  }

  /** A list of calls the engine could have made marks a residue exactly when one of the calls' windows contains it. */
  lemma WindowCallsMarkup(s: string, w: nat, calls: seq<Call>, j: int)
    requires forall k :: 0 <= k < |calls| ==> IsWindowCall(s, w, calls[k])
    ensures Covered(calls, |s|, j) <==> InSomeWindow(s, w, calls, j)
  {
    CoveredIff(calls, |s|, j);
    if Covered(calls, |s|, j) {
      var k :| 0 <= k < |calls| && CoveredBy(calls[k], |s|, j);
      var a: nat :| CoversWindow(s, w, a, calls[k]);
      WindowCallMarks(s, w, a, calls[k], j);
    }
    if exists k, a: nat :: 0 <= k < |calls| && CoversWindow(s, w, a, calls[k]) && a <= j < a + w {
      var k, a: nat :| 0 <= k < |calls| && CoversWindow(s, w, a, calls[k]) && a <= j < a + w;
      WindowCallMarks(s, w, a, calls[k], j);
    }
  }
}
