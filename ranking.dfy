/**
 * The ranking step of `predict_epitopes` (app/model_predictor.py): each list
 * is sorted with `list.sort(key=confidence, reverse=True)`, which Python
 * keeps stable, so calls of equal confidence stay in their original order.
 */
module Ranking {
  import opened Selection

  /** Non-increasing confidence from left to right. */
  predicate SortedByConfidence(xs: seq<Call>) {
    forall i, j :: 0 <= i < j < |xs| ==> xs[i].confidence >= xs[j].confidence
  }

  /** The calls of `xs` whose confidence is exactly `c`, in their order in `xs`. */
  function WithConfidence(xs: seq<Call>, c: real): seq<Call> {
    if xs == [] then []
    else (if xs[0].confidence == c then [xs[0]] else []) + WithConfidence(xs[1..], c)
  }

  /** Puts `x` in front of the first call whose confidence does not exceed its own. */
  function Insert(x: Call, ys: seq<Call>): (r: seq<Call>)
    ensures multiset(r) == multiset(ys) + multiset{x}
  {
    if ys == [] || ys[0].confidence <= x.confidence then [x] + ys
    else
      assert ys == [ys[0]] + ys[1..];
      [ys[0]] + Insert(x, ys[1..])
  }

  /** `sort(key=lambda e: e[1], reverse=True)` as a stable insertion sort. */
  function SortByConfidence(xs: seq<Call>): (r: seq<Call>)
    ensures multiset(r) == multiset(xs)
  {
    if xs == [] then []
    else
      assert xs == [xs[0]] + xs[1..];
      Insert(xs[0], SortByConfidence(xs[1..]))
  }

  lemma {:induction false} InsertSorted(x: Call, ys: seq<Call>)
    requires SortedByConfidence(ys)
    ensures SortedByConfidence(Insert(x, ys))
  {
    if ys == [] || ys[0].confidence <= x.confidence {
      ConsSorted(x, ys);
    } else {
      var tail := ys[1..];
      var r := Insert(x, tail);
      InsertSorted(x, tail);
      if r != [] {
        assert r[0] in multiset(tail) + multiset{x};
        if r[0] != x {
          var m :| 0 <= m < |tail| && tail[m] == r[0];
          assert ys[m + 1] == r[0];
        }
      }
      ConsSorted(ys[0], r);
    }
  }

  /** A call no less confident than the head of a sorted list can go in front of it. */
  lemma ConsSorted(y: Call, r: seq<Call>)
    requires SortedByConfidence(r)
    requires r == [] || y.confidence >= r[0].confidence
    ensures SortedByConfidence([y] + r)
  {
    var t := [y] + r;
    forall i, j | 0 <= i < j < |t| ensures t[i].confidence >= t[j].confidence {
      if i == 0 {
        assert t[j] == r[j - 1];
      } else {
        assert t[i] == r[i - 1] && t[j] == r[j - 1];
      }
    }
  }

  /** The result is sorted by non-increasing confidence. */
  lemma {:induction false} SortIsSorted(xs: seq<Call>)
    ensures SortedByConfidence(SortByConfidence(xs))
  {
    if xs != [] {
      SortIsSorted(xs[1..]);
      InsertSorted(xs[0], SortByConfidence(xs[1..]));
    }
  }

  lemma {:induction false} InsertWithConfidence(x: Call, ys: seq<Call>, c: real)
    ensures WithConfidence(Insert(x, ys), c) ==
      (if x.confidence == c then [x] else []) + WithConfidence(ys, c)
  {
    if ys != [] && ys[0].confidence > x.confidence {
      var rest := Insert(x, ys[1..]);
      InsertWithConfidence(x, ys[1..], c);
      var r := [ys[0]] + rest;
      assert r[0] == ys[0] && r[1..] == rest;
      assert WithConfidence(r, c) == (if ys[0].confidence == c then [ys[0]] else []) + WithConfidence(rest, c);
      assert WithConfidence(ys, c) == (if ys[0].confidence == c then [ys[0]] else []) + WithConfidence(ys[1..], c);
    } else {
      var r := [x] + ys;
      assert r[0] == x && r[1..] == ys;
    }
  }

  /**
   * Stability: for every confidence value, the calls having it appear in the
   * sorted list in the same order as in the input.
   */
  lemma {:induction false} SortIsStable(xs: seq<Call>, c: real)
    ensures WithConfidence(SortByConfidence(xs), c) == WithConfidence(xs, c)
  {
    if xs != [] {
      SortIsStable(xs[1..], c);
      InsertWithConfidence(xs[0], SortByConfidence(xs[1..]), c);
    }
  }

  /** Sorting keeps the calls, as a multiset, and yields a sorted, stable arrangement of them. */
  lemma SortSpec(xs: seq<Call>)
    ensures multiset(SortByConfidence(xs)) == multiset(xs)
    ensures SortedByConfidence(SortByConfidence(xs))
    ensures forall c :: WithConfidence(SortByConfidence(xs), c) == WithConfidence(xs, c)
  {
    SortIsSorted(xs);
    forall c ensures WithConfidence(SortByConfidence(xs), c) == WithConfidence(xs, c) {
      SortIsStable(xs, c);
    }
  }

  /** Calls of equal confidence are ordered by strictly increasing `key`. */
  predicate TiesOrdered(xs: seq<Call>, key: Call -> int) {
    forall i, j :: 0 <= i < j < |xs| && xs[i].confidence == xs[j].confidence ==> key(xs[i]) < key(xs[j])
  }

  lemma {:induction false} InsertTiesOrdered(x: Call, ys: seq<Call>, key: Call -> int)
    requires TiesOrdered(ys, key)
    requires forall y :: y in ys && y.confidence == x.confidence ==> key(x) < key(y)
    ensures TiesOrdered(Insert(x, ys), key)
  {
    if ys != [] && ys[0].confidence > x.confidence {
      var rest := Insert(x, ys[1..]);
      assert TiesOrdered(ys[1..], key) by {
        forall i, j | 0 <= i < j < |ys[1..]| && ys[1..][i].confidence == ys[1..][j].confidence
          ensures key(ys[1..][i]) < key(ys[1..][j])
        {
          assert ys[1..][i] == ys[i + 1] && ys[1..][j] == ys[j + 1];
        }
      }
      InsertTiesOrdered(x, ys[1..], key);
      var r := Insert(x, ys);
      assert r == [ys[0]] + rest;
      forall i, j | 0 <= i < j < |r| && r[i].confidence == r[j].confidence
        ensures key(r[i]) < key(r[j])
      {
        if i > 0 {
          assert r[i] == rest[i - 1] && r[j] == rest[j - 1];
        } else {
          assert r[j] in multiset(rest);
          if r[j] != x {
            assert r[j] in multiset(ys[1..]);
            var m :| 0 <= m < |ys[1..]| && ys[1..][m] == r[j];
            assert ys[m + 1] == r[j];
          }
        }
      }
    }
  }

  /** Sorting keeps every tie in the order the input had it. */
  lemma {:induction false} SortKeepsTiesOrdered(xs: seq<Call>, key: Call -> int)
    requires TiesOrdered(xs, key)
    ensures TiesOrdered(SortByConfidence(xs), key)
  {
    if xs != [] {
      var tail := xs[1..];
      assert TiesOrdered(tail, key) by {
        forall i, j | 0 <= i < j < |tail| && tail[i].confidence == tail[j].confidence
          ensures key(tail[i]) < key(tail[j])
        {
          assert tail[i] == xs[i + 1] && tail[j] == xs[j + 1];
        }
      }
      SortKeepsTiesOrdered(tail, key);
      var sorted := SortByConfidence(tail);
      forall y | y in sorted && y.confidence == xs[0].confidence ensures key(xs[0]) < key(y) {
        assert y in multiset(tail);
        var m :| 0 <= m < |tail| && tail[m] == y;
        assert xs[m + 1] == y;
      }
      InsertTiesOrdered(xs[0], sorted, key);
    }
  }
}
