/**
  Precision@k and recall@k of ranked user recommendations (src/score.py).

  A question's prediction is a list of user ids and its truth is the list of
  users who answered it. Per question, the number of hits is the size of the
  intersection of the two id sets; precision divides it by the length of the
  prediction list and recall by the length of the truth list. The aggregate is
  the mean of the per-question ratios, computed here exactly over `real`.
 */
module Score {
  import opened Common

  /** Why a score could not be produced: the source raises or yields NaN. */
  datatype ScoreError =
    | LengthMismatch               // the two lists differ in length
    | ZeroDivision(question: nat)  // dividing by the length of an empty list raises
    | EmptyMean                    // the mean of no questions is NaN

  /** Python's `set(ids)`. */
  function Distinct(ids: seq<int>): (d: set<int>)
    ensures forall i :: 0 <= i < |ids| ==> ids[i] in d
    ensures forall x :: x in d ==> x in ids
  {
    set x | x in ids
  }

  /** A list in which no id occurs twice. */
  predicate NoDuplicates(ids: seq<int>) {
    forall i, j :: 0 <= i < j < |ids| ==> ids[i] != ids[j]
  }

  /** A list without duplicates has exactly as many distinct ids as entries. */
  lemma {:induction false} DistinctSizeOfUnique(ids: seq<int>)
    requires NoDuplicates(ids)
    ensures |Distinct(ids)| == |ids|
  {
    if ids != [] {
      DistinctSizeOfUnique(ids[1..]);
      assert Distinct(ids) == {ids[0]} + Distinct(ids[1..]);
      assert ids[0] !in Distinct(ids[1..]) by {
        forall k | 0 <= k < |ids[1..]| ensures ids[1..][k] != ids[0] {
          assert ids[1..][k] == ids[k + 1];
        }
      }
    }
  }

  /** Intersecting the ids of a list with any set keeps at most one id per entry. */
  lemma {:induction false} IntersectionSize(ids: seq<int>, other: set<int>)
    ensures |Distinct(ids) * other| <= |ids|
  {
    if ids == [] {
      assert Distinct(ids) == {};
    } else {
      IntersectionSize(ids[1..], other);
      assert Distinct(ids) * other == ({ids[0]} * other) + (Distinct(ids[1..]) * other);
      if ids[0] in other {
        assert {ids[0]} * other == {ids[0]};
      } else {
        assert {ids[0]} * other == {};
      }
    }
  }

  /** The number of predicted users who answered: the size of the intersection of the id sets. */
  function Hits(yPred: seq<int>, y: seq<int>): (h: nat)
    ensures h <= |yPred| && h <= |y|
  {
    IntersectionSize(yPred, Distinct(y));
    IntersectionSize(y, Distinct(yPred));
    assert Distinct(y) * Distinct(yPred) == Distinct(yPred) * Distinct(y);
    |Distinct(yPred) * Distinct(y)|
  }

  /** A count over a larger positive count is a ratio in [0, 1]. */
  lemma RatioBounds(count: nat, total: nat)
    requires count <= total && total > 0
    ensures 0.0 <= count as real / total as real <= 1.0
  {
    var q := count as real / total as real;
    assert q * total as real == count as real;
  }

  /** The precision of one question (src/score.py:13). */
  function Precision(yPred: seq<int>, y: seq<int>): (p: real)
    requires |yPred| > 0
    ensures 0.0 <= p <= 1.0
  {
    RatioBounds(Hits(yPred, y), |yPred|);
    Hits(yPred, y) as real / |yPred| as real
  }

  /** The recall of one question (src/score.py:27). */
  function Recall(yPred: seq<int>, y: seq<int>): (r: real)
    requires |y| > 0
    ensures 0.0 <= r <= 1.0
  {
    RatioBounds(Hits(yPred, y), |y|);
    Hits(yPred, y) as real / |y| as real
  }

  predicate AllNonEmpty(lists: seq<seq<int>>) {
    forall i :: 0 <= i < |lists| ==> |lists[i]| > 0
  }

  /** The list `precision_k` the loop of `precision_k` builds, one entry per question. */
  function Precisions(yPred: seq<seq<int>>, y: seq<seq<int>>): (ps: seq<real>)
    requires |yPred| == |y| && AllNonEmpty(yPred)
    ensures |ps| == |yPred|
  {
    if yPred == [] then []
    else Precisions(yPred[..|yPred| - 1], y[..|y| - 1])
         + [Precision(yPred[|yPred| - 1], y[|y| - 1])]
  }

  /** The list `recall_k` the loop of `recall_k` builds, one entry per question. */
  function Recalls(yPred: seq<seq<int>>, y: seq<seq<int>>): (rs: seq<real>)
    requires |yPred| == |y| && AllNonEmpty(y)
    ensures |rs| == |y|
  {
    if y == [] then []
    else Recalls(yPred[..|yPred| - 1], y[..|y| - 1])
         + [Recall(yPred[|yPred| - 1], y[|y| - 1])]
  }

  /** Entry k of the per-question lists is the ratio of question k. */
  lemma {:induction false} PrecisionsAt(yPred: seq<seq<int>>, y: seq<seq<int>>, k: nat)
    requires |yPred| == |y| && AllNonEmpty(yPred) && k < |yPred|
    ensures Precisions(yPred, y)[k] == Precision(yPred[k], y[k])
  {
    var n := |yPred| - 1;
    if k < n {
      PrecisionsAt(yPred[..n], y[..n], k);
    }
  }

  lemma {:induction false} RecallsAt(yPred: seq<seq<int>>, y: seq<seq<int>>, k: nat)
    requires |yPred| == |y| && AllNonEmpty(y) && k < |y|
    ensures Recalls(yPred, y)[k] == Recall(yPred[k], y[k])
  {
    var n := |y| - 1;
    if k < n {
      RecallsAt(yPred[..n], y[..n], k);
    }
  }

  function Sum(xs: seq<real>): real {
    if xs == [] then 0.0 else xs[0] + Sum(xs[1..])
  }

  /** `np.mean`, exactly. */
  function Mean(xs: seq<real>): (m: real)
    requires |xs| > 0
    ensures m * |xs| as real == Sum(xs)
  {
    Sum(xs) / |xs| as real
  }

  predicate InUnitInterval(xs: seq<real>) {
    forall i :: 0 <= i < |xs| ==> 0.0 <= xs[i] <= 1.0
  }

  lemma {:induction false} SumBounds(xs: seq<real>)
    requires InUnitInterval(xs)
    ensures 0.0 <= Sum(xs) <= |xs| as real
  {
    if xs != [] {
      assert InUnitInterval(xs[1..]) by {
        forall i | 0 <= i < |xs[1..]| ensures 0.0 <= xs[1..][i] <= 1.0 {
          assert xs[1..][i] == xs[i + 1];
        }
      }
      SumBounds(xs[1..]);
    }
  }

  /** The mean of ratios in [0, 1] lies in [0, 1]. */
  lemma MeanBounds(xs: seq<real>)
    requires |xs| > 0 && InUnitInterval(xs)
    ensures 0.0 <= Mean(xs) <= 1.0
  {
    SumBounds(xs);
  }

  lemma PrecisionsInUnitInterval(yPred: seq<seq<int>>, y: seq<seq<int>>)
    requires |yPred| == |y| && AllNonEmpty(yPred)
    ensures InUnitInterval(Precisions(yPred, y))
  {
    forall k | 0 <= k < |yPred| ensures 0.0 <= Precisions(yPred, y)[k] <= 1.0 {
      PrecisionsAt(yPred, y, k);
    }
  }

  lemma RecallsInUnitInterval(yPred: seq<seq<int>>, y: seq<seq<int>>)
    requires |yPred| == |y| && AllNonEmpty(y)
    ensures InUnitInterval(Recalls(yPred, y))
  {
    forall k | 0 <= k < |y| ensures 0.0 <= Recalls(yPred, y)[k] <= 1.0 {
      RecallsAt(yPred, y, k);
    }
  }

  /**
    `precision_k(Y_pred, Y)`: fails on unequal lengths, raises at the first
    empty prediction list, is NaN for no questions, and is otherwise the mean of
    the per-question precisions, a value in [0, 1].
   */
  method PrecisionK(yPred: seq<seq<int>>, y: seq<seq<int>>) returns (r: Result<real, ScoreError>)
    ensures r == Failure(LengthMismatch) <==> |yPred| != |y|
    ensures r == Failure(EmptyMean) <==> |yPred| == |y| == 0
    ensures r.Failure? && r.error.ZeroDivision? ==>
              var i := r.error.question;
              |yPred| == |y| && i < |yPred| && yPred[i] == [] &&
              forall k :: 0 <= k < i ==> yPred[k] != []
    ensures r.Success? <==> |yPred| == |y| && |yPred| > 0 && AllNonEmpty(yPred)
    ensures r.Success? ==> r.value == Mean(Precisions(yPred, y)) && 0.0 <= r.value <= 1.0
  {
    if |yPred| != |y| {
      return Failure(LengthMismatch);
    }
    var ratios: seq<real> := [];
    for i := 0 to |yPred|
      invariant AllNonEmpty(yPred[..i])
      invariant ratios == Precisions(yPred[..i], y[..i])
    {
      if |yPred[i]| == 0 {
        return Failure(ZeroDivision(i));
      }
      assert yPred[..i + 1][..i] == yPred[..i] && y[..i + 1][..i] == y[..i];
      ratios := ratios + [Precision(yPred[i], y[i])];
    }
    assert yPred[..|yPred|] == yPred && y[..|y|] == y;
    if |ratios| == 0 {
      return Failure(EmptyMean);
    }
    PrecisionsInUnitInterval(yPred, y);
    MeanBounds(ratios);
    return Success(Mean(ratios));
  }

  /**
    `recall_k(Y_pred, Y)`: fails on unequal lengths, raises at the first empty
    truth list, is NaN for no questions, and is otherwise the mean of the
    per-question recalls, a value in [0, 1].
   */
  method RecallK(yPred: seq<seq<int>>, y: seq<seq<int>>) returns (r: Result<real, ScoreError>)
    ensures r == Failure(LengthMismatch) <==> |yPred| != |y|
    ensures r == Failure(EmptyMean) <==> |yPred| == |y| == 0
    ensures r.Failure? && r.error.ZeroDivision? ==>
              var i := r.error.question;
              |yPred| == |y| && i < |y| && y[i] == [] &&
              forall k :: 0 <= k < i ==> y[k] != []
    ensures r.Success? <==> |yPred| == |y| && |y| > 0 && AllNonEmpty(y)
    ensures r.Success? ==> r.value == Mean(Recalls(yPred, y)) && 0.0 <= r.value <= 1.0
  {
    if |yPred| != |y| {
      return Failure(LengthMismatch);
    }
    var ratios: seq<real> := [];
    for i := 0 to |y|
      invariant AllNonEmpty(y[..i])
      invariant ratios == Recalls(yPred[..i], y[..i])
    {
      if |y[i]| == 0 {
        return Failure(ZeroDivision(i));
      }
      assert yPred[..i + 1][..i] == yPred[..i] && y[..i + 1][..i] == y[..i];
      ratios := ratios + [Recall(yPred[i], y[i])];
    }
    assert yPred[..|yPred|] == yPred && y[..|y|] == y;
    if |ratios| == 0 {
      return Failure(EmptyMean);
    }
    RecallsInUnitInterval(yPred, y);
    MeanBounds(ratios);
    return Success(Mean(ratios));
  }

  /** Only the set of ids and the list length matter: reordering either list changes nothing. */
  lemma OrderInsensitive(yPred: seq<int>, yPred': seq<int>, y: seq<int>, y': seq<int>)
    requires multiset(yPred) == multiset(yPred') && multiset(y) == multiset(y')
    ensures |yPred| > 0 ==> |yPred'| > 0 && Precision(yPred, y) == Precision(yPred', y')
    ensures |y| > 0 ==> |y'| > 0 && Recall(yPred, y) == Recall(yPred', y')
  {
    assert |yPred| == |multiset(yPred)| == |multiset(yPred')| == |yPred'|;
    assert |y| == |multiset(y)| == |multiset(y')| == |y'|;
    assert Distinct(yPred) == Distinct(yPred') by {
      forall x ensures x in yPred <==> x in yPred' {
        assert x in yPred <==> x in multiset(yPred);
        assert x in yPred' <==> x in multiset(yPred');
      }
    }
    assert Distinct(y) == Distinct(y') by {
      forall x ensures x in y <==> x in y' {
        assert x in y <==> x in multiset(y);
        assert x in y' <==> x in multiset(y');
      }
    }
  }

  /** Lists of equal length give equal precision and recall. */
  lemma PrecisionIsRecallOnEqualLengths(yPred: seq<int>, y: seq<int>)
    requires |yPred| == |y| > 0
    ensures Precision(yPred, y) == Recall(yPred, y)
  {
  }

  /** No common user: both scores are 0. */
  lemma DisjointScoresZero(yPred: seq<int>, y: seq<int>)
    requires forall i, j :: 0 <= i < |yPred| && 0 <= j < |y| ==> yPred[i] != y[j]
    ensures |yPred| > 0 ==> Precision(yPred, y) == 0.0
    ensures |y| > 0 ==> Recall(yPred, y) == 0.0
  {
    assert Distinct(yPred) * Distinct(y) == {};
  }

  /** A prediction equal to a truth of distinct ids scores 1 on both. */
  lemma IdenticalScoresOne(ids: seq<int>)
    requires |ids| > 0 && NoDuplicates(ids)
    ensures Precision(ids, ids) == 1.0 && Recall(ids, ids) == 1.0
  {
    DistinctSizeOfUnique(ids);
    assert Distinct(ids) * Distinct(ids) == Distinct(ids);
    assert Hits(ids, ids) == |ids|;
    var n := |ids| as real;
    assert n / n == 1.0;
  }

  /** [1,2,3] against [2,3,4]: two hits out of three on both sides. */
  lemma ExampleTwoThirds()
    ensures Precision([1, 2, 3], [2, 3, 4]) == 2.0 / 3.0
    ensures Recall([1, 2, 3], [2, 3, 4]) == 2.0 / 3.0
  {
    assert Distinct([1, 2, 3]) * Distinct([2, 3, 4]) == {2, 3};
  }

  /** [[1,2],[3,4]] against [[1,2],[5,6]]: means of 1 and 0. */
  lemma ExampleOneHalf()
    ensures Mean(Precisions([[1, 2], [3, 4]], [[1, 2], [5, 6]])) == 0.5
    ensures Mean(Recalls([[1, 2], [3, 4]], [[1, 2], [5, 6]])) == 0.5
  {
    var yPred, y := [[1, 2], [3, 4]], [[1, 2], [5, 6]];
    assert Distinct([1, 2]) * Distinct([1, 2]) == {1, 2};
    assert Distinct([3, 4]) * Distinct([5, 6]) == {};
    PrecisionsAt(yPred, y, 0);
    PrecisionsAt(yPred, y, 1);
    RecallsAt(yPred, y, 0);
    RecallsAt(yPred, y, 1);
    assert Precisions(yPred, y) == [1.0, 0.0];
    assert Recalls(yPred, y) == [1.0, 0.0];
  }
}
