/**
  The subspace scorer of Subspace Outlier Detection. For each point, the rows
  of its reference set give column means, a total variance and a threshold
  alpha * var_total / d; a dimension is relevant when the reference set's own
  variance along it is strictly below the threshold, and the point's score is
  its mean squared deviation from the reference means over the relevant
  dimensions (0 when there are none). Arithmetic is over exact reals, and the
  score is kept squared (see README).
*/
module Subspace {

  /** Every row has `d` entries: an n-by-d feature matrix. */
  predicate IsMatrix(X: seq<seq<real>>, d: nat)
  {
    forall i :: 0 <= i < |X| ==> |X[i]| == d
  }

  /** The sum of a vector. */
  function Sum(s: seq<real>): real
  {
    if s == [] then 0.0 else Sum(s[..|s| - 1]) + s[|s| - 1]
  }

  /** n copies of c added up: n * c, by repeated addition. */
  function Times(n: nat, c: real): real
  {
    if n == 0 then 0.0 else Times(n - 1, c) + c
  }

  /** The sum of a 0/1 indicator vector, that is, the number of its ones. */
  function Count(mask: seq<nat>): (c: nat)
    requires forall j :: 0 <= j < |mask| ==> mask[j] <= 1
    ensures c <= |mask|
  {
    if mask == [] then 0 else Count(mask[..|mask| - 1]) + mask[|mask| - 1]
  }

  /** Column j of a matrix. */
  function Column(M: seq<seq<real>>, j: nat): seq<real>
    requires forall t :: 0 <= t < |M| ==> j < |M[t]|
  {
    seq(|M|, t requires 0 <= t < |M| => M[t][j])
  }

  /** The sum of every entry of a matrix, row by row. */
  function TotalSum(M: seq<seq<real>>): real
  {
    if M == [] then 0.0 else TotalSum(M[..|M| - 1]) + Sum(M[|M| - 1])
  }

  /** The rows of X named by one row of reference indices: one row of X per index. */
  function Gather(X: seq<seq<real>>, inds: seq<nat>): (rows: seq<seq<real>>)
    requires forall t :: 0 <= t < |inds| ==> inds[t] < |X|
    ensures |rows| == |inds| && forall t :: 0 <= t < |rows| ==> rows[t] in X
  {
    seq(|inds|, t requires 0 <= t < |inds| => X[inds[t]])
  }

  /** Column-wise mean of the reference rows. */
  function Means(ref: seq<seq<real>>, d: nat): (means: seq<real>)
    requires |ref| > 0 && IsMatrix(ref, d)
    ensures |means| == d
  {
    seq(d, j requires 0 <= j < d => Sum(Column(ref, j)) / (|ref| as real))
  }

  /** The square of a real. */
  function Square(x: real): (y: real)
    ensures y >= 0.0
  {
    x * x
  }

  /** Entry-wise squared difference of two vectors. */
  function SquaredDiff(v: seq<real>, m: seq<real>): (sq: seq<real>)
    requires |v| == |m|
    ensures |sq| == |v| && forall j :: 0 <= j < |v| ==> sq[j] >= 0.0
  {
    seq(|v|, j requires 0 <= j < |v| => Square(v[j] - m[j]))
  }

  /** Squared deviation of every reference entry from its column mean. */
  function SquaredDeviations(ref: seq<seq<real>>, means: seq<real>): (dev: seq<seq<real>>)
    requires IsMatrix(ref, |means|)
    ensures |dev| == |ref| && IsMatrix(dev, |means|)
    ensures forall t, j :: 0 <= t < |dev| && 0 <= j < |dev[t]| ==> dev[t][j] >= 0.0
  {
    seq(|ref|, t requires 0 <= t < |ref| => SquaredDiff(ref[t], means))
  }

  /** Average squared distance of the reference rows to the means, over all dimensions. */
  function VarTotal(ref: seq<seq<real>>, means: seq<real>): (v: real)
    requires |ref| > 0 && IsMatrix(ref, |means|)
    ensures v >= 0.0
  {
    TotalSumNonNeg(SquaredDeviations(ref, means));
    TotalSum(SquaredDeviations(ref, means)) / (|ref| as real)
  }

  /** The relevance threshold alpha * var_total / d. */
  function VarExpect(alpha: real, varTotal: real, d: nat): real
    requires d > 0
  {
    alpha * varTotal / (d as real)
  }

  /** Population variance of each column of the reference rows. */
  function VarActual(ref: seq<seq<real>>, means: seq<real>): (va: seq<real>)
    requires |ref| > 0 && IsMatrix(ref, |means|)
    ensures |va| == |means| && forall j :: 0 <= j < |va| ==> va[j] >= 0.0
  {
    var dev := SquaredDeviations(ref, means);
    ColumnSumsNonNeg(dev, |means|);
    seq(|means|, j requires 0 <= j < |means| => Sum(Column(dev, j)) / (|ref| as real))
  }

  /** The indicator of the dimensions whose variance is strictly below the threshold. */
  function RelevanceMask(varActual: seq<real>, varExpect: real): (mask: seq<nat>)
    ensures |mask| == |varActual| && forall j :: 0 <= j < |mask| ==> mask[j] <= 1
    ensures forall j :: 0 <= j < |mask| ==> (mask[j] == 1 <==> varActual[j] < varExpect)
  {
    seq(|varActual|, j requires 0 <= j < |varActual| => if varActual[j] < varExpect then 1 else 0)
  }

  /** The relevance indicator of a reference set, from its means, variances and threshold. */
  function Relevance(ref: seq<seq<real>>, d: nat, alpha: real): (mask: seq<nat>)
    requires d > 0 && |ref| > 0 && IsMatrix(ref, d)
    ensures |mask| == d && forall j :: 0 <= j < d ==> mask[j] <= 1
  {
    var means := Means(ref, d);
    RelevanceMask(VarActual(ref, means), VarExpect(alpha, VarTotal(ref, means), d))
  }

  /** Inner product of an indicator vector with a vector. */
  function Dot(mask: seq<nat>, v: seq<real>): real
    requires |mask| == |v|
  {
    if mask == [] then 0.0
    else Dot(mask[..|mask| - 1], v[..|v| - 1]) + (mask[|mask| - 1] as real) * v[|v| - 1]
  }

  /**
    The squared SOD score of observation `obs` against its reference rows:
    the mean squared deviation from the reference means over the relevant
    dimensions, or 0 when no dimension is relevant. Never negative.
  */
  function SquaredScore(obs: seq<real>, ref: seq<seq<real>>, d: nat, alpha: real): (score: real)
    requires d > 0 && |obs| == d && |ref| > 0 && IsMatrix(ref, d)
    ensures score >= 0.0
  {
    var means := Means(ref, d);
    var varInds := Relevance(ref, d, alpha);
    var relDim := Count(varInds);
    DotNonNeg(varInds, SquaredDiff(obs, means));
    if relDim != 0 then Dot(varInds, SquaredDiff(obs, means)) / (relDim as real) else 0.0
  }

  /** Non-empty reference rows of indices into n points, one per point. */
  predicate IsReferenceIndexMatrix(refs: seq<seq<nat>>, n: nat)
  {
    |refs| == n && forall i :: 0 <= i < n ==> |refs[i]| > 0 && forall t :: 0 <= t < |refs[i]| ==> refs[i][t] < n
  }

  /** The score of every point of X against its reference rows. */
  function Scores(X: seq<seq<real>>, d: nat, refs: seq<seq<nat>>, alpha: real): (scores: seq<real>)
    requires d > 0 && IsMatrix(X, d) && IsReferenceIndexMatrix(refs, |X|)
    ensures |scores| == |X| && forall i :: 0 <= i < |X| ==> scores[i] >= 0.0
  {
    seq(|X|, i requires 0 <= i < |X| => SquaredScore(X[i], Gather(X, refs[i]), d, alpha))
  }

  /**
    One iteration of the loop of `_sod`: the reference means, total variance,
    threshold, per-dimension variances, the relevance indicator and its count
    rel_dim, and the score. rel_dim is the number of dimensions whose variance
    is strictly below the threshold, and below d when alpha is at most 1; the
    score is never negative, is 0 when rel_dim is 0, and otherwise is 0
    exactly when the observation sits on the reference means in every relevant
    dimension.
  */
  method PointScore(obs: seq<real>, ref: seq<seq<real>>, d: nat, alpha: real) returns (relDim: nat, score: real)
    requires d > 0 && |obs| == d && |ref| > 0 && IsMatrix(ref, d)
    ensures relDim == Count(Relevance(ref, d, alpha))
    ensures score == SquaredScore(obs, ref, d, alpha)
    ensures relDim == |RelevantDims(VarActual(ref, Means(ref, d)), VarExpect(alpha, VarTotal(ref, Means(ref, d)), d))|
    ensures alpha <= 1.0 ==> relDim < d
    ensures score >= 0.0
    ensures relDim == 0 ==> score == 0.0
    ensures relDim > 0 ==>
      (score == 0.0 <==> forall j :: 0 <= j < d && Relevance(ref, d, alpha)[j] == 1 ==> obs[j] == Means(ref, d)[j])
  {
    var means := Means(ref, d);
    var varTotal := VarTotal(ref, means);
    var varExpect := VarExpect(alpha, varTotal, d);
    var varActual := VarActual(ref, means);
    var varInds := RelevanceMask(varActual, varExpect);
    relDim := Count(varInds);
    score := 0.0;
    if relDim != 0 {
      score := Dot(varInds, SquaredDiff(obs, means)) / (relDim as real);
    }
    RelDimIsCardinality(varActual, varExpect);
    if alpha <= 1.0 {
      NotEveryDimensionRelevant(ref, d, alpha);
    }
    ScoreZeroIff(obs, ref, d, alpha);
  }

  /**
    `_sod`: a zero-initialised score vector; for each point, the rows of X
    named by its row of reference indices are gathered and its score is
    written only when rel_dim is non-zero. The reference index matrix is
    given as its sequence of rows.
  */
  method Sod(X: seq<seq<real>>, d: nat, refs: seq<seq<nat>>, alpha: real) returns (scores: array<real>)
    requires d > 0 && IsMatrix(X, d)
    requires IsReferenceIndexMatrix(refs, |X|)
    ensures scores[..] == Scores(X, d, refs, alpha)
  {
    ghost var spec := Scores(X, d, refs, alpha);
    scores := new real[|X|](_ => 0.0);
    var i := 0;
    while i < |X|
      invariant 0 <= i <= |X|
      invariant scores[..i] == spec[..i]
      invariant forall i' :: i <= i' < |X| ==> scores[i'] == 0.0
    {
      var relDim, score := PointScore(X[i], Gather(X, refs[i]), d, alpha);
      assert score == spec[i];
      if relDim != 0 {
        scores[i] := score;
      }
      assert scores[..i + 1] == scores[..i] + [score];
      i := i + 1;
    }
    assert scores[..] == scores[..|X|];
  }

  // Algebra of sums

  lemma {:induction false} SumNonNeg(s: seq<real>)
    requires forall j :: 0 <= j < |s| ==> s[j] >= 0.0
    ensures Sum(s) >= 0.0
  {
    if s != [] {
      SumNonNeg(s[..|s| - 1]);
    }
  }

  lemma {:induction false} TotalSumNonNeg(M: seq<seq<real>>)
    requires forall t, j :: 0 <= t < |M| && 0 <= j < |M[t]| ==> M[t][j] >= 0.0
    ensures TotalSum(M) >= 0.0
  {
    if M != [] {
      TotalSumNonNeg(M[..|M| - 1]);
      SumNonNeg(M[|M| - 1]);
    }
  }

  lemma ColumnSumsNonNeg(M: seq<seq<real>>, d: nat)
    requires IsMatrix(M, d)
    requires forall t, j :: 0 <= t < |M| && 0 <= j < |M[t]| ==> M[t][j] >= 0.0
    ensures forall j :: 0 <= j < d ==> Sum(Column(M, j)) >= 0.0
  {
    forall j | 0 <= j < d
      ensures Sum(Column(M, j)) >= 0.0
    {
      SumNonNeg(Column(M, j));
    }
  }

  lemma {:induction false} DotNonNeg(mask: seq<nat>, v: seq<real>)
    requires |mask| == |v| && forall j :: 0 <= j < |v| ==> v[j] >= 0.0
    ensures Dot(mask, v) >= 0.0
  {
    if mask != [] {
      DotNonNeg(mask[..|mask| - 1], v[..|v| - 1]);
      MulNonNeg(mask[|mask| - 1] as real, v[|v| - 1]);
    }
  }

  lemma {:induction false} SumZero(s: seq<real>)
    requires forall j :: 0 <= j < |s| ==> s[j] == 0.0
    ensures Sum(s) == 0.0
  {
    if s != [] {
      SumZero(s[..|s| - 1]);
    }
  }

  /** Sums add entry-wise. */
  lemma {:induction false} SumAdd(a: seq<real>, b: seq<real>, c: seq<real>)
    requires |a| == |b| == |c|
    requires forall j :: 0 <= j < |c| ==> c[j] == a[j] + b[j]
    ensures Sum(c) == Sum(a) + Sum(b)
  {
    if c != [] {
      var m := |c| - 1;
      SumAdd(a[..m], b[..m], c[..m]);
    }
  }

  /** Dividing every entry by k divides the sum by k. */
  lemma {:induction false} SumDiv(a: seq<real>, b: seq<real>, k: real)
    requires k != 0.0 && |a| == |b|
    requires forall j :: 0 <= j < |b| ==> b[j] == a[j] / k
    ensures Sum(b) == Sum(a) / k
  {
    if b != [] {
      var m := |b| - 1;
      SumDiv(a[..m], b[..m], k);
      DivAdd(Sum(a[..m]), a[m], k);
    }
  }

  lemma DivAdd(x: real, y: real, k: real)
    requires k != 0.0
    ensures x / k + y / k == (x + y) / k
  {
  }

  /** Subtracting c from every entry subtracts |a| * c from the sum. */
  lemma {:induction false} SumShift(a: seq<real>, b: seq<real>, c: real)
    requires |a| == |b|
    requires forall j :: 0 <= j < |b| ==> b[j] == a[j] - c
    ensures Sum(b) == Sum(a) - Times(|a|, c)
  {
    if b != [] {
      var m := |b| - 1;
      SumShift(a[..m], b[..m], c);
    }
  }

  /** Entries all below c add up to less than |s| * c. */
  lemma {:induction false} SumBelow(s: seq<real>, c: real)
    requires |s| > 0
    ensures (forall j :: 0 <= j < |s| ==> s[j] < c) ==> Sum(s) < Times(|s|, c)
  {
    var m := |s| - 1;
    if m > 0 {
      SumBelow(s[..m], c);
      assert (forall j :: 0 <= j < |s| ==> s[j] < c) ==> (forall j :: 0 <= j < m ==> s[..m][j] < c);
    }
  }

  /** Repeated addition is multiplication. */
  lemma {:induction false} TimesIsProduct(n: nat, c: real)
    ensures Times(n, c) == (n as real) * c
  {
    if n > 0 {
      TimesIsProduct(n - 1, c);
      SuccProduct(n - 1, c);
    }
  }

  lemma SuccProduct(m: nat, c: real)
    ensures (m as real) * c + c == ((m + 1) as real) * c
  {
  }

  /** n copies of x / n add up to x. */
  lemma TimesMean(n: nat, x: real)
    requires n > 0
    ensures Times(n, x / (n as real)) == x
  {
    TimesIsProduct(n, x / (n as real));
    MulDivCancel(x, n as real);
  }

  // Matrices

  /** The sums of the d columns of a matrix. */
  function ColumnSums(M: seq<seq<real>>, d: nat): (sums: seq<real>)
    requires IsMatrix(M, d)
    ensures |sums| == d
  {
    seq(d, j requires 0 <= j < d => Sum(Column(M, j)))
  }

  /** Summing a matrix row by row is summing its column sums. */
  lemma {:induction false} TotalSumByColumns(M: seq<seq<real>>, d: nat)
    requires IsMatrix(M, d)
    ensures TotalSum(M) == Sum(ColumnSums(M, d))
  {
    if M == [] {
      SumZero(ColumnSums(M, d));
    } else {
      var m := |M| - 1;
      var init := M[..m];
      TotalSumByColumns(init, d);
      forall j | 0 <= j < d
        ensures ColumnSums(M, d)[j] == ColumnSums(init, d)[j] + M[m][j]
      {
        assert Column(M, j)[..m] == Column(init, j);
      }
      SumAdd(ColumnSums(init, d), M[m], ColumnSums(M, d));
    }
  }

  lemma {:induction false} TotalSumZero(M: seq<seq<real>>)
    requires forall t, j :: 0 <= t < |M| && 0 <= j < |M[t]| ==> M[t][j] == 0.0
    ensures TotalSum(M) == 0.0
  {
    if M != [] {
      TotalSumZero(M[..|M| - 1]);
      SumZero(M[|M| - 1]);
    }
  }

  // Means and variances

  /** The means centre every column: the deviations from the mean add up to zero. */
  lemma MeansCentre(ref: seq<seq<real>>, d: nat, j: nat)
    requires |ref| > 0 && IsMatrix(ref, d) && j < d
    ensures Sum(seq(|ref|, t requires 0 <= t < |ref| => ref[t][j] - Means(ref, d)[j])) == 0.0
  {
    var col := Column(ref, j);
    SumShift(col, seq(|ref|, t requires 0 <= t < |ref| => ref[t][j] - Means(ref, d)[j]), Means(ref, d)[j]);
    TimesMean(|ref|, Sum(col));
  }

  /** The total variance is the sum of the per-dimension variances. */
  lemma VarTotalIsSumOfVariances(ref: seq<seq<real>>, means: seq<real>)
    requires |ref| > 0 && IsMatrix(ref, |means|)
    ensures VarTotal(ref, means) == Sum(VarActual(ref, means))
  {
    var dev := SquaredDeviations(ref, means);
    TotalSumByColumns(dev, |means|);
    SumDiv(ColumnSums(dev, |means|), VarActual(ref, means), |ref| as real);
  }

  // Relevant dimensions

  /** The dimensions whose variance is strictly below the threshold. */
  function RelevantDims(varActual: seq<real>, varExpect: real): set<nat>
  {
    set j: nat | j < |varActual| && varActual[j] < varExpect
  }

  lemma {:induction false} CountPrefix(varActual: seq<real>, varExpect: real, m: nat)
    requires m <= |varActual|
    ensures Count(RelevanceMask(varActual, varExpect)[..m]) == |set j: nat | j < m && varActual[j] < varExpect|
  {
    if m > 0 {
      CountPrefix(varActual, varExpect, m - 1);
      var mask := RelevanceMask(varActual, varExpect);
      assert mask[..m][..m - 1] == mask[..m - 1];
      var below := set j: nat | j < m - 1 && varActual[j] < varExpect;
      if varActual[m - 1] < varExpect {
        assert (set j: nat | j < m && varActual[j] < varExpect) == below + {m - 1};
      } else {
        assert (set j: nat | j < m && varActual[j] < varExpect) == below;
      }
    }
  }

  /** rel_dim, the sum of the indicator, is the number of relevant dimensions. */
  lemma RelDimIsCardinality(varActual: seq<real>, varExpect: real)
    ensures Count(RelevanceMask(varActual, varExpect)) == |RelevantDims(varActual, varExpect)|
  {
    var mask := RelevanceMask(varActual, varExpect);
    CountPrefix(varActual, varExpect, |varActual|);
    assert mask[..|varActual|] == mask;
  }

  /** A threshold at or below zero admits no dimension, since variances are never negative. */
  lemma NoThresholdNoRelevance(varActual: seq<real>, varExpect: real)
    requires forall j :: 0 <= j < |varActual| ==> varActual[j] >= 0.0
    requires varExpect <= 0.0
    ensures RelevantDims(varActual, varExpect) == {}
    ensures Count(RelevanceMask(varActual, varExpect)) == 0
  {
    RelDimIsCardinality(varActual, varExpect);
  }

  /** When every variance reaches the threshold, no dimension is relevant and the score stays 0. */
  lemma NoQualifyingDimensionScoresZero(obs: seq<real>, ref: seq<seq<real>>, d: nat, alpha: real)
    requires d > 0 && |obs| == d && |ref| > 0 && IsMatrix(ref, d)
    requires forall j :: 0 <= j < d ==>
      VarActual(ref, Means(ref, d))[j] >= VarExpect(alpha, VarTotal(ref, Means(ref, d)), d)
    ensures Count(Relevance(ref, d, alpha)) == 0
    ensures SquaredScore(obs, ref, d, alpha) == 0.0
  {
    var means := Means(ref, d);
    var va := VarActual(ref, means);
    var ve := VarExpect(alpha, VarTotal(ref, means), d);
    RelDimIsCardinality(va, ve);
    assert RelevantDims(va, ve) == {};
  }

  /** The count of an indicator is 0 exactly when none of its entries is 1. */
  lemma {:induction false} CountZeroIff(mask: seq<nat>)
    requires forall j :: 0 <= j < |mask| ==> mask[j] <= 1
    ensures Count(mask) == 0 <==> forall j :: 0 <= j < |mask| ==> mask[j] == 0
  {
    if mask != [] {
      var m := |mask| - 1;
      CountZeroIff(mask[..m]);
      assert forall j :: 0 <= j < m ==> mask[..m][j] == mask[j];
    }
  }

  lemma {:induction false} CountMissingOne(mask: seq<nat>, j: nat)
    requires forall q :: 0 <= q < |mask| ==> mask[q] <= 1
    requires j < |mask| && mask[j] == 0
    ensures Count(mask) < |mask|
  {
    var m := |mask| - 1;
    if j < m {
      CountMissingOne(mask[..m], j);
    }
  }

  lemma {:induction false} CountMono(a: seq<nat>, b: seq<nat>)
    requires |a| == |b|
    requires forall j :: 0 <= j < |b| ==> a[j] <= b[j] <= 1
    ensures Count(a) <= Count(b)
  {
    if a != [] {
      var m := |a| - 1;
      CountMono(a[..m], b[..m]);
    }
  }

  /** Some entry of a non-empty vector is at least c when the sum reaches |s| * c. */
  lemma SomeAtLeast(s: seq<real>, c: real)
    requires |s| > 0 && Sum(s) >= Times(|s|, c)
    ensures exists j :: 0 <= j < |s| && s[j] >= c
  {
    SumBelow(s, c);
  }

  /** Entries that add up to at least |s| * c cannot all lie strictly below c. */
  lemma NotAllBelow(s: seq<real>, c: real)
    requires |s| > 0 && Sum(s) >= Times(|s|, c)
    ensures Count(RelevanceMask(s, c)) < |s|
  {
    SomeAtLeast(s, c);
    var j :| 0 <= j < |s| && s[j] >= c;
    CountMissingOne(RelevanceMask(s, c), j);
  }

  /**
    Non-negative variances cannot all lie strictly below alpha times their
    average when alpha is at most 1: their sum would be below itself.
  */
  lemma NotAllBelowScaledMean(va: seq<real>, alpha: real)
    requires |va| > 0 && alpha <= 1.0
    requires forall j :: 0 <= j < |va| ==> va[j] >= 0.0
    ensures Count(RelevanceMask(va, VarExpect(alpha, Sum(va), |va|))) < |va|
  {
    SumReachesThreshold(va, alpha);
    NotAllBelow(va, VarExpect(alpha, Sum(va), |va|));
  }

  lemma SumReachesThreshold(va: seq<real>, alpha: real)
    requires |va| > 0 && alpha <= 1.0
    requires forall j :: 0 <= j < |va| ==> va[j] >= 0.0
    ensures Sum(va) >= Times(|va|, VarExpect(alpha, Sum(va), |va|))
  {
    SumNonNeg(va);
    ScaledMeanBound(alpha, Sum(va), |va|);
  }

  lemma ScaledMeanBound(alpha: real, s: real, n: nat)
    requires n > 0 && alpha <= 1.0 && s >= 0.0
    ensures s >= Times(n, VarExpect(alpha, s, n))
  {
    TimesMean(n, alpha * s);
    ScaleAtMost(alpha, s);
  }

  lemma MulDivCancel(x: real, n: real)
    requires n != 0.0
    ensures n * (x / n) == x
  {
  }

  lemma ScaleAtMost(alpha: real, s: real)
    requires alpha <= 1.0 && s >= 0.0
    ensures alpha * s <= s
  {
    MulNonNeg(1.0 - alpha, s);
  }

  /**
    With alpha at most 1 (the configured range is (0, 1)) some dimension is
    never relevant: rel_dim < d.
  */
  lemma NotEveryDimensionRelevant(ref: seq<seq<real>>, d: nat, alpha: real)
    requires d > 0 && |ref| > 0 && IsMatrix(ref, d) && alpha <= 1.0
    ensures Count(Relevance(ref, d, alpha)) < d
  {
    var means := Means(ref, d);
    var va := VarActual(ref, means);
    VarTotalIsSumOfVariances(ref, means);
    NotAllBelowScaledMean(va, alpha);
  }

  /** Raising alpha never removes a relevant dimension, so rel_dim never shrinks. */
  lemma AlphaMonotone(ref: seq<seq<real>>, d: nat, alpha1: real, alpha2: real)
    requires d > 0 && |ref| > 0 && IsMatrix(ref, d) && alpha1 <= alpha2
    ensures forall j :: 0 <= j < d ==> Relevance(ref, d, alpha1)[j] <= Relevance(ref, d, alpha2)[j]
    ensures Count(Relevance(ref, d, alpha1)) <= Count(Relevance(ref, d, alpha2))
  {
    var means := Means(ref, d);
    VarExpectMono(alpha1, alpha2, VarTotal(ref, means), d);
    CountMono(Relevance(ref, d, alpha1), Relevance(ref, d, alpha2));
  }

  /** For alpha in [0, 1] the threshold lies between 0 and the mean variance var_total / d. */
  lemma VarExpectBounds(alpha: real, total: real, d: nat)
    requires 0.0 <= alpha <= 1.0 && total >= 0.0 && d > 0
    ensures 0.0 <= VarExpect(alpha, total, d) <= total / (d as real)
  {
    MulNonNeg(alpha, total);
    ScaleMono(alpha, 1.0, total);
    DivMono(alpha * total, total, d as real);
    DivMono(0.0, alpha * total, d as real);
  }

  lemma VarExpectMono(alpha1: real, alpha2: real, total: real, d: nat)
    requires alpha1 <= alpha2 && total >= 0.0 && d > 0
    ensures VarExpect(alpha1, total, d) <= VarExpect(alpha2, total, d)
  {
    ScaleMono(alpha1, alpha2, total);
    DivMono(alpha1 * total, alpha2 * total, d as real);
  }

  lemma MulNonNeg(a: real, b: real)
    requires a >= 0.0 && b >= 0.0
    ensures a * b >= 0.0
  {
  }

  lemma ScaleMono(a1: real, a2: real, t: real)
    requires a1 <= a2 && t >= 0.0
    ensures a1 * t <= a2 * t
  {
    MulNonNeg(a2 - a1, t);
  }

  lemma DivMono(x: real, y: real, k: real)
    requires x <= y && k > 0.0
    ensures x / k <= y / k
  {
  }

  // Scores

  /** An indicator-weighted sum of non-negative entries is zero exactly when every selected entry is. */
  lemma {:induction false} DotZeroIff(mask: seq<nat>, v: seq<real>)
    requires |mask| == |v| && forall j :: 0 <= j < |v| ==> v[j] >= 0.0
    ensures Dot(mask, v) == 0.0 <==> forall j :: 0 <= j < |v| && mask[j] != 0 ==> v[j] == 0.0
  {
    if mask != [] {
      var m := |mask| - 1;
      DotZeroIff(mask[..m], v[..m]);
      DotNonNeg(mask[..m], v[..m]);
      assert (mask[m] as real) * v[m] >= 0.0;
      assert (mask[m] as real) * v[m] == 0.0 <==> (mask[m] == 0 || v[m] == 0.0);
      assert (forall j :: 0 <= j < |v| && mask[j] != 0 ==> v[j] == 0.0) <==>
        (forall j :: 0 <= j < m && mask[..m][j] != 0 ==> v[..m][j] == 0.0) && (mask[m] == 0 || v[m] == 0.0);
    }
  }

  /** The weighted squared deviation is zero exactly when obs equals m on every selected dimension. */
  lemma WeightedDeviationZeroIff(mask: seq<nat>, obs: seq<real>, m: seq<real>)
    requires |mask| == |obs| == |m|
    ensures Dot(mask, SquaredDiff(obs, m)) == 0.0 <==>
      forall j :: 0 <= j < |obs| && mask[j] != 0 ==> obs[j] == m[j]
  {
    var sq := SquaredDiff(obs, m);
    DotZeroIff(mask, sq);
    forall j | 0 <= j < |obs|
      ensures sq[j] == 0.0 <==> obs[j] == m[j]
    {
      SquareZero(obs[j] - m[j]);
    }
  }

  /**
    When some dimension is relevant, the score is zero exactly when the
    observation equals the reference means on every relevant dimension.
  */
  lemma ScoreZeroIff(obs: seq<real>, ref: seq<seq<real>>, d: nat, alpha: real)
    requires d > 0 && |obs| == d && |ref| > 0 && IsMatrix(ref, d)
    ensures Count(Relevance(ref, d, alpha)) > 0 ==>
      (SquaredScore(obs, ref, d, alpha) == 0.0 <==>
       forall j :: 0 <= j < d && Relevance(ref, d, alpha)[j] == 1 ==> obs[j] == Means(ref, d)[j])
  {
    var means := Means(ref, d);
    var mask := Relevance(ref, d, alpha);
    if Count(mask) > 0 {
      var dot := Dot(mask, SquaredDiff(obs, means));
      WeightedDeviationZeroIff(mask, obs, means);
      QuotientZero(dot, Count(mask) as real);
      assert SquaredScore(obs, ref, d, alpha) == dot / (Count(mask) as real);
    }
  }

  lemma QuotientZero(x: real, c: real)
    requires c > 0.0
    ensures x / c == 0.0 <==> x == 0.0
  {
  }

  /** A square is zero exactly at zero. */
  lemma SquareZero(x: real)
    ensures Square(x) == 0.0 <==> x == 0.0
  {
    if x != 0.0 {
      SquareOverRoot(x);
    }
  }

  lemma SquareOverRoot(x: real)
    requires x != 0.0
    ensures Square(x) / x == x
  {
  }

  /** The means of identical rows are that row. */
  lemma IdenticalMeans(ref: seq<seq<real>>, d: nat)
    requires |ref| > 0 && IsMatrix(ref, d)
    requires forall t :: 0 <= t < |ref| ==> ref[t] == ref[0]
    ensures Means(ref, d) == ref[0]
  {
    var means := Means(ref, d);
    forall j | 0 <= j < d
      ensures means[j] == ref[0][j]
    {
      var col := Column(ref, j);
      var c := ref[0][j];
      var zeros := seq(|ref|, t requires 0 <= t < |ref| => col[t] - c);
      SumShift(col, zeros, c);
      SumZero(zeros);
      TimesDiv(|ref|, c);
    }
  }

  /** n copies of c, divided by n, give c back. */
  lemma TimesDiv(n: nat, c: real)
    requires n > 0
    ensures Times(n, c) / (n as real) == c
  {
    TimesIsProduct(n, c);
    MulDivCancel2(c, n as real);
  }

  lemma MulDivCancel2(c: real, r: real)
    requires r != 0.0
    ensures (r * c) / r == c
  {
  }

  /** Rows that all equal the means have zero total variance. */
  lemma NoSpread(ref: seq<seq<real>>, means: seq<real>)
    requires |ref| > 0 && IsMatrix(ref, |means|)
    requires forall t :: 0 <= t < |ref| ==> ref[t] == means
    ensures VarTotal(ref, means) == 0.0
  {
    var dev := SquaredDeviations(ref, means);
    forall t, j | 0 <= t < |dev| && 0 <= j < |dev[t]|
      ensures dev[t][j] == 0.0
    {
      SquareZero(ref[t][j] - means[j]);
    }
    TotalSumZero(dev);
  }

  /**
    A reference set of identical rows has those rows as its means and zero
    total variance; the threshold is then 0, and under the strict comparison
    no dimension is relevant, so the score is 0 whatever the observation.
  */
  lemma IdenticalReferenceScoresZero(obs: seq<real>, ref: seq<seq<real>>, d: nat, alpha: real)
    requires d > 0 && |obs| == d && |ref| > 0 && IsMatrix(ref, d)
    requires forall t :: 0 <= t < |ref| ==> ref[t] == ref[0]
    ensures Means(ref, d) == ref[0]
    ensures VarTotal(ref, Means(ref, d)) == 0.0
    ensures Count(Relevance(ref, d, alpha)) == 0 && SquaredScore(obs, ref, d, alpha) == 0.0
  {
    var means := Means(ref, d);
    IdenticalMeans(ref, d);
    NoSpread(ref, means);
    var total := VarTotal(ref, means);
    assert VarExpect(alpha, total, d) == 0.0;
    NoThresholdNoRelevance(VarActual(ref, means), VarExpect(alpha, total, d));
  }

  /** A data set whose points are all identical scores 0 everywhere. */
  lemma IdenticalPointsScoreZero(X: seq<seq<real>>, d: nat, refs: seq<seq<nat>>, alpha: real)
    requires d > 0 && IsMatrix(X, d) && IsReferenceIndexMatrix(refs, |X|)
    requires forall i :: 0 <= i < |X| ==> X[i] == X[0]
    ensures forall i :: 0 <= i < |X| ==> Scores(X, d, refs, alpha)[i] == 0.0
  {
    forall i | 0 <= i < |X|
      ensures Scores(X, d, refs, alpha)[i] == 0.0
    {
      var ref := Gather(X, refs[i]);
      IdenticalReferenceScoresZero(X[i], ref, d, alpha);
    }
  }
}
