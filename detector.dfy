/**
  The SOD detector object: its validated configuration (number of nearest
  neighbours, reference-set size, alpha) and the training scores that `fit`
  stores. Scoring composes the shared-nearest-neighbour reference sets with
  the subspace scorer; the k-nearest-neighbour index matrix is an input.
*/
module Detector {
  import Snn
  import Subspace

  datatype Option<T> = None | Some(value: T)

  /** Which configuration check rejected the arguments. */
  datatype ConfigError = NeighborsOutOfRange | RefSetOutOfRange | AlphaOutOfRange

  datatype Result<T> = Ok(value: T) | Err(error: ConfigError)

  datatype Config = Config(nNeighbors: nat, refSet: nat, alpha: real)

  /**
    The documented ranges: at least one neighbour, a reference set of at
    least one point and strictly fewer than the neighbours, alpha in (0, 1).
  */
  predicate ValidConfig(nNeighbors: int, refSet: int, alpha: real)
  {
    1 <= nNeighbors && 1 <= refSet < nNeighbors && 0.0 < alpha < 1.0
  }

  /**
    The checks of `__init__`, in their order: n_neighbors first, then
    ref_set against n_neighbors, then alpha. The first failing check names
    the error.
  */
  function CheckConfig(nNeighbors: int, refSet: int, alpha: real): (r: Result<Config>)
    ensures r.Ok? <==> ValidConfig(nNeighbors, refSet, alpha)
    ensures r.Ok? ==> r.value.nNeighbors == nNeighbors && r.value.refSet == refSet && r.value.alpha == alpha
    ensures r == Err(NeighborsOutOfRange) <==> nNeighbors < 1
    ensures r == Err(RefSetOutOfRange) <==> 1 <= nNeighbors && !(1 <= refSet < nNeighbors)
    ensures r == Err(AlphaOutOfRange) <==> 1 <= refSet < nNeighbors && !(0.0 < alpha < 1.0)
  {
    if nNeighbors < 1 then Err(NeighborsOutOfRange)
    else if !(1 <= refSet < nNeighbors) then Err(RefSetOutOfRange)
    else if !(0.0 < alpha < 1.0) then Err(AlphaOutOfRange)
    else Ok(Config(nNeighbors, refSet, alpha))
  }

  /** A reference set at least as large as the neighbour pool is always rejected. */
  lemma OversizedRefSetRejected(nNeighbors: int, refSet: int, alpha: real)
    requires refSet >= nNeighbors
    ensures CheckConfig(nNeighbors, refSet, alpha).Err?
  {
  }

  /** Rows of a valid reference-set matrix index into the points and are non-empty. */
  lemma ReferenceMatrixIndexes(ind: seq<seq<nat>>, r: nat, refs: seq<seq<nat>>)
    requires r > 0 && Snn.IsReferenceMatrix(ind, r, refs)
    ensures Subspace.IsReferenceIndexMatrix(refs, |ind|)
  {
  }

  /**
    `scores` are the subspace scores of X against some choice of reference
    sets that is valid for the neighbour matrix `ind`.
  */
  ghost predicate ScoredBySomeReferenceSets(X: seq<seq<real>>, d: nat, ind: seq<seq<nat>>, r: nat, alpha: real, scores: seq<real>)
    requires d > 0 && Subspace.IsMatrix(X, d)
  {
    exists refs :: Snn.IsReferenceMatrix(ind, r, refs) && Subspace.IsReferenceIndexMatrix(refs, |X|) &&
      scores == Subspace.Scores(X, d, refs, alpha)
  }

  class SOD {
    var nNeighbors: nat
    var refSet: nat
    var alpha: real
    var decisionScores: Option<seq<real>>

    /** A valid configuration, and training scores that are never negative. */
    ghost predicate Valid()
      reads this
    {
      && ValidConfig(nNeighbors, refSet, alpha)
      && (decisionScores.Some? ==> forall i :: 0 <= i < |decisionScores.value| ==> decisionScores.value[i] >= 0.0)
    }

    /** The assignments of `__init__` once its checks have passed; no scores yet. */
    constructor(cfg: Config)
      requires ValidConfig(cfg.nNeighbors, cfg.refSet, cfg.alpha)
      ensures Valid()
      ensures nNeighbors == cfg.nNeighbors && refSet == cfg.refSet && alpha == cfg.alpha
      ensures decisionScores == None
    {
      nNeighbors := cfg.nNeighbors;
      refSet := cfg.refSet;
      alpha := cfg.alpha;
      decisionScores := None;
    }

    /**
      `__init__` as a whole: the configuration checks, and a new detector
      only when they all pass.
    */
    static method Create(nNeighbors: int, refSet: int, alpha: real) returns (r: Result<SOD>)
      ensures r.Ok? <==> ValidConfig(nNeighbors, refSet, alpha)
      ensures r.Err? ==> r.error == CheckConfig(nNeighbors, refSet, alpha).error
      ensures r.Ok? ==> fresh(r.value) && r.value.Valid() && r.value.decisionScores == None
      ensures r.Ok? ==> r.value.nNeighbors == nNeighbors && r.value.refSet == refSet && r.value.alpha == alpha
    {
      var checked := CheckConfig(nNeighbors, refSet, alpha);
      if checked.Err? {
        r := Err(checked.error);
      } else {
        var detector := new SOD(checked.value);
        r := Ok(detector);
      }
    }

    /**
      `decision_function` (through `_sod` and `_snn`): the reference sets
      built from the neighbour matrix `ind`, then the per-point scores. The
      scores are those of some valid choice of reference sets (the selection
      does not fix ties).
    */
    method DecisionFunction(X: seq<seq<real>>, d: nat, ind: seq<seq<nat>>) returns (scores: seq<real>)
      requires Valid()
      requires d > 0 && Subspace.IsMatrix(X, d)
      requires |ind| == |X| && Snn.IsNeighborMatrix(ind, nNeighbors)
      requires nNeighbors < |X| && nNeighbors < Snn.UInt32Max
      ensures |scores| == |X| && forall i :: 0 <= i < |X| ==> scores[i] >= 0.0
      ensures ScoredBySomeReferenceSets(X, d, ind, refSet, alpha, scores)
    {
      var refInds := Snn.SnnImp(ind, nNeighbors, refSet);
      var refs := Snn.Rows(refInds);
      ReferenceMatrixIndexes(ind, refSet, refs);
      var a := Subspace.Sod(X, d, refs, alpha);
      scores := a[..];
    }

    /**
      `fit`: the scores of the training data are stored in `decisionScores`;
      the configuration is untouched.
    */
    method Fit(X: seq<seq<real>>, d: nat, ind: seq<seq<nat>>)
      requires Valid()
      requires d > 0 && Subspace.IsMatrix(X, d)
      requires |ind| == |X| && Snn.IsNeighborMatrix(ind, nNeighbors)
      requires nNeighbors < |X| && nNeighbors < Snn.UInt32Max
      modifies this
      ensures Valid()
      ensures nNeighbors == old(nNeighbors) && refSet == old(refSet) && alpha == old(alpha)
      ensures decisionScores.Some? && |decisionScores.value| == |X|
      ensures ScoredBySomeReferenceSets(X, d, ind, refSet, alpha, decisionScores.value)
    {
      var scores := DecisionFunction(X, d, ind);
      decisionScores := Some(scores);
    }
  }
}
