/**
  The shared-nearest-neighbour (SNN) reference-set builder of Subspace Outlier
  Detection. Row i of the k-NN index matrix is read as the set of point i's k
  nearest neighbours; the similarity of i and j is the number of neighbours
  they share, and the reference set of i is the `r` points other than i with
  the largest similarity, listed from most to least similar.
*/
module Snn {

  /** The largest uint32 value, written into a point's own slot so that it ranks first. */
  const UInt32Max: nat := 0xFFFF_FFFF

  /** Every row of the neighbour index matrix has `k` entries (an n-by-k matrix). */
  predicate IsNeighborMatrix(ind: seq<seq<nat>>, k: nat)
  {
    forall i :: 0 <= i < |ind| ==> |ind[i]| == k
  }

  /** The identifiers of one row, taken as a set. */
  function Elements(row: seq<nat>): set<nat>
  {
    set x | x in row
  }

  predicate Distinct(s: seq<nat>)
  {
    forall a, b :: 0 <= a < b < |s| ==> s[a] != s[b]
  }

  lemma {:induction false} ElementsCard(row: seq<nat>)
    ensures |Elements(row)| <= |row|
    ensures Distinct(row) ==> |Elements(row)| == |row|
  {
    if row != [] {
      var init, last := row[..|row| - 1], row[|row| - 1];
      ElementsCard(init);
      assert row == init + [last];
      assert Elements(row) == Elements(init) + {last};
      if Distinct(row) {
        assert Distinct(init);
        assert last !in Elements(init);
      }
    }
  }

  lemma SubsetCard(a: set<nat>, b: set<nat>)
    requires a <= b
    ensures |a| <= |b|
  {
    assert b == a + (b - a);
  }

  /**
    Shared-neighbour similarity of points i and j: the size of the
    intersection of their neighbour rows taken as sets. It never exceeds the
    length of either row.
  */
  function Similarity(ind: seq<seq<nat>>, i: nat, j: nat): (c: nat)
    requires i < |ind| && j < |ind|
    ensures c <= |ind[i]| && c <= |ind[j]|
  {
    ElementsCard(ind[i]);
    ElementsCard(ind[j]);
    SubsetCard(Elements(ind[j]) * Elements(ind[i]), Elements(ind[i]));
    SubsetCard(Elements(ind[j]) * Elements(ind[i]), Elements(ind[j]));
    |Elements(ind[j]) * Elements(ind[i])|
  }

  /**
    `p` can be the first |p| entries of the indices of `s` ordered by
    decreasing value (what `argsort(s)[::-1][:|p|]` returns for some order of
    ties): distinct indices of `s`, values non-increasing along `p`, and no
    index left out of `p` has a larger value than one in it.
  */
  predicate IsTopPrefix(s: seq<nat>, p: seq<nat>)
  {
    && (forall a :: 0 <= a < |p| ==> p[a] < |s|)
    && Distinct(p)
    && (forall a, b :: 0 <= a < b < |p| ==> s[p[a]] >= s[p[b]])
    && (forall q, a :: 0 <= q < |s| && q !in p && 0 <= a < |p| ==> s[q] <= s[p[a]])
  }

  /**
    Equal values appear in `p` in increasing index order, and every index of
    `p` is below every index left out with the same value: the lowest index
    wins each tie.
  */
  predicate TiesByIndex(s: seq<nat>, p: seq<nat>)
    requires forall a :: 0 <= a < |p| ==> p[a] < |s|
  {
    && (forall a, b :: 0 <= a < b < |p| && s[p[a]] == s[p[b]] ==> p[a] < p[b])
    && (forall a, q :: 0 <= a < |p| && 0 <= q < |s| && q !in p && s[q] == s[p[a]] ==> p[a] < q)
  }

  /**
    The contract of a reference-set row of point i: `r` distinct point
    indices, none of them i, listed by non-increasing similarity to i, and
    every other point j != i outside the row at most as similar to i as any
    point in it. Ties are not fixed.
  */
  predicate IsReferenceRow(ind: seq<seq<nat>>, r: nat, i: nat, row: seq<nat>)
    requires i < |ind|
  {
    && |row| == r
    && (forall t :: 0 <= t < r ==> row[t] < |ind| && row[t] != i)
    && Distinct(row)
    && (forall t, u :: 0 <= t < u < r ==> Similarity(ind, i, row[t]) >= Similarity(ind, i, row[u]))
    && (forall j, t :: 0 <= j < |ind| && j != i && j !in row && 0 <= t < r ==>
          Similarity(ind, i, j) <= Similarity(ind, i, row[t]))
  }

  /** One reference row per point. */
  predicate IsReferenceMatrix(ind: seq<seq<nat>>, r: nat, refs: seq<seq<nat>>)
  {
    |refs| == |ind| && forall i :: 0 <= i < |ind| ==> IsReferenceRow(ind, r, i, refs[i])
  }

  /** Row i of a two-dimensional array, as a sequence. */
  function RowOf(a: array2<nat>, i: nat): seq<nat>
    requires i < a.Length0
    reads a
  {
    seq(a.Length1, t requires 0 <= t < a.Length1 reads a => a[i, t])
  }

  /** All rows of a two-dimensional array. */
  function Rows(a: array2<nat>): seq<seq<nat>>
    reads a
  {
    seq(a.Length0, i requires 0 <= i < a.Length0 reads a => RowOf(a, i))
  }

  /** A set larger than another has an element outside it. */
  lemma LargerSetHasExtra(a: set<nat>, b: set<nat>)
    requires |a| > |b|
    ensures exists x :: x in a && x !in b
  {
    assert a == (a * b) + (a - b);
    SubsetCard(a * b, b);
    assert a - b != {};
    var x :| x in a - b;
  }

  /** A distinct sequence of indices below n that is shorter than n leaves some index out. */
  lemma Pigeonhole(p: seq<nat>, n: nat)
    requires Distinct(p) && |p| < n
    ensures exists q :: 0 <= q < n && q !in p
  {
    var iota: seq<nat> := seq(n, q => q);
    ElementsCard(iota);
    ElementsCard(p);
    LargerSetHasExtra(Elements(iota), Elements(p));
  }

  /**
    The first m indices of `s` in decreasing order of value. This stands for
    `argsort(temp)[::-1]` restricted to the entries that are kept: each round
    picks, among the indices not yet chosen, one of largest value (ties go to
    the lowest index, one admissible order of the unstable sort).
  */
  method TopIndices(s: array<nat>, m: nat) returns (p: seq<nat>)
    requires m <= s.Length
    ensures |p| == m && IsTopPrefix(s[..], p)
    ensures TiesByIndex(s[..], p)
  {
    var n := s.Length;
    var used := new bool[n](_ => false);
    p := [];
    while |p| < m
      invariant |p| <= m
      invariant IsTopPrefix(s[..], p)
      invariant forall q :: 0 <= q < n ==> (used[q] <==> q in p)
      invariant TiesByIndex(s[..], p)
    {
      Pigeonhole(p, n);
      var best := ArgMaxUnused(s, used);
      ExtendTopPrefix(s[..], p, best);
      ExtendTieOrder(s[..], p, best);
      used[best] := true;
      p := p + [best];
    }
  }

  /**
    One selection step of `TopIndices`: the first index, scanning upwards, of
    a largest value among the indices not yet used.
  */
  method ArgMaxUnused(s: array<nat>, used: array<bool>) returns (best: nat)
    requires used.Length == s.Length
    requires exists q :: 0 <= q < used.Length && !used[q]
    ensures best < s.Length && !used[best]
    ensures forall q :: 0 <= q < s.Length && !used[q] ==> s[q] <= s[best]
    ensures forall q :: 0 <= q < best && !used[q] ==> s[q] < s[best]
  {
    var n := s.Length;
    best := n;
    var j := 0;
    while j < n
      invariant 0 <= j <= n
      invariant best == n || (best < j && !used[best])
      invariant best < n ==> forall q :: 0 <= q < j && !used[q] ==> s[q] <= s[best]
      invariant best < n ==> forall q :: 0 <= q < best && !used[q] ==> s[q] < s[best]
      invariant best == n ==> forall q :: 0 <= q < j ==> used[q]
    {
      if !used[j] && (best == n || s[j] > s[best]) {
        best := j;
      }
      j := j + 1;
    }
  }

  /** A largest value among the indices outside a top prefix extends it. */
  lemma ExtendTopPrefix(s: seq<nat>, p: seq<nat>, best: nat)
    requires IsTopPrefix(s, p) && best < |s| && best !in p
    requires forall q :: 0 <= q < |s| && q !in p ==> s[q] <= s[best]
    ensures IsTopPrefix(s, p + [best])
  {
    var p' := p + [best];
    forall q, a | 0 <= q < |s| && q !in p' && 0 <= a < |p'|
      ensures s[q] <= s[p'[a]]
    {
      if a < |p| {
        assert q !in p;
      }
    }
  }

  /**
    Appending the lowest-indexed largest unchosen value keeps ties in
    increasing index order, and keeps every chosen index below the unchosen
    indices of the same value.
  */
  lemma ExtendTieOrder(s: seq<nat>, p: seq<nat>, best: nat)
    requires IsTopPrefix(s, p) && TiesByIndex(s, p)
    requires best < |s| && best !in p
    requires forall q :: 0 <= q < |s| && q !in p ==> s[q] <= s[best]
    requires forall q :: 0 <= q < best && q !in p ==> s[q] < s[best]
    ensures TiesByIndex(s, p + [best])
  {
  }

  /** The head of a top prefix has the largest value of all. */
  lemma TopPrefixHeadIsMax(s: seq<nat>, p: seq<nat>, q: nat)
    requires IsTopPrefix(s, p) && |p| > 0 && q < |s|
    ensures s[q] <= s[p[0]]
  {
    if q in p {
      var a :| 0 <= a < |p| && p[a] == q;
      assert a == 0 || s[p[0]] >= s[p[a]];
    }
  }

  /** An index whose value is strictly above every other comes first in any top prefix. */
  lemma SelfRanksFirst(s: seq<nat>, i: nat, p: seq<nat>)
    requires i < |s| && IsTopPrefix(s, p) && |p| > 0
    requires forall q :: 0 <= q < |s| && q != i ==> s[q] < s[i]
    ensures p[0] == i
  {
    TopPrefixHeadIsMax(s, p, i);
  }

  /**
    The reference row of point i (one iteration of the outer loop of
    `_snn_imp`): similarities of i to every point in a scratch buffer, the
    self slot overwritten with the uint32 maximum, the r + 1 largest kept and
    the first (the point itself) dropped.
  */
  method ReferenceRow(ind: seq<seq<nat>>, k: nat, r: nat, i: nat) returns (row: seq<nat>)
    requires IsNeighborMatrix(ind, k) && k < UInt32Max
    requires r < |ind| && i < |ind|
    ensures IsReferenceRow(ind, r, i, row)
  {
    var n := |ind|;
    var temp := new nat[n];
    var j := 0;
    while j < n
      invariant 0 <= j <= n
      invariant forall q :: 0 <= q < j ==> temp[q] == Similarity(ind, i, q)
    {
      temp[j] := Similarity(ind, i, j);
      j := j + 1;
    }
    temp[i] := UInt32Max;
    ghost var sims := temp[..];
    assert forall q :: 0 <= q < n && q != i ==> sims[q] == Similarity(ind, i, q);
    var order := TopIndices(temp, r + 1);
    SelfRanksFirst(sims, i, order);
    row := order[1..];
    TopPrefixTail(ind, r, i, sims, order);
  }

  /**
    Dropping the head of a top prefix of r + 1 indices, when the head is i and
    every other value is i's similarity to that index, leaves a reference row.
  */
  lemma TopPrefixTail(ind: seq<seq<nat>>, r: nat, i: nat, sims: seq<nat>, order: seq<nat>)
    requires i < |ind| && |sims| == |ind|
    requires forall q :: 0 <= q < |ind| && q != i ==> sims[q] == Similarity(ind, i, q)
    requires |order| == r + 1 && IsTopPrefix(sims, order) && order[0] == i
    ensures IsReferenceRow(ind, r, i, order[1..])
  {
    var row := order[1..];
    forall t | 0 <= t < r
      ensures row[t] < |ind| && row[t] != i
    {
      assert order[t + 1] != order[0];
    }
    forall j', t | 0 <= j' < |ind| && j' != i && j' !in row && 0 <= t < r
      ensures Similarity(ind, i, j') <= Similarity(ind, i, row[t])
    {
      assert j' !in order;
      assert sims[j'] <= sims[order[t + 1]];
    }
  }

  /**
    `_snn_imp`: the n-by-r reference-set matrix, filled row by row. Requires
    fewer reference points than there are points, so that r points other than
    each point exist.
  */
  method SnnImp(ind: seq<seq<nat>>, k: nat, r: nat) returns (count: array2<nat>)
    requires IsNeighborMatrix(ind, k) && k < UInt32Max
    requires r < |ind|
    ensures count.Length0 == |ind| && count.Length1 == r
    ensures IsReferenceMatrix(ind, r, Rows(count))
  {
    var n := |ind|;
    count := new nat[n, r];
    ghost var refs: seq<seq<nat>> := [];
    var i := 0;
    while i < n
      invariant 0 <= i <= n && |refs| == i
      invariant forall i' :: 0 <= i' < i ==> IsReferenceRow(ind, r, i', refs[i'])
      invariant forall i' :: 0 <= i' < i ==> RowOf(count, i') == refs[i']
    {
      var row := ReferenceRow(ind, k, r, i);
      StoreRow(count, i, row);
      ExtendReferenceRows(ind, r, refs, row);
      refs := refs + [row];
      i := i + 1;
    }
    assert Rows(count) == refs;
  }

  lemma ExtendReferenceRows(ind: seq<seq<nat>>, r: nat, refs: seq<seq<nat>>, row: seq<nat>)
    requires |refs| < |ind|
    requires forall i' :: 0 <= i' < |refs| ==> IsReferenceRow(ind, r, i', refs[i'])
    requires IsReferenceRow(ind, r, |refs|, row)
    ensures forall i' :: 0 <= i' < |refs| + 1 ==> IsReferenceRow(ind, r, i', (refs + [row])[i'])
  {
  }

  /** Writes `row` into row i of `a`, entry by entry; the other rows keep their values. */
  method StoreRow(a: array2<nat>, i: nat, row: seq<nat>)
    requires i < a.Length0 && |row| == a.Length1
    modifies a
    ensures RowOf(a, i) == row
    ensures forall i' :: 0 <= i' < a.Length0 && i' != i ==> RowOf(a, i') == old(RowOf(a, i'))
  {
    var t := 0;
    while t < |row|
      invariant 0 <= t <= |row|
      invariant forall i', t' :: 0 <= i' < a.Length0 && 0 <= t' < a.Length1 ==>
        a[i', t'] == (if i' == i && t' < t then row[t'] else old(a[i', t']))
    {
      a[i, t] := row[t];
      t := t + 1;
    }
    assert RowOf(a, i) == row;
    forall i' | 0 <= i' < a.Length0 && i' != i
      ensures RowOf(a, i') == old(RowOf(a, i'))
    {
      assert RowOf(a, i') == old(RowOf(a, i'));
    }
  }

  /**
    A helper of ReferenceProfileUnique: at every position, a valid reference
    row is at most as similar to i as any other valid reference row.
  */
  lemma ProfileAtMost(ind: seq<seq<nat>>, r: nat, i: nat, row1: seq<nat>, row2: seq<nat>, t: nat)
    requires i < |ind| && IsReferenceRow(ind, r, i, row1) && IsReferenceRow(ind, r, i, row2)
    requires t < r
    ensures Similarity(ind, i, row1[t]) <= Similarity(ind, i, row2[t])
  {
    var a := NotInShorterPrefix(row1, row2, t);
    var x := row1[a];
    assert Similarity(ind, i, x) >= Similarity(ind, i, row1[t]);
    if x in row2 {
      var u :| 0 <= u < r && row2[u] == x;
      PrefixMember(row2, t, u);
      assert Similarity(ind, i, row2[u]) <= Similarity(ind, i, row2[t]);
    }
  }

  /**
    The pigeonhole step of ProfileAtMost: the t + 1 distinct entries
    row1[0..t] cannot all sit among the t entries row2[0..t-1].
  */
  lemma NotInShorterPrefix(row1: seq<nat>, row2: seq<nat>, t: nat) returns (a: nat)
    requires Distinct(row1) && t < |row1| && t <= |row2|
    ensures a <= t && row1[a] !in Elements(row2[..t])
  {
    var head, top := row1[..t + 1], row2[..t];
    assert Distinct(head);
    ElementsCard(head);
    ElementsCard(top);
    LargerSetHasExtra(Elements(head), Elements(top));
    var x :| x in Elements(head) && x !in Elements(top);
    a :| 0 <= a <= t && row1[a] == x;
  }

  lemma PrefixMember(s: seq<nat>, t: nat, u: nat)
    requires t <= |s| && u < |s|
    ensures u < t ==> s[u] in Elements(s[..t])
  {
    if u < t {
      assert s[..t][u] == s[u];
    }
  }

  /**
    The code leaves the order of tied similarities open, but not the
    similarities themselves: any two valid reference rows of i list the same
    similarity values position by position.
  */
  lemma ReferenceProfileUnique(ind: seq<seq<nat>>, r: nat, i: nat, row1: seq<nat>, row2: seq<nat>)
    requires i < |ind| && IsReferenceRow(ind, r, i, row1) && IsReferenceRow(ind, r, i, row2)
    ensures forall t :: 0 <= t < r ==> Similarity(ind, i, row1[t]) == Similarity(ind, i, row2[t])
  {
    forall t | 0 <= t < r
      ensures Similarity(ind, i, row1[t]) == Similarity(ind, i, row2[t])
    {
      ProfileAtMost(ind, r, i, row1, row2, t);
      ProfileAtMost(ind, r, i, row2, row1, t);
    }
  }
}
