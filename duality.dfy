/** Why a perfect matching on tight edges is a maximum-weight assignment:
    under feasible labels every assignment weighs at most the sum of all
    labels, and one that uses only tight edges weighs exactly that sum. */
module Duality {
  import opened Weights

  /** `p` assigns to each left vertex `i < n` the right vertex `p[i]`, and no
      two left vertices share a right vertex. */
  ghost predicate IsPermutation(p: seq<int>, n: nat)
  {
    && |p| == n
    && (forall i :: 0 <= i < n ==> 0 <= p[i] < n)
    && (forall i, j :: 0 <= i < j < n ==> p[i] != p[j])
  }

  function Sum(s: seq<int>): int
  {
    if s == [] then 0 else Sum(s[..|s| - 1]) + s[|s| - 1]
  }

  /** The sum of `l[p[i]]` over all positions `i` of `p`. */
  function SumAt(l: seq<int>, p: seq<int>): int
    requires forall i :: 0 <= i < |p| ==> 0 <= p[i] < |l|
  {
    if p == [] then 0 else SumAt(l, p[..|p| - 1]) + l[p[|p| - 1]]
  }

  /** The weight of the assignment `p`: the sum of `w[i][p[i]]`. */
  function Weight(w: seq<seq<int>>, p: seq<int>): int
    requires |p| <= |w| && forall i :: 0 <= i < |p| ==> 0 <= p[i] < |w[i]|
  {
    if p == [] then 0 else Weight(w, p[..|p| - 1]) + w[|p| - 1][p[|p| - 1]]
  }

  /** Feasible labels: `xl[x] + yl[y] >= w[x][y]` for every edge. */
  ghost predicate Feasible(w: seq<seq<int>>, xl: seq<int>, yl: seq<int>)
  {
    && Square(w, |xl|) && |yl| == |xl|
    && forall x, y :: 0 <= x < |xl| && 0 <= y < |yl| ==> xl[x] + yl[y] >= w[x][y]
  }

  /** Every edge `(i, p[i])` is tight: its labels sum to its weight. */
  ghost predicate TightAlong(w: seq<seq<int>>, xl: seq<int>, yl: seq<int>, p: seq<int>)
    requires Square(w, |xl|) && |yl| == |xl| && IsPermutation(p, |xl|)
  {
    forall i :: 0 <= i < |p| ==> xl[i] + yl[p[i]] == w[i][p[i]]
  }

  /** Two index sequences that pick equal values position by position have
      equal sums. */
  lemma {:induction false} SumAtPointwise(l: seq<int>, p: seq<int>, l': seq<int>, p': seq<int>)
    requires |p| == |p'|
    requires forall i :: 0 <= i < |p| ==> 0 <= p[i] < |l| && 0 <= p'[i] < |l'|
    requires forall i :: 0 <= i < |p| ==> l[p[i]] == l'[p'[i]]
    ensures SumAt(l, p) == SumAt(l', p')
    decreases |p|
  {
    if p != [] {
      SumAtPointwise(l, p[..|p| - 1], l', p'[..|p'| - 1]);
    }
  }

  /** Removes the value `v` from the range of `p`: values above `v` move down by one. */
  function Squeeze(p: seq<int>, v: int): (q: seq<int>)
    ensures |q| == |p|
    ensures forall i :: 0 <= i < |p| ==> q[i] == if p[i] > v then p[i] - 1 else p[i]
  {
    if p == [] then [] else Squeeze(p[..|p| - 1], v) + [if p[|p| - 1] > v then p[|p| - 1] - 1 else p[|p| - 1]]
  }

  /** Pigeonhole: pairwise distinct values below `n` number at most `n`. */
  lemma {:induction false} DistinctBounded(s: seq<int>, n: nat)
    requires forall i :: 0 <= i < |s| ==> 0 <= s[i] < n
    requires forall i, j :: 0 <= i < j < |s| ==> s[i] != s[j]
    ensures |s| <= n
    decreases |s|
  {
    if s != [] {
      var v := s[|s| - 1];
      var t := Squeeze(s[..|s| - 1], v);
      DistinctBounded(t, n - 1);
    }
  }

  /** Dropping the last position of a permutation of `n` and squeezing out
      the value it held leaves a permutation of `n - 1`. */
  lemma SqueezeLast(p: seq<int>, n: nat)
    requires IsPermutation(p, n) && n > 0
    ensures IsPermutation(Squeeze(p[..n - 1], p[n - 1]), n - 1)
  {
    var v := p[n - 1];
    assert forall i :: 0 <= i < n - 1 ==> p[i] != v;
  }

  /** Removing position `v` from `l` removes `l[v]` from its sum. */
  lemma {:induction false} SumRemove(l: seq<int>, v: nat)
    requires v < |l|
    ensures Sum(l) == Sum(l[..v] + l[v + 1..]) + l[v]
    decreases |l|
  {
    var k := |l| - 1;
    var r := l[..v] + l[v + 1..];
    if v == k {
      assert r == l[..k];
    } else {
      SumRemove(l[..k], v);
      assert r[..|r| - 1] == l[..k][..v] + l[..k][v + 1..];
      assert r[|r| - 1] == l[k];
    }
  }

  /** Removing the value `v` from `l` and squeezing it out of `p` keeps
      every pick: position `i` of the squeezed `p` picks `l[p[i]]`. */
  lemma SqueezePicks(l: seq<int>, p: seq<int>, v: int)
    requires 0 <= v < |l| && forall i :: 0 <= i < |p| ==> 0 <= p[i] < |l| && p[i] != v
    ensures forall i :: 0 <= i < |p| ==> 0 <= Squeeze(p, v)[i] < |l| - 1
    ensures forall i :: 0 <= i < |p| ==> l[p[i]] == (l[..v] + l[v + 1..])[Squeeze(p, v)[i]]
  {
  }

  /** One step of `SumAtPermutation`: removing the last pick of `p` from both
      `l` and `p` leaves a permutation that picks the same values as the
      rest of `p`. */
  lemma PermutationStep(l: seq<int>, p: seq<int>) returns (l': seq<int>, p': seq<int>)
    requires IsPermutation(p, |l|) && |l| > 0
    ensures l' == l[..p[|l| - 1]] + l[p[|l| - 1] + 1..] && IsPermutation(p', |l'|)
    ensures SumAt(l, p[..|l| - 1]) == SumAt(l', p')
  {
    var n := |l|;
    var v := p[n - 1];
    var q := p[..n - 1];
    l' := l[..v] + l[v + 1..];
    p' := Squeeze(q, v);
    SqueezeLast(p, n);
    assert forall i :: 0 <= i < |q| ==> 0 <= q[i] < |l| && q[i] != v by {
      forall i | 0 <= i < |q|
        ensures 0 <= q[i] < |l| && q[i] != v
      {
        assert q[i] == p[i];
      }
    }
    SqueezePicks(l, q, v);
    SumAtPointwise(l, q, l', p');
  }

  /** Summing `l` in the order a permutation gives is summing `l`. */
  lemma {:induction false} SumAtPermutation(l: seq<int>, p: seq<int>)
    requires IsPermutation(p, |l|)
    ensures SumAt(l, p) == Sum(l)
    decreases |l|
  {
    if |l| > 0 {
      var l', p' := PermutationStep(l, p);
      SumAtPermutation(l', p');
      SumRemove(l, p[|l| - 1]);
    }
  }

  /** Under feasible labels an assignment of the first `|p|` left vertices
      weighs at most the labels at its endpoints. */
  lemma {:induction false} WeightAtMostLabels(w: seq<seq<int>>, xl: seq<int>, yl: seq<int>, p: seq<int>)
    requires Feasible(w, xl, yl)
    requires |p| <= |xl| && forall i :: 0 <= i < |p| ==> 0 <= p[i] < |yl|
    ensures Weight(w, p) <= Sum(xl[..|p|]) + SumAt(yl, p)
    decreases |p|
  {
    if p != [] {
      var k := |p| - 1;
      WeightAtMostLabels(w, xl, yl, p[..k]);
      assert xl[..|p|][..k] == xl[..k];
    }
  }

  /** An assignment along tight edges weighs exactly the labels at its endpoints. */
  lemma {:induction false} WeightOfTightEdges(w: seq<seq<int>>, xl: seq<int>, yl: seq<int>, p: seq<int>)
    requires Square(w, |xl|) && |yl| == |xl|
    requires |p| <= |xl| && forall i :: 0 <= i < |p| ==> 0 <= p[i] < |yl|
    requires forall i :: 0 <= i < |p| ==> xl[i] + yl[p[i]] == w[i][p[i]]
    ensures Weight(w, p) == Sum(xl[..|p|]) + SumAt(yl, p)
    decreases |p|
  {
    if p != [] {
      var k := |p| - 1;
      WeightOfTightEdges(w, xl, yl, p[..k]);
      assert xl[..|p|][..k] == xl[..k];
    }
  }

  /** The duality argument: a perfect matching on tight edges under feasible
      labels weighs the sum of all labels, and no permutation weighs more. */
  lemma TightPermutationIsOptimal(w: seq<seq<int>>, xl: seq<int>, yl: seq<int>, p: seq<int>)
    requires Feasible(w, xl, yl) && IsPermutation(p, |xl|) && TightAlong(w, xl, yl, p)
    ensures Weight(w, p) == Sum(xl) + Sum(yl)
    ensures forall q :: IsPermutation(q, |xl|) ==> Weight(w, q) <= Weight(w, p)
  {
    assert xl[..|xl|] == xl;
    WeightOfTightEdges(w, xl, yl, p);
    SumAtPermutation(yl, p);
    forall q | IsPermutation(q, |xl|)
      ensures Weight(w, q) <= Weight(w, p)
    {
      WeightAtMostLabels(w, xl, yl, q);
      SumAtPermutation(yl, q);
    }
  }
}
