/** The Kuhn-Munkres (Hungarian) solver for maximum-weight bipartite
    assignment over integer weights: a dense square weight matrix, vertex
    labels for both sides, and a breadth-first search for augmenting paths in
    the subgraph of tight edges. */
module HungarianMethod {
  import opened Bounds
  import opened Weights
  import opened Duality

  /** `xm` and `ym` are mutual inverses on matched vertices (-1 marks an
      unmatched one), except that the right vertex `hole` may still name a
      left vertex that no longer names it back. */
  ghost predicate InverseExcept(xm: seq<int>, ym: seq<int>, hole: int)
  {
    && |xm| == |ym|
    && (forall v :: 0 <= v < |xm| ==> -1 <= xm[v] < |ym|)
    && (forall u :: 0 <= u < |ym| ==> -1 <= ym[u] < |xm|)
    && (forall v {:trigger ym[xm[v]]} :: 0 <= v < |xm| && xm[v] != -1 ==> ym[xm[v]] == v)
    && (forall u {:trigger xm[ym[u]]} :: 0 <= u < |ym| && ym[u] != -1 && u != hole ==> xm[ym[u]] == u)
    && (0 <= hole < |ym| ==> ym[hole] == -1 || xm[ym[hole]] != hole)
  }

  /** Every left vertex other than `root` is matched in `xm` exactly when it
      is matched in `ox`. */
  ghost predicate SameStatusExcept(ox: seq<int>, xm: seq<int>, root: int)
  {
    |ox| == |xm| && forall v :: 0 <= v < |xm| && v != root ==> (xm[v] != -1 <==> ox[v] != -1)
  }

  /** The state of the walk that flips an augmenting path, started from the
      matching `ox`/`oy` and currently at the hole `y` (-1 once the walk is
      over): the matching is consistent apart from the hole, it matches
      `root` once the walk is over, no other left vertex changes status, and
      every changed entry follows the `prev` links `pv`. */
  ghost predicate Walk(ox: seq<int>, oy: seq<int>, xm: seq<int>, ym: seq<int>, pv: seq<int>, root: int, y: int)
  {
    && |ox| == |oy| == |xm| == |ym| == |pv| && 0 <= root < |xm|
    && InverseExcept(xm, ym, y)
    && (y == -1 ==> xm[root] != -1)
    && SameStatusExcept(ox, xm, root)
    && (forall v :: 0 <= v < |xm| && xm[v] != ox[v] ==> 0 <= xm[v] < |pv| && pv[xm[v]] == v)
    && (forall u :: 0 <= u < |ym| && ym[u] != oy[u] ==> ym[u] == pv[u])
  }

  /** The alternating tree of a pass seen as sequences: `pv` links every
      visited right vertex to a visited left vertex, the root is unmatched in
      `ox`, and every other visited left vertex is matched in `ox` to a
      visited right vertex whose link has a smaller `rank`. */
  ghost predicate Links(ox: seq<int>, pv: seq<int>, rank: seq<int>, xv: seq<bool>, yv: seq<bool>, root: int)
  {
    && |ox| == |pv| == |rank| == |xv| == |yv| && 0 <= root < |ox| && ox[root] == -1
    && (forall v :: 0 <= v < |xv| && xv[v] ==> 0 <= rank[v])
    && (forall u :: 0 <= u < |yv| && yv[u] ==> 0 <= pv[u] < |xv| && xv[pv[u]])
    && (forall v {:trigger ox[v]} :: 0 <= v < |ox| && xv[v] && v != root ==>
          0 <= ox[v] < |yv| && yv[ox[v]] && 0 <= pv[ox[v]] < |rank| && rank[pv[ox[v]]] < rank[v])
  }

  /** Every matched pair of `xm` is a tight edge under the labels `xl`, `yl`. */
  ghost predicate TightMatch(w: seq<seq<int>>, xl: seq<int>, yl: seq<int>, xm: seq<int>)
  {
    && Square(w, |xl|) && |yl| == |xl| == |xm|
    && forall x :: 0 <= x < |xm| && 0 <= xm[x] < |yl| ==> xl[x] + yl[xm[x]] == w[x][xm[x]]
  }

  /** Matching a left vertex along a tight edge keeps every matched edge tight. */
  lemma TightMatchUpdate(w: seq<seq<int>>, xl: seq<int>, yl: seq<int>, xm: seq<int>, x: int, y: int)
    requires TightMatch(w, xl, yl, xm) && 0 <= x < |xm| && 0 <= y < |yl| && xl[x] + yl[y] == w[x][y]
    ensures TightMatch(w, xl, yl, xm[x := y])
  {
  }

  /** The state of the walk inside the tree `Links`: the hole `y` hangs from
      a left vertex of rank below `bound`, and every visited left vertex of
      rank below `bound` is still matched as it was at the start. */
  ghost predicate Flipping(ox: seq<int>, oy: seq<int>, xm: seq<int>, ym: seq<int>, pv: seq<int>,
                           rank: seq<int>, xv: seq<bool>, yv: seq<bool>, root: int, y: int, bound: int)
  {
    && Walk(ox, oy, xm, ym, pv, root, y) && Links(ox, pv, rank, xv, yv, root)
    && (y != -1 ==> 0 <= y < |yv| && yv[y] && rank[pv[y]] < bound)
    && (forall v :: 0 <= v < |xv| && xv[v] && rank[v] < bound ==> xm[v] == ox[v])
  }

  /** One step of the walk: the left vertex `x = pv[y]` takes the hole `y`,
      and its former partner becomes the new hole, which hangs from a vertex
      of smaller rank; when `x` is the root the walk is over. */
  lemma FlipStep(ox: seq<int>, oy: seq<int>, xm: seq<int>, ym: seq<int>, pv: seq<int>,
                 rank: seq<int>, xv: seq<bool>, yv: seq<bool>, root: int, y: int, bound: int)
    requires Flipping(ox, oy, xm, ym, pv, rank, xv, yv, root, y, bound) && y != -1
    ensures 0 <= pv[y] < |xm| && 0 <= rank[pv[y]] < bound && xm[pv[y]] == ox[pv[y]]
    ensures Flipping(ox, oy, xm[pv[y] := y], ym[y := pv[y]], pv, rank, xv, yv, root, xm[pv[y]], rank[pv[y]])
  {
    var x := pv[y];
    assert x == root <==> ox[x] == -1;
    WalkStep(ox, oy, xm, ym, pv, root, y);
  }

  /** The walk proper, on the matching alone: `x = pv[y]`, still matched as
      it was at the start, takes the hole `y`; only the root started out
      unmatched. */
  lemma WalkStep(ox: seq<int>, oy: seq<int>, xm: seq<int>, ym: seq<int>, pv: seq<int>, root: int, y: int)
    requires Walk(ox, oy, xm, ym, pv, root, y) && 0 <= y < |ym| && 0 <= pv[y] < |xm|
    requires xm[pv[y]] == ox[pv[y]] && (ox[pv[y]] == -1 <==> pv[y] == root)
    ensures Walk(ox, oy, xm[pv[y] := y], ym[y := pv[y]], pv, root, xm[pv[y]])
  {
    var x := pv[y];
    var xm', ym' := xm[x := y], ym[y := x];
    forall v | 0 <= v < |xm'| && xm'[v] != -1
      ensures ym'[xm'[v]] == v
    {
      if v != x {
        assert xm[v] != y;
      }
    }
  }

  /** The left matches after flipping along `path`: in path order, each
      left vertex `pv[path[k]]` takes the right vertex `path[k]` (an entry
      out of range is skipped). */
  function FlipX(xm: seq<int>, pv: seq<int>, path: seq<int>): (r: seq<int>)
    ensures |r| == |xm|
  {
    if path == [] then xm
    else
      var r := FlipX(xm, pv, path[..|path| - 1]);
      var y := path[|path| - 1];
      if 0 <= y < |pv| && 0 <= pv[y] < |r| then r[pv[y] := y] else r
  }

  /** The right matches after flipping along `path`: in path order, each
      right vertex `path[k]` takes the left vertex `pv[path[k]]` (an entry
      out of range is skipped). */
  function FlipY(ym: seq<int>, pv: seq<int>, path: seq<int>): (r: seq<int>)
    ensures |r| == |ym|
  {
    if path == [] then ym
    else
      var r := FlipY(ym, pv, path[..|path| - 1]);
      var y := path[|path| - 1];
      if 0 <= y < |pv| && 0 <= y < |r| then r[y := pv[y]] else r
  }

  /** `path` is the walk back from the right vertex `j` through the matching
      `ox` and the links `pv`: it starts at `j`, each next right vertex is the
      former partner of the previous one's link, and `y` is the partner of the
      last one's link (-1 once the walk has reached an unmatched left vertex). */
  ghost predicate Chained(ox: seq<int>, pv: seq<int>, j: int, path: seq<int>, y: int)
  {
    && (forall k :: 0 <= k < |path| ==> 0 <= path[k] < |pv| && 0 <= pv[path[k]] < |ox|)
    && (if path == [] then y == j else path[0] == j && y == ox[pv[path[|path| - 1]]])
    && (forall k :: 0 <= k < |path| - 1 ==> path[k + 1] == ox[pv[path[k]]])
  }

  /** Extending the walk by its current right vertex `y`. */
  lemma ChainStep(ox: seq<int>, pv: seq<int>, yv: seq<bool>, j: int, path: seq<int>, y: int)
    requires Chained(ox, pv, j, path, y) && 0 <= y < |pv| && 0 <= pv[y] < |ox|
    requires 0 <= y < |yv| && yv[y] && forall k :: 0 <= k < |path| ==> 0 <= path[k] < |yv| && yv[path[k]]
    ensures Chained(ox, pv, j, path + [y], ox[pv[y]])
    ensures forall k :: 0 <= k < |path + [y]| ==> 0 <= (path + [y])[k] < |yv| && yv[(path + [y])[k]]
  {
    var path' := path + [y];
    forall k | 0 <= k < |path'| - 1
      ensures path'[k + 1] == ox[pv[path'[k]]]
    {
      assert path'[k] == path[k];
      if k < |path| - 1 {
        assert path'[k + 1] == path[k + 1];
      }
    }
  }

  /** Flipping along a walk extended by `y` flips along the walk, then at `y`. */
  lemma FlipAppend(ox: seq<int>, oy: seq<int>, pv: seq<int>, path: seq<int>, y: int)
    requires 0 <= y < |oy| && 0 <= y < |pv| && 0 <= pv[y] < |ox|
    ensures FlipX(ox, pv, path + [y]) == FlipX(ox, pv, path)[pv[y] := y]
    ensures FlipY(oy, pv, path + [y]) == FlipY(oy, pv, path)[y := pv[y]]
  {
    var p := path + [y];
    assert p[..|p| - 1] == path && p[|p| - 1] == y;
  }


  /** The walk from `j` so far, as the flip loop sees it: `path` is the walk
      up to the current right vertex `y`, all of it visited, and `xm`, `ym`
      are the matching flipped along it. */
  ghost predicate Walked(ox: seq<int>, oy: seq<int>, pv: seq<int>, yv: seq<bool>, j: int,
                         path: seq<int>, y: int, xm: seq<int>, ym: seq<int>)
  {
    && Chained(ox, pv, j, path, y)
    && (forall k :: 0 <= k < |path| ==> 0 <= path[k] < |yv| && path[k] < |oy| && yv[path[k]])
    && xm == FlipX(ox, pv, path) && ym == FlipY(oy, pv, path)
  }

  /** One iteration of the flip loop extends the walk by `y`. */
  lemma WalkedStep(ox: seq<int>, oy: seq<int>, pv: seq<int>, yv: seq<bool>, j: int,
                   path: seq<int>, y: int, xm: seq<int>, ym: seq<int>)
    requires Walked(ox, oy, pv, yv, j, path, y, xm, ym)
    requires 0 <= y < |pv| && 0 <= y < |oy| && 0 <= y < |yv| && yv[y] && 0 <= pv[y] < |ox|
    ensures Walked(ox, oy, pv, yv, j, path + [y], ox[pv[y]], xm[pv[y] := y], ym[y := pv[y]])
  {
    ChainStep(ox, pv, yv, j, path, y);
    FlipAppend(ox, oy, pv, path, y);
  }

  /** A complete walk through the tree ends at the root: the only visited
      left vertex that started unmatched. */
  lemma WalkEndsAtRoot(ox: seq<int>, pv: seq<int>, rank: seq<int>, xv: seq<bool>, yv: seq<bool>,
                       root: int, j: int, path: seq<int>)
    requires Links(ox, pv, rank, xv, yv, root) && Chained(ox, pv, j, path, -1)
    requires path != [] && 0 <= path[|path| - 1] < |yv| && yv[path[|path| - 1]]
    ensures pv[path[|path| - 1]] == root
  {
    var x := pv[path[|path| - 1]];
    assert ox[x] == -1 && xv[x];
  }

  /** Every visited right vertex hangs by a tight edge from its link. */
  ghost predicate TreeTight(w: seq<seq<int>>, xl: seq<int>, yl: seq<int>, pv: seq<int>, yv: seq<bool>)
  {
    forall u :: 0 <= u < |yv| && yv[u] ==>
      0 <= u < |yl| && 0 <= u < |pv| && 0 <= pv[u] < |xl| && pv[u] < |w| && 0 <= u < |w[pv[u]]|
      && xl[pv[u]] + yl[u] == w[pv[u]][u]
  }

  /** Everything the flip loop keeps: the walk invariant `Flipping`, the
      tightness of every matched pair, and the walk `path` taken so far. */
  ghost predicate FlipState(w: seq<seq<int>>, xl: seq<int>, yl: seq<int>,
                            ox: seq<int>, oy: seq<int>, xm: seq<int>, ym: seq<int>, pv: seq<int>,
                            rank: seq<int>, xv: seq<bool>, yv: seq<bool>, root: int, j: int,
                            path: seq<int>, y: int, bound: int)
  {
    && Flipping(ox, oy, xm, ym, pv, rank, xv, yv, root, y, bound)
    && TightMatch(w, xl, yl, xm)
    && Walked(ox, oy, pv, yv, j, path, y, xm, ym)
  }

  /** Before an iteration of the flip loop: the current right vertex `y`
      hangs from a left vertex `pv[y]` that is still matched as at the start. */
  lemma FlipRange(w: seq<seq<int>>, xl: seq<int>, yl: seq<int>,
                  ox: seq<int>, oy: seq<int>, xm: seq<int>, ym: seq<int>, pv: seq<int>,
                  rank: seq<int>, xv: seq<bool>, yv: seq<bool>, root: int, j: int,
                  path: seq<int>, y: int, bound: int)
    requires FlipState(w, xl, yl, ox, oy, xm, ym, pv, rank, xv, yv, root, j, path, y, bound) && y != -1
    ensures 0 <= y < |ym| == |pv| && 0 <= pv[y] < |xm| == |rank| && xm[pv[y]] == ox[pv[y]]
  {
    FlipStep(ox, oy, xm, ym, pv, rank, xv, yv, root, y, bound);
  }

  /** One iteration of the flip loop: `x = pv[y]` takes `y`, and the walk
      moves on to the former partner `y'` of `x`, of smaller rank `bound'`. */
  lemma FlipIteration(w: seq<seq<int>>, xl: seq<int>, yl: seq<int>,
                      ox: seq<int>, oy: seq<int>, xm: seq<int>, ym: seq<int>, pv: seq<int>,
                      rank: seq<int>, xv: seq<bool>, yv: seq<bool>, root: int, j: int,
                      path: seq<int>, y: int, bound: int,
                      xm': seq<int>, ym': seq<int>, path': seq<int>, y': int, bound': int)
    requires FlipState(w, xl, yl, ox, oy, xm, ym, pv, rank, xv, yv, root, j, path, y, bound)
    requires TreeTight(w, xl, yl, pv, yv)
    requires 0 <= y < |ym| == |pv| && 0 <= pv[y] < |xm| == |rank|
    requires xm' == xm[pv[y] := y] && ym' == ym[y := pv[y]] && path' == path + [y]
    requires y' == xm[pv[y]] && bound' == rank[pv[y]]
    ensures 0 <= bound' < bound
    ensures FlipState(w, xl, yl, ox, oy, xm', ym', pv, rank, xv, yv, root, j, path', y', bound')
  {
    FlipStep(ox, oy, xm, ym, pv, rank, xv, yv, root, y, bound);
    TightMatchUpdate(w, xl, yl, xm, pv[y], y);
    WalkedStep(ox, oy, pv, yv, j, path, y, xm, ym);
  }

  /** What the flip loop starts from: the matching is consistent except at
      the free right vertex `j`, every matched pair and every tree link is
      tight, and `j` hangs in the tree `Links`. */
  ghost predicate FlipReady(w: seq<seq<int>>, xl: seq<int>, yl: seq<int>, xm: seq<int>, ym: seq<int>,
                            pv: seq<int>, rank: seq<int>, xv: seq<bool>, yv: seq<bool>, root: int, j: int)
  {
    && InverseExcept(xm, ym, j) && TightMatch(w, xl, yl, xm) && Links(xm, pv, rank, xv, yv, root)
    && TreeTight(w, xl, yl, pv, yv) && 0 <= j < |yv| && yv[j]
  }

  /** What the flip achieves: from the matching `ox`/`oy`, the new matching
      `xm`/`ym` is consistent, tight and matches the root, keeps every other
      left vertex's status, and is exactly `ox`/`oy` flipped along the
      complete walk `path` from `j`, which ends at the root. */
  ghost predicate Flipped(w: seq<seq<int>>, xl: seq<int>, yl: seq<int>, ox: seq<int>, oy: seq<int>,
                          xm: seq<int>, ym: seq<int>, pv: seq<int>, root: int, j: int, path: seq<int>)
  {
    Walk(ox, oy, xm, ym, pv, root, -1) && TightMatch(w, xl, yl, xm) && FlippedAlong(ox, oy, xm, ym, pv, root, j, path)
  }

  /** The matching `xm`/`ym` is `ox`/`oy` flipped along `path`, the chain of
      right vertices that `prev` and `ox` lead through from `j` back to `root`. */
  ghost predicate FlippedAlong(ox: seq<int>, oy: seq<int>, xm: seq<int>, ym: seq<int>, pv: seq<int>,
                               root: int, j: int, path: seq<int>)
  {
    && path != [] && Chained(ox, pv, j, path, -1) && pv[path[|path| - 1]] == root
    && xm == FlipX(ox, pv, path) && ym == FlipY(oy, pv, path)
  }

  /** The flip loop's invariant holds on entry. */
  lemma FlipStart(w: seq<seq<int>>, xl: seq<int>, yl: seq<int>, ox: seq<int>, oy: seq<int>,
                  pv: seq<int>, rank: seq<int>, xv: seq<bool>, yv: seq<bool>, root: int, j: int)
    requires FlipReady(w, xl, yl, ox, oy, pv, rank, xv, yv, root, j)
    ensures 0 <= j < |pv| && 0 <= pv[j] < |rank|
    ensures FlipState(w, xl, yl, ox, oy, ox, oy, pv, rank, xv, yv, root, j, [], j, rank[pv[j]] + 1)
  {
  }

  /** After the flip loop: the walk has reached the root. */
  lemma FlipDone(w: seq<seq<int>>, xl: seq<int>, yl: seq<int>,
                 ox: seq<int>, oy: seq<int>, xm: seq<int>, ym: seq<int>, pv: seq<int>,
                 rank: seq<int>, xv: seq<bool>, yv: seq<bool>, root: int, j: int,
                 path: seq<int>, bound: int)
    requires FlipState(w, xl, yl, ox, oy, xm, ym, pv, rank, xv, yv, root, j, path, -1, bound)
    ensures Flipped(w, xl, yl, ox, oy, xm, ym, pv, root, j, path)
  {
    ChainedFirst(ox, pv, j, path, -1);
    WalkEndsAtRoot(ox, pv, rank, xv, yv, root, j, path);
  }

  /** The walk from `j` agrees at position `k` whichever complete walk is taken. */
  lemma {:induction false} ChainedAgree(ox: seq<int>, pv: seq<int>, j: int, p: seq<int>, q: seq<int>, k: nat)
    requires Chained(ox, pv, j, p, -1) && Chained(ox, pv, j, q, -1) && k < |p| && k < |q|
    ensures p[k] == q[k]
  {
    if k > 0 {
      ChainedAgree(ox, pv, j, p, q, k - 1);
      assert p[k] == ox[pv[p[k - 1]]] && q[k] == ox[pv[q[k - 1]]];
    }
  }

  /** A complete walk is determined by its start: `prev` and the matching
      leave no choice of the path that `findAugPathBFS` flips. */
  lemma ChainedUnique(ox: seq<int>, pv: seq<int>, j: int, p: seq<int>, q: seq<int>)
    requires Chained(ox, pv, j, p, -1) && Chained(ox, pv, j, q, -1)
    ensures p == q
  {
    forall k | 0 <= k < |p| && k < |q|
      ensures p[k] == q[k]
    {
      ChainedAgree(ox, pv, j, p, q, k);
    }
    if |p| < |q| {
      ChainedShorter(ox, pv, j, p, q);
    } else if |q| < |p| {
      ChainedShorter(ox, pv, j, q, p);
    }
  }

  /** No complete walk from `j` is a proper prefix of another. */
  lemma ChainedShorter(ox: seq<int>, pv: seq<int>, j: int, p: seq<int>, q: seq<int>)
    requires Chained(ox, pv, j, p, -1) && Chained(ox, pv, j, q, -1) && |p| <= |q|
    requires forall k :: 0 <= k < |p| ==> p[k] == q[k]
    ensures |p| == |q|
  {
    if p == [] {
      ChainedFirst(ox, pv, j, q, -1);
    } else {
      ChainedNext(ox, pv, j, p, -1, |p| - 1);
      ChainedNext(ox, pv, j, q, -1, |p| - 1);
    }
  }

  /** The first right vertex of a walk is its start. */
  lemma ChainedFirst(ox: seq<int>, pv: seq<int>, j: int, q: seq<int>, y: int)
    requires Chained(ox, pv, j, q, y)
    ensures q == [] || (0 <= q[0] && q[0] == j)
  {
  }

  /** After position `k` a walk goes on to the former partner of the link of
      `q[k]`, which is the current vertex `y` once `q` ends. */
  lemma ChainedNext(ox: seq<int>, pv: seq<int>, j: int, q: seq<int>, y: int, k: nat)
    requires Chained(ox, pv, j, q, y) && k < |q|
    ensures if k + 1 < |q| then 0 <= q[k + 1] && q[k + 1] == ox[pv[q[k]]] else y == ox[pv[q[k]]]
  {
  }

  /** `d` bounds every recorded slack in `ds` from below and is one of them,
      or is `Infinite`. */
  ghost predicate LeastOf(ds: seq<Bound>, d: Bound)
  {
    && (forall j :: 0 <= j < |ds| ==> Le(d, ds[j]))
    && (d == Infinite || exists j :: 0 <= j < |ds| && ds[j] == d)
  }

  /** The same, over the right vertices outside the tree only. */
  ghost predicate LeastOutside(ds: seq<Bound>, inTree: seq<bool>, d: Bound)
    requires |inTree| == |ds|
  {
    && (forall j :: 0 <= j < |ds| && !inTree[j] ==> Le(d, ds[j]))
    && (d == Infinite || exists j :: 0 <= j < |ds| && !inTree[j] && ds[j] == d)
  }

  /** The least of the records `[2, inf, 1]` is 1; the least of those whose
      right vertex is outside the tree `[false, true, true]` is 2. */
  lemma StaleLeast(ds: seq<Bound>, inTree: seq<bool>)
    requires ds == [Finite(2), Infinite, Finite(1)] && inTree == [false, true, true]
    ensures forall d :: LeastOf(ds, d) ==> d == Finite(1)
    ensures forall d :: LeastOutside(ds, inTree, d) ==> d == Finite(2)
  {
    forall d | LeastOf(ds, d)
      ensures d == Finite(1)
    {
      assert Le(d, ds[2]);
    }
    forall d | LeastOutside(ds, inTree, d)
      ensures d == Finite(2)
    {
      assert Le(d, ds[0]);
    }
  }

  /** The total weight of the reported pairs (a pair outside `w` adds nothing). */
  function PairWeight(w: seq<seq<int>>, res: seq<(int, int)>): int
  {
    if res == [] then 0
    else
      var (a, b) := res[|res| - 1];
      PairWeight(w, res[..|res| - 1]) + (if 0 <= a < |w| && 0 <= b < |w[a]| then w[a][b] else 0)
  }

  /** The pairs `(i, p[i])`, `i < n`, whose right vertex lies below `ys`
      and is not marked in `noEdge`, in ascending `i`. */
  function Picked(p: seq<int>, noEdge: seq<seq<bool>>, ys: int, n: nat): seq<(int, int)>
    requires n <= |p| <= |noEdge| && forall i :: 0 <= i < |noEdge| ==> ys <= |noEdge[i]|
  {
    if n == 0 then []
    else if 0 <= p[n - 1] < ys && !noEdge[n - 1][p[n - 1]] then Picked(p, noEdge, ys, n - 1) + [(n - 1, p[n - 1])]
    else Picked(p, noEdge, ys, n - 1)
  }

  /** `Picked` holds exactly the qualifying pairs, in ascending left vertex. */
  lemma {:induction false} PickedSpec(p: seq<int>, noEdge: seq<seq<bool>>, ys: int, n: nat)
    requires n <= |p| <= |noEdge| && forall i :: 0 <= i < |noEdge| ==> ys <= |noEdge[i]|
    ensures var r := Picked(p, noEdge, ys, n);
      && (forall k :: 0 <= k < |r| ==>
            0 <= r[k].0 < n && 0 <= r[k].1 < ys && r[k].1 == p[r[k].0] && !noEdge[r[k].0][r[k].1])
      && (forall k, l :: 0 <= k < l < |r| ==> r[k].0 < r[l].0)
      && (forall i :: 0 <= i < n && 0 <= p[i] < ys && !noEdge[i][p[i]] ==> (i, p[i]) in r)
  {
    if n > 0 {
      PickedSpec(p, noEdge, ys, n - 1);
    }
  }

  /** When every row left out weighs nothing on its chosen cell, the picked
      pairs weigh as much as the first `n` rows of `p`. */
  lemma {:induction false} PickedWeight(w: seq<seq<int>>, noEdge: seq<seq<bool>>, p: seq<int>, ys: int, n: nat)
    requires n <= |p| <= |noEdge| && forall i :: 0 <= i < |noEdge| ==> ys <= |noEdge[i]|
    requires |p| <= |w| && forall i :: 0 <= i < |p| ==> 0 <= p[i] < |w[i]|
    requires forall i {:trigger w[i][p[i]]} :: 0 <= i < n && !(0 <= p[i] < ys && !noEdge[i][p[i]]) ==> w[i][p[i]] == 0
    ensures PairWeight(w, Picked(p, noEdge, ys, n)) == Weight(w, p[..n])
  {
    if n > 0 {
      var k := n - 1;
      PickedWeight(w, noEdge, p, ys, k);
      PickedStep(w, noEdge, p, ys, k);
      WeightStep(w, p, k);
      assert !(0 <= p[k] < ys && !noEdge[k][p[k]]) ==> w[k][p[k]] == 0;
    }
  }

  /** One more row adds its pair's weight when the pair is picked. */
  lemma PickedStep(w: seq<seq<int>>, noEdge: seq<seq<bool>>, p: seq<int>, ys: int, k: nat)
    requires k < |p| <= |noEdge| && forall i :: 0 <= i < |noEdge| ==> ys <= |noEdge[i]|
    requires |p| <= |w| && forall i :: 0 <= i < |p| ==> 0 <= p[i] < |w[i]|
    ensures PairWeight(w, Picked(p, noEdge, ys, k + 1)) ==
              PairWeight(w, Picked(p, noEdge, ys, k)) + (if 0 <= p[k] < ys && !noEdge[k][p[k]] then w[k][p[k]] else 0)
  {
    var r := Picked(p, noEdge, ys, k);
    if 0 <= p[k] < ys && !noEdge[k][p[k]] {
      assert (r + [(k, p[k])])[..|r|] == r;
    }
  }

  /** One more row adds its chosen cell to `Weight`. */
  lemma WeightStep(w: seq<seq<int>>, p: seq<int>, k: nat)
    requires k < |p| <= |w| && forall i :: 0 <= i < |p| ==> 0 <= p[i] < |w[i]|
    ensures Weight(w, p[..k + 1]) == Weight(w, p[..k]) + w[k][p[k]]
  {
    assert p[..k + 1][..k] == p[..k];
  }

  /** Rows whose chosen cell weighs nothing add nothing to `Weight`. */
  lemma {:induction false} ZeroRowsAddNothing(w: seq<seq<int>>, p: seq<int>, m: nat, n: nat)
    requires m <= n <= |p| <= |w| && forall i :: 0 <= i < |p| ==> 0 <= p[i] < |w[i]|
    requires forall i :: m <= i < n ==> w[i][p[i]] == 0
    ensures Weight(w, p[..n]) == Weight(w, p[..m])
    decreases n - m
  {
    if m < n {
      ZeroRowsAddNothing(w, p, m, n - 1);
      assert p[..n][..n - 1] == p[..n - 1];
    }
  }

  class Hungarian {
    const xsize: nat
    const ysize: nat
    const size: nat
    /** The padded `size x size` weights; fixed once constructed. */
    const w: seq<seq<int>>
    /** Marks the cells that must never be reported: clamped negative weights. */
    const noEdge: seq<seq<bool>>

    const xMatch: array<int>    // right partner of each left vertex, or -1
    const yMatch: array<int>    // left partner of each right vertex, or -1
    const xLabel: array<int>
    const yLabel: array<int>
    const xVisited: array<bool>
    const yVisited: array<bool>
    /** `prev[y]`: the left vertex from which the search reached right vertex `y`. */
    const prev: array<int>
    /** `yDelta[y]`: the least slack seen from a scanned left vertex to `y`. */
    const yDelta: array<Bound>

    ghost predicate Valid()
    {
      && size == Max(xsize, ysize) && 0 < xsize
      && Square(w, size) && Square(noEdge, size)
      && xMatch.Length == size && yMatch.Length == size
      && xLabel.Length == size && yLabel.Length == size
      && xVisited.Length == size && yVisited.Length == size
      && prev.Length == size && yDelta.Length == size
      && xMatch != yMatch && xMatch != xLabel && xMatch != yLabel && xMatch != prev
      && yMatch != xLabel && yMatch != yLabel && yMatch != prev
      && xLabel != yLabel && xLabel != prev && yLabel != prev
      && xVisited != yVisited
    }

    /** How far the edge `(x, y)` is from being tight. */
    function Slack(x: int, y: int): int
      requires Valid() && 0 <= x < size && 0 <= y < size
      reads xLabel, yLabel
    {
      xLabel[x] + yLabel[y] - w[x][y]
    }

    /** Labels are feasible: no edge has negative slack. */
    ghost predicate Feasible()
      requires Valid()
      reads xLabel, yLabel
    {
      forall x, y :: 0 <= x < size && 0 <= y < size ==> Slack(x, y) >= 0
    }

    /** `xMatch` and `yMatch` are mutual inverses on the matched vertices. */
    ghost predicate Matching()
      requires Valid()
      reads xMatch, yMatch
    {
      InverseExcept(xMatch[..], yMatch[..], -1)
    }

    /** Every matched pair is a tight edge. */
    ghost predicate Tight()
      requires Valid()
      reads xMatch, xLabel, yLabel
    {
      TightMatch(w, xLabel[..], yLabel[..], xMatch[..])
    }

    /** Every left vertex is matched. */
    ghost predicate Perfect()
      requires Valid()
      reads xMatch
    {
      forall x :: 0 <= x < size ==> xMatch[x] != -1
    }

    /** A pass that found a path has augmented the matching `ox`/`oy`: the
        root is now matched, every other left vertex keeps its status, and
        the matching is `ox`/`oy` flipped along the path from the free right
        vertex `reached` back to the root. */
    ghost predicate Augmented(ox: seq<int>, oy: seq<int>, root: int, reached: int, path: seq<int>)
      requires Valid()
      reads xMatch, yMatch, prev
    {
      && 0 <= root < size && xMatch[root] != -1
      && SameStatusExcept(ox, xMatch[..], root)
      && FlippedAlong(ox, oy, xMatch[..], yMatch[..], prev[..], root, reached, path)
    }

    /** The padded cells and the non-edges weigh nothing, so a matching's
        weight is the weight of the pairs the solver reports. */
    ghost predicate Padded()
      requires Valid()
    {
      forall i, j :: 0 <= i < size && 0 <= j < size && (xsize <= i || ysize <= j || noEdge[i][j]) ==> w[i][j] == 0
    }

    /** The alternating tree of one breadth-first pass from `root`. `queue`
        lists every left vertex ever enqueued, in order; `queue[..head]` have
        been dequeued; `rank[x]` is the position of a visited `x` in `queue`.
        Each visited right vertex hangs by a tight edge from a dequeued left vertex. */
    ghost predicate Tree(root: int, queue: seq<int>, head: int, rank: seq<int>)
      requires Valid()
      reads xLabel, yLabel, xVisited, yVisited, prev
    {
      && 0 <= root < size && 1 <= |queue| && queue[0] == root && 0 <= head <= |queue| && |rank| == size
      && (forall k :: 0 <= k < |queue| ==> 0 <= queue[k] < size && xVisited[queue[k]] && rank[queue[k]] == k)
      && (forall x :: 0 <= x < size && xVisited[x] ==> 0 <= rank[x] < |queue| && queue[rank[x]] == x)
      && (forall y :: 0 <= y < size && yVisited[y] ==>
            0 <= prev[y] < size && xVisited[prev[y]] && rank[prev[y]] < head && Slack(prev[y], y) == 0)
    }

    /** Along the tree, seen through the matching `xm`: the root is unmatched,
        and every other visited left vertex is matched to a visited right
        vertex that hangs from a left vertex enqueued before it. */
    ghost predicate Chain(root: int, xm: seq<int>, rank: seq<int>)
      requires Valid()
      reads xVisited, yVisited, prev
    {
      && 0 <= root < size && |xm| == size && |rank| == size && xm[root] == -1
      && (forall v {:trigger xm[v]} :: 0 <= v < size && xVisited[v] && v != root ==>
            && 0 <= xm[v] < size && yVisited[xm[v]]
            && 0 <= prev[xm[v]] < size && rank[prev[xm[v]]] < rank[v])
    }

    /** Every visited right vertex is matched, to a visited left vertex. */
    ghost predicate VisitedMatched()
      requires Valid()
      reads xVisited, yVisited, yMatch
    {
      forall y :: 0 <= y < size && yVisited[y] ==> 0 <= yMatch[y] < size && xVisited[yMatch[y]]
    }

    ghost predicate DeltasPositive()
      requires Valid()
      reads yDelta
    {
      forall y :: 0 <= y < size ==> Positive(yDelta[y])
    }

    /** The least slack from the left vertices `xs` to the right vertex `y`;
        `Infinite` when `xs` is empty. */
    ghost function MinSlack(xs: seq<int>, y: int): Bound
      requires Valid() && 0 <= y < size && forall i :: 0 <= i < |xs| ==> 0 <= xs[i] < size
      reads xLabel, yLabel
      decreases |xs|
    {
      if xs == [] then Infinite else Min(MinSlack(xs[..|xs| - 1], y), Finite(Slack(xs[|xs| - 1], y)))
    }

    /** `MinSlack` bounds every slack from `xs` to `y` from below and is one of
        them, so it is infinite exactly when `xs` is empty. */
    lemma {:induction false} MinSlackIsLeast(xs: seq<int>, y: int)
      requires Valid() && 0 <= y < size && forall i :: 0 <= i < |xs| ==> 0 <= xs[i] < size
      ensures MinSlack(xs, y).Infinite? <==> xs == []
      ensures forall i :: 0 <= i < |xs| ==> Le(MinSlack(xs, y), Finite(Slack(xs[i], y)))
      ensures MinSlack(xs, y).Finite? ==> exists i :: 0 <= i < |xs| && MinSlack(xs, y).value == Slack(xs[i], y)
      decreases |xs|
    {
      if xs != [] {
        var n := |xs| - 1;
        MinSlackIsLeast(xs[..n], y);
        forall i | 0 <= i < n
          ensures xs[..n][i] == xs[i]
        {
        }
      }
    }

    /** For every unvisited right vertex, `yDelta` holds the least slack from
        the scanned left vertices. */
    ghost predicate Frontier(scanned: seq<int>)
      requires Valid() && forall i :: 0 <= i < |scanned| ==> 0 <= scanned[i] < size
      reads xLabel, yLabel, yVisited, yDelta
    {
      forall y {:trigger yDelta[y]} :: 0 <= y < size && !yVisited[y] ==> yDelta[y] == MinSlack(scanned, y)
    }

    /** The pairs the solver reports for the current matching: ascending left
        index, inside the original rectangle, never a non-edge, and all of them. */
    ghost predicate Extraction(res: seq<(int, int)>)
      requires Valid()
      reads xMatch
    {
      && (forall k :: 0 <= k < |res| ==>
            && 0 <= res[k].0 < xsize && 0 <= res[k].1 < ysize
            && xMatch[res[k].0] == res[k].1 && !noEdge[res[k].0][res[k].1])
      && (forall k, l :: 0 <= k < l < |res| ==> res[k].0 < res[l].0)
      && (forall i :: 0 <= i < xsize && 0 <= xMatch[i] < ysize && !noEdge[i][xMatch[i]] ==> (i, xMatch[i]) in res)
    }

    /** Pads the `xsize x ysize` input into a `size x size` matrix. */
    constructor (input: seq<seq<int>>, perfect: bool := true)
      requires Rectangular(input)
      ensures Valid() && Padded()
      ensures xsize == |input| && ysize == |input[0]| && size == Max(xsize, ysize)
      ensures forall i, j :: 0 <= i < size && 0 <= j < size && !(i < xsize && j < ysize) ==>
                w[i][j] == 0 && !noEdge[i][j]
      ensures perfect ==> forall i, j :: 0 <= i < xsize && 0 <= j < ysize ==>
                w[i][j] == input[i][j] && !noEdge[i][j]
      ensures !perfect ==> forall i, j :: 0 <= i < xsize && 0 <= j < ysize ==>
                w[i][j] == Max(0, input[i][j]) && (noEdge[i][j] <==> input[i][j] < 0)
      ensures forall k :: 0 <= k < size ==> xMatch[k] == -1 && yMatch[k] == -1 && yDelta[k] == Infinite
      ensures forall k :: 0 <= k < size ==> xLabel[k] == 0 && yLabel[k] == 0 && prev[k] == 0
      ensures forall k :: 0 <= k < size ==> !xVisited[k] && !yVisited[k]
      ensures fresh(xMatch) && fresh(yMatch) && fresh(xLabel) && fresh(yLabel)
      ensures fresh(xVisited) && fresh(yVisited) && fresh(prev) && fresh(yDelta)
    {
      var xs, ys := |input|, |input[0]|;
      var n := if xs > ys then xs else ys;
      var pw: seq<seq<int>> := seq(n, _ => seq(n, _ => 0));
      var mask: seq<seq<bool>> := seq(n, _ => seq(n, _ => false));
      for i := 0 to xs
        invariant Square(pw, n) && Square(mask, n)
        invariant forall a, b :: 0 <= a < n && 0 <= b < n ==>
                    && pw[a][b] == (if a < i && b < ys then CellWeight(input[a][b], perfect) else 0)
                    && mask[a][b] == (a < i && b < ys && !perfect && input[a][b] < 0)
      {
        for j := 0 to ys
          invariant Square(pw, n) && Square(mask, n)
          invariant forall a, b :: 0 <= a < n && 0 <= b < n ==>
                      && pw[a][b] == (if (a < i || (a == i && b < j)) && b < ys then CellWeight(input[a][b], perfect) else 0)
                      && mask[a][b] == ((a < i || (a == i && b < j)) && b < ys && !perfect && input[a][b] < 0)
        {
          if perfect {
            pw := pw[i := pw[i][j := input[i][j]]];
          } else {
            pw := pw[i := pw[i][j := Max(0, input[i][j])]];
            if input[i][j] < 0 {
              mask := mask[i := mask[i][j := true]];
            }
          }
        }
      }
      xsize, ysize, size := xs, ys, n;
      w, noEdge := pw, mask;
      xMatch := new int[n](_ => -1);
      yMatch := new int[n](_ => -1);
      xLabel := new int[n](_ => 0);
      yLabel := new int[n](_ => 0);
      xVisited := new bool[n](_ => false);
      yVisited := new bool[n](_ => false);
      prev := new int[n](_ => 0);
      yDelta := new Bound[n](_ => Infinite);
    }

    /** Solves the assignment problem: a maximum-weight perfect matching of
        the padded matrix, reported as the pairs that are genuine edges; the
        empty sequence when a search fails. */
    method FindMaxWeightMatch() returns (res: seq<(int, int)>)
      requires Valid() && Padded()
      modifies xMatch, yMatch, xLabel, yLabel, xVisited, yVisited, prev, yDelta
      ensures Feasible() && Matching() && Tight()
      ensures !Perfect() ==> res == []
      ensures Perfect() ==> Extraction(res) && IsPermutation(xMatch[..], size)
      ensures Perfect() ==> PairWeight(w, res) == Weight(w, xMatch[..])
      ensures Perfect() ==> Weight(w, xMatch[..]) == Sum(xLabel[..]) + Sum(yLabel[..])
      ensures Perfect() ==> forall p :: IsPermutation(p, size) ==> Weight(w, p) <= Weight(w, xMatch[..])
    {
      InitLabels();
      var success := MatchAll();
      if !success {
        return [];
      }
      res := Extract();
      PerfectIsOptimal();
    }

    /** The outer loop: searches from each left vertex in turn, all of them
        unmatched at the start, and gives up at the first search that fails. */
    method MatchAll() returns (success: bool)
      requires Valid() && Feasible() && Matching() && Tight()
      requires forall x :: 0 <= x < size ==> xMatch[x] == -1
      modifies xMatch, yMatch, xLabel, yLabel, xVisited, yVisited, prev, yDelta
      ensures Feasible() && Matching() && Tight()
      ensures success <==> Perfect()
    {
      for i := 0 to size
        invariant Feasible() && Matching() && Tight()
        invariant forall x :: 0 <= x < size ==> (xMatch[x] != -1 <==> x < i)
      {
        ghost var reached, path;
        success, reached, path := FindAugPathBFS(i);
        if !success {
          assert xMatch[i] == -1;
          return;
        }
      }
      success := true;
    }

    /** The duality argument applied to the final state: a perfect matching
        on tight edges under feasible labels is a permutation whose weight is
        the sum of all labels, and no permutation of the padded matrix
        weighs more. */
    lemma PerfectIsOptimal()
      requires Valid() && Feasible() && Matching() && Tight() && Perfect()
      ensures IsPermutation(xMatch[..], size)
      ensures Weight(w, xMatch[..]) == Sum(xLabel[..]) + Sum(yLabel[..])
      ensures forall p :: IsPermutation(p, size) ==> Weight(w, p) <= Weight(w, xMatch[..])
    {
      var p := xMatch[..];
      var xl, yl := xLabel[..], yLabel[..];
      assert IsPermutation(p, size) by {
        forall a, b | 0 <= a < b < size
          ensures p[a] != p[b]
        {
          assert yMatch[..][p[a]] == a && yMatch[..][p[b]] == b;
        }
      }
      assert Duality.Feasible(w, xl, yl) by {
        forall x, y | 0 <= x < size && 0 <= y < size
          ensures xl[x] + yl[y] >= w[x][y]
        {
          assert Slack(x, y) >= 0;
        }
      }
      assert TightAlong(w, xl, yl, p);
      TightPermutationIsOptimal(w, xl, yl, p);
    }

    /** Empties the matching and gives every left vertex its largest row
        weight (at least zero) as label, every right vertex label zero. */
    method InitLabels()
      requires Valid()
      modifies xMatch, yMatch, xLabel, yLabel
      ensures forall k :: 0 <= k < size ==> xMatch[k] == -1 && yMatch[k] == -1 && yLabel[k] == 0
      ensures forall k :: 0 <= k < size ==> xLabel[k] == RowMax(w[k])
      ensures Feasible() && Matching() && Tight()
    {
      forall k | 0 <= k < size {
        xMatch[k] := -1;
      }
      forall k | 0 <= k < size {
        yMatch[k] := -1;
      }
      forall k | 0 <= k < size {
        xLabel[k] := 0;
      }
      forall k | 0 <= k < size {
        yLabel[k] := 0;
      }
      for i := 0 to size
        invariant forall k :: 0 <= k < size ==> xMatch[k] == -1 && yMatch[k] == -1 && yLabel[k] == 0
        invariant forall k :: 0 <= k < i ==> xLabel[k] == RowMax(w[k])
        invariant forall k :: i <= k < size ==> xLabel[k] == 0
      {
        for j := 0 to size
          invariant forall k :: 0 <= k < size ==> xMatch[k] == -1 && yMatch[k] == -1 && yLabel[k] == 0
          invariant forall k :: 0 <= k < i ==> xLabel[k] == RowMax(w[k])
          invariant forall k :: i < k < size ==> xLabel[k] == 0
          invariant xLabel[i] == RowMax(w[i][..j])
        {
          assert w[i][..j + 1][..j] == w[i][..j];
          xLabel[i] := Max(xLabel[i], w[i][j]);
        }
        assert w[i][..size] == w[i];
      }
      forall x, y | 0 <= x < size && 0 <= y < size
        ensures Slack(x, y) >= 0
      {
        assert w[x][y] <= RowMax(w[x]);
      }
    }

    /** Collects the pairs `(i, xMatch[i])` that lie inside the original
        rectangle and are not marked as non-edges, in ascending `i`. */
    method Extract() returns (res: seq<(int, int)>)
      requires Valid() && Padded() && Matching()
      ensures Extraction(res)
      ensures forall k, l :: 0 <= k < l < |res| ==> res[k].1 != res[l].1
      ensures Perfect() ==> PairWeight(w, res) == Weight(w, xMatch[..])
    {
      res := [];
      ghost var p := xMatch[..];
      for i := 0 to xsize
        invariant res == Picked(p, noEdge, ysize, i)
      {
        if 0 <= xMatch[i] < ysize && !noEdge[i][xMatch[i]] {
          res := res + [(i, xMatch[i])];
        }
      }
      PickedSpec(p, noEdge, ysize, xsize);
      ExtractedDistinct(res);
      if Perfect() {
        ExtractedWeight(res);
      }
    }

    /** Reported pairs with distinct left vertices have distinct right vertices. */
    lemma ExtractedDistinct(res: seq<(int, int)>)
      requires Valid() && Matching() && Extraction(res)
      ensures forall k, l :: 0 <= k < l < |res| ==> res[k].1 != res[l].1
    {
      forall k, l | 0 <= k < l < |res|
        ensures res[k].1 != res[l].1
      {
        assert yMatch[xMatch[res[k].0]] == res[k].0;
        assert yMatch[xMatch[res[l].0]] == res[l].0;
      }
    }

    /** Under a perfect matching, the reported pairs weigh as much as the
        whole padded matching. */
    lemma ExtractedWeight(res: seq<(int, int)>)
      requires Valid() && Padded() && Matching() && Perfect() && Extraction(res)
      requires res == Picked(xMatch[..], noEdge, ysize, xsize)
      ensures PairWeight(w, res) == Weight(w, xMatch[..])
    {
      var p := xMatch[..];
      assert forall i :: 0 <= i < size ==> 0 <= p[i] < size;
      PickedWeight(w, noEdge, p, ysize, xsize);
      ZeroRowsAddNothing(w, p, xsize, size);
      assert p[..size] == p;
    }

    /** Searches for an augmenting path from the unmatched left vertex `x`,
        shifting labels between breadth-first passes; at most `size` passes. */
    method FindAugPathBFS(x: int) returns (found: bool, ghost reached: int, ghost path: seq<int>)
      requires Valid() && Feasible() && Matching() && Tight()
      requires 0 <= x < size && xMatch[x] == -1
      modifies xMatch, yMatch, xLabel, yLabel, xVisited, yVisited, prev, yDelta
      ensures Feasible() && Matching() && Tight()
      ensures found ==> xMatch[x] != -1
      ensures found ==> SameStatusExcept(old(xMatch[..]), xMatch[..], x)
      ensures found ==> FlippedAlong(old(xMatch[..]), old(yMatch[..]), xMatch[..], yMatch[..], prev[..], x, reached, path)
      ensures !found ==> xMatch[..] == old(xMatch[..]) && yMatch[..] == old(yMatch[..])
    {
      var t := 0;
      while t < size
        invariant Feasible() && Matching() && Tight()
        invariant xMatch[..] == old(xMatch[..]) && yMatch[..] == old(yMatch[..])
      {
        t := t + 1;
        var grown;
        ghost var queue, rank;
        grown, queue, rank, reached, path := GrowTree(x);
        if grown {
          return true, reached, path;
        }
        var delta := MinDelta();
        if delta == Finite(0) {
          break;
        }
        if delta == Infinite {
          return false, -1, [];
        }
        Relabel(delta.value, x, queue, rank);
      }
      return false, -1, [];
    }

    /** The label update after a pass that found no augmenting path: shifting
        by at most the least slack across the tree's border keeps the labels
        feasible and every matched edge tight. */
    method Relabel(d: int, ghost root: int, ghost queue: seq<int>, ghost rank: seq<int>)
      requires Valid() && Feasible() && Matching() && Tight()
      requires Grown(root, queue, |queue|, rank)
      requires 0 < d && forall y :: 0 <= y < size && !yVisited[y] ==> Le(Finite(d), yDelta[y])
      modifies xLabel, yLabel
      ensures forall k :: 0 <= k < size ==> xLabel[k] == old(xLabel[k]) - (if xVisited[k] then d else 0)
      ensures forall k :: 0 <= k < size ==> yLabel[k] == old(yLabel[k]) + (if yVisited[k] then d else 0)
      ensures Feasible() && Tight()
    {
      assert queue[..|queue|] == queue;
      forall v, y | 0 <= v < size && 0 <= y < size && xVisited[v] && !yVisited[y]
        ensures d <= Slack(v, y)
      {
        assert queue[rank[v]] == v && Le(Finite(d), yDelta[y]);
        MinSlackIsLeast(queue, y);
      }
      forall v | 0 <= v < size && 0 <= xMatch[v] < size
        ensures xVisited[v] == yVisited[xMatch[v]]
      {
        if yVisited[xMatch[v]] {
          assert yMatch[xMatch[v]] == v;
        }
      }
      ShiftLabels(d);
    }

    /** One breadth-first pass from `root` over tight edges. Either an
        augmenting path was found and flipped, or the queue drained and
        `yDelta` holds the least slack across the tree's border. */
    method GrowTree(root: int)
      returns (found: bool, ghost queue: seq<int>, ghost rank: seq<int>, ghost reached: int, ghost path: seq<int>)
      requires Valid() && Feasible() && Matching() && Tight()
      requires 0 <= root < size && xMatch[root] == -1
      modifies xMatch, yMatch, xVisited, yVisited, prev, yDelta
      ensures Matching() && Tight()
      ensures found ==> Augmented(old(xMatch[..]), old(yMatch[..]), root, reached, path)
      ensures !found ==> xMatch[..] == old(xMatch[..]) && yMatch[..] == old(yMatch[..])
      ensures !found ==> Grown(root, queue, |queue|, rank)
    {
      var q;
      q, rank := StartTree(root);
      var head := 0;
      while head < |q|
        invariant Matching() && Tight()
        invariant xMatch[..] == old(xMatch[..]) && yMatch[..] == old(yMatch[..])
        invariant Grown(root, q, head, rank)
        decreases size - head
      {
        found, q, rank, reached, path := ScanRow(q, head, root, rank);
        if found {
          queue := q;
          return;
        }
        head := head + 1;
      }
      queue, found, reached, path := q, false, -1, [];
    }

    /** Clears the marks of the previous pass and puts `root` alone in the queue. */
    method StartTree(root: int) returns (queue: seq<int>, ghost rank: seq<int>)
      requires Valid() && Matching() && 0 <= root < size && xMatch[root] == -1
      modifies xVisited, yVisited, prev, yDelta
      ensures queue == [root]
      ensures xVisited[..] == seq(size, k => k == root) && yVisited[..] == seq(size, _ => false)
      ensures prev[..] == seq(size, _ => -1) && yDelta[..] == seq(size, _ => Infinite)
      ensures Grown(root, queue, 0, rank)
    {
      forall k | 0 <= k < size {
        xVisited[k] := false;
      }
      forall k | 0 <= k < size {
        yVisited[k] := false;
      }
      forall k | 0 <= k < size {
        prev[k] := -1;
      }
      forall k | 0 <= k < size {
        yDelta[k] := Infinite;
      }
      queue := [root];
      xVisited[root] := true;
      rank := seq(size, _ => 0);
    }

    /** The queue never holds a left vertex twice, so it is never longer than `size`. */
    lemma QueueBounded(root: int, queue: seq<int>, head: int, rank: seq<int>)
      requires Valid() && Tree(root, queue, head, rank)
      ensures |queue| <= size
    {
      forall a, b | 0 <= a < b < |queue|
        ensures queue[a] != queue[b]
      {
        assert rank[queue[a]] == a && rank[queue[b]] == b;
      }
      DistinctBounded(queue, size);
    }

    /** Scans every unvisited right vertex from the dequeued left vertex
        `curx`, in ascending order. */
    method ScanRow(queue: seq<int>, head: int, ghost root: int, ghost rank: seq<int>)
      returns (found: bool, queue': seq<int>, ghost rank': seq<int>, ghost reached: int, ghost path: seq<int>)
      requires Valid() && Feasible() && Matching() && Tight()
      requires 0 <= head < |queue| && Grown(root, queue, head, rank)
      modifies xMatch, yMatch, xVisited, yVisited, prev, yDelta
      ensures head < size
      ensures Matching() && Tight()
      ensures found ==> Augmented(old(xMatch[..]), old(yMatch[..]), root, reached, path)
      ensures !found ==> xMatch[..] == old(xMatch[..]) && yMatch[..] == old(yMatch[..])
      ensures !found ==> |queue| <= |queue'| && queue'[..|queue|] == queue && Grown(root, queue', head + 1, rank')
    {
      QueueBounded(root, queue, head, rank);
      var curx := queue[head];
      ghost var next := head + 1;
      queue', rank', reached, path := queue, rank, -1, [];
      ghost var scanned := queue[..head];
      ghost var scanned' := queue[..next];
      ghost var ox, oy := xMatch[..], yMatch[..];
      assert scanned' == scanned + [curx];
      for j := 0 to size
        invariant xMatch[..] == ox && yMatch[..] == oy
        invariant Matching() && Tight()
        invariant |queue| <= |queue'| && queue'[..|queue|] == queue && queue'[..next] == scanned'
        invariant Scanning(root, queue', next, rank', scanned, scanned', j)
      {
        found, queue', rank', path := ScanEdge(curx, j, queue', next, root, rank', scanned, scanned');
        if found {
          reached := j;
          assert Augmented(ox, oy, root, reached, path);
          return;
        }
      }
      ScanDone(root, queue', next, rank', scanned, scanned');
      found := false;
    }

    /** A row scanned to the end leaves the pass one left vertex further. */
    lemma ScanDone(root: int, queue: seq<int>, head: int, rank: seq<int>, scanned: seq<int>, scanned': seq<int>)
      requires Valid() && Scanning(root, queue, head, rank, scanned, scanned', size) && queue[..head] == scanned'
      ensures Grown(root, queue, head, rank)
    {
    }

    /** The state of a pass after `head` left vertices have been scanned:
        the alternating tree is intact, and every unvisited right vertex
        records the least slack from the scanned vertices. */
    ghost predicate Grown(root: int, queue: seq<int>, head: int, rank: seq<int>)
      requires Valid()
      reads xMatch, yMatch, xLabel, yLabel, xVisited, yVisited, prev, yDelta
    {
      && Tree(root, queue, head, rank) && Chain(root, xMatch[..], rank)
      && VisitedMatched() && DeltasPositive() && Frontier(queue[..head])
    }

    /** The state of a row scan from `scanned'`'s last vertex before the
        right vertex `j`: the tree is intact, and every unvisited right
        vertex records the least slack from the left vertices scanned so far. */
    ghost predicate Scanning(root: int, queue: seq<int>, head: int, rank: seq<int>,
                             scanned: seq<int>, scanned': seq<int>, j: int)
      requires Valid()
      reads xMatch, yMatch, xLabel, yLabel, xVisited, yVisited, prev, yDelta
    {
      && 1 <= head <= |queue| && scanned' == scanned + [queue[head - 1]]
      && Tree(root, queue, head, rank) && Chain(root, xMatch[..], rank)
      && VisitedMatched() && DeltasPositive()
      && (forall i :: 0 <= i < |scanned| ==> 0 <= scanned[i] < size)
      && (forall i :: 0 <= i < |scanned'| ==> 0 <= scanned'[i] < size)
      && (forall y {:trigger yDelta[y]} :: 0 <= y < size && !yVisited[y] ==>
            yDelta[y] == MinSlack(if y < j then scanned' else scanned, y))
    }

    /** Looks at the edge from `curx` to the right vertex `j`: a tight edge
        either reaches a free right vertex (the path is flipped) or enqueues
        that vertex's partner; a slack edge may lower the vertex's recorded slack. */
    method ScanEdge(curx: int, j: int, queue: seq<int>, ghost head: int, ghost root: int, ghost rank: seq<int>,
                    ghost scanned: seq<int>, ghost scanned': seq<int>)
      returns (found: bool, queue': seq<int>, ghost rank': seq<int>, ghost path: seq<int>)
      requires Valid() && Feasible() && Matching() && Tight()
      requires 1 <= head <= |queue| && curx == queue[head - 1] && 0 <= j < size
      requires Scanning(root, queue, head, rank, scanned, scanned', j)
      modifies xMatch, yMatch, xVisited, yVisited, prev, yDelta
      ensures Matching() && Tight()
      ensures found ==> Augmented(old(xMatch[..]), old(yMatch[..]), root, j, path)
      ensures !found ==> xMatch[..] == old(xMatch[..]) && yMatch[..] == old(yMatch[..])
      ensures !found ==> |queue| <= |queue'| && queue'[..|queue|] == queue
      ensures !found ==> Scanning(root, queue', head, rank', scanned, scanned', j + 1)
    {
      queue', rank', path := queue, rank, [];
      found := false;
      if yVisited[j] {
        SkipVisited(root, queue, head, rank, scanned, scanned', j);
        return;
      }
      var slack := Slack(curx, j);
      if slack == 0 {
        if yMatch[j] == -1 {
          path := ReachFree(curx, j, queue, head, root, rank);
          return true, queue, rank, path;
        } else {
          queue', rank' := Enqueue(curx, j, queue, head, root, rank, scanned, scanned');
        }
      } else {
        RecordSlack(curx, j, queue, head, root, rank, scanned, scanned');
      }
    }

    /** A right vertex already in the tree is passed over. */
    lemma SkipVisited(root: int, queue: seq<int>, head: int, rank: seq<int>,
                      scanned: seq<int>, scanned': seq<int>, j: int)
      requires Valid() && 0 <= j < size && yVisited[j]
      requires Scanning(root, queue, head, rank, scanned, scanned', j)
      ensures Scanning(root, queue, head, rank, scanned, scanned', j + 1)
    {
    }

    /** Marks the free right vertex `j`, reached from `curx` by a tight edge,
        as visited and flips the augmenting path that now ends there. */
    method ReachFree(curx: int, j: int, ghost queue: seq<int>, ghost head: int, ghost root: int, ghost rank: seq<int>)
      returns (ghost path: seq<int>)
      requires Valid() && Matching() && Tight()
      requires Tree(root, queue, head, rank) && Chain(root, xMatch[..], rank)
      requires 1 <= head <= |queue| && curx == queue[head - 1]
      requires 0 <= j < size && !yVisited[j] && Slack(curx, j) == 0 && yMatch[j] == -1
      modifies xMatch, yMatch, yVisited, prev
      ensures yVisited[..] == old(yVisited[..])[j := true] && prev[..] == old(prev[..])[j := curx]
      ensures Matching() && Tight()
      ensures xMatch[root] != -1
      ensures SameStatusExcept(old(xMatch[..]), xMatch[..], root)
      ensures FlippedAlong(old(xMatch[..]), old(yMatch[..]), xMatch[..], yMatch[..], prev[..], root, j, path)
    {
      yVisited[j] := true;
      prev[j] := curx;
      assert Tree(root, queue, head, rank) && Chain(root, xMatch[..], rank);
      path := Augment(j, root, queue, head, rank);
    }

    /** Marks the right vertex `j`, reached from `curx` by a tight edge, as
        visited and enqueues its partner. */
    method Enqueue(curx: int, j: int, queue: seq<int>, ghost head: int, ghost root: int, ghost rank: seq<int>,
                   ghost scanned: seq<int>, ghost scanned': seq<int>)
      returns (queue': seq<int>, ghost rank': seq<int>)
      requires Valid() && Matching()
      requires 1 <= head <= |queue| && curx == queue[head - 1]
      requires Scanning(root, queue, head, rank, scanned, scanned', j)
      requires 0 <= j < size && !yVisited[j] && Slack(curx, j) == 0 && yMatch[j] != -1
      modifies xVisited, yVisited, prev
      ensures queue' == queue + [old(yMatch[j])]
      ensures yVisited[..] == old(yVisited[..])[j := true] && prev[..] == old(prev[..])[j := curx]
      ensures xVisited[..] == old(xVisited[..])[old(yMatch[j]) := true]
      ensures Scanning(root, queue', head, rank', scanned, scanned', j + 1)
    {
      var m := yMatch[j];
      assert xMatch[m] == j;
      assert !xVisited[m];
      yVisited[j] := true;
      prev[j] := curx;
      queue' := queue + [m];
      xVisited[m] := true;
      rank' := rank[m := |queue'| - 1];
      assert Tree(root, queue', head, rank');
      assert Chain(root, xMatch[..], rank');
      forall y | 0 <= y < size && !yVisited[y]
        ensures yDelta[y] == MinSlack(if y < j + 1 then scanned' else scanned, y)
      {
        assert y != j && !old(yVisited[y]);
      }
    }

    /** Lowers the recorded slack of the unvisited right vertex `j` when the
        edge from `curx` is not tight and beats the slack recorded so far. */
    method RecordSlack(curx: int, j: int, ghost queue: seq<int>, ghost head: int, ghost root: int, ghost rank: seq<int>,
                       ghost scanned: seq<int>, ghost scanned': seq<int>)
      requires Valid() && Feasible()
      requires 1 <= head <= |queue| && curx == queue[head - 1]
      requires Scanning(root, queue, head, rank, scanned, scanned', j)
      requires 0 <= j < size && !yVisited[j] && Slack(curx, j) != 0
      modifies yDelta
      ensures yDelta[..] == old(yDelta[..])[j := Min(old(yDelta[j]), Finite(Slack(curx, j)))]
      ensures Scanning(root, queue, head, rank, scanned, scanned', j + 1)
    {
      var slack := Slack(curx, j);
      assert scanned'[..|scanned'| - 1] == scanned;
      assert MinSlack(scanned', j) == Min(yDelta[j], Finite(slack));
      if Below(slack, yDelta[j]) {
        yDelta[j] := Finite(slack);
      }
      forall y | 0 <= y < size && !yVisited[y]
        ensures yDelta[y] == MinSlack(if y < j + 1 then scanned' else scanned, y)
      {
        if y != j {
          assert yDelta[y] == old(yDelta[y]);
        }
      }
    }

    /** Flips the augmenting path that ends at the free right vertex `j`:
        walking back along `prev`, each left vertex takes the right vertex it
        reached and releases its former partner, until the root is matched. */
    method Augment(j: int, ghost root: int, ghost queue: seq<int>, ghost head: int, ghost rank: seq<int>)
      returns (ghost path: seq<int>)
      requires Valid() && Matching() && Tight()
      requires Tree(root, queue, head, rank) && Chain(root, xMatch[..], rank)
      requires 0 <= j < size && yVisited[j] && yMatch[j] == -1
      modifies xMatch, yMatch
      ensures Matching() && Tight()
      ensures xMatch[root] != -1
      ensures SameStatusExcept(old(xMatch[..]), xMatch[..], root)
      ensures forall v :: 0 <= v < size && xMatch[v] != old(xMatch[v]) ==> 0 <= xMatch[v] < size && prev[xMatch[v]] == v
      ensures forall u :: 0 <= u < size && yMatch[u] != old(yMatch[u]) ==> yMatch[u] == prev[u]
      ensures FlippedAlong(old(xMatch[..]), old(yMatch[..]), xMatch[..], yMatch[..], prev[..], root, j, path)
    {
      assert Links(xMatch[..], prev[..], rank, xVisited[..], yVisited[..], root);
      assert TightMatch(w, xLabel[..], yLabel[..], xMatch[..]);
      assert TreeTight(w, xLabel[..], yLabel[..], prev[..], yVisited[..]);
      path := FlipPath(j, root, rank);
    }

    /** The loop of `Augment`: from the free right vertex `j`, each left
        vertex on the path back along `prev` takes the right vertex it was
        reached by, until the root is matched. */
    method FlipPath(j: int, ghost root: int, ghost rank: seq<int>) returns (ghost path: seq<int>)
      requires Valid()
      requires FlipReady(w, xLabel[..], yLabel[..], xMatch[..], yMatch[..], prev[..], rank, xVisited[..], yVisited[..], root, j)
      modifies xMatch, yMatch
      ensures Flipped(w, xLabel[..], yLabel[..], old(xMatch[..]), old(yMatch[..]), xMatch[..], yMatch[..], prev[..], root, j, path)
    {
      ghost var ox, oy := xMatch[..], yMatch[..];
      ghost var xl, yl := xLabel[..], yLabel[..];
      ghost var pv, xv, yv := prev[..], xVisited[..], yVisited[..];
      FlipStart(w, xl, yl, ox, oy, pv, rank, xv, yv, root, j);
      ghost var xm, ym := ox, oy;
      var y := j;
      ghost var bound := rank[pv[j]] + 1;
      path := [];
      while y != -1
        invariant xMatch[..] == xm && yMatch[..] == ym && prev[..] == pv
        invariant xLabel[..] == xl && yLabel[..] == yl && TreeTight(w, xl, yl, pv, yv)
        invariant FlipState(w, xl, yl, ox, oy, xm, ym, pv, rank, xv, yv, root, j, path, y, bound)
        decreases bound
      {
        FlipRange(w, xl, yl, ox, oy, xm, ym, pv, rank, xv, yv, root, j, path, y, bound);
        var x := prev[y];
        var prevY := MatchEdge(x, y);
        ghost var xm', ym', path' := xm[x := y], ym[y := x], path + [y];
        FlipIteration(w, xl, yl, ox, oy, xm, ym, pv, rank, xv, yv, root, j, path, y, bound,
                      xm', ym', path', prevY, rank[x]);
        xm, ym, path, bound := xm', ym', path', rank[x];
        y := prevY;
      }
      FlipDone(w, xl, yl, ox, oy, xm, ym, pv, rank, xv, yv, root, j, path, bound);
    }

    /** Matches the left vertex `x` to the right vertex `y` and returns the
        former partner of `x`. */
    method MatchEdge(x: int, y: int) returns (prevY: int)
      requires Valid() && 0 <= x < size && 0 <= y < size
      modifies xMatch, yMatch
      ensures prevY == old(xMatch[x])
      ensures xMatch[..] == old(xMatch[..])[x := y] && yMatch[..] == old(yMatch[..])[y := x]
    {
      yMatch[y] := x;
      prevY := xMatch[x];
      xMatch[x] := y;
    }

    /** The shift as the source computes it: the least recorded slack over
        all right vertices, visited or not. */
    method MinDelta() returns (delta: Bound)
      requires Valid()
      ensures LeastOf(yDelta[..], delta)
    {
      delta := Infinite;
      for j := 0 to size
        invariant forall k :: 0 <= k < j ==> Le(delta, yDelta[k])
        invariant delta == Infinite || exists k :: 0 <= k < j && yDelta[k] == delta
      {
        delta := Min(delta, yDelta[j]);
      }
    }

    /** The shift the search evidently intends: the least recorded slack of
        the right vertices outside the tree, leaving out the stale records of
        those reached since. */
    method MinBorderDelta() returns (delta: Bound)
      requires Valid()
      ensures LeastOutside(yDelta[..], yVisited[..], delta)
    {
      delta := Infinite;
      for j := 0 to size
        invariant forall k :: 0 <= k < j && !yVisited[k] ==> Le(delta, yDelta[k])
        invariant delta == Infinite || exists k :: 0 <= k < j && !yVisited[k] && yDelta[k] == delta
      {
        if !yVisited[j] {
          delta := Min(delta, yDelta[j]);
        }
      }
    }

    /** After a pass that found no augmenting path, the shift of
        `MinBorderDelta` is the least slack of an edge leaving the tree: no
        such edge is slacker, one of them is exactly that slack (so the shift
        makes it tight), and it is infinite exactly when every right vertex is
        in the tree. */
    lemma BorderDeltaIsLeast(root: int, queue: seq<int>, rank: seq<int>, d: Bound)
      requires Valid() && Grown(root, queue, |queue|, rank)
      requires LeastOutside(yDelta[..], yVisited[..], d)
      ensures d == Infinite <==> forall y :: 0 <= y < size ==> yVisited[y]
      ensures forall x, y :: 0 <= x < size && 0 <= y < size && xVisited[x] && !yVisited[y] ==>
                Le(d, Finite(Slack(x, y)))
      ensures d.Finite? ==>
                exists x, y :: 0 <= x < size && 0 <= y < size && xVisited[x] && !yVisited[y] && Slack(x, y) == d.value
    {
      assert queue[..|queue|] == queue;
      forall y | 0 <= y < size && !yVisited[y]
        ensures yDelta[y] == MinSlack(queue, y) && yDelta[y].Finite?
        ensures exists x :: 0 <= x < size && xVisited[x] && yDelta[y].value == Slack(x, y)
        ensures forall x :: 0 <= x < size && xVisited[x] ==> yDelta[y].value <= Slack(x, y)
      {
        MinSlackIsLeast(queue, y);
        var i :| 0 <= i < |queue| && MinSlack(queue, y).value == Slack(queue[i], y);
        assert xVisited[queue[i]];
        forall x | 0 <= x < size && xVisited[x]
          ensures yDelta[y].value <= Slack(x, y)
        {
          assert queue[rank[x]] == x;
        }
      }
      if d.Finite? {
        var j :| 0 <= j < size && !yVisited[j] && yDelta[..][j] == d;
        var x :| 0 <= x < size && xVisited[x] && yDelta[j].value == Slack(x, j);
      }
    }

    /** The state after the second pass from left vertex 2 on the perfect-mode
        input `[[0,0,2],[0,3,2],[0,3,1]]`, left vertices 0 and 1 being
        already matched: the queue `[2, 1, 0]` has drained, and the visited
        right vertex 2 keeps the stale record 1 from the first scan of its row. */
    ghost predicate StaleState()
      requires Valid()
      reads xMatch, yMatch, xLabel, yLabel, xVisited, yVisited, prev, yDelta
    {
      && w == [[0, 0, 2], [0, 3, 2], [0, 3, 1]]
      && xMatch[..] == [2, 1, -1] && yMatch[..] == [-1, 1, 0]
      && xLabel[..] == [2, 2, 2] && yLabel[..] == [0, 1, 0]
      && xVisited[..] == [true, true, true] && yVisited[..] == [false, true, true]
      && prev[..] == [-1, 2, 1] && yDelta[..] == [Finite(2), Infinite, Finite(1)]
    }

    /** In that state the tree is complete and consistent. */
    lemma StaleStateTree()
      requires Valid() && StaleState()
      ensures Tree(2, [2, 1, 0], 3, [2, 1, 0]) && Chain(2, xMatch[..], [2, 1, 0]) && VisitedMatched()
    {
      assert size == 3;
      assert xLabel[..][0] == xLabel[0] && xLabel[..][1] == xLabel[1] && xLabel[..][2] == xLabel[2];
      assert yLabel[..][1] == yLabel[1] && yLabel[..][2] == yLabel[2];
      assert xVisited[..][0] == xVisited[0] && xVisited[..][1] == xVisited[1] && xVisited[..][2] == xVisited[2];
      assert yVisited[..][0] == yVisited[0] && yVisited[..][1] == yVisited[1] && yVisited[..][2] == yVisited[2];
      assert prev[..][1] == prev[1] && prev[..][2] == prev[2];
      assert yMatch[..][1] == yMatch[1] && yMatch[..][2] == yMatch[2];
    }

    /** In that state the records of the unvisited right vertex 0 are the
        least slack from the tree, 2, and every edge leaving the tree has
        exactly that slack. */
    lemma StaleStateFrontier()
      requires Valid() && StaleState()
      ensures DeltasPositive() && Frontier([2, 1, 0])
      ensures forall x, y :: 0 <= x < size && 0 <= y < size && xVisited[x] && !yVisited[y] ==> Slack(x, y) == 2
    {
      var q := [2, 1, 0];
      assert size == 3;
      assert xLabel[..][0] == xLabel[0] && xLabel[..][1] == xLabel[1] && xLabel[..][2] == xLabel[2];
      assert yLabel[..][0] == yLabel[0];
      assert yVisited[..][0] == yVisited[0] && yVisited[..][1] == yVisited[1] && yVisited[..][2] == yVisited[2];
      assert yDelta[..][0] == yDelta[0] && yDelta[..][1] == yDelta[1] && yDelta[..][2] == yDelta[2];
      assert q[..2] == [2, 1] && [2, 1][..1] == [2] && [2][..0] == [];
      assert Slack(2, 0) == 2 && Slack(1, 0) == 2 && Slack(0, 0) == 2;
      assert MinSlack([2], 0) == Finite(2);
      assert MinSlack([2, 1], 0) == Finite(2);
      assert MinSlack(q, 0) == Finite(2);
    }

    /** The stale record misleads the source's shift. The state is a genuine
        end of a pass (feasible, consistent, tight, a complete tree), the
        shift of `MinDelta` is 1, but every edge leaving the tree has slack 2:
        shifting by 1 makes no new edge tight, and the next pass grows the
        same tree. `MinBorderDelta` gives 2. */
    lemma StaleDeltaExample()
      requires Valid() && StaleState()
      ensures Feasible() && Matching() && Tight() && Grown(2, [2, 1, 0], 3, [2, 1, 0])
      ensures forall d :: LeastOf(yDelta[..], d) ==> d == Finite(1)
      ensures forall d :: LeastOutside(yDelta[..], yVisited[..], d) ==> d == Finite(2)
      ensures forall x, y :: 0 <= x < size && 0 <= y < size && xVisited[x] && !yVisited[y] ==> Slack(x, y) == 2
    {
      StaleStateTree();
      StaleStateFrontier();
      assert [2, 1, 0][..3] == [2, 1, 0];
      assert size == 3;
      assert Feasible() by {
        assert xLabel[..][0] == xLabel[0] && xLabel[..][1] == xLabel[1] && xLabel[..][2] == xLabel[2];
        assert yLabel[..][0] == yLabel[0] && yLabel[..][1] == yLabel[1] && yLabel[..][2] == yLabel[2];
      }
      StaleLeast(yDelta[..], yVisited[..]);
    }

    /** The state after the three passes from left vertex 2 that the pass
        bound allows on the perfect-mode input `[[1,5,0],[2,5,4],[0,5,2]]`,
        where the search gives up: yet the edges 2-1 and 0-0 are tight, so
        the path 2-1, 1-0 (matched), 0-0 ends at the free right vertex 0,
        and flipping it gives a perfect matching whose weight is the label
        sum, an optimal one. */
    lemma PassBoundExample()
      requires Valid() && w == [[1, 5, 0], [2, 5, 4], [0, 5, 2]]
      requires xMatch[..] == [1, 2, -1] && yMatch[..] == [-1, 0, 1]
      requires xLabel[..] == [1, 3, 1] && yLabel[..] == [0, 4, 1]
      ensures Feasible() && Matching() && Tight() && xMatch[2] == -1
      ensures Slack(2, 1) == 0 && yMatch[1] == 0 && Slack(0, 0) == 0 && yMatch[0] == -1
      ensures IsPermutation([0, 2, 1], size)
      ensures Weight(w, [0, 2, 1]) == Sum(xLabel[..]) + Sum(yLabel[..])
    {
      var p := [0, 2, 1];
      assert p[..2] == [0, 2] && [0, 2][..1] == [0] && [0][..0] == [];
      assert Weight(w, [0]) == 1;
      assert Weight(w, [0, 2]) == 5;
      assert Weight(w, p) == 10;
      var xl, yl := xLabel[..], yLabel[..];
      assert xl[..2] == [1, 3] && [1, 3][..1] == [1] && [1][..0] == [];
      assert yl[..2] == [0, 4] && [0, 4][..1] == [0];
      assert Sum(xl) == 5 && Sum(yl) == 5;
    }

    /** Lowers the labels of visited left vertices by `d` and raises those of
        visited right vertices by `d`. */
    method ShiftLabels(d: int)
      requires Valid()
      modifies xLabel, yLabel
      ensures forall k :: 0 <= k < size ==> xLabel[k] == old(xLabel[k]) - (if xVisited[k] then d else 0)
      ensures forall k :: 0 <= k < size ==> yLabel[k] == old(yLabel[k]) + (if yVisited[k] then d else 0)
      ensures forall x, y :: 0 <= x < size && 0 <= y < size ==>
                Slack(x, y) == old(Slack(x, y)) - (if xVisited[x] then d else 0) + (if yVisited[y] then d else 0)
    {
      for k := 0 to size
        invariant forall i :: 0 <= i < size ==> xLabel[i] == old(xLabel[i]) - (if i < k && xVisited[i] then d else 0)
        invariant forall i :: 0 <= i < size ==> yLabel[i] == old(yLabel[i]) + (if i < k && yVisited[i] then d else 0)
      {
        if xVisited[k] {
          xLabel[k] := xLabel[k] - d;
        }
        if yVisited[k] {
          yLabel[k] := yLabel[k] + d;
        }
      }
    }
  }

  /** Two calls on the same solver: each call starts again from fresh labels
      and an empty matching, so when both find a perfect matching they report
      pairs of the same, largest, total weight. */
  method SolveTwice(h: Hungarian) returns (first: seq<(int, int)>, second: seq<(int, int)>,
                                           ghost perfect1: bool, ghost perfect2: bool)
    requires h.Valid() && h.Padded()
    modifies h.xMatch, h.yMatch, h.xLabel, h.yLabel, h.xVisited, h.yVisited, h.prev, h.yDelta
    ensures !perfect1 ==> first == []
    ensures !perfect2 ==> second == []
    ensures forall k :: 0 <= k < |first| ==> 0 <= first[k].0 < h.xsize && 0 <= first[k].1 < h.ysize
    ensures forall k :: 0 <= k < |second| ==> 0 <= second[k].0 < h.xsize && 0 <= second[k].1 < h.ysize
    ensures perfect1 && perfect2 ==> PairWeight(h.w, first) == PairWeight(h.w, second)
  {
    first := h.FindMaxWeightMatch();
    perfect1 := h.Perfect();
    ghost var p1 := h.xMatch[..];
    second := h.FindMaxWeightMatch();
    perfect2 := h.Perfect();
    ghost var p2 := h.xMatch[..];
    if perfect1 && perfect2 {
      assert Weight(h.w, p1) <= Weight(h.w, p2) && Weight(h.w, p2) <= Weight(h.w, p1);
    }
  }
}
