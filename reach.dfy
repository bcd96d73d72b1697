/**
 * What one call of the resolver's `_analyse_pkg` reaches: the packages met
 * by following the direct dependencies of chosen packages, a bounded number
 * of levels deep, and the bookkeeping that ties the set of recorded
 * packages to exactly those reached.
 */
module Reach {
  import opened Distro

  /**
   * `_analyse_pkg(p, depth)` with `k == max_depth - depth` levels left
   * reaches `q`: either `q` is `p`, or `p` is chosen (so it is recorded and
   * each of its direct dependencies analysed one level deeper) and one of
   * those dependencies reaches `q` with one level fewer.
   */
  ghost predicate Visits(d: Distribution, chosen: set<Name>, p: Name, q: Name, k: int)
    decreases k
  {
    k >= 0 && (p == q || (p in chosen && p in d.deps && exists x :: x in d.deps[p] && Visits(d, chosen, x, q, k - 1)))
  }

  /** Every chosen package that the analysis of `p` with `k` levels left reaches is among `keys`. */
  ghost predicate Covered(d: Distribution, chosen: set<Name>, p: Name, k: int, keys: set<Name>) {
    forall q {:trigger Visits(d, chosen, p, q, k)} :: Visits(d, chosen, p, q, k) && q in chosen ==> q in keys
  }

  /** Every key added to `keys0` is reached by the analysis of `p` with `k` levels left. */
  ghost predicate Explained(d: Distribution, chosen: set<Name>, p: Name, k: int, keys0: set<Name>, keys: set<Name>) {
    forall q {:trigger Visits(d, chosen, p, q, k)} :: q in keys && q !in keys0 ==> Visits(d, chosen, p, q, k)
  }

  /** A chosen package reaches whatever one of its dependencies reaches with one level fewer. */
  lemma VisitsVia(d: Distribution, chosen: set<Name>, p: Name, x: Name, q: Name, k: int)
    requires p in chosen && p in d.deps && x in d.deps[p] && Visits(d, chosen, x, q, k - 1)
    ensures Visits(d, chosen, p, q, k)
  {
  }

  /** A recorded chosen package whose dependencies are covered one level deeper is covered. */
  lemma CoveredStep(d: Distribution, chosen: set<Name>, p: Name, k: int, keys: set<Name>)
    requires p in chosen && p in d.deps && p in keys
    requires CoveredAll(d, chosen, d.deps[p], |d.deps[p]|, k - 1, keys)
    ensures Covered(d, chosen, p, k, keys)
  {
    forall q | Visits(d, chosen, p, q, k) && q in chosen
      ensures q in keys
    {
      if p != q {
        var x :| x in d.deps[p] && Visits(d, chosen, x, q, k - 1);
        var j :| 0 <= j < |d.deps[p]| && d.deps[p][j] == x;
        assert Covered(d, chosen, d.deps[p][j], k - 1, keys);
      }
    }
  }

  lemma CoveredGrows(d: Distribution, chosen: set<Name>, p: Name, k: int, keys: set<Name>, keys': set<Name>)
    requires Covered(d, chosen, p, k, keys) && keys <= keys'
    ensures Covered(d, chosen, p, k, keys')
  {
  }

  /** Keys added by the analysis of a dependency `x` of chosen `p` are explained by `p`. */
  lemma ExplainedVia(d: Distribution, chosen: set<Name>, p: Name, x: Name, k: int, keys0: set<Name>, keys1: set<Name>, keys: set<Name>)
    requires p in chosen && p in d.deps && x in d.deps[p]
    requires Explained(d, chosen, p, k, keys0, keys1) && Explained(d, chosen, x, k - 1, keys1, keys)
    ensures Explained(d, chosen, p, k, keys0, keys)
  {
    forall q | q in keys && q !in keys0
      ensures Visits(d, chosen, p, q, k)
    {
      if q !in keys1 {
        VisitsVia(d, chosen, p, x, q, k);
      }
    }
  }

  lemma ExplainedTrans(d: Distribution, chosen: set<Name>, p: Name, k: int, keys0: set<Name>, keys1: set<Name>, keys: set<Name>)
    ensures Explained(d, chosen, p, k, keys0, keys1) && Explained(d, chosen, p, k, keys1, keys) ==>
      Explained(d, chosen, p, k, keys0, keys)
  {
  }

  /** Recording `p` itself is explained by `p`, with any number of levels left. */
  lemma ExplainedSelf(d: Distribution, chosen: set<Name>, p: Name, k: int, keys0: set<Name>, keys: set<Name>)
    requires k >= 0 && keys == keys0 + {p}
    ensures Explained(d, chosen, p, k, keys0, keys)
  {
  }

  /** The repositories of the first `n` of `xs` are all in `s`. */
  ghost predicate ReposIn(d: Distribution, xs: seq<Name>, n: int, s: set<Name>)
    requires 0 <= n <= |xs|
  {
    forall j :: 0 <= j < n ==> xs[j] in d.releasePackages && d.releasePackages[xs[j]] in s
  }

  lemma ReposInSnoc(d: Distribution, xs: seq<Name>, i: int, s0: set<Name>, s: set<Name>)
    requires 0 <= i < |xs|
    ensures ReposIn(d, xs, i, s0) && s0 <= s && xs[i] in d.releasePackages && d.releasePackages[xs[i]] in s ==>
      ReposIn(d, xs, i + 1, s)
  {
  }

  /** The first `n` of `xs` are covered with `k` levels left. */
  ghost predicate CoveredAll(d: Distribution, chosen: set<Name>, xs: seq<Name>, n: int, k: int, keys: set<Name>)
    requires 0 <= n <= |xs|
  {
    forall j :: 0 <= j < n ==> Covered(d, chosen, xs[j], k, keys)
  }

  /** After `xs[i]` is analysed, covering extends to it and survives the growth of `keys`. */
  lemma CoveredAllSnoc(d: Distribution, chosen: set<Name>, xs: seq<Name>, i: int, k: int, keys0: set<Name>, keys: set<Name>)
    requires 0 <= i < |xs|
    ensures CoveredAll(d, chosen, xs, i, k, keys0) && keys0 <= keys && Covered(d, chosen, xs[i], k, keys) ==>
      CoveredAll(d, chosen, xs, i + 1, k, keys)
  {
    if CoveredAll(d, chosen, xs, i, k, keys0) && keys0 <= keys && Covered(d, chosen, xs[i], k, keys) {
      forall j | 0 <= j < i
        ensures Covered(d, chosen, xs[j], k, keys)
      {
        CoveredGrows(d, chosen, xs[j], k, keys0, keys);
      }
    }
  }

  /**
   * After the first `i` dependencies of `p` are analysed with `k - 1`
   * levels left: every chosen package they reach is among `keys`, and every
   * key added since `start` is reached from `p`.
   */
  ghost predicate Expanded(d: Distribution, chosen: set<Name>, p: Name, k: int, i: int, start: set<Name>, keys: set<Name>)
    requires p in d.deps && 0 <= i <= |d.deps[p]|
  {
    CoveredAll(d, chosen, d.deps[p], i, k - 1, keys) && Explained(d, chosen, p, k, start, keys)
  }

  /** Analysing dependency `i` of `p` extends `Expanded` from `i` to `i + 1` dependencies. */
  lemma ExpandedStep(d: Distribution, chosen: set<Name>, p: Name, k: int, i: int, start: set<Name>, keys0: set<Name>, keys: set<Name>)
    requires p in d.deps && 0 <= i < |d.deps[p]|
    ensures Expanded(d, chosen, p, k, i, start, keys0) && keys0 <= keys
            && Covered(d, chosen, d.deps[p][i], k - 1, keys) && Explained(d, chosen, p, k, keys0, keys) ==>
      Expanded(d, chosen, p, k, i + 1, start, keys)
  {
    CoveredAllSnoc(d, chosen, d.deps[p], i, k - 1, keys0, keys);
    ExplainedTrans(d, chosen, p, k, start, keys0, keys);
  }

  /** Covering and explaining depend on the number of levels left, not on how it is written. */
  lemma AtRoot(d: Distribution, chosen: set<Name>, p: Name, k: int, m: int, keys0: set<Name>, keys: set<Name>)
    requires k == m
    ensures Covered(d, chosen, p, k, keys) && Explained(d, chosen, p, k, keys0, keys) ==>
      Covered(d, chosen, p, m, keys) && Explained(d, chosen, p, m, keys0, keys)
  {
  }

  /** The analysis of one of the first `n` of `roots` with `k` levels left reaches `q`. */
  ghost predicate VisitedFrom(d: Distribution, chosen: set<Name>, roots: seq<Name>, n: int, q: Name, k: int)
    requires 0 <= n <= |roots|
  {
    exists j :: 0 <= j < n && Visits(d, chosen, roots[j], q, k)
  }

  /** Every key added to `keys0` is reached from one of the first `n` of `roots` with `k` levels left. */
  ghost predicate ExplainedFrom(d: Distribution, chosen: set<Name>, roots: seq<Name>, n: int, k: int, keys0: set<Name>, keys: set<Name>)
    requires 0 <= n <= |roots|
  {
    forall q {:trigger VisitedFrom(d, chosen, roots, n, q, k)} :: q in keys && q !in keys0 ==> VisitedFrom(d, chosen, roots, n, q, k)
  }

  /**
   * After the first `n` of `roots` are analysed with `k` levels left: every
   * chosen package they reach is among `keys`, and every key added since
   * `start` is reached from one of them.
   */
  ghost predicate Reached(d: Distribution, chosen: set<Name>, roots: seq<Name>, n: int, k: int, start: set<Name>, keys: set<Name>)
    requires 0 <= n <= |roots|
  {
    CoveredAll(d, chosen, roots, n, k, keys) && ExplainedFrom(d, chosen, roots, n, k, start, keys)
  }

  /** Analysing root `i` extends `Reached` from `i` to `i + 1` roots. */
  lemma ReachedStep(d: Distribution, chosen: set<Name>, roots: seq<Name>, i: int, k: int, start: set<Name>, keys0: set<Name>, keys: set<Name>)
    requires 0 <= i < |roots|
    ensures Reached(d, chosen, roots, i, k, start, keys0) && keys0 <= keys
            && Covered(d, chosen, roots[i], k, keys) && Explained(d, chosen, roots[i], k, keys0, keys) ==>
      Reached(d, chosen, roots, i + 1, k, start, keys)
  {
    if Reached(d, chosen, roots, i, k, start, keys0) && keys0 <= keys
       && Covered(d, chosen, roots[i], k, keys) && Explained(d, chosen, roots[i], k, keys0, keys)
    {
      CoveredAllSnoc(d, chosen, roots, i, k, keys0, keys);
      forall q | q in keys && q !in start
        ensures VisitedFrom(d, chosen, roots, i + 1, q, k)
      {
        if q in keys0 {
          assert VisitedFrom(d, chosen, roots, i, q, k);
          var j :| 0 <= j < i && Visits(d, chosen, roots[j], q, k);
          assert 0 <= j < i + 1;
        } else {
          assert Visits(d, chosen, roots[i], q, k);
        }
      }
    }
  }

  /** Every chosen root is itself recorded: each root reaches itself. */
  lemma RootsRecorded(d: Distribution, chosen: set<Name>, roots: seq<Name>, n: int, k: int, start: set<Name>, keys: set<Name>)
    requires n == |roots| && k >= 0 && Reached(d, chosen, roots, n, k, start, keys)
    ensures forall p :: p in roots && p in chosen ==> p in keys
  {
    forall p | p in roots && p in chosen
      ensures p in keys
    {
      var j :| 0 <= j < n && roots[j] == p;
      assert Covered(d, chosen, roots[j], k, keys);
      assert Visits(d, chosen, p, p, k);
    }
  }

  /** The chosen packages that the analysis of one of `roots` with `k` levels left reaches. */
  ghost function Reachable(d: Distribution, chosen: set<Name>, roots: seq<Name>, k: int): (s: set<Name>) {
    set q | q in chosen && VisitedFrom(d, chosen, roots, |roots|, q, k)
  }

  /**
   * Once every root is analysed, every chosen package reached is recorded
   * and every package recorded since `start` is a chosen package reached;
   * starting from nothing recorded, the recorded packages are exactly those
   * reached.
   */
  lemma ReachedSets(d: Distribution, chosen: set<Name>, roots: seq<Name>, n: int, k: int, start: set<Name>, keys: set<Name>)
    requires n == |roots| && keys <= chosen && Reached(d, chosen, roots, n, k, start, keys)
    ensures Reachable(d, chosen, roots, k) <= keys
    ensures keys - start <= Reachable(d, chosen, roots, k)
    ensures start == {} ==> keys == Reachable(d, chosen, roots, k)
  {
    forall q | q in Reachable(d, chosen, roots, k)
      ensures q in keys
    {
      var j :| 0 <= j < n && Visits(d, chosen, roots[j], q, k);
      assert Covered(d, chosen, roots[j], k, keys);
    }
    forall q | q in keys - start
      ensures q in Reachable(d, chosen, roots, k)
    {
      assert VisitedFrom(d, chosen, roots, n, q, k);
    }
  }

  /**
   * With no level left only the package itself is reached; with one more
   * level a chosen package also reaches each direct dependency; a package
   * that is not chosen reaches only itself, whatever the levels left.
   */
  lemma VisitsDepth(d: Distribution, chosen: set<Name>, p: Name, x: Name, q: Name, k: int)
    ensures Visits(d, chosen, p, q, 0) <==> p == q
    ensures p in chosen && p in d.deps && x in d.deps[p] ==> Visits(d, chosen, p, x, 1)
    ensures p !in chosen && k >= 0 ==> (Visits(d, chosen, p, q, k) <==> p == q)
  {
    if p in chosen && p in d.deps && x in d.deps[p] {
      assert Visits(d, chosen, x, x, 0);
    }
  }
}
