/** Reachability in a finite directed graph, given as an adjacency map.

An edge may lead to a vertex that is not a key of the map: a stored node can name a
digest that is no longer stored.  Such a vertex has no successors. */
module Graph {

  ghost predicate Edge<T>(g: map<T, set<T>>, a: T, b: T) {
    a in g && b in g[a]
  }

  /** A walk of exactly n edges leads from a to b. */
  ghost predicate ReachesIn<T(!new)>(g: map<T, set<T>>, a: T, b: T, n: nat) {
    if n == 0 then a == b
    else exists m :: ReachesIn(g, a, m, n - 1) && Edge(g, m, b)
  }

  ghost predicate Reaches<T(!new)>(g: map<T, set<T>>, a: T, b: T) {
    exists n: nat :: ReachesIn(g, a, b, n)
  }

  /** The vertices of g that some root reaches.  Roots that are not vertices reach nothing. */
  ghost function Live<T(!new)>(g: map<T, set<T>>, roots: set<T>): set<T> {
    set d | d in g && exists r :: r in roots && Reaches(g, r, d)
  }

  /** s contains the roots that are vertices of g, and every successor in g of its elements. */
  ghost predicate Closed<T>(g: map<T, set<T>>, roots: set<T>, s: set<T>) {
    && (forall r :: r in roots && r in g ==> r in s)
    && (forall a, b :: a in s && Edge(g, a, b) && b in g ==> b in s)
  }

  ghost predicate Submap<T>(small: map<T, set<T>>, g: map<T, set<T>>) {
    forall d :: d in small ==> d in g && small[d] == g[d]
  }

  lemma ReachesSelf<T(!new)>(g: map<T, set<T>>, a: T)
    ensures Reaches(g, a, a)
  {
    assert ReachesIn(g, a, a, 0);
  }

  lemma ReachesStep<T(!new)>(g: map<T, set<T>>, a: T, b: T, c: T)
    requires Reaches(g, a, b) && Edge(g, b, c)
    ensures Reaches(g, a, c)
  {
    var n: nat :| ReachesIn(g, a, b, n);
    assert ReachesIn(g, a, c, n + 1);
  }

  lemma LiveClosed<T(!new)>(g: map<T, set<T>>, roots: set<T>)
    ensures Live(g, roots) <= g.Keys && Closed(g, roots, Live(g, roots))
  {
    forall r | r in roots && r in g ensures r in Live(g, roots) {
      ReachesSelf(g, r);
    }
    forall a, b | a in Live(g, roots) && Edge(g, a, b) && b in g ensures b in Live(g, roots) {
      var r :| r in roots && Reaches(g, r, a);
      ReachesStep(g, r, a, b);
    }
  }

  lemma LiveLeast<T(!new)>(g: map<T, set<T>>, roots: set<T>, s: set<T>)
    requires Closed(g, roots, s)
    ensures Live(g, roots) <= s
  {
    forall d | d in Live(g, roots) ensures d in s {
      var r :| r in roots && Reaches(g, r, d);
      var n: nat :| ReachesIn(g, r, d, n);
      ClosedUnderWalks(g, roots, s, r, d, n);
    }
  }

  lemma {:induction false} ClosedUnderWalks<T(!new)>(
    g: map<T, set<T>>, roots: set<T>, s: set<T>, r: T, d: T, n: nat)
    requires Closed(g, roots, s) && r in roots && d in g && ReachesIn(g, r, d, n)
    ensures d in s
  {
    if n > 0 {
      var m :| ReachesIn(g, r, m, n - 1) && Edge(g, m, d);
      ClosedUnderWalks(g, roots, s, r, m, n - 1);
    }
  }

  lemma ClosedInSubmap<T>(g: map<T, set<T>>, small: map<T, set<T>>, roots: set<T>, s: set<T>)
    requires Submap(small, g) && Closed(g, roots, s)
    ensures Closed(small, roots, s)
  {
  }

  lemma ClosedBackInWhole<T>(
    g: map<T, set<T>>, small: map<T, set<T>>, roots: set<T>, s: set<T>, t: set<T>)
    requires Submap(small, g) && Closed(g, roots, s) && s <= small.Keys
    requires Closed(small, roots, t) && t <= s
    ensures Closed(g, roots, t)
  {
  }

  lemma LiveMonotone<T(!new)>(g: map<T, set<T>>, small: set<T>, big: set<T>)
    requires small <= big
    ensures Live(g, small) <= Live(g, big)
  {
  }

  /** Deleting vertices outside the live set of `keep` does not change what a smaller root set
      reaches: the fact behind resuming and composing collections. */
  lemma LiveStable<T(!new)>(g: map<T, set<T>>, small: map<T, set<T>>, roots: set<T>, keep: set<T>)
    requires Submap(small, g) && roots <= keep && Live(g, keep) <= small.Keys
    ensures Live(small, roots) == Live(g, roots)
  {
    var s, t := Live(g, roots), Live(small, roots);
    assert s <= small.Keys by { LiveMonotone(g, roots, keep); }
    assert Closed(g, roots, s) by { LiveClosed(g, roots); }
    assert Closed(small, roots, t) by { LiveClosed(small, roots); }
    assert t <= s by {
      ClosedInSubmap(g, small, roots, s);
      LiveLeast(small, roots, s);
    }
    ClosedBackInWhole(g, small, roots, s, t);
    LiveLeast(g, roots, t);
  }
}
