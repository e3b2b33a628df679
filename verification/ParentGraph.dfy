/** Reachability along parent links, in graphs that may contain cycles and name parents they do not contain. */
module ParentGraph {
  import opened Lists

  type Hash = nat
  type Graph = map<Hash, seq<Hash>>

  ghost predicate IsPath(g: Graph, p: seq<Hash>) {
    |p| > 0 && forall i :: 0 <= i < |p| - 1 ==> p[i] in g && p[i + 1] in g[p[i]]
  }

  ghost predicate PathBetween(g: Graph, p: seq<Hash>, a: Hash, b: Hash) {
    IsPath(g, p) && p[0] == a && p[|p| - 1] == b
  }

  ghost predicate Reaches(g: Graph, a: Hash, b: Hash) {
    exists p :: PathBetween(g, p, a, b)
  }

  /** b is a proper ancestor of a: reached by at least one link. */
  ghost predicate ProperAncestor(g: Graph, a: Hash, b: Hash) {
    exists p :: PathBetween(g, p, a, b) && |p| >= 2
  }

  /** The whole ancestry of v is present, and no part of it lies on a cycle. */
  ghost predicate Rooted(g: Graph, v: Hash) {
    forall u :: Reaches(g, v, u) ==> u in g && !ProperAncestor(g, u, u)
  }

  ghost predicate Acyclic(g: Graph) {
    forall v :: v in g ==> !ProperAncestor(g, v, v)
  }

  ghost predicate ParentClosed(g: Graph) {
    forall v, p :: v in g && p in g[v] ==> p in g
  }

  lemma ReachesSelf(g: Graph, a: Hash)
    ensures Reaches(g, a, a)
  {
    assert PathBetween(g, [a], a, a);
  }

  lemma ParentIsProperAncestor(g: Graph, a: Hash, b: Hash)
    requires a in g && b in g[a]
    ensures ProperAncestor(g, a, b)
  {
    assert PathBetween(g, [a, b], a, b);
  }

  lemma JoinPaths(g: Graph, p: seq<Hash>, q: seq<Hash>, a: Hash, b: Hash, c: Hash)
    requires PathBetween(g, p, a, b) && PathBetween(g, q, b, c)
    ensures PathBetween(g, p + q[1..], a, c) && |p + q[1..]| == |p| + |q| - 1
  {
    var r := p + q[1..];
    forall i | 0 <= i < |r| - 1 ensures r[i] in g && r[i + 1] in g[r[i]] {
      if i < |p| - 1 {
        assert r[i] == p[i] && r[i + 1] == p[i + 1];
      } else {
        assert r[i] == q[i - |p| + 1] && r[i + 1] == q[i - |p| + 2];
      }
    }
  }

  lemma AncestorThenReach(g: Graph, a: Hash, b: Hash, c: Hash)
    requires ProperAncestor(g, a, b) && Reaches(g, b, c)
    ensures ProperAncestor(g, a, c) && Reaches(g, a, c)
  {
    var p :| PathBetween(g, p, a, b) && |p| >= 2;
    var q :| PathBetween(g, q, b, c);
    JoinPaths(g, p, q, a, b, c);
  }

  lemma ReachThenAncestor(g: Graph, a: Hash, b: Hash, c: Hash)
    requires Reaches(g, a, b) && ProperAncestor(g, b, c)
    ensures ProperAncestor(g, a, c)
  {
    var p :| PathBetween(g, p, a, b);
    var q :| PathBetween(g, q, b, c) && |q| >= 2;
    JoinPaths(g, p, q, a, b, c);
  }

  lemma AncestorReaches(g: Graph, a: Hash, b: Hash)
    requires ProperAncestor(g, a, b)
    ensures Reaches(g, a, b) && a in g
  {
  }

  /** A set that holds a and the parents of its members holds everything a reaches. */
  lemma {:induction false} ClosedUnderParents(g: Graph, s: set<Hash>, p: seq<Hash>)
    requires IsPath(g, p) && p[0] in s
    requires forall v, u :: v in s && v in g && u in g[v] ==> u in s
    ensures p[|p| - 1] in s
    decreases |p|
  {
    if |p| > 1 {
      assert p[1] in g[p[0]];
      assert IsPath(g, p[1..]) by {
        forall i | 0 <= i < |p[1..]| - 1 ensures p[1..][i] in g && p[1..][i + 1] in g[p[1..][i]] {
          assert p[i + 1] in g && p[i + 2] in g[p[i + 1]];
        }
      }
      ClosedUnderParents(g, s, p[1..]);
    }
  }

  lemma ReachedStaysInside(g: Graph, s: set<Hash>, a: Hash, b: Hash)
    requires a in s && Reaches(g, a, b)
    requires forall v, u :: v in s && v in g && u in g[v] ==> u in s
    ensures b in s
  {
    var p :| PathBetween(g, p, a, b);
    ClosedUnderParents(g, s, p);
  }

  // ----- topological orders

  ghost predicate ParentsFirst(g: Graph, order: seq<Hash>) {
    forall i, u :: 0 <= i < |order| && order[i] in g && u in g[order[i]] ==> u in order[..i]
  }

  /** A repetition-free listing of exactly the rooted vertices, each after all its parents. */
  ghost predicate IsTopologicalOrder(g: Graph, order: seq<Hash>) {
    && NoRepeats(order)
    && ParentsFirst(g, order)
    && forall v :: v in order <==> v in g && Rooted(g, v)
  }

  lemma {:induction false} ProperAncestorsEarlier(g: Graph, order: seq<Hash>, p: seq<Hash>, i: nat)
    requires ParentsFirst(g, order) && i < |order|
    requires IsPath(g, p) && |p| >= 2 && p[0] == order[i]
    ensures p[|p| - 1] in order[..i]
    decreases |p|
  {
    assert p[1] in g[p[0]];
    var j :| 0 <= j < i && order[j] == p[1];
    if |p| > 2 {
      assert IsPath(g, p[1..]) by {
        forall k | 0 <= k < |p[1..]| - 1 ensures p[1..][k] in g && p[1..][k + 1] in g[p[1..][k]] {
          assert p[k + 1] in g && p[k + 2] in g[p[k + 1]];
        }
      }
      ProperAncestorsEarlier(g, order, p[1..], j);
      assert order[..j] <= order[..i];
      assert p[|p| - 1] in order[..j];
      var m :| 0 <= m < j && order[m] == p[|p| - 1];
      assert order[..i][m] == p[|p| - 1];
    }
  }

  /** In a list that names every parent before its child, every ancestor of an entry stands at or before it. */
  lemma AncestorsAtOrBefore(g: Graph, order: seq<Hash>, i: nat, u: Hash)
    requires ParentsFirst(g, order) && i < |order| && Reaches(g, order[i], u)
    ensures u in order[..i + 1]
    ensures ProperAncestor(g, order[i], u) ==> u in order[..i]
  {
    if ProperAncestor(g, order[i], u) {
      var p :| PathBetween(g, p, order[i], u) && |p| >= 2;
      ProperAncestorsEarlier(g, order, p, i);
      var m :| 0 <= m < i && order[m] == u;
      assert order[..i + 1][m] == u;
    } else {
      var p :| PathBetween(g, p, order[i], u);
      assert p == [u];
      assert order[..i + 1][i] == u;
    }
  }

  /** Only rooted vertices can be listed parents-first without repetition. */
  lemma ListedIsRooted(g: Graph, order: seq<Hash>, i: nat)
    requires NoRepeats(order) && ParentsFirst(g, order) && i < |order|
    requires forall v :: v in order ==> v in g
    ensures Rooted(g, order[i])
  {
    forall u | Reaches(g, order[i], u) ensures u in g && !ProperAncestor(g, u, u) {
      AncestorsAtOrBefore(g, order, i, u);
      var m :| 0 <= m < i + 1 && order[m] == u;
      assert u !in order[..m];
      ReachesSelf(g, u);
      AncestorsAtOrBefore(g, order, m, u);
    }
  }

  /** From a rooted vertex outside a set that contains every vertex whose parents it contains, one could descend
      for ever; `seen` are the vertices already passed on the way down to v. */
  lemma {:induction false} RootedIsIncluded(g: Graph, s: set<Hash>, v: Hash, seen: set<Hash>)
    requires forall u :: u in g && (forall w :: w in g[u] ==> w in s) ==> u in s
    requires Rooted(g, v) && seen <= g.Keys
    requires forall u :: u in seen ==> ProperAncestor(g, u, v)
    ensures v in s
    decreases g.Keys - seen
  {
    ReachesSelf(g, v);
    assert v in g && !ProperAncestor(g, v, v);
    if v !in s {
      var w :| w in g[v] && w !in s;
      ParentIsProperAncestor(g, v, w);
      AncestorReaches(g, v, w);
      forall u | Reaches(g, w, u) ensures u in g && !ProperAncestor(g, u, u) {
        AncestorThenReach(g, v, w, u);
      }
      forall u | u in seen + {v} ensures ProperAncestor(g, u, w) {
        if u in seen { AncestorThenReach(g, u, v, w); }
      }
      assert v !in seen;
      RootedIsIncluded(g, s, w, seen + {v});
    }
  }

  /** A topological order lists the whole graph exactly when the graph is acyclic and contains every parent it names. */
  lemma CompleteIffAcyclicAndClosed(g: Graph, order: seq<Hash>)
    requires IsTopologicalOrder(g, order)
    ensures (forall v :: v in g ==> v in order) <==> Acyclic(g) && ParentClosed(g)
  {
    if forall v :: v in g ==> v in order {
      forall v | v in g ensures !ProperAncestor(g, v, v) {
        assert Rooted(g, v);
        ReachesSelf(g, v);
      }
      forall v, p | v in g && p in g[v] ensures p in g {
        assert Rooted(g, v);
        ParentIsProperAncestor(g, v, p);
        AncestorReaches(g, v, p);
      }
    }
    if Acyclic(g) && ParentClosed(g) {
      forall v | v in g ensures v in order {
        forall u | Reaches(g, v, u) ensures u in g && !ProperAncestor(g, u, u) {
          ReachedStaysInside(g, g.Keys, v, u);
        }
      }
    }
  }

  /** Whatever order a map is iterated in, two topological orders list the same vertices, each once. */
  lemma OrdersArePermutations(g: Graph, o1: seq<Hash>, o2: seq<Hash>)
    requires IsTopologicalOrder(g, o1) && IsTopologicalOrder(g, o2)
    ensures multiset(o1) == multiset(o2)
  {
    forall v ensures multiset(o1)[v] == multiset(o2)[v] {
      assert v in o1 <==> v in o2;
      CountOfNoRepeats(o1, v);
      CountOfNoRepeats(o2, v);
    }
  }
}
