/** The vertex graph behind parallel ordering: ancestor search and Kahn's topological sort. */
module DagOrdering {
  import opened Lists
  import opened ParentGraph

  datatype DagVertex = DagVertex(hash: Hash, parents: seq<Hash>, timestamp: nat, round: nat, isBlock: bool)

  /** Every hash a graph mentions. */
  ghost function Mentioned(g: Graph): set<Hash> {
    g.Keys + set v, i | v in g && 0 <= i < |g[v]| :: g[v][i]
  }

  /** How many of the listed parents (with repetition) are not in `done`. */
  ghost function Waiting(parents: seq<Hash>, done: set<Hash>): nat {
    if parents == [] then 0
    else (if parents[0] in done then 0 else 1) + Waiting(parents[1..], done)
  }

  lemma {:induction false} WaitingNone(parents: seq<Hash>)
    ensures Waiting(parents, {}) == |parents|
  {
    if parents != [] { WaitingNone(parents[1..]); }
  }

  lemma {:induction false} WaitingZero(parents: seq<Hash>, done: set<Hash>)
    ensures Waiting(parents, done) == 0 <==> forall p :: p in parents ==> p in done
  {
    if parents != [] {
      WaitingZero(parents[1..], done);
      assert parents == [parents[0]] + parents[1..];
    }
  }

  /** Finishing one parent releases each of its occurrences. */
  lemma {:induction false} WaitingRelease(parents: seq<Hash>, done: set<Hash>, x: Hash)
    requires x !in done
    ensures Waiting(parents, done) == Waiting(parents, done + {x}) + Occurrences(parents, x)
  {
    if parents != [] {
      WaitingRelease(parents[1..], done, x);
      assert parents == [parents[0]] + parents[1..];
    }
  }

  function Neighbors(adj: map<Hash, seq<Hash>>, p: Hash): seq<Hash> {
    if p in adj then adj[p] else []
  }

  /** How often adj lists child h under parent p. */
  ghost function Listed(adj: map<Hash, seq<Hash>>, p: Hash, h: Hash): nat {
    multiset(Neighbors(adj, p))[h]
  }

  ghost function Occurrences(s: seq<Hash>, x: Hash): nat {
    multiset(s)[x]
  }

  lemma OccurrencesSnoc(s: seq<Hash>, y: Hash, x: Hash)
    ensures Occurrences(s + [y], x) == Occurrences(s, x) + if x == y then 1 else 0
  {
  }

  lemma OccurrencesCons(y: Hash, s: seq<Hash>, x: Hash)
    ensures Occurrences([y] + s, x) == Occurrences(s, x) + if x == y then 1 else 0
  {
  }

  lemma OccurrencesNone(s: seq<Hash>)
    requires s == []
    ensures forall x :: Occurrences(s, x) == 0
  {
  }

  lemma ListedIsOccurrences(adj: map<Hash, seq<Hash>>, p: Hash, h: Hash)
    ensures Listed(adj, p, h) == Occurrences(Neighbors(adj, p), h)
  {
  }

  /** adj lists child h under parent p as often as h's parent list names p, for the children scanned so far. */
  ghost predicate AdjMatches(g: Graph, adj: map<Hash, seq<Hash>>, scanned: set<Hash>)
    requires scanned <= g.Keys
  {
    forall p, h :: Listed(adj, p, h) == if h in scanned then Occurrences(g[h], p) else 0
  }

  class DagOrdering {
    var vertices: map<Hash, DagVertex>
    var edges: map<Hash, seq<Hash>>

    ghost predicate Valid()
      reads this
    {
      edges == map h | h in vertices :: vertices[h].parents
    }

    constructor ()
      ensures Valid() && edges == map[]
    {
      vertices, edges := map[], map[];
    }

    /** A vertex added again replaces its parent list. */
    method AddVertex(vertex: DagVertex)
      requires Valid()
      modifies this
      ensures Valid()
      ensures vertices == old(vertices)[vertex.hash := vertex]
      ensures edges == old(edges)[vertex.hash := vertex.parents]
    {
      vertices := vertices[vertex.hash := vertex];
      edges := edges[vertex.hash := vertex.parents];
    }

    /** Terminates on every graph, and lists exactly what `hash` reaches, itself first, without repetition. */
    method GetAncestors(hash: Hash) returns (result: seq<Hash>)
      ensures NoRepeats(result) && |result| > 0 && result[0] == hash
      ensures forall u :: u in result <==> Reaches(edges, hash, u)
    {
      hide Frontier;
      var visited: map<Hash, bool> := map[];
      result := [];
      var stack := [hash];
      ghost var universe := Mentioned(edges) + {hash};
      FrontierAtStart(edges, hash);
      assert visited.Keys == {};
      while stack != []
        invariant NoRepeats(result) && forall u :: u in result <==> u in visited
        invariant visited.Keys <= universe && Frontier(edges, hash, visited.Keys, stack)
        invariant if result == [] then stack == [hash] else result[0] == hash
        decreases universe - visited.Keys, |stack|
      {
        var current := stack[|stack| - 1];
        FrontierPop(edges, hash, visited.Keys, stack);
        ghost var before := stack;
        stack := stack[..|stack| - 1];
        if current in visited {
          continue;
        }
        ghost var seen := visited.Keys;
        visited := visited[current := true];
        assert visited.Keys == seen + {current};
        result := result + [current];
        if current in edges {
          stack := PushAll(stack, edges[current]);
        }
        SmallerRest(universe, seen, current);
      }
      FrontierDone(edges, hash, visited.Keys);
    }

    method PushAll(base: seq<Hash>, parents: seq<Hash>) returns (stack: seq<Hash>)
      ensures stack == base + parents
    {
      stack := base;
      for i := 0 to |parents|
        invariant stack == base + parents[..i]
      {
        stack := stack + [parents[i]];
      }
      assert parents[..|parents|] == parents;
    }

    /** Kahn's algorithm. The maps are scanned in arbitrary order, so the contract holds for every order. */
    method TopologicalSort() returns (result: seq<Hash>)
      requires Valid()
      ensures IsTopologicalOrder(edges, result)
    {
      hide Waiting, NoRepeats, AdjMatches;
      var inDegree, adj := CountParents();
      var queue := ZeroDegrees(inDegree);
      result := [];
      assert result + queue == queue;
      ghost var g := edges;
      ghost var done: set<Hash> := {};
      forall h | h in g ensures inDegree[h] == Waiting(g[h], done) { WaitingNone(g[h]); }
      while queue != []
        invariant inDegree.Keys == g.Keys
        invariant done == set u | u in result
        invariant forall h :: h in g ==> inDegree[h] == Waiting(g[h], done)
        invariant NoRepeats(result + queue)
        invariant forall h :: h in result + queue <==> h in inDegree && inDegree[h] == 0
        invariant ParentsFirst(g, result)
        decreases g.Keys - done
      {
        var current := queue[0];
        ghost var pending := result + queue;
        HeadIsNew(result, queue);
        assert current in pending;
        queue := queue[1..];
        WaitingZero(g[current], done);
        result := AppendParentsFirst(g, result, current);
        assert result + queue == pending;
        ghost var finished := done + {current};
        inDegree, queue := Release(g, adj, inDegree, result, queue, done, current);
        assert finished == set u | u in result;
        done := finished;
      }
      assert result + queue == result;
      Complete(g, inDegree, done, result);
    }

    /** First pass: in-degrees with multiplicity, and the child lists. */
    method CountParents() returns (inDegree: map<Hash, nat>, adj: map<Hash, seq<Hash>>)
      requires Valid()
      ensures inDegree == map h | h in edges :: |edges[h]|
      ensures AdjMatches(edges, adj, edges.Keys)
    {
      inDegree, adj := map[], map[];
      var todo := vertices.Keys;
      ghost var g := edges;
      while todo != {}
        invariant todo <= g.Keys
        invariant inDegree == map h | h in g.Keys - todo :: |g[h]|
        invariant AdjMatches(g, adj, g.Keys - todo)
        decreases todo
      {
        var hash :| hash in todo;
        ghost var scanned := g.Keys - todo;
        todo := todo - {hash};
        assert scanned + {hash} == g.Keys - todo;
        inDegree, adj := ScanVertex(g, hash, vertices[hash].parents, inDegree, adj, scanned);
      }
    }
  }

  /** What the search knows: everything visited or stacked is reached, and the parents of everything visited are visited
      or stacked. */
  ghost predicate Frontier(g: Graph, hash: Hash, visited: set<Hash>, stack: seq<Hash>) {
    && (forall u :: u in visited || u in stack ==> Reaches(g, hash, u) && u in Mentioned(g) + {hash})
    && (forall v, u :: v in visited && v in g && u in g[v] ==> u in visited || u in stack)
    && (hash in visited || hash in stack)
  }

  lemma FrontierAtStart(g: Graph, hash: Hash)
    ensures Frontier(g, hash, {}, [hash])
  {
    ReachesSelf(g, hash);
  }

  /** Popping a visited vertex loses nothing; visiting a new one pushes its parents. */
  lemma FrontierPop(g: Graph, hash: Hash, visited: set<Hash>, stack: seq<Hash>)
    requires stack != [] && Frontier(g, hash, visited, stack)
    ensures var current, rest := stack[|stack| - 1], stack[..|stack| - 1];
            && current in Mentioned(g) + {hash}
            && (current in visited ==> Frontier(g, hash, visited, rest))
            && Frontier(g, hash, visited + {current}, if current in g then rest + g[current] else rest)
  {
    var current, rest := stack[|stack| - 1], stack[..|stack| - 1];
    assert stack == rest + [current];
    if current in g { PushedParents(g, hash, current); }
  }

  lemma FrontierDone(g: Graph, hash: Hash, visited: set<Hash>)
    requires Frontier(g, hash, visited, [])
    ensures forall u :: u in visited <==> Reaches(g, hash, u)
  {
    forall u | Reaches(g, hash, u) ensures u in visited {
      ReachedStaysInside(g, visited, hash, u);
    }
  }

  lemma SmallerRest(universe: set<Hash>, seen: set<Hash>, x: Hash)
    requires x in universe && x !in seen
    ensures universe - (seen + {x}) < universe - seen
  {
    assert x in universe - seen;
  }

  lemma PushedParents(g: Graph, hash: Hash, current: Hash)
    requires Reaches(g, hash, current) && current in g
    ensures forall u :: u in g[current] ==> Reaches(g, hash, u) && u in Mentioned(g)
  {
    forall u | u in g[current] ensures Reaches(g, hash, u) && u in Mentioned(g) {
      ParentIsProperAncestor(g, current, u);
      ReachThenAncestor(g, hash, current, u);
      AncestorReaches(g, hash, u);
      var i :| 0 <= i < |g[current]| && g[current][i] == u;
    }
  }

  method ScanVertex(ghost g: Graph, hash: Hash, parents: seq<Hash>, inDegree0: map<Hash, nat>,
                    adj0: map<Hash, seq<Hash>>, ghost scanned: set<Hash>)
    returns (inDegree: map<Hash, nat>, adj: map<Hash, seq<Hash>>)
    requires hash in g && parents == g[hash] && scanned <= g.Keys - {hash}
    requires inDegree0 == map h | h in scanned :: |g[h]|
    requires AdjMatches(g, adj0, scanned)
    ensures inDegree == map h | h in scanned + {hash} :: |g[h]|
    ensures AdjMatches(g, adj, scanned + {hash})
  {
    hide Listed;
    adj := adj0;
    inDegree := inDegree0[hash := 0];
    for i := 0 to |parents|
      invariant inDegree == inDegree0[hash := i]
      invariant forall p, h :: Listed(adj, p, h) ==
                               if h == hash then Occurrences(parents[..i], p)
                               else if h in scanned then Occurrences(g[h], p) else 0
    {
      var parent := parents[i];
      ghost var before := adj;
      adj := adj[parent := Neighbors(adj, parent) + [hash]];
      inDegree := inDegree[hash := inDegree[hash] + 1];
      assert parents[..i + 1] == parents[..i] + [parent];
      forall p, h
        ensures Listed(adj, p, h) ==
                if h == hash then Occurrences(parents[..i + 1], p)
                else if h in scanned then Occurrences(g[h], p) else 0
      {
        OccurrencesSnoc(parents[..i], parent, p);
        ListedAfter(before, parent, hash, p, h);
        assert Listed(before, p, h) == if h == hash then Occurrences(parents[..i], p)
                                       else if h in scanned then Occurrences(g[h], p) else 0;
      }
    }
    assert parents[..|parents|] == parents;
  }

  lemma ListedAfter(adj: map<Hash, seq<Hash>>, parent: Hash, child: Hash, p: Hash, h: Hash)
    ensures Listed(adj[parent := Neighbors(adj, parent) + [child]], p, h) ==
            Listed(adj, p, h) + if p == parent && h == child then 1 else 0
  {
    OccurrencesSnoc(Neighbors(adj, parent), child, h);
  }

  /** The initial queue: the vertices of in-degree zero, in whatever order the map yields them. */
  method ZeroDegrees(inDegree: map<Hash, nat>) returns (queue: seq<Hash>)
    ensures NoRepeats(queue)
    ensures forall h :: h in queue <==> h in inDegree && inDegree[h] == 0
  {
    queue := [];
    var todo := inDegree.Keys;
    while todo != {}
      invariant todo <= inDegree.Keys && NoRepeats(queue)
      invariant forall h :: h in queue <==> h in inDegree.Keys - todo && inDegree[h] == 0
      decreases todo
    {
      var h :| h in todo;
      todo := todo - {h};
      if inDegree[h] == 0 {
        queue := queue + [h];
      }
    }
  }

  function AppendParentsFirst(ghost g: Graph, result: seq<Hash>, current: Hash): (r: seq<Hash>)
    requires ParentsFirst(g, result)
    requires current in g ==> forall p :: p in g[current] ==> p in result
    ensures r == result + [current] && ParentsFirst(g, r)
  {
    assert forall i :: 0 <= i < |result| ==> (result + [current])[..i] == result[..i];
    assert (result + [current])[..|result|] == result;
    result + [current]
  }

  /** Second pass, one popped vertex: each child occurrence is released, and a child left without waiting parents
      joins the queue. The subtraction never underflows. */
  method Release(ghost g: Graph, adj: map<Hash, seq<Hash>>, inDegree0: map<Hash, nat>, ghost result: seq<Hash>,
                 queue0: seq<Hash>, ghost done: set<Hash>, current: Hash)
    returns (inDegree: map<Hash, nat>, queue: seq<Hash>)
    requires inDegree0.Keys == g.Keys && AdjMatches(g, adj, g.Keys) && current !in done
    requires forall h :: h in g ==> inDegree0[h] == Waiting(g[h], done)
    requires NoRepeats(result + queue0)
    requires forall h :: h in result + queue0 <==> h in inDegree0 && inDegree0[h] == 0
    ensures inDegree.Keys == g.Keys
    ensures forall h :: h in g ==> inDegree[h] == Waiting(g[h], done + {current})
    ensures NoRepeats(result + queue)
    ensures forall h :: h in result + queue <==> h in inDegree && inDegree[h] == 0
  {
    hide NoRepeats, Waiting, Occurrences, Listed, Neighbors;
    inDegree, queue := inDegree0, queue0;
    var neighbors := Neighbors(adj, current);
    forall h | h in g
      ensures inDegree0[h] == Waiting(g[h], done + {current}) + Occurrences(neighbors, h)
    {
      WaitingRelease(g[h], done, current);
      ListedIsOccurrences(adj, current, h);
      assert Listed(adj, current, h) == Occurrences(g[h], current);
    }
    assert neighbors[0..] == neighbors;
    for i := 0 to |neighbors|
      invariant inDegree.Keys == g.Keys
      invariant forall h :: h in g ==>
                  inDegree[h] == Waiting(g[h], done + {current}) + Occurrences(neighbors[i..], h)
      invariant NoRepeats(result + queue)
      invariant forall h :: h in result + queue <==> h in inDegree && inDegree[h] == 0
    {
      var neighbor := neighbors[i];
      assert neighbors[i..] == [neighbor] + neighbors[i + 1..];
      forall h
        ensures Occurrences(neighbors[i..], h) == Occurrences(neighbors[i + 1..], h) + if h == neighbor then 1 else 0
      {
        OccurrencesCons(neighbor, neighbors[i + 1..], h);
      }
      NeighborIsVertex(g, adj, current, i);
      if neighbor in inDegree {
        inDegree, queue := Decrement(inDegree, result, queue, neighbor);
      }
    }
    OccurrencesNone(neighbors[|neighbors|..]);
  }

  method Decrement(inDegree0: map<Hash, nat>, ghost result: seq<Hash>, queue0: seq<Hash>, neighbor: Hash)
    returns (inDegree: map<Hash, nat>, queue: seq<Hash>)
    requires neighbor in inDegree0 && inDegree0[neighbor] >= 1
    requires NoRepeats(result + queue0)
    requires forall h :: h in result + queue0 <==> h in inDegree0 && inDegree0[h] == 0
    ensures inDegree == inDegree0[neighbor := inDegree0[neighbor] - 1]
    ensures NoRepeats(result + queue)
    ensures forall h :: h in result + queue <==> h in inDegree && inDegree[h] == 0
  {
    var degree := inDegree0[neighbor] - 1;
    inDegree, queue := inDegree0[neighbor := degree], queue0;
    if degree == 0 {
      queue := queue + [neighbor];
      SnocIsNew(result + queue0, neighbor);
      assert result + queue == (result + queue0) + [neighbor];
    }
  }

  lemma NeighborIsVertex(g: Graph, adj: map<Hash, seq<Hash>>, p: Hash, i: nat)
    requires AdjMatches(g, adj, g.Keys) && i < |Neighbors(adj, p)|
    ensures Neighbors(adj, p)[i] in g
  {
    assert Listed(adj, p, Neighbors(adj, p)[i]) > 0;
  }

  lemma Complete(g: Graph, inDegree: map<Hash, nat>, done: set<Hash>, result: seq<Hash>)
    requires inDegree.Keys == g.Keys && done == set u | u in result
    requires forall h :: h in g ==> inDegree[h] == Waiting(g[h], done)
    requires NoRepeats(result) && ParentsFirst(g, result)
    requires forall h :: h in result <==> h in inDegree && inDegree[h] == 0
    ensures IsTopologicalOrder(g, result)
  {
    forall v | v in result ensures v in g && Rooted(g, v) {
      var i :| 0 <= i < |result| && result[i] == v;
      ListedIsRooted(g, result, i);
    }
    forall v | v in g && Rooted(g, v) ensures v in result {
      forall u | u in g && (forall w :: w in g[u] ==> w in done) ensures u in done {
        WaitingZero(g[u], done);
      }
      RootedIsIncluded(g, done, v, {});
    }
  }

  /** For every vertex of a topological order, its whole ancestor listing stands at or before it. */
  lemma AncestorListPrecedes(g: Graph, order: seq<Hash>, i: nat, ancestors: seq<Hash>)
    requires IsTopologicalOrder(g, order) && i < |order|
    requires forall u :: u in ancestors <==> Reaches(g, order[i], u)
    ensures forall u :: u in ancestors ==> u in order[..i + 1]
  {
    forall u | u in ancestors ensures u in order[..i + 1] {
      AncestorsAtOrBefore(g, order, i, u);
    }
  }
}
