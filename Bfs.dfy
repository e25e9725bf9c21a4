/**
 * Breadth-first search over an UndirectedGraph: every vertex is reset to
 * INFINITY / no predecessor, then a FIFO queue loop annotates each vertex
 * reachable from the source with its hop count and the neighbour it was
 * discovered from.
 *
 * The loop is proved against the predicate ShortestPaths: the annotations
 * form a predecessor tree rooted at the source, a vertex is annotated iff
 * it is reachable, and no path is shorter than the recorded distance.
 */
module Bfs {
  import opened Wrappers
  import opened Vertices
  import opened Graphs
  import Sums

  type Arena = map<string, Vertex>

  /** The vertex has been reached (its distance is no longer the sentinel). */
  ghost predicate Visited(vs: Arena, n: string) {
    n in vs && vs[n].distance != INFINITY
  }

  /** The predecessor annotation of a vertex other than the source. */
  ghost predicate TreeLink(adj: Adjacency, vs: Arena, n: string)
    requires n in vs
  {
    if vs[n].distance == INFINITY then vs[n].predecessor == None
    else
      && 0 < vs[n].distance
      && vs[n].predecessor.Some?
      && vs[n].predecessor.value in vs
      && vs[vs[n].predecessor.value].distance + 1 == vs[n].distance
      && Adjacent(adj, vs[n].predecessor.value, n)
  }

  /**
   * The annotations form a predecessor tree rooted at `src`: the source is at
   * distance 0 with no predecessor, every other reached vertex hangs off an
   * adjacent vertex one step closer, and unreached vertices have none.
   */
  ghost predicate Tree(adj: Adjacency, vs: Arena, src: string) {
    && src in vs && vs[src].distance == 0 && vs[src].predecessor == None
    && (forall n :: n in vs ==> Labelled(adj, vs, src, n))
  }

  /** A distance in range, and the tree link unless `n` is the root. */
  ghost predicate Labelled(adj: Adjacency, vs: Arena, src: string, n: string)
    requires n in vs
  {
    IsDistance(vs[n].distance) && (n != src ==> TreeLink(adj, vs, n))
  }

  /** No path from `src` is shorter than a recorded distance. */
  ghost predicate NoShortcut(adj: Adjacency, vs: Arena, src: string) {
    forall n, p :: Visited(vs, n) && PathBetween(adj, p, src, n) ==> |p| - 1 >= vs[n].distance
  }

  /** What breadth-first search from `src` establishes. */
  ghost predicate ShortestPaths(adj: Adjacency, vs: Arena, src: string) {
    && Tree(adj, vs, src)
    && (forall n :: n in vs ==> (Visited(vs, n) <==> Reachable(adj, src, n)))
    && NoShortcut(adj, vs, src)
  }

  /** `d` is the number of edges of a shortest path from `src` to `n`. */
  ghost predicate IsShortest(adj: Adjacency, src: string, n: string, d: int) {
    && (exists p :: PathBetween(adj, p, src, n) && |p| == d + 1)
    && (forall p :: PathBetween(adj, p, src, n) ==> |p| >= d + 1)
  }

  // ---------------------------------------------------------------------
  // Loop invariants of the queue loop
  // ---------------------------------------------------------------------

  /**
   * The part of the invariant that holds throughout: `order` is the history
   * of enqueued vertices (each once, in non-decreasing distance order), and
   * it holds exactly the reached vertices.
   */
  ghost predicate Core(adj: Adjacency, vs: Arena, src: string, order: seq<string>) {
    && (forall n :: n in vs <==> n in adj)
    && (forall n :: n in vs ==> vs[n].name == n)
    && Tree(adj, vs, src)
    && (forall i :: 0 <= i < |order| ==> Entry(vs, order, i))
    && (forall n :: Visited(vs, n) ==> n in order)
    && (forall i, j :: 0 <= i < j < |order| ==> Before(vs, order, i, j))
    && NoShortcut(adj, vs, src)
    && |order| <= |adj|
  }

  /** Entry i of the history is a reached vertex at distance at most i. */
  ghost predicate Entry(vs: Arena, order: seq<string>, i: int)
    requires 0 <= i < |order|
  {
    Visited(vs, order[i]) && vs[order[i]].distance <= i
  }

  /** Entries i < j are different vertices, and the later one is not closer. */
  ghost predicate Before(vs: Arena, order: seq<string>, i: int, j: int)
    requires 0 <= i < j < |order|
  {
    order[i] != order[j] && order[i] in vs && order[j] in vs
    && vs[order[i]].distance <= vs[order[j]].distance
  }

  /** Entry i is at most one step beyond `level`. */
  ghost predicate Near(vs: Arena, order: seq<string>, i: int, level: int)
    requires 0 <= i < |order|
  {
    order[i] in vs && vs[order[i]].distance <= level + 1
  }

  /** Every neighbour of the first `k` dequeued vertices has been reached. */
  ghost predicate Closed(adj: Adjacency, vs: Arena, order: seq<string>, k: int)
    requires 0 <= k <= |order|
  {
    forall i, m :: 0 <= i < k && Adjacent(adj, order[i], m) ==> Visited(vs, m)
  }

  /** The invariant of the outer loop; the queue is order[head..]. */
  ghost predicate Outer(adj: Adjacency, vs: Arena, src: string, order: seq<string>, head: int) {
    && 0 <= head <= |order|
    && Core(adj, vs, src, order)
    && (head < |order| ==>
          Entry(vs, order, head)
          && forall i :: head <= i < |order| ==> Near(vs, order, i, vs[order[head]].distance))
    && Closed(adj, vs, order, head)
  }

  /**
   * The invariant of the inner loop over the neighbours of `cur`, the vertex
   * just dequeued; `rest` are the neighbours not yet looked at.
   */
  ghost predicate Inner(adj: Adjacency, vs: Arena, src: string, order: seq<string>, head: int,
                        cur: string, rest: set<string>) {
    && 1 <= head <= |order|
    && cur == order[head - 1]
    && Core(adj, vs, src, order)
    && cur in adj && rest <= adj[cur]
    && (forall i :: head - 1 <= i < |order| ==> Near(vs, order, i, vs[cur].distance))
    && Closed(adj, vs, order, head - 1)
    && (forall m :: Adjacent(adj, cur, m) && m !in rest ==> Visited(vs, m))
  }

  // ---------------------------------------------------------------------
  // Lemmas about paths
  // ---------------------------------------------------------------------

  /** A path that starts at a reached vertex and ends at an unreached one crosses the frontier. */
  lemma FirstUnvisited(vs: Arena, p: seq<string>) returns (j: int)
    requires |p| >= 1 && Visited(vs, p[0]) && !Visited(vs, p[|p| - 1])
    ensures 1 <= j < |p| && Visited(vs, p[j - 1]) && !Visited(vs, p[j])
  {
    j := 1;
    while Visited(vs, p[j])
      invariant 1 <= j < |p| && Visited(vs, p[j - 1])
      decreases |p| - j
    {
      j := j + 1;
    }
  }

  lemma PrefixPath(adj: Adjacency, p: seq<string>, s: string, t: string, j: int)
    requires PathBetween(adj, p, s, t) && 1 <= j <= |p|
    ensures PathBetween(adj, p[..j], s, p[j - 1])
  {
  }

  /** Following predecessors from a reached vertex gives a path of exactly its distance. */
  lemma {:induction false} TreePath(adj: Adjacency, vs: Arena, src: string, n: string) returns (p: seq<string>)
    requires Tree(adj, vs, src) && (forall m :: m in vs ==> m in adj)
    requires Visited(vs, n)
    ensures PathBetween(adj, p, src, n) && |p| == vs[n].distance + 1
    decreases vs[n].distance
  {
    if n == src {
      p := [src];
    } else {
      assert Labelled(adj, vs, src, n);
      var q := vs[n].predecessor.value;
      var p' := TreePath(adj, vs, src, q);
      p := p' + [n];
      assert p[|p| - 2] == q;
    }
  }

  /** The two halves of ShortestPaths give the shortest-path distance. */
  lemma BfsDistanceIsShortest(adj: Adjacency, vs: Arena, src: string, n: string)
    requires ShortestPaths(adj, vs, src) && (forall m :: m in vs ==> m in adj)
    requires Visited(vs, n)
    ensures IsShortest(adj, src, n, vs[n].distance)
  {
    var p := TreePath(adj, vs, src, n);
  }

  lemma ShortestUnique(adj: Adjacency, src: string, n: string, d1: int, d2: int)
    requires IsShortest(adj, src, n, d1) && IsShortest(adj, src, n, d2)
    ensures d1 == d2
  {
    var p1 :| PathBetween(adj, p1, src, n) && |p1| == d1 + 1;
    var p2 :| PathBetween(adj, p2, src, n) && |p2| == d2 + 1;
  }

  /**
   * Two runs of the search from the same source over the same edges (say, a
   * rerun after the annotations were reset) agree on every distance, and
   * hence on which vertices are reached.
   */
  lemma RerunSameDistances(adj: Adjacency, vs1: Arena, vs2: Arena, src: string, n: string)
    requires ShortestPaths(adj, vs1, src) && ShortestPaths(adj, vs2, src)
    requires forall m :: m in vs1 ==> m in adj
    requires forall m :: m in vs2 ==> m in adj
    requires n in vs1 && n in vs2
    ensures vs1[n].distance == vs2[n].distance
    ensures vs1[n].distance == INFINITY ==> vs1[n].predecessor == None && vs2[n].predecessor == None
  {
    if Visited(vs1, n) {
      BfsDistanceIsShortest(adj, vs1, src, n);
      BfsDistanceIsShortest(adj, vs2, src, n);
      ShortestUnique(adj, src, n, vs1[n].distance, vs2[n].distance);
    } else if n != src {
      assert Labelled(adj, vs1, src, n) && Labelled(adj, vs2, src, n);
    }
  }

  // ---------------------------------------------------------------------
  // Steps of the queue loop
  // ---------------------------------------------------------------------

  lemma DistinctCard(order: seq<string>)
    requires forall i, j :: 0 <= i < j < |order| ==> order[i] != order[j]
    ensures |set x | x in order| == |order|
  {
    if order != [] {
      var last := order[|order| - 1];
      var init := order[..|order| - 1];
      DistinctCard(init);
      assert (set x | x in order) == (set x | x in init) + {last};
    }
  }

  /** After the reset and the source's distance 0, the outer invariant holds with the queue [src]. */
  lemma InitialState(adj: Adjacency, vs: Arena, src: string)
    requires forall n :: n in vs <==> n in adj
    requires forall n :: n in vs ==> vs[n] == NewVertex(n)
    requires src in vs
    ensures Outer(adj, vs[src := Vertex(src, 0, None)], src, [src], 0)
  {
    var vs' := vs[src := Vertex(src, 0, None)];
    forall n | n in vs'
      ensures Labelled(adj, vs', src, n)
    {
      if n != src {
        assert vs'[n] == NewVertex(n);
      }
    }
    forall n, p | Visited(vs', n) && PathBetween(adj, p, src, n)
      ensures |p| - 1 >= vs'[n].distance
    {
      assert n == src;
    }
    assert Entry(vs', [src], 0);
    assert Near(vs', [src], 0, 0);
    assert |adj| >= 1 by {
      assert src in adj;
    }
  }

  lemma EnterInner(adj: Adjacency, vs: Arena, src: string, order: seq<string>, head: int)
    requires Outer(adj, vs, src, order, head) && head < |order|
    ensures order[head] in adj
    ensures Inner(adj, vs, src, order, head + 1, order[head], adj[order[head]])
  {
    assert Entry(vs, order, head);
  }

  lemma LeaveInner(adj: Adjacency, vs: Arena, src: string, order: seq<string>, head: int, cur: string)
    requires Inner(adj, vs, src, order, head, cur, {})
    ensures Outer(adj, vs, src, order, head)
  {
    forall i, m | 0 <= i < head && Adjacent(adj, order[i], m)
      ensures Visited(vs, m)
    {
      if i == head - 1 {
        assert Adjacent(adj, cur, m);
      }
    }
    if head < |order| {
      assert Before(vs, order, head - 1, head);
      forall i | head <= i < |order|
        ensures Near(vs, order, i, vs[order[head]].distance)
      {
        assert Near(vs, order, i, vs[cur].distance);
      }
    }
  }

  lemma SkipNeighbour(adj: Adjacency, vs: Arena, src: string, order: seq<string>, head: int,
                      cur: string, rest: set<string>, nb: string)
    requires Inner(adj, vs, src, order, head, cur, rest) && nb in rest && Visited(vs, nb)
    ensures Inner(adj, vs, src, order, head, cur, rest - {nb})
  {
  }

  /** The newly reached neighbour is at least one step further than `cur` along any path. */
  lemma VisitNoShortcut(adj: Adjacency, vs: Arena, src: string, order: seq<string>, head: int,
                        cur: string, rest: set<string>, nb: string, p: seq<string>)
    requires Symmetric(adj)
    requires Inner(adj, vs, src, order, head, cur, rest) && nb in rest && !Visited(vs, nb)
    requires PathBetween(adj, p, src, nb)
    ensures |p| - 1 >= vs[cur].distance + 1
  {
    var j := FirstUnvisited(vs, p);
    var u := p[j - 1];
    PrefixPath(adj, p, src, nb, j);
    assert j - 1 >= vs[u].distance;
    var k :| 0 <= k < |order| && order[k] == u;
    // u has an unreached neighbour, so it was not dequeued before cur.
    assert Adjacent(adj, order[k], p[j]);
    assert k >= head - 1;
    if k > head - 1 {
      assert Before(vs, order, head - 1, k);
    }
  }

  /** An unreached vertex leaves room in the history for one more entry. */
  lemma VisitRoom(adj: Adjacency, vs: Arena, src: string, order: seq<string>, nb: string)
    requires Core(adj, vs, src, order) && nb in adj && !Visited(vs, nb)
    ensures |order| + 1 <= |adj|
  {
    forall i, j | 0 <= i < j < |order|
      ensures order[i] != order[j]
    {
      assert Before(vs, order, i, j);
    }
    DistinctCard(order);
    forall k | 0 <= k < |order|
      ensures order[k] != nb
    {
      assert Entry(vs, order, k);
    }
    ghost var seen := (set x | x in order) + {nb};
    assert seen <= adj.Keys by {
      forall x | x in seen
        ensures x in adj
      {
        if x != nb {
          var k :| 0 <= k < |order| && order[k] == x;
          assert Entry(vs, order, k);
        }
      }
    }
    assert |seen| == |order| + 1;
    if seen != adj.Keys {
      Sums.ProperSubsetCard(seen, adj.Keys);
    }
  }

  lemma VisitTree(adj: Adjacency, vs: Arena, src: string, cur: string, nb: string, d: int)
    requires Tree(adj, vs, src) && Visited(vs, cur) && nb in vs && !Visited(vs, nb)
    requires Adjacent(adj, cur, nb) && d == vs[cur].distance + 1 < INFINITY
    ensures Tree(adj, vs[nb := Vertex(nb, d, Some(cur))], src)
  {
    var vs' := vs[nb := Vertex(nb, d, Some(cur))];
    assert Labelled(adj, vs, src, cur);
    forall n | n in vs'
      ensures Labelled(adj, vs', src, n)
    {
      if n != nb {
        assert Labelled(adj, vs, src, n);
        if n != src && vs[n].distance != INFINITY {
          assert vs[n].predecessor.value != nb;
        }
      }
    }
  }

  lemma VisitHistory(adj: Adjacency, vs: Arena, src: string, order: seq<string>, head: int,
                     cur: string, rest: set<string>, nb: string, d: int, vs': Arena, order': seq<string>)
    requires Inner(adj, vs, src, order, head, cur, rest) && nb in vs && !Visited(vs, nb)
    requires d == vs[cur].distance + 1 <= head && d < INFINITY
    requires vs' == vs[nb := Vertex(nb, d, Some(cur))] && order' == order + [nb]
    ensures forall i :: 0 <= i < |order'| ==> Entry(vs', order', i)
    ensures forall i, j :: 0 <= i < j < |order'| ==> Before(vs', order', i, j)
    ensures forall i :: head - 1 <= i < |order'| ==> Near(vs', order', i, vs[cur].distance)
  {
    forall i | 0 <= i < |order'|
      ensures Entry(vs', order', i)
    {
      if i < |order| {
        assert Entry(vs, order, i);
      }
    }
    forall i, j | 0 <= i < j < |order'|
      ensures Before(vs', order', i, j)
    {
      assert Entry(vs, order, i);
      if j < |order| {
        assert Entry(vs, order, j);
        assert Before(vs, order, i, j);
      } else if i < head - 1 {
        assert Before(vs, order, i, head - 1);
      } else {
        assert Near(vs, order, i, vs[cur].distance);
      }
    }
    forall i | head - 1 <= i < |order'|
      ensures Near(vs', order', i, vs[cur].distance)
    {
      if i < |order| {
        assert Entry(vs, order, i);
        assert Near(vs, order, i, vs[cur].distance);
      }
    }
  }

  lemma VisitShortcuts(adj: Adjacency, vs: Arena, src: string, order: seq<string>, head: int,
                       cur: string, rest: set<string>, nb: string)
    requires Symmetric(adj)
    requires Inner(adj, vs, src, order, head, cur, rest) && nb in rest && !Visited(vs, nb)
    ensures NoShortcut(adj, vs[nb := Vertex(nb, vs[cur].distance + 1, Some(cur))], src)
  {
    var vs' := vs[nb := Vertex(nb, vs[cur].distance + 1, Some(cur))];
    forall n, p | Visited(vs', n) && PathBetween(adj, p, src, n)
      ensures |p| - 1 >= vs'[n].distance
    {
      if n == nb {
        VisitNoShortcut(adj, vs, src, order, head, cur, rest, nb, p);
      } else {
        assert Visited(vs, n);
      }
    }
  }

  /** Reaching an unvisited neighbour of `cur` and enqueueing it keeps the inner invariant. */
  lemma VisitNeighbour(adj: Adjacency, vs: Arena, src: string, order: seq<string>, head: int,
                       cur: string, rest: set<string>, nb: string)
    requires Symmetric(adj) && |adj| <= INFINITY
    requires Inner(adj, vs, src, order, head, cur, rest) && nb in rest && !Visited(vs, nb)
    ensures vs[cur].distance + 1 < INFINITY
    ensures Inner(adj, vs[nb := Vertex(nb, vs[cur].distance + 1, Some(cur))], src, order + [nb],
                  head, cur, rest - {nb})
  {
    assert Adjacent(adj, cur, nb);
    assert nb in adj;
    var d := vs[cur].distance + 1;
    var vs' := vs[nb := Vertex(nb, d, Some(cur))];
    var order' := order + [nb];
    VisitRoom(adj, vs, src, order, nb);
    assert Entry(vs, order, head - 1);
    assert d <= head <= |order| < INFINITY;
    VisitTree(adj, vs, src, cur, nb, d);
    VisitHistory(adj, vs, src, order, head, cur, rest, nb, d, vs', order');
    VisitShortcuts(adj, vs, src, order, head, cur, rest, nb);
    assert forall m :: Visited(vs, m) ==> Visited(vs', m);
    assert Core(adj, vs', src, order');
    assert Closed(adj, vs', order', head - 1);
  }

  /** Once every reached vertex is dequeued, each path from the source stays among reached vertices. */
  lemma ClosedPathVisited(adj: Adjacency, vs: Arena, src: string, order: seq<string>, p: seq<string>, t: string)
    requires Outer(adj, vs, src, order, |order|)
    requires PathBetween(adj, p, src, t)
    ensures Visited(vs, t)
  {
    var i := 0;
    while i < |p| - 1
      invariant 0 <= i < |p| && Visited(vs, p[i])
    {
      var k :| 0 <= k < |order| && order[k] == p[i];
      assert Adjacent(adj, order[k], p[i + 1]);
      i := i + 1;
    }
  }

  lemma SuffixAppend(order: seq<string>, head: int, nb: string)
    requires 0 <= head <= |order|
    ensures (order + [nb])[head..] == order[head..] + [nb]
  {
  }

  /** The history lists each reached vertex exactly once. */
  lemma HistoryFacts(adj: Adjacency, vs: Arena, src: string, order: seq<string>)
    requires Core(adj, vs, src, order)
    ensures forall i, j :: 0 <= i < j < |order| ==> order[i] != order[j]
    ensures forall n :: n in vs ==> (Visited(vs, n) <==> n in order)
  {
    forall i, j | 0 <= i < j < |order|
      ensures order[i] != order[j]
    {
      assert Before(vs, order, i, j);
    }
    forall n | n in order
      ensures Visited(vs, n)
    {
      var k :| 0 <= k < |order| && order[k] == n;
      assert Entry(vs, order, k);
    }
  }

  /** When the queue is empty, the outer invariant gives ShortestPaths. */
  lemma FinalState(adj: Adjacency, vs: Arena, src: string, order: seq<string>)
    requires Outer(adj, vs, src, order, |order|)
    ensures ShortestPaths(adj, vs, src)
  {
    forall n | n in vs
      ensures Visited(vs, n) <==> Reachable(adj, src, n)
    {
      if Visited(vs, n) {
        var p := TreePath(adj, vs, src, n);
      }
      if Reachable(adj, src, n) {
        var p :| PathBetween(adj, p, src, n);
        ClosedPathVisited(adj, vs, src, order, p, n);
      }
    }
  }

  // ---------------------------------------------------------------------
  // The search
  // ---------------------------------------------------------------------

  /**
   * traverseBFS(g, source) where `source` is the graph's own vertex of that
   * name.  Returns, as ghost, the sequence of enqueued vertex names.
   */
  method TraverseBFS(g: UndirectedGraph, source: string) returns (ghost order: seq<string>)
    requires g.Valid()
    requires g.numVertices <= INFINITY
    modifies g`vertices
    ensures g.Valid()
    ensures source !in g.adj ==> g.vertices == old(g.vertices) && order == []
    ensures source in g.adj ==> ShortestPaths(g.adj, g.vertices, source)
    // Each vertex is enqueued at most once, and exactly the reached ones are.
    ensures forall i, j :: 0 <= i < j < |order| ==> order[i] != order[j]
    ensures source in g.adj ==> forall n :: n in g.vertices ==> (Visited(g.vertices, n) <==> n in order)
    ensures |order| <= g.numVertices
  {
    order := [];
    if g.GetVertex(source).None? {
      return;
    }
    // The search annotates a copy of the arena, stored back at the end.
    var vs;
    vs, order := Annotate(g, source);
    g.vertices := vs;
  }

  /** Reset every vertex, then label the source and run the queue loop. */
  method Annotate(g: UndirectedGraph, source: string) returns (vs: Arena, ghost order: seq<string>)
    requires g.Valid() && g.numVertices <= INFINITY
    requires source in g.adj
    ensures ShortestPaths(g.adj, vs, source)
    ensures forall i, j :: 0 <= i < j < |order| ==> order[i] != order[j]
    ensures forall n :: n in vs ==> (Visited(vs, n) <==> n in order)
    ensures forall n :: n in vs <==> n in g.adj
    ensures forall n :: n in vs ==> vs[n].name == n
    ensures |order| <= |g.adj|
  {
    var all := g.GetVertices();
    vs := ResetAll(g.vertices, all);
    InitialState(g.adj, vs, source);
    vs := vs[source := Vertex(source, 0, None)];
    vs, order := Search(g, vs, source);
  }

  /** The reset loop: every vertex listed in `all` gets distance INFINITY and no predecessor. */
  method ResetAll(vs0: Arena, all: seq<Vertex>) returns (vs: Arena)
    requires Names(all) == vs0.Keys
    ensures vs.Keys == vs0.Keys
    ensures forall n :: n in vs ==> vs[n] == NewVertex(n)
  {
    vs := vs0;
    for i := 0 to |all|
      invariant vs.Keys == vs0.Keys
      invariant forall j :: 0 <= j < i ==> vs[all[j].name] == NewVertex(all[j].name)
    {
      assert all[i].name in Names(all);
      vs := vs[all[i].name := NewVertex(all[i].name)];
    }
    forall n | n in vs
      ensures vs[n] == NewVertex(n)
    {
      var i :| 0 <= i < |all| && all[i].name == n;
    }
  }

  /** The queue loop, started with the queue [source]. */
  method Search(g: UndirectedGraph, vs0: Arena, source: string) returns (vs: Arena, ghost order: seq<string>)
    requires g.Valid() && g.numVertices <= INFINITY
    requires Outer(g.adj, vs0, source, [source], 0)
    ensures ShortestPaths(g.adj, vs, source)
    ensures forall i, j :: 0 <= i < j < |order| ==> order[i] != order[j]
    ensures forall n :: n in vs ==> (Visited(vs, n) <==> n in order)
    ensures forall n :: n in vs <==> n in g.adj
    ensures forall n :: n in vs ==> vs[n].name == n
    ensures |order| <= |g.adj|
  {
    vs := vs0;
    var queue := [source];
    order := [source];
    ghost var head := 0;
    while queue != []
      invariant Outer(g.adj, vs, source, order, head)
      invariant queue == order[head..]
      decreases |g.adj| - head
    {
      var cur := queue[0];
      queue := queue[1..];
      EnterInner(g.adj, vs, source, order, head);
      head := head + 1;
      vs, queue, order := ScanNeighbours(g, vs, source, cur, queue, order, head);
      LeaveInner(g.adj, vs, source, order, head, cur);
    }
    FinalState(g.adj, vs, source, order);
    HistoryFacts(g.adj, vs, source, order);
  }

  /**
   * The arena once the neighbours `done` of `cur` have been looked at: each
   * of them still at INFINITY is one step further than `cur`, with `cur` as
   * its predecessor; every other vertex is as it was.
   */
  ghost function Scanned(vs0: Arena, cur: string, done: set<string>): Arena
    requires cur in vs0
  {
    map n | n in vs0 :: if n in done && vs0[n].distance == INFINITY then Vertex(n, vs0[cur].distance + 1, Some(cur)) else vs0[n]
  }

  /**
   * What the neighbour loop has done so far, measured against the arena
   * `vs0` and history `order0` it started from: the neighbours `done` are
   * labelled as Scanned says, and exactly those of them that were at
   * INFINITY have been appended to the history.
   */
  ghost predicate Scanning(vs0: Arena, order0: seq<string>, cur: string, done: set<string>,
                           vs: Arena, order: seq<string>) {
    && Visited(vs0, cur)
    && vs == Scanned(vs0, cur, done)
    && order0 <= order
    && forall n :: n in order[|order0|..] <==> n in done && n in vs0 && vs0[n].distance == INFINITY
  }

  /** Labelling a neighbour still at INFINITY extends the scan by that neighbour. */
  lemma ScanVisit(vs0: Arena, order0: seq<string>, cur: string, done: set<string>,
                  vs: Arena, order: seq<string>, nb: string)
    requires Scanning(vs0, order0, cur, done, vs, order)
    requires nb !in done && nb in vs && vs[nb].distance == INFINITY
    ensures Scanning(vs0, order0, cur, done + {nb}, vs[nb := Vertex(nb, vs[cur].distance + 1, Some(cur))], order + [nb])
  {
    assert vs[nb := Vertex(nb, vs[cur].distance + 1, Some(cur))] == Scanned(vs0, cur, done + {nb});
    assert (order + [nb])[|order0|..] == order[|order0|..] + [nb];
  }

  /** Passing over an already reached neighbour extends the scan without change. */
  lemma ScanSkip(vs0: Arena, order0: seq<string>, cur: string, done: set<string>,
                 vs: Arena, order: seq<string>, nb: string)
    requires Scanning(vs0, order0, cur, done, vs, order)
    requires nb !in done && nb in vs && vs[nb].distance != INFINITY
    ensures Scanning(vs0, order0, cur, done + {nb}, vs, order)
  {
    assert vs == Scanned(vs0, cur, done + {nb});
  }

  /** Before the first neighbour nothing is done. */
  lemma ScanStart(vs0: Arena, order0: seq<string>, cur: string)
    requires Visited(vs0, cur)
    ensures Scanning(vs0, order0, cur, {}, vs0, order0)
  {
    assert vs0 == Scanned(vs0, cur, {});
  }

  /** Once every neighbour is done, the scan's results are those of the whole neighbourhood. */
  lemma ScanEnd(vs0: Arena, order0: seq<string>, cur: string, nbs: set<string>, vs: Arena, order: seq<string>)
    requires Scanning(vs0, order0, cur, nbs, vs, order)
    ensures cur in vs0 && vs == Scanned(vs0, cur, nbs)
    ensures order0 <= order
    ensures forall n :: n in order[|order0|..] <==> n in nbs && n in vs0 && vs0[n].distance == INFINITY
  {
  }

  /**
   * The for-each loop over the neighbours of the dequeued vertex `cur`:
   * every neighbour at INFINITY gets distance `cur`'s + 1 and predecessor
   * `cur` and is enqueued, exactly once; nothing else changes.
   */
  method ScanNeighbours(g: UndirectedGraph, vs0: Arena, source: string, cur: string, queue0: seq<string>,
                        ghost order0: seq<string>, ghost head: int)
    returns (vs: Arena, queue: seq<string>, ghost order: seq<string>)
    requires g.Valid() && g.numVertices <= INFINITY
    requires cur in g.adj && Inner(g.adj, vs0, source, order0, head, cur, g.adj[cur])
    requires queue0 == order0[head..]
    ensures Inner(g.adj, vs, source, order, head, cur, {})
    ensures queue == order[head..]
    ensures cur in vs0 && vs == Scanned(vs0, cur, g.adj[cur])
    ensures order0 <= order && queue == queue0 + order[|order0|..]
    ensures forall n :: n in order[|order0|..] <==> n in g.adj[cur] && n in vs0 && vs0[n].distance == INFINITY
  {
    vs, queue, order := vs0, queue0, order0;
    var rest := g.AdjacentTo(cur);
    assert Visited(vs0, cur) by { assert Entry(vs0, order0, head - 1); }
    ScanStart(vs0, order0, cur);
    assert g.adj[cur] - rest == {};
    while rest != {}
      invariant Inner(g.adj, vs, source, order, head, cur, rest)
      invariant queue == order[head..]
      invariant Scanning(vs0, order0, cur, g.adj[cur] - rest, vs, order)
      decreases rest
    {
      var nb :| nb in rest;
      assert Adjacent(g.adj, cur, nb);
      ghost var done := g.adj[cur] - rest;
      assert g.adj[cur] - (rest - {nb}) == done + {nb};
      if vs[nb].distance == INFINITY {
        VisitNeighbour(g.adj, vs, source, order, head, cur, rest, nb);
        SuffixAppend(order, head, nb);
        ScanVisit(vs0, order0, cur, done, vs, order, nb);
        vs := vs[nb := Vertex(nb, vs[cur].distance + 1, Some(cur))];
        queue := queue + [nb];
        order := order + [nb];
      } else {
        ScanSkip(vs0, order0, cur, done, vs, order, nb);
      }
      rest := rest - {nb};
    }
    assert g.adj[cur] - rest == g.adj[cur];
    ScanEnd(vs0, order0, cur, g.adj[cur], vs, order);
    assert order[head..] == order0[head..] + order[|order0|..];
  }
}
