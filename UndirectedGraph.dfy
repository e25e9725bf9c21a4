/**
 * An undirected, unweighted simple graph over named vertices: parallel
 * edges are not allowed, self-loops are.  The graph owns a name -> vertex
 * arena and a name -> neighbour-name adjacency map, and keeps vertex and
 * edge counters that it updates as it goes.
 */
module Graphs {
  import opened Wrappers
  import opened Vertices

  type Adjacency = map<string, set<string>>

  /** `b` is a neighbour of the vertex `a`. */
  ghost predicate Adjacent(adj: Adjacency, a: string, b: string) {
    a in adj && b in adj[a]
  }

  /** Adjacency is mutual (so every neighbour is itself a vertex). */
  ghost predicate Symmetric(adj: Adjacency) {
    forall a, b :: Adjacent(adj, a, b) ==> Adjacent(adj, b, a)
  }

  /** The edges as unordered pairs; a self-loop at `a` is the pair `{a}`. */
  ghost function Edges(adj: Adjacency): set<set<string>> {
    set a, b | a in adj && b in adj[a] :: {a, b}
  }

  /** A walk along edges, given by its vertices; its length is |p| - 1. */
  ghost predicate IsPath(adj: Adjacency, p: seq<string>) {
    && |p| >= 1
    && (forall i :: 0 <= i < |p| ==> p[i] in adj)
    && (forall i :: 0 <= i < |p| - 1 ==> p[i + 1] in adj[p[i]])
  }

  ghost predicate PathBetween(adj: Adjacency, p: seq<string>, s: string, t: string) {
    IsPath(adj, p) && p[0] == s && p[|p| - 1] == t
  }

  ghost predicate Reachable(adj: Adjacency, s: string, t: string) {
    exists p :: PathBetween(adj, p, s, t)
  }

  lemma PairCases(a: string, b: string, c: string, d: string)
    requires {a, b} == {c, d}
    ensures (a == c && b == d) || (a == d && b == c)
  {
    assert a in {c, d} && b in {c, d} && c in {a, b} && d in {a, b};
  }

  lemma EdgeOfAdjacent(adj: Adjacency, a: string, b: string)
    requires a in adj && b in adj[a]
    ensures {a, b} in Edges(adj)
  {
  }

  /**
   * Under symmetry the edge set determines the adjacency: b is a neighbour
   * of a exactly when {a, b} is an edge.
   */
  lemma NeighboursFromEdges(adj: Adjacency, a: string, b: string)
    requires Symmetric(adj)
    ensures Adjacent(adj, a, b) <==> {a, b} in Edges(adj)
  {
    if {a, b} in Edges(adj) {
      var c, d :| c in adj && d in adj[c] && {c, d} == {a, b};
      PairCases(a, b, c, d);
      assert Adjacent(adj, c, d);
    }
  }

  /**
   * `a` and `b` hold the same elements, stated as two inclusions.  Loops
   * that build a graph track its vertices and edges this way: an equation
   * would let the solver rewrite the counts of Valid into counts of unions.
   */
  ghost predicate Same<T>(a: set<T>, b: set<T>) {
    a <= b && b <= a
  }

  /**
   * Bookkeeping of a loop that visits the set `s` in no particular order:
   * the elements handled so far and those still to come make up `s`.
   */
  ghost predicate Partitioned<T>(s: set<T>, done: set<T>, rest: set<T>) {
    done + rest == s
  }

  lemma PartitionStep<T>(s: set<T>, done: set<T>, rest: set<T>, x: T)
    requires Partitioned(s, done, rest) && x in rest
    ensures Partitioned(s, done + {x}, rest - {x})
  {
  }

  lemma PartitionEnd<T>(s: set<T>, done: set<T>, rest: set<T>)
    requires Partitioned(s, done, rest) && rest == {}
    ensures done == s
  {
  }

  /**
   * The representation invariant of the graph: the two maps have the same
   * keys, each vertex is stored under its own name, adjacency is mutual,
   * and the counters agree with the maps.
   */
  ghost predicate Consistent(vertices: map<string, Vertex>, adj: Adjacency, nv: int, ne: int) {
    && (forall n :: n in vertices <==> n in adj)
    && (forall n :: n in vertices ==> vertices[n].name == n)
    && Symmetric(adj)
    && nv == |adj|
    && ne == |Edges(adj)|
  }

  lemma LinkKeys(adj: Adjacency, from: string, to: string)
    requires from in adj && to in adj
    ensures WithEdge(adj, from, to).Keys == adj.Keys
    ensures |WithEdge(adj, from, to)| == |adj|
  {
    WithEdgeKeys(adj, from, to);
    assert WithEdge(adj, from, to).Keys == adj.Keys;
  }

  /** Linking two registered, non-adjacent vertices keeps the invariant with one more edge. */
  lemma LinkConsistent(vertices: map<string, Vertex>, adj: Adjacency, nv: int, ne: int, from: string, to: string)
    requires Consistent(vertices, adj, nv, ne)
    requires from in adj && to in adj && to !in adj[from]
    ensures Consistent(vertices, Linked(adj, from, to), nv, ne + 1)
    ensures Edges(Linked(adj, from, to)) == Edges(adj) + {{from, to}}
  {
    LinkedIsWithEdge(adj, from, to);
    LinkKeys(adj, from, to);
    WithEdgeSymmetric(adj, from, to);
    EdgesAfterAdd(adj, from, to);
  }

  /** Registering both endpoints of a missing edge leaves it missing. */
  lemma IsolatedKeepsNonEdge(adj: Adjacency, from: string, to: string)
    requires Symmetric(adj)
    requires !(to in adj && from in adj[to])
    ensures var a := WithIsolated(WithIsolated(adj, from), to);
      from in a && to in a && to !in a[from]
  {
    assert Adjacent(adj, from, to) ==> Adjacent(adj, to, from);
  }

  /** The adjacency after adding the edge from-to, creating missing endpoints. */
  ghost function WithEdge(adj: Adjacency, from: string, to: string): Adjacency {
    map n | n in adj.Keys + {from, to} ::
      (if n in adj then adj[n] else {}) + (if n == from then {to} else {}) + (if n == to then {from} else {})
  }

  lemma WithEdgeKeys(adj: Adjacency, from: string, to: string)
    ensures WithEdge(adj, from, to).Keys == adj.Keys + {from, to}
  {
  }

  lemma NewEdgeIsNew(adj: Adjacency, from: string, to: string)
    requires Symmetric(adj)
    requires from in adj ==> to !in adj[from]
    ensures {from, to} !in Edges(adj)
  {
    if {from, to} in Edges(adj) {
      var a, b :| a in adj && b in adj[a] && {a, b} == {from, to};
      PairCases(a, b, from, to);
      assert Adjacent(adj, a, b);
    }
  }

  lemma EdgesWithEdgeShrink(adj: Adjacency, from: string, to: string)
    ensures Edges(WithEdge(adj, from, to)) <= Edges(adj) + {{from, to}}
  {
    var adj' := WithEdge(adj, from, to);
    forall e | e in Edges(adj')
      ensures e in Edges(adj) + {{from, to}}
    {
      var a, b :| a in adj' && b in adj'[a] && e == {a, b};
      if !(a in adj && b in adj[a]) {
        assert (a == from && b == to) || (a == to && b == from);
        assert e == {from, to};
      }
    }
  }

  lemma EdgesWithEdgeGrow(adj: Adjacency, from: string, to: string)
    ensures Edges(adj) + {{from, to}} <= Edges(WithEdge(adj, from, to))
  {
    var adj' := WithEdge(adj, from, to);
    forall e | e in Edges(adj) + {{from, to}}
      ensures e in Edges(adj')
    {
      if e == {from, to} {
        assert from in adj' && to in adj'[from];
      } else {
        var a, b :| a in adj && b in adj[a] && e == {a, b};
        assert a in adj' && b in adj'[a];
      }
    }
  }

  /** Adding an edge between two endpoints that were not adjacent adds exactly one unordered pair. */
  lemma EdgesAfterAdd(adj: Adjacency, from: string, to: string)
    requires Symmetric(adj)
    requires from in adj ==> to !in adj[from]
    ensures Edges(WithEdge(adj, from, to)) == Edges(adj) + {{from, to}}
    ensures |Edges(WithEdge(adj, from, to))| == |Edges(adj)| + 1
  {
    NewEdgeIsNew(adj, from, to);
    EdgesWithEdgeShrink(adj, from, to);
    EdgesWithEdgeGrow(adj, from, to);
  }

  lemma WithEdgeSymmetric(adj: Adjacency, from: string, to: string)
    requires Symmetric(adj)
    ensures Symmetric(WithEdge(adj, from, to))
  {
    var adj' := WithEdge(adj, from, to);
    forall a, b | Adjacent(adj', a, b)
      ensures Adjacent(adj', b, a)
    {
      if Adjacent(adj, a, b) {
        assert Adjacent(adj, b, a);
      }
    }
  }

  /**
   * The two neighbour-set insertions of addEdge on registered endpoints
   * (each endpoint joins the other's set).
   */
  function Linked(adj: Adjacency, from: string, to: string): (r: Adjacency)
    requires from in adj && to in adj
    ensures r.Keys == adj.Keys
  {
    var a := adj[from := adj[from] + {to}];
    a[to := a[to] + {from}]
  }

  /** Linking registered endpoints is adding the edge as WithEdge describes it. */
  lemma LinkedIsWithEdge(adj: Adjacency, from: string, to: string)
    requires from in adj && to in adj
    ensures Linked(adj, from, to) == WithEdge(adj, from, to)
  {
    var a := adj[from := adj[from] + {to}];
    var b := Linked(adj, from, to);
    var w := WithEdge(adj, from, to);
    assert b.Keys == w.Keys;
    forall n | n in b
      ensures b[n] == w[n]
    {
      if n == to {
        assert b[n] == a[to] + {from};
      } else if n == from {
        assert b[n] == adj[from] + {to};
      } else {
        assert b[n] == adj[n];
      }
    }
  }

  /** The names of a sequence of vertices. */
  ghost function Names(vs: seq<Vertex>): set<string> {
    set i | 0 <= i < |vs| :: vs[i].name
  }

  lemma NamesAppend(vs: seq<Vertex>, v: Vertex)
    ensures Names(vs + [v]) == Names(vs) + {v.name}
  {
    var ws := vs + [v];
    assert ws[|vs|].name == v.name;
    forall n | n in Names(vs)
      ensures n in Names(ws)
    {
      var i :| 0 <= i < |vs| && vs[i].name == n;
      assert ws[i].name == n;
    }
  }

  /**
   * The loop invariant of ListValues: `vs` holds the values of the keys
   * visited so far (those not in `rest`), each once.
   */
  ghost predicate Listing(vertices: map<string, Vertex>, vs: seq<Vertex>, rest: set<string>) {
    && rest <= vertices.Keys
    && |vs| + |rest| == |vertices|
    && Names(vs) == vertices.Keys - rest
    && (forall i :: 0 <= i < |vs| ==> vs[i].name in vertices && vs[i].name !in rest && vertices[vs[i].name] == vs[i])
    && (forall i, j :: 0 <= i < j < |vs| ==> vs[i].name != vs[j].name)
  }
  lemma ListingStep(vertices: map<string, Vertex>, vs: seq<Vertex>, rest: set<string>, n: string)
    requires forall k :: k in vertices ==> vertices[k].name == k
    requires Listing(vertices, vs, rest) && n in rest
    ensures Listing(vertices, vs + [vertices[n]], rest - {n})
  {
    var ws := vs + [vertices[n]];
    NamesAppend(vs, vertices[n]);
    assert ws[|vs|].name == n;
    forall i | 0 <= i < |ws|
      ensures ws[i].name in vertices && ws[i].name !in rest - {n} && vertices[ws[i].name] == ws[i]
    {
      if i < |vs| {
        assert ws[i] == vs[i];
      }
    }
    forall i, j | 0 <= i < j < |ws|
      ensures ws[i].name != ws[j].name
    {
      assert ws[i] == vs[i];
      if j < |vs| {
        assert ws[j] == vs[j];
      }
    }
  }
  /** The values of an arena, one per key, visiting the keys in no particular order. */
  method ListValues(vertices: map<string, Vertex>) returns (vs: seq<Vertex>)
    requires forall n :: n in vertices ==> vertices[n].name == n
    ensures |vs| == |vertices|
    ensures forall i :: 0 <= i < |vs| ==> vs[i].name in vertices && vertices[vs[i].name] == vs[i]
    ensures forall i, j :: 0 <= i < j < |vs| ==> vs[i].name != vs[j].name
    ensures Names(vs) == vertices.Keys
  {
    vs := [];
    var rest := vertices.Keys;
    while rest != {}
      invariant Listing(vertices, vs, rest)
      decreases |rest|
    {
      var n :| n in rest;
      ListingStep(vertices, vs, rest, n);
      vs := vs + [vertices[n]];
      rest := rest - {n};
    }
  }

  /** The arena after addVertex(name): unchanged if the name is present. */
  ghost function WithVertex(vertices: map<string, Vertex>, name: string): map<string, Vertex> {
    if name in vertices then vertices else vertices[name := NewVertex(name)]
  }

  /** The adjacency after addVertex(name): a new vertex has no neighbours. */
  ghost function WithIsolated(adj: Adjacency, name: string): Adjacency {
    if name in adj then adj else adj[name := {}]
  }

  /** A new isolated vertex adds no edge and keeps adjacency mutual. */
  lemma EdgesAfterIsolated(adj: Adjacency, name: string)
    requires Symmetric(adj)
    ensures Edges(WithIsolated(adj, name)) == Edges(adj)
    ensures Symmetric(WithIsolated(adj, name))
  {
    var adj' := WithIsolated(adj, name);
    forall a, b | Adjacent(adj', a, b)
      ensures Adjacent(adj', b, a)
    {
      assert Adjacent(adj, a, b);
    }
    forall e | e in Edges(adj')
      ensures e in Edges(adj)
    {
      var a, b :| a in adj' && b in adj'[a] && e == {a, b};
      assert a in adj && b in adj[a];
    }
    forall e | e in Edges(adj)
      ensures e in Edges(adj')
    {
      var a, b :| a in adj && b in adj[a] && e == {a, b};
      assert a in adj' && b in adj'[a];
    }
  }

  /** Registering a new name with no neighbours keeps the invariant with one more vertex. */
  lemma RegisterConsistent(vertices: map<string, Vertex>, adj: Adjacency, nv: int, ne: int, name: string)
    requires Consistent(vertices, adj, nv, ne) && name !in adj
    ensures Consistent(vertices[name := NewVertex(name)], adj[name := {}], nv + 1, ne)
    ensures Edges(adj[name := {}]) == Edges(adj)
    ensures adj[name := {}] == WithIsolated(adj, name)
  {
    EdgesAfterIsolated(adj, name);
  }

  class UndirectedGraph {
    /** myVertices: the vertex arena, name -> vertex with its BFS annotations. */
    var vertices: map<string, Vertex>
    /** myAdjList: name -> names of the neighbours. */
    var adj: Adjacency
    var numVertices: int
    var numEdges: int

    ghost predicate Valid()
      reads this
    {
      Consistent(vertices, adj, numVertices, numEdges)
    }

    constructor ()
      ensures Valid()
      ensures vertices == map[] && adj == map[] && numVertices == 0 && numEdges == 0
    {
      vertices := map[];
      adj := map[];
      numVertices, numEdges := 0, 0;
      new;
      assert Edges(adj) == {};
    }

    /** Add a vertex with no neighbours, unless one of that name exists already. */
    method AddVertex(name: string) returns (v: Vertex)
      requires Valid()
      modifies this
      ensures Valid()
      ensures name in vertices && vertices[name] == v && v.name == name
      ensures vertices == WithVertex(old(vertices), name)
      ensures adj == WithIsolated(old(adj), name)
      ensures numVertices == old(numVertices) + (if name in old(adj) then 0 else 1)
      ensures numEdges == old(numEdges)
      ensures Edges(adj) == old(Edges(adj))
      ensures adj.Keys == old(adj.Keys) + {name}
    {
      if name in vertices {
        v := vertices[name];
        EdgesAfterIsolated(adj, name);
      } else {
        RegisterConsistent(vertices, adj, numVertices, numEdges, name);
        v := NewVertex(name);
        vertices := vertices[name := NewVertex(name)];
        adj := adj[name := {}];
        numVertices := numVertices + 1;
      }
    }

    /** The neighbours of the vertex named `name`; none for an unknown name. */
    function AdjacentTo(name: string): (r: set<string>)
      requires Valid()
      reads this
      ensures name !in vertices ==> r == {}
      ensures name in vertices ==> r == adj[name]
      ensures forall w :: w in r ==> w in vertices && HasEdge(w, name) && HasEdge(name, w)
      ensures name in vertices ==> forall w :: w in vertices && HasEdge(name, w) ==> w in r
    {
      if !HasVertex(name) then {} else AdjacentToVertex(GetVertex(name).value)
    }

    /**
     * The private overload on a vertex: its neighbours if it is the stored
     * vertex (the hash table compares keys with Vertex.equals), none otherwise.
     */
    function AdjacentToVertex(v: Vertex): (r: set<string>)
      requires Valid()
      reads this
      ensures v.name !in vertices || vertices[v.name] != v ==> r == {}
      ensures v.name in vertices && vertices[v.name] == v ==> r == adj[v.name]
      ensures forall w :: w in r ==> w in adj && v.name in adj[w]
    {
      if v.name in adj && vertices[v.name] == v then
        assert forall w :: w in adj[v.name] ==> Adjacent(adj, v.name, w);
        adj[v.name]
      else {}
    }

    /** The vertex named `name`, or None (Java's null) for an unknown name. */
    function GetVertex(name: string): (r: Option<Vertex>)
      requires Valid()
      reads this
      ensures r.None? <==> name !in adj
      ensures r.Some? ==> r.value.name == name && r.value == vertices[name]
    {
      if name in vertices then Some(vertices[name]) else None
    }

    function HasVertex(name: string): (b: bool)
      requires Valid()
      reads this
      ensures b <==> name in adj
    {
      name in vertices
    }

    /** Is from-to an edge?  The answer does not depend on the order of the endpoints. */
    function HasEdge(from: string, to: string): (b: bool)
      requires Valid()
      reads this
      ensures b ==> from in adj && to in adj
      ensures b <==> to in adj && from in adj[to]
    {
      assert Adjacent(adj, from, to) ==> Adjacent(adj, to, from);
      assert Adjacent(adj, to, from) ==> Adjacent(adj, from, to);
      HasVertex(from) && HasVertex(to) && to in adj[from]
    }

    function NumVertices(): (r: int)
      requires Valid()
      reads this
      ensures r == |adj| == |vertices|
    {
      assert vertices.Keys == adj.Keys;
      numVertices
    }

    function NumEdges(): (r: int)
      requires Valid()
      reads this
      ensures r == |Edges(adj)|
    {
      numEdges
    }

    /** Every vertex of the graph, each exactly once, in no particular order. */
    method GetVertices() returns (vs: seq<Vertex>)
      requires Valid()
      ensures |vs| == numVertices
      ensures forall i :: 0 <= i < |vs| ==> vs[i].name in vertices && vertices[vs[i].name] == vs[i]
      ensures forall i, j :: 0 <= i < j < |vs| ==> vs[i].name != vs[j].name
      ensures Names(vs) == vertices.Keys
    {
      assert vertices.Keys == adj.Keys;
      vs := ListValues(vertices);
    }

    /**
     * Add the edge from-to unless it exists already, creating missing
     * endpoints.  A self-loop (from == to) counts as one edge.
     */
    method AddEdge(from: string, to: string)
      requires Valid()
      modifies this
      ensures Valid()
      ensures old(HasEdge(from, to)) ==>
                vertices == old(vertices) && adj == old(adj) && numEdges == old(numEdges)
                && numVertices == old(numVertices)
      ensures !old(HasEdge(from, to)) ==>
                && vertices == WithVertex(WithVertex(old(vertices), from), to)
                && numEdges == old(numEdges) + 1
      ensures adj.Keys == old(adj.Keys) + {from, to}
      ensures Edges(adj) == old(Edges(adj)) + {{from, to}}
    {
      if HasEdge(from, to) {
        EdgeOfAdjacent(adj, to, from);
        assert {to, from} == {from, to};
        return;
      }
      Connect(from, to);
    }

    /** The part of addEdge after the hasEdge guard: endpoints, then the two insertions. */
    method Connect(from: string, to: string)
      requires Valid() && !HasEdge(from, to)
      modifies this
      ensures Valid()
      ensures vertices == WithVertex(WithVertex(old(vertices), from), to)
      ensures numEdges == old(numEdges) + 1
      ensures adj.Keys == old(adj.Keys) + {from, to}
      ensures Edges(adj) == old(Edges(adj)) + {{from, to}}
    {
      IsolatedKeepsNonEdge(adj, from, to);
      AddEndpoints(from, to);
      Link(from, to);
    }

    /** The two addVertex calls of addEdge. */
    method AddEndpoints(from: string, to: string)
      requires Valid()
      modifies this
      ensures Valid()
      ensures vertices == WithVertex(WithVertex(old(vertices), from), to)
      ensures adj == WithIsolated(WithIsolated(old(adj), from), to)
      ensures numEdges == old(numEdges)
      ensures adj.Keys == old(adj.Keys) + {from, to}
      ensures Edges(adj) == old(Edges(adj))
    {
      var v := AddVertex(from);
      var w := AddVertex(to);
    }

    /** The two neighbour-set insertions of addEdge, with the edge counter. */
    method Link(from: string, to: string)
      requires Valid() && from in adj && to in adj && to !in adj[from]
      modifies this`adj, this`numEdges
      ensures Valid()
      ensures adj == Linked(old(adj), from, to)
      ensures Edges(adj) == old(Edges(adj)) + {{from, to}} && numEdges == old(numEdges) + 1
    {
      LinkConsistent(vertices, adj, numVertices, numEdges, from, to);
      adj := Linked(adj, from, to);
      numEdges := numEdges + 1;
    }
  }
}
