/**
 * The actor-to-movie scheme: the vertices are the actors and the titles of
 * their movies, and an actor is joined to each title it is credited with.
 * A chain from an actor alternates actor, movie, actor, so distances are
 * halved before they are reported.
 */
module ActorToMovie {
  import opened Wrappers
  import opened JavaLang
  import opened Vertices
  import opened Graphs
  import opened Histograms
  import opened Separation
  import opened Reporting
  import Bfs

  // ---------------------------------------------------------------------
  // The graph the scheme builds, as sets of names and edges
  // ---------------------------------------------------------------------

  /** The edges from `a` to each name of `s`; a self-loop if `a` is one of them. */
  ghost function Star(a: string, s: set<string>): set<set<string>> {
    set b | b in s :: {a, b}
  }

  /** The titles credited to the actors of `names`. */
  ghost function Titles(f: map<string, set<string>>, names: set<string>): set<string> {
    set n, t | n in names && n in f && t in f[n] :: t
  }

  /** The actor-title pairs credited to the actors of `names`. */
  ghost function Credits(f: map<string, set<string>>, names: set<string>): set<set<string>> {
    set n, t | n in names && n in f && t in f[n] :: {n, t}
  }

  /** The actors of `names` and the titles credited to them. */
  ghost function Cover(f: map<string, set<string>>, names: set<string>): set<string> {
    names + Titles(f, names)
  }

  lemma StarStep(a: string, done: set<string>, b: string)
    ensures Star(a, done + {b}) == Star(a, done) + {{a, b}}
  {
  }

  lemma TitlesStep(f: map<string, set<string>>, done: set<string>, n: string)
    requires n in f
    ensures Titles(f, done + {n}) == Titles(f, done) + f[n]
  {
    forall t | t in f[n]
      ensures t in Titles(f, done + {n})
    {
    }
  }

  lemma CreditsStep(f: map<string, set<string>>, done: set<string>, n: string)
    requires n in f
    ensures Credits(f, done + {n}) == Credits(f, done) + Star(n, f[n])
  {
    forall e | e in Star(n, f[n])
      ensures e in Credits(f, done + {n})
    {
      var t :| t in f[n] && e == {n, t};
    }
    forall e | e in Credits(f, done + {n})
      ensures e in Credits(f, done) + Star(n, f[n])
    {
      var m, t :| m in done + {n} && m in f && t in f[m] && e == {m, t};
      if m != n {
        assert e in Credits(f, done);
      }
    }
  }

  // ---------------------------------------------------------------------
  // createGraph
  // ---------------------------------------------------------------------

  /** After the actors `done`: they and their titles are vertices, each actor joined to its titles. */
  ghost predicate ActorsDone(k0: set<string>, e0: set<set<string>>, f: map<string, set<string>>,
                             done: set<string>, adj: Adjacency) {
    Same(adj.Keys, k0 + Cover(f, done)) && Same(Edges(adj), e0 + Credits(f, done))
  }

  lemma ActorsStep(k0: set<string>, e0: set<set<string>>, f: map<string, set<string>>, done: set<string>,
                   adj: Adjacency, adj': Adjacency, adj'': Adjacency, n: string)
    requires ActorsDone(k0, e0, f, done, adj) && n in f
    requires adj'.Keys == adj.Keys + {n} && Edges(adj') == Edges(adj)
    requires FilmsDone(adj'.Keys, Edges(adj'), n, f[n], adj'')
    ensures ActorsDone(k0, e0, f, done + {n}, adj'')
  {
    TitlesStep(f, done, n);
    CreditsStep(f, done, n);
  }

  /**
   * createGraph: every registered actor gets a vertex, and so does each of
   * its titles, with an edge from the actor to the title.
   */
  method CreateGraph(d: DegreesOfSeparation)
    requires d.g.Valid()
    modifies d.g
    ensures d.g.Valid()
    ensures Same(d.g.adj.Keys, old(d.g.adj.Keys) + old(d.Filmography()).Keys
                               + Titles(old(d.Filmography()), old(d.Filmography()).Keys))
    ensures Same(Edges(d.g.adj), old(Edges(d.g.adj)) + Credits(old(d.Filmography()), old(d.Filmography()).Keys))
  {
    var films := FilmTable(d.actors);
    LinkActors(d.g, films);
  }

  /** The outer loop of createGraph, over the registered actors and their titles. */
  method LinkActors(g: UndirectedGraph, f: map<string, set<string>>)
    requires g.Valid()
    modifies g
    ensures Crediting(g, old(g.adj.Keys), old(Edges(g.adj)), f, f.Keys)
  {
    ghost var k0, e0 := g.adj.Keys, Edges(g.adj);
    var rest := f.Keys;
    ghost var done: set<string> := {};
    while rest != {}
      invariant Partitioned(f.Keys, done, rest)
      invariant Crediting(g, k0, e0, f, done)
      decreases rest
    {
      var n :| n in rest;
      LinkActor(g, f, n, k0, e0, done);
      PartitionStep(f.Keys, done, rest, n);
      done := done + {n};
      rest := rest - {n};
    }
    PartitionEnd(f.Keys, done, rest);
  }

  /** The invariant of the loop over actors: a valid graph holding the actors `done`. */
  ghost predicate Crediting(g: UndirectedGraph, k0: set<string>, e0: set<set<string>>,
                            f: map<string, set<string>>, done: set<string>)
    reads g
  {
    g.Valid() && ActorsDone(k0, e0, f, done, g.adj)
  }

  /** The body of the loop over actors: the actor's vertex, then its titles. */
  method LinkActor(g: UndirectedGraph, f: map<string, set<string>>, n: string,
                   ghost k0: set<string>, ghost e0: set<set<string>>, ghost done: set<string>)
    requires Crediting(g, k0, e0, f, done) && n in f
    modifies g
    ensures Crediting(g, k0, e0, f, done + {n})
  {
    ghost var adj := g.adj;
    var v := g.AddVertex(n);
    ghost var adj' := g.adj;
    LinkFilms(g, n, f[n]);
    ActorsStep(k0, e0, f, done, adj, adj', g.adj, n);
  }

  /** After the titles `done` of the inner loop: they are vertices joined to `n`. */
  ghost predicate FilmsDone(k0: set<string>, e0: set<set<string>>, n: string, done: set<string>, adj: Adjacency) {
    Same(adj.Keys, k0 + done) && Same(Edges(adj), e0 + Star(n, done))
  }

  lemma FilmStep(k0: set<string>, e0: set<set<string>>, n: string, done: set<string>,
                 adj: Adjacency, adj': Adjacency, adj'': Adjacency, t: string)
    requires FilmsDone(k0, e0, n, done, adj) && n in k0
    requires adj'.Keys == adj.Keys + {t} && Edges(adj') == Edges(adj)
    requires adj''.Keys == adj'.Keys + {n, t} && Edges(adj'') == Edges(adj') + {{n, t}}
    ensures FilmsDone(k0, e0, n, done + {t}, adj'')
  {
    StarStep(n, done, t);
  }

  /** The inner loop: a vertex for each title of `n`, and the edge from `n` to it. */
  method LinkFilms(g: UndirectedGraph, n: string, titles: set<string>)
    requires g.Valid() && n in g.adj
    modifies g
    ensures Filming(g, old(g.adj.Keys), old(Edges(g.adj)), n, titles)
  {
    ghost var k0, e0 := g.adj.Keys, Edges(g.adj);
    var rest := titles;
    ghost var done: set<string> := {};
    while rest != {}
      invariant Partitioned(titles, done, rest)
      invariant Filming(g, k0, e0, n, done)
      decreases rest
    {
      var t :| t in rest;
      LinkFilm(g, n, t, k0, e0, done);
      PartitionStep(titles, done, rest, t);
      done := done + {t};
      rest := rest - {t};
    }
    PartitionEnd(titles, done, rest);
  }

  /** The invariant of the inner loop: a valid graph holding the edges from `n` to `done`. */
  ghost predicate Filming(g: UndirectedGraph, k0: set<string>, e0: set<set<string>>, n: string, done: set<string>)
    reads g
  {
    g.Valid() && n in k0 && FilmsDone(k0, e0, n, done, g.adj)
  }

  /** The body of the inner loop: addVertex(title), then addEdge(actor, title). */
  method LinkFilm(g: UndirectedGraph, n: string, t: string,
                  ghost k0: set<string>, ghost e0: set<set<string>>, ghost done: set<string>)
    requires Filming(g, k0, e0, n, done)
    modifies g
    ensures Filming(g, k0, e0, n, done + {t})
  {
    ghost var adj := g.adj;
    var v := g.AddVertex(t);
    ghost var adj' := g.adj;
    g.AddEdge(n, t);
    FilmStep(k0, e0, n, done, adj, adj', g.adj, t);
  }

  // ---------------------------------------------------------------------
  // The shape of the graph
  // ---------------------------------------------------------------------

  /**
   * In the graph createGraph builds from an empty one, two names are
   * adjacent iff one is an actor credited with the other as a title.
   */
  lemma AdjacentIffCredited(adj: Adjacency, f: map<string, set<string>>, a: string, b: string)
    requires Symmetric(adj) && Edges(adj) == Credits(f, f.Keys)
    ensures Adjacent(adj, a, b) <==> (a in f && b in f[a]) || (b in f && a in f[b])
  {
    NeighboursFromEdges(adj, a, b);
    if {a, b} in Credits(f, f.Keys) {
      var n, t :| n in f && t in f[n] && {a, b} == {n, t};
      PairCases(a, b, n, t);
    }
    if a in f && b in f[a] {
      assert {a, b} in Credits(f, f.Keys);
    }
    if b in f && a in f[b] {
      assert {b, a} in Credits(f, f.Keys);
      assert {b, a} == {a, b};
    }
  }

  /** No title is also the name of a registered actor. */
  ghost predicate Disjoint(f: map<string, set<string>>) {
    forall n :: n in f ==> f[n] !! f.Keys
  }

  /** When no title is an actor's name, every edge joins an actor to a non-actor. */
  lemma Bipartite(adj: Adjacency, f: map<string, set<string>>, a: string, b: string)
    requires Symmetric(adj) && Edges(adj) == Credits(f, f.Keys) && Disjoint(f)
    requires Adjacent(adj, a, b)
    ensures (a in f) != (b in f)
  {
    AdjacentIffCredited(adj, f, a, b);
  }

  /**
   * After a search from an actor, a reached vertex is an actor exactly when
   * its distance is even: every tree edge joins an actor and a title.
   */
  lemma {:induction false} ActorsAtEvenDistance(adj: Adjacency, vs: Bfs.Arena, f: map<string, set<string>>,
                                                src: string, n: string)
    requires Symmetric(adj) && Edges(adj) == Credits(f, f.Keys) && Disjoint(f)
    requires Bfs.Tree(adj, vs, src) && src in f
    requires n in vs && vs[n].distance != INFINITY
    ensures n in f <==> vs[n].distance % 2 == 0
    decreases vs[n].distance
  {
    if n == src {
      TreeRoot(adj, vs, src);
    } else {
      TreeStep(adj, vs, src, n);
      var p := vs[n].predecessor.value;
      ActorsAtEvenDistance(adj, vs, f, src, p);
      Bipartite(adj, f, p, n);
    }
  }

  // ---------------------------------------------------------------------
  // Reports
  // ---------------------------------------------------------------------

  /** The chart key of a vertex: MAX_VALUE as it is, otherwise distance - distance / 2. */
  function ChartKey(v: Vertex): int {
    if v.distance == MaxInt then v.distance else v.distance - Half(v.distance)
  }

  /** The Hollywood filter: neither MAX_VALUE nor MIN_VALUE. */
  predicate Countable(v: Vertex) {
    v.distance != MaxInt && v.distance != MinInt
  }

  /** The Hollywood summand: distance / 2, truncated as Java's int division. */
  function HalfDistance(v: Vertex): int {
    Half(v.distance)
  }

  /**
   * After a search from an actor, for a reached actor both the chart key
   * and the Hollywood summand are exactly half its distance: the number of
   * movies on a shortest chain back to the source.
   */
  lemma ActorKeysAreHalfDistances(adj: Adjacency, vs: Bfs.Arena, f: map<string, set<string>>, src: string, n: string)
    requires Symmetric(adj) && Edges(adj) == Credits(f, f.Keys) && Disjoint(f)
    requires Bfs.Tree(adj, vs, src) && src in f
    requires n in vs && n in f && vs[n].distance != INFINITY
    ensures 2 * ChartKey(vs[n]) == vs[n].distance
    ensures 2 * HalfDistance(vs[n]) == vs[n].distance
    ensures Countable(vs[n])
  {
    ActorsAtEvenDistance(adj, vs, f, src, n);
    if n == src {
      TreeRoot(adj, vs, src);
    } else {
      TreeStep(adj, vs, src, n);
    }
  }

  /**
   * createFrequencyChart: for every vertex named like a registered actor,
   * its chart key is recorded once.
   */
  method CreateFrequencyChart(d: DegreesOfSeparation)
    requires d.g.Valid() && d.histogram.Valid()
    modifies d.histogram
    ensures d.histogram.Valid()
    ensures forall k :: Count(d.histogram.counts, k)
                        == Count(old(d.histogram.counts), k) + |Keyed(d.g.vertices, d.g.vertices.Keys, d.actors.Keys, ChartKey, k)|
    ensures d.histogram.recorded == old(d.histogram.recorded) + |Chosen(d.g.vertices, d.g.vertices.Keys, d.actors.Keys)|
  {
    var all := d.g.GetVertices();
    var vs := d.g.vertices;
    RecordAll(d.histogram, all, vs, d.actors.Keys, ChartKey);
  }

  /**
   * computeHollywoodNumber: over the vertices named like registered actors
   * whose distance is neither MAX_VALUE nor MIN_VALUE, the sum of the
   * halved distances and their number; there is no guard for a zero count
   * (0.0 / 0 is NaN).
   */
  method ComputeHollywoodNumber(d: DegreesOfSeparation) returns (r: Hollywood)
    requires d.g.Valid()
    ensures r.Ratio?
    ensures r.count == |Counted(d.g.vertices, d.g.vertices.Keys, d.actors.Keys, Countable)|
    ensures r.sum == Total(d.g.vertices, Counted(d.g.vertices, d.g.vertices.Keys, d.actors.Keys, Countable), HalfDistance)
  {
    var all := d.g.GetVertices();
    var vs := d.g.vertices;
    var sum, count := Tally(all, vs, d.actors.Keys, Countable, HalfDistance);
    r := Ratio(sum, count);
  }

  /**
   * chainAsString: the three failures as in the other schemes; otherwise
   * half the distance and one step per actor-movie-actor pair of the
   * predecessor path.  From an odd distance the two-at-a-time walk steps
   * past the source and dereferences its missing predecessor.
   */
  method ChainAsString(d: DegreesOfSeparation, name: string) returns (r: Chain)
    requires d.g.Valid() && Walkable(d.g.adj, d.g.vertices, d.source, name)
    ensures r.SourceMissing? <==> d.source !in d.g.adj
    ensures r.DestMissing? <==> d.source in d.g.adj && name !in d.g.adj
    ensures r.Infinite? <==> d.source in d.g.adj && name in d.g.adj && d.g.vertices[name].distance == INFINITY
    ensures r.NoPredecessor? <==>
              && d.source in d.g.adj && name in d.g.adj && d.g.vertices[name].distance != INFINITY
              && d.g.vertices[name].distance % 2 == 1
    ensures r.Connected? ==>
              && r.reported == Half(d.g.vertices[name].distance)
              && 2 * |r.steps| == d.g.vertices[name].distance
              && TwoHopPath(d.g.adj, r.steps, name, d.source)
              && FollowsTwoPredecessors(d.g.vertices, r.steps)
  {
    var start := d.g.GetVertex(d.source);
    var dest := d.g.GetVertex(name);
    if start.None? {
      return SourceMissing;
    }
    if dest.None? {
      return DestMissing;
    }
    if dest.value.distance == INFINITY {
      return Infinite;
    }
    if dest.value.distance % 2 == 1 {
      return NoPredecessor;
    }
    var steps := WalkTwo(d.g.vertices, d.g.adj, d.source, name);
    r := Connected(Half(dest.value.distance), steps);
  }
}
