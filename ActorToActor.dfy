/**
 * The actor-to-actor scheme: the vertices are the actors of the registered
 * movies, and two actors are joined iff they appeared in the same movie.
 * Distances are reported as they are, and the chain names one co-star per
 * step.
 */
module ActorToActor {
  import opened Wrappers
  import opened Vertices
  import opened Graphs
  import opened Histograms
  import opened Separation
  import opened Reporting
  import opened Entities
  import Bfs

  // ---------------------------------------------------------------------
  // The graph the scheme builds, as sets of names and edges
  // ---------------------------------------------------------------------

  /** The edges from `a` to the other names of `s`. */
  ghost function Spokes(a: string, s: set<string>): set<set<string>> {
    set b | b in s && b != a :: {a, b}
  }

  /** The edges between a name of `done` and a different name of `s`. */
  ghost function Fan(done: set<string>, s: set<string>): set<set<string>> {
    set a, b | a in done && b in s && a != b :: {a, b}
  }

  /** The edges between any two different names of `s`. */
  ghost function Clique(s: set<string>): set<set<string>> {
    Fan(s, s)
  }

  /** The cast members of the titles in `titles`. */
  ghost function Members(c: map<string, set<string>>, titles: set<string>): set<string> {
    set t, n | t in titles && t in c && n in c[t] :: n
  }

  /** The pairs of different actors who share one of the titles in `titles`. */
  ghost function CoCast(c: map<string, set<string>>, titles: set<string>): set<set<string>> {
    set t, a, b | t in titles && t in c && a in c[t] && b in c[t] && a != b :: {a, b}
  }

  lemma SpokesStep(a: string, done: set<string>, b: string)
    ensures Spokes(a, done + {b}) == Spokes(a, done) + (if b != a then {{a, b}} else {})
  {
  }

  lemma FanStep(done: set<string>, s: set<string>, a: string)
    ensures Fan(done + {a}, s) == Fan(done, s) + Spokes(a, s)
  {
    forall e | e in Fan(done + {a}, s)
      ensures e in Fan(done, s) + Spokes(a, s)
    {
      var x, y :| x in done + {a} && y in s && x != y && e == {x, y};
      if x != a {
        assert e in Fan(done, s);
      }
    }
  }

  lemma MembersStep(c: map<string, set<string>>, titles: set<string>, t: string)
    requires t in c
    ensures Members(c, titles + {t}) == Members(c, titles) + c[t]
  {
    forall n | n in c[t]
      ensures n in Members(c, titles + {t})
    {
    }
  }

  lemma CoCastStep(c: map<string, set<string>>, titles: set<string>, t: string)
    requires t in c
    ensures CoCast(c, titles + {t}) == CoCast(c, titles) + Clique(c[t])
  {
    forall e | e in Clique(c[t])
      ensures e in CoCast(c, titles + {t})
    {
      var a, b :| a in c[t] && b in c[t] && a != b && e == {a, b};
    }
    forall e | e in CoCast(c, titles + {t})
      ensures e in CoCast(c, titles) + Clique(c[t])
    {
      var u, a, b :| u in titles + {t} && u in c && a in c[u] && b in c[u] && a != b && e == {a, b};
      if u != t {
        assert e in CoCast(c, titles);
      }
    }
  }

  // ---------------------------------------------------------------------
  // createGraph
  // ---------------------------------------------------------------------

  /** After the titles `done`: their cast members are vertices, joined pairwise. */
  ghost predicate TitlesDone(k0: set<string>, e0: set<set<string>>, c: map<string, set<string>>,
                             done: set<string>, adj: Adjacency) {
    Same(adj.Keys, k0 + Members(c, done)) && Same(Edges(adj), e0 + CoCast(c, done))
  }

  lemma TitlesStep(k0: set<string>, e0: set<set<string>>, c: map<string, set<string>>, done: set<string>,
                   adj: Adjacency, adj': Adjacency, t: string)
    requires TitlesDone(k0, e0, c, done, adj) && t in c
    requires CastDone(adj.Keys, Edges(adj), c[t], c[t], adj')
    ensures TitlesDone(k0, e0, c, done + {t}, adj')
  {
    MembersStep(c, done, t);
    CoCastStep(c, done, t);
  }

  /**
   * createGraph: for every movie, every cast member gets a vertex and an
   * edge to every other cast member.  Two cast members are different
   * actors exactly when their names differ (a cast holds one actor per
   * name), which is what the equals test of the source decides there.
   */
  method CreateGraph(d: DegreesOfSeparation)
    requires d.g.Valid()
    modifies d.g
    ensures d.g.Valid()
    ensures Same(d.g.adj.Keys, old(d.g.adj.Keys) + Members(old(d.Casts()), old(d.Casts()).Keys))
    ensures Same(Edges(d.g.adj), old(Edges(d.g.adj)) + CoCast(old(d.Casts()), old(d.Casts()).Keys))
  {
    var casts := CastTable(d.movies);
    LinkTitles(d.g, casts);
  }

  /** The outer loop of createGraph, over the registered titles and their casts. */
  method LinkTitles(g: UndirectedGraph, c: map<string, set<string>>)
    requires g.Valid()
    modifies g
    ensures Titling(g, old(g.adj.Keys), old(Edges(g.adj)), c, c.Keys)
  {
    ghost var k0, e0 := g.adj.Keys, Edges(g.adj);
    var rest := c.Keys;
    ghost var done: set<string> := {};
    while rest != {}
      invariant Partitioned(c.Keys, done, rest)
      invariant Titling(g, k0, e0, c, done)
      decreases rest
    {
      var t :| t in rest;
      LinkTitle(g, c, t, k0, e0, done);
      PartitionStep(c.Keys, done, rest, t);
      done := done + {t};
      rest := rest - {t};
    }
    PartitionEnd(c.Keys, done, rest);
  }

  /** The invariant of the loop over titles: a valid graph holding the titles `done`. */
  ghost predicate Titling(g: UndirectedGraph, k0: set<string>, e0: set<set<string>>,
                          c: map<string, set<string>>, done: set<string>)
    reads g
  {
    g.Valid() && TitlesDone(k0, e0, c, done, g.adj)
  }

  /** The body of the loop over titles: the vertices and edges of one movie's cast. */
  method LinkTitle(g: UndirectedGraph, c: map<string, set<string>>, t: string,
                   ghost k0: set<string>, ghost e0: set<set<string>>, ghost done: set<string>)
    requires Titling(g, k0, e0, c, done) && t in c
    modifies g
    ensures Titling(g, k0, e0, c, done + {t})
  {
    ghost var adj := g.adj;
    LinkCast(g, c[t]);
    TitlesStep(k0, e0, c, done, adj, g.adj, t);
  }

  /** After the cast members `done` of one movie: the whole cast are vertices once one is done. */
  ghost predicate CastDone(k0: set<string>, e0: set<set<string>>, cast: set<string>, done: set<string>, adj: Adjacency) {
    Same(adj.Keys, k0 + (if done == {} then {} else cast)) && Same(Edges(adj), e0 + Fan(done, cast))
  }

  lemma CastStep(k0: set<string>, e0: set<set<string>>, cast: set<string>, done: set<string>,
                 adj: Adjacency, adj': Adjacency, adj'': Adjacency, a1: string)
    requires CastDone(k0, e0, cast, done, adj) && a1 in cast
    requires adj'.Keys == adj.Keys + {a1} && Edges(adj') == Edges(adj)
    requires SpokesDone(adj'.Keys, Edges(adj'), a1, cast, adj'')
    ensures CastDone(k0, e0, cast, done + {a1}, adj'')
  {
    FanStep(done, cast, a1);
  }

  /** One movie's two nested loops: a vertex for each cast member, and the edges among them. */
  method LinkCast(g: UndirectedGraph, cast: set<string>)
    requires g.Valid()
    modifies g
    ensures Casting(g, old(g.adj.Keys), old(Edges(g.adj)), cast, cast)
  {
    ghost var k0, e0 := g.adj.Keys, Edges(g.adj);
    var rest := cast;
    ghost var done: set<string> := {};
    while rest != {}
      invariant Partitioned(cast, done, rest)
      invariant Casting(g, k0, e0, cast, done)
      decreases rest
    {
      var a1 :| a1 in rest;
      LinkMember(g, a1, cast, k0, e0, done);
      PartitionStep(cast, done, rest, a1);
      done := done + {a1};
      rest := rest - {a1};
    }
    PartitionEnd(cast, done, rest);
  }

  /** The invariant of the loop over a cast: a valid graph holding the members `done`. */
  ghost predicate Casting(g: UndirectedGraph, k0: set<string>, e0: set<set<string>>,
                          cast: set<string>, done: set<string>)
    reads g
  {
    g.Valid() && CastDone(k0, e0, cast, done, g.adj)
  }

  /** The body of the loop over a cast: a vertex for `a1`, then its edges to the others. */
  method LinkMember(g: UndirectedGraph, a1: string, cast: set<string>,
                    ghost k0: set<string>, ghost e0: set<set<string>>, ghost done: set<string>)
    requires Casting(g, k0, e0, cast, done) && a1 in cast
    modifies g
    ensures Casting(g, k0, e0, cast, done + {a1})
  {
    ghost var adj := g.adj;
    var v := g.AddVertex(a1);
    ghost var adj' := g.adj;
    LinkFrom(g, a1, cast);
    CastStep(k0, e0, cast, done, adj, adj', g.adj, a1);
  }

  /** After the cast members `done` of the inner loop: the edges from `a1` to them. */
  ghost predicate SpokesDone(k0: set<string>, e0: set<set<string>>, a1: string, done: set<string>, adj: Adjacency) {
    Same(adj.Keys, k0 + (done - {a1})) && Same(Edges(adj), e0 + Spokes(a1, done))
  }

  lemma SpokesDoneStep(k0: set<string>, e0: set<set<string>>, a1: string, done: set<string>,
                       adj: Adjacency, adj': Adjacency, a2: string)
    requires SpokesDone(k0, e0, a1, done, adj) && a1 in k0
    requires a1 != a2 ==> adj'.Keys == adj.Keys + {a1, a2} && Edges(adj') == Edges(adj) + {{a1, a2}}
    requires a1 == a2 ==> adj' == adj
    ensures SpokesDone(k0, e0, a1, done + {a2}, adj')
  {
    SpokesStep(a1, done, a2);
  }

  /** The innermost loop: an edge from `a1` to every other cast member. */
  method LinkFrom(g: UndirectedGraph, a1: string, cast: set<string>)
    requires g.Valid() && a1 in g.adj
    modifies g
    ensures Spoking(g, old(g.adj.Keys), old(Edges(g.adj)), a1, cast)
  {
    ghost var k0, e0 := g.adj.Keys, Edges(g.adj);
    var rest := cast;
    ghost var done: set<string> := {};
    while rest != {}
      invariant Partitioned(cast, done, rest)
      invariant Spoking(g, k0, e0, a1, done)
      decreases rest
    {
      var a2 :| a2 in rest;
      Spoke(g, a1, a2, k0, e0, done);
      PartitionStep(cast, done, rest, a2);
      done := done + {a2};
      rest := rest - {a2};
    }
    PartitionEnd(cast, done, rest);
  }

  /** The invariant of the innermost loop: a valid graph holding the spokes from `a1` to `done`. */
  ghost predicate Spoking(g: UndirectedGraph, k0: set<string>, e0: set<set<string>>, a1: string, done: set<string>)
    reads g
  {
    g.Valid() && a1 in k0 && SpokesDone(k0, e0, a1, done, g.adj)
  }

  /** The body of the innermost loop: the edge a1-a2 unless the two are the same actor. */
  method Spoke(g: UndirectedGraph, a1: string, a2: string,
               ghost k0: set<string>, ghost e0: set<set<string>>, ghost done: set<string>)
    requires Spoking(g, k0, e0, a1, done)
    modifies g
    ensures Spoking(g, k0, e0, a1, done + {a2})
  {
    ghost var adj := g.adj;
    if a1 != a2 {
      g.AddEdge(a1, a2);
    }
    SpokesDoneStep(k0, e0, a1, done, adj, g.adj, a2);
  }

  /**
   * In the graph createGraph builds from an empty one, two actors are
   * adjacent iff they are different and share a movie; in particular there
   * are no self-loops.
   */
  lemma AdjacentIffCoStars(adj: Adjacency, c: map<string, set<string>>, a: string, b: string)
    requires Symmetric(adj) && Edges(adj) == CoCast(c, c.Keys)
    ensures Adjacent(adj, a, b) <==> a != b && exists t :: t in c && a in c[t] && b in c[t]
  {
    NeighboursFromEdges(adj, a, b);
    if {a, b} in CoCast(c, c.Keys) {
      var t, x, y :| t in c && x in c[t] && y in c[t] && x != y && {a, b} == {x, y};
      PairCases(a, b, x, y);
    }
    if a != b && exists t :: t in c && a in c[t] && b in c[t] {
      var t :| t in c && a in c[t] && b in c[t];
      assert {a, b} in CoCast(c, c.Keys);
    }
  }

  /** An actor all of whose movies have no other cast member is an isolated vertex. */
  lemma LoneActorIsolated(adj: Adjacency, c: map<string, set<string>>, a: string)
    requires Symmetric(adj) && Edges(adj) == CoCast(c, c.Keys)
    requires a in adj && forall t :: t in c && a in c[t] ==> c[t] == {a}
    ensures adj[a] == {}
  {
    if b :| b in adj[a] {
      AdjacentIffCoStars(adj, c, a, b);
    }
  }

  // ---------------------------------------------------------------------
  // Reports
  // ---------------------------------------------------------------------

  /**
   * createFrequencyChart: every vertex's distance is recorded once,
   * INFINITY included, so the chart gains exactly numVertices records.
   */
  method CreateFrequencyChart(d: DegreesOfSeparation)
    requires d.g.Valid() && d.histogram.Valid()
    modifies d.histogram
    ensures d.histogram.Valid()
    ensures forall k :: Count(d.histogram.counts, k) == Count(old(d.histogram.counts), k) + |Level(d.g.vertices, k)|
    ensures d.histogram.recorded == old(d.histogram.recorded) + d.g.numVertices
  {
    var all := d.g.GetVertices();
    var vs := d.g.vertices;
    RecordAll(d.histogram, all, vs, vs.Keys, Distance);
    KeyedLevel(vs);
    assert d.g.NumVertices() == |vs|;
  }

  /**
   * computeHollywoodNumber: the average distance of the reached vertices,
   * as (sum, count); positive infinity when none is reached.
   */
  method ComputeHollywoodNumber(d: DegreesOfSeparation) returns (r: Hollywood)
    requires d.g.Valid()
    ensures Reached(d.g.vertices) == {} ==> r == PositiveInfinity
    ensures Reached(d.g.vertices) != {} ==>
              r == Ratio(Total(d.g.vertices, Reached(d.g.vertices), Distance), |Reached(d.g.vertices)|)
  {
    var all := d.g.GetVertices();
    var vs := d.g.vertices;
    var sum, count := Tally(all, vs, vs.Keys, Finite, Distance);
    assert Counted(vs, vs.Keys, vs.Keys, Finite) == Reached(vs);
    if count == 0 {
      return PositiveInfinity;
    }
    r := Ratio(sum, count);
  }

  /**
   * chainAsString: a missing source is reported first, then a missing
   * destination, then an unreached one; otherwise the distance and one
   * step per edge of the predecessor path back to the source.
   */
  method ChainAsString(d: DegreesOfSeparation, name: string) returns (r: Chain)
    requires d.g.Valid() && Walkable(d.g.adj, d.g.vertices, d.source, name)
    ensures r.SourceMissing? <==> d.source !in d.g.adj
    ensures r.DestMissing? <==> d.source in d.g.adj && name !in d.g.adj
    ensures r.Infinite? <==> d.source in d.g.adj && name in d.g.adj && d.g.vertices[name].distance == INFINITY
    ensures r.Connected? <==> d.source in d.g.adj && name in d.g.adj && d.g.vertices[name].distance != INFINITY
    ensures r.Connected? ==>
              && r.reported == d.g.vertices[name].distance
              && |r.steps| == r.reported
              && HopPath(d.g.adj, r.steps, name, d.source)
              && FollowsPredecessors(d.g.vertices, r.steps)
  {
    var start := d.g.GetVertex(d.source);
    var dest := d.g.GetVertex(name);
    if start.None? {
      return SourceMissing;
    }
    if dest.None? {
      return DestMissing;
    }
    if dest.value.distance == INFINITY {
      return Infinite;
    }
    var steps := Walk(d.g.vertices, d.g.adj, d.source, name);
    r := Connected(dest.value.distance, steps);
  }
}
