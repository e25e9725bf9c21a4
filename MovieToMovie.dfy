/**
 * The movie-to-movie scheme: the vertices are the titles of the registered
 * movies, and two different titles are joined when their casts share an
 * actor.
 */
module MovieToMovie {
  import opened Wrappers
  import opened JavaLang
  import opened Vertices
  import opened Graphs
  import opened Histograms
  import opened Separation
  import opened Reporting
  import Bfs

  // ---------------------------------------------------------------------
  // The graph the scheme builds, as sets of names and edges
  // ---------------------------------------------------------------------

  /** The casts of titles `t1` and `t2` have an actor in common. */
  ghost predicate Share(c: map<string, set<string>>, t1: string, t2: string) {
    t1 in c && t2 in c && c[t1] * c[t2] != {}
  }

  /** The titles of `s`, other than `t1`, whose casts meet the cast of `t1`. */
  ghost function Partners(c: map<string, set<string>>, t1: string, s: set<string>): set<string> {
    set t2 | t2 in s && t2 != t1 && Share(c, t1, t2)
  }

  /** The edges from `t1` to its partners among `s`. */
  ghost function Ties(c: map<string, set<string>>, t1: string, s: set<string>): set<set<string>> {
    set t2 | t2 in s && t2 != t1 && Share(c, t1, t2) :: {t1, t2}
  }

  /** The titles of `done` and their partners. */
  ghost function Seen(c: map<string, set<string>>, done: set<string>): set<string> {
    done + set t1, t2 | t1 in done && t2 in c && t2 != t1 && Share(c, t1, t2) :: t2
  }

  /** The edges between a title of `done` and a different title whose cast meets its cast. */
  ghost function Overlaps(c: map<string, set<string>>, done: set<string>): set<set<string>> {
    set t1, t2 | t1 in done && t2 in c && t2 != t1 && Share(c, t1, t2) :: {t1, t2}
  }

  lemma PartnersStep(c: map<string, set<string>>, t1: string, done: set<string>, t2: string)
    ensures Partners(c, t1, done + {t2}) == Partners(c, t1, done) + (if t2 != t1 && Share(c, t1, t2) then {t2} else {})
    ensures Ties(c, t1, done + {t2}) == Ties(c, t1, done) + (if t2 != t1 && Share(c, t1, t2) then {{t1, t2}} else {})
  {
  }

  lemma SeenStep(c: map<string, set<string>>, done: set<string>, t1: string)
    ensures Seen(c, done + {t1}) == Seen(c, done) + {t1} + Partners(c, t1, c.Keys)
  {
    forall t2 | t2 in Partners(c, t1, c.Keys)
      ensures t2 in Seen(c, done + {t1})
    {
    }
  }

  lemma OverlapsStep(c: map<string, set<string>>, done: set<string>, t1: string)
    ensures Overlaps(c, done + {t1}) == Overlaps(c, done) + Ties(c, t1, c.Keys)
  {
    forall e | e in Ties(c, t1, c.Keys)
      ensures e in Overlaps(c, done + {t1})
    {
      var t2 :| t2 in c && t2 != t1 && Share(c, t1, t2) && e == {t1, t2};
    }
    forall e | e in Overlaps(c, done + {t1})
      ensures e in Overlaps(c, done) + Ties(c, t1, c.Keys)
    {
      var u, t2 :| u in done + {t1} && t2 in c && t2 != u && Share(c, u, t2) && e == {u, t2};
      if u != t1 {
        assert e in Overlaps(c, done);
      }
    }
  }

  /** Once every title is done, the vertices are exactly the titles. */
  lemma SeenAll(c: map<string, set<string>>)
    ensures Seen(c, c.Keys) == c.Keys
  {
  }

  // ---------------------------------------------------------------------
  // createGraph
  // ---------------------------------------------------------------------

  /**
   * The scan for a shared actor: it walks the cast of the first movie and
   * stops at the first actor the second cast contains (actors of a cast
   * are told apart by name).
   */
  method ShareActor(cast1: set<string>, cast2: set<string>) returns (share: bool)
    ensures share <==> cast1 * cast2 != {}
  {
    share := false;
    var rest := cast1;
    while rest != {}
      invariant rest <= cast1
      invariant (cast1 - rest) * cast2 == {}
      decreases rest
    {
      var a :| a in rest;
      if a in cast2 {
        assert a in cast1 * cast2;
        share := true;
        return;
      }
      rest := rest - {a};
    }
    assert cast1 - rest == cast1;
  }

  /** After the titles `done`: they and their partners are vertices, each joined to its partners. */
  ghost predicate MoviesDone(k0: set<string>, e0: set<set<string>>, c: map<string, set<string>>,
                             done: set<string>, adj: Adjacency) {
    Same(adj.Keys, k0 + Seen(c, done)) && Same(Edges(adj), e0 + Overlaps(c, done))
  }

  lemma MoviesStep(k0: set<string>, e0: set<set<string>>, c: map<string, set<string>>, done: set<string>,
                   adj: Adjacency, adj': Adjacency, adj'': Adjacency, t1: string)
    requires MoviesDone(k0, e0, c, done, adj)
    requires adj'.Keys == adj.Keys + {t1} && Edges(adj') == Edges(adj)
    requires PartnersDone(adj'.Keys, Edges(adj'), c, t1, c.Keys, adj'')
    ensures MoviesDone(k0, e0, c, done + {t1}, adj'')
  {
    SeenStep(c, done, t1);
    OverlapsStep(c, done, t1);
  }

  /**
   * createGraph: every registered movie gets a vertex, and two different
   * movies get an edge iff their casts share an actor.
   */
  method CreateGraph(d: DegreesOfSeparation)
    requires d.g.Valid()
    modifies d.g
    ensures d.g.Valid()
    ensures Same(d.g.adj.Keys, old(d.g.adj.Keys) + old(d.Casts()).Keys)
    ensures Same(Edges(d.g.adj), old(Edges(d.g.adj)) + Overlaps(old(d.Casts()), old(d.Casts()).Keys))
  {
    var casts := CastTable(d.movies);
    LinkMovies(d.g, casts);
    SeenAll(casts);
  }

  /** The outer loop of createGraph, over the registered titles. */
  method LinkMovies(g: UndirectedGraph, c: map<string, set<string>>)
    requires g.Valid()
    modifies g
    ensures Screening(g, old(g.adj.Keys), old(Edges(g.adj)), c, c.Keys)
  {
    ghost var k0, e0 := g.adj.Keys, Edges(g.adj);
    var rest := c.Keys;
    ghost var done: set<string> := {};
    while rest != {}
      invariant Partitioned(c.Keys, done, rest)
      invariant Screening(g, k0, e0, c, done)
      decreases rest
    {
      var t1 :| t1 in rest;
      LinkMovie(g, c, t1, k0, e0, done);
      PartitionStep(c.Keys, done, rest, t1);
      done := done + {t1};
      rest := rest - {t1};
    }
    PartitionEnd(c.Keys, done, rest);
  }

  /** The invariant of the outer loop: a valid graph holding the titles `done` and their edges. */
  ghost predicate Screening(g: UndirectedGraph, k0: set<string>, e0: set<set<string>>,
                            c: map<string, set<string>>, done: set<string>)
    reads g
  {
    g.Valid() && MoviesDone(k0, e0, c, done, g.adj)
  }

  /** The body of the outer loop: the vertex of `t1`, then its edges to the other titles. */
  method LinkMovie(g: UndirectedGraph, c: map<string, set<string>>, t1: string,
                   ghost k0: set<string>, ghost e0: set<set<string>>, ghost done: set<string>)
    requires Screening(g, k0, e0, c, done) && t1 in c
    modifies g
    ensures Screening(g, k0, e0, c, done + {t1})
  {
    ghost var adj := g.adj;
    var v := g.AddVertex(t1);
    ghost var adj' := g.adj;
    LinkPartners(g, c, t1);
    MoviesStep(k0, e0, c, done, adj, adj', g.adj, t1);
  }

  /** After the titles `done` of the inner loop: the partners of `t1` among them are joined to it. */
  ghost predicate PartnersDone(k0: set<string>, e0: set<set<string>>, c: map<string, set<string>>,
                               t1: string, done: set<string>, adj: Adjacency) {
    Same(adj.Keys, k0 + Partners(c, t1, done)) && Same(Edges(adj), e0 + Ties(c, t1, done))
  }

  lemma PartnerStep(k0: set<string>, e0: set<set<string>>, c: map<string, set<string>>, t1: string,
                    done: set<string>, adj: Adjacency, adj': Adjacency, adj'': Adjacency, t2: string)
    requires PartnersDone(k0, e0, c, t1, done, adj) && t1 in k0
    requires t2 != t1 && Share(c, t1, t2) ==>
               && adj'.Keys == adj.Keys + {t2} && Edges(adj') == Edges(adj)
               && adj''.Keys == adj'.Keys + {t1, t2} && Edges(adj'') == Edges(adj') + {{t1, t2}}
    requires !(t2 != t1 && Share(c, t1, t2)) ==> adj'' == adj
    ensures PartnersDone(k0, e0, c, t1, done + {t2}, adj'')
  {
    PartnersStep(c, t1, done, t2);
  }

  /** The inner loop: every other title whose cast meets that of `t1` gets a vertex and an edge to it. */
  method LinkPartners(g: UndirectedGraph, c: map<string, set<string>>, t1: string)
    requires g.Valid() && t1 in g.adj && t1 in c
    modifies g
    ensures Pairing(g, old(g.adj.Keys), old(Edges(g.adj)), c, t1, c.Keys)
  {
    ghost var k0, e0 := g.adj.Keys, Edges(g.adj);
    var rest := c.Keys;
    ghost var done: set<string> := {};
    while rest != {}
      invariant Partitioned(c.Keys, done, rest)
      invariant Pairing(g, k0, e0, c, t1, done)
      decreases rest
    {
      var t2 :| t2 in rest;
      LinkPartner(g, c, t1, t2, k0, e0, done);
      PartitionStep(c.Keys, done, rest, t2);
      done := done + {t2};
      rest := rest - {t2};
    }
    PartitionEnd(c.Keys, done, rest);
  }

  /** The invariant of the inner loop: a valid graph holding the edges from `t1` to its partners in `done`. */
  ghost predicate Pairing(g: UndirectedGraph, k0: set<string>, e0: set<set<string>>,
                          c: map<string, set<string>>, t1: string, done: set<string>)
    reads g
  {
    g.Valid() && t1 in k0 && t1 in c && PartnersDone(k0, e0, c, t1, done, g.adj)
  }

  /** The body of the inner loop: skip `t1` itself; otherwise scan for a shared actor and link on success. */
  method LinkPartner(g: UndirectedGraph, c: map<string, set<string>>, t1: string, t2: string,
                     ghost k0: set<string>, ghost e0: set<set<string>>, ghost done: set<string>)
    requires Pairing(g, k0, e0, c, t1, done) && t2 in c
    modifies g
    ensures Pairing(g, k0, e0, c, t1, done + {t2})
  {
    ghost var adj := g.adj;
    ghost var adj' := g.adj;
    if t1 != t2 {
      var share := ShareActor(c[t1], c[t2]);
      if share {
        var v := g.AddVertex(t2);
        adj' := g.adj;
        g.AddEdge(t1, t2);
      }
    }
    PartnerStep(k0, e0, c, t1, done, adj, adj', g.adj, t2);
  }

  /**
   * In the graph createGraph builds from an empty one, two titles are
   * adjacent iff they are different registered titles whose casts share
   * an actor; in particular there are no self-loops.
   */
  lemma AdjacentIffShareActor(adj: Adjacency, c: map<string, set<string>>, a: string, b: string)
    requires Symmetric(adj) && Edges(adj) == Overlaps(c, c.Keys)
    ensures Adjacent(adj, a, b) <==> a != b && Share(c, a, b)
  {
    NeighboursFromEdges(adj, a, b);
    if {a, b} in Overlaps(c, c.Keys) {
      var x, y :| x in c && y in c && y != x && Share(c, x, y) && {a, b} == {x, y};
      PairCases(a, b, x, y);
    }
    if a != b && Share(c, a, b) {
      assert {a, b} in Overlaps(c, c.Keys);
    }
  }

  // ---------------------------------------------------------------------
  // Reports
  // ---------------------------------------------------------------------

  /**
   * createFrequencyChart: every vertex's distance is recorded once,
   * INFINITY as it is, so there are as many records as vertices.
   */
  method CreateFrequencyChart(d: DegreesOfSeparation)
    requires d.g.Valid() && d.histogram.Valid()
    modifies d.histogram
    ensures d.histogram.Valid()
    ensures forall k :: Count(d.histogram.counts, k) == Count(old(d.histogram.counts), k) + |Level(d.g.vertices, k)|
    ensures d.histogram.recorded == old(d.histogram.recorded) + d.g.numVertices
  {
    var all := d.g.GetVertices();
    var vs := d.g.vertices;
    RecordAll(d.histogram, all, vs, vs.Keys, Distance);
    KeyedLevel(vs);
    assert d.g.NumVertices() == |vs|;
  }

  /**
   * computeHollywoodNumber: the average distance of the reached vertices,
   * as (sum, count); positive infinity when none is reached.
   */
  method ComputeHollywoodNumber(d: DegreesOfSeparation) returns (r: Hollywood)
    requires d.g.Valid()
    ensures Reached(d.g.vertices) == {} ==> r == PositiveInfinity
    ensures Reached(d.g.vertices) != {} ==>
              r == Ratio(Total(d.g.vertices, Reached(d.g.vertices), Distance), |Reached(d.g.vertices)|)
  {
    var all := d.g.GetVertices();
    var vs := d.g.vertices;
    var sum, count := Tally(all, vs, vs.Keys, Finite, Distance);
    assert Counted(vs, vs.Keys, vs.Keys, Finite) == Reached(vs);
    if count == 0 {
      return PositiveInfinity;
    }
    r := Ratio(sum, count);
  }

  /**
   * chainAsString: the three failures as in the other schemes; otherwise
   * half the distance is reported while the walk emits one step per edge
   * of the predecessor path, so the reported number is half the number of
   * steps listed.
   */
  method ChainAsString(d: DegreesOfSeparation, name: string) returns (r: Chain)
    requires d.g.Valid() && Walkable(d.g.adj, d.g.vertices, d.source, name)
    ensures r.SourceMissing? <==> d.source !in d.g.adj
    ensures r.DestMissing? <==> d.source in d.g.adj && name !in d.g.adj
    ensures r.Infinite? <==> d.source in d.g.adj && name in d.g.adj && d.g.vertices[name].distance == INFINITY
    ensures r.Connected? <==> d.source in d.g.adj && name in d.g.adj && d.g.vertices[name].distance != INFINITY
    ensures r.Connected? ==>
              && |r.steps| == d.g.vertices[name].distance
              && r.reported == Half(|r.steps|)
              && HopPath(d.g.adj, r.steps, name, d.source)
              && FollowsPredecessors(d.g.vertices, r.steps)
  {
    var start := d.g.GetVertex(d.source);
    var dest := d.g.GetVertex(name);
    if start.None? {
      return SourceMissing;
    }
    if dest.None? {
      return DestMissing;
    }
    if dest.value.distance == INFINITY {
      return Infinite;
    }
    var steps := Walk(d.g.vertices, d.g.adj, d.source, name);
    r := Connected(Half(dest.value.distance), steps);
  }
}
