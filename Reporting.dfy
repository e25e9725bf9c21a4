/**
 * What the three degrees-of-separation schemes report, and the loops they
 * share: recording one key per vertex into the frequency chart, summing a
 * value over the reached vertices for the Hollywood number, and walking the
 * predecessor annotations back to the source for the chain.
 *
 * The loops go over the vertex list of getVertices, whose order is
 * arbitrary; every loop is specified by sets of vertex names, so its result
 * does not depend on that order.
 */
module Reporting {
  import opened Wrappers
  import opened Vertices
  import opened Graphs
  import opened Histograms
  import Sums
  import Bfs

  type Arena = map<string, Vertex>

  /**
   * computeHollywoodNumber's double: positive infinity, or the quotient
   * sum / count of two ints (count 0 stands for 0.0 / 0, that is NaN).
   */
  datatype Hollywood = PositiveInfinity | Ratio(sum: int, count: int)

  /**
   * One numbered line of a chain: `from` was in a movie with `to`, or
   * `from` was in the movie `via` with `to`.
   */
  datatype Step = Hop(from: string, to: string) | TwoHops(from: string, via: string, to: string)

  /**
   * chainAsString's outcomes; the wording of the text is not modelled.
   * NoPredecessor is a walk that stepped past the source onto its missing
   * predecessor (a NullPointerException).
   */
  datatype Chain =
    | SourceMissing
    | DestMissing
    | Infinite
    | Connected(reported: int, steps: seq<Step>)
    | NoPredecessor

  /** The distance field, as recorded and summed by the schemes. */
  function Distance(v: Vertex): int {
    v.distance
  }

  /** The vertex has been reached by a search. */
  predicate Finite(v: Vertex) {
    v.distance != INFINITY
  }

  /** The reached vertices of the arena. */
  ghost function Reached(vs: Arena): set<string> {
    set n | n in vs && vs[n].distance != INFINITY
  }

  /** The vertices of the arena at distance `k` (INFINITY for the unreached ones). */
  ghost function Level(vs: Arena, k: int): set<string> {
    set n | n in vs && vs[n].distance == k
  }

  /**
   * After a search from `src`, the reached vertices are exactly those
   * connected to the source, the source among them.
   */
  lemma ReachedAfterSearch(adj: Adjacency, vs: Arena, src: string)
    requires Bfs.ShortestPaths(adj, vs, src)
    ensures src in Reached(vs)
    ensures Reached(vs) == set n | n in vs && Reachable(adj, src, n)
  {
    assert Bfs.Visited(vs, src);
  }

  // ---------------------------------------------------------------------
  // The vertex list
  // ---------------------------------------------------------------------

  /** `all` is a getVertices result for the arena `vs`: every vertex once. */
  ghost predicate Lists(all: seq<Vertex>, vs: Arena) {
    && (forall i :: 0 <= i < |all| ==> all[i].name in vs && vs[all[i].name] == all[i])
    && (forall i, j :: 0 <= i < j < |all| ==> all[i].name != all[j].name)
    && Names(all) == vs.Keys
  }

  /** One more vertex of the list visited: its name is new. */
  lemma PrefixNames(all: seq<Vertex>, vs: Arena, i: int)
    requires Lists(all, vs) && 0 <= i < |all|
    ensures Names(all[..i + 1]) == Names(all[..i]) + {all[i].name}
    ensures all[i].name !in Names(all[..i])
  {
    assert all[..i + 1] == all[..i] + [all[i]];
    NamesAppend(all[..i], all[i]);
  }

  /** The whole list visited: every vertex of the arena. */
  lemma AllNames(all: seq<Vertex>, vs: Arena)
    requires Lists(all, vs)
    ensures Names(all[..|all|]) == vs.Keys
  {
    assert all[..|all|] == all;
  }

  // ---------------------------------------------------------------------
  // The frequency chart
  // ---------------------------------------------------------------------

  /** The vertices of `names` that are also in `among`. */
  ghost function Chosen(vs: Arena, names: set<string>, among: set<string>): set<string> {
    set n | n in names && n in among && n in vs
  }

  /** The chosen vertices whose chart key is `k`. */
  ghost function Keyed(vs: Arena, names: set<string>, among: set<string>, key: Vertex -> int, k: int): set<string> {
    set n | n in names && n in among && n in vs && key(vs[n]) == k
  }

  /** Over the whole arena and keyed by distance, the key-`k` vertices are the level-`k` vertices. */
  lemma KeyedLevel(vs: Arena)
    ensures Chosen(vs, vs.Keys, vs.Keys) == vs.Keys
    ensures forall k :: Keyed(vs, vs.Keys, vs.Keys, Distance, k) == Level(vs, k)
  {
  }

  lemma ChosenStep(vs: Arena, names: set<string>, among: set<string>, key: Vertex -> int, n: string)
    requires n in vs && n !in names
    ensures |Chosen(vs, names + {n}, among)| == |Chosen(vs, names, among)| + (if n in among then 1 else 0)
    ensures forall k :: |Keyed(vs, names + {n}, among, key, k)|
                        == |Keyed(vs, names, among, key, k)| + (if n in among && key(vs[n]) == k then 1 else 0)
  {
    if n in among {
      assert Chosen(vs, names + {n}, among) == Chosen(vs, names, among) + {n};
    } else {
      assert Chosen(vs, names + {n}, among) == Chosen(vs, names, among);
    }
    forall k
      ensures |Keyed(vs, names + {n}, among, key, k)|
              == |Keyed(vs, names, among, key, k)| + (if n in among && key(vs[n]) == k then 1 else 0)
    {
      if n in among && key(vs[n]) == k {
        assert Keyed(vs, names + {n}, among, key, k) == Keyed(vs, names, among, key, k) + {n};
      } else {
        assert Keyed(vs, names + {n}, among, key, k) == Keyed(vs, names, among, key, k);
      }
    }
  }

  /**
   * The chart loop: record key(v) for every vertex v named in `among`, once
   * each.  Every count grows by the number of such vertices with that key.
   */
  method RecordAll(h: Histogram, all: seq<Vertex>, ghost vs: Arena, among: set<string>, key: Vertex -> int)
    requires h.Valid() && Lists(all, vs)
    modifies h
    ensures h.Valid()
    ensures forall k :: Count(h.counts, k) == Count(old(h.counts), k) + |Keyed(vs, vs.Keys, among, key, k)|
    ensures h.recorded == old(h.recorded) + |Chosen(vs, vs.Keys, among)|
  {
    for i := 0 to |all|
      invariant h.Valid()
      invariant forall k :: Count(h.counts, k) == Count(old(h.counts), k) + |Keyed(vs, Names(all[..i]), among, key, k)|
      invariant h.recorded == old(h.recorded) + |Chosen(vs, Names(all[..i]), among)|
    {
      var v := all[i];
      PrefixNames(all, vs, i);
      ChosenStep(vs, Names(all[..i]), among, key, v.name);
      if v.name in among {
        h.Record(key(v));
      }
    }
    AllNames(all, vs);
  }

  // ---------------------------------------------------------------------
  // The Hollywood number
  // ---------------------------------------------------------------------

  /** The vertices of `names` in `among` that the filter `counted` accepts. */
  ghost function Counted(vs: Arena, names: set<string>, among: set<string>, counted: Vertex -> bool): set<string> {
    set n | n in names && n in among && n in vs && counted(vs[n])
  }

  /** `value` read off the arena by name, 0 for an unknown name. */
  ghost function Weigh(vs: Arena, value: Vertex -> int): string -> int {
    n => if n in vs then value(vs[n]) else 0
  }

  /** The sum of `value` over the vertices named in `names`. */
  ghost function Total(vs: Arena, names: set<string>, value: Vertex -> int): int {
    Sums.Sum(names, Weigh(vs, value))
  }

  lemma CountedStep(vs: Arena, names: set<string>, among: set<string>, counted: Vertex -> bool,
                    value: Vertex -> int, n: string)
    requires n in vs && n !in names
    ensures var c, c' := Counted(vs, names, among, counted), Counted(vs, names + {n}, among, counted);
            if n in among && counted(vs[n]) then
              c' == c + {n} && n !in c && Total(vs, c', value) == Total(vs, c, value) + value(vs[n])
            else c' == c
  {
    var c, c' := Counted(vs, names, among, counted), Counted(vs, names + {n}, among, counted);
    if n in among && counted(vs[n]) {
      assert c' == c + {n};
      Sums.SumAdd(c, Weigh(vs, value), n);
    } else {
      assert c' == c;
    }
  }

  /**
   * The accumulator loop of computeHollywoodNumber: over the vertices named
   * in `among` that `counted` accepts, the sum of `value` and their number.
   */
  method Tally(all: seq<Vertex>, ghost vs: Arena, among: set<string>, counted: Vertex -> bool, value: Vertex -> int)
    returns (sum: int, count: int)
    requires Lists(all, vs)
    ensures count == |Counted(vs, vs.Keys, among, counted)|
    ensures sum == Total(vs, Counted(vs, vs.Keys, among, counted), value)
  {
    sum, count := 0, 0;
    for i := 0 to |all|
      invariant count == |Counted(vs, Names(all[..i]), among, counted)|
      invariant sum == Total(vs, Counted(vs, Names(all[..i]), among, counted), value)
    {
      var v := all[i];
      PrefixNames(all, vs, i);
      CountedStep(vs, Names(all[..i]), among, counted, value, v.name);
      if v.name in among && counted(v) {
        sum := sum + value(v);
        count := count + 1;
      }
    }
    AllNames(all, vs);
  }

  // ---------------------------------------------------------------------
  // The chain
  // ---------------------------------------------------------------------

  /**
   * What the predecessor walk needs: when the source and the destination
   * are both vertices and the destination has been reached, the annotations
   * are those of a search from the source (a predecessor tree rooted there).
   */
  ghost predicate Walkable(adj: Adjacency, vs: Arena, src: string, name: string) {
    src in vs && name in vs && vs[name].distance != INFINITY ==> Bfs.Tree(adj, vs, src)
  }

  /** `steps` are single hops along edges, each starting where the last ended, from `from` to `to`. */
  ghost predicate HopPath(adj: Adjacency, steps: seq<Step>, from: string, to: string) {
    && (forall i :: 0 <= i < |steps| ==> steps[i].Hop? && Adjacent(adj, steps[i].to, steps[i].from))
    && (forall i :: 0 <= i < |steps| - 1 ==> steps[i].to == steps[i + 1].from)
    && (if steps == [] then from == to else steps[0].from == from && steps[|steps| - 1].to == to)
  }

  /** `steps` are actor-movie-actor double hops along edges, from `from` to `to`. */
  ghost predicate TwoHopPath(adj: Adjacency, steps: seq<Step>, from: string, to: string) {
    && (forall i :: 0 <= i < |steps| ==>
          steps[i].TwoHops? && Adjacent(adj, steps[i].via, steps[i].from) && Adjacent(adj, steps[i].to, steps[i].via))
    && (forall i :: 0 <= i < |steps| - 1 ==> steps[i].to == steps[i + 1].from)
    && (if steps == [] then from == to else steps[0].from == from && steps[|steps| - 1].to == to)
  }

  /** Every single hop goes from a vertex to its recorded predecessor. */
  ghost predicate FollowsPredecessors(vs: Arena, steps: seq<Step>) {
    forall i :: 0 <= i < |steps| ==> steps[i].from in vs && vs[steps[i].from].predecessor == Some(steps[i].to)
  }

  /** Every double hop goes from a vertex to its predecessor and on to that one's predecessor. */
  ghost predicate FollowsTwoPredecessors(vs: Arena, steps: seq<Step>) {
    forall i :: 0 <= i < |steps| ==>
      && steps[i].TwoHops?
      && steps[i].from in vs && vs[steps[i].from].predecessor == Some(steps[i].via)
      && steps[i].via in vs && vs[steps[i].via].predecessor == Some(steps[i].to)
  }

  lemma HopPathExtend(adj: Adjacency, steps: seq<Step>, from: string, cur: string, p: string)
    requires HopPath(adj, steps, from, cur) && Adjacent(adj, p, cur)
    ensures HopPath(adj, steps + [Hop(cur, p)], from, p)
  {
  }

  lemma TwoHopPathExtend(adj: Adjacency, steps: seq<Step>, from: string, cur: string, p: string, q: string)
    requires TwoHopPath(adj, steps, from, cur) && Adjacent(adj, p, cur) && Adjacent(adj, q, p)
    ensures TwoHopPath(adj, steps + [TwoHops(cur, p, q)], from, q)
  {
  }

  /** A reached vertex other than the root hangs off an adjacent vertex one step closer. */
  lemma TreeStep(adj: Adjacency, vs: Arena, src: string, n: string)
    requires Bfs.Tree(adj, vs, src) && n in vs && vs[n].distance != INFINITY && n != src
    ensures vs[n].predecessor.Some? && vs[n].predecessor.value in vs
    ensures vs[vs[n].predecessor.value].distance + 1 == vs[n].distance
    ensures 0 < vs[n].distance <= INFINITY
    ensures Adjacent(adj, vs[n].predecessor.value, n)
  {
    assert Bfs.Labelled(adj, vs, src, n);
  }

  /** The root is at distance 0. */
  lemma TreeRoot(adj: Adjacency, vs: Arena, src: string)
    requires Bfs.Tree(adj, vs, src)
    ensures src in vs && vs[src].distance == 0
  {
  }

  /**
   * The while (dest != start) loop with single steps: from the reached
   * vertex `name`, follow predecessors until the source, one step per edge.
   */
  method Walk(vs: Arena, adj: Adjacency, src: string, name: string) returns (steps: seq<Step>)
    requires Bfs.Tree(adj, vs, src) && name in vs && vs[name].distance != INFINITY
    ensures |steps| == vs[name].distance
    ensures HopPath(adj, steps, name, src)
    ensures FollowsPredecessors(vs, steps)
  {
    steps := [];
    var cur := name;
    while cur != src
      invariant cur in vs && vs[cur].distance != INFINITY
      invariant |steps| + vs[cur].distance == vs[name].distance
      invariant HopPath(adj, steps, name, cur)
      invariant FollowsPredecessors(vs, steps)
      decreases vs[cur].distance
    {
      TreeStep(adj, vs, src, cur);
      var p := vs[cur].predecessor.value;
      HopPathExtend(adj, steps, name, cur, p);
      steps := steps + [Hop(cur, p)];
      cur := p;
    }
    TreeRoot(adj, vs, src);
  }

  /** The state of the two-step walk: `cur` is reached, `half - |steps|` double steps from the root. */
  ghost predicate Walked(adj: Adjacency, vs: Arena, name: string, cur: string, steps: seq<Step>, half: int) {
    && cur in vs && vs[cur].distance != INFINITY
    && vs[cur].distance == 2 * (half - |steps|)
    && TwoHopPath(adj, steps, name, cur)
  }

  /** From a reached vertex other than the root, two predecessor steps stay inside the tree. */
  lemma WalkedStep(adj: Adjacency, vs: Arena, src: string, name: string, cur: string, steps: seq<Step>, half: int)
    requires Bfs.Tree(adj, vs, src) && Walked(adj, vs, name, cur, steps, half) && cur != src
    ensures vs[cur].predecessor.Some? && vs[cur].predecessor.value in vs
    ensures var p := vs[cur].predecessor.value;
            && vs[p].predecessor.Some?
            && var q := vs[p].predecessor.value;
            && Walked(adj, vs, name, q, steps + [TwoHops(cur, p, q)], half)
            && vs[q].distance < vs[cur].distance
  {
    TreeRoot(adj, vs, src);
    TreeStep(adj, vs, src, cur);
    var p := vs[cur].predecessor.value;
    TreeStep(adj, vs, src, p);
    var q := vs[p].predecessor.value;
    TwoHopPathExtend(adj, steps, name, cur, p, q);
  }

  /**
   * The same loop stepping two predecessors at a time (actor, movie, actor),
   * which stays clear of the source's missing predecessor only from an even
   * distance.
   */
  method WalkTwo(vs: Arena, adj: Adjacency, src: string, name: string) returns (steps: seq<Step>)
    requires Bfs.Tree(adj, vs, src) && name in vs && vs[name].distance != INFINITY
    requires vs[name].distance % 2 == 0
    ensures 2 * |steps| == vs[name].distance
    ensures TwoHopPath(adj, steps, name, src)
    ensures FollowsTwoPredecessors(vs, steps)
  {
    steps := [];
    var cur := name;
    ghost var half := vs[name].distance / 2;
    while cur != src
      invariant Walked(adj, vs, name, cur, steps, half)
      invariant FollowsTwoPredecessors(vs, steps)
      decreases vs[cur].distance
    {
      WalkedStep(adj, vs, src, name, cur, steps, half);
      var p := vs[cur].predecessor.value;
      var q := vs[p].predecessor.value;
      steps := steps + [TwoHops(cur, p, q)];
      cur := q;
    }
    TreeRoot(adj, vs, src);
  }

  /** The vertices of a hop walk, read backwards: a path from the source. */
  ghost function Trail(steps: seq<Step>, to: string): seq<string> {
    seq(|steps| + 1, j requires 0 <= j <= |steps| => if j == |steps| then to else steps[|steps| - 1 - j].to)
  }

  /** The vertices of a hop walk from `name` to `src`, read backwards, form a path from `src` to `name`. */
  lemma TrailIsPath(adj: Adjacency, steps: seq<Step>, name: string, src: string)
    requires HopPath(adj, steps, name, src) && name in adj
    ensures PathBetween(adj, Trail(steps, name), src, name)
    ensures |Trail(steps, name)| == |steps| + 1
  {
    var m := |steps|;
    var p := Trail(steps, name);
    forall k | 0 <= k < m
      ensures p[m - 1 - k] == steps[k].to && p[m - k] == steps[k].from
    {
      if k > 0 {
        assert steps[k - 1].to == steps[k].from;
      }
    }
  }

  /**
   * The chain of single hops that the walk reports is a shortest path: its
   * length is the least number of edges from the source to `name`.
   */
  lemma WalkIsShortest(adj: Adjacency, vs: Arena, src: string, name: string, steps: seq<Step>)
    requires Bfs.ShortestPaths(adj, vs, src) && name in adj && name in vs
    requires vs[name].distance != INFINITY
    requires HopPath(adj, steps, name, src) && |steps| == vs[name].distance
    ensures Bfs.IsShortest(adj, src, name, |steps|)
  {
    TrailIsPath(adj, steps, name, src);
    assert Bfs.Visited(vs, name);
  }
}
