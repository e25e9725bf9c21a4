/**
 * Graph vertices.  A vertex is a named record carrying the two fields that
 * breadth-first search writes: the distance from the traversal's source
 * (INFINITY when no path is known) and the predecessor on a shortest path.
 * Vertices are kept in an arena keyed by name inside the graph, so the
 * predecessor is the predecessor's name rather than an object reference.
 */
module Vertices {
  import opened Wrappers
  import opened JavaLang

  /** Vertex.INFINITY, Integer.MAX_VALUE: "no path from the source". */
  const INFINITY: int := MaxInt

  datatype Vertex = Vertex(name: string, distance: int, predecessor: Option<string>)

  /** A vertex as first created: infinitely far away, with no predecessor. */
  function NewVertex(name: string): (v: Vertex)
    ensures v.name == name && v.distance == INFINITY && v.predecessor.None?
  {
    Vertex(name, INFINITY, None)
  }

  /** A distance as BFS produces it: a hop count or the sentinel. */
  predicate IsDistance(d: int) {
    0 <= d <= INFINITY
  }

  /**
   * Vertex.compareTo: order by distance first (as an int subtraction,
   * which wraps), then by name.
   */
  function CompareTo(v: Vertex, w: Vertex): (r: int)
    ensures InIntRange(v.distance) && InIntRange(w.distance) && v.distance != w.distance ==> r != 0
    ensures v.distance == w.distance ==> r == CompareStrings(v.name, w.name)
    ensures IsDistance(v.distance) && IsDistance(w.distance) ==>
              (r < 0 <==> v.distance < w.distance || (v.distance == w.distance && CompareStrings(v.name, w.name) < 0))
    ensures IsDistance(v.distance) && IsDistance(w.distance) ==>
              (r == 0 <==> v.distance == w.distance && v.name == w.name)
  {
    var diff := Wrap32(v.distance - w.distance);
    if diff != 0 then diff else CompareStrings(v.name, w.name)
  }

  /** Between BFS-produced distances, compareTo is antisymmetric. */
  lemma CompareToAntisymmetric(v: Vertex, w: Vertex)
    requires IsDistance(v.distance) && IsDistance(w.distance)
    ensures CompareTo(v, w) == -CompareTo(w, v)
  {
    CompareStringsAntisymmetric(v.name, w.name);
  }

  /** Vertex.hashCode: the hash of the name alone, an int. */
  function HashCode(v: Vertex): (h: int)
    ensures InIntRange(h)
  {
    StringHash(v.name)
  }
}
