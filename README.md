# Oracle of Bacon — degrees of separation, modelled in Dafny

The system answers "how many steps separate two people (or two films)?" over
a database of movies and their casts. It reads lines of the form
`title / actor / actor / ...` into two registries, an actor and a movie
registry, in which each actor knows its movies and each movie its cast. It
then builds an undirected graph from them using one of three schemes:

- **actor-to-actor**: actors, joined when they shared a movie;
- **actor-to-movie**: actors and titles, each actor joined to its titles;
- **movie-to-movie**: titles, joined when their casts overlap.

A breadth-first search from a source vertex annotates every vertex with its
hop count and its predecessor on a shortest path. Three reports read those
annotations:

- a frequency chart (a histogram of distances);
- the "Hollywood number", the average distance of the reached vertices;
- the chain of links from a named vertex back to the source.

## Modules and files

| file | module | what it holds |
|---|---|---|
| `Wrappers.dfy` | `Wrappers` | `Option` (Java's `null`) |
| `JavaLang.dfy` | `JavaLang` | 32-bit wrap-around, Java's truncating `/ 2`, `String.compareTo`, `String.hashCode` |
| `Sums.dfy` | `Sums` | sums over finite sets, with small lemmas |
| `Vertex.dfy` | `Vertices` | the vertex record, `INFINITY`, `compareTo` and `hashCode` |
| `UndirectedGraph.dfy` | `Graphs` | the graph class, over a name → vertex arena and a name → neighbour-name map, with its counters and invariant |
| `Bfs.dfy` | `Bfs` | the reset loop and the queue loop, proved to produce a shortest-path tree |
| `Histogram.dfy` | `Histograms` | the ordered key → count table |
| `Entities.dfy` | `Entities` | the `Actor` and `Movie` classes, including the cached co-star map |
| `DegreesOfSeparation.dfy` | `Separation` | the shared state, the line-reading loop, and `traverseBFS(name)` |
| `Reporting.dfy` | `Reporting` | what the three schemes share: the chart loop, the accumulator loop, the predecessor walks, and their result types |
| `ActorToActor.dfy`, `ActorToMovie.dfy`, `MovieToMovie.dfy` | one per scheme | `createGraph`, `createFrequencyChart`, `computeHollywoodNumber`, `chainAsString` |

### How the model is built

- **Vertices.** A vertex is a value `Vertex(name, distance, predecessor)` stored in the graph's arena under its name. The predecessor is the predecessor's name.
- **Graph.** The graph's invariant `Valid()` says:
  - both maps have the same keys;
  - adjacency is mutual;
  - `numVertices` is the number of names;
  - `numEdges` is the number of unordered adjacent pairs, with a self-loop counted as one.

  Every mutating method keeps this invariant.
- **Building the graph.** Each scheme's `createGraph` is proved to produce a particular vertex set and edge set, given as sets of names and of unordered pairs. Lemmas then state the adjacency these sets mean. For example, two actors are adjacent iff they are different and share a movie.
- **Search.** The queue loop carries a shortest-path invariant. After the search:
  - the annotations form a predecessor tree rooted at the source;
  - a vertex is reached iff it is connected to the source;
  - no path is shorter than its recorded distance.
- **Reports.** Each report loop goes over `getVertices()` in arbitrary order. Each is specified by sets of names, so its result does not depend on that order.
- **Numbers.** A `double` result becomes `PositiveInfinity` or `Ratio(sum, count)`.
- **Chains.** A chain becomes one of `SourceMissing`, `DestMissing`, `Infinite`, `Connected(reported, steps)` or `NoPredecessor`.

### Quirks modelled as written

- **Repeated titles.** A repeated title replaces the earlier `Movie` in the movie registry, with a new cast, while each actor's filmography keeps its first movie object for that title.
- **Actor-to-movie rounding.**
  - The chart records the rounded-up half of a distance, `d - d / 2`.
  - The Hollywood number and the chain use the rounded-down half, `d / 2`.
  - `ActorToMovie.ActorKeysAreHalfDistances` proves the two agree on every actor reached from an actor.
- **Actor-to-movie chains from odd distances.** The two-step walk from an odd distance steps past the source onto its missing predecessor. In the source this is a `NullPointerException`; the model gives the `NoPredecessor` outcome.
- **Actor-to-movie Hollywood number.** It has no guard against a zero count, so `0.0 / 0` is `Ratio(0, 0)`.
- **Movie-to-movie chains.** They report `distance / 2` while listing `distance` single steps.

## Model

| member | source | states |
|---|---|---|
| Vertices.NewVertex | sixdegrees/graphs/Vertex.java:44-48 | a new vertex has the given name, distance INFINITY (Integer.MAX_VALUE) and no predecessor |
| Vertices.CompareTo | sixdegrees/graphs/Vertex.java:55-61 | distance decides first, as a wrapping int subtraction: for in-range distances that differ, the result is non-zero. Equal distances fall back to name order. Between BFS distances the result is negative iff (distance, name) is lexicographically smaller, and zero iff both are equal |
| Vertices.CompareToAntisymmetric | sixdegrees/graphs/Vertex.java:55-61 | between BFS-produced distances, compareTo(v, w) == -compareTo(w, v) |
| Vertices.HashCode | sixdegrees/graphs/Vertex.java:89-92 | the hash is an int computed from the name alone |
| JavaLang.Wrap32 | sixdegrees/graphs/Vertex.java:56 | int arithmetic: the result is in int range, equal to the exact value when that is in range, and congruent to it modulo 2^32 |
| JavaLang.Half | hw04/separation/ActorToMovieDegreesOfSeparation.java:108 | Java's `/ 2` truncates toward zero: for a >= 0, 2q <= a <= 2q+1; for a < 0, 2q-1 <= a <= 2q |
| JavaLang.CompareStrings | sixdegrees/utils/Movie.java:49-51 | String.compareTo is zero exactly on equal strings |
| JavaLang.CompareStringsAntisymmetric | sixdegrees/utils/Actor.java:46-48 | String.compareTo(a, b) == -compareTo(b, a) |
| Graphs.UndirectedGraph.constructor | sixdegrees/graphs/UndirectedGraph.java:31-35 | a new graph is valid, with no vertices, no edges and both counters 0 |
| Graphs.UndirectedGraph.AddVertex | sixdegrees/graphs/UndirectedGraph.java:47-58 | returns the stored vertex of that name. An existing name changes nothing. A new name gets a fresh vertex with no neighbours and raises numVertices by exactly one. The edge set and numEdges are unchanged, and the graph stays valid |
| Graphs.UndirectedGraph.AddEdge | sixdegrees/graphs/UndirectedGraph.java:136-147 | when hasEdge(from, to) already holds, nothing changes. Otherwise missing endpoints are created and numEdges rises by one. In both cases the edge set becomes the old one plus {from, to} (a self-loop counts once), and the graph stays valid |
| Graphs.UndirectedGraph.Connect | sixdegrees/graphs/UndirectedGraph.java:140-146 | past the guard: endpoints registered, one new unordered edge, the counter up by one |
| Graphs.UndirectedGraph.AddEndpoints | sixdegrees/graphs/UndirectedGraph.java:141-144 | both endpoints become vertices; no edge is added |
| Graphs.UndirectedGraph.Link | sixdegrees/graphs/UndirectedGraph.java:145-146 | each endpoint joins the other's neighbour set, which adds exactly the pair {from, to} to the edges and keeps the invariant |
| Graphs.UndirectedGraph.HasEdge | sixdegrees/graphs/UndirectedGraph.java:160-164 | true iff both names are vertices and adjacent. It is false for an unknown name, and the order of the endpoints does not matter |
| Graphs.UndirectedGraph.HasVertex | sixdegrees/graphs/UndirectedGraph.java:110-112 | true iff the name is registered |
| Graphs.UndirectedGraph.GetVertex | sixdegrees/graphs/UndirectedGraph.java:84-86 | None (null) exactly for an unknown name; otherwise the stored vertex of that name |
| Graphs.UndirectedGraph.AdjacentTo | sixdegrees/graphs/UndirectedGraph.java:69-73 | empty for an unknown name; otherwise exactly the names w with hasEdge(name, w) |
| Graphs.UndirectedGraph.AdjacentToVertex | sixdegrees/graphs/UndirectedGraph.java:242-246 | the neighbours of v if v is the stored vertex of its name (the adjacency table's key equality); empty otherwise |
| Graphs.UndirectedGraph.NumVertices | sixdegrees/graphs/UndirectedGraph.java:119-121 | equals the number of registered names |
| Graphs.UndirectedGraph.NumEdges | sixdegrees/graphs/UndirectedGraph.java:171-173 | equals the number of distinct unordered adjacent pairs, self-loops included |
| Graphs.UndirectedGraph.GetVertices | sixdegrees/graphs/UndirectedGraph.java:93-100 | every stored vertex exactly once: numVertices entries with distinct names covering the arena |
| Graphs.ListValues | sixdegrees/graphs/UndirectedGraph.java:95-97 | the loop over the keys lists each value of the arena once |
| Graphs.NeighboursFromEdges | sixdegrees/graphs/UndirectedGraph.java:160-164 | under mutual adjacency, b is a neighbour of a iff {a, b} is an edge |
| Graphs.EdgesAfterAdd | sixdegrees/graphs/UndirectedGraph.java:140-146 | adding an absent edge adds exactly one unordered pair, so the edge count rises by exactly one |
| Graphs.LinkConsistent | sixdegrees/graphs/UndirectedGraph.java:140-146 | linking two registered, non-adjacent vertices keeps the invariant with numEdges + 1 |
| Graphs.RegisterConsistent | sixdegrees/graphs/UndirectedGraph.java:50-55 | registering a new name with no neighbours keeps the invariant with numVertices + 1 and the same edges |
| Graphs.LinkedIsWithEdge | sixdegrees/graphs/UndirectedGraph.java:145-146 | the two neighbour-set insertions are the same adjacency as "add the edge from-to" |
| Bfs.TraverseBFS | hw04/separation/AbstractDegreesOfSeparation.java:66-96 | an unknown source touches no vertex. Otherwise, afterwards: the source has distance 0 and no predecessor; every other reached vertex has an adjacent predecessor one step closer; a vertex is reached iff it is connected to the source, and an unreached one keeps INFINITY and no predecessor; no path is shorter than a recorded distance; each vertex is enqueued at most once, so at most numVertices times in all |
| Bfs.Annotate | hw04/separation/AbstractDegreesOfSeparation.java:70-94 | the reset loop, then the queue loop, establish the shortest-path tree over the whole arena |
| Bfs.ResetAll | hw04/separation/AbstractDegreesOfSeparation.java:70-73 | every vertex ends at distance INFINITY with no predecessor, and no vertex is added or removed |
| Bfs.Search | hw04/separation/AbstractDegreesOfSeparation.java:78-94 | the queue loop, started from [source]. Its invariant: the queue is a suffix of the enqueue history, with non-decreasing distances spanning at most one level. It ends with the shortest-path tree |
| Bfs.ScanNeighbours | hw04/separation/AbstractDegreesOfSeparation.java:83-93 | the loop over the dequeued vertex's neighbours: every neighbour at INFINITY gets the dequeued vertex's distance + 1 and that vertex as predecessor, and every other vertex is unchanged. The queue grows by exactly those neighbours, each once, and keeps its earlier entries. Afterwards every neighbour is reached and the queue-loop invariant holds |
| Bfs.ScanVisit | hw04/separation/AbstractDegreesOfSeparation.java:86-90 | labelling and enqueueing a neighbour still at INFINITY extends the record of the scan by that neighbour: its new label, and its place at the end of the queue |
| Bfs.ScanSkip | hw04/separation/AbstractDegreesOfSeparation.java:86 | passing over an already reached neighbour changes neither the arena nor the queue |
| Bfs.InitialState | hw04/separation/AbstractDegreesOfSeparation.java:70-76 | after the reset and `source.distance = 0`, the loop invariant holds with the queue [source] |
| Bfs.VisitNeighbour | hw04/separation/AbstractDegreesOfSeparation.java:84-91 | reaching an unvisited neighbour at distance + 1 and enqueueing it keeps the invariant, and its distance is below INFINITY |
| Bfs.VisitNoShortcut | hw04/separation/AbstractDegreesOfSeparation.java:84-88 | a newly reached neighbour has no path shorter than its new distance |
| Bfs.FinalState | hw04/separation/AbstractDegreesOfSeparation.java:78-94 | once the queue is empty, the invariant gives the shortest-path tree |
| Bfs.ClosedPathVisited | hw04/separation/AbstractDegreesOfSeparation.java:78-94 | with the queue empty, every vertex on a path from the source has been reached |
| Bfs.HistoryFacts | hw04/separation/AbstractDegreesOfSeparation.java:84-91 | the enqueue history lists each reached vertex exactly once |
| Bfs.TreePath | hw04/separation/AbstractDegreesOfSeparation.java:83-88 | following predecessors from a reached vertex gives a path from the source with exactly `distance` edges |
| Bfs.BfsDistanceIsShortest | hw04/separation/AbstractDegreesOfSeparation.java:78-94 | a reached vertex's distance is the number of edges of a shortest path from the source |
| Bfs.ShortestUnique | hw04/separation/AbstractDegreesOfSeparation.java:78-94 | the shortest-path length is unique |
| Bfs.RerunSameDistances | hw04/separation/AbstractDegreesOfSeparation.java:70-73 | two searches from the same source over the same edges (a rerun after the reset) agree on every distance and on which vertices are unreached |
| Histograms.Count | hw04/utils/Histogram.java:74 | getOrDefault(key, 0): the stored count, or 0 for an absent key |
| Histograms.WeightAfterRecord | hw04/utils/Histogram.java:73-75 | one more occurrence of a key adds exactly one to the total of all counts |
| Histograms.Extremes | hw04/utils/Histogram.java:92-103 | a non-empty key set has a least and a greatest key |
| Histograms.Histogram.constructor | hw04/utils/Histogram.java:56-63 | a new histogram keeps its title and labels, and its table is empty |
| Histograms.Histogram.Record | hw04/utils/Histogram.java:73-75 | the count of key rises by one (to 1 if it was absent) and no other count changes. Every count stays at least 1, and the counts still sum to the number of record calls |
| Histograms.Histogram.IsEmpty | hw04/utils/Histogram.java:83-85 | true iff the table is empty, iff record has never been called |
| Histograms.Histogram.Minimum | hw04/utils/Histogram.java:92-94 | the least recorded key; None exactly on an empty table |
| Histograms.Histogram.Maximum | hw04/utils/Histogram.java:101-103 | the greatest recorded key; None exactly on an empty table |
| Histograms.Histogram.Total | hw04/utils/Histogram.java:115-121 | the sum of the counts of the keys in [lo, hi], both inclusive, and 0 when no key is in range |
| Histograms.TotalOfFullRange | hw04/utils/Histogram.java:115-121 | total(minimum(), maximum()) covers every key and equals the number of record calls |
| Histograms.RecordSample | hw04/utils/HistogramTest.java:39-47 | an instance of the test driver's constructor call and record loop on the fixed input 1, 1, 2, 5 in place of its random values: the table becomes {1: 2, 2: 1, 5: 1} |
| Histograms.RecordExample | hw04/utils/Histogram.java:73-121 | after recording 1, 1, 2, 5: minimum() == 1, maximum() == 5 and total(1, 2) == 3 |
| Entities.Movie.constructor | sixdegrees/utils/Movie.java:29-32 | a new movie has the given title and no cast |
| Entities.Movie.AddActor | sixdegrees/utils/Movie.java:40-42 | the actor's name joins the cast; an actor of a name already present is ignored, so adding again changes nothing |
| Entities.Movie.GetActors | sixdegrees/utils/Movie.java:58-60 | exactly the cast members, each under its own name |
| Entities.Movie.CompareTo | sixdegrees/utils/Movie.java:49-51 | title order: zero iff the titles are equal, and antisymmetric |
| Entities.Movie.HashCode | sixdegrees/utils/Movie.java:87-89 | an int that depends on the title alone |
| Entities.Actor.constructor | sixdegrees/utils/Actor.java:35-39 | a new actor has the given name, no movies and no cached co-star map |
| Entities.Actor.Add | sixdegrees/utils/Actor.java:104-106 | the movie's title joins the filmography; a second movie of the same title is ignored |
| Entities.Actor.GetMovies | sixdegrees/utils/Actor.java:64-66 | exactly the movies added, each under its own title |
| Entities.Actor.CompareTo | sixdegrees/utils/Actor.java:46-48 | name order: zero iff the names are equal, and antisymmetric |
| Entities.Actor.HashCode | sixdegrees/utils/Actor.java:135-137 | an int that depends on the name alone |
| Entities.Actor.CoStars | sixdegrees/utils/Actor.java:83-96 | with a cached map, the cached map is returned whatever was added since. On the first call, the map's keys are exactly the other actors of this actor's movies, never the actor itself; each maps to one of its movies that has it in its cast; and the map is cached |
| Entities.CollectCoStars | sixdegrees/utils/Actor.java:86-93 | the nested loops put every other cast member of every movie, each mapped to a movie they share |
| Entities.PutCast | sixdegrees/utils/Actor.java:88-92 | the inner loop maps every cast member other than this actor to the current movie and leaves the other entries alone |
| Separation.DegreesOfSeparation.constructor | sixdegrees/separation/DegreesOfSeparation.java:45-51 | empty registries, a fresh empty graph, the given source name, and a fresh empty histogram titled "Frequency Chart for: " + source |
| Separation.DegreesOfSeparation.Default | sixdegrees/separation/DegreesOfSeparation.java:34-36 | the same, with the source "Bacon, Kevin" |
| Separation.DegreesOfSeparation.ReadLine | sixdegrees/separation/DegreesOfSeparation.java:159-178 | a line with no elements changes nothing. Otherwise a fresh movie for elems[0] replaces any earlier one; its cast becomes exactly the listed names; and every listed name is credited with the title. Existing actors are reused, and every other actor is new. The registries stay coherent: every cast member is a registered actor credited with the title, and every credited title is a registered movie. The converse does not hold: an actor of an earlier line for a repeated title keeps the credit but is not in the new cast |
| Separation.ReadLines | sixdegrees/separation/DegreesOfSeparation.java:155-179 | the line loop: the title → cast table is that of the last line for each title, and every actor is credited with each title it is listed under; registries stay coherent |
| Separation.ReadNext | sixdegrees/separation/DegreesOfSeparation.java:155-157 | one more line read on top of the earlier ones |
| Separation.AddLine | sixdegrees/separation/DegreesOfSeparation.java:162-177 | a non-empty line's new movie, its cast and the credits of its names, keeping the registries coherent |
| Separation.EnlistAll | sixdegrees/separation/DegreesOfSeparation.java:166-177 | the loop over a line's names: every listed name is in the registry and in the cast as the same actor, and is credited with the title |
| Separation.EnlistNext | sixdegrees/separation/DegreesOfSeparation.java:166-177 | one more name enlisted; earlier registry entries are kept |
| Separation.Enlist | sixdegrees/separation/DegreesOfSeparation.java:169-176 | reuse the registered actor of that name or register exactly one new one; then actor and movie are added to each other |
| Separation.Register | sixdegrees/separation/DegreesOfSeparation.java:169-173 | the registered actor of that name, or a fresh one with no movies, now stored under the name |
| Separation.Join | sixdegrees/separation/DegreesOfSeparation.java:175-176 | the title joins the actor's movies, and the actor joins the movie's cast unless one of that name is there |
| Separation.LineKeepsCoherent | sixdegrees/separation/DegreesOfSeparation.java:159-178 | a line keeps the registries coherent: every cast member is the registered actor of that name and has the title among its movies, and every credited title is registered |
| Separation.FilmTable | hw04/separation/ActorToMovieDegreesOfSeparation.java:62-70 | the actor → titles table read off the actors is the registry's filmography |
| Separation.CastTable | hw04/separation/ActorToActorDegreesOfSeparation.java:63-69 | the title → cast-names table read off the movies is the registry's casts |
| Separation.DegreesOfSeparation.TraverseBFS | sixdegrees/separation/DegreesOfSeparation.java:199-203 | an unknown name changes nothing; otherwise the annotations become the shortest-path tree from that name |
| Reporting.ReachedAfterSearch | hw04/separation/AbstractDegreesOfSeparation.java:78-94 | after a search, the source is reached and the reached vertices are exactly those connected to it |
| Reporting.RecordAll | hw04/separation/ActorToActorDegreesOfSeparation.java:88-96 | the chart loop records key(v) once for every listed vertex in the chosen set, so each count rises by the number of such vertices with that key |
| Reporting.KeyedLevel | hw04/separation/MovieToMovieDegreesOfSeparation.java:93-104 | keyed by raw distance over all vertices, the vertices with key k are those at distance k |
| Reporting.Tally | hw04/separation/ActorToActorDegreesOfSeparation.java:105-114 | the accumulator loop: the count of vertices the filter accepts, and the sum of the value over them |
| Reporting.Walk | hw04/separation/ActorToActorDegreesOfSeparation.java:151-157 | the predecessor walk from a reached vertex ends at the source after exactly `distance` steps. Each step goes from a vertex to its recorded predecessor, along an edge |
| Reporting.WalkTwo | hw04/separation/ActorToMovieDegreesOfSeparation.java:144-150 | from an even distance, the two-at-a-time walk ends at the source after distance / 2 steps. Each step goes from a vertex to its predecessor (`via`) and on to that one's predecessor, along two edges (actor, movie, actor) |
| Reporting.TreeStep | hw04/separation/AbstractDegreesOfSeparation.java:86-88 | a reached vertex other than the source has an adjacent predecessor one step closer |
| Reporting.TrailIsPath | hw04/separation/ActorToActorDegreesOfSeparation.java:152-157 | the chain's steps, read backwards, are a path from the source to the destination |
| Reporting.WalkIsShortest | hw04/separation/ActorToActorDegreesOfSeparation.java:149-157 | after a search, the chain of single steps is a shortest path: no path from the source has fewer edges |
| ActorToActor.CreateGraph | hw04/separation/ActorToActorDegreesOfSeparation.java:61-83 | the vertices become the old ones plus every cast member of every movie, and the edges the old ones plus every pair of different actors who share a movie |
| ActorToActor.LinkTitles | hw04/separation/ActorToActorDegreesOfSeparation.java:63-82 | the loop over movies adds each movie's cast as vertices and the pairs of its different members as edges |
| ActorToActor.LinkTitle | hw04/separation/ActorToActorDegreesOfSeparation.java:64-81 | one movie's cast and co-star pairs added |
| ActorToActor.LinkCast | hw04/separation/ActorToActorDegreesOfSeparation.java:72-81 | the loop over a cast: every member a vertex, every pair of different members an edge |
| ActorToActor.LinkMember | hw04/separation/ActorToActorDegreesOfSeparation.java:73-80 | one cast member's vertex and its edges to the other members |
| ActorToActor.LinkFrom | hw04/separation/ActorToActorDegreesOfSeparation.java:75-80 | the inner loop adds an edge from actor1 to every other cast member, and no self-loop |
| ActorToActor.Spoke | hw04/separation/ActorToActorDegreesOfSeparation.java:76-79 | the edge actor1-actor2 exactly when the two are different actors |
| ActorToActor.AdjacentIffCoStars | hw04/separation/ActorToActorDegreesOfSeparation.java:61-83 | in the graph built from an empty one, two actors are adjacent iff they are different and share a movie (so there are no self-loops) |
| ActorToActor.LoneActorIsolated | hw04/separation/ActorToActorDegreesOfSeparation.java:72-79 | an actor whose every movie has no other cast member is an isolated vertex |
| ActorToActor.CreateFrequencyChart | hw04/separation/ActorToActorDegreesOfSeparation.java:88-96 | every vertex's raw distance is recorded once, INFINITY included: each count rises by the number of vertices at that distance, numVertices records in all |
| ActorToActor.ComputeHollywoodNumber | hw04/separation/ActorToActorDegreesOfSeparation.java:103-121 | positive infinity when no vertex is reached; otherwise the sum of the reached distances over their number |
| ActorToActor.ChainAsString | hw04/separation/ActorToActorDegreesOfSeparation.java:132-163 | a missing source is reported first, then a missing destination, then an unreached one (infinity). Otherwise the result is the distance with exactly `distance` single steps along edges, from the destination to the source, each to the recorded predecessor |
| ActorToMovie.CreateGraph | hw04/separation/ActorToMovieDegreesOfSeparation.java:61-76 | the vertices become the old ones plus every actor and every title it is credited with, and the edges the old ones plus every actor-title credit |
| ActorToMovie.LinkActors | hw04/separation/ActorToMovieDegreesOfSeparation.java:62-76 | the loop over actors adds each actor, its titles and the actor-title edges |
| ActorToMovie.LinkActor | hw04/separation/ActorToMovieDegreesOfSeparation.java:63-75 | one actor's vertex and its filmography's vertices and edges |
| ActorToMovie.LinkFilms | hw04/separation/ActorToMovieDegreesOfSeparation.java:69-75 | the loop over a filmography adds every title and its edge to the actor |
| ActorToMovie.LinkFilm | hw04/separation/ActorToMovieDegreesOfSeparation.java:70-74 | one title's vertex and its edge to the actor |
| ActorToMovie.AdjacentIffCredited | hw04/separation/ActorToMovieDegreesOfSeparation.java:61-76 | in the graph built from an empty one, two names are adjacent iff one is an actor credited with the other |
| ActorToMovie.Bipartite | hw04/separation/ActorToMovieDegreesOfSeparation.java:65-74 | when no title is also an actor's name, every edge joins an actor to a non-actor |
| ActorToMovie.ActorsAtEvenDistance | hw04/separation/ActorToMovieDegreesOfSeparation.java:142-148 | after a search from an actor, a reached vertex is an actor iff its distance is even |
| ActorToMovie.ActorKeysAreHalfDistances | hw04/separation/ActorToMovieDegreesOfSeparation.java:81-114 | after a search from an actor, for every reached actor the chart key (d - d / 2) and the Hollywood summand (d / 2) are both exactly half its distance, and the actor passes the Hollywood filter |
| ActorToMovie.CreateFrequencyChart | hw04/separation/ActorToMovieDegreesOfSeparation.java:81-92 | only vertices named like registered actors are recorded, once each: INFINITY as it is, otherwise d - d / 2 |
| ActorToMovie.ComputeHollywoodNumber | hw04/separation/ActorToMovieDegreesOfSeparation.java:99-114 | over actor vertices whose distance is neither MAX_VALUE nor MIN_VALUE: the sum of d / 2 and their number, always as a ratio (no zero-count guard) |
| ActorToMovie.ChainAsString | hw04/separation/ActorToMovieDegreesOfSeparation.java:125-156 | the missing-source, missing-destination and unreached outcomes as in the other schemes. An odd distance ends on the source's missing predecessor. An even one reports d / 2 and d / 2 actor-movie-actor steps along edges, from the destination to the source, each through the predecessor to the predecessor's predecessor |
| MovieToMovie.ShareActor | hw04/separation/MovieToMovieDegreesOfSeparation.java:73-79 | the scan with early exit answers true iff the two casts have an actor in common |
| MovieToMovie.CreateGraph | hw04/separation/MovieToMovieDegreesOfSeparation.java:59-88 | the vertices become the old ones plus every registered title, and the edges the old ones plus every pair of different titles whose casts share an actor |
| MovieToMovie.LinkMovies | hw04/separation/MovieToMovieDegreesOfSeparation.java:60-88 | the outer loop adds every title and its edges to the titles it shares an actor with |
| MovieToMovie.LinkMovie | hw04/separation/MovieToMovieDegreesOfSeparation.java:61-87 | one title's vertex and its edges |
| MovieToMovie.LinkPartners | hw04/separation/MovieToMovieDegreesOfSeparation.java:65-87 | the inner loop adds an edge from movie1 to every other title sharing an actor, and no self-loop |
| MovieToMovie.LinkPartner | hw04/separation/MovieToMovieDegreesOfSeparation.java:66-85 | the edge movie1-movie2 exactly when the titles differ and the casts meet |
| MovieToMovie.SeenAll | hw04/separation/MovieToMovieDegreesOfSeparation.java:60-62 | once every title is done, the vertices are exactly the titles |
| MovieToMovie.AdjacentIffShareActor | hw04/separation/MovieToMovieDegreesOfSeparation.java:59-88 | in the graph built from an empty one, two titles are adjacent iff they are different registered titles whose casts share an actor |
| MovieToMovie.CreateFrequencyChart | hw04/separation/MovieToMovieDegreesOfSeparation.java:93-104 | every vertex's distance is recorded once, INFINITY as it is: each count rises by the number of vertices at that distance, numVertices records in all |
| MovieToMovie.ComputeHollywoodNumber | hw04/separation/MovieToMovieDegreesOfSeparation.java:111-129 | positive infinity when no vertex is reached; otherwise the sum of the reached distances over their number |
| MovieToMovie.ChainAsString | hw04/separation/MovieToMovieDegreesOfSeparation.java:140-171 | the missing-source, missing-destination and unreached outcomes. Otherwise it lists `distance` single steps along edges from the destination to the source, each to the recorded predecessor, and reports half the number of steps listed |

## Left out

- Reading the data file is not modelled: opening it with `In` and splitting each line with a regular expression. Lines arrive already split as `seq<seq<string>>`.
- The text that `chainAsString` builds is not modelled. The result is the outcome plus its step sequence.
- The command-line programs (`RunGame`, `HWGraphCompare`), their timing and printing, `HistogramTest`'s random input, and `Histogram.report` / `report(int)` are not part of this model. They are I/O.
- `equals`, `hashCode` and `toString` of the graph and of the separation object are not modelled, nor `Vertex.equals`, `Vertex.toString`, `Actor.equals` or `Movie.equals`. Actor and movie identity is by name, as `compareTo` and `hashCode` have it.
- Floating point: `computeHollywoodNumber`'s `double` is the pair `Ratio(sum, count)`, or `PositiveInfinity`. `0.0 / 0` (NaN) is `Ratio(0, 0)`.
- ActorToActor.ComputeHollywoodNumber: the int accumulators are unbounded here. A sum of distances past Integer.MAX_VALUE, which wraps in the source, is not modelled.
- ActorToMovie.ComputeHollywoodNumber: the same unbounded int accumulators.
- MovieToMovie.ComputeHollywoodNumber: the same unbounded int accumulators.
- Histograms.Histogram.Record: counts are unbounded naturals. The source's `getOrDefault(key, 0) + 1` is a Java int and wraps after 2^31 - 1 records of one key.
- Histograms.Histogram.Total: the sum is unbounded. The source's `int sum` wraps once the counts in range pass Integer.MAX_VALUE.
- Histograms.TotalOfFullRange: equals the number of record calls only while that number stays below 2^31. Past it, the source's int total wraps and this equality fails there.
- Graphs.UndirectedGraph.AddVertex: numVertices is unbounded. The source's `myNumVertices` is an int and would wrap past Integer.MAX_VALUE vertices.
- Graphs.UndirectedGraph.AddEdge: numEdges is unbounded. The source's `myNumEdges` is an int and would wrap past Integer.MAX_VALUE edges.
- Bfs.TraverseBFS: requires at most Integer.MAX_VALUE vertices, so that `current.distance + 1` cannot wrap. The source states no such bound.
- Separation.DegreesOfSeparation.TraverseBFS: the same vertex-count bound.
- Bfs.TraverseBFS: the search annotates a copy of the arena and stores it back at the end. The source writes each shared `Vertex` object in place, and other holders of those objects see the writes as they happen.
- Bfs.RerunSameDistances: two searches from the same source agree on every distance and on which vertices are unreached. They need not agree on the predecessor of a reached vertex, because the model visits neighbours in arbitrary order, while the source's order is fixed by its sets.
- The adjacency sets are algs4 `SET`s, ordered by `Vertex.compareTo`, which reads the mutable distance. Writing distances during the search can break that order. The model uses mathematical sets.
- Iteration order over hash tables and sets is not modelled. Every loop picks an arbitrary element, and every result is stated independently of the order.
- ActorToActor.ChainAsString: requires that the annotations come from a search from the source. The walk's `while (dest != start)` otherwise runs past another root onto a missing predecessor.
- ActorToMovie.ChainAsString: requires the same of the annotations.
- MovieToMovie.ChainAsString: requires the same of the annotations.
- ActorToMovie.ChainAsString: the lines emitted before the exception on an odd distance are not part of the `NoPredecessor` outcome.
- Entities.Actor.CoStars: the co-star map is keyed by actor object. The source's hash table compares keys with `Actor.equals`, which also compares filmographies and cached maps.
- Separation.DegreesOfSeparation.Valid covers the registries only. The graph's and the histogram's invariants are stated separately, as preconditions of the methods that use them.
- ActorToActor.CreateGraph, ActorToMovie.CreateGraph and MovieToMovie.CreateGraph: each reads the registry once, as a title → cast-names or actor → titles table, before its loops. The source reads the objects inside the loops. `createGraph` changes neither registry, so the tables are the same.
- MovieToMovie.CreateGraph: vertices are named by registry key. The source uses `movie.name`, which is the same title whenever every movie is stored under its own title, as reading the data file ensures.
- Strings are sequences of Unicode scalar values, not UTF-16 code units. This matters only to `compareTo` and `hashCode` of strings outside the Basic Multilingual Plane.
- Histograms.Histogram.Minimum: returns None on an empty table, where the source's `firstKey` throws.
- Histograms.Histogram.Maximum: returns None on an empty table, where the source's `lastKey` throws.
- The scheme classes' own constructors only call the shared constructor, which `Separation.DegreesOfSeparation.constructor` and `Default` model.
- The graph's vertex and edge sets are stated as two inclusions rather than as equations. They mean the same thing.
