/**
 * The shared state of every degrees-of-separation scheme: the actor and
 * movie registries (name -> object), the graph a scheme builds from them,
 * the name of the search source and the frequency chart.
 *
 * Reading the data file is modelled from the already-split lines: each line
 * is the sequence [title, actor, actor, ...].
 */
module Separation {
  import opened Wrappers
  import opened Vertices
  import opened Graphs
  import opened Entities
  import opened Histograms
  import Bfs

  /** The names listed on a line after its title. */
  ghost function Listed(elems: seq<string>): set<string> {
    set k | 1 <= k < |elems| :: elems[k]
  }

  /** The actor -> titles table `f` after every actor in `names` is credited with `title`. */
  ghost function Credit(f: map<string, set<string>>, title: string, names: set<string>): map<string, set<string>> {
    map a | a in f.Keys + names :: (if a in f then f[a] else {}) + (if a in names then {title} else {})
  }

  lemma CreditStep(f: map<string, set<string>>, title: string, names: set<string>, name: string)
    ensures Credited(Credit(f, title, names), name, title) == Credit(f, title, names + {name})
  {
    var l, r := Credited(Credit(f, title, names), name, title), Credit(f, title, names + {name});
    assert l.Keys == r.Keys;
    forall a | a in l
      ensures l[a] == r[a]
    {
    }
  }

  lemma CreditNone(f: map<string, set<string>>, title: string)
    ensures Credit(f, title, {}) == f
  {
    var r := Credit(f, title, {});
    assert r.Keys == f.Keys;
    forall a | a in f
      ensures r[a] == f[a]
    {
    }
  }

  lemma ListedStep(elems: seq<string>, k: int)
    requires 1 <= k < |elems|
    ensures Listed(elems[..k + 1]) == Listed(elems[..k]) + {elems[k]}
  {
    var p, q := elems[..k], elems[..k + 1];
    assert q[k] == elems[k];
    forall n | n in Listed(p)
      ensures n in Listed(q)
    {
      var i :| 1 <= i < |p| && p[i] == n;
      assert q[i] == n;
    }
    forall n | n in Listed(q)
      ensures n in Listed(p) + {elems[k]}
    {
      var i :| 1 <= i < |q| && q[i] == n;
      if i < k {
        assert p[i] == n;
      }
    }
  }

  /** Every actor of the registry is stored under its own name. */
  ghost predicate Named(reg: map<string, Actor>) {
    forall n :: n in reg ==> reg[n].name == n
  }

  /** Every cast member is the actor of that name in the registry. */
  ghost predicate Enrolled(cast: map<string, Actor>, reg: map<string, Actor>) {
    forall n :: n in cast ==> n in reg && cast[n] == reg[n]
  }

  /**
   * One step of the loop over a line: `name` now maps to its actor in the
   * registry and in the cast, and `names` grows by it.
   */
  ghost predicate Progress(reg0: map<string, Actor>, reg: map<string, Actor>, cast: map<string, Actor>, names: set<string>) {
    && Named(reg) && reg.Keys == reg0.Keys + names
    && (forall n :: n in reg0 ==> reg[n] == reg0[n])
    && cast.Keys == names && Enrolled(cast, reg)
  }

  lemma ProgressStep(reg0: map<string, Actor>, reg: map<string, Actor>, cast: map<string, Actor>, names: set<string>,
                     r: map<string, Actor>, name: string, cast': map<string, Actor>, names': set<string>)
    requires Progress(reg0, reg, cast, names)
    requires Named(r) && name in r && r == reg[name := r[name]]
    requires name in reg ==> r[name] == reg[name]
    requires cast' == cast[name := r[name]] && names' == names + {name}
    ensures Progress(reg0, r, cast', names')
  {
  }

  /** actor name -> the titles of its movies. */
  ghost function Films(reg: map<string, Actor>): map<string, set<string>>
    reads reg.Values
  {
    map n | n in reg :: reg[n].movies.Keys
  }

  /** title -> its cast, name -> actor. */
  ghost function Rosters(ms: map<string, Movie>): map<string, map<string, Actor>>
    reads ms.Values
  {
    map t | t in ms :: ms[t].actors
  }

  /** title -> the names of its cast. */
  ghost function CastNames(r: map<string, map<string, Actor>>): map<string, set<string>> {
    map t | t in r :: r[t].Keys
  }

  /**
   * The registry invariant over its tables: actors `a` and movies `m` are
   * stored under their own names; every cast member (`r`) is the registered
   * actor of that name and is credited (`f`) with the title; every credited
   * title is registered.
   */
  ghost predicate Coherent(a: map<string, Actor>, m: map<string, Movie>,
                           r: map<string, map<string, Actor>>, f: map<string, set<string>>) {
    && Named(a) && f.Keys == a.Keys && r.Keys == m.Keys
    && (forall t :: t in m ==> m[t].name == t)
    && (forall t, n :: t in r && n in r[t] ==> n in a && r[t][n] == a[n] && t in f[n])
    && (forall n, t :: n in f && t in f[n] ==> t in m)
  }

  /** A line for `title` listing `names` keeps the registry coherent. */
  lemma LineKeepsCoherent(a0: map<string, Actor>, m0: map<string, Movie>,
                          r0: map<string, map<string, Actor>>, f0: map<string, set<string>>,
                          a: map<string, Actor>, m: map<string, Movie>, cast: map<string, Actor>,
                          title: string, names: set<string>,
                          r: map<string, map<string, Actor>>, f: map<string, set<string>>)
    requires r == r0[title := cast] && f == Credit(f0, title, names)
    requires Coherent(a0, m0, r0, f0)
    requires Progress(a0, a, cast, names)
    requires m.Keys == m0.Keys + {title} && forall t :: t in m ==> m[t].name == t
    ensures Coherent(a, m, r, f)
  {
    LineCastsEnrolled(a0, r0, f0, a, cast, title, names, r, f);
    LineCreditsRegistered(m0, f0, m, title, names, f);
  }

  /** The title half of LineKeepsCoherent: every credited title, old or new, is registered. */
  lemma LineCreditsRegistered(m0: map<string, Movie>, f0: map<string, set<string>>, m: map<string, Movie>,
                              title: string, names: set<string>, f: map<string, set<string>>)
    requires f == Credit(f0, title, names)
    requires forall n, t :: n in f0 && t in f0[n] ==> t in m0
    requires m.Keys == m0.Keys + {title}
    ensures forall n, t :: n in f && t in f[n] ==> t in m
  {
  }

  /** The cast half of LineKeepsCoherent: every cast member, old or new, is registered and credited. */
  lemma LineCastsEnrolled(a0: map<string, Actor>, r0: map<string, map<string, Actor>>, f0: map<string, set<string>>,
                          a: map<string, Actor>, cast: map<string, Actor>, title: string, names: set<string>,
                          r: map<string, map<string, Actor>>, f: map<string, set<string>>)
    requires r == r0[title := cast] && f == Credit(f0, title, names) && f0.Keys == a0.Keys
    requires forall t, n :: t in r0 && n in r0[t] ==> n in a0 && r0[t][n] == a0[n] && t in f0[n]
    requires forall n :: n in a0 ==> n in a && a[n] == a0[n]
    requires cast.Keys == names && Enrolled(cast, a)
    ensures forall t, n :: t in r && n in r[t] ==> n in a && r[t][n] == a[n] && t in f[n]
  {
    forall t, n | t in r && n in r[t]
      ensures n in a && r[t][n] == a[n] && t in f[n]
    {
      if t != title {
        assert n in a0 && t in f0[n];
      }
    }
  }

  lemma CastNamesUpdate(r0: map<string, map<string, Actor>>, title: string, cast: map<string, Actor>)
    ensures CastNames(r0[title := cast]) == CastNames(r0)[title := cast.Keys]
  {
  }

  /** The actor -> titles table read off the actors, as createGraph sees it. */
  function FilmTable(reg: map<string, Actor>): (f: map<string, set<string>>)
    reads reg.Values
    ensures f == Films(reg)
  {
    map n | n in reg :: reg[n].movies.Keys
  }

  /** The title -> cast-names table read off the movies, as createGraph sees it. */
  function CastTable(ms: map<string, Movie>): (c: map<string, set<string>>)
    reads ms.Values
    ensures c == CastNames(Rosters(ms))
  {
    map t | t in ms :: ms[t].actors.Keys
  }

  lemma RostersAfter(ms: map<string, Movie>, r0: map<string, map<string, Actor>>, title: string, movie: Movie)
    requires Rosters(ms) == r0
    ensures Rosters(ms[title := movie]) == r0[title := movie.actors]
  {
  }

  /** The registry tables once a line's new movie is in place and its names enlisted. */
  lemma AfterLine(a0: map<string, Actor>, m0: map<string, Movie>, r0: map<string, map<string, Actor>>,
                  f0: map<string, set<string>>, a: map<string, Actor>, m: map<string, Movie>, movie: Movie,
                  elems: seq<string>)
    requires |elems| > 0 && movie.name == elems[0] && m == m0[elems[0] := movie]
    requires Coherent(a0, m0, r0, f0) && Rosters(m0) == r0
    requires Progress(a0, a, movie.actors, Listed(elems))
    requires Films(a) == Credit(f0, elems[0], Listed(elems))
    ensures Coherent(a, m, Rosters(m), Films(a))
    ensures CastNames(Rosters(m)) == CastNames(r0)[elems[0] := Listed(elems)]
  {
    var title := elems[0];
    RostersAfter(m0, r0, title, movie);
    LineKeepsCoherent(a0, m0, r0, f0, a, m, movie.actors, title, Listed(elems), Rosters(m), Films(a));
    CastNamesUpdate(r0, title, movie.actors);
  }

  /** The table `f` after `name` is credited with `title`. */
  ghost function Credited(f: map<string, set<string>>, name: string, title: string): map<string, set<string>> {
    f[name := (if name in f then f[name] else {}) + {title}]
  }

  lemma FilmsAfter(r: map<string, Actor>, f: map<string, set<string>>, name: string, title: string)
    requires r.Keys == f.Keys + {name}
    requires forall n :: n in f && n != name ==> r[n].movies.Keys == f[n]
    requires r[name].movies.Keys == (if name in f then f[name] else {}) + {title}
    ensures Films(r) == Credited(f, name, title)
  {
  }

  /** The registered actor of that name, or a new one. */
  method Register(reg: map<string, Actor>, name: string) returns (r: map<string, Actor>, person: Actor)
    requires Named(reg)
    ensures Named(r) && r == reg[name := person] && person.name == name
    ensures name in reg ==> person == reg[name]
    ensures name !in reg ==> fresh(person) && person.movies == map[]
  {
    if name in reg {
      person := reg[name];
    } else {
      person := new Actor(name);
    }
    r := reg[name := person];
  }

  /** person.add(movie); movie.addActor(person). */
  method Join(person: Actor, movie: Movie)
    modifies person`movies, movie`actors
    ensures person.movies.Keys == old(person.movies.Keys) + {movie.name}
    ensures person.name in old(movie.actors) ==> movie.actors == old(movie.actors)
    ensures person.name !in old(movie.actors) ==> movie.actors == old(movie.actors)[person.name := person]
  {
    person.Add(movie);
    movie.AddActor(person);
  }

  /**
   * The loop body of readFile for one listed name: reuse the registered
   * actor of that name or register a new one, then add the movie to the
   * actor and the actor to the movie.  `f` is the registry's filmography table.
   */
  method Enlist(reg: map<string, Actor>, movie: Movie, name: string, ghost f: map<string, set<string>>)
    returns (r: map<string, Actor>)
    requires Named(reg) && Enrolled(movie.actors, reg) && f == Films(reg)
    modifies reg.Values, movie`actors
    ensures Named(r) && name in r && r == reg[name := r[name]]
    ensures name in reg ==> r[name] == reg[name]
    ensures name !in reg ==> fresh(r[name])
    ensures movie.actors == old(movie.actors)[name := r[name]]
    ensures Films(r) == Credited(f, name, movie.name)
  {
    var person;
    r, person := Register(reg, name);
    Join(person, movie);
    FilmsAfter(r, f, name, movie.name);
  }

  /** The loop of readFile over the names of one line, whose title is `movie`'s. */
  method EnlistAll(reg0: map<string, Actor>, movie: Movie, elems: seq<string>, ghost f0: map<string, set<string>>)
    returns (reg: map<string, Actor>)
    requires |elems| > 0 && movie.name == elems[0]
    requires Named(reg0) && movie.actors == map[] && f0 == Films(reg0)
    modifies reg0.Values, movie`actors
    ensures Progress(reg0, reg, movie.actors, Listed(elems))
    ensures forall n :: n in reg && n !in reg0 ==> fresh(reg[n])
    ensures Films(reg) == Credit(f0, movie.name, Listed(elems))
  {
    reg := reg0;
    assert Listed(elems[..1]) == {};
    CreditNone(f0, movie.name);
    for k := 1 to |elems|
      invariant Progress(reg0, reg, movie.actors, Listed(elems[..k]))
      invariant forall n :: n in reg && n !in reg0 ==> fresh(reg[n])
      invariant Films(reg) == Credit(f0, movie.name, Listed(elems[..k]))
    {
      reg := EnlistNext(reg0, reg, movie, elems, k, f0);
    }
    assert elems[..|elems|] == elems;
  }

  /** The body of the loop over a line's names: name `k` enlisted after names `1 .. k - 1`. */
  method EnlistNext(reg0: map<string, Actor>, reg: map<string, Actor>, movie: Movie, elems: seq<string>, k: int,
                    ghost f0: map<string, set<string>>)
    returns (reg': map<string, Actor>)
    requires 1 <= k < |elems|
    requires Progress(reg0, reg, movie.actors, Listed(elems[..k]))
    requires Films(reg) == Credit(f0, movie.name, Listed(elems[..k]))
    modifies reg.Values, movie`actors
    ensures Progress(reg0, reg', movie.actors, Listed(elems[..k + 1]))
    ensures Films(reg') == Credit(f0, movie.name, Listed(elems[..k + 1]))
    ensures forall n :: n in reg ==> n in reg' && reg'[n] == reg[n]
    ensures forall n :: n in reg' && n !in reg ==> fresh(reg'[n])
  {
    ListedStep(elems, k);
    CreditStep(f0, movie.name, Listed(elems[..k]), elems[k]);
    ghost var cast := movie.actors;
    reg' := Enlist(reg, movie, elems[k], Credit(f0, movie.name, Listed(elems[..k])));
    ProgressStep(reg0, reg, cast, Listed(elems[..k]), reg', elems[k], movie.actors, Listed(elems[..k + 1]));
    UpdateKeeps(reg, reg', elems[k]);
  }

  /** Registering `name` keeps every earlier entry of the registry. */
  lemma UpdateKeeps(reg: map<string, Actor>, r: map<string, Actor>, name: string)
    requires name in r && r == reg[name := r[name]]
    requires name in reg ==> r[name] == reg[name]
    ensures forall n :: n in reg ==> n in r && r[n] == reg[n]
  {
  }

  /**
   * readFile's work for one non-empty line, on the registries: a new movie
   * for the title, and every listed name enlisted in it.
   */
  method AddLine(a0: map<string, Actor>, m0: map<string, Movie>, elems: seq<string>,
                 ghost r0: map<string, map<string, Actor>>, ghost f0: map<string, set<string>>)
    returns (a: map<string, Actor>, m: map<string, Movie>, movie: Movie)
    requires |elems| > 0
    requires Coherent(a0, m0, r0, f0) && r0 == Rosters(m0) && f0 == Films(a0)
    modifies a0.Values
    ensures Coherent(a, m, Rosters(m), Films(a))
    ensures fresh(movie) && m == m0[elems[0] := movie]
    ensures CastNames(Rosters(m)) == CastNames(r0)[elems[0] := Listed(elems)]
    ensures Films(a) == Credit(f0, elems[0], Listed(elems))
    ensures forall n :: n in a0 ==> n in a && a[n] == a0[n]
    ensures forall n :: n in a && n !in a0 ==> fresh(a[n])
  {
    var title := elems[0];
    movie := new Movie(title);
    m := m0[title := movie];
    a := EnlistAll(a0, movie, elems, f0);
    RostersUnmoved(m0);
    AfterLine(a0, m0, r0, f0, a, m, movie, elems);
  }

  /** A step that touched none of the actors leaves their filmographies as they were. */
  twostate lemma FilmsUnmoved(reg: map<string, Actor>)
    requires unchanged(reg.Values)
    ensures Films(reg) == old(Films(reg))
  {
  }

  /** A step that touched none of the movies leaves their casts as they were. */
  twostate lemma RostersUnmoved(ms: map<string, Movie>)
    requires unchanged(ms.Values)
    ensures Rosters(ms) == old(Rosters(ms))
  {
  }

  class DegreesOfSeparation {
    /** myActors: name -> Actor. */
    var actors: map<string, Actor>
    /** myMovies: title -> Movie. */
    var movies: map<string, Movie>
    /** myG: the graph the scheme's createGraph builds. */
    const g: UndirectedGraph
    /** mySource: the actor or movie the search starts from. */
    const source: string
    /** myHistogram: the frequency chart. */
    const histogram: Histogram

    /**
     * Every registered actor and movie is stored under its own name; a cast
     * member is the registered actor of that name and has the title among
     * its movies; an actor's movies are registered titles.
     */
    ghost predicate Valid()
      reads this, actors.Values, movies.Values
    {
      Coherent(actors, movies, Rosters(movies), Films(actors))
    }

    /** title -> the names of its cast. */
    ghost function Casts(): map<string, set<string>>
      reads this`movies, movies.Values
    {
      CastNames(Rosters(movies))
    }

    /** actor name -> the titles of the movies it was credited in. */
    ghost function Filmography(): map<string, set<string>>
      reads this`actors, actors.Values
    {
      Films(actors)
    }

    /** A search from `sourceVertex` over an empty graph and empty registries. */
    constructor (sourceVertex: string)
      ensures Valid() && g.Valid() && histogram.Valid()
      ensures source == sourceVertex && actors == map[] && movies == map[]
      ensures fresh(g) && g.adj == map[] && g.vertices == map[]
      ensures fresh(histogram) && histogram.counts == map[]
      ensures histogram.title == "Frequency Chart for: " + sourceVertex
      ensures histogram.col1Label == "Degrees of Separation" && histogram.col2Label == "Frequency"
    {
      g := new UndirectedGraph();
      actors := map[];
      movies := map[];
      source := sourceVertex;
      histogram := new Histogram("Frequency Chart for: " + sourceVertex, "Degrees of Separation", "Frequency");
    }

    /** The no-argument constructor: the search starts from Kevin Bacon. */
    constructor Default()
      ensures Valid() && g.Valid() && histogram.Valid()
      ensures source == "Bacon, Kevin" && actors == map[] && movies == map[]
      ensures fresh(g) && g.adj == map[] && g.vertices == map[]
      ensures fresh(histogram) && histogram.counts == map[]
      ensures histogram.title == "Frequency Chart for: Bacon, Kevin"
    {
      g := new UndirectedGraph();
      actors := map[];
      movies := map[];
      source := "Bacon, Kevin";
      histogram := new Histogram("Frequency Chart for: Bacon, Kevin", "Degrees of Separation", "Frequency");
    }

    /**
     * One line of the data file: a fresh movie for the title replaces any
     * earlier movie of that title, every listed name gets (or reuses) an
     * actor, and actor and movie are added to each other.  An empty line
     * changes nothing.
     */
    method ReadLine(elems: seq<string>)
      requires Valid()
      modifies this`actors, this`movies, actors.Values
      ensures Valid()
      ensures |elems| == 0 ==> actors == old(actors) && movies == old(movies)
      ensures |elems| > 0 ==> elems[0] in movies && fresh(movies[elems[0]])
      ensures |elems| > 0 ==> movies.Keys == old(movies.Keys) + {elems[0]}
      ensures Casts() == CastsAfterLine(old(Casts()), elems)
      ensures Filmography() == FilmsAfterLine(old(Filmography()), elems)
      ensures forall n :: n in old(actors) ==> n in actors && actors[n] == old(actors[n])
      ensures forall n :: n in actors && n !in old(actors) ==> fresh(actors[n])
    {
      if |elems| == 0 {
        return;
      }
      ghost var r0, f0 := Rosters(movies), Films(actors);
      var a, m, movie := AddLine(actors, movies, elems, r0, f0);
      Install(a, m);
    }

    /** Store the registries `a` and `m`; the objects they hold are left as they are. */
    method Install(a: map<string, Actor>, m: map<string, Movie>)
      modifies this`actors, this`movies
      ensures actors == a && movies == m
      ensures Films(a) == old(Films(a)) && Rosters(m) == old(Rosters(m))
    {
      actors, movies := a, m;
      FilmsUnmoved(a);
      RostersUnmoved(m);
    }

    /** traverseBFS(name): a search from the graph's own vertex of that name, if there is one. */
    method TraverseBFS(name: string)
      requires g.Valid() && g.numVertices <= INFINITY
      modifies g`vertices
      ensures g.Valid()
      ensures name !in g.adj ==> g.vertices == old(g.vertices)
      ensures name in g.adj ==> Bfs.ShortestPaths(g.adj, g.vertices, name)
    {
      if g.HasVertex(name) {
        ghost var order := Bfs.TraverseBFS(g, name);
      }
    }
  }

  /** The data file: its lines in order. */
  method ReadLines(d: DegreesOfSeparation, lines: seq<seq<string>>)
    requires d.Valid()
    modifies d`actors, d`movies, d.actors.Values
    ensures d.Valid()
    ensures forall n :: n in old(d.actors) ==> n in d.actors && d.actors[n] == old(d.actors[n])
    ensures d.Casts() == ReadCasts(old(d.Casts()), lines)
    ensures d.Filmography() == ReadFilmography(old(d.Filmography()), lines)
  {
    ghost var c0, f0 := d.Casts(), d.Filmography();
    for i := 0 to |lines|
      invariant d.Valid()
      invariant forall n :: n in old(d.actors) ==> n in d.actors && d.actors[n] == old(d.actors[n])
      invariant forall n :: n in d.actors && n !in old(d.actors) ==> fresh(d.actors[n])
      invariant d.Casts() == ReadCasts(c0, lines[..i])
      invariant d.Filmography() == ReadFilmography(f0, lines[..i])
    {
      ReadNext(d, lines, i, c0, f0);
    }
    assert lines[..|lines|] == lines;
  }

  /** The body of the loop over lines: line `i`, read on top of lines `0 .. i - 1`. */
  method ReadNext(d: DegreesOfSeparation, lines: seq<seq<string>>, i: int,
                  ghost c0: map<string, set<string>>, ghost f0: map<string, set<string>>)
    requires 0 <= i < |lines| && d.Valid()
    requires d.Casts() == ReadCasts(c0, lines[..i]) && d.Filmography() == ReadFilmography(f0, lines[..i])
    modifies d`actors, d`movies, d.actors.Values
    ensures d.Valid()
    ensures d.Casts() == ReadCasts(c0, lines[..i + 1]) && d.Filmography() == ReadFilmography(f0, lines[..i + 1])
    ensures forall n :: n in old(d.actors) ==> n in d.actors && d.actors[n] == old(d.actors[n])
    ensures forall n :: n in d.actors && n !in old(d.actors) ==> fresh(d.actors[n])
  {
    ReadStep(c0, f0, lines, i);
    d.ReadLine(lines[i]);
  }

  /** The title -> cast table after one line: an empty line changes nothing, otherwise its title gets its names. */
  ghost function CastsAfterLine(c: map<string, set<string>>, elems: seq<string>): map<string, set<string>> {
    if |elems| == 0 then c else c[elems[0] := Listed(elems)]
  }

  /** The actor -> titles table after one line: each of its names is credited with its title. */
  ghost function FilmsAfterLine(f: map<string, set<string>>, elems: seq<string>): map<string, set<string>> {
    if |elems| == 0 then f else Credit(f, elems[0], Listed(elems))
  }

  /** The title -> cast table after reading `lines`: a later line of the same title wins. */
  ghost function ReadCasts(c: map<string, set<string>>, lines: seq<seq<string>>): map<string, set<string>>
    decreases |lines|
  {
    if lines == [] then c
    else
      var last := lines[|lines| - 1];
      var before := ReadCasts(c, lines[..|lines| - 1]);
      CastsAfterLine(before, last)
  }

  lemma ReadStep(c: map<string, set<string>>, f: map<string, set<string>>, lines: seq<seq<string>>, i: int)
    requires 0 <= i < |lines|
    ensures ReadCasts(c, lines[..i + 1]) == CastsAfterLine(ReadCasts(c, lines[..i]), lines[i])
    ensures ReadFilmography(f, lines[..i + 1]) == FilmsAfterLine(ReadFilmography(f, lines[..i]), lines[i])
  {
    assert lines[..i + 1][..i] == lines[..i];
  }

  /** The actor -> titles table after reading `lines`: every line credits each of its names. */
  ghost function ReadFilmography(f: map<string, set<string>>, lines: seq<seq<string>>): map<string, set<string>>
    decreases |lines|
  {
    if lines == [] then f
    else
      var last := lines[|lines| - 1];
      var before := ReadFilmography(f, lines[..|lines| - 1]);
      FilmsAfterLine(before, last)
  }
}
