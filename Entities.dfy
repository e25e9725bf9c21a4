/**
 * The registry entities: actors and movies, each named (the name is
 * assumed unique and is what compareTo and hashCode look at) and each
 * holding a membership set of the other kind.  The sets are ordered sets
 * keyed by name, so they are modelled as maps from name to object: adding
 * an element whose name is already present keeps the element already there.
 */
module Entities {
  import opened Wrappers
  import opened JavaLang

  class Movie {
    const name: string
    /** myActors: the cast, at most one actor per name. */
    var actors: map<string, Actor>

    /** Each cast member is stored under its own name. */
    ghost predicate Valid()
      reads this
    {
      forall k :: k in actors ==> actors[k].name == k
    }

    constructor (title: string)
      ensures Valid()
      ensures name == title && actors == map[]
    {
      name := title;
      actors := map[];
    }

    /** Add `person` to the cast; a second actor of the same name is ignored. */
    method AddActor(person: Actor)
      modifies this`actors
      ensures old(Valid()) ==> Valid()
      ensures actors.Keys == old(actors.Keys) + {person.name}
      ensures person.name in old(actors) ==> actors == old(actors)
      ensures person.name !in old(actors) ==> actors == old(actors)[person.name := person]
    {
      if person.name !in actors {
        actors := actors[person.name := person];
      }
    }

    /** The cast members, each once. */
    function GetActors(): (r: set<Actor>)
      requires Valid()
      reads this
      ensures forall a :: a in r ==> a.name in actors && actors[a.name] == a
      ensures forall k :: k in actors ==> actors[k] in r
    {
      actors.Values
    }

    /** Order by title, as String.compareTo does. */
    function CompareTo(other: Movie): (r: int)
      ensures r == 0 <==> name == other.name
      ensures r == -CompareStrings(other.name, name)
    {
      CompareStringsAntisymmetric(name, other.name);
      CompareStrings(name, other.name)
    }

    /** The title's String.hashCode. */
    function HashCode(): (h: int)
      ensures InIntRange(h)
    {
      StringHash(name)
    }
  }

  /** The actors of the movies in `ms` other than `me`: the keys a co-star map must have. */
  ghost function PartnersIn(ms: set<Movie>, me: Actor): set<Actor>
    reads ms
  {
    set m, a | m in ms && a in m.actors.Values && a != me :: a
  }

  /** Every entry of `r` maps a co-star to a movie among `ms` that has them in its cast. */
  ghost predicate Witnessed(r: map<Actor, Movie>, ms: set<Movie>)
    reads ms
  {
    forall a :: a in r ==> r[a] in ms && a in r[a].actors.Values
  }

  class Actor {
    const name: string
    /** myMovies: the filmography, at most one movie per title. */
    var movies: map<string, Movie>
    /** myCoStars: None until coStars is first called, then the cached map. */
    var coStars: Option<map<Actor, Movie>>

    /** Each movie is stored under its own title. */
    ghost predicate Valid()
      reads this
    {
      forall k :: k in movies ==> movies[k].name == k
    }

    constructor (person: string)
      ensures Valid()
      ensures name == person && movies == map[] && coStars == None
    {
      name := person;
      movies := map[];
      coStars := None;
    }

    /** Order by name, as String.compareTo does. */
    function CompareTo(other: Actor): (r: int)
      ensures r == 0 <==> name == other.name
      ensures r == -CompareStrings(other.name, name)
    {
      CompareStringsAntisymmetric(name, other.name);
      CompareStrings(name, other.name)
    }

    /** The name's String.hashCode. */
    function HashCode(): (h: int)
      ensures InIntRange(h)
    {
      StringHash(name)
    }

    /** The movies this actor has appeared in, each once. */
    function GetMovies(): (r: set<Movie>)
      requires Valid()
      reads this
      ensures forall m :: m in r ==> m.name in movies && movies[m.name] == m
      ensures forall k :: k in movies ==> movies[k] in r
    {
      movies.Values
    }

    /** Add `m` to the filmography; a second movie of the same title is ignored. */
    method Add(m: Movie)
      modifies this`movies
      ensures old(Valid()) ==> Valid()
      ensures movies.Keys == old(movies.Keys) + {m.name}
      ensures m.name in old(movies) ==> movies == old(movies)
      ensures m.name !in old(movies) ==> movies == old(movies)[m.name := m]
    {
      if m.name !in movies {
        movies := movies[m.name := m];
      }
    }

    /**
     * The co-star map: every other actor of this actor's movies, mapped to a
     * movie they were both in.  Computed on the first call and cached; later
     * calls return the cached map whatever has been added since.
     */
    method CoStars() returns (r: map<Actor, Movie>)
      modifies this`coStars
      ensures old(coStars).Some? ==> r == old(coStars).value && coStars == old(coStars)
      ensures old(coStars).None? ==> coStars == Some(r)
      ensures old(coStars).None? ==> r.Keys == PartnersIn(movies.Values, this)
      ensures old(coStars).None? ==> Witnessed(r, movies.Values)
      ensures old(coStars).None? ==> this !in r
    {
      if coStars.Some? {
        return coStars.value;
      }
      r := CollectCoStars(this, movies.Values);
      coStars := Some(r);
    }
  }

  /** The nested loop of coStars: for each movie, for each of its actors other than `me`, put actor -> movie. */
  method CollectCoStars(me: Actor, ms: set<Movie>) returns (r: map<Actor, Movie>)
    ensures r.Keys == PartnersIn(ms, me)
    ensures Witnessed(r, ms)
    ensures me !in r
  {
    r := map[];
    var rest := ms;
    while rest != {}
      invariant rest <= ms
      invariant r.Keys == PartnersIn(ms - rest, me)
      invariant Witnessed(r, ms)
      invariant me !in r
      decreases |rest|
    {
      var m :| m in rest;
      r := PutCast(me, m, m.actors.Values, r);
      PartnersStep(ms, rest, me, m);
      rest := rest - {m};
    }
  }

  /** The part of the inner loop done so far: every actor of `seen` other than `me` maps to `m`. */
  ghost predicate Putting(me: Actor, m: Movie, r0: map<Actor, Movie>, r: map<Actor, Movie>, seen: set<Actor>) {
    && r.Keys == r0.Keys + (set a | a in seen && a != me)
    && forall a :: a in r ==> r[a] == (if a in seen && a != me then m else r0[a])
  }

  lemma PuttingStep(me: Actor, m: Movie, r0: map<Actor, Movie>, r: map<Actor, Movie>, seen: set<Actor>, a: Actor)
    requires Putting(me, m, r0, r, seen)
    ensures Putting(me, m, r0, if a != me then r[a := m] else r, seen + {a})
  {
  }

  /** One movie's inner loop: every cast member other than `me` now maps to `m`. */
  method PutCast(me: Actor, m: Movie, cast: set<Actor>, r0: map<Actor, Movie>) returns (r: map<Actor, Movie>)
    ensures Putting(me, m, r0, r, cast)
  {
    r := r0;
    var rest := cast;
    assert cast - rest == {};
    while rest != {}
      invariant rest <= cast
      invariant Putting(me, m, r0, r, cast - rest)
      decreases |rest|
    {
      var a :| a in rest;
      PuttingStep(me, m, r0, r, cast - rest, a);
      assert cast - rest + {a} == cast - (rest - {a});
      r := if a != me then r[a := m] else r;
      rest := rest - {a};
    }
  }

  /** Moving one movie from `rest` to the finished part adds exactly its other cast members. */
  lemma PartnersStep(ms: set<Movie>, rest: set<Movie>, me: Actor, m: Movie)
    requires m in rest && rest <= ms
    ensures PartnersIn(ms - (rest - {m}), me)
            == PartnersIn(ms - rest, me) + (set a | a in m.actors.Values && a != me)
  {
    var done := ms - rest;
    assert ms - (rest - {m}) == done + {m};
    forall a | a in PartnersIn(done + {m}, me)
      ensures a in PartnersIn(done, me) + (set a | a in m.actors.Values && a != me)
    {
      var m', a' :| m' in done + {m} && a' in m'.actors.Values && a' != me && a' == a;
      if m' != m {
        assert a in PartnersIn(done, me);
      }
    }
  }
}
