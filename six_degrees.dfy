/** The SixDegrees object: the `people` graph it builds edge by edge, and
    the queries that read it (random walk, degree extremes, popularity,
    shortest path). Printing is replaced by returned values; randomness is
    supplied by the caller as draws. */
module SixDegrees {
  import opened Graphs
  import opened Walks
  import opened Popularity
  import opened Paths

  /** The seed of `minDegree`'s scan: no degree above it is ever reported. */
  const MinSeed: nat := 100

  /** `smallDegree` reports the actors with at most this many entries. */
  const SmallBound: nat := 3

  /** `mostPopular` runs this many selection rounds. */
  const PopularRounds: nat := 5

  class SixDegrees {
    var people: Graph

    /** A graph built by edge insertion is closed and symmetric. */
    ghost predicate Valid()
      reads this
    {
      WellFormed(people)
    }

    constructor ()
      ensures Valid() && people == map[]
    {
      people := map[];
    }

    /** `createNode`: installs an empty list for `a`, replacing any list
        `a` had. */
    method CreateNode(a: string)
      modifies this
      ensures people == old(people)[a := []]
    {
      people := people[a := []];
    }

    /** `addEdge`: creates the missing endpoints, then appends the mirrored
        entries to both lists. */
    method AddEdge(a: string, b: string, movie: string)
      modifies this
      ensures people == AddEdgeTo(old(people), a, b, movie)
      ensures old(Valid()) ==> Valid()
    {
      if a !in people {
        CreateNode(a);
      }
      if b !in people {
        CreateNode(b);
      }
      var ll := people[a];
      ll := ll + [PersonMovie(b, movie)];
      people := people[a := ll];
      var ll2 := people[b];
      ll2 := ll2 + [PersonMovie(a, movie)];
      people := people[b := ll2];
      if old(Valid()) {
        AddEdgeWellFormed(old(people), a, b, movie);
      }
    }

    /** The pair loop of `populateGraph` for one line of the file: one edge
        for every pair i < j of the cast list, in loop order. */
    method AddCast(movie: string, cast: seq<string>)
      modifies this
      ensures people == AddCastTo(old(people), movie, cast)
      ensures old(Valid()) ==> Valid()
    {
      ghost var target := AddCastFrom(people, movie, cast, 0);
      var i := 0;
      while i < |cast| - 1
        invariant 0 <= i <= |cast|
        invariant AddCastFrom(people, movie, cast, i) == target
      {
        LinkRow(movie, cast, i);
        i := i + 1;
      }
      AddCastFromAll(old(people), movie, cast, 0);
      assert cast[0..] == cast;
      if old(Valid()) {
        AddCastWellFormed(old(people), movie, cast);
      }
    }

    /** The inner loop of the pair loop for row i: `addEdge(cast[i],
        cast[j], movie)` for every j > i, in order. */
    method LinkRow(movie: string, cast: seq<string>, i: nat)
      requires i < |cast|
      modifies this
      ensures people == LinkFrom(old(people), cast[i], cast, i + 1, movie)
      ensures old(Valid()) ==> Valid()
    {
      ghost var linked := LinkFrom(people, cast[i], cast, i + 1, movie);
      var j := i + 1;
      while j < |cast|
        invariant i + 1 <= j <= |cast|
        invariant LinkFrom(people, cast[i], cast, j, movie) == linked
      {
        AddEdge(cast[i], cast[j], movie);
        j := j + 1;
      }
      if old(Valid()) {
        LinkFromAll(old(people), cast[i], cast, i + 1, movie);
        LinkAllWellFormed(old(people), cast[i], cast[i + 1..], movie);
      }
    }

    /** `randomWalk`: `steps` steps from `a` (none when `steps <= 0`), step
        i taking entry `draws[i]` of the current actor's list and recording
        the actor it names. The draws stand for the uniform random index
        the source computes; each indexes a list that must be there and be
        non-empty, as the source would otherwise fail. */
    method RandomWalk(a: string, steps: int, draws: seq<nat>) returns (visited: seq<string>)
      requires |draws| == (if steps > 0 then steps else 0)
      requires Drawable(people, a, draws)
      ensures visited == WalkOf(people, a, draws)
      ensures |visited| == |draws|
      ensures IsNameWalk(people, a, visited)
    {
      visited := [];
      var current := a;
      var remaining := steps;
      var i := 0;
      while remaining > 0
        invariant 0 <= i <= |draws|
        invariant i + (if remaining > 0 then remaining else 0) == |draws|
        invariant Drawable(people, current, draws[i..])
        invariant visited + WalkOf(people, current, draws[i..]) == WalkOf(people, a, draws)
      {
        remaining := remaining - 1;
        var al := people[current];
        var rando := draws[i];
        var pm := al[rando];
        assert draws[i..][1..] == draws[i + 1..];
        visited := visited + [pm.person];
        current := pm.person;
        i := i + 1;
      }
      assert draws[i..] == [];
      WalkOfSteps(people, a, draws);
    }

    /** `maxDegree`: the largest degree, seeded at 0, and every actor that
        has it. */
    method MaxDegree() returns (max: nat, actors: set<string>)
      ensures forall x :: x in people ==> |people[x]| <= max
      ensures people != map[] ==> exists x :: x in people && |people[x]| == max
      ensures people == map[] ==> max == 0
      ensures actors == set x | x in people && |people[x]| == max
    {
      max := 0;
      var rest := people.Keys;
      while rest != {}
        invariant rest <= people.Keys
        invariant forall x :: x in people && x !in rest ==> |people[x]| <= max
        invariant max == 0 || exists x :: x in people && x !in rest && |people[x]| == max
        decreases rest
      {
        var actor :| actor in rest;
        var degree := |people[actor]|;
        if degree > max {
          max := degree;
        }
        rest := rest - {actor};
      }
      if people != map[] && max == 0 {
        var x :| x in people;
        assert |people[x]| == 0;
      }
      actors := {};
      rest := people.Keys;
      while rest != {}
        invariant rest <= people.Keys
        invariant actors == set x | x in people && x !in rest && |people[x]| == max
        decreases rest
      {
        var actor :| actor in rest;
        var degree := |people[actor]|;
        if degree == max {
          actors := actors + {actor};
        }
        rest := rest - {actor};
      }
    }

    /** `minDegree`: the smallest degree, seeded at 100, and every actor
        that has it. An actor whose degree exceeds the seed is never
        reported, so when all degrees do the set is empty. */
    method MinDegree() returns (min: nat, actors: set<string>)
      ensures min <= MinSeed
      ensures forall x :: x in people ==> min <= |people[x]|
      ensures min < MinSeed ==> exists x :: x in people && |people[x]| == min
      ensures actors == set x | x in people && |people[x]| == min
    {
      min := MinSeed;
      var rest := people.Keys;
      while rest != {}
        invariant rest <= people.Keys
        invariant min <= MinSeed
        invariant forall x :: x in people && x !in rest ==> min <= |people[x]|
        invariant min < MinSeed ==> exists x :: x in people && x !in rest && |people[x]| == min
        decreases rest
      {
        var actor :| actor in rest;
        var degree := |people[actor]|;
        if degree < min {
          min := degree;
        }
        rest := rest - {actor};
      }
      actors := {};
      rest := people.Keys;
      while rest != {}
        invariant rest <= people.Keys
        invariant actors == set x | x in people && x !in rest && |people[x]| == min
        decreases rest
      {
        var actor :| actor in rest;
        var degree := |people[actor]|;
        if degree == min {
          actors := actors + {actor};
        }
        rest := rest - {actor};
      }
    }

    /** `smallDegree`: every actor with at most three entries. */
    method SmallDegree() returns (actors: set<string>)
      ensures actors == set x | x in people && |people[x]| <= SmallBound
    {
      actors := {};
      var rest := people.Keys;
      while rest != {}
        invariant rest <= people.Keys
        invariant actors == set x | x in people && x !in rest && |people[x]| <= SmallBound
        decreases rest
      {
        var actor :| actor in rest;
        var degree := |people[actor]|;
        if degree <= SmallBound {
          actors := actors + {actor};
        }
        rest := rest - {actor};
      }
    }

    /** `mostPopular`: one walk of `steps` steps per trial, trial i starting
        at `starts[i]` (the source's random pick among the actors) and
        following `draws[i]`; the visits are tallied, then five selection
        rounds report the most visited actors. Returns the full tally and
        the rounds. */
    method MostPopular(starts: seq<string>, steps: int, draws: seq<seq<nat>>)
      returns (tally: map<string, nat>, reports: seq<Round>, removed: seq<string>)
      requires |draws| == |starts|
      requires forall i :: 0 <= i < |starts| ==>
        && starts[i] in people
        && |draws[i]| == (if steps > 0 then steps else 0)
        && Drawable(people, starts[i], draws[i])
      ensures forall x :: x in tally <==> Visits(WalksOf(people, starts, draws), x) > 0
      ensures forall x :: x in tally ==> tally[x] == Visits(WalksOf(people, starts, draws), x)
      ensures |reports| == PopularRounds && IsSelection(tally, reports, removed)
    {
      tally := map[];
      ghost var walks: seq<seq<string>> := [];
      var i := 0;
      while i < |starts|
        invariant 0 <= i <= |starts|
        invariant walks == WalksOf(people, starts[..i], draws[..i])
        invariant forall x :: Count(tally, x) == Visits(walks, x)
        invariant forall x :: x in tally <==> Visits(walks, x) > 0
      {
        var key := starts[i];
        var visited := RandomWalk(key, steps, draws[i]);
        ghost var before := tally;
        tally := CountVisits(tally, visited);
        TallyStep(walks, visited, before, tally);
        WalksOfExtend(people, starts, draws, i);
        walks := walks + [visited];
        i := i + 1;
      }
      assert starts[..i] == starts && draws[..i] == draws;
      reports, removed := SelectTop(tally, PopularRounds);
    }

    /** `findShortestPath`: breadth-first search from `a` with a FIFO queue
        and a predecessor map. The scan of an actor's list stops at the
        first entry naming `b`, and the path is rebuilt from the
        predecessors. The result is a walk from `a` to `b` of at least one
        hop, as short as any such walk; no path is reported only when no
        walk of one hop or more reaches `b`. For `a == b` this is the
        shortest round trip, as the source never checks for it. */
    method FindShortestPath(a: string, b: string) returns (result: PathResult)
      requires Closed(people)
      requires a in people
      ensures result.Found? ==> |result.hops| >= 1 && IsWalk(people, a, result.hops) && End(a, result.hops) == b
      ensures result.Found? ==> forall w :: IsWalk(people, a, w) && |w| >= 1 && End(a, w) == b ==> |result.hops| <= |w|
      ensures result.NoPath? ==> forall w :: IsWalk(people, a, w) && |w| >= 1 ==> End(a, w) != b
    {
      var g := people;
      var camefrom: map<string, Option<PersonMovie>> := map[a := None];
      var queue: seq<string> := [a];
      ghost var dist: map<string, nat> := map[a := 0];
      ghost var done: set<string> := {};
      SearchStart(g, a, b);
      while queue != []
        invariant Waiting(g, a, b, camefrom, dist, done, queue)
        decreases |g.Keys - done|
      {
        var current, found;
        current, found, camefrom, queue, dist := VisitFront(g, a, b, camefrom, queue, dist, done);
        if found.Some? {
          return Found(found.value);
        }
        FinishShrinks(g, done, current);
        done := done + {current};
      }
      ExhaustedNoWalk(g, a, b, camefrom, dist, done);
      return NoPath;
    }
  }
}
