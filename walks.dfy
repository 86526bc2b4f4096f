/** Walks through the actor graph: the random walk driven by a sequence of
    draws (one index into the current actor's list per step), and walks
    given as the adjacency entries they follow, used by the shortest-path
    search. */
module Walks {
  import opened Graphs

  // ---------------------------------------------------------------
  // Random walks
  // ---------------------------------------------------------------

  /** Every draw indexes the list of the actor the walk stands on at that
      step, so no step reads a missing or empty list. */
  ghost predicate Drawable(g: Graph, a: string, draws: seq<nat>)
    decreases |draws|
  {
    draws == [] ||
    (a in g && draws[0] < |g[a]| && Drawable(g, g[a][draws[0]].person, draws[1..]))
  }

  /** The names visited by a walk from `a` that takes entry `draws[i]` of
      the current list at step i. The start itself is not recorded, so
      there is one name per draw. */
  function WalkOf(g: Graph, a: string, draws: seq<nat>): (r: seq<string>)
    requires Drawable(g, a, draws)
    ensures |r| == |draws|
    decreases |draws|
  {
    if draws == [] then []
    else
      var next := g[a][draws[0]].person;
      [next] + WalkOf(g, next, draws[1..])
  }

  /** The actor a name walk stands on before step i: the start, then the
      name recorded at step i - 1. `From` is the same notion for a walk
      given as adjacency entries. */
  function Before(a: string, v: seq<string>, i: nat): string
    requires i <= |v|
  {
    if i == 0 then a else v[i - 1]
  }

  /** `v` is a walk from `a`: each name is in the list of the one before. */
  ghost predicate IsNameWalk(g: Graph, a: string, v: seq<string>)
  {
    forall i :: 0 <= i < |v| ==> Before(a, v, i) in g && v[i] in Names(g[Before(a, v, i)])
  }

  /** A drawn walk is a walk of the graph: each name is in the list of
      the actor before it. */
  lemma {:induction false} WalkOfSteps(g: Graph, a: string, draws: seq<nat>)
    requires Drawable(g, a, draws)
    ensures IsNameWalk(g, a, WalkOf(g, a, draws))
    decreases |draws|
  {
    if draws != [] {
      var next := g[a][draws[0]].person;
      var rest := WalkOf(g, next, draws[1..]);
      WalkOfSteps(g, next, draws[1..]);
      var v := [next] + rest;
      assert v == WalkOf(g, a, draws);
      forall i | 0 < i < |draws|
        ensures Before(a, v, i) == Before(next, rest, i - 1) && v[i] == rest[i - 1]
      {
      }
      assert Names(g[a])[draws[0]] == next;
    }
  }

  /** Step i of a drawn walk records the person of entry `draws[i]` of the
      list of the actor it stands on. */
  lemma {:induction false} WalkOfDraws(g: Graph, a: string, draws: seq<nat>)
    requires Drawable(g, a, draws)
    ensures forall i :: 0 <= i < |draws| ==>
      var v := WalkOf(g, a, draws);
      Before(a, v, i) in g && draws[i] < |g[Before(a, v, i)]| && v[i] == g[Before(a, v, i)][draws[i]].person
    decreases |draws|
  {
    if draws != [] {
      var next := g[a][draws[0]].person;
      var rest := WalkOf(g, next, draws[1..]);
      WalkOfDraws(g, next, draws[1..]);
      var v := [next] + rest;
      assert v == WalkOf(g, a, draws);
      forall i | 0 < i < |draws|
        ensures Before(a, v, i) == Before(next, rest, i - 1) && v[i] == rest[i - 1]
      {
      }
    }
  }

  /** The walks of a sequence of trials, trial i starting at `starts[i]`. */
  function WalksOf(g: Graph, starts: seq<string>, draws: seq<seq<nat>>): (r: seq<seq<string>>)
    requires |starts| == |draws|
    requires forall i :: 0 <= i < |starts| ==> Drawable(g, starts[i], draws[i])
    ensures |r| == |starts|
    decreases |starts|
  {
    if starts == [] then []
    else
      var n := |starts| - 1;
      WalksOf(g, starts[..n], draws[..n]) + [WalkOf(g, starts[n], draws[n])]
  }

  /** The walks of the first i + 1 trials extend those of the first i. */
  lemma WalksOfExtend(g: Graph, starts: seq<string>, draws: seq<seq<nat>>, i: nat)
    requires |starts| == |draws|
    requires forall j :: 0 <= j < |starts| ==> Drawable(g, starts[j], draws[j])
    requires i < |starts|
    ensures WalksOf(g, starts[..i + 1], draws[..i + 1]) == WalksOf(g, starts[..i], draws[..i]) + [WalkOf(g, starts[i], draws[i])]
  {
    assert starts[..i + 1][..i] == starts[..i] && draws[..i + 1][..i] == draws[..i];
  }

  /** Trial i of a sequence of trials is the drawn walk of that trial. */
  lemma {:induction false} WalksOfAt(g: Graph, starts: seq<string>, draws: seq<seq<nat>>, i: nat)
    requires |starts| == |draws|
    requires forall j :: 0 <= j < |starts| ==> Drawable(g, starts[j], draws[j])
    requires i < |starts|
    ensures WalksOf(g, starts, draws)[i] == WalkOf(g, starts[i], draws[i])
    decreases |starts|
  {
    var n := |starts| - 1;
    if i < n {
      WalksOfAt(g, starts[..n], draws[..n], i);
    }
  }

  // ---------------------------------------------------------------
  // Walks as sequences of adjacency entries
  // ---------------------------------------------------------------

  /** The actor a walk of entries stands on before step i: `Before` for
      walks given as entries. */
  function From(a: string, w: seq<PersonMovie>, i: nat): string
    requires i <= |w|
  {
    if i == 0 then a else w[i - 1].person
  }

  /** Where a walk of entries ends. */
  function End(a: string, w: seq<PersonMovie>): string
  {
    From(a, w, |w|)
  }

  /** `w` is a walk from `a`: each entry is in the list of the actor the
      previous entry leads to. */
  ghost predicate IsWalk(g: Graph, a: string, w: seq<PersonMovie>)
  {
    forall i :: 0 <= i < |w| ==> From(a, w, i) in g && w[i] in g[From(a, w, i)]
  }

  /** A prefix of a walk is a walk, ending where the walk stood. */
  lemma WalkPrefix(g: Graph, a: string, w: seq<PersonMovie>, k: nat)
    requires IsWalk(g, a, w) && k <= |w|
    ensures IsWalk(g, a, w[..k]) && End(a, w[..k]) == From(a, w, k)
  {
    forall i | 0 <= i < k ensures From(a, w[..k], i) == From(a, w, i) {
    }
  }

  /** One entry of `p`'s list followed by a walk from the actor it names. */
  lemma WalkPrepend(g: Graph, p: string, e: PersonMovie, w: seq<PersonMovie>)
    requires p in g && e in g[p] && IsWalk(g, e.person, w)
    ensures IsWalk(g, p, [e] + w) && End(p, [e] + w) == End(e.person, w)
  {
    var v := [e] + w;
    forall i | 0 < i < |v| ensures From(p, v, i) == From(e.person, w, i - 1) && v[i] == w[i - 1] {
    }
  }
}
