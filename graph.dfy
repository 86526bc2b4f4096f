/** The actor co-occurrence multigraph as a value: the contents of the
    `people` map, the edge insertion that builds it, and the facts that
    edge insertion keeps (symmetry, closure, degree sum). */
module Graphs {

  /** One adjacency entry: a co-star and one movie the two actors shared. */
  datatype PersonMovie = PersonMovie(person: string, movie: string)

  /** Actor name to its ordered adjacency list. */
  type Graph = map<string, seq<PersonMovie>>

  /** The list of `x`, or the empty list a fresh node would get. */
  function Adj(g: Graph, x: string): seq<PersonMovie>
  {
    if x in g then g[x] else []
  }

  /** Degree of an actor: every entry of its list counts, duplicates included. */
  function Deg(g: Graph, x: string): nat
  {
    |Adj(g, x)|
  }

  /** Names in an adjacency list, in list order. */
  function Names(s: seq<PersonMovie>): (r: seq<string>)
    ensures |r| == |s|
    ensures forall i :: 0 <= i < |s| ==> r[i] == s[i].person
  {
    if s == [] then [] else [s[0].person] + Names(s[1..])
  }

  /** How many entries of `x`'s list name `y` with movie `m`. */
  function Links(g: Graph, x: string, y: string, m: string): nat
  {
    multiset(Adj(g, x))[PersonMovie(y, m)]
  }

  /** Every entry (x -> y, m) is mirrored by as many entries (y -> x, m). */
  ghost predicate Symmetric(g: Graph)
  {
    forall x, y, m :: Links(g, x, y, m) == Links(g, y, x, m)
  }

  /** Every actor named in an adjacency list is itself a node. */
  ghost predicate Closed(g: Graph)
  {
    forall x, e :: x in g && e in g[x] ==> e.person in g
  }

  /** The invariant of every graph built by edge insertion. */
  ghost predicate WellFormed(g: Graph)
  {
    Closed(g) && Symmetric(g)
  }

  /** `addEdge(a, b, movie)`: create missing endpoints with empty lists,
      then append (b, movie) to a's list and (a, movie) to b's list. A
      self-loop appends twice to the same list. */
  function AddEdgeTo(g: Graph, a: string, b: string, movie: string): (r: Graph)
    ensures r.Keys == g.Keys + {a, b}
    ensures a != b ==> r[a] == Adj(g, a) + [PersonMovie(b, movie)]
    ensures a != b ==> r[b] == Adj(g, b) + [PersonMovie(a, movie)]
    ensures a == b ==> r[a] == Adj(g, a) + [PersonMovie(a, movie), PersonMovie(a, movie)]
    ensures forall x :: x in g && x != a && x != b ==> r[x] == g[x]
  {
    var g1 := if a in g then g else g[a := []];
    var g2 := if b in g1 then g1 else g1[b := []];
    var g3 := g2[a := g2[a] + [PersonMovie(b, movie)]];
    g3[b := g3[b] + [PersonMovie(a, movie)]]
  }

  /** The inner pair loop for one actor: `addEdge(a, others[j], movie)` for
      every j, in order. No node is dropped, and the list of an actor that
      is neither `a` nor a partner is untouched. */
  function LinkAll(g: Graph, a: string, others: seq<string>, movie: string): (r: Graph)
    ensures g.Keys <= r.Keys
    ensures forall x :: x in g && x != a && x !in others ==> r[x] == g[x]
    decreases |others|
  {
    if others == [] then g
    else LinkAll(AddEdgeTo(g, a, others[0], movie), a, others[1..], movie)
  }

  /** The pair loop over one cast list: `addEdge(cast[i], cast[j], movie)`
      for every i < j, in the loop's order. A cast of fewer than two actors
      adds nothing, not even a node. No node is dropped, and the list of an
      actor outside the cast is untouched. */
  function AddCastTo(g: Graph, movie: string, cast: seq<string>): (r: Graph)
    ensures g.Keys <= r.Keys
    ensures forall x :: x in g && x !in cast ==> r[x] == g[x]
    decreases |cast|
  {
    if |cast| <= 1 then g
    else AddCastTo(LinkAll(g, cast[0], cast[1..], movie), movie, cast[1..])
  }

  /** The inner pair loop from index j on, as the loop counts it:
      `addEdge(a, cast[j'], movie)` for every j' >= j, in order. */
  function LinkFrom(g: Graph, a: string, cast: seq<string>, j: nat, movie: string): Graph
    requires j <= |cast|
    decreases |cast| - j
  {
    if j == |cast| then g
    else LinkFrom(AddEdgeTo(g, a, cast[j], movie), a, cast, j + 1, movie)
  }

  /** The outer pair loop from row i on, as the loop counts it: the rows
      of `cast[i]`, `cast[i + 1]`, ..., each linked to the later actors. */
  function AddCastFrom(g: Graph, movie: string, cast: seq<string>, i: nat): Graph
    requires i <= |cast|
    decreases |cast| - i
  {
    if i + 1 >= |cast| then g
    else AddCastFrom(LinkFrom(g, cast[i], cast, i + 1, movie), movie, cast, i + 1)
  }

  /** Counting the inner loop by index links `a` to the rest of the cast
      list, in order. */
  lemma {:induction false} LinkFromAll(g: Graph, a: string, cast: seq<string>, j: nat, movie: string)
    requires j <= |cast|
    ensures LinkFrom(g, a, cast, j, movie) == LinkAll(g, a, cast[j..], movie)
    decreases |cast| - j
  {
    if j < |cast| {
      LinkFromAll(AddEdgeTo(g, a, cast[j], movie), a, cast, j + 1, movie);
      assert cast[j..][0] == cast[j] && cast[j..][1..] == cast[j + 1..];
    }
  }

  /** Counting the outer loop by index inserts the pairs of the rest of
      the cast list, in order. */
  lemma {:induction false} AddCastFromAll(g: Graph, movie: string, cast: seq<string>, i: nat)
    requires i <= |cast|
    ensures AddCastFrom(g, movie, cast, i) == AddCastTo(g, movie, cast[i..])
    decreases |cast| - i
  {
    if i + 1 < |cast| {
      LinkFromAll(g, cast[i], cast, i + 1, movie);
      AddCastFromAll(LinkFrom(g, cast[i], cast, i + 1, movie), movie, cast, i + 1);
      assert cast[i..][0] == cast[i] && cast[i..][1..] == cast[i + 1..];
    }
  }

  predicate Distinct(s: seq<string>)
  {
    forall i, j :: 0 <= i < j < |s| ==> s[i] != s[j]
  }

  // ---------------------------------------------------------------
  // Symmetry and closure
  // ---------------------------------------------------------------

  lemma AppendCount(s: seq<PersonMovie>, t: seq<PersonMovie>, e: PersonMovie)
    ensures multiset(s + t)[e] == multiset(s)[e] + multiset(t)[e]
  {
    assert multiset(s + t) == multiset(s) + multiset(t);
  }

  /** The effect of one insertion on every link count: exactly one more
      (a -> b, movie) and one more (b -> a, movie). */
  lemma AddEdgeLinks(g: Graph, a: string, b: string, movie: string, x: string, y: string, m: string)
    ensures Links(AddEdgeTo(g, a, b, movie), x, y, m)
         == Links(g, x, y, m)
          + (if x == a && y == b && m == movie then 1 else 0)
          + (if x == b && y == a && m == movie then 1 else 0)
  {
    var r := AddEdgeTo(g, a, b, movie);
    assert Adj(r, x) == Adj(g, x) + Added(a, b, movie, x);
    AppendCount(Adj(g, x), Added(a, b, movie, x), PersonMovie(y, m));
    AddedCount(a, b, movie, x, y, m);
  }

  /** The entries one insertion appends to `x`'s list. */
  function Added(a: string, b: string, movie: string, x: string): seq<PersonMovie>
  {
    if x == a && x == b then [PersonMovie(a, movie), PersonMovie(a, movie)]
    else if x == a then [PersonMovie(b, movie)]
    else if x == b then [PersonMovie(a, movie)]
    else []
  }

  lemma AddedCount(a: string, b: string, movie: string, x: string, y: string, m: string)
    ensures multiset(Added(a, b, movie, x))[PersonMovie(y, m)]
         == (if x == a && y == b && m == movie then 1 else 0) + (if x == b && y == a && m == movie then 1 else 0)
  {
  }

  /** Edge insertion keeps the graph symmetric, self-loops included. */
  lemma AddEdgeSymmetric(g: Graph, a: string, b: string, movie: string)
    requires Symmetric(g)
    ensures Symmetric(AddEdgeTo(g, a, b, movie))
  {
    var r := AddEdgeTo(g, a, b, movie);
    forall x, y, m ensures Links(r, x, y, m) == Links(r, y, x, m) {
      AddEdgeLinks(g, a, b, movie, x, y, m);
      AddEdgeLinks(g, a, b, movie, y, x, m);
    }
  }

  /** Edge insertion keeps every listed actor a node. */
  lemma AddEdgeClosed(g: Graph, a: string, b: string, movie: string)
    requires Closed(g)
    ensures Closed(AddEdgeTo(g, a, b, movie))
  {
    var r := AddEdgeTo(g, a, b, movie);
    forall x: string, e: PersonMovie | x in r && e in r[x] ensures e.person in r {
      if x != a && x != b {
        assert e in g[x];
      } else if e !in Adj(g, x) {
        assert e.person == a || e.person == b;
      }
    }
  }

  lemma AddEdgeWellFormed(g: Graph, a: string, b: string, movie: string)
    requires WellFormed(g)
    ensures WellFormed(AddEdgeTo(g, a, b, movie))
  {
    AddEdgeClosed(g, a, b, movie);
    AddEdgeSymmetric(g, a, b, movie);
  }

  lemma {:induction false} LinkAllWellFormed(g: Graph, a: string, others: seq<string>, movie: string)
    requires WellFormed(g)
    ensures WellFormed(LinkAll(g, a, others, movie))
    decreases |others|
  {
    if others != [] {
      AddEdgeWellFormed(g, a, others[0], movie);
      LinkAllWellFormed(AddEdgeTo(g, a, others[0], movie), a, others[1..], movie);
    }
  }

  /** Inserting a whole cast keeps the graph symmetric and closed. */
  lemma {:induction false} AddCastWellFormed(g: Graph, movie: string, cast: seq<string>)
    requires WellFormed(g)
    ensures WellFormed(AddCastTo(g, movie, cast))
    decreases |cast|
  {
    if |cast| > 1 {
      LinkAllWellFormed(g, cast[0], cast[1..], movie);
      AddCastWellFormed(LinkAll(g, cast[0], cast[1..], movie), movie, cast[1..]);
    }
  }

  // ---------------------------------------------------------------
  // Degrees of cast insertion
  // ---------------------------------------------------------------

  lemma {:induction false} LinkAllKeys(g: Graph, a: string, others: seq<string>, movie: string)
    ensures forall x :: x in LinkAll(g, a, others, movie) <==> x in g || (others != [] && (x == a || x in others))
    decreases |others|
  {
    if others != [] {
      var g' := AddEdgeTo(g, a, others[0], movie);
      LinkAllKeys(g', a, others[1..], movie);
      forall x ensures x in others <==> x == others[0] || x in others[1..] {
        assert others == [others[0]] + others[1..];
      }
    }
  }

  /** A cast of two or more actors makes every member a node; a cast of
      one actor creates nothing. */
  lemma {:induction false} AddCastKeys(g: Graph, movie: string, cast: seq<string>)
    ensures forall x :: x in AddCastTo(g, movie, cast) <==> x in g || (|cast| > 1 && x in cast)
    decreases |cast|
  {
    if |cast| > 1 {
      var g' := LinkAll(g, cast[0], cast[1..], movie);
      LinkAllKeys(g, cast[0], cast[1..], movie);
      AddCastKeys(g', movie, cast[1..]);
      forall x ensures x in cast <==> x == cast[0] || x in cast[1..] {
        assert cast == [cast[0]] + cast[1..];
      }
    }
  }

  /** Linking `a` to distinct other actors raises a's degree by their
      number and each of theirs by one. */
  lemma {:induction false} LinkAllDeg(g: Graph, a: string, others: seq<string>, movie: string, x: string)
    requires a !in others && Distinct(others)
    ensures Deg(LinkAll(g, a, others, movie), x)
         == Deg(g, x) + (if x == a then |others| else 0) + (if x in others then 1 else 0)
    decreases |others|
  {
    if others != [] {
      var g' := AddEdgeTo(g, a, others[0], movie);
      LinkAllDeg(g', a, others[1..], movie, x);
      assert x in others <==> x == others[0] || x in others[1..];
      assert x == others[0] ==> x !in others[1..];
    }
  }

  /** Inserting a cast of k distinct actors raises each member's degree by
      k - 1 and leaves every other degree alone. */
  lemma {:induction false} AddCastDeg(g: Graph, movie: string, cast: seq<string>, x: string)
    requires Distinct(cast)
    ensures Deg(AddCastTo(g, movie, cast), x)
         == Deg(g, x) + (if x in cast then |cast| - 1 else 0)
    decreases |cast|
  {
    if |cast| > 1 {
      var rest := cast[1..];
      assert Distinct(rest);
      assert cast[0] !in rest;
      LinkAllDeg(g, cast[0], rest, movie, x);
      AddCastDeg(LinkAll(g, cast[0], rest, movie), movie, rest, x);
      assert x in cast <==> x == cast[0] || x in rest;
    }
  }

  // ---------------------------------------------------------------
  // Degree sum
  // ---------------------------------------------------------------

  ghost function Pick(g: Graph): string
    requires g != map[]
  {
    var k :| k in g; k
  }

  /** Sum of all list lengths. */
  ghost function DegreeSum(g: Graph): nat
    decreases |g|
  {
    if g == map[] then 0
    else
      var k := Pick(g);
      assert (g - {k}).Keys == g.Keys - {k};
      |g[k]| + DegreeSum(g - {k})
  }

  lemma RemoveSize(g: Graph, k: string)
    requires k in g
    ensures |g - {k}| == |g| - 1
  {
    assert (g - {k}).Keys == g.Keys - {k};
  }

  /** The sum does not depend on which actor is taken out first. */
  lemma {:induction false} DegreeSumRemove(g: Graph, x: string)
    requires x in g
    ensures DegreeSum(g) == |g[x]| + DegreeSum(g - {x})
    decreases |g|
  {
    var k := Pick(g);
    if k != x {
      RemoveSize(g, k);
      RemoveSize(g, x);
      DegreeSumRemove(g - {k}, x);
      DegreeSumRemove(g - {x}, k);
      assert g - {k} - {x} == g - {x} - {k};
    }
  }

  /** Replacing one list changes the sum by the change of its length. */
  lemma DegreeSumUpdate(g: Graph, x: string, s: seq<PersonMovie>)
    ensures DegreeSum(g[x := s]) == DegreeSum(g) - Deg(g, x) + |s|
  {
    DegreeSumRemove(g[x := s], x);
    assert g[x := s] - {x} == g - {x};
    if x in g {
      DegreeSumRemove(g, x);
    } else {
      assert g - {x} == g;
    }
  }

  /** Every insertion raises the degree sum by exactly two, a self-loop too. */
  lemma AddEdgeDegreeSum(g: Graph, a: string, b: string, movie: string)
    ensures DegreeSum(AddEdgeTo(g, a, b, movie)) == DegreeSum(g) + 2
  {
    var g1 := if a in g then g else g[a := []];
    if a !in g { DegreeSumUpdate(g, a, []); }
    var g2 := if b in g1 then g1 else g1[b := []];
    if b !in g1 { DegreeSumUpdate(g1, b, []); }
    var g3 := g2[a := g2[a] + [PersonMovie(b, movie)]];
    DegreeSumUpdate(g2, a, g2[a] + [PersonMovie(b, movie)]);
    DegreeSumUpdate(g3, b, g3[b] + [PersonMovie(a, movie)]);
  }

  lemma {:induction false} LinkAllDegreeSum(g: Graph, a: string, others: seq<string>, movie: string)
    ensures DegreeSum(LinkAll(g, a, others, movie)) == DegreeSum(g) + 2 * |others|
    decreases |others|
  {
    if others != [] {
      AddEdgeDegreeSum(g, a, others[0], movie);
      LinkAllDegreeSum(AddEdgeTo(g, a, others[0], movie), a, others[1..], movie);
    }
  }

  /** Number of entries a cast of k actors adds: two per pair, k(k-1). */
  function PairEntries(k: nat): nat
  {
    if k == 0 then 0 else 2 * (k - 1) + PairEntries(k - 1)
  }

  lemma {:induction false} PairEntriesClosed(k: nat)
    ensures PairEntries(k) == k * (k - 1)
  {
    if k > 0 {
      PairEntriesClosed(k - 1);
      assert (k - 1) * (k - 2) + 2 * (k - 1) == k * (k - 1);
    }
  }

  /** A cast of k actors adds k(k-1)/2 edges: the degree sum grows by k(k-1). */
  lemma {:induction false} AddCastDegreeSum(g: Graph, movie: string, cast: seq<string>)
    ensures DegreeSum(AddCastTo(g, movie, cast)) == DegreeSum(g) + |cast| * (|cast| - 1)
  {
    AddCastPairEntries(g, movie, cast);
    PairEntriesClosed(|cast|);
  }

  lemma {:induction false} AddCastPairEntries(g: Graph, movie: string, cast: seq<string>)
    ensures DegreeSum(AddCastTo(g, movie, cast)) == DegreeSum(g) + PairEntries(|cast|)
    decreases |cast|
  {
    if |cast| > 1 {
      LinkAllDegreeSum(g, cast[0], cast[1..], movie);
      AddCastPairEntries(LinkAll(g, cast[0], cast[1..], movie), movie, cast[1..]);
    } else if |cast| == 1 {
      assert PairEntries(1) == 0;
    }
  }
}
