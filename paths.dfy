/** The breadth-first shortest-path search: the predecessor records it
    keeps, the reconstruction that follows them back to the source, the
    facts that make the first path found a shortest one, and the
    reconstruction as the source writes it, which overwrites a graph entry. */
module Paths {
  import opened Graphs
  import opened Walks

  datatype Option<T> = None | Some(value: T)

  /** The outcome of a search: the hops from the source to the target, or
      none found. A hop is the entry followed: the actor reached and the
      movie that links it to the previous actor. */
  datatype PathResult = NoPath | Found(hops: seq<PersonMovie>)

  /** `x` was reached from `camefrom[x].value.person` through an entry of
      that actor's list naming `x`, one hop further from the source. */
  ghost predicate LinkedBack(g: Graph, camefrom: map<string, Option<PersonMovie>>, dist: map<string, nat>, x: string)
  {
    && x in camefrom && x in dist && camefrom[x].Some?
    && var p := camefrom[x].value;
    && p.person in camefrom && p.person in dist && p.person in g
    && PersonMovie(x, p.movie) in g[p.person]
    && dist[x] == dist[p.person] + 1
  }

  /** The predecessor map of a search from `a`: the source has no
      predecessor, every other visited actor links back one hop. `dist`
      is the hop count of each visited actor. */
  ghost predicate ChainInvariant(g: Graph, a: string, camefrom: map<string, Option<PersonMovie>>, dist: map<string, nat>)
  {
    && camefrom.Keys == dist.Keys
    && a in camefrom && camefrom[a] == None && dist[a] == 0
    && forall x :: x in camefrom && x != a ==> LinkedBack(g, camefrom, dist, x)
  }

  /** Follows predecessor links from `current` back to the source, whose
      record is empty, collecting the hops; `last` is the entry of
      `current`'s list that named the target. The hops come out in
      source-to-target order and there are dist[current] + 1 of them. */
  method Reconstruct(g: Graph, a: string, camefrom: map<string, Option<PersonMovie>>, ghost dist: map<string, nat>,
                     current: string, last: PersonMovie) returns (hops: seq<PersonMovie>)
    requires ChainInvariant(g, a, camefrom, dist)
    requires current in camefrom && current in g && last in g[current]
    ensures IsWalk(g, a, hops) && End(a, hops) == last.person
    ensures |hops| == dist[current] + 1
  {
    hops := [last];
    var cur := current;
    assert IsWalk(g, cur, hops);
    while camefrom[cur].Some?
      invariant cur in camefrom && cur in g
      invariant IsWalk(g, cur, hops) && End(cur, hops) == last.person
      invariant |hops| + dist[cur] == dist[current] + 1
      decreases dist[cur]
    {
      var p := camefrom[cur].value;
      WalkPrepend(g, p.person, PersonMovie(cur, p.movie), hops);
      hops := [PersonMovie(cur, p.movie)] + hops;
      cur := p.person;
    }
  }

  /** Every entry of `p`'s list names a visited actor at most one hop
      further than `p`, and none names the target `b`. */
  ghost predicate Finished(g: Graph, b: string, dist: map<string, nat>, p: string)
    requires p in g && p in dist
  {
    forall e :: e in g[p] ==> e.person in dist && dist[e.person] <= dist[p] + 1 && e.person != b
  }

  /** The search state after some actors are finished (`done`): every
      actor less than `bound` hops away by the records is finished, and a
      finished actor's list names only visited actors, at most one hop
      further, and never the target `b`. */
  ghost predicate Settled(g: Graph, a: string, b: string, dist: map<string, nat>, done: set<string>, bound: nat)
  {
    && a in dist && dist[a] == 0
    && (forall v :: v in dist && dist[v] < bound ==> v in done)
    && (forall p :: p in done ==> p in g && p in dist && Finished(g, b, dist, p))
  }

  /** A walk shorter than the bound ends at a finished actor whose record
      is no longer than the walk. */
  lemma {:induction false} ShortWalksEndDone(g: Graph, a: string, b: string, dist: map<string, nat>, done: set<string>,
                                             bound: nat, w: seq<PersonMovie>)
    requires Settled(g, a, b, dist, done, bound)
    requires IsWalk(g, a, w) && |w| < bound
    ensures End(a, w) in done && dist[End(a, w)] <= |w|
    decreases |w|
  {
    if w != [] {
      var k := |w| - 1;
      WalkPrefix(g, a, w, k);
      ShortWalksEndDone(g, a, b, dist, done, bound, w[..k]);
      var y := From(a, w, k);
      assert w[k] in g[y];
    }
  }

  /** No walk of one to `bound` hops reaches the target. */
  lemma NoEarlyArrival(g: Graph, a: string, b: string, dist: map<string, nat>, done: set<string>,
                       bound: nat, w: seq<PersonMovie>)
    requires Settled(g, a, b, dist, done, bound)
    requires IsWalk(g, a, w) && 1 <= |w| <= bound
    ensures End(a, w) != b
  {
    var k := |w| - 1;
    WalkPrefix(g, a, w, k);
    ShortWalksEndDone(g, a, b, dist, done, bound, w[..k]);
    var y := From(a, w, k);
    assert w[k] in g[y];
  }

  // ---------------------------------------------------------------
  // The search loop's invariants
  // ---------------------------------------------------------------

  /** The queue's hop counts never fall from front to back and rise by at
      most one over the whole queue. The pairwise conjunct repeats the
      membership guards so that it is well-formed on its own; `Waiting`
      and `Frontier` keep the same guards, as they state their queue
      bounds without `Layered`. */
  ghost predicate Layered(queue: seq<string>, dist: map<string, nat>)
  {
    && (forall i :: 0 <= i < |queue| ==> queue[i] in dist)
    && (forall i, j :: 0 <= i <= j < |queue| && queue[i] in dist && queue[j] in dist ==>
          dist[queue[i]] <= dist[queue[j]] <= dist[queue[i]] + 1)
  }

  /** What holds throughout the search: the predecessor records, every
      visited actor a node, the queue
      layered and disjoint from the finished actors, and every finished
      actor's list scanned. */
  ghost predicate Bookkeeping(g: Graph, a: string, b: string, camefrom: map<string, Option<PersonMovie>>,
                              dist: map<string, nat>, done: set<string>, queue: seq<string>)
  {
    && ChainInvariant(g, a, camefrom, dist)
    && camefrom.Keys <= g.Keys && done <= camefrom.Keys
    && Distinct(queue) && (forall i :: 0 <= i < |queue| ==> queue[i] in camefrom && queue[i] !in done)
    && Layered(queue, dist)
    && (forall p :: p in done ==> p in g && p in dist && Finished(g, b, dist, p))
  }

  /** The state at the head of the main loop: every visited actor is
      finished or queued, finished actors are no further than any queued
      one, and nothing visited is more than one hop beyond the front. */
  ghost predicate Waiting(g: Graph, a: string, b: string, camefrom: map<string, Option<PersonMovie>>,
                          dist: map<string, nat>, done: set<string>, queue: seq<string>)
  {
    && Bookkeeping(g, a, b, camefrom, dist, done, queue)
    && (forall v :: v in camefrom ==> v in done || v in queue)
    && (forall p, i :: p in done && 0 <= i < |queue| && p in dist && queue[i] in dist ==> dist[p] <= dist[queue[i]])
    && (queue != [] && queue[0] in dist ==> forall v :: v in dist ==> dist[v] <= dist[queue[0]] + 1)
  }

  /** The state while `current`, just taken from the queue, has its first
      k entries scanned. */
  ghost predicate Scanning(g: Graph, a: string, b: string, camefrom: map<string, Option<PersonMovie>>,
                           dist: map<string, nat>, done: set<string>, queue: seq<string>,
                           current: string, k: nat)
  {
    Bookkeeping(g, a, b, camefrom, dist, done, queue) && Frontier(g, b, camefrom, dist, done, queue, current, k)
  }

  /** `current` is visited but neither finished nor queued; it lies between
      the finished actors and the queued ones, nothing visited is more than
      one hop beyond it, and its first k entries named visited actors at
      most one hop further, none of them the target. */
  ghost predicate Frontier(g: Graph, b: string, camefrom: map<string, Option<PersonMovie>>,
                           dist: map<string, nat>, done: set<string>, queue: seq<string>,
                           current: string, k: nat)
  {
    && current in camefrom && current in dist && current in g && current !in done && current !in queue
    && k <= |g[current]|
    && (forall v :: v in camefrom ==> v in done || v in queue || v == current)
    && (forall i :: 0 <= i < |queue| && queue[i] in dist ==> dist[current] <= dist[queue[i]] <= dist[current] + 1)
    && (forall p :: p in done && p in dist ==> dist[p] <= dist[current])
    && (forall v :: v in dist ==> dist[v] <= dist[current] + 1)
    && (forall j :: 0 <= j < k ==> ScannedEntry(g, b, dist, current, j))
  }

  /** Entry j of `current`'s list names a visited actor at most one hop
      further, and not the target. */
  ghost predicate ScannedEntry(g: Graph, b: string, dist: map<string, nat>, current: string, j: nat)
    requires current in g && current in dist && j < |g[current]|
  {
    var x := g[current][j].person;
    x in dist && dist[x] <= dist[current] + 1 && x != b
  }

  /** The search starts with the source queued and nothing finished. */
  lemma SearchStart(g: Graph, a: string, b: string)
    requires a in g
    ensures Waiting(g, a, b, map[a := None], map[a := 0], {}, [a])
  {
  }

  /** Finishing one more node leaves fewer unfinished nodes: the measure
      that makes the main loop terminate. */
  lemma FinishShrinks(g: Graph, done: set<string>, current: string)
    requires current in g && current !in done
    ensures |g.Keys - (done + {current})| < |g.Keys - done|
  {
    assert g.Keys - (done + {current}) == (g.Keys - done) - {current};
  }

  /** Taking the front of the queue starts its scan. */
  lemma StartScan(g: Graph, a: string, b: string, camefrom: map<string, Option<PersonMovie>>,
                  dist: map<string, nat>, done: set<string>, queue: seq<string>)
    requires Waiting(g, a, b, camefrom, dist, done, queue)
    requires queue != []
    ensures Scanning(g, a, b, camefrom, dist, done, queue[1..], queue[0], 0)
  {
    var q := queue[1..];
    assert forall i :: 0 <= i < |q| ==> q[i] == queue[i + 1];
    assert Layered(q, dist);
  }

  /** An entry naming an actor already visited is passed over. */
  lemma ScanSkip(g: Graph, a: string, b: string, camefrom: map<string, Option<PersonMovie>>,
                 dist: map<string, nat>, done: set<string>, queue: seq<string>,
                 current: string, k: nat)
    requires Scanning(g, a, b, camefrom, dist, done, queue, current, k)
    requires k < |g[current]| && g[current][k].person != b && g[current][k].person in camefrom
    ensures Scanning(g, a, b, camefrom, dist, done, queue, current, k + 1)
  {
  }

  /** An entry naming an unvisited actor records `current` as its
      predecessor, one hop further, and queues it. */
  lemma ScanEnqueue(g: Graph, a: string, b: string, camefrom: map<string, Option<PersonMovie>>,
                    dist: map<string, nat>, done: set<string>, queue: seq<string>,
                    current: string, k: nat)
    requires Scanning(g, a, b, camefrom, dist, done, queue, current, k)
    requires Closed(g)
    requires k < |g[current]| && g[current][k].person != b && g[current][k].person !in camefrom
    ensures var x := g[current][k].person;
      Scanning(g, a, b, camefrom[x := Some(PersonMovie(current, g[current][k].movie))], dist[x := dist[current] + 1],
               done, queue + [x], current, k + 1)
  {
    var e := g[current][k];
    assert e in g[current];
    EnqueueBookkeeping(g, a, b, camefrom, dist, done, queue, current, e);
    EnqueueFrontier(g, b, camefrom, dist, done, queue, current, k);
  }

  /** Recording and queuing entry k's unvisited actor one hop beyond
      `current` completes the scan of entry k. */
  lemma EnqueueFrontier(g: Graph, b: string, camefrom: map<string, Option<PersonMovie>>,
                        dist: map<string, nat>, done: set<string>, queue: seq<string>, current: string, k: nat)
    requires Frontier(g, b, camefrom, dist, done, queue, current, k)
    requires camefrom.Keys == dist.Keys && done <= camefrom.Keys
    requires k < |g[current]| && g[current][k].person != b && g[current][k].person !in camefrom
    ensures var x := g[current][k].person;
      Frontier(g, b, camefrom[x := Some(PersonMovie(current, g[current][k].movie))], dist[x := dist[current] + 1],
               done, queue + [x], current, k + 1)
  {
    var x := g[current][k].person;
    var camefrom' := camefrom[x := Some(PersonMovie(current, g[current][k].movie))];
    var dist' := dist[x := dist[current] + 1];
    var queue' := queue + [x];
    EnqueueScanned(g, b, dist, dist', current, k);
    assert forall v :: v in camefrom' ==> v in done || v in queue' || v == current;
    assert forall i :: 0 <= i < |queue'| && queue'[i] in dist' ==>
      dist'[current] <= dist'[queue'[i]] <= dist'[current] + 1;
  }

  /** Recording and queuing an unvisited actor named in `current`'s list,
      one hop beyond `current`, keeps the bookkeeping. */
  lemma EnqueueBookkeeping(g: Graph, a: string, b: string, camefrom: map<string, Option<PersonMovie>>,
                           dist: map<string, nat>, done: set<string>, queue: seq<string>,
                           current: string, e: PersonMovie)
    requires Bookkeeping(g, a, b, camefrom, dist, done, queue)
    requires Closed(g)
    requires current in camefrom && current in g && e in g[current] && e.person !in camefrom
    requires forall i :: 0 <= i < |queue| && queue[i] in dist ==> dist[current] <= dist[queue[i]] <= dist[current] + 1
    ensures Bookkeeping(g, a, b, camefrom[e.person := Some(PersonMovie(current, e.movie))], dist[e.person := dist[current] + 1],
                        done, queue + [e.person])
  {
    var x := e.person;
    assert x in g;
    EnqueueChain(g, a, camefrom, dist, current, e);
    EnqueueFinished(g, b, dist, done, x, dist[current] + 1);
    EnqueueLayered(queue, dist, x, dist[current]);
    assert Distinct(queue + [x]);
  }

  /** When the target turns up in `current`'s list, no walk to it is
      shorter than the one hop beyond `current`. */
  lemma FoundShortest(g: Graph, a: string, b: string, camefrom: map<string, Option<PersonMovie>>,
                      dist: map<string, nat>, done: set<string>, queue: seq<string>,
                      current: string, k: nat)
    requires Scanning(g, a, b, camefrom, dist, done, queue, current, k)
    ensures forall w :: IsWalk(g, a, w) && |w| >= 1 && End(a, w) == b ==> dist[current] + 1 <= |w|
  {
    FoundSettled(g, a, b, camefrom, dist, done, queue, current, k);
    forall w | IsWalk(g, a, w) && 1 <= |w| <= dist[current]
      ensures End(a, w) != b
    {
      NoEarlyArrival(g, a, b, dist, done, dist[current], w);
    }
  }

  /** When the queue runs empty, no walk of one hop or more reaches the
      target. */
  lemma ExhaustedNoWalk(g: Graph, a: string, b: string, camefrom: map<string, Option<PersonMovie>>,
                        dist: map<string, nat>, done: set<string>)
    requires Waiting(g, a, b, camefrom, dist, done, [])
    ensures forall w :: IsWalk(g, a, w) && |w| >= 1 ==> End(a, w) != b
  {
    forall w | IsWalk(g, a, w) && |w| >= 1
      ensures End(a, w) != b
    {
      EmptySettled(g, a, b, camefrom, dist, done, |w|);
      NoEarlyArrival(g, a, b, dist, done, |w|, w);
    }
  }

  /** Recording an unvisited actor named in `current`'s list keeps the
      predecessor records linked back. */
  lemma EnqueueChain(g: Graph, a: string, camefrom: map<string, Option<PersonMovie>>, dist: map<string, nat>,
                     current: string, e: PersonMovie)
    requires ChainInvariant(g, a, camefrom, dist)
    requires current in camefrom && current in g && e in g[current] && e.person !in camefrom
    ensures ChainInvariant(g, a, camefrom[e.person := Some(PersonMovie(current, e.movie))], dist[e.person := dist[current] + 1])
  {
    var camefrom' := camefrom[e.person := Some(PersonMovie(current, e.movie))];
    var dist' := dist[e.person := dist[current] + 1];
    forall y | y in camefrom' && y != a ensures LinkedBack(g, camefrom', dist', y) {
      if y != e.person {
        assert LinkedBack(g, camefrom, dist, y);
      } else {
        assert PersonMovie(y, e.movie) == e;
      }
    }
  }

  /** A hop count for a new actor leaves the finished actors finished. */
  lemma EnqueueFinished(g: Graph, b: string, dist: map<string, nat>, done: set<string>, x: string, d: nat)
    requires x !in dist
    requires forall p :: p in done ==> p in g && p in dist && Finished(g, b, dist, p)
    ensures forall p :: p in done ==> p in g && p in dist[x := d] && Finished(g, b, dist[x := d], p)
  {
    forall p | p in done ensures Finished(g, b, dist[x := d], p) {
      assert Finished(g, b, dist, p);
    }
  }

  /** Queuing a new actor one hop beyond `current`, when every queued
      actor is at `current`'s count or one beyond, keeps the queue layered. */
  lemma EnqueueLayered(queue: seq<string>, dist: map<string, nat>, x: string, c: nat)
    requires Layered(queue, dist) && x !in dist
    requires forall i :: 0 <= i < |queue| && queue[i] in dist ==> c <= dist[queue[i]] <= c + 1
    ensures Layered(queue + [x], dist[x := c + 1])
  {
    var q := queue + [x];
    var d := dist[x := c + 1];
    forall i, j | 0 <= i <= j < |q| ensures q[i] in d && q[j] in d && d[q[i]] <= d[q[j]] <= d[q[i]] + 1 {
      if j < |queue| {
        assert q[i] == queue[i] && q[j] == queue[j];
      } else if i < |queue| {
        assert q[i] == queue[i];
      }
    }
  }

  /** Recording entry k's actor one hop beyond `current` completes the scan
      of entry k and keeps the earlier entries scanned. */
  lemma EnqueueScanned(g: Graph, b: string, dist: map<string, nat>, d: map<string, nat>, current: string, k: nat)
    requires current in g && current in dist && k < |g[current]|
    requires g[current][k].person !in dist && g[current][k].person != b
    requires d == dist[g[current][k].person := dist[current] + 1]
    requires forall j :: 0 <= j < k ==> ScannedEntry(g, b, dist, current, j)
    ensures forall j :: 0 <= j < k + 1 ==> ScannedEntry(g, b, d, current, j)
  {
    forall j | 0 <= j < k + 1 ensures ScannedEntry(g, b, d, current, j) {
      if j < k {
        assert ScannedEntry(g, b, dist, current, j);
      }
    }
  }

  /** A fully scanned actor is finished, and the loop head state holds again. */
  lemma FinishScan(g: Graph, a: string, b: string, camefrom: map<string, Option<PersonMovie>>,
                   dist: map<string, nat>, done: set<string>, queue: seq<string>,
                   current: string)
    requires current in g
    requires Scanning(g, a, b, camefrom, dist, done, queue, current, |g[current]|)
    ensures current !in done
    ensures Waiting(g, a, b, camefrom, dist, done + {current}, queue)
  {
    assert Finished(g, b, dist, current) by {
      forall e | e in g[current] ensures e.person in dist && dist[e.person] <= dist[current] + 1 && e.person != b {
        var j :| 0 <= j < |g[current]| && g[current][j] == e;
        assert ScannedEntry(g, b, dist, current, j);
      }
    }
  }

  /** When the target turns up in `current`'s list, every actor closer than
      `current` is finished. */
  lemma FoundSettled(g: Graph, a: string, b: string, camefrom: map<string, Option<PersonMovie>>,
                     dist: map<string, nat>, done: set<string>, queue: seq<string>,
                     current: string, k: nat)
    requires Scanning(g, a, b, camefrom, dist, done, queue, current, k)
    ensures Settled(g, a, b, dist, done, dist[current])
  {
  }

  /** When the queue runs empty, every visited actor is finished. */
  lemma EmptySettled(g: Graph, a: string, b: string, camefrom: map<string, Option<PersonMovie>>,
                     dist: map<string, nat>, done: set<string>, bound: nat)
    requires Waiting(g, a, b, camefrom, dist, done, [])
    ensures Settled(g, a, b, dist, done, bound)
  {
  }

  // ---------------------------------------------------------------
  // The scan of one actor's list
  // ---------------------------------------------------------------

  /** One round of `findShortestPath`'s main loop: the front of the queue
      is polled as `current` and its list scanned. An entry naming the
      target ends the search with the rebuilt path; an entry naming an
      actor not yet visited records `current` as its predecessor and queues
      it. When no entry names the target, `current` is finished and the
      main loop's state holds again. */
  method VisitFront(g: Graph, a: string, b: string, camefrom0: map<string, Option<PersonMovie>>, queue0: seq<string>,
                    ghost dist0: map<string, nat>, ghost done: set<string>)
    returns (current: string, found: Option<seq<PersonMovie>>, camefrom: map<string, Option<PersonMovie>>,
             queue: seq<string>, ghost dist: map<string, nat>)
    requires Closed(g)
    requires Waiting(g, a, b, camefrom0, dist0, done, queue0) && queue0 != []
    ensures found.Some? ==> |found.value| >= 1 && IsWalk(g, a, found.value) && End(a, found.value) == b
    ensures found.Some? ==> forall w :: IsWalk(g, a, w) && |w| >= 1 && End(a, w) == b ==> |found.value| <= |w|
    ensures found.None? ==> current in g && current !in done && Waiting(g, a, b, camefrom, dist, done + {current}, queue)
  {
    StartScan(g, a, b, camefrom0, dist0, done, queue0);
    current := queue0[0];
    camefrom, queue, dist := camefrom0, queue0[1..], dist0;
    var alist := g[current];
    for k := 0 to |alist|
      invariant Scanning(g, a, b, camefrom, dist, done, queue, current, k)
    {
      var pmovie := alist[k];
      if pmovie.person == b {
        var hops := Reconstruct(g, a, camefrom, dist, current, pmovie);
        FoundShortest(g, a, b, camefrom, dist, done, queue, current, k);
        return current, Some(hops), camefrom, queue, dist;
      }
      if pmovie.person !in camefrom {
        ScanEnqueue(g, a, b, camefrom, dist, done, queue, current, k);
        queue := queue + [pmovie.person];
        camefrom := camefrom[pmovie.person := Some(PersonMovie(current, pmovie.movie))];
        dist := dist[pmovie.person := dist[current] + 1];
      } else {
        ScanSkip(g, a, b, camefrom, dist, done, queue, current, k);
      }
    }
    FinishScan(g, a, b, camefrom, dist, done, queue, current);
    found := None;
  }

  // ---------------------------------------------------------------
  // The reconstruction as the source writes it
  // ---------------------------------------------------------------

  /** The graph with the person of entry k of `c`'s list set to `x`. */
  function Overwritten(g: Graph, c: string, k: nat, x: string): (r: Graph)
    requires c in g && k < |g[c]|
    ensures r.Keys == g.Keys
    ensures forall y :: y in g && y != c ==> r[y] == g[y]
    ensures |r[c]| == |g[c]| && r[c][k] == PersonMovie(x, g[c][k].movie)
    ensures forall i :: 0 <= i < |g[c]| && i != k ==> r[c][i] == g[c][i]
  {
    g[c := g[c][k := PersonMovie(x, g[c][k].movie)]]
  }

  /** The reconstruction as written: each step stores the actor it stands
      on into the person field of the entry that named the target (entry k
      of `current`'s list), counts the hop, and stops at the source's empty
      record. The graph it leaves behind is returned with the hop count. */
  method ReconstructAsWritten(g: Graph, a: string, camefrom: map<string, Option<PersonMovie>>, ghost dist: map<string, nat>,
                              current: string, k: nat) returns (g': Graph, length: nat)
    requires ChainInvariant(g, a, camefrom, dist)
    requires current in camefrom && current in g && k < |g[current]|
    ensures g' == Overwritten(g, current, k, a)
    ensures length == dist[current] + 1
  {
    var cur := current;
    g' := Overwritten(g, current, k, cur);
    length := 1;
    while camefrom[cur].Some?
      invariant cur in camefrom
      invariant g' == Overwritten(g, current, k, cur)
      invariant length + dist[cur] == dist[current] + 1
      decreases dist[cur]
    {
      var prev := cur;
      cur := camefrom[cur].value.person;
      OverwriteTwice(g, current, k, prev, cur);
      g' := Overwritten(g', current, k, cur);
      length := length + 1;
    }
  }

  /** A second overwrite of the same entry replaces the first. */
  lemma OverwriteTwice(g: Graph, c: string, k: nat, x: string, y: string)
    requires c in g && k < |g[c]|
    ensures Overwritten(Overwritten(g, c, k, x), c, k, y) == Overwritten(g, c, k, y)
  {
    assert Overwritten(g, c, k, x)[c][k := PersonMovie(y, g[c][k].movie)] == g[c][k := PersonMovie(y, g[c][k].movie)];
  }

  lemma SplitCount(s: seq<PersonMovie>, k: nat, v: PersonMovie, e: PersonMovie)
    requires k < |s|
    ensures multiset(s[k := v])[e] + (if s[k] == e then 1 else 0)
         == multiset(s)[e] + (if v == e then 1 else 0)
  {
    assert s == s[..k] + [s[k]] + s[k + 1..];
    assert s[k := v] == s[..k] + [v] + s[k + 1..];
    AppendCount(s[..k] + [s[k]], s[k + 1..], e);
    AppendCount(s[..k], [s[k]], e);
    AppendCount(s[..k] + [v], s[k + 1..], e);
    AppendCount(s[..k], [v], e);
  }

  /** The overwrite breaks the symmetry of the graph whenever it changes the
      entry, that is, whenever the target is not the source. */
  lemma OverwriteBreaksSymmetry(g: Graph, c: string, k: nat, a: string)
    requires Symmetric(g)
    requires c in g && k < |g[c]| && g[c][k].person != a
    ensures !Symmetric(Overwritten(g, c, k, a))
  {
    var r := Overwritten(g, c, k, a);
    var b, m := g[c][k].person, g[c][k].movie;
    if b != c {
      OverwriteLinks(g, c, k, a, b);
      assert Links(g, c, b, m) == Links(g, b, c, m);
      assert Links(r, c, b, m) != Links(r, b, c, m);
    } else {
      OverwriteLinks(g, c, k, a, a);
      assert Links(g, c, a, m) == Links(g, a, c, m);
      assert Links(r, c, a, m) != Links(r, a, c, m);
    }
  }

  /** How the overwrite of entry k of c's list changes the link counts
      between c and y in that entry's movie: c's count towards the old
      person drops by one, towards the new person rises by one, and the
      counts from other actors' lists stay. */
  lemma OverwriteLinks(g: Graph, c: string, k: nat, a: string, y: string)
    requires c in g && k < |g[c]| && g[c][k].person != a
    ensures var r, m := Overwritten(g, c, k, a), g[c][k].movie;
      && Links(r, c, y, m) + (if y == g[c][k].person then 1 else 0) == Links(g, c, y, m) + (if y == a then 1 else 0)
      && (y != c ==> Links(r, y, c, m) == Links(g, y, c, m))
  {
    var r := Overwritten(g, c, k, a);
    var m := g[c][k].movie;
    assert r[c] == g[c][k := PersonMovie(a, m)];
    SplitCount(g[c], k, PersonMovie(a, m), PersonMovie(y, m));
    if y != c {
      assert Adj(r, y) == Adj(g, y);
    }
  }

  /** Two edges, A-X in M1 and X-B in M2, inserted in that order. */
  function ExampleGraph(): Graph
  {
    AddEdgeTo(AddEdgeTo(map[], "A", "X", "M1"), "X", "B", "M2")
  }

  /** The example graph is symmetric, and X's list names A, then B. */
  lemma ExampleGraphShape()
    ensures Symmetric(ExampleGraph())
    ensures ExampleGraph()["X"] == [PersonMovie("A", "M1"), PersonMovie("B", "M2")]
  {
    var g0: Graph := map[];
    var g1 := AddEdgeTo(g0, "A", "X", "M1");
    assert g1["X"] == [PersonMovie("A", "M1")];
    AddEdgeSymmetric(g0, "A", "X", "M1");
    AddEdgeSymmetric(g1, "X", "B", "M2");
  }

  /** A search from A to B finds B in entry 1 of X's list, and the
      as-written reconstruction leaves X's list naming A twice: the graph
      is no longer symmetric. */
  lemma OverwriteExample()
    ensures Overwritten(ExampleGraph(), "X", 1, "A")["X"] == [PersonMovie("A", "M1"), PersonMovie("A", "M2")]
    ensures !Symmetric(Overwritten(ExampleGraph(), "X", 1, "A"))
  {
    var g: Graph := ExampleGraph();
    ExampleGraphShape();
    assert g["X"][1].person == "B";
    assert "B" != "A";
    assert Overwritten(g, "X", 1, "A")["X"] == g["X"][1 := PersonMovie("A", "M2")];
    OverwriteBreaksSymmetry(g, "X", 1, "A");
  }
}
