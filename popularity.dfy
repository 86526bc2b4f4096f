/** The popularity estimate: visit counts tallied over random walks, and
    the selection rounds that report the most visited actors. */
module Popularity {

  /** Visits of `x` across all walks: how often the name occurs in them. */
  function Visits(walks: seq<seq<string>>, x: string): nat
    decreases |walks|
  {
    if walks == [] then 0
    else Visits(walks[..|walks| - 1], x) + multiset(walks[|walks| - 1])[x]
  }

  /** The count kept for `x`, 0 when it has no entry. */
  function Count(tracker: map<string, nat>, x: string): nat
  {
    if x in tracker then tracker[x] else 0
  }

  /** An actor has been visited exactly when it occurs in some walk. */
  lemma {:induction false} VisitsPositive(walks: seq<seq<string>>, x: string)
    ensures Visits(walks, x) > 0 <==> exists i :: 0 <= i < |walks| && x in walks[i]
    decreases |walks|
  {
    if walks != [] {
      var n := |walks| - 1;
      VisitsPositive(walks[..n], x);
      if Visits(walks[..n], x) > 0 {
        var i :| 0 <= i < n && x in walks[..n][i];
        assert x in walks[i];
      }
      if exists i :: 0 <= i < |walks| && x in walks[i] {
        var i :| 0 <= i < |walks| && x in walks[i];
        if i < n {
          assert x in walks[..n][i];
        } else {
          assert multiset(walks[n])[x] > 0;
        }
      }
    }
  }

  /** Adding one walk's visits: the per-walk loop of the tally. */
  method CountVisits(tracker: map<string, nat>, visited: seq<string>) returns (t: map<string, nat>)
    ensures forall x :: x in t <==> x in tracker || x in visited
    ensures forall x :: Count(t, x) == Count(tracker, x) + multiset(visited)[x]
  {
    t := tracker;
    for j := 0 to |visited|
      invariant forall x :: x in t <==> x in tracker || x in visited[..j]
      invariant forall x :: Count(t, x) == Count(tracker, x) + multiset(visited[..j])[x]
    {
      var actor := visited[j];
      if actor !in t {
        t := t[actor := 1];
      } else {
        var count := t[actor];
        count := count + 1;
        t := t[actor := count];
      }
      assert visited[..j + 1] == visited[..j] + [actor];
    }
    assert visited[..|visited|] == visited;
  }

  /** Adding one walk's visits to a tally of some walks gives the tally of
      those walks and that one. */
  lemma TallyStep(walks: seq<seq<string>>, visited: seq<string>, tally: map<string, nat>, t: map<string, nat>)
    requires forall x :: Count(tally, x) == Visits(walks, x)
    requires forall x :: x in tally <==> Visits(walks, x) > 0
    requires forall x :: x in t <==> x in tally || x in visited
    requires forall x :: Count(t, x) == Count(tally, x) + multiset(visited)[x]
    ensures forall x :: Count(t, x) == Visits(walks + [visited], x)
    ensures forall x :: x in t <==> Visits(walks + [visited], x) > 0
  {
    assert (walks + [visited])[..|walks|] == walks;
    forall x ensures x in t <==> Visits(walks + [visited], x) > 0 {
      assert x in visited ==> multiset(visited)[x] > 0;
    }
  }

  // ---------------------------------------------------------------
  // Selection rounds
  // ---------------------------------------------------------------

  /** What one round reports: the round's maximum count and every actor
      that has it. */
  datatype Round = Round(count: nat, actors: set<string>)

  /** `c` is the largest count in `m`, or the seed 0 when `m` is empty. */
  ghost predicate IsMaxCount(m: map<string, nat>, c: nat)
  {
    && (forall x :: x in m ==> m[x] <= c)
    && (m != map[] ==> exists x :: x in m && m[x] == c)
    && (m == map[] ==> c == 0)
  }

  /** One round: find the maximum count, collect every actor at that count,
      and name the last one found, the one the round removes ("" when there
      is none, as the source's initial value). Which of the tied actors is
      last depends on the map's iteration order, which is left open. */
  method SelectRound(tracker: map<string, nat>) returns (round: Round, top: string)
    ensures IsMaxCount(tracker, round.count)
    ensures round.actors == set x | x in tracker && tracker[x] == round.count
    ensures tracker != map[] ==> top in round.actors
    ensures tracker == map[] ==> top == ""
  {
    var max := 0;
    var rest := tracker.Keys;
    while rest != {}
      invariant rest <= tracker.Keys
      invariant forall x :: x in tracker && x !in rest ==> tracker[x] <= max
      invariant max == 0 || exists x :: x in tracker && x !in rest && tracker[x] == max
      decreases rest
    {
      var actor :| actor in rest;
      var count := tracker[actor];
      if count > max {
        max := count;
      }
      rest := rest - {actor};
    }
    if tracker != map[] && max == 0 {
      var x :| x in tracker;
      assert tracker[x] == 0;
    }
    var actors: set<string> := {};
    top := "";
    rest := tracker.Keys;
    while rest != {}
      invariant rest <= tracker.Keys
      invariant actors == set x | x in tracker && x !in rest && tracker[x] == max
      invariant actors == {} ==> top == ""
      invariant actors != {} ==> top in actors
      decreases rest
    {
      var actor :| actor in rest;
      var count := tracker[actor];
      if count == max {
        top := actor;
        actors := actors + {actor};
      }
      rest := rest - {actor};
    }
    if tracker != map[] {
      var x :| x in tracker && tracker[x] == max;
      assert x in actors;
    }
    round := Round(max, actors);
  }

  /** The tracker at the start of round r: the actors removed in the earlier
      rounds are gone, and every other actor keeps its count. */
  function Remaining(tracker: map<string, nat>, removed: seq<string>, r: nat): (m: map<string, nat>)
    requires r <= |removed|
    ensures m.Keys <= tracker.Keys
    ensures forall x :: x in m ==> m[x] == tracker[x]
  {
    if r == 0 then tracker else Remaining(tracker, removed, r - 1) - {removed[r - 1]}
  }

  /** One round over `m`: `round` holds the maximum of `m` and every actor
      at it, and `top` is one of those actors ("" when `m` is empty). */
  ghost predicate IsRoundOf(m: map<string, nat>, round: Round, top: string)
  {
    && IsMaxCount(m, round.count)
    && round.actors == (set x | x in m && m[x] == round.count)
    && (if m == map[] then top == "" else top in round.actors)
  }

  /** `reports` and `removed` are what the rounds produce: each round
      reports the maximum of what the earlier rounds left and every actor
      at it, then removes one of those actors. */
  ghost predicate IsSelection(tracker: map<string, nat>, reports: seq<Round>, removed: seq<string>)
    decreases |reports|
  {
    |reports| == |removed| &&
    (reports == [] ||
      var n := |reports| - 1;
      IsSelection(tracker, reports[..n], removed[..n]) &&
      IsRoundOf(Remaining(tracker, removed, n), reports[n], removed[n]))
  }

  /** `rounds` selection rounds over the tally. */
  method SelectTop(tracker: map<string, nat>, rounds: nat) returns (reports: seq<Round>, removed: seq<string>)
    ensures |reports| == rounds
    ensures IsSelection(tracker, reports, removed)
  {
    var current := tracker;
    reports, removed := [], [];
    for i := 0 to rounds
      invariant |reports| == |removed| == i
      invariant current == Remaining(tracker, removed, i)
      invariant IsSelection(tracker, reports, removed)
    {
      var round, top := SelectRound(current);
      RemainingExtend(tracker, removed, top, i);
      SelectionExtend(tracker, reports, removed, round, top);
      reports := reports + [round];
      removed := removed + [top];
      current := current - {top};
    }
  }

  /** A round run on what a selection left extends the selection. */
  lemma SelectionExtend(tracker: map<string, nat>, reports: seq<Round>, removed: seq<string>, round: Round, top: string)
    requires IsSelection(tracker, reports, removed)
    requires IsRoundOf(Remaining(tracker, removed, |removed|), round, top)
    ensures IsSelection(tracker, reports + [round], removed + [top])
  {
    assert (reports + [round])[..|reports|] == reports;
    assert (removed + [top])[..|removed|] == removed;
    RemainingExtend(tracker, removed, top, |removed|);
  }

  /** Round r of a selection ran on what the rounds before it left. */
  lemma {:induction false} SelectionAt(tracker: map<string, nat>, reports: seq<Round>, removed: seq<string>, r: nat)
    requires IsSelection(tracker, reports, removed)
    requires r < |reports|
    ensures IsRoundOf(Remaining(tracker, removed, r), reports[r], removed[r])
    decreases |reports|
  {
    var n := |reports| - 1;
    if r < n {
      SelectionAt(tracker, reports[..n], removed[..n], r);
      RemainingPrefix(tracker, removed, n, r);
    }
  }

  /** Round r's tracker depends only on the removals before round r. */
  lemma {:induction false} RemainingPrefix(tracker: map<string, nat>, removed: seq<string>, n: nat, r: nat)
    requires r <= n <= |removed|
    ensures Remaining(tracker, removed[..n], r) == Remaining(tracker, removed, r)
    decreases r
  {
    if r > 0 {
      RemainingPrefix(tracker, removed, n, r - 1);
    }
  }

  /** Round r's tracker depends only on the removals before round r. */
  lemma {:induction false} RemainingExtend(tracker: map<string, nat>, removed: seq<string>, top: string, r: nat)
    requires r <= |removed|
    ensures Remaining(tracker, removed + [top], r) == Remaining(tracker, removed, r)
    decreases r
  {
    if r > 0 {
      RemainingExtend(tracker, removed, top, r - 1);
    }
  }

  /** An actor is left at round r exactly when it was in the tally and no
      earlier round removed it; its count is unchanged. */
  lemma {:induction false} RemainingAt(tracker: map<string, nat>, removed: seq<string>, r: nat, x: string)
    requires r <= |removed|
    ensures x in Remaining(tracker, removed, r) <==> x in tracker && x !in removed[..r]
    ensures x in Remaining(tracker, removed, r) ==> Remaining(tracker, removed, r)[x] == tracker[x]
    decreases r
  {
    if r > 0 {
      RemainingAt(tracker, removed, r - 1, x);
      assert removed[..r] == removed[..r - 1] + [removed[r - 1]];
    }
  }

  /** The first round that removed `x`. */
  lemma {:induction false} FirstRemoval(removed: seq<string>, x: string, r: nat)
    requires r <= |removed| && x in removed[..r]
    ensures exists s :: 0 <= s < r && removed[s] == x && x !in removed[..s]
    decreases r
  {
    if x in removed[..r - 1] {
      FirstRemoval(removed, x, r - 1);
      var s :| 0 <= s < r - 1 && removed[s] == x && x !in removed[..s];
    } else {
      assert removed[..r] == removed[..r - 1] + [removed[r - 1]];
    }
  }

  /** The counts the rounds report never rise from one round to the next. */
  lemma CountsNonIncreasing(tracker: map<string, nat>, reports: seq<Round>, removed: seq<string>, r: nat)
    requires IsSelection(tracker, reports, removed)
    requires r + 1 < |reports|
    ensures reports[r + 1].count <= reports[r].count
  {
    var m := Remaining(tracker, removed, r);
    var m' := Remaining(tracker, removed, r + 1);
    SelectionAt(tracker, reports, removed, r);
    SelectionAt(tracker, reports, removed, r + 1);
    if m' != map[] {
      var y :| y in m' && m'[y] == reports[r + 1].count;
      assert y in m;
    }
  }

  /** Every actor a round reports has the reported count in the tally. */
  lemma ReportedCounts(tracker: map<string, nat>, reports: seq<Round>, removed: seq<string>, r: nat)
    requires IsSelection(tracker, reports, removed)
    requires r < |reports|
    ensures forall x :: x in reports[r].actors ==> x in tracker && tracker[x] == reports[r].count
  {
    SelectionAt(tracker, reports, removed, r);
    forall x | x in reports[r].actors ensures x in tracker && tracker[x] == reports[r].count {
      RemainingAt(tracker, removed, r, x);
    }
  }

  /** An actor counted higher than some round's count was removed, and so
      reported, in an earlier round. */
  lemma HigherReportedEarlier(tracker: map<string, nat>, reports: seq<Round>, removed: seq<string>, r: nat)
    requires IsSelection(tracker, reports, removed)
    requires r < |reports|
    ensures forall x :: x in tracker && tracker[x] > reports[r].count ==>
      exists s :: 0 <= s < r && removed[s] == x && x in reports[s].actors
  {
    SelectionAt(tracker, reports, removed, r);
    forall x | x in tracker && tracker[x] > reports[r].count
      ensures exists s :: 0 <= s < r && removed[s] == x && x in reports[s].actors
    {
      RemainingAt(tracker, removed, r, x);
      FirstRemoval(removed, x, r);
      var s :| 0 <= s < r && removed[s] == x && x !in removed[..s];
      RemainingAt(tracker, removed, s, x);
      SelectionAt(tracker, reports, removed, s);
      assert x in Remaining(tracker, removed, s);
    }
  }

  /** Each round removes at most one actor from the tracker. */
  lemma RemovesAtMostOne(tracker: map<string, nat>, removed: seq<string>, r: nat)
    requires r < |removed|
    ensures |Remaining(tracker, removed, r + 1)| >= |Remaining(tracker, removed, r)| - 1
  {
    var m := Remaining(tracker, removed, r);
    var m' := m - {removed[r]};
    if removed[r] in m {
      assert m'.Keys + {removed[r]} == m.Keys;
    } else {
      assert m' == m;
    }
  }
}
