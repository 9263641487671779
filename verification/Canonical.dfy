/**
 The one path the search of src/common/graph.c answers with, defined over the graph alone: every node is entered from
 the predecessor on a shortest way to it that is settled first, that is, nearest to the start and then of lowest index.
 */
module Canonical {
  import opened Basics
  import opened Graph
  import opened Walks

  ghost predicate Reachable(g: seq<Node>, s: int, v: int) {
    exists p: seq<nat> :: WalkBetween(g, p, s, v)
  }

  /** Weights are not negative, so among the walks between two nodes there is a lightest. */
  lemma {:induction false} LightestExists(g: seq<Node>, p: seq<nat>, s: int, v: int) returns (q: seq<nat>)
    requires WellFormed(g) && WalkBetween(g, p, s, v)
    ensures Shortest(g, q, s, v)
    decreases Weight(g, p)
  {
    q := p;
    if r: seq<nat> :| WalkBetween(g, r, s, v) && Weight(g, r) < Weight(g, p) {
      WeightAtLeastLength(g, r);
      q := LightestExists(g, r, s, v);
    }
  }

  lemma SomeShortest(g: seq<Node>, s: int, v: int)
    requires WellFormed(g) && Reachable(g, s, v)
    ensures exists p: seq<nat> :: Shortest(g, p, s, v)
  {
    var p: seq<nat> :| WalkBetween(g, p, s, v);
    var q := LightestExists(g, p, s, v);
  }

  /** The weight of a lightest walk. */
  ghost function Dist(g: seq<Node>, s: int, v: int): int
    requires WellFormed(g) && Reachable(g, s, v)
  {
    SomeShortest(g, s, v);
    var p: seq<nat> :| Shortest(g, p, s, v);
    Weight(g, p)
  }

  lemma DistIs(g: seq<Node>, s: int, v: int, p: seq<nat>)
    requires WellFormed(g) && Shortest(g, p, s, v)
    ensures Reachable(g, s, v) && Dist(g, s, v) == Weight(g, p)
  {
    SomeShortest(g, s, v);
  }

  lemma DistMeans(g: seq<Node>, s: int, v: int) returns (p: seq<nat>)
    requires WellFormed(g) && Reachable(g, s, v)
    ensures Shortest(g, p, s, v) && Weight(g, p) == Dist(g, s, v) >= 0
  {
    SomeShortest(g, s, v);
    p :| Shortest(g, p, s, v) && Weight(g, p) == Dist(g, s, v);
    WeightAtLeastLength(g, p);
  }

  /** `u` is the last node before `v` on some shortest walk. */
  ghost predicate LastHop(g: seq<Node>, s: int, u: int, v: int)
    requires WellFormed(g) && Reachable(g, s, v)
  {
    Reachable(g, s, u) && Linked(g, u, v) && Dist(g, s, u) + RoadWeight(g, u, v) == Dist(g, s, v)
  }

  /** Among the first `n` nodes the last hop of least distance, the lowest index winning ties; -1 if there is none. */
  ghost function FirstHop(g: seq<Node>, s: int, v: int, n: nat): (k: int)
    requires WellFormed(g) && Reachable(g, s, v) && n <= |g|
    ensures -1 <= k < n && (k >= 0 ==> LastHop(g, s, k, v))
  {
    if n == 0 then -1
    else
      var k := FirstHop(g, s, v, n - 1);
      if LastHop(g, s, n - 1, v) && (k < 0 || Dist(g, s, n - 1) < Dist(g, s, k)) then n - 1 else k
  }

  /** `u` is settled no later than `w`. */
  ghost predicate NoLater(g: seq<Node>, s: int, u: int, w: int)
    requires WellFormed(g) && Reachable(g, s, u) && Reachable(g, s, w)
  {
    Dist(g, s, u) < Dist(g, s, w) || (Dist(g, s, u) == Dist(g, s, w) && u <= w)
  }

  lemma {:induction false} FirstHopMeans(g: seq<Node>, s: int, v: int, n: nat)
    requires WellFormed(g) && Reachable(g, s, v) && n <= |g|
    ensures forall u | 0 <= u < n && LastHop(g, s, u, v) :: FirstHop(g, s, v, n) >= 0
              && NoLater(g, s, FirstHop(g, s, v, n), u)
  {
    hide Dist, Reachable, Linked;
    if n > 0 { FirstHopMeans(g, s, v, n - 1); }
  }

  lemma FirstHopIs(g: seq<Node>, s: int, v: int, u: nat)
    requires WellFormed(g) && Reachable(g, s, v) && u < |g| && LastHop(g, s, u, v)
    requires forall w | 0 <= w < |g| && LastHop(g, s, w, v) :: NoLater(g, s, u, w)
    ensures FirstHop(g, s, v, |g|) == u
  {
    hide Dist, Reachable, Linked;
    FirstHopMeans(g, s, v, |g|);
    var k := FirstHop(g, s, v, |g|);
    assert NoLater(g, s, k, u) && LastHop(g, s, k, v);
  }

  /** A node other than the start has a last hop, and that is nearer. */
  lemma HopExists(g: seq<Node>, s: int, v: int)
    requires WellFormed(g) && Reachable(g, s, v) && v != s
    ensures var u := FirstHop(g, s, v, |g|);
            u >= 0 && LastHop(g, s, u, v) && 0 <= Dist(g, s, u) < Dist(g, s, v) && RoadWeight(g, u, v) >= 1
  {
    hide Dist, Reachable, FirstHop, WellFormed, Walk, Linked;
    var u := SomeHop(g, s, v);
    FirstHopMeans(g, s, v, |g|);
    var k := FirstHop(g, s, v, |g|);
    assert k >= 0;
    assert LastHop(g, s, k, v);
    RoadPositive(g, k, v);
    var q := DistMeans(g, s, k);
  }

  /** The front of a shortest walk is a shortest walk. */
  lemma SomeHop(g: seq<Node>, s: int, v: int) returns (u: nat)
    requires WellFormed(g) && Reachable(g, s, v) && v != s
    ensures u < |g| && LastHop(g, s, u, v)
  {
    hide Dist, Reachable, WellFormed, RoadAt;
    var p := DistMeans(g, s, v);
    u := p[|p| - 2];
    var front := p[..|p| - 1];
    assert Linked(g, p[|p| - 2], p[|p| - 2 + 1]);
    assert WalkBetween(g, front, s, u);
    forall q | WalkBetween(g, q, s, u) ensures Weight(g, front) <= Weight(g, q) {
      StepWalk(g, q, v);
      assert WalkBetween(g, q + [v as nat], s, v);
    }
    assert Shortest(g, front, s, u);
    DistIs(g, s, u, front);
  }

  /** The path the search answers with. */
  ghost function CanonicalPath(g: seq<Node>, s: int, v: int): (p: seq<nat>)
    requires WellFormed(g) && Reachable(g, s, v)
    ensures p != []
    decreases Dist(g, s, v)
  {
    ReachableIndex(g, s, v);
    if v == s then [v]
    else
      HopExists(g, s, v);
      CanonicalPath(g, s, FirstHop(g, s, v, |g|)) + [v]
  }

  lemma ReachableIndex(g: seq<Node>, s: int, v: int)
    requires Reachable(g, s, v)
    ensures 0 <= s < |g| && 0 <= v < |g|
  {}

  /** It is a shortest walk that repeats no node. */
  lemma {:induction false} CanonicalIsShortest(g: seq<Node>, s: int, v: int)
    requires WellFormed(g) && Reachable(g, s, v)
    ensures var p := CanonicalPath(g, s, v);
            && Shortest(g, p, s, v) && Weight(g, p) == Dist(g, s, v) && Distinct(p)
            && forall i | 0 <= i < |p| :: Reachable(g, s, p[i]) && Dist(g, s, p[i]) <= Dist(g, s, v)
    decreases Dist(g, s, v)
  {
    hide *;
    ReachableIndex(g, s, v);
    if v == s {
      CanonicalStart(g, v);
    } else {
      var u := CanonicalNext(g, s, v);
      CanonicalIsShortest(g, s, u);
      CanonicalStep(g, s, u, v, CanonicalPath(g, s, u));
    }
  }

  lemma CanonicalStart(g: seq<Node>, s: nat)
    requires WellFormed(g) && Reachable(g, s, s) && s < |g|
    ensures var p := CanonicalPath(g, s, s);
            p == [s] && Shortest(g, p, s, s) && Weight(g, p) == Dist(g, s, s) && Distinct(p)
  {
    hide RoadAt, WellFormed, Reachable, Dist;
    var p: seq<nat> := [s];
    assert WalkBetween(g, p, s, s) && Weight(g, p) == 0;
    forall q | WalkBetween(g, q, s, s) ensures Weight(g, q) >= 0 { WeightAtLeastLength(g, q); }
    assert Shortest(g, p, s, s);
    DistIs(g, s, s, p);
  }

  lemma CanonicalNext(g: seq<Node>, s: int, v: int) returns (u: nat)
    requires WellFormed(g) && Reachable(g, s, v) && v != s
    ensures u < |g| && 0 <= v < |g| && Reachable(g, s, u) && Linked(g, u, v) && 0 <= Dist(g, s, u) < Dist(g, s, v)
    ensures Dist(g, s, u) + RoadWeight(g, u, v) == Dist(g, s, v)
    ensures CanonicalPath(g, s, v) == CanonicalPath(g, s, u) + [v]
  {
    hide RoadAt, WellFormed, Reachable, Dist, FirstHop;
    ReachableIndex(g, s, v);
    HopExists(g, s, v);
    u := FirstHop(g, s, v, |g|);
  }

  lemma CanonicalStep(g: seq<Node>, s: int, u: nat, v: nat, front: seq<nat>)
    requires WellFormed(g) && u < |g| && v < |g| && Reachable(g, s, u) && Reachable(g, s, v) && Linked(g, u, v)
    requires Dist(g, s, u) < Dist(g, s, v) == Dist(g, s, u) + RoadWeight(g, u, v)
    requires Shortest(g, front, s, u) && Weight(g, front) == Dist(g, s, u) && Distinct(front)
    requires forall i | 0 <= i < |front| :: Reachable(g, s, front[i]) && Dist(g, s, front[i]) <= Dist(g, s, u)
    ensures var p := front + [v];
            && Shortest(g, p, s, v) && Weight(g, p) == Dist(g, s, v) && Distinct(p)
            && forall i | 0 <= i < |p| :: Reachable(g, s, p[i]) && Dist(g, s, p[i]) <= Dist(g, s, v)
  {
    hide RoadAt, WellFormed, Reachable, Dist;
    StepWalk(g, front, v);
    var best := DistMeans(g, s, v);
  }
}
