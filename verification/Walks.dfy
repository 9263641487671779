/** Walks over a stored graph and their weight: the meaning of "shortest" that the path search is held to. */
module Walks {
  import opened Basics
  import opened Graph

  predicate Linked(g: seq<Node>, i: int, j: int) { RoadAt(g, i, j).Some? }

  function RoadWeight(g: seq<Node>, i: int, j: int): int
    requires Linked(g, i, j)
  {
    RoadAt(g, i, j).value.weight
  }

  /** A non-empty sequence of node indices, each joined to the next by a stored edge. */
  ghost predicate Walk(g: seq<Node>, p: seq<nat>) {
    && p != []
    && (forall i | 0 <= i < |p| :: p[i] < |g|)
    && (forall i | 0 <= i < |p| - 1 :: Linked(g, p[i], p[i + 1]))
  }

  ghost predicate WalkBetween(g: seq<Node>, p: seq<nat>, s: int, t: int) {
    Walk(g, p) && p[0] == s && p[|p| - 1] == t
  }

  ghost function Weight(g: seq<Node>, p: seq<nat>): int
    requires Walk(g, p)
  {
    if |p| == 1 then 0
    else Weight(g, p[..|p| - 1]) + RoadWeight(g, p[|p| - 2], p[|p| - 1])
  }

  /** A walk from `s` to `t` that no walk between them undercuts. */
  ghost predicate Shortest(g: seq<Node>, p: seq<nat>, s: int, t: int) {
    WalkBetween(g, p, s, t) && forall q | WalkBetween(g, q, s, t) :: Weight(g, p) <= Weight(g, q)
  }

  lemma RoadPositive(g: seq<Node>, i: int, j: int)
    requires WellFormed(g) && Linked(g, i, j)
    ensures RoadWeight(g, i, j) >= 1 && 0 <= j < |g| && i != j
  {
    var k := EdgePos(g[i].edges, j);
    assert g[i].edges[k].to == j;
  }

  lemma {:induction false} WeightAtLeastLength(g: seq<Node>, p: seq<nat>)
    requires WellFormed(g) && Walk(g, p)
    ensures Weight(g, p) >= |p| - 1
  {
    if |p| > 1 {
      WeightAtLeastLength(g, p[..|p| - 1]);
      RoadPositive(g, p[|p| - 2], p[|p| - 1]);
    }
  }

  /** Extending a walk by one road. */
  lemma StepWalk(g: seq<Node>, p: seq<nat>, v: nat)
    requires Walk(g, p) && v < |g| && Linked(g, p[|p| - 1], v)
    ensures Walk(g, p + [v]) && Weight(g, p + [v]) == Weight(g, p) + RoadWeight(g, p[|p| - 1], v)
  {
    hide RoadAt, Linked;
    StepIsWalk(g, p, v);
    hide Walk;
    var q := p + [v];
    assert q[..|q| - 1] == p && q[|q| - 2] == p[|p| - 1] && q[|q| - 1] == v;
  }

  lemma StepIsWalk(g: seq<Node>, p: seq<nat>, v: nat)
    requires Walk(g, p) && v < |g| && Linked(g, p[|p| - 1], v)
    ensures Walk(g, p + [v])
  {
    hide Linked;
    var q := p + [v];
    forall i | 0 <= i < |q| - 1 ensures Linked(g, q[i], q[i + 1]) {
      if i < |p| - 1 { assert Linked(g, p[i], p[i + 1]); }
    }
  }

  lemma OneRoad(g: seq<Node>, u: nat, v: nat)
    requires u < |g| && v < |g| && Linked(g, u, v)
    ensures Walk(g, [u, v]) && Weight(g, [u, v]) == RoadWeight(g, u, v)
  {
    hide RoadAt;
    var p := [u, v];
    assert p[..|p| - 1] == [u] && Weight(g, [u]) == 0;
  }

  /** Two walks that meet join into one whose weight is the sum. */
  lemma {:induction false} JoinWalks(g: seq<Node>, p: seq<nat>, q: seq<nat>)
    requires Walk(g, p) && Walk(g, q) && p[|p| - 1] == q[0]
    ensures Walk(g, p + q[1..]) && Weight(g, p + q[1..]) == Weight(g, p) + Weight(g, q)
    ensures (p + q[1..])[0] == p[0] && (p + q[1..])[|p| + |q| - 2] == q[|q| - 1]
    decreases |q|
  {
    if |q| == 1 {
      assert p + q[1..] == p;
    } else {
      var front, last := q[..|q| - 1], q[|q| - 1];
      assert Linked(g, q[|q| - 2], q[|q| - 2 + 1]);
      JoinWalks(g, p, front);
      StepWalk(g, p + front[1..], last);
      assert p + q[1..] == (p + front[1..]) + [last];
    }
  }

  ghost function Reversed(p: seq<nat>): (r: seq<nat>)
    ensures |r| == |p|
  {
    if p == [] then [] else [p[|p| - 1]] + Reversed(p[..|p| - 1])
  }

  lemma {:induction false} ReversedEnds(p: seq<nat>)
    requires p != []
    ensures Reversed(p)[0] == p[|p| - 1] && Reversed(p)[|p| - 1] == p[0]
  {
    if |p| > 1 { ReversedEnds(p[..|p| - 1]); }
  }

  /** Going and coming back cost the same and carry the same label. */
  ghost predicate Symmetric(g: seq<Node>) {
    forall i, j | 0 <= i < |g| && 0 <= j < |g| :: RoadAt(g, i, j) == RoadAt(g, j, i)
  }

  lemma {:induction false} ReversedWalk(g: seq<Node>, p: seq<nat>)
    requires Symmetric(g) && Walk(g, p)
    ensures Walk(g, Reversed(p)) && Weight(g, Reversed(p)) == Weight(g, p)
    decreases |p|
  {
    hide *;
    NonEmptyWalk(g, p);
    ReversedEnds(p);
    if |p| == 1 {
      assert Reversed(p) == p;
    } else {
      ReversedEnds(p[..|p| - 1]);
      var front, u, last := WalkParts(g, p);
      ReversedWalk(g, front);
      OneRoad(g, last, u);
      ReversedParts(p);
      JoinWalks(g, [last, u], Reversed(front));
    }
  }

  lemma NonEmptyWalk(g: seq<Node>, p: seq<nat>)
    requires Walk(g, p)
    ensures p != []
  {}

  lemma ReversedParts(p: seq<nat>)
    requires |p| > 1
    ensures var front := Reversed(p[..|p| - 1]);
            front[0] == p[|p| - 2] && Reversed(p) == [p[|p| - 1], p[|p| - 2]] + front[1..]
  {
    ReversedStep(p);
    ReversedStep(p[..|p| - 1]);
    hide Reversed;
    TwoInFront(p[|p| - 1], p[|p| - 2], Reversed(p[..|p| - 1][..|p| - 2]));
  }

  lemma ReversedStep(p: seq<nat>)
    requires p != []
    ensures Reversed(p) == [p[|p| - 1]] + Reversed(p[..|p| - 1])
  {}

  lemma TwoInFront(a: nat, b: nat, rest: seq<nat>)
    ensures var r := [b] + rest; r[0] == b && [a] + r == [a, b] + r[1..]
  {}

  /** A walk without its last road, and that road both ways. */
  lemma WalkParts(g: seq<Node>, p: seq<nat>) returns (front: seq<nat>, u: nat, last: nat)
    requires Symmetric(g) && Walk(g, p) && |p| > 1
    ensures front == p[..|p| - 1] && u == p[|p| - 2] && last == p[|p| - 1]
    ensures u < |g| && last < |g| && Walk(g, front) && Linked(g, last, u)
    ensures Weight(g, p) == Weight(g, front) + RoadWeight(g, last, u)
  {
    hide RoadAt;
    front, u, last := p[..|p| - 1], p[|p| - 2], p[|p| - 1];
    assert Linked(g, p[|p| - 2], p[|p| - 2 + 1]);
    assert RoadAt(g, u, last) == RoadAt(g, last, u);
  }

  /** On a symmetric graph the best total does not depend on the direction asked for. */
  lemma SymmetricTotals(g: seq<Node>, p: seq<nat>, q: seq<nat>, s: int, t: int)
    requires Symmetric(g) && Shortest(g, p, s, t) && Shortest(g, q, t, s)
    ensures Weight(g, p) == Weight(g, q)
  {
    ReversedWalk(g, p);
    ReversedWalk(g, q);
    ReversedEnds(p);
    ReversedEnds(q);
    assert WalkBetween(g, Reversed(p), t, s);
    assert WalkBetween(g, Reversed(q), s, t);
  }
}
