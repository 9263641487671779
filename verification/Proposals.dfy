/**
 What a whole run of `graph_add_edge` calls leaves behind: the stored graph, with at most one edge per ordered pair,
 against the multigraph of everything that was proposed.
 */
module Proposals {
  import opened Basics
  import opened Text
  import opened Graph
  import opened Walks

  /** The arguments of one call of `graph_add_edge`. */
  datatype Proposal = Proposal(from: int, to: int, weight: int, route: string)

  /** The graph after the calls in `ps`, first call first. */
  function ConnectAll(g: seq<Node>, ps: seq<Proposal>): (h: seq<Node>)
    ensures |h| == |g|
  {
    if ps == [] then g
    else
      var p := ps[|ps| - 1];
      Connect(ConnectAll(g, ps[..|ps| - 1]), p.from, p.to, p.weight, p.route)
  }

  lemma {:induction false} ConnectAllAppend(g: seq<Node>, ps: seq<Proposal>, qs: seq<Proposal>)
    ensures ConnectAll(g, ps + qs) == ConnectAll(ConnectAll(g, ps), qs)
  {
    if qs == [] {
      assert ps + qs == ps;
    } else {
      ConnectAllAppend(g, ps, qs[..|qs| - 1]);
      assert (ps + qs)[..|ps + qs| - 1] == ps + qs[..|qs| - 1];
    }
  }

  lemma {:induction false} ConnectAllWellFormed(g: seq<Node>, ps: seq<Proposal>)
    requires WellFormed(g)
    ensures WellFormed(ConnectAll(g, ps))
  {
    if ps != [] {
      ConnectAllWellFormed(g, ps[..|ps| - 1]);
      var p := ps[|ps| - 1];
      ConnectWellFormed(ConnectAll(g, ps[..|ps| - 1]), p.from, p.to, p.weight, p.route);
    }
  }

  /** Proposing edges neither adds, drops nor renames a node. */
  lemma {:induction false} ConnectAllKeepsNodes(g: seq<Node>, ps: seq<Proposal>, i: nat)
    requires i < |g|
    ensures ConnectAll(g, ps)[i] == g[i].(edges := ConnectAll(g, ps)[i].edges)
  {
    if ps != [] {
      ConnectAllKeepsNodes(g, ps[..|ps| - 1], i);
    }
  }

  // ---------------------------------------------------------------- one edge per pair, the best proposal

  predicate For(p: Proposal, i: int, j: int) { p.from == i && p.to == j }

  /** A proposal takes part when it is the first for its pair or has a positive weight. */
  ghost predicate TakesPart(ps: seq<Proposal>, k: nat)
    requires k < |ps|
  {
    ps[k].weight > 0 || forall m | 0 <= m < k :: !For(ps[m], ps[k].from, ps[k].to)
  }

  /** The weight it is entered with: a first proposal is raised to at least one minute. */
  function Entered(p: Proposal): int { Max(p.weight, 1) }

  /** Proposal `k` is the earliest among the lightest that take part for its pair. */
  ghost predicate Wins(ps: seq<Proposal>, k: nat)
    requires k < |ps|
  {
    && TakesPart(ps, k)
    && forall m | 0 <= m < |ps| && For(ps[m], ps[k].from, ps[k].to) && TakesPart(ps, m) ::
         Entered(ps[k]) <= Entered(ps[m]) && (m < k ==> Entered(ps[k]) < Entered(ps[m]))
  }

  lemma TakesPartPrefix(ps: seq<Proposal>, n: nat, m: nat)
    requires m < n <= |ps|
    ensures TakesPart(ps, m) == TakesPart(ps[..n], m)
  {
    assert forall l | 0 <= l < m :: ps[l] == ps[..n][l];
  }

  lemma LastTakesPart(ps: seq<Proposal>)
    requires ps != []
    ensures TakesPart(ps, |ps| - 1) ==>
              ps[|ps| - 1].weight > 0 || forall m | 0 <= m < |ps| - 1 :: !For(ps[m], ps[|ps| - 1].from, ps[|ps| - 1].to)
  {}

  /** A later proposal that does not improve on the winner leaves it the winner. */
  lemma WinnerStays(ps: seq<Proposal>, k: nat)
    requires k < |ps| - 1 && Wins(ps[..|ps| - 1], k)
    requires var p := ps[|ps| - 1]; For(p, ps[k].from, ps[k].to) ==> !(0 < p.weight < Entered(ps[k]))
    ensures Wins(ps, k)
  {
    hide TakesPart;
    var n := |ps| - 1;
    LastTakesPart(ps);
    TakesPartPrefix(ps, n, k);
    forall m | 0 <= m < |ps| && For(ps[m], ps[k].from, ps[k].to) && TakesPart(ps, m)
      ensures Entered(ps[k]) <= Entered(ps[m]) && (m < k ==> Entered(ps[k]) < Entered(ps[m]))
    {
      if m < n {
        TakesPartPrefix(ps, n, m);
        assert ps[..n][m] == ps[m];
      }
    }
  }

  /** A lighter one, or the first of all, takes over. */
  lemma WinnerChanges(ps: seq<Proposal>, k: int)
    requires ps != [] && -1 <= k < |ps| - 1
    requires var n, p := |ps| - 1, ps[|ps| - 1];
             if k == -1 then forall m | 0 <= m < n :: !For(ps[m], p.from, p.to)
             else Wins(ps[..n], k) && For(p, ps[k].from, ps[k].to) && 0 < p.weight < Entered(ps[k])
    ensures Wins(ps, |ps| - 1)
  {
    var n := |ps| - 1;
    forall m | 0 <= m < |ps| && For(ps[m], ps[n].from, ps[n].to) && TakesPart(ps, m)
      ensures Entered(ps[n]) <= Entered(ps[m]) && (m < n ==> Entered(ps[n]) < Entered(ps[m]))
    {
      if m < n {
        TakesPartPrefix(ps, n, m);
        assert ps[..n][m] == ps[m];
      }
    }
  }

  /** Whether `k` is the winning proposal for the pair and `road` is what it says; -1 and no road if there is none. */
  ghost predicate StoredFrom(road: Option<Road>, ps: seq<Proposal>, i: int, j: int, k: int) {
    if k == -1 then road == None && forall m | 0 <= m < |ps| :: !For(ps[m], i, j)
    else
      && 0 <= k < |ps| && For(ps[k], i, j) && Wins(ps, k)
      && road == Some(Road(Entered(ps[k]), SafeCopy(ps[k].route, MAX_ROUTE_LEN)))
  }

  /** On a graph that starts without edges, the road stored for a pair is the winning proposal for it:
      least weight, label of the first to reach it; and there is none exactly when nothing was proposed. */
  lemma {:induction false} StoredIsWinner(g: seq<Node>, ps: seq<Proposal>, i: int, j: int) returns (k: int)
    requires forall v | 0 <= v < |g| :: g[v].edges == []
    requires ValidPair(|g|, i, j)
    ensures StoredFrom(RoadAt(ConnectAll(g, ps), i, j), ps, i, j, k)
  {
    if ps == [] {
      k := -1;
    } else {
      hide RoadAt, Connect, Wins, SafeCopy;
      var n := |ps| - 1;
      var qs, p := ps[..n], ps[n];
      k := StoredIsWinner(g, qs, i, j);
      ConnectRoad(ConnectAll(g, qs), p.from, p.to, p.weight, p.route, i, j);
      assert k >= 0 ==> qs[k] == ps[k];
      if For(p, i, j) && (k == -1 || 0 < p.weight < Entered(ps[k])) {
        assert k == -1 ==> forall m | 0 <= m < n :: ps[m] == qs[m];
        WinnerChanges(ps, k);
        k := n;
      } else if k >= 0 {
        WinnerStays(ps, k);
      }
    }
  }

  // ---------------------------------------------------------------- distances of the multigraph

  /** A trip over proposals: each starts where the one before ends, self-loops included. */
  ghost predicate Trip(n: nat, ps: seq<Proposal>, trip: seq<Proposal>, s: int, t: int) {
    && 0 <= s < n && 0 <= t < n
    && (if trip == [] then s == t
        else
          && trip[|trip| - 1] in ps && trip[|trip| - 1].to == t
          && Trip(n, ps, trip[..|trip| - 1], s, trip[|trip| - 1].from))
  }

  ghost function TripWeight(trip: seq<Proposal>): int {
    if trip == [] then 0 else TripWeight(trip[..|trip| - 1]) + trip[|trip| - 1].weight
  }

  /** Every trip is matched by a walk over stored edges that is no heavier. */
  lemma {:induction false} TripHasWalk(g: seq<Node>, ps: seq<Proposal>, trip: seq<Proposal>, s: int, t: int)
    returns (p: seq<nat>)
    requires forall v | 0 <= v < |g| :: g[v].edges == []
    requires forall q | q in ps :: q.weight > 0
    requires Trip(|g|, ps, trip, s, t)
    ensures WalkBetween(ConnectAll(g, ps), p, s, t)
    ensures Weight(ConnectAll(g, ps), p) <= TripWeight(trip)
    decreases |trip|
  {
    if trip == [] {
      p := [s];
    } else {
      var last := trip[|trip| - 1];
      p := TripHasWalk(g, ps, trip[..|trip| - 1], s, last.from);
      if last.from != t {
        var k := StoredIsWinner(g, ps, last.from, t);
        var m :| 0 <= m < |ps| && ps[m] == last;
        assert For(ps[m], last.from, t) && TakesPart(ps, m);
        StepWalk(ConnectAll(g, ps), p, t);
        p := p + [t as nat];
      }
    }
  }

  /** Every walk over stored edges is a trip of the same weight. */
  lemma {:induction false} WalkHasTrip(g: seq<Node>, ps: seq<Proposal>, p: seq<nat>) returns (trip: seq<Proposal>)
    requires forall v | 0 <= v < |g| :: g[v].edges == []
    requires forall q | q in ps :: q.weight > 0
    requires Walk(ConnectAll(g, ps), p)
    ensures Trip(|g|, ps, trip, p[0], p[|p| - 1])
    ensures TripWeight(trip) == Weight(ConnectAll(g, ps), p)
    decreases |p|
  {
    if |p| == 1 {
      trip := [];
    } else {
      hide ConnectAll, RoadAt, Wins, TakesPart, WellFormed;
      var h := ConnectAll(g, ps);
      var i, j := p[|p| - 2], p[|p| - 1];
      var front := WalkHasTrip(g, ps, p[..|p| - 1]);
      assert Linked(h, p[|p| - 2], p[|p| - 2 + 1]);
      EmptyWellFormed(g);
      ConnectAllWellFormed(g, ps);
      RoadPositive(h, i, j);
      var k := StoredIsWinner(g, ps, i, j);
      trip := front + [ps[k]];
      assert trip[..|trip| - 1] == front;
    }
  }

  lemma EmptyWellFormed(g: seq<Node>)
    requires forall v | 0 <= v < |g| :: g[v].edges == []
    ensures WellFormed(g)
  {}

  /** Keeping only the best edge of every pair changes no shortest distance: a weight bounds some walk
      from `s` to `t` over stored edges exactly when it bounds some trip over everything proposed. */
  lemma SameDistances(g: seq<Node>, ps: seq<Proposal>, s: int, t: int, bound: int)
    requires forall v | 0 <= v < |g| :: g[v].edges == []
    requires forall q | q in ps :: q.weight > 0
    ensures (exists p: seq<nat> :: WalkBetween(ConnectAll(g, ps), p, s, t) && Weight(ConnectAll(g, ps), p) <= bound)
       <==> (exists trip :: Trip(|g|, ps, trip, s, t) && TripWeight(trip) <= bound)
  {
    if p: seq<nat> :| WalkBetween(ConnectAll(g, ps), p, s, t) && Weight(ConnectAll(g, ps), p) <= bound {
      var trip := WalkHasTrip(g, ps, p);
    }
    if trip :| Trip(|g|, ps, trip, s, t) && TripWeight(trip) <= bound {
      var p := TripHasWalk(g, ps, trip, s, t);
    }
  }
}
