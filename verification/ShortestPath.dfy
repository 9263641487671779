/**
 The path search of src/common/graph.c: an array Dijkstra that stops as soon as the goal is settled,
 walks the predecessors back into a 256-slot buffer and refuses paths that do not fit it.
 */
module ShortestPath {
  import opened Basics
  import opened Graph
  import opened Walks
  import opened Canonical

  /** INT_MAX / 4: the distance that stands for "not reached". */
  const INF: int32 := 0x1fff_ffff
  const MAX_GRAPH_PATH := 256

  datatype GraphPath = GraphPath(indices: seq<nat>, routes: seq<string>, minutes: seq<int>, total: int)

  const EMPTY_PATH := GraphPath([], [], [], 0)

  /** Weights that, added to any distance below INF, still fit an `int`. */
  ghost predicate SafeWeights(g: seq<Node>) {
    forall i, k | 0 <= i < |g| && 0 <= k < |g[i].edges| :: g[i].edges[k].weight <= INT_MAX - INF as int
  }

  /** No walk between the two nodes is cheaper than INF. */
  ghost predicate OutOfReach(g: seq<Node>, s: int, t: int) {
    forall q | WalkBetween(g, q, s, t) :: Weight(g, q) >= INF as int
  }

  ghost function Sum(xs: seq<int>): int {
    if xs == [] then 0 else Sum(xs[..|xs| - 1]) + xs[|xs| - 1]
  }

  /** The path is a shortest walk without repetition, its segments are those of the stored edges,
      they add up to the total, and the whole fits the buffer. */
  ghost predicate Reports(g: seq<Node>, s: int, t: int, path: GraphPath) {
    && Shortest(g, path.indices, s, t)
    && Distinct(path.indices)
    && |path.indices| <= MAX_GRAPH_PATH
    && path.total == Weight(g, path.indices) < INF as int
    && |path.routes| == |path.minutes| == |path.indices| - 1
    && (forall i | 0 <= i < |path.indices| - 1 ::
          RoadAt(g, path.indices[i], path.indices[i + 1]) == Some(Road(path.minutes[i], path.routes[i])))
    && Sum(path.minutes) == path.total
  }

  /** When the search answers: some walk is cheaper than INF and the canonical path fits the buffer. */
  ghost predicate Answered(g: seq<Node>, s: int, t: int)
    requires WellFormed(g)
  {
    !OutOfReach(g, s, t) && |CanonicalPath(g, s, t)| <= MAX_GRAPH_PATH
  }

  /** The answer: a report of the canonical path. */
  ghost predicate Finds(g: seq<Node>, s: int, t: int, path: GraphPath)
    requires WellFormed(g)
  {
    Reports(g, s, t, path) && Reachable(g, s, t) && path.indices == CanonicalPath(g, s, t)
  }

  // ---------------------------------------------------------------- what the loops keep

  /** A reached node other than the start got its distance over the edge from its visited predecessor. */
  ghost predicate Backed(g: seq<Node>, s: nat, dist: seq<int32>, prev: seq<int>, visited: seq<bool>, v: nat)
    requires |g| == |dist| == |prev| == |visited| && v < |g|
  {
    v != s && dist[v] < INF ==>
      && 0 <= prev[v] < |g| && visited[prev[v]] && Linked(g, prev[v], v)
      && dist[v] as int == dist[prev[v]] as int + RoadWeight(g, prev[v], v)
  }

  /** What the search knows of the distances between two picks. */
  ghost predicate Labels(g: seq<Node>, s: nat, dist: seq<int32>, prev: seq<int>, visited: seq<bool>) {
    && s < |g| == |dist| == |prev| == |visited|
    && dist[s] == 0 && prev[s] == s
    && (forall v | 0 <= v < |g| :: 0 <= dist[v] <= INF)
    && (forall v: nat | v < |g| :: Backed(g, s, dist, prev, visited, v))
    && (forall v | 0 <= v < |g| && visited[v] :: dist[v] < INF)
    && (forall u, v | 0 <= u < |g| && 0 <= v < |g| && visited[u] && !visited[v] :: Before(dist, u, v))
  }

  /** `u` is settled no later than `v`: it is nearer, or as near and of no higher index. */
  predicate Before(dist: seq<int32>, u: int, v: int)
    requires 0 <= u < |dist| && 0 <= v < |dist|
  {
    dist[u] < dist[v] || (dist[u] == dist[v] && u <= v)
  }

  /** The recorded predecessor of a node is the first of the expanded nodes that its distance can come from. */
  ghost predicate Chosen(g: seq<Node>, s: nat, dist: seq<int32>, prev: seq<int>, done: set<nat>) {
    && |g| == |dist| == |prev|
    && (forall u, v | u in done && u < |g| && 0 <= v < |g| && v != s && dist[v] < INF && Linked(g, u, v)
                      && dist[u] as int + RoadWeight(g, u, v) == dist[v] as int ::
          0 <= prev[v] < |g| && Before(dist, prev[v], u))
  }

  /** Every edge out of a node in `done` has been offered to its target. */
  ghost predicate Relaxed(g: seq<Node>, dist: seq<int32>, done: set<nat>) {
    && |dist| == |g|
    && (forall u, v | u in done && 0 <= v < |g| && Linked(g, u, v) ::
          u < |g| && dist[v] as int <= dist[u] as int + RoadWeight(g, u, v))
  }

  /** The heart of the argument: when nothing outside `done` is closer than `bound`,
      a walk lighter than `bound` ends inside `done`, at a node whose distance it does not undercut. */
  lemma {:induction false} LowerBound(g: seq<Node>, s: nat, dist: seq<int32>, done: set<nat>, bound: int, p: seq<nat>)
    requires Relaxed(g, dist, done)
    requires forall v | 0 <= v < |g| && v !in done :: dist[v] as int >= bound
    requires s < |g| && dist[s] == 0
    requires Walk(g, p) && p[0] == s && Weight(g, p) < bound
    requires WellFormed(g)
    ensures p[|p| - 1] in done && dist[p[|p| - 1]] as int <= Weight(g, p)
    decreases |p|
  {
    if |p| > 1 {
      var u, v := p[|p| - 2], p[|p| - 1];
      RoadPositive(g, u, v);
      LowerBound(g, s, dist, done, bound, p[..|p| - 1]);
    }
  }

  lemma {:induction false} SumIsWeight(g: seq<Node>, p: seq<nat>, minutes: seq<int>)
    requires Walk(g, p) && |minutes| == |p| - 1
    requires forall i | 0 <= i < |minutes| :: minutes[i] == RoadWeight(g, p[i], p[i + 1])
    ensures Sum(minutes) == Weight(g, p)
    decreases |p|
  {
    if |p| > 1 {
      SumIsWeight(g, p[..|p| - 1], minutes[..|minutes| - 1]);
    }
  }

  // ---------------------------------------------------------------- the search

  /** The unvisited node of least distance below INF, the lowest index winning ties; -1 if there is none. */
  method PickNearest(dist: array<int32>, visited: array<bool>) returns (cur: int)
    requires dist.Length == visited.Length
    ensures -1 <= cur < dist.Length
    ensures cur == -1 ==> forall v | 0 <= v < dist.Length && !visited[v] :: dist[v] >= INF
    ensures cur >= 0 ==> !visited[cur] && dist[cur] < INF
    ensures cur >= 0 ==> forall v | 0 <= v < dist.Length && !visited[v] ::
                           dist[cur] <= dist[v] && (v < cur ==> dist[cur] < dist[v])
  {
    var bestDist := INF;
    cur := -1;
    var i := 0;
    while i < dist.Length
      invariant 0 <= i <= dist.Length && -1 <= cur < i
      invariant bestDist == if cur < 0 then INF else dist[cur]
      invariant cur >= 0 ==> !visited[cur] && dist[cur] < INF
      invariant forall v | 0 <= v < i && !visited[v] :: bestDist <= dist[v] && (v < cur ==> bestDist < dist[v])
    {
      if !visited[i] && dist[i] < bestDist {
        bestDist := dist[i];
        cur := i;
      }
      i := i + 1;
    }
  }

  lemma LabelsAfterOffer(g: seq<Node>, s: nat, dist: seq<int32>, prev: seq<int>, visited: seq<bool>,
                         cur: nat, next: nat, d: int32)
    requires WellFormed(g) && Labels(g, s, dist, prev, visited)
    requires cur < |g| && visited[cur] && forall u | 0 <= u < |g| && visited[u] :: Before(dist, u, cur)
    requires next < |g| && !visited[next] && Linked(g, cur, next)
    requires d as int == dist[cur] as int + RoadWeight(g, cur, next) && d < dist[next]
    ensures Labels(g, s, dist[next := d], prev[next := cur], visited)
  {
    RoadPositive(g, cur, next);
    var dist', prev' := dist[next := d], prev[next := cur];
    forall v: nat | v < |g| ensures Backed(g, s, dist', prev', visited, v) {
      assert Backed(g, s, dist, prev, visited, v);
    }
  }

  lemma RelaxedAfterOffer(g: seq<Node>, dist: seq<int32>, done: set<nat>, next: nat, d: int32)
    requires Relaxed(g, dist, done) && next < |g| && next !in done && d <= dist[next]
    ensures Relaxed(g, dist[next := d], done)
  {}

  /** A strictly better offer comes from a node that none expanded before it can match. */
  lemma ChosenAfterOffer(g: seq<Node>, s: nat, dist: seq<int32>, prev: seq<int>, visited: seq<bool>, done: set<nat>,
                         cur: nat, next: nat, d: int32)
    requires Labels(g, s, dist, prev, visited) && Relaxed(g, dist, done) && Chosen(g, s, dist, prev, done)
    requires cur < |g| && next < |g| && !visited[next] && (forall u | u in done :: u < |g| && visited[u])
               && d < dist[next]
    ensures Chosen(g, s, dist[next := d], prev[next := cur], done)
  {
    hide RoadAt;
    var dist', prev' := dist[next := d], prev[next := cur];
    forall u, v | u in done && u < |g| && 0 <= v < |g| && v != s && dist'[v] < INF && Linked(g, u, v)
                  && dist'[u] as int + RoadWeight(g, u, v) == dist'[v] as int
      ensures 0 <= prev'[v] < |g| && Before(dist', prev'[v], u)
    {
      assert u != next && dist[v] as int <= dist[u] as int + RoadWeight(g, u, v);
      assert v != next;
      assert Before(dist, prev[v], u) && Backed(g, s, dist, prev, visited, v);
    }
  }

  lemma LabelsAfterVisit(g: seq<Node>, s: nat, dist: seq<int32>, prev: seq<int>, visited: seq<bool>, cur: nat)
    requires Labels(g, s, dist, prev, visited) && cur < |g| && !visited[cur] && dist[cur] < INF
    requires forall v | 0 <= v < |g| && !visited[v] :: Before(dist, cur, v)
    ensures Labels(g, s, dist, prev, visited[cur := true])
    ensures forall u | 0 <= u < |g| && visited[cur := true][u] :: Before(dist, u, cur)
  {
    var visited' := visited[cur := true];
    forall v: nat | v < |g| ensures Backed(g, s, dist, prev, visited', v) {
      assert Backed(g, s, dist, prev, visited, v);
    }
  }

  /** What holds while the edges out of `cur` are being offered. */
  ghost predicate Offering(g: seq<Node>, s: nat, cur: nat, done: set<nat>,
                           dist: seq<int32>, prev: seq<int>, visited: seq<bool>)
  {
    && Labels(g, s, dist, prev, visited) && cur < |g| && visited[cur]
    && (forall u | 0 <= u < |g| && visited[u] :: Before(dist, u, cur))
    && Relaxed(g, dist, done) && Chosen(g, s, dist, prev, done) && (forall u | u in done :: u < |g| && visited[u])
  }

  lemma OfferingStep(g: seq<Node>, s: nat, cur: nat, done: set<nat>, dist: seq<int32>, prev: seq<int>,
                     visited: seq<bool>,
                     k: nat, d: int32)
    requires WellFormed(g) && Offering(g, s, cur, done, dist, prev, visited)
    requires k < |g[cur].edges| && d as int == dist[cur] as int + g[cur].edges[k].weight
    ensures g[cur].edges[k].to < |g|
    ensures var to := g[cur].edges[k].to; !visited[to] && d < dist[to] ==>
              Offering(g, s, cur, done, dist[to := d], prev[to := cur], visited)
    ensures var to := g[cur].edges[k].to; visited[to] ==> dist[to] <= d
  {
    var e := g[cur].edges[k];
    assert e.to < |g| && EdgePos(g[cur].edges, e.to) == k && e.weight >= 1;
    if !visited[e.to] && d < dist[e.to] {
      assert RoadWeight(g, cur, e.to) == e.weight;
      LabelsAfterOffer(g, s, dist, prev, visited, cur, e.to, d);
      RelaxedAfterOffer(g, dist, done, e.to, d);
      ChosenAfterOffer(g, s, dist, prev, visited, done, cur, e.to, d);
    }
  }

  lemma OfferingDone(g: seq<Node>, s: nat, cur: nat, done: set<nat>, dist: seq<int32>, prev: seq<int>,
                     visited: seq<bool>)
    requires WellFormed(g) && Offering(g, s, cur, done, dist, prev, visited)
    requires forall k | 0 <= k < |g[cur].edges| ::
               g[cur].edges[k].to < |g| && dist[g[cur].edges[k].to] as int <= dist[cur] as int + g[cur].edges[k].weight
    ensures Relaxed(g, dist, done + {cur}) && Chosen(g, s, dist, prev, done + {cur})
    ensures Offering(g, s, cur, done + {cur}, dist, prev, visited)
  {
    forall v | 0 <= v < |g| && v != s && dist[v] < INF ensures 0 <= prev[v] < |g| && Before(dist, prev[v], cur) {
      assert Backed(g, s, dist, prev, visited, v);
    }
    forall u, v | u in done + {cur} && 0 <= v < |g| && Linked(g, u, v)
      ensures dist[v] as int <= dist[u] as int + RoadWeight(g, u, v)
    {
      if u == cur { assert g[cur].edges[EdgePos(g[cur].edges, v)].to == v; }
    }
  }

  /** Offers every edge out of the freshly visited `cur` to its target. */
  method RelaxEdges(ghost g: seq<Node>, ghost s: nat, es: seq<Edge>, cur: nat, ghost done: set<nat>,
                    dist: array<int32>, prev: array<int>, visited: array<bool>)
    requires WellFormed(g) && SafeWeights(g)
    requires Offering(g, s, cur, done, dist[..], prev[..], visited[..]) && es == g[cur].edges
    modifies dist, prev
    ensures Offering(g, s, cur, done + {cur}, dist[..], prev[..], visited[..])
  {
    hide Offering, SafeWeights, WellFormed;
    OfferingHas(g, s, cur, done, dist[..], prev[..], visited[..]);
    var k := 0;
    while k < |es|
      invariant 0 <= k <= |es|
      invariant Offering(g, s, cur, done, dist[..], prev[..], visited[..])
      invariant forall j | 0 <= j < k :: es[j].to < |g| && dist[es[j].to] as int <= dist[cur] as int + es[j].weight
    {
      OfferingHas(g, s, cur, done, dist[..], prev[..], visited[..]);
      SafeSum(g, cur, k, dist[cur]);
      var next := es[k].to;
      var nextDist := dist[cur] + es[k].weight as int32;
      OfferingStep(g, s, cur, done, dist[..], prev[..], visited[..], k, nextDist);
      if !visited[next] && nextDist < dist[next] {
        ghost var dist', prev' := dist[..][next := nextDist], prev[..][next := cur];
        dist[next] := nextDist;
        prev[next] := cur;
        assert dist[..] == dist' && prev[..] == prev';
      }
      k := k + 1;
    }
    OfferingHas(g, s, cur, done, dist[..], prev[..], visited[..]);
    OfferingDone(g, s, cur, done, dist[..], prev[..], visited[..]);
  }

  lemma OfferingHas(g: seq<Node>, s: nat, cur: nat, done: set<nat>, dist: seq<int32>, prev: seq<int>,
                    visited: seq<bool>)
    requires Offering(g, s, cur, done, dist, prev, visited)
    ensures |g| == |dist| == |prev| == |visited| && cur < |g| && visited[cur] && 0 <= dist[cur] < INF
  {}

  /** No sum the search forms leaves 32 bits. */
  lemma SafeSum(g: seq<Node>, cur: nat, k: nat, d: int32)
    requires WellFormed(g) && SafeWeights(g) && cur < |g| && k < |g[cur].edges| && 0 <= d < INF
    ensures 1 <= g[cur].edges[k].weight && d as int + g[cur].edges[k].weight <= INT_MAX
  {
    assert g[cur].edges[k].to < |g|;
  }

  /** What holds between two picks: `done` are the visited nodes, all of them expanded. */
  ghost predicate Searching(g: seq<Node>, s: nat, done: set<nat>, dist: seq<int32>, prev: seq<int>,
                            visited: seq<bool>) {
    && Labels(g, s, dist, prev, visited) && Relaxed(g, dist, done) && Chosen(g, s, dist, prev, done)
    && (forall v: nat :: v in done <==> v < |g| && visited[v])
  }

  lemma SearchingAfterVisit(g: seq<Node>, s: nat, done: set<nat>, dist: seq<int32>, prev: seq<int>,
                            visited: seq<bool>, cur: nat)
    requires Searching(g, s, done, dist, prev, visited)
    requires cur < |g| && !visited[cur] && dist[cur] < INF
    requires forall v | 0 <= v < |g| && !visited[v] :: Before(dist, cur, v)
    ensures Offering(g, s, cur, done, dist, prev, visited[cur := true])
  {
    LabelsAfterVisit(g, s, dist, prev, visited, cur);
  }

  lemma {:induction false} NoLighterWalk(g: seq<Node>, s: nat, t: nat, done: set<nat>, dist: seq<int32>,
                                         prev: seq<int>, visited: seq<bool>, bound: int)
    requires WellFormed(g) && Searching(g, s, done, dist, prev, visited)
    requires t < |g| && forall v | 0 <= v < |g| && v !in done :: dist[v] as int >= bound
    requires t in done ==> dist[t] as int >= bound
    ensures forall p | WalkBetween(g, p, s, t) :: Weight(g, p) >= bound
  {
    forall p | WalkBetween(g, p, s, t) ensures Weight(g, p) >= bound {
      if Weight(g, p) < bound { LowerBound(g, s, dist, done, bound, p); }
    }
  }

  /** Every settled node is at its true distance and is entered from the first of its last hops. */
  ghost predicate Exact(g: seq<Node>, s: nat, dist: seq<int32>, prev: seq<int>, visited: seq<bool>)
    requires WellFormed(g)
  {
    && |g| == |dist| == |prev| == |visited|
    && (forall v | 0 <= v < |g| && visited[v] ::
          && Reachable(g, s, v) && dist[v] as int == Dist(g, s, v)
          && (v != s ==> prev[v] == FirstHop(g, s, v, |g|)))
  }

  lemma {:induction false} SettledDist(g: seq<Node>, s: nat, done: set<nat>, dist: seq<int32>, prev: seq<int>,
                                       visited: seq<bool>, v: nat)
    requires WellFormed(g) && Searching(g, s, done, dist, prev, visited) && v < |g| && dist[v] < INF
    requires forall u | 0 <= u < |g| && !visited[u] :: dist[v] <= dist[u]
    ensures Reachable(g, s, v) && dist[v] as int == Dist(g, s, v)
  {
    hide Labels, Relaxed, Chosen, WellFormed, RoadAt, Dist;
    StartsAtZero(g, s, dist, prev, visited);
    ChainIsWalk(g, s, dist, prev, visited, v);
    NoLighterWalk(g, s, v, done, dist, prev, visited, dist[v] as int);
    DistIs(g, s, v, Chain(g, s, dist, prev, visited, v));
  }

  /** A visited node is no farther than any unvisited one. */
  lemma VisitedNear(g: seq<Node>, s: nat, dist: seq<int32>, prev: seq<int>, visited: seq<bool>, v: nat)
    requires Labels(g, s, dist, prev, visited) && v < |g| && visited[v]
    ensures dist[v] < INF && forall u | 0 <= u < |g| && !visited[u] :: dist[v] <= dist[u]
  {
    assert forall u | 0 <= u < |g| && !visited[u] :: Before(dist, v, u);
  }

  /** Every last hop of a settled node has been expanded, so the recorded predecessor is the first of them all. */
  lemma {:induction false} SettledHop(g: seq<Node>, s: nat, done: set<nat>, dist: seq<int32>, prev: seq<int>,
                                      visited: seq<bool>, v: nat)
    requires WellFormed(g) && Searching(g, s, done, dist, prev, visited) && v < |g| && dist[v] < INF && v != s
    requires forall u | 0 <= u < |g| && !visited[u] :: dist[v] <= dist[u]
    ensures Reachable(g, s, v) && prev[v] == FirstHop(g, s, v, |g|)
  {
    hide Labels, Relaxed, WellFormed, RoadAt, Dist, FirstHop, Reachable;
    var u := BackedBy(g, s, dist, prev, visited, v);
    SettledDist(g, s, done, dist, prev, visited, v);
    VisitedNear(g, s, dist, prev, visited, u);
    SettledDist(g, s, done, dist, prev, visited, u);
    forall w | 0 <= w < |g| && LastHop(g, s, w, v) ensures NoLater(g, s, u, w) {
      var p := DistMeans(g, s, w);
      RoadPositive(g, w, v);
      StartsAtZero(g, s, dist, prev, visited);
      LowerBound(g, s, dist, done, dist[v] as int, p);
      VisitedNear(g, s, dist, prev, visited, w);
      SettledDist(g, s, done, dist, prev, visited, w);
      assert Before(dist, prev[v], w);
    }
    FirstHopIs(g, s, v, u);
  }

  lemma StartsAtZero(g: seq<Node>, s: nat, dist: seq<int32>, prev: seq<int>, visited: seq<bool>)
    requires Labels(g, s, dist, prev, visited)
    ensures s < |g| == |dist| == |prev| == |visited| && dist[s] == 0
  {}

  lemma BackedBy(g: seq<Node>, s: nat, dist: seq<int32>, prev: seq<int>, visited: seq<bool>, v: nat) returns (u: nat)
    requires Labels(g, s, dist, prev, visited) && v < |g| && v != s && dist[v] < INF
    ensures u < |g| && u == prev[v] && visited[u] && Linked(g, u, v) && 0 <= dist[u]
    ensures dist[v] as int == dist[u] as int + RoadWeight(g, u, v)
  {
    assert Backed(g, s, dist, prev, visited, v);
    u := prev[v];
  }

  /** Picking the goal makes everything visited exact, the goal included. */
  lemma SettledExact(g: seq<Node>, s: nat, t: nat, done: set<nat>, dist: seq<int32>, prev: seq<int>, visited: seq<bool>)
    requires WellFormed(g) && Searching(g, s, done, dist, prev, visited)
    requires t < |g| && dist[t] < INF && forall u | 0 <= u < |g| && !visited[u] :: dist[t] <= dist[u]
    ensures Exact(g, s, dist, prev, visited[t := true])
  {
    hide Labels, Relaxed, Chosen, WellFormed, Dist, FirstHop, Reachable;
    StartsAtZero(g, s, dist, prev, visited);
    forall v | 0 <= v < |g| && visited[t := true][v]
      ensures Reachable(g, s, v) && dist[v] as int == Dist(g, s, v) && (v != s ==> prev[v] == FirstHop(g, s, v, |g|))
    {
      if v != t { VisitedNear(g, s, dist, prev, visited, v); }
      SettledDist(g, s, done, dist, prev, visited, v);
      if v != s { SettledHop(g, s, done, dist, prev, visited, v); }
    }
  }

  /** All distances infinite and no node visited, except that the start is at distance zero. */
  method Prepare(ghost g: seq<Node>, n: nat, s: nat)
    returns (dist: array<int32>, prev: array<int>, visited: array<bool>)
    requires n == |g| && s < n
    ensures fresh(dist) && fresh(prev) && fresh(visited) && dist.Length == prev.Length == visited.Length == n
    ensures Searching(g, s, {}, dist[..], prev[..], visited[..])
    ensures forall v | 0 <= v < n :: !visited[v]
  {
    dist := new int32[n];
    prev := new int[n];
    visited := new bool[n](_ => false);
    var i := 0;
    while i < n
      invariant 0 <= i <= n
      invariant forall v | 0 <= v < i :: dist[v] == INF && prev[v] == -1
      invariant forall v | 0 <= v < n :: !visited[v]
    {
      prev[i] := -1;
      dist[i] := INF;
      i := i + 1;
    }
    dist[s] := 0;
    prev[s] := s;
  }

  /** Settles nodes in order of distance until the goal is settled or nothing in reach is left. */
  method Settle(graph: TransferGraph, s: nat, t: nat)
    returns (found: bool, dist: array<int32>, prev: array<int>, ghost visited: seq<bool>)
    requires graph.Valid() && SafeWeights(graph.Contents()) && s < graph.nodeCount && t < graph.nodeCount
    ensures fresh(dist) && fresh(prev)
    ensures Labels(graph.Contents(), s, dist[..], prev[..], visited)
    ensures found ==> visited[t] && Exact(graph.Contents(), s, dist[..], prev[..], visited)
    ensures !found ==> OutOfReach(graph.Contents(), s, t)
  {
    hide Labels, Relaxed, Chosen, SafeWeights, WellFormed, Exact;
    ghost var g := graph.Contents();
    var seen: array<bool>;
    dist, prev, seen := Prepare(g, graph.nodeCount, s);
    ghost var done: set<nat> := {};
    ghost var left: set<nat> := set v: nat | v < |g| && v !in done;
    while true
      invariant Searching(g, s, done, dist[..], prev[..], seen[..]) && t !in done
      invariant left == (set v: nat | v < |g| && v !in done)
      decreases left
    {
      var cur := PickNearest(dist, seen);
      if cur < 0 {
        found := false;
        visited := seen[..];
        NoLighterWalk(g, s, t, done, dist[..], prev[..], visited, INF as int);
        return;
      }
      SearchingAfterVisit(g, s, done, dist[..], prev[..], seen[..], cur);
      ghost var seen' := seen[..][cur := true];
      if cur == t { SettledExact(g, s, t, done, dist[..], prev[..], seen[..]); }
      seen[cur] := true;
      assert seen[..] == seen';
      if cur == t {
        found := true;
        visited := seen[..];
        return;
      }
      RelaxEdges(g, s, graph.nodes[cur].edges, cur, done, dist, prev, seen);
      done := done + {cur};
      left := left - {cur};
    }
  }

  // ---------------------------------------------------------------- the path

  /** The nodes on the predecessor chain from the start to `v`. */
  ghost function Chain(g: seq<Node>, s: nat, dist: seq<int32>, prev: seq<int>, visited: seq<bool>,
                       v: nat): (p: seq<nat>)
    requires WellFormed(g) && Labels(g, s, dist, prev, visited) && v < |g| && dist[v] < INF
    ensures p != [] && p[|p| - 1] == v
    decreases dist[v]
  {
    if v == s then [s]
    else
      assert Backed(g, s, dist, prev, visited, v);
      RoadPositive(g, prev[v], v);
      Chain(g, s, dist, prev, visited, prev[v]) + [v]
  }

  /** The chain is a walk of the recorded weight along which distances rise strictly. */
  lemma {:induction false} ChainIsWalk(g: seq<Node>, s: nat, dist: seq<int32>, prev: seq<int>, visited: seq<bool>,
                                       v: nat)
    requires WellFormed(g) && Labels(g, s, dist, prev, visited) && v < |g| && dist[v] < INF
    ensures var p := Chain(g, s, dist, prev, visited, v);
            && WalkBetween(g, p, s, v) && Weight(g, p) == dist[v] as int && Distinct(p)
            && forall i | 0 <= i < |p| :: dist[p[i]] <= dist[v]
    decreases dist[v]
  {
    hide *;
    StartsAtZero(g, s, dist, prev, visited);
    if v == s {
      ChainStart(g, dist, prev, visited, v);
    } else {
      var u := ChainNext(g, s, dist, prev, visited, v);
      ChainIsWalk(g, s, dist, prev, visited, u);
      ChainStep(g, Chain(g, s, dist, prev, visited, u), dist, s, u, v);
    }
  }

  lemma ChainStart(g: seq<Node>, dist: seq<int32>, prev: seq<int>, visited: seq<bool>, s: nat)
    requires WellFormed(g) && Labels(g, s, dist, prev, visited) && s < |g| && dist[s] < INF
    ensures var p := Chain(g, s, dist, prev, visited, s);
            p == [s] && WalkBetween(g, p, s, s) && Weight(g, p) == dist[s] as int && Distinct(p)
  {
    hide RoadAt;
  }

  lemma ChainNext(g: seq<Node>, s: nat, dist: seq<int32>, prev: seq<int>, visited: seq<bool>, v: nat) returns (u: nat)
    requires WellFormed(g) && Labels(g, s, dist, prev, visited) && v < |g| && dist[v] < INF && v != s
    ensures u < |g| && u == prev[v] && Linked(g, u, v) && 0 <= dist[u] < dist[v]
    ensures dist[v] as int == dist[u] as int + RoadWeight(g, u, v)
    ensures Chain(g, s, dist, prev, visited, v) == Chain(g, s, dist, prev, visited, u) + [v]
  {
    hide Labels, RoadAt, WellFormed;
    u := BackedBy(g, s, dist, prev, visited, v);
    RoadPositive(g, u, v);
  }

  lemma ChainStep(g: seq<Node>, front: seq<nat>, dist: seq<int32>, s: nat, u: nat, v: nat)
    requires |dist| == |g| && u < |g| && v < |g| && Linked(g, u, v) && dist[u] < dist[v]
    requires WalkBetween(g, front, s, u) && Weight(g, front) == dist[u] as int && Distinct(front)
    requires forall i | 0 <= i < |front| :: dist[front[i]] <= dist[u]
    requires dist[v] as int == dist[u] as int + RoadWeight(g, u, v)
    ensures var p := front + [v];
            && WalkBetween(g, p, s, v) && Weight(g, p) == dist[v] as int && Distinct(p)
            && forall i | 0 <= i < |p| :: dist[p[i]] <= dist[v]
  {
    hide RoadAt;
    StepWalk(g, front, v);
  }

  /** Follows the predecessors back from the goal for at most 256 nodes, then turns the list round. */
  method TraceBack(ghost g: seq<Node>, s: nat, t: nat, ghost dist: seq<int32>, prev: array<int>,
                   ghost visited: seq<bool>)
    returns (ok: bool, path: seq<nat>)
    requires WellFormed(g) && Labels(g, s, dist, prev[..], visited) && t < |g| && dist[t] < INF
    ensures ok == (|Chain(g, s, dist, prev[..], visited, t)| <= MAX_GRAPH_PATH)
    ensures ok ==> path == Chain(g, s, dist, prev[..], visited, t)
  {
    hide Labels, WellFormed, Chain;
    StartsAtZero(g, s, dist, prev[..], visited);
    ghost var p := Chain(g, s, dist, prev[..], visited, t);
    var rev := new nat[MAX_GRAPH_PATH];
    var count := 0;
    var cur: nat := t;
    ok := false;
    while count < MAX_GRAPH_PATH
      invariant 0 <= count <= MAX_GRAPH_PATH && count < |p|
      invariant cur < |g| && dist[cur] < INF
      invariant p[..|p| - count] == Chain(g, s, dist, prev[..], visited, cur)
      invariant forall i | 0 <= i < count :: rev[i] == p[|p| - 1 - i]
    {
      rev[count] := cur;
      count := count + 1;
      if cur == s {
        ChainStart(g, dist, prev[..], visited, s);
        ok := true;
        break;
      }
      ghost var u := ChainNext(g, s, dist, prev[..], visited, cur);
      assert p[..|p| - count] == Chain(g, s, dist, prev[..], visited, u);
      cur := prev[cur];
    }
    path := [];
    if ok { path := TurnRound(rev, count); }
    assert ok ==> |path| == |p| && forall i | 0 <= i < |p| :: path[i] == p[i];
  }

  /** The first `count` entries, last first. */
  method TurnRound(rev: array<nat>, count: nat) returns (path: seq<nat>)
    requires count <= rev.Length
    ensures |path| == count && forall i | 0 <= i < count :: path[i] == rev[count - i - 1]
  {
    path := [];
    var i := 0;
    while i < count
      invariant 0 <= i <= count && |path| == i
      invariant forall j | 0 <= j < i :: path[j] == rev[count - j - 1]
    {
      path := path + [rev[count - i - 1]];
      i := i + 1;
    }
  }

  /** Copies minutes and label of the stored edge under every segment. */
  method FillSegments(graph: TransferGraph, p: seq<nat>) returns (minutes: seq<int>, routes: seq<string>)
    requires graph.Valid() && Walk(graph.Contents(), p)
    ensures |minutes| == |routes| == |p| - 1
    ensures forall i | 0 <= i < |p| - 1 :: RoadAt(graph.Contents(), p[i], p[i + 1]) == Some(Road(minutes[i], routes[i]))
  {
    minutes, routes := [], [];
    var i := 0;
    while i + 1 < |p|
      invariant 0 <= i <= |p| - 1 && |minutes| == |routes| == i
      invariant forall j | 0 <= j < i :: RoadAt(graph.Contents(), p[j], p[j + 1]) == Some(Road(minutes[j], routes[j]))
    {
      assert Linked(graph.Contents(), p[i], p[i + 1]);
      var k := graph.GetEdge(p[i], p[i + 1]);
      var e := graph.nodes[p[i]].edges[k];
      minutes, routes := minutes + [e.weight], routes + [e.route];
      i := i + 1;
    }
  }

  /** The recorded chain is the canonical path. */
  lemma {:induction false} ChainIsCanonical(g: seq<Node>, s: nat, dist: seq<int32>, prev: seq<int>,
                                            visited: seq<bool>, v: nat)
    requires WellFormed(g) && Labels(g, s, dist, prev, visited) && Exact(g, s, dist, prev, visited)
    requires v < |g| && visited[v]
    ensures dist[v] < INF && Reachable(g, s, v) && dist[v] as int == Dist(g, s, v)
    ensures Chain(g, s, dist, prev, visited, v) == CanonicalPath(g, s, v)
    decreases dist[v]
  {
    hide Labels, WellFormed, Dist, FirstHop, Reachable;
    VisitedNear(g, s, dist, prev, visited, v);
    if v != s {
      var u := BackedBy(g, s, dist, prev, visited, v);
      RoadPositive(g, u, v);
      ChainIsCanonical(g, s, dist, prev, visited, u);
    }
  }

  lemma SegmentsReport(g: seq<Node>, s: nat, t: nat, p: seq<nat>, minutes: seq<int>, routes: seq<string>, total: int)
    requires Shortest(g, p, s, t) && Distinct(p) && |p| <= MAX_GRAPH_PATH && Weight(g, p) == total < INF as int
    requires |minutes| == |routes| == |p| - 1
    requires forall i | 0 <= i < |p| - 1 :: RoadAt(g, p[i], p[i + 1]) == Some(Road(minutes[i], routes[i]))
    ensures Reports(g, s, t, GraphPath(p, routes, minutes, total))
  {
    SumIsWeight(g, p, minutes);
  }

  /** The part of the search that runs once the goal is settled. */
  method Report(graph: TransferGraph, s: nat, t: nat, dist: array<int32>, prev: array<int>, ghost visited: seq<bool>)
    returns (found: bool, path: GraphPath)
    requires graph.Valid() && t < graph.nodeCount
    requires Labels(graph.Contents(), s, dist[..], prev[..], visited)
    requires Exact(graph.Contents(), s, dist[..], prev[..], visited) && visited[t]
    ensures dist[t] < INF && Reachable(graph.Contents(), s, t) && Dist(graph.Contents(), s, t) == dist[t] as int
    ensures found == (|CanonicalPath(graph.Contents(), s, t)| <= MAX_GRAPH_PATH)
    ensures if found then Reports(graph.Contents(), s, t, path) && path.indices == CanonicalPath(graph.Contents(), s, t)
            else path == EMPTY_PATH
  {
    hide Labels, Exact, WellFormed, Dist, Chain, CanonicalPath, Reachable, Reports, RoadAt, Distinct;
    ghost var g := graph.Contents();
    StartsAtZero(g, s, dist[..], prev[..], visited);
    ChainIsCanonical(g, s, dist[..], prev[..], visited, t);
    CanonicalIsShortest(g, s, t);
    var nodes;
    found, nodes := TraceBack(g, s, t, dist[..], prev, visited);
    path := EMPTY_PATH;
    if found {
      var minutes, routes := FillSegments(graph, nodes);
      SegmentsReport(g, s, t, nodes, minutes, routes, dist[t] as int);
      path := GraphPath(nodes, routes, minutes, dist[t] as int);
    }
  }

  /** `graph_find_path`. The result struct is left alone when an index is out of range and cleared otherwise. */
  method FindPath(graph: TransferGraph, from: int, to: int, path0: GraphPath) returns (found: bool, path: GraphPath)
    requires graph.Valid() && SafeWeights(graph.Contents())
    ensures !(0 <= from < graph.nodeCount && 0 <= to < graph.nodeCount) ==> !found && path == path0
    ensures 0 <= from < graph.nodeCount && 0 <= to < graph.nodeCount ==>
              && (found <==> Answered(graph.Contents(), from, to))
              && (if found then Finds(graph.Contents(), from, to, path) else path == EMPTY_PATH)
  {
    hide Labels, Exact, WellFormed, Dist;
    if from < 0 || to < 0 || from >= graph.nodeCount || to >= graph.nodeCount {
      return false, path0;
    }
    ghost var g := graph.Contents();
    ghost var visited;
    var dist, prev;
    found, dist, prev, visited := Settle(graph, from, to);
    path := EMPTY_PATH;
    if found {
      found, path := Report(graph, from, to, dist, prev, visited);
      NotOutOfReach(g, from, to);
    }
  }

  lemma NotOutOfReach(g: seq<Node>, s: int, t: int)
    requires WellFormed(g) && Reachable(g, s, t) && Dist(g, s, t) < INF as int
    ensures !OutOfReach(g, s, t)
  {
    var p := DistMeans(g, s, t);
  }

  // ---------------------------------------------------------------- when the buffer may be too short

  lemma InReach(g: seq<Node>, s: int, t: int)
    requires !OutOfReach(g, s, t)
    ensures Reachable(g, s, t)
  {}

  /** The canonical path overflows the buffer only in a graph of more than 256 nodes and from 256 minutes on. */
  lemma {:induction false} TooLongNeedsMuch(g: seq<Node>, s: int, t: int)
    requires WellFormed(g) && Reachable(g, s, t) && |CanonicalPath(g, s, t)| > MAX_GRAPH_PATH
    ensures |g| > MAX_GRAPH_PATH
    ensures forall q | WalkBetween(g, q, s, t) :: Weight(g, q) >= MAX_GRAPH_PATH
  {
    CanonicalIsShortest(g, s, t);
    var p := CanonicalPath(g, s, t);
    WeightAtLeastLength(g, p);
    DistinctBounded(p, |g|);
  }

  /** So the search must answer whenever some walk is cheaper than INF and either the graph has at most 256 nodes
      or that walk takes at most 255 minutes. */
  lemma {:induction false} CompleteWhenSmall(g: seq<Node>, s: int, t: int, q: seq<nat>)
    requires WellFormed(g) && WalkBetween(g, q, s, t) && Weight(g, q) < INF as int
    requires |g| <= MAX_GRAPH_PATH || Weight(g, q) < MAX_GRAPH_PATH
    ensures Answered(g, s, t)
  {
    hide WellFormed, RoadAt, Dist;
    if |CanonicalPath(g, s, t)| > MAX_GRAPH_PATH { TooLongNeedsMuch(g, s, t); }
  }
}
