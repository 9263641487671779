/** Loaded data on which the 256-node result buffer of src/common/graph.c decides the answer. */
module BufferLimits {
  import opened Basics
  import opened Text
  import opened Graph
  import opened Walks
  import opened Canonical
  import opened ShortestPath
  import opened RouteStops
  import opened Loader
  import opened LoaderFacts
  import opened StationData

  // ---------------------------------------------------------------- one long bus route

  /** Nothing but one route that serves every stop, in order. */
  ghost predicate OneRoute(data: AppData) {
    && data.stations == [] && data.distances == [] && |data.routes| == 1 && DistinctIds(data)
    && |data.routes[0].stops| == |data.stops|
    && forall i | 0 <= i < |data.stops| :: data.routes[0].stops[i].stopId == data.stops[i].id
  }

  lemma StopIndex(data: AppData, i: nat)
    requires OneRoute(data) && i < |data.stops|
    ensures NodeIndex(Skeleton(data), data.routes[0].stops[i].stopId) == i && |Skeleton(data)| == |data.stops|
  {
    hide Skeleton, NodeIndex, DistinctIds;
    SkeletonIs(data);
    IndexIs(data, i);
    assert AllIds(data)[i] == data.stops[i].id;
  }

  lemma OnlyBusLinks(data: AppData, l: Link)
    requires OneRoute(data) && l in AllLinks(Skeleton(data), data)
    ensures l in BusLinks(Skeleton(data), data.routes)
  {
    hide Skeleton, BusLinks, DistinctIds, WalkLinked;
    TransferLinksMember(Skeleton(data), data.stops, data.stations, l);
  }

  /** Every road joins neighbours on the route. */
  lemma NeighbourRoad(data: AppData, u: int, v: int)
    requires OneRoute(data) && Linked(Built(data), u, v)
    ensures v == u + 1 || u == v + 1
  {
    hide Skeleton, BusLinks, DistinctIds, Built, RoadAt, AllLinks, NodeIndex;
    var l := RoadHasLink(data, u, v);
    OnlyBusLinks(data, l);
    BusLinksMember(Skeleton(data), data.routes, l);
    var r, k :| r in data.routes && 0 < k < |r.stops| &&
      l == Link(NodeIndex(Skeleton(data), r.stops[k - 1].stopId), NodeIndex(Skeleton(data), r.stops[k].stopId),
                BUS_MINUTES, r.no);
    assert r == data.routes[0];
    StopIndex(data, k - 1);
    StopIndex(data, k);
  }

  /** So a walk of few nodes does not get far. */
  lemma {:induction false} ShortWalkStaysNear(data: AppData, p: seq<nat>)
    requires OneRoute(data) && Walk(Built(data), p)
    ensures p[|p| - 1] < p[0] + |p|
    decreases |p|
  {
    hide OneRoute, Built, RoadAt;
    if |p| > 1 {
      assert Linked(Built(data), p[|p| - 2], p[|p| - 2 + 1]);
      NeighbourRoad(data, p[|p| - 2], p[|p| - 1]);
      ShortWalkStaysNear(data, p[..|p| - 1]);
    }
  }

  /** From end to end of a single bus route of 257 stops or more there is a walk below INF, yet the search refuses,
      and no path between the two could be reported. */
  lemma LongRouteRefused(data: AppData, end: nat)
    requires OneRoute(data) && MAX_GRAPH_PATH <= end == |data.stops| - 1 && BUS_MINUTES * end < INF as int
    ensures WellFormed(Built(data)) && SafeWeights(Built(data)) && |Built(data)| == |data.stops|
    ensures !OutOfReach(Built(data), 0, end) && !Answered(Built(data), 0, end)
    ensures forall path :: !Reports(Built(data), 0, end, path)
  {
    RouteInReach(data, end);
    hide Built, OneRoute, RoadAt, WellFormed, Dist, Reachable, CanonicalPath;
    var g := Built(data);
    InReach(g, 0, end);
    CanonicalIsShortest(g, 0, end);
    ShortWalkStaysNear(data, CanonicalPath(g, 0, end));
    forall path | Reports(g, 0, end, path) ensures false {
      ShortWalkStaysNear(data, path.indices);
    }
  }

  lemma RouteInReach(data: AppData, end: nat)
    requires OneRoute(data) && 0 < end == |data.stops| - 1 && BUS_MINUTES * end < INF as int
    ensures WellFormed(Built(data)) && SafeWeights(Built(data)) && |Built(data)| == |data.stops|
    ensures !OutOfReach(Built(data), 0, end)
  {
    hide Built, Skeleton, DistinctIds, NodeIndex, DistanceLink, RoadAt, SafeWeights, WellFormed;
    var r := data.routes[0];
    assert r in data.routes;
    forall k | 0 <= k < |r.stops| ensures StopAt(data, r, k) == k { StopIndex(data, k); }
    RouteBound(data, r, 0, end);
    BuiltSearchable(data);
    BuiltLength(data);
    StopIndex(data, 0);
  }

  function NumberedStop(i: nat): Stop { Stop(NumberId(i), "", 0.0, 0.0) }

  /** Such data exists in every size. */
  function RouteData(n: nat): AppData {
    AppData(seq(n, i requires 0 <= i < n => NumberedStop(i)),
            [Route("1", seq(n, i requires 0 <= i < n => Row(i, NumberId(i))))], [], [])
  }

  lemma RouteDataIs(n: nat)
    requires n < MANY
    ensures OneRoute(RouteData(n)) && |RouteData(n).stops| == n
  {
    hide NumberId;
    var data := RouteData(n);
    forall i, j | 0 <= i < j < n ensures AllIds(data)[i] != AllIds(data)[j] {
      NumberIdsDiffer(i, j);
      assert AllIds(data)[i] == data.stops[i].id && AllIds(data)[j] == data.stops[j].id;
    }
    assert |AllIds(data)| == n;
  }

  // ---------------------------------------------------------------- a line with two chords that save nothing

  /** The ends of row `k`: neighbours on a line of `n + 2` stations, then the two chords. */
  function Chord(n: nat, k: nat): (nat, nat)
    requires n > 2
  {
    if k <= n then (k, k + 1) else if k == n + 1 then (0, n) else (n - 1, n + 1)
  }

  function Chords(n: nat): (r: seq<(nat, nat)>)
    requires n > 2
    ensures |r| == n + 3 && forall k | 0 <= k < n + 3 :: r[k] == Chord(n, k)
  {
    seq(n + 3, k requires 0 <= k < n + 3 => Chord(n, k))
  }

  function NumberedStation(i: nat): Station { Station(NumberId(i), "", "", 0.0, 0.0) }

  function ChordRow(e: (nat, nat)): Distance { Distance(NumberId(e.0), NumberId(e.1), "L", 0.0, e.1 - e.0) }

  function NumberedStations(n: nat): (r: seq<Station>)
    ensures |r| == n && forall i | 0 <= i < n :: r[i] == NumberedStation(i)
  {
    seq(n, i requires 0 <= i < n => NumberedStation(i))
  }

  /** A line of stations from 0 to `n + 1`, a direct connection from 0 to `n` and one from `n - 1` to `n + 1`. */
  function ChordData(n: nat): AppData
    requires n > 2
  {
    AppData([], [], NumberedStations(n + 2), seq(n + 3, k requires 0 <= k < n + 3 => ChordRow(Chord(n, k))))
  }

  lemma NumberedDistinct(data: AppData, n: nat)
    requires data.stops == [] && data.stations == NumberedStations(n) && n < MANY
    ensures DistinctIds(data)
  {
    hide NumberId;
    var ids := AllIds(data);
    forall i, j | 0 <= i < j < n ensures ids[i] != ids[j] {
      NumberIdsDiffer(i, j);
      assert ids[|data.stops| + i] == data.stations[i].id && ids[|data.stops| + j] == data.stations[j].id;
    }
  }

  lemma ChordDataIs(n: nat)
    requires 2 < n < MANY - 2
    ensures Indexed(ChordData(n), Chords(n)) && |ChordData(n).stations| == n + 2
  {
    hide NumberId, DistinctIds;
    NumberedDistinct(ChordData(n), n + 2);
    assert !IsBlank("L") by { assert 'L' in "L"; }
  }

  /** Rows and roads are the same. */
  lemma ChordRoads(n: nat, u: nat, v: nat)
    requires 2 < n < MANY - 2 && u < v
    ensures Linked(Built(ChordData(n)), u, v) <==>
            (v == u + 1 && u <= n) || (u == 0 && v == n) || (u == n - 1 && v == n + 1)
    ensures Linked(Built(ChordData(n)), u, v) ==> RoadAt(Built(ChordData(n)), u, v) == Some(Road(v - u, "L"))
  {
    hide Built, ChordData, RoadAt, Indexed, NumberId;
    ChordDataIs(n);
    ChordLines(n);
    var data, ends := ChordData(n), Chords(n);
    if Linked(Built(data), u, v) {
      var k := RoadRow(data, ends, u, v);
    }
    if v == u + 1 && u <= n { RowRoad(data, ends, u); }
    if u == 0 && v == n { RowRoad(data, ends, n + 1); }
    if u == n - 1 && v == n + 1 { RowRoad(data, ends, n + 2); }
  }

  lemma ChordLines(n: nat)
    requires n > 2
    ensures forall k | 0 <= k < |ChordData(n).distances| :: ChordData(n).distances[k].line == "L"
    ensures |ChordData(n).distances| == n + 3
  {
    hide NumberId;
  }

  lemma ChordGraph(n: nat)
    requires 2 < n < MANY - 2
    ensures Ruled(Built(ChordData(n))) && WellFormed(Built(ChordData(n))) && SafeWeights(Built(ChordData(n)))
    ensures |Built(ChordData(n))| == n + 2
  {
    hide Built, ChordData, Indexed, Ruled, SafeWeights;
    ChordDataIs(n);
    IndexedRuled(ChordData(n), Chords(n));
    IndexedSearchable(ChordData(n), Chords(n));
    IndexedLinks(ChordData(n), Chords(n));
  }

  /** Along the line every station is as far as its index, by a walk over all stations before it. */
  lemma ChordDist(n: nat, v: nat) returns (p: seq<nat>)
    requires 2 < n < MANY - 2 && v < n + 2
    ensures WellFormed(Built(ChordData(n))) && |p| == v + 1 && Shortest(Built(ChordData(n)), p, 0, v) && Distinct(p)
    ensures Reachable(Built(ChordData(n)), 0, v) && Dist(Built(ChordData(n)), 0, v) == v
  {
    hide Built, ChordData, Linked, Ruled, WellFormed, Dist, Reachable, SafeWeights;
    p := seq(v + 1, i => i);
    ChordGraph(n);
    forall i | 0 <= i < v ensures Linked(Built(ChordData(n)), p[i], p[i + 1]) { ChordRoads(n, i, i + 1); }
    assert WalkBetween(Built(ChordData(n)), p, 0, v);
    RisingShortest(Built(ChordData(n)), p, 0, v);
  }

  /** The canonical path enters a station from the lowest of its neighbours below. */
  lemma ChordHop(n: nat, v: nat)
    requires 2 < n < MANY - 2 && 0 < v < n + 2
    ensures WellFormed(Built(ChordData(n))) && Reachable(Built(ChordData(n)), 0, v) && |Built(ChordData(n))| == n + 2
    ensures FirstHop(Built(ChordData(n)), 0, v, n + 2) == (if v == n then 0 else if v == n + 1 then n - 1 else v - 1)
  {
    hide *;
    var g := Built(ChordData(n));
    ChordGraph(n);
    var p := ChordDist(n, v);
    HopExists(g, 0, v);
    var k := FirstHop(g, 0, v, |g|);
    ChordHopDist(n, k, v);
    ChordRoads(n, k, v);
    var u := if v == n then 0 else if v == n + 1 then n - 1 else v - 1;
    ChordRoads(n, u, v);
    ChordIsHop(n, u, v);
    FirstHopMeans(g, 0, v, |g|);
    var toK := ChordDist(n, k);
    var toU := ChordDist(n, u);
    assert NoLater(g, 0, k, u);
    ChordNoLater(n, k, u);
  }

  lemma ChordHopDist(n: nat, k: int, v: nat)
    requires 2 < n < MANY - 2 && v < n + 2 && 0 <= k < n + 2
    requires WellFormed(Built(ChordData(n))) && Reachable(Built(ChordData(n)), 0, v)
               && LastHop(Built(ChordData(n)), 0, k, v)
    requires RoadWeight(Built(ChordData(n)), k, v) >= 1
    ensures k < v && Linked(Built(ChordData(n)), k, v)
  {
    hide Built, ChordData, Linked, WellFormed, Dist, Reachable, Ruled;
    var p := ChordDist(n, v);
    var q := ChordDist(n, k);
  }

  lemma ChordIsHop(n: nat, u: nat, v: nat)
    requires 2 < n < MANY - 2 && u < v < n + 2 && Linked(Built(ChordData(n)), u, v)
    ensures WellFormed(Built(ChordData(n))) && Reachable(Built(ChordData(n)), 0, v)
    ensures LastHop(Built(ChordData(n)), 0, u, v)
  {
    ChordGraph(n);
    hide Built, ChordData, Linked, WellFormed, Dist, Reachable;
    var p := ChordDist(n, v);
    var q := ChordDist(n, u);
  }

  lemma ChordNoLater(n: nat, k: nat, u: nat)
    requires 2 < n < MANY - 2 && u < n + 2 && k < n + 2
    requires WellFormed(Built(ChordData(n)))
    requires Reachable(Built(ChordData(n)), 0, k) && Reachable(Built(ChordData(n)), 0, u)
    requires NoLater(Built(ChordData(n)), 0, k, u)
    ensures k <= u
  {
    hide Built, ChordData, WellFormed, Dist, Reachable;
    var p := ChordDist(n, k);
    var q := ChordDist(n, u);
  }

  lemma {:induction false} ChordCanonical(n: nat, v: nat)
    requires 2 < n < MANY - 2 && v < n + 2
    ensures WellFormed(Built(ChordData(n))) && Reachable(Built(ChordData(n)), 0, v)
    ensures |CanonicalPath(Built(ChordData(n)), 0, v)| == (if v == n then 2 else if v == n + 1 then n + 1 else v + 1)
    decreases v
  {
    hide Built, ChordData, WellFormed, Reachable, Dist, FirstHop;
    var g := Built(ChordData(n));
    ChordGraph(n);
    var p := ChordDist(n, v);
    if v > 0 {
      ChordHop(n, v);
      ChordCanonical(n, FirstHop(g, 0, v, |g|));
    }
  }

  /** Between equally short walks the order of settling decides, not the room in the buffer. Station `n` is answered
      over the chord although a shortest walk to it overflows the buffer; station `n + 1` is refused although a report
      of three stations exists. */
  lemma TieDecides(n: nat)
    requires MAX_GRAPH_PATH <= n < MANY - 2
    ensures var g := Built(ChordData(n));
            && WellFormed(g) && SafeWeights(g)
            && Answered(g, 0, n) && (exists p: seq<nat> :: Shortest(g, p, 0, n) && Distinct(p) && |p| > MAX_GRAPH_PATH)
            && !Answered(g, 0, n + 1) && Reports(g, 0, n + 1, GraphPath([0, n, n + 1], ["L", "L"], [n, 1], n + 1))
  {
    hide Built, ChordData, WellFormed, SafeWeights, Answered, Reports, Shortest, Distinct;
    ChordGraph(n);
    var toN := ChordDist(n, n);
    ChordAnswered(n, n);
    ChordAnswered(n, n + 1);
    ChordReported(n);
  }

  /** Every station is in reach, so only the length of the canonical path decides. */
  lemma ChordAnswered(n: nat, v: nat)
    requires 2 < n < MANY - 2 && v < n + 2
    ensures WellFormed(Built(ChordData(n)))
    ensures Answered(Built(ChordData(n)), 0, v) <==>
            (if v == n then 2 else if v == n + 1 then n + 1 else v + 1) <= MAX_GRAPH_PATH
  {
    hide Built, ChordData, WellFormed, Reachable, CanonicalPath, Dist, OutOfReach, Shortest, Distinct;
    var p := ChordDist(n, v);
    NotOutOfReach(Built(ChordData(n)), 0, v);
    ChordCanonical(n, v);
  }

  lemma ChordReported(n: nat)
    requires 2 < n < MANY - 2
    ensures Reports(Built(ChordData(n)), 0, n + 1, GraphPath([0, n, n + 1], ["L", "L"], [n, 1], n + 1))
  {
    hide *;
    var g, p: seq<nat> := Built(ChordData(n)), [0, n, n + 1];
    ChordGraph(n);
    ChordRoads(n, 0, n);
    ChordRoads(n, n, n + 1);
    ThreeNodes(g, 0, n, n + 1);
    RisingShortest(g, p, 0, n + 1);
    MinutesBelow(n);
    TwoSegments(g, p, 0, n + 1, "L", "L", n, 1, n + 1);
  }

  lemma MinutesBelow(n: nat)
    requires n < MANY
    ensures n + 1 < INF as int
  {}

  lemma ThreeNodes(g: seq<Node>, a: nat, b: nat, c: nat)
    requires a < b < c < |g| && Linked(g, a, b) && Linked(g, b, c)
    ensures var p: seq<nat> := [a, b, c]; WalkBetween(g, p, a, c) && Rising(p)
  {
    hide Linked;
  }

  lemma TwoSegments(g: seq<Node>, p: seq<nat>, s: int, t: int, r0: string, r1: string, m0: int, m1: int, total: int)
    requires |p| == 3 && Shortest(g, p, s, t) && Distinct(p) && Weight(g, p) == total < INF as int
    requires RoadAt(g, p[0], p[1]) == Some(Road(m0, r0)) && RoadAt(g, p[1], p[2]) == Some(Road(m1, r1))
    ensures Reports(g, s, t, GraphPath(p, [r0, r1], [m0, m1], total))
  {
    hide RoadAt, Reports, Distinct;
    var minutes, routes := [m0, m1], [r0, r1];
    forall i | 0 <= i < |p| - 1 ensures RoadAt(g, p[i], p[i + 1]) == Some(Road(minutes[i], routes[i])) {
      if i == 0 {} else { assert i == 1; }
    }
    SegmentsReport(g, s, t, p, minutes, routes, total);
  }
}
