/**
 Which rides a built graph holds, in terms of the loaded data alone: every edge between two stops comes from a route,
 and every edge between two stations from the distance table or, when that gives none, from a common line.
 */
module RoadLaws {
  import opened Basics
  import opened Text
  import opened Graph
  import opened Proposals
  import opened LineNames
  import opened Loader
  import opened LoaderFacts

  // ---------------------------------------------------------------- where nodes are

  /** The node of station `i`. */
  function StationIx(data: AppData, i: nat): nat { |data.stops| + i }

  lemma StationAt(data: AppData, i: nat)
    requires DistinctIds(data) && i < |data.stations|
    ensures NodeIndex(Skeleton(data), data.stations[i].id) == StationIx(data, i)
    ensures |Skeleton(data)| == |data.stops| + |data.stations|
  {
    hide Skeleton, NodeIndex, DistinctIds;
    SkeletonIs(data);
    IndexIs(data, |data.stops| + i);
    assert AllIds(data)[|data.stops| + i] == data.stations[i].id;
  }

  lemma StopAtIx(data: AppData, i: nat)
    requires DistinctIds(data) && i < |data.stops|
    ensures NodeIndex(Skeleton(data), data.stops[i].id) == i
    ensures |Skeleton(data)| == |data.stops| + |data.stations|
  {
    hide Skeleton, NodeIndex, DistinctIds;
    SkeletonIs(data);
    IndexIs(data, i);
    assert AllIds(data)[i] == data.stops[i].id;
  }

  /** With distinct ids the finished graph has one node for every stop and then one for every station, in list order,
      with its id, name, kind and place. */
  lemma NodesAre(data: AppData, v: nat)
    requires DistinctIds(data) && v < |data.stops| + |data.stations|
    ensures |Built(data)| == |data.stops| + |data.stations|
    ensures var n := Built(data)[v];
            if v < |data.stops|
            then var s := data.stops[v];
                 n.kind == BUS_STOP && n.id == s.id && n.name == s.name && n.lat == s.lat && n.lng == s.lng
            else var s := data.stations[v - |data.stops|];
                 n.kind == SUBWAY_STATION && n.id == s.id && n.name == s.name && n.lat == s.lat && n.lng == s.lng
  {
    hide Built, Skeleton, DistinctIds, AllIds;
    SkeletonIs(data);
    BuiltNode(data, v);
    if v >= |data.stops| {
      var j := v - |data.stops|;
      assert Skeleton(data)[|data.stops| + j] == StationNode(data.stations[j]);
    }
  }

  /** An id is known when a stop or a station carries it. */
  ghost predicate Known(data: AppData, id: string) { id in AllIds(data) }

  lemma KnownMeans(data: AppData, id: string)
    requires DistinctIds(data)
    ensures Known(data, id) <==> NodeIndex(Skeleton(data), id) >= 0
    ensures Known(data, id) ==> var v := NodeIndex(Skeleton(data), id); v < |AllIds(data)| && AllIds(data)[v] == id
  {
    hide Skeleton, NodeIndex, AllIds;
    SkeletonIs(data);
    NodeIndexMeans(Skeleton(data), id);
    if Known(data, id) {
      var v :| 0 <= v < |AllIds(data)| && AllIds(data)[v] == id;
      IndexIs(data, v);
    }
  }

  /** No route stop names a station. */
  ghost predicate RoutesOfStops(data: AppData) {
    forall r, x, s | r in data.routes && x in r.stops && s in data.stations :: s.id != x.stopId
  }

  /** A bus link never leads to a station then. */
  lemma BusLinkIsLow(data: AppData, l: Link)
    requires DistinctIds(data) && RoutesOfStops(data) && l in BusLinks(Skeleton(data), data.routes)
    ensures l.a < |data.stops| && l.b < |data.stops|
  {
    hide Skeleton, NodeIndex, DistinctIds, BusLinks;
    BusLinksMember(Skeleton(data), data.routes, l);
    var r, k :| r in data.routes && 0 < k < |r.stops| &&
      l == Link(NodeIndex(Skeleton(data), r.stops[k - 1].stopId), NodeIndex(Skeleton(data), r.stops[k].stopId),
                BUS_MINUTES, r.no);
    assert r.stops[k - 1] in r.stops && r.stops[k] in r.stops;
    IndexKind(data, r.stops[k - 1].stopId);
    IndexKind(data, r.stops[k].stopId);
  }

  // ---------------------------------------------------------------- lines

  lemma {:induction false} LineLinksFromIff(g: seq<Node>, ss: seq<Station>, i: nat, n: nat, l: Link)
    requires i < n <= |ss|
    ensures l in LineLinksFrom(g, ss, i, n) <==> exists b :: i < b < n && l in PairLinks(g, ss[i], ss[b])
    decreases n
  {
    hide PairLinks;
    if n > i + 1 { LineLinksFromIff(g, ss, i, n - 1, l); }
  }

  lemma {:induction false} LineLinksIff(g: seq<Node>, ss: seq<Station>, i: nat, l: Link)
    requires i <= |ss|
    ensures l in LineLinks(g, ss, i) <==> exists a, b :: 0 <= a < i && a < b < |ss| && l in PairLinks(g, ss[a], ss[b])
  {
    hide PairLinks, LineLinksFrom;
    if i > 0 {
      LineLinksIff(g, ss, i - 1, l);
      LineLinksFromIff(g, ss, i - 1, |ss|, l);
    }
  }

  /** No row of the distance table names two known ids. */
  ghost predicate NoRowApplies(data: AppData) {
    forall d | d in data.distances :: !Known(data, d.from) || !Known(data, d.to)
  }

  lemma {:induction false} NoSubwayLinks(g: seq<Node>, ds: seq<Distance>)
    requires forall d | d in ds :: NodeIndex(g, d.from) < 0 || NodeIndex(g, d.to) < 0
    ensures SubwayLinks(g, ds) == []
  {
    hide NodeIndex, SubwayMinutes, IsBlank;
    if ds != [] {
      assert ds[|ds| - 1] in ds && forall d | d in ds[..|ds| - 1] :: d in ds;
      NoSubwayLinks(g, ds[..|ds| - 1]);
    }
  }

  lemma LinesUsed(data: AppData)
    requires DistinctIds(data) && NoRowApplies(data)
    ensures SubwayLinks(Skeleton(data), data.distances) == []
  {
    hide Skeleton, NodeIndex, Known, AllIds, SubwayLinks;
    forall d | d in data.distances
      ensures NodeIndex(Skeleton(data), d.from) < 0 || NodeIndex(Skeleton(data), d.to) < 0
    {
      KnownMeans(data, d.from);
      KnownMeans(data, d.to);
    }
    NoSubwayLinks(Skeleton(data), data.distances);
  }

  /** The two stations have a line name in common. */
  ghost predicate Shares(s: Station, t: Station) {
    exists n :: n in LineNamesOf(s.line) && n in LineNamesOf(t.line)
  }

  /** `n` is the first name of `s` that `t` has too. */
  ghost predicate FirstShared(s: Station, t: Station, n: string) {
    exists k :: 0 <= k < |LineNamesOf(s.line)| && LineNamesOf(s.line)[k] == n && n in LineNamesOf(t.line)
                && forall m | 0 <= m < k :: LineNamesOf(s.line)[m] !in LineNamesOf(t.line)
  }

  lemma {:induction false} CommonIsFirst(a: seq<string>, b: seq<string>)
    ensures Common(a, b).Some? ==>
              exists k :: 0 <= k < |a| && a[k] == Common(a, b).value && a[k] in b && forall m | 0 <= m < k :: a[m] !in b
  {
    if a != [] && a[0] !in b {
      CommonIsFirst(a[1..], b);
      if Common(a, b).Some? {
        var k :| 0 <= k < |a[1..]| && a[1..][k] == Common(a[1..], b).value && a[1..][k] in b
                 && forall m | 0 <= m < k :: a[1..][m] !in b;
        assert forall m | 0 <= m < k + 1 :: a[m] == if m == 0 then a[0] else a[1..][m - 1];
        assert a[k + 1] == a[1..][k];
      }
    }
  }

  lemma PairMeans(data: AppData, i: nat, j: nat)
    requires DistinctIds(data) && i < |data.stations| && j < |data.stations|
    ensures var s, t := data.stations[i], data.stations[j];
            if Shares(s, t)
            then exists n :: FirstShared(s, t, n) && |n| < MAX_ROUTE_LEN &&
                   PairLinks(Skeleton(data), s, t) == [Link(StationIx(data, i), StationIx(data, j), 8, n)]
            else PairLinks(Skeleton(data), s, t) == []
  {
    hide Skeleton, NodeIndex, DistinctIds, LineNamesOf;
    var s, t := data.stations[i], data.stations[j];
    var a, b := LineNamesOf(s.line), LineNamesOf(t.line);
    StationAt(data, i);
    StationAt(data, j);
    CommonMeans(a, b);
    CommonIsFirst(a, b);
    if Shares(s, t) {
      NamesShort(s.line);
      var n := Common(a, b).value;
      assert FirstShared(s, t, n) && |n| < MAX_ROUTE_LEN;
    }
  }

  lemma {:induction false} NamesShort(field: string)
    ensures forall n | n in LineNamesOf(field) :: |n| < MAX_ROUTE_LEN
    decreases |field|
  {
    hide IsBlank, IndexOf, LineNamesOf, Clean;
    LineNamesNext(field);
    var k := IndexOf(field, ',');
    CleanShort(field[..k]);
    if k < |field| { NamesShort(field[k + 1..]); }
  }

  lemma CleanShort(cell: string)
    ensures |Clean(cell)| < MAX_ROUTE_LEN
  {
    hide Trimmed;
    TrimmedShorter(SafeCopy(SkipBlanks(cell), TOKEN_SIZE));
  }

  /** Any two stations that share a line have a road of at most 8 minutes, the same in both directions, when the
      distance table gives none; whatever the routes name. */
  lemma LineRoadExists(data: AppData, i: nat, j: nat)
    requires DistinctIds(data) && NoRowApplies(data)
    requires i < j < |data.stations| && Shares(data.stations[i], data.stations[j])
    ensures var there, back := RoadAt(Built(data), StationIx(data, i), StationIx(data, j)),
                               RoadAt(Built(data), StationIx(data, j), StationIx(data, i));
            there == back && there.Some? && there.value.weight <= 8
  {
    hide Skeleton, Built, NodeIndex, DistinctIds, PairLinks, BusLinks, SubwayLinks, LineLinks, TransferLinks, RoadAt,
         LineNamesOf, Shares, NoRowApplies;
    PairMeans(data, i, j);
    StationAt(data, i);
    LinesUsed(data);
    var l := PairLinks(Skeleton(data), data.stations[i], data.stations[j])[0];
    LineLinksIff(Skeleton(data), data.stations, |data.stations|, l);
    assert l in AllLinks(Skeleton(data), data);
    LinkGivesRoad(data, l);
  }

  /** Where a link between two stations comes from, when the distance table gives none. */
  lemma LineLinkOnly(data: AppData, l: Link, i: nat, j: nat)
    requires DistinctIds(data) && NoRowApplies(data) && RoutesOfStops(data) && i < j < |data.stations|
    requires l in AllLinks(Skeleton(data), data)
    requires || (l.a == StationIx(data, i) && l.b == StationIx(data, j))
             || (l.a == StationIx(data, j) && l.b == StationIx(data, i))
    ensures l in PairLinks(Skeleton(data), data.stations[i], data.stations[j])
  {
    hide Skeleton, NodeIndex, DistinctIds, PairLinks, BusLinks, SubwayLinks, LineLinks, TransferLinks, LineNamesOf,
         Shares, NoRowApplies, RoutesOfStops, WalkLinked;
    LinesUsed(data);
    if l in BusLinks(Skeleton(data), data.routes) {
      BusLinkIsLow(data, l);
    } else if l in TransferLinks(Skeleton(data), data.stops, data.stations) {
      WalkEnds(data, l);
    } else {
      assert l in LineLinks(Skeleton(data), data.stations, |data.stations|);
      LineLinksIff(Skeleton(data), data.stations, |data.stations|, l);
      var a, b :| 0 <= a < b < |data.stations| && l in PairLinks(Skeleton(data), data.stations[a], data.stations[b]);
      PairMeans(data, a, b);
    }
  }

  /** Exactly which line roads there are: without rows that apply and without routes that name stations, two stations
      are joined if and only if they share a line, by a road of 8 minutes labelled with the first name of the earlier
      one that the later one has too. */
  lemma {:induction false} LineRoad(data: AppData, i: nat, j: nat)
    requires DistinctIds(data) && NoRowApplies(data) && RoutesOfStops(data) && i < j < |data.stations|
    ensures var road := RoadAt(Built(data), StationIx(data, i), StationIx(data, j));
            && road == RoadAt(Built(data), StationIx(data, j), StationIx(data, i))
            && (road.Some? <==> Shares(data.stations[i], data.stations[j]))
            && (road.Some? ==>
                  road.value.weight == 8 && FirstShared(data.stations[i], data.stations[j], road.value.route))
  {
    hide *;
    LineSymmetric(data, i, j);
    PairMeans(data, i, j);
    if Shares(data.stations[i], data.stations[j]) { LineRoadExists(data, i, j); }
    if RoadAt(Built(data), StationIx(data, i), StationIx(data, j)).Some? {
      var l := RoadHasLink(data, StationIx(data, i), StationIx(data, j));
      LineLinkOnly(data, l, i, j);
      assert Shares(data.stations[i], data.stations[j]);
      var n :| FirstShared(data.stations[i], data.stations[j], n) && |n| < MAX_ROUTE_LEN &&
        PairLinks(Skeleton(data), data.stations[i], data.stations[j])
        == [Link(StationIx(data, i), StationIx(data, j), 8, n)];
      assert l == Link(StationIx(data, i), StationIx(data, j), 8, n);
      EightMinutes(n);
    }
  }

  lemma EightMinutes(n: string)
    requires |n| < MAX_ROUTE_LEN
    ensures Max(8, 1) == 8 && SafeCopy(n, MAX_ROUTE_LEN) == n
  {}

  lemma LineSymmetric(data: AppData, i: nat, j: nat)
    requires DistinctIds(data) && i < |data.stations| && j < |data.stations|
    ensures RoadAt(Built(data), StationIx(data, i), StationIx(data, j))
         == RoadAt(Built(data), StationIx(data, j), StationIx(data, i))
  {
    DistinctSize(data);
    hide Built, RoadAt, DistinctIds;
    BuiltSymmetric(data);
  }

  // ---------------------------------------------------------------- the lightest link decides

  predicate Joins(l: Link, u: int, v: int) { (l.a == u && l.b == v) || (l.a == v && l.b == u) }

  /** The first of the lightest links between `u` and `v`, as a road. */
  function Lightest(links: seq<Link>, u: int, v: int): Option<Road> {
    if links == [] then None
    else
      var best, l := Lightest(links[..|links| - 1], u, v), links[|links| - 1];
      if Joins(l, u, v) && (best.None? || l.weight < best.value.weight)
      then Some(Road(l.weight, SafeCopy(l.route, MAX_ROUTE_LEN))) else best
  }

  /** Of two roads the lighter, and the first when they weigh the same. */
  function Lighter(a: Option<Road>, b: Option<Road>): Option<Road> {
    if b.Some? && (a.None? || b.value.weight < a.value.weight) then b else a
  }

  lemma {:induction false} LightestAppend(a: seq<Link>, b: seq<Link>, u: int, v: int)
    ensures Lightest(a + b, u, v) == Lighter(Lightest(a, u, v), Lightest(b, u, v))
  {
    if b == [] {
      assert a + b == a;
    } else {
      hide Joins, SafeCopy;
      LightestAppend(a, b[..|b| - 1], u, v);
      assert (a + b)[..|a + b| - 1] == a + b[..|b| - 1];
    }
  }

  lemma LightestOne(l: Link, u: int, v: int)
    ensures Lightest([l], u, v)
         == if Joins(l, u, v) then Some(Road(l.weight, SafeCopy(l.route, MAX_ROUTE_LEN))) else None
  {
    assert [l][..0] == [];
  }

  lemma {:induction false} LightestNone(links: seq<Link>, u: int, v: int)
    requires forall l | l in links :: !Joins(l, u, v)
    ensures Lightest(links, u, v) == None
  {
    hide Joins;
    if links != [] {
      assert links[|links| - 1] in links && forall l | l in links[..|links| - 1] :: l in links;
      LightestNone(links[..|links| - 1], u, v);
    }
  }

  lemma ConnectLink(h: seq<Node>, l: Link, u: int, v: int)
    requires ValidPair(|h|, u, v) && l.weight > 0
    ensures var h1 := Connect(h, l.a, l.b, l.weight, l.route);
            RoadAt(Connect(h1, l.b, l.a, l.weight, l.route), u, v)
            == Lighter(RoadAt(h, u, v), if Joins(l, u, v)
                                        then Some(Road(l.weight, SafeCopy(l.route, MAX_ROUTE_LEN))) else None)
  {
    hide RoadAt, Connect, SafeCopy;
    var h1 := Connect(h, l.a, l.b, l.weight, l.route);
    ConnectRoad(h, l.a, l.b, l.weight, l.route, u, v);
    ConnectRoad(h1, l.b, l.a, l.weight, l.route, u, v);
  }

  /** On a graph that starts without edges, linking both ways leaves the first of the lightest links of each pair. */
  lemma {:induction false} RoadIsLightest(g: seq<Node>, links: seq<Link>, u: int, v: int)
    requires (forall w | 0 <= w < |g| :: g[w].edges == []) && ValidPair(|g|, u, v)
    requires forall l | l in links :: l.weight > 0
    ensures RoadAt(ConnectAll(g, BothWays(links)), u, v) == Lightest(links, u, v)
  {
    if links == [] {
      assert BothWays(links) == [];
    } else {
      hide RoadAt, Connect, SafeCopy, Joins, BothWays, ConnectAll;
      var front, l := links[..|links| - 1], links[|links| - 1];
      assert links == front + [l] && l in links && forall m | m in front :: m in links;
      RoadIsLightest(g, front, u, v);
      HoldsStep(g, front, l);
      ConnectLink(ConnectAll(g, BothWays(front)), l, u, v);
      LightestAppend(front, [l], u, v);
      LightestOne(l, u, v);
    }
  }

  /** So every road of a built graph is the lightest of what its four sources give, the earlier one on ties. */
  lemma BuiltRoad(data: AppData, u: int, v: int)
    requires ValidPair(|Skeleton(data)|, u, v)
    ensures var g := Skeleton(data);
            var lines :=
              if SubwayLinks(g, data.distances) == [] then LineLinks(g, data.stations, |data.stations|) else [];
            RoadAt(Built(data), u, v)
            == Lighter(Lighter(Lighter(Lightest(BusLinks(g, data.routes), u, v),
                                       Lightest(SubwayLinks(g, data.distances), u, v)),
                               Lightest(lines, u, v)),
                       Lightest(TransferLinks(g, data.stops, data.stations), u, v))
  {
    hide Skeleton, RoadAt, Lightest, BusLinks, SubwayLinks, LineLinks, TransferLinks, ConnectAll, BothWays;
    var g := Skeleton(data);
    NoEdgesYet(data);
    forall l | l in AllLinks(g, data) ensures l.weight > 0 { LinkPositive(data, l); }
    RoadIsLightest(g, AllLinks(g, data), u, v);
    var bus, rows := BusLinks(g, data.routes), SubwayLinks(g, data.distances);
    var lines := if rows == [] then LineLinks(g, data.stations, |data.stations|) else [];
    LightestAppend(bus, rows, u, v);
    LightestAppend(bus + rows, lines, u, v);
    LightestAppend(bus + rows + lines, TransferLinks(g, data.stops, data.stations), u, v);
  }

  // ---------------------------------------------------------------- bus roads

  /** The id is that of node `v`. */
  lemma IdIs(data: AppData, id: string, v: nat)
    requires DistinctIds(data) && v < |AllIds(data)|
    ensures NodeIndex(Skeleton(data), id) == v <==> id == AllIds(data)[v]
  {
    hide Skeleton, NodeIndex, AllIds, DistinctIds;
    IndexIs(data, v);
    KnownMeans(data, id);
    NodeIndexMeans(Skeleton(data), id);
  }

  /** The two ids are those of `a` and `b`, in either order. */
  predicate Between(x: string, y: string, a: string, b: string) { (x == a && y == b) || (x == b && y == a) }

  lemma JoinsIds(data: AppData, x: string, y: string, l: Link, u: nat, v: nat)
    requires DistinctIds(data) && u < |AllIds(data)| && v < |AllIds(data)|
    requires l.a == NodeIndex(Skeleton(data), x) && l.b == NodeIndex(Skeleton(data), y)
    ensures Joins(l, u, v) <==> Between(x, y, AllIds(data)[u], AllIds(data)[v])
  {
    hide Skeleton, NodeIndex, AllIds, DistinctIds;
    IdIs(data, x, u);
    IdIs(data, x, v);
    IdIs(data, y, u);
    IdIs(data, y, v);
  }

  /** The route calls at `a` and `b` one right after the other. */
  ghost predicate Passes(r: Route, a: string, b: string) {
    exists k :: 0 < k < |r.stops| && Between(r.stops[k - 1].stopId, r.stops[k].stopId, a, b)
  }

  function RouteLink(g: seq<Node>, r: Route, k: nat): Link
    requires 0 < k < |r.stops|
  {
    Link(NodeIndex(g, r.stops[k - 1].stopId), NodeIndex(g, r.stops[k].stopId), BUS_MINUTES, r.no)
  }

  lemma {:induction false} LightestOfRoute(data: AppData, r: Route, n: nat, u: nat, v: nat)
    requires DistinctIds(data) && u < |AllIds(data)| && v < |AllIds(data)| && n <= |r.stops|
    ensures Lightest(RouteLinks(Skeleton(data), r.no, r.stops, n), u, v)
         == if exists k :: 0 < k < n &&
                 Between(r.stops[k - 1].stopId, r.stops[k].stopId, AllIds(data)[u], AllIds(data)[v])
            then Some(Road(5, r.no)) else None
  {
    hide Skeleton, NodeIndex, AllIds, DistinctIds, Joins, Between;
    if n >= 2 {
      LightestOfRoute(data, r, n - 1, u, v);
      var l := RouteLink(Skeleton(data), r, n - 1);
      JoinsIds(data, r.stops[n - 2].stopId, r.stops[n - 1].stopId, l, u, v);
      LightestAppend(RouteLinks(Skeleton(data), r.no, r.stops, n - 1), [l], u, v);
      LightestOne(l, u, v);
    }
  }

  lemma RouteLightest(data: AppData, r: Route, u: nat, v: nat)
    requires DistinctIds(data) && u < |AllIds(data)| && v < |AllIds(data)|
    ensures Lightest(RouteLinks(Skeleton(data), r.no, r.stops, |r.stops|), u, v)
         == if Passes(r, AllIds(data)[u], AllIds(data)[v]) then Some(Road(5, r.no)) else None
  {
    hide Skeleton, AllIds, DistinctIds, Between, Lightest;
    LightestOfRoute(data, r, |r.stops|, u, v);
  }

  /** Route `i` is the first that passes between the two. */
  ghost predicate FirstPass(routes: seq<Route>, i: int, a: string, b: string) {
    0 <= i < |routes| && Passes(routes[i], a, b) && forall m | 0 <= m < i :: !Passes(routes[m], a, b)
  }

  /** What the routes give two nodes: five minutes by the first route between them. */
  ghost predicate BusGives(road: Option<Road>, routes: seq<Route>, a: string, b: string) {
    && (road.None? <==> forall i | 0 <= i < |routes| :: !Passes(routes[i], a, b))
    && (road.Some? ==> road.value.weight == 5)
    && (road.Some? ==> exists i :: FirstPass(routes, i, a, b) && road.value.route == routes[i].no)
  }

  lemma BusGivesNext(road: Option<Road>, front: seq<Route>, r: Route, a: string, b: string)
    requires BusGives(road, front, a, b)
    ensures BusGives(Lighter(road, if Passes(r, a, b) then Some(Road(5, r.no)) else None), front + [r], a, b)
  {
    hide Passes;
    var all := front + [r];
    assert forall i | 0 <= i < |front| :: all[i] == front[i];
    if road.Some? {
      var i :| FirstPass(front, i, a, b) && road.value.route == front[i].no;
      assert FirstPass(all, i, a, b);
    } else if Passes(r, a, b) {
      assert FirstPass(all, |front|, a, b);
    }
  }

  lemma NoRoutes(a: string, b: string)
    ensures BusGives(None, [], a, b)
  {}

  lemma {:induction false} BusLightest(data: AppData, routes: seq<Route>, u: nat, v: nat)
    requires DistinctIds(data) && u < |AllIds(data)| && v < |AllIds(data)|
    ensures BusGives(Lightest(BusLinks(Skeleton(data), routes), u, v), routes, AllIds(data)[u], AllIds(data)[v])
  {
    hide Skeleton, AllIds, DistinctIds, RouteLinks, BusGives, Passes;
    if routes == [] {
      NoRoutes(AllIds(data)[u], AllIds(data)[v]);
    } else {
      var front, r := routes[..|routes| - 1], routes[|routes| - 1];
      assert routes == front + [r];
      BusLightest(data, front, u, v);
      RouteLightest(data, r, u, v);
      LightestAppend(BusLinks(Skeleton(data), front), RouteLinks(Skeleton(data), r.no, r.stops, |r.stops|), u, v);
      BusGivesNext(Lightest(BusLinks(Skeleton(data), front), u, v), front, r, AllIds(data)[u], AllIds(data)[v]);
    }
  }

  /** No row of the distance table names a stop. */
  ghost predicate RowsOfStations(data: AppData) {
    forall d, s | d in data.distances && s in data.stops :: s.id != d.from && s.id != d.to
  }

  lemma RowLinkIsHigh(data: AppData, l: Link)
    requires DistinctIds(data) && RowsOfStations(data) && l in SubwayLinks(Skeleton(data), data.distances)
    ensures l.a < 0 || l.a >= |data.stops|
  {
    hide Skeleton, NodeIndex, DistinctIds, SubwayLinks;
    SubwayLinksMember(Skeleton(data), data.distances, l);
    var d :| d in data.distances && l == DistanceLink(Skeleton(data), d);
    IndexKind(data, d.from);
  }

  lemma LineLinkIsHigh(data: AppData, l: Link)
    requires DistinctIds(data) && l in LineLinks(Skeleton(data), data.stations, |data.stations|)
    ensures l.a >= |data.stops| && l.b >= |data.stops|
  {
    hide Skeleton, NodeIndex, DistinctIds, LineLinks, PairLinks, Shares;
    LineLinksIff(Skeleton(data), data.stations, |data.stations|, l);
    var a, b :| 0 <= a < b < |data.stations| && l in PairLinks(Skeleton(data), data.stations[a], data.stations[b]);
    PairMeans(data, a, b);
  }

  lemma LinesAreHigh(data: AppData, u: nat, v: nat)
    requires DistinctIds(data) && u < |data.stops| && v < |data.stops|
    ensures Lightest(LineLinks(Skeleton(data), data.stations, |data.stations|), u, v) == None
  {
    hide Skeleton, LineLinks, Lightest, DistinctIds;
    var lines := LineLinks(Skeleton(data), data.stations, |data.stations|);
    forall l | l in lines ensures !Joins(l, u, v) { LineLinkIsHigh(data, l); }
    LightestNone(lines, u, v);
  }

  lemma RowsAreHigh(data: AppData, u: nat, v: nat)
    requires DistinctIds(data) && RowsOfStations(data) && u < |data.stops| && v < |data.stops|
    ensures Lightest(SubwayLinks(Skeleton(data), data.distances), u, v) == None
  {
    hide Skeleton, SubwayLinks, Lightest, DistinctIds, RowsOfStations;
    var rows := SubwayLinks(Skeleton(data), data.distances);
    forall l | l in rows ensures !Joins(l, u, v) { RowLinkIsHigh(data, l); }
    LightestNone(rows, u, v);
  }

  lemma WalksAreMixed(data: AppData, u: nat, v: nat)
    requires DistinctIds(data) && (u < |data.stops| <==> v < |data.stops|)
    ensures Lightest(TransferLinks(Skeleton(data), data.stops, data.stations), u, v) == None
  {
    hide Skeleton, TransferLinks, Lightest, DistinctIds;
    var walks := TransferLinks(Skeleton(data), data.stops, data.stations);
    forall l | l in walks ensures !Joins(l, u, v) { WalkIsMixed(data, l); }
    LightestNone(walks, u, v);
  }

  lemma WalkIsMixed(data: AppData, l: Link)
    requires DistinctIds(data) && l in TransferLinks(Skeleton(data), data.stops, data.stations)
    ensures 0 <= l.a < |data.stops| <= l.b
  {
    hide Skeleton, NodeIndex, DistinctIds, TransferLinks, WalkLinked, Apart, TransferMinutes;
    TransferLinksMember(Skeleton(data), data.stops, data.stations, l);
    var i, j :| 0 <= i < |data.stops| && 0 <= j < |data.stations| && WalkLinked(data.stops[i], data.stations, j) &&
      l == WalkLink(Skeleton(data), data.stops[i], data.stations[j]);
    StopAtIx(data, i);
    StationAt(data, j);
  }

  /** Exactly which bus roads there are, when no distance row names a stop: two stops are joined if and only if some
      route calls at both one right after the other, in five minutes under the number of the first such route. */
  lemma {:induction false} BusRoad(data: AppData, u: nat, v: nat)
    requires DistinctIds(data) && RowsOfStations(data) && u < |data.stops| && v < |data.stops| && u != v
    ensures BusGives(RoadAt(Built(data), u, v), data.routes, data.stops[u].id, data.stops[v].id)
  {
    hide *;
    DistinctSize(data);
    BuiltLength(data);
    PairIsValid(|Skeleton(data)|, u, v);
    BuiltRoad(data, u, v);
    BusLightest(data, data.routes, u, v);
    RowsAreHigh(data, u, v);
    LinesAreHigh(data, u, v);
    WalksAreMixed(data, u, v);
    LightestNone([], u, v);
    LighterNone(Lightest(BusLinks(Skeleton(data), data.routes), u, v));
  }

  lemma PairIsValid(n: nat, u: nat, v: nat)
    requires u < n && v < n && u != v
    ensures ValidPair(n, u, v)
  {}

  lemma LighterNone(a: Option<Road>)
    ensures Lighter(a, None) == a && Lighter(None, a) == a
  {}

  // ---------------------------------------------------------------- roads of the distance table

  /** What a row says, for the stations with the given ids. */
  predicate RowFor(d: Distance, a: string, b: string) { Between(d.from, d.to, a, b) }

  function RowMinutes(d: Distance): int { if d.minutes > 0 then d.minutes else SubwayMinutes(d.km) }

  function RowLabel(d: Distance): string { if IsBlank(d.line) then "SUBWAY" else d.line }

  /** Row `k` is the first of the quickest rows for the two. */
  ghost predicate FirstQuickest(ds: seq<Distance>, k: int, a: string, b: string) {
    && 0 <= k < |ds| && RowFor(ds[k], a, b)
    && forall m | 0 <= m < |ds| && RowFor(ds[m], a, b) ::
         RowMinutes(ds[k]) <= RowMinutes(ds[m]) && (m < k ==> RowMinutes(ds[k]) < RowMinutes(ds[m]))
  }

  /** What the rows give two nodes: the minutes and the label of the first of the quickest rows for them. */
  ghost predicate RowsGive(road: Option<Road>, ds: seq<Distance>, a: string, b: string) {
    && (road.None? <==> forall k | 0 <= k < |ds| :: !RowFor(ds[k], a, b))
    && (road.Some? ==>
          exists k :: FirstQuickest(ds, k, a, b) && road.value == Road(RowMinutes(ds[k]), RowLabel(ds[k])))
  }

  lemma RowsGiveNext(road: Option<Road>, front: seq<Distance>, d: Distance, a: string, b: string)
    requires RowsGive(road, front, a, b)
    ensures var better := Lighter(road, if RowFor(d, a, b) then Some(Road(RowMinutes(d), RowLabel(d))) else None);
            RowsGive(better, front + [d], a, b)
  {
    hide RowFor, RowMinutes, RowLabel;
    var all := front + [d];
    assert forall i | 0 <= i < |front| :: all[i] == front[i];
    if road.Some? {
      var k :| FirstQuickest(front, k, a, b) && road.value == Road(RowMinutes(front[k]), RowLabel(front[k]));
      if RowFor(d, a, b) && RowMinutes(d) < RowMinutes(front[k]) {
        assert FirstQuickest(all, |front|, a, b);
      } else {
        assert FirstQuickest(all, k, a, b);
      }
    } else if RowFor(d, a, b) {
      assert FirstQuickest(all, |front|, a, b);
    }
  }

  lemma NoRows(a: string, b: string)
    ensures RowsGive(None, [], a, b)
  {}

  lemma RowLightest(data: AppData, d: Distance, u: nat, v: nat)
    requires DistinctIds(data) && u < |AllIds(data)| && v < |AllIds(data)|
    ensures Lightest(RowLinks(Skeleton(data), d), u, v)
         == if RowFor(d, AllIds(data)[u], AllIds(data)[v]) then Some(Road(RowMinutes(d), RowLabel(d))) else None
  {
    hide Skeleton, NodeIndex, AllIds, DistinctIds, Between, SubwayMinutes, IsBlank;
    var l := DistanceLink(Skeleton(data), d);
    JoinsIds(data, d.from, d.to, l, u, v);
    LightestOne(l, u, v);
    assert SafeCopy(l.route, MAX_ROUTE_LEN) == RowLabel(d);
  }

  lemma {:induction false} RowsLightest(data: AppData, ds: seq<Distance>, u: nat, v: nat)
    requires DistinctIds(data) && u < |AllIds(data)| && v < |AllIds(data)|
    ensures RowsGive(Lightest(SubwayLinks(Skeleton(data), ds), u, v), ds, AllIds(data)[u], AllIds(data)[v])
  {
    hide Skeleton, AllIds, DistinctIds, RowLinks, RowsGive, RowFor, RowMinutes, RowLabel;
    if ds == [] {
      NoRows(AllIds(data)[u], AllIds(data)[v]);
    } else {
      var front, d := ds[..|ds| - 1], ds[|ds| - 1];
      assert ds == front + [d];
      RowsLightest(data, front, u, v);
      RowLightest(data, d, u, v);
      LightestAppend(SubwayLinks(Skeleton(data), front), RowLinks(Skeleton(data), d), u, v);
      RowsGiveNext(Lightest(SubwayLinks(Skeleton(data), front), u, v), front, d, AllIds(data)[u], AllIds(data)[v]);
    }
  }

  lemma BusesAreLow(data: AppData, u: nat, v: nat)
    requires DistinctIds(data) && RoutesOfStops(data) && u >= |data.stops| && v >= |data.stops|
    ensures Lightest(BusLinks(Skeleton(data), data.routes), u, v) == None
  {
    hide Skeleton, BusLinks, Lightest, DistinctIds, RoutesOfStops;
    var buses := BusLinks(Skeleton(data), data.routes);
    forall l | l in buses ensures !Joins(l, u, v) { BusLinkIsLow(data, l); }
    LightestNone(buses, u, v);
  }

  lemma {:induction false} SomeRowLinks(data: AppData, ds: seq<Distance>, d: Distance)
    requires DistinctIds(data) && d in ds && Known(data, d.from) && Known(data, d.to)
    ensures SubwayLinks(Skeleton(data), ds) != []
  {
    hide Skeleton, NodeIndex, DistinctIds, Known, SubwayMinutes, IsBlank;
    if d == ds[|ds| - 1] {
      KnownMeans(data, d.from);
      KnownMeans(data, d.to);
    } else {
      SomeRowLinks(data, ds[..|ds| - 1], d);
    }
  }

  lemma StationIxIs(data: AppData, i: nat)
    ensures StationIx(data, i) == |data.stops| + i
  {}

  lemma StationIds(data: AppData, i: nat)
    requires i < |data.stations|
    ensures AllIds(data)[StationIx(data, i)] == data.stations[i].id
  {}

  /** Exactly which roads the distance table gives, when some row names two known ids and no route stop a station: two
      stations are joined if and only if a row names them, in either order, with the minutes and the label of the
      first of the quickest such rows; shared lines then give nothing. */
  lemma {:induction false} TableRoad(data: AppData, i: nat, j: nat)
    requires DistinctIds(data) && !NoRowApplies(data) && RoutesOfStops(data)
    requires i < |data.stations| && j < |data.stations| && i != j
    ensures RowsGive(RoadAt(Built(data), StationIx(data, i), StationIx(data, j)), data.distances,
                     data.stations[i].id, data.stations[j].id)
  {
    hide *;
    var u, v := StationIx(data, i), StationIx(data, j);
    StationIxIs(data, i);
    StationIxIs(data, j);
    DistinctSize(data);
    BuiltLength(data);
    PairIsValid(|Skeleton(data)|, u, v);
    BuiltRoad(data, u, v);
    StationIds(data, i);
    StationIds(data, j);
    RowsLightest(data, data.distances, u, v);
    BusesAreLow(data, u, v);
    RowsThere(data);
    WalksAreMixed(data, u, v);
    LightestNone([], u, v);
    LighterNone(Lightest(SubwayLinks(Skeleton(data), data.distances), u, v));
  }

  lemma RowsThere(data: AppData)
    requires DistinctIds(data) && !NoRowApplies(data)
    ensures SubwayLinks(Skeleton(data), data.distances) != []
  {
    hide Known, SubwayLinks, DistinctIds, Skeleton;
    var d :| d in data.distances && Known(data, d.from) && Known(data, d.to);
    SomeRowLinks(data, data.distances, d);
  }
}
