/** What every graph the loader builds has in common, whatever the data. */
module LoaderFacts {
  import opened Basics
  import opened Text
  import opened Graph
  import opened Walks
  import opened Proposals
  import opened ShortestPath
  import opened LineNames
  import opened Loader
  import opened Transfers

  // ---------------------------------------------------------------- nodes

  lemma {:induction false} NoEdgesYet(data: AppData)
    ensures forall v | 0 <= v < |Skeleton(data)| :: Skeleton(data)[v].edges == []
    ensures WellFormed(Skeleton(data))
    ensures forall v | 0 <= v < |Skeleton(data)| ::
              Skeleton(data)[v].kind == BUS_STOP || Skeleton(data)[v].kind == SUBWAY_STATION
  {
    StopsPlain(data.stops);
    StationsPlain(StopNodes(data.stops), data.stations);
    EmptyWellFormed(Skeleton(data));
  }

  ghost predicate Plain(g: seq<Node>) {
    forall v | 0 <= v < |g| :: g[v].edges == [] && (g[v].kind == BUS_STOP || g[v].kind == SUBWAY_STATION)
  }

  lemma {:induction false} StopsPlain(stops: seq<Stop>)
    ensures Plain(StopNodes(stops))
  {
    if stops != [] { StopsPlain(stops[..|stops| - 1]); }
  }

  lemma {:induction false} StationsPlain(g: seq<Node>, ss: seq<Station>)
    requires Plain(g)
    ensures Plain(StationNodes(g, ss))
  {
    if ss != [] { StationsPlain(g, ss[..|ss| - 1]); }
  }

  /** The kind of a node, which adding edges does not touch. */
  lemma BuiltNode(data: AppData, v: nat)
    requires v < |Skeleton(data)|
    ensures |Built(data)| == |Skeleton(data)|
    ensures Built(data)[v] == Skeleton(data)[v].(edges := Built(data)[v].edges)
  {
    ConnectAllKeepsNodes(Skeleton(data), BothWays(AllLinks(Skeleton(data), data)), v);
  }

  lemma BuiltWellFormed(data: AppData)
    ensures WellFormed(Built(data))
  {
    NoEdgesYet(data);
    ConnectAllWellFormed(Skeleton(data), BothWays(AllLinks(Skeleton(data), data)));
  }

  // ---------------------------------------------------------------- both directions alike

  lemma {:induction false} LinksSymmetric(g: seq<Node>, links: seq<Link>)
    requires forall v | 0 <= v < |g| :: g[v].edges == []
    ensures Symmetric(ConnectAll(g, BothWays(links)))
  {
    if links == [] {
      assert BothWays(links) == [];
    } else {
      var front, l := links[..|links| - 1], links[|links| - 1];
      assert links == front + [l];
      LinksSymmetric(g, front);
      HoldsStep(g, front, l);
      var h := ConnectAll(g, BothWays(front));
      var h1 := Connect(h, l.a, l.b, l.weight, l.route);
      forall i, j | 0 <= i < |g| && 0 <= j < |g|
        ensures RoadAt(Connect(h1, l.b, l.a, l.weight, l.route), i, j)
                  == RoadAt(Connect(h1, l.b, l.a, l.weight, l.route), j, i)
      {
        ConnectRoad(h1, l.b, l.a, l.weight, l.route, i, j);
        ConnectRoad(h1, l.b, l.a, l.weight, l.route, j, i);
        ConnectRoad(h, l.a, l.b, l.weight, l.route, i, j);
        ConnectRoad(h, l.a, l.b, l.weight, l.route, j, i);
        assert RoadAt(h, i, j) == RoadAt(h, j, i);
      }
    }
  }

  /** Every built graph is symmetric in weight and label. */
  lemma BuiltSymmetric(data: AppData)
    ensures Symmetric(Built(data))
  {
    NoEdgesYet(data);
    LinksSymmetric(Skeleton(data), AllLinks(Skeleton(data), data));
  }

  /** Asking for the way there and the way back gives the same total, whenever both are answered. */
  lemma SameTotalBothWays(data: AppData, s: int, t: int, there: GraphPath, back: GraphPath)
    requires Reports(Built(data), s, t, there) && Reports(Built(data), t, s, back)
    ensures there.total == back.total
  {
    BuiltSymmetric(data);
    SymmetricTotals(Built(data), there.indices, back.indices, s, t);
  }

  // ---------------------------------------------------------------- which links there are

  lemma {:induction false} DirectedMember(links: seq<Link>, p: Proposal)
    ensures p in BothWays(links) <==> exists l :: l in links && p in Directed(l)
  {
    if links != [] {
      DirectedMember(links[..|links| - 1], p);
      assert links == links[..|links| - 1] + [links[|links| - 1]];
    }
  }

  lemma {:induction false} BusLinksMember(g: seq<Node>, routes: seq<Route>, l: Link)
    requires l in BusLinks(g, routes)
    ensures exists r, k :: r in routes && 0 < k < |r.stops| &&
              l == Link(NodeIndex(g, r.stops[k - 1].stopId), NodeIndex(g, r.stops[k].stopId), BUS_MINUTES, r.no)
  {
    var r := routes[|routes| - 1];
    if l in BusLinks(g, routes[..|routes| - 1]) {
      BusLinksMember(g, routes[..|routes| - 1], l);
    } else {
      RouteLinksMember(g, r, |r.stops|, l);
    }
  }

  lemma {:induction false} RouteLinksMember(g: seq<Node>, r: Route, n: nat, l: Link)
    requires n <= |r.stops|
    ensures l in RouteLinks(g, r.no, r.stops, n) <==>
            exists k :: 0 < k < n &&
              l == Link(NodeIndex(g, r.stops[k - 1].stopId), NodeIndex(g, r.stops[k].stopId), BUS_MINUTES, r.no)
  {
    if n >= 2 { RouteLinksMember(g, r, n - 1, l); }
  }

  lemma {:induction false} SubwayLinksMember(g: seq<Node>, ds: seq<Distance>, l: Link)
    requires l in SubwayLinks(g, ds)
    ensures exists d :: d in ds && l == DistanceLink(g, d)
  {
    var d := ds[|ds| - 1];
    if l in RowLinks(g, d) {
      assert d in ds && l == DistanceLink(g, d);
    } else {
      SubwayLinksMember(g, ds[..|ds| - 1], l);
    }
  }

  lemma {:induction false} LineLinksMember(g: seq<Node>, ss: seq<Station>, i: nat, l: Link)
    requires i <= |ss| && l in LineLinks(g, ss, i)
    ensures exists s, t :: s in ss && t in ss && l in PairLinks(g, s, t)
  {
    hide PairLinks, LineLinksFrom;
    if l in LineLinks(g, ss, i - 1) {
      LineLinksMember(g, ss, i - 1, l);
    } else {
      LineLinksFromMember(g, ss, i - 1, |ss|, l);
    }
  }

  lemma {:induction false} LineLinksFromMember(g: seq<Node>, ss: seq<Station>, i: nat, n: nat, l: Link)
    requires i < n <= |ss| && l in LineLinksFrom(g, ss, i, n)
    ensures exists s, t :: s in ss && t in ss && l in PairLinks(g, s, t)
  {
    hide PairLinks;
    if l in PairLinks(g, ss[i], ss[n - 1]) {
      assert ss[i] in ss && ss[n - 1] in ss;
    } else {
      LineLinksFromMember(g, ss, i, n - 1, l);
    }
  }

  /** The stations a stop is linked to on foot: those within reach, or else the nearest one. */
  ghost predicate WalkLinked(stop: Stop, ss: seq<Station>, j: nat)
    requires j < |ss|
  {
    && HasCoordinates(stop.lat, stop.lng) && Located(ss[j])
    && (if exists m :: 0 <= m < |ss| && Located(ss[m]) && Apart(stop, ss[m]) <= WALKABLE
        then Apart(stop, ss[j]) <= WALKABLE
        else FirstNearest(stop, ss, j))
  }

  /** Station `j` is nearer than FAR, no located station is nearer still, and none before it is as near. */
  ghost predicate FirstNearest(stop: Stop, ss: seq<Station>, j: nat)
    requires j < |ss|
  {
    && Located(ss[j]) && Apart(stop, ss[j]) < FAR
    && forall m | 0 <= m < |ss| && Located(ss[m]) ::
         Apart(stop, ss[j]) <= Apart(stop, ss[m]) && (m < j ==> Apart(stop, ss[j]) < Apart(stop, ss[m]))
  }

  lemma {:induction false} NearestStationMeans(stop: Stop, ss: seq<Station>)
    ensures var k := NearestStation(stop, ss);
            if k >= 0 then FirstNearest(stop, ss, k)
            else forall m | 0 <= m < |ss| && Located(ss[m]) :: Apart(stop, ss[m]) >= FAR
  {
    if ss != [] {
      NearestStationMeans(stop, ss[..|ss| - 1]);
      assert forall m | 0 <= m < |ss| - 1 :: ss[..|ss| - 1][m] == ss[m];
    }
  }

  lemma {:induction false} NearLinksMember(g: seq<Node>, stop: Stop, ss: seq<Station>, l: Link)
    ensures l in NearLinks(g, stop, ss) <==>
            exists j :: 0 <= j < |ss| && Located(ss[j]) && Apart(stop, ss[j]) <= WALKABLE &&
                        l == WalkLink(g, stop, ss[j])
  {
    if ss != [] {
      var n := |ss| - 1;
      NearLinksMember(g, stop, ss[..n], l);
      assert forall j | 0 <= j < n :: ss[..n][j] == ss[j];
      assert l in NearLinks(g, stop, ss) <==> l in NearLinks(g, stop, ss[..n]) || l in NearLink(g, stop, ss[n]);
    }
  }

  lemma {:induction false} StopLinksMember(g: seq<Node>, stop: Stop, ss: seq<Station>, l: Link)
    ensures l in StopLinks(g, stop, ss) <==>
            exists j :: 0 <= j < |ss| && WalkLinked(stop, ss, j) && l == WalkLink(g, stop, ss[j])
  {
    if HasCoordinates(stop.lat, stop.lng) {
      NearestStationMeans(stop, ss);
      NearLinksMember(g, stop, ss, l);
      var near := NearLinks(g, stop, ss);
      if near == [] {
        forall m | 0 <= m < |ss| && Located(ss[m]) && Apart(stop, ss[m]) <= WALKABLE ensures false {
          NearLinksMember(g, stop, ss, WalkLink(g, stop, ss[m]));
        }
      } else {
        NearLinksMember(g, stop, ss, near[0]);
      }
    }
  }

  lemma {:induction false} TransferLinksMember(g: seq<Node>, stops: seq<Stop>, ss: seq<Station>, l: Link)
    ensures l in TransferLinks(g, stops, ss) <==>
            exists i, j :: 0 <= i < |stops| && 0 <= j < |ss| && WalkLinked(stops[i], ss, j) &&
                           l == WalkLink(g, stops[i], ss[j])
  {
    hide StopLinks, WalkLinked, WalkLink;
    if stops != [] {
      var n := |stops| - 1;
      TransferLinksMember(g, stops[..n], ss, l);
      StopLinksMember(g, stops[n], ss, l);
      assert forall i | 0 <= i < n :: stops[..n][i] == stops[i];
    }
  }

  // ---------------------------------------------------------------- data with distinct ids

  /** The node ids of the data, stops before stations. */
  function AllIds(data: AppData): (ids: seq<string>)
    ensures |ids| == |data.stops| + |data.stations|
    ensures forall i | 0 <= i < |data.stops| :: ids[i] == data.stops[i].id
    ensures forall j | 0 <= j < |data.stations| :: ids[|data.stops| + j] == data.stations[j].id
  {
    seq(|data.stops|, i requires 0 <= i < |data.stops| => data.stops[i].id)
    + seq(|data.stations|, j requires 0 <= j < |data.stations| => data.stations[j].id)
  }

  ghost predicate DistinctIds(data: AppData) { Distinct(AllIds(data)) }

  lemma {:induction false} StopNodesAre(stops: seq<Stop>)
    requires forall i, j | 0 <= i < j < |stops| :: stops[i].id != stops[j].id
    ensures |StopNodes(stops)| == |stops| && forall i | 0 <= i < |stops| :: StopNodes(stops)[i] == StopNode(stops[i])
  {
    hide NodeIndex;
    if stops != [] {
      var n := |stops| - 1;
      StopNodesAre(stops[..n]);
      assert forall i | 0 <= i < n :: StopNodes(stops[..n])[i].id == stops[i].id;
      NodeIndexIs(StopNodes(stops[..n]), stops[n].id, -1);
    }
  }

  lemma {:induction false} StationNodesAre(g: seq<Node>, ss: seq<Station>)
    requires forall i, j | 0 <= i < j < |ss| :: ss[i].id != ss[j].id
    requires forall i, j | 0 <= i < |g| && 0 <= j < |ss| :: g[i].id != ss[j].id
    ensures |StationNodes(g, ss)| == |g| + |ss|
    ensures forall i | 0 <= i < |g| :: StationNodes(g, ss)[i] == g[i]
    ensures forall j | 0 <= j < |ss| :: StationNodes(g, ss)[|g| + j] == StationNode(ss[j])
  {
    hide NodeIndex;
    if ss != [] {
      var n := |ss| - 1;
      var h := StationNodes(g, ss[..n]);
      StationNodesAre(g, ss[..n]);
      forall i | 0 <= i < |h| ensures h[i].id != ss[n].id {
        if i >= |g| { assert h[|g| + (i - |g|)] == StationNode(ss[i - |g|]); }
      }
      NodeIndexIs(h, ss[n].id, -1);
    }
  }

  /** With distinct ids, stop `i` is node `i` and station `j` follows all stops. */
  lemma SkeletonIs(data: AppData)
    requires DistinctIds(data)
    ensures |Skeleton(data)| == |data.stops| + |data.stations|
    ensures forall i | 0 <= i < |data.stops| :: Skeleton(data)[i] == StopNode(data.stops[i])
    ensures forall j | 0 <= j < |data.stations| :: Skeleton(data)[|data.stops| + j] == StationNode(data.stations[j])
    ensures forall v | 0 <= v < |Skeleton(data)| :: Skeleton(data)[v].id == AllIds(data)[v]
  {
    hide StopNodes, StationNodes, AllIds;
    var ids := AllIds(data);
    forall i, j | 0 <= i < j < |data.stops| ensures data.stops[i].id != data.stops[j].id { assert ids[i] != ids[j]; }
    StopNodesAre(data.stops);
    var ns := |data.stops|;
    forall i, j | 0 <= i < j < |data.stations|
        ensures data.stations[i].id != data.stations[j].id { assert ids[ns + i] != ids[ns + j]; }
    forall i, j | 0 <= i < ns && 0 <= j < |data.stations|
        ensures data.stops[i].id != data.stations[j].id { assert ids[i] != ids[ns + j]; }
    StationNodesAre(StopNodes(data.stops), data.stations);
    forall v | 0 <= v < |Skeleton(data)| ensures Skeleton(data)[v].id == ids[v] {
      if v >= ns { assert Skeleton(data)[ns + (v - ns)] == StationNode(data.stations[v - ns]); }
    }
  }

  /** An id leads to the one place that carries it. */
  lemma IndexIs(data: AppData, v: nat)
    requires DistinctIds(data) && v < |AllIds(data)|
    ensures NodeIndex(Skeleton(data), AllIds(data)[v]) == v
  {
    SkeletonIs(data);
    NodeIndexIs(Skeleton(data), AllIds(data)[v], v);
  }

  // ---------------------------------------------------------------- modes of travel

  /** Data in which no route stop names a station and no distance row a stop. */
  ghost predicate Separated(data: AppData) {
    && DistinctIds(data)
    && (forall r, x, s | r in data.routes && x in r.stops && s in data.stations :: s.id != x.stopId)
    && (forall d, s | d in data.distances && s in data.stops :: s.id != d.from && s.id != d.to)
  }

  /** Data in which moreover no route or line poses as a transfer. */
  ghost predicate Tidy(data: AppData) {
    && Separated(data)
    && (forall r | r in data.routes :: r.no != TRANSFER)
    && (forall d | d in data.distances :: d.line != TRANSFER)
    && (forall s | s in data.stations :: TRANSFER !in LineNamesOf(s.line))
  }

  lemma IndexKind(data: AppData, id: string)
    requires DistinctIds(data)
    ensures var v := NodeIndex(Skeleton(data), id);
            -1 <= v < |Skeleton(data)| && (v >= 0 ==>
            && ((forall s | s in data.stations :: s.id != id) ==>
                 v < |data.stops| && Skeleton(data)[v].kind == BUS_STOP)
            && ((forall s | s in data.stops :: s.id != id) ==>
                 v >= |data.stops| && Skeleton(data)[v].kind == SUBWAY_STATION))
  {
    hide Skeleton, NodeIndex, AllIds, DistinctIds;
    var g, ns := Skeleton(data), |data.stops|;
    var v := NodeIndex(g, id);
    NodeIndexMeans(g, id);
    SkeletonIs(data);
    if v >= ns { assert g[ns + (v - ns)] == StationNode(data.stations[v - ns]); }
  }

  /** A link keeps to one kind of node unless it leads from a stop to a station on foot. */
  lemma LinkEnds(data: AppData, l: Link)
    requires Separated(data) && l in AllLinks(Skeleton(data), data)
    ensures var g := Skeleton(data); l.a < |g| && l.b < |g|
    ensures var g := Skeleton(data);
            l.a >= 0 && l.b >= 0 ==> l in TransferLinks(g, data.stops, data.stations) || g[l.a].kind == g[l.b].kind
  {
    hide NodeIndex, BusLinks, SubwayLinks, LineLinks, TransferLinks, Skeleton, DistinctIds;
    var g := Skeleton(data);
    if l in BusLinks(g, data.routes) {
      BusLinksMember(g, data.routes, l);
      var r, k :| r in data.routes && 0 < k < |r.stops|
                  && l == Link(NodeIndex(g, r.stops[k - 1].stopId), NodeIndex(g, r.stops[k].stopId), BUS_MINUTES, r.no);
      assert r.stops[k - 1] in r.stops && r.stops[k] in r.stops;
      IndexKind(data, r.stops[k - 1].stopId);
      IndexKind(data, r.stops[k].stopId);
    } else if l in SubwayLinks(g, data.distances) {
      SubwayLinksMember(g, data.distances, l);
      var d :| d in data.distances && l == DistanceLink(g, d);
      IndexKind(data, d.from);
      IndexKind(data, d.to);
    } else if l in TransferLinks(g, data.stops, data.stations) {
      WalkEnds(data, l);
    } else {
      assert l in LineLinks(g, data.stations, |data.stations|);
      LineEnds(data, l);
    }
  }

  /** Only walks are labelled TRANSFER. */
  lemma LinkLabel(data: AppData, l: Link)
    requires Tidy(data) && l in AllLinks(Skeleton(data), data)
    ensures l.route == TRANSFER <==> l in TransferLinks(Skeleton(data), data.stops, data.stations)
  {
    hide NodeIndex, BusLinks, SubwayLinks, LineLinks, TransferLinks, Skeleton, DistinctIds, WalkLinked, LineNamesOf;
    var g := Skeleton(data);
    TransferLinksMember(g, data.stops, data.stations, l);
    if l in BusLinks(g, data.routes) {
      BusLinksMember(g, data.routes, l);
    } else if l in SubwayLinks(g, data.distances) {
      SubwayLinksMember(g, data.distances, l);
    } else if l !in TransferLinks(g, data.stops, data.stations) {
      LineLinksMember(g, data.stations, |data.stations|, l);
      var s, t :| s in data.stations && t in data.stations && l in PairLinks(g, s, t);
      CommonMeans(LineNamesOf(s.line), LineNamesOf(t.line));
    }
  }

  /** A ride link keeps to one kind of node; a transfer link leads from a stop to a station. */
  lemma LinkKind(data: AppData, l: Link)
    requires Tidy(data) && l in AllLinks(Skeleton(data), data)
    ensures var g := Skeleton(data); l.a < |g| && l.b < |g|
    ensures var g := Skeleton(data); l.a >= 0 && l.b >= 0 ==> (l.route == TRANSFER <==> g[l.a].kind != g[l.b].kind)
  {
    hide AllLinks, TransferLinks, Skeleton, DistinctIds;
    LinkEnds(data, l);
    LinkLabel(data, l);
    if l.route == TRANSFER { WalkEnds(data, l); }
  }

  lemma StationKind(data: AppData, s: Station)
    requires DistinctIds(data) && s in data.stations
    ensures var v := NodeIndex(Skeleton(data), s.id);
            |data.stops| <= v < |Skeleton(data)| == |data.stops| + |data.stations|
                && Skeleton(data)[v].kind == SUBWAY_STATION
            && data.stations[v - |data.stops|] == s
  {
    hide Skeleton, NodeIndex, AllIds, DistinctIds;
    var j :| 0 <= j < |data.stations| && data.stations[j] == s;
    IndexIs(data, |data.stops| + j);
    SkeletonIs(data);
  }

  lemma {:induction false} LineEnds(data: AppData, l: Link)
    requires DistinctIds(data) && l in LineLinks(Skeleton(data), data.stations, |data.stations|)
    ensures var g := Skeleton(data);
            0 <= l.a < |g| && 0 <= l.b < |g| && g[l.a].kind == g[l.b].kind == SUBWAY_STATION
  {
    hide NodeIndex, Skeleton, DistinctIds, LineNamesOf;
    var g := Skeleton(data);
    LineLinksMember(g, data.stations, |data.stations|, l);
    var s, t :| s in data.stations && t in data.stations && l in PairLinks(g, s, t);
    StationKind(data, s);
    StationKind(data, t);
    CommonMeans(LineNamesOf(s.line), LineNamesOf(t.line));
  }

  lemma WalkEnds(data: AppData, l: Link)
    requires DistinctIds(data) && l in TransferLinks(Skeleton(data), data.stops, data.stations)
    ensures 0 <= l.a < |data.stops| <= l.b < |Skeleton(data)| == |data.stops| + |data.stations|
    ensures Skeleton(data)[l.a].kind == BUS_STOP && Skeleton(data)[l.b].kind == SUBWAY_STATION
    ensures var j := l.b - |data.stops|;
            WalkLinked(data.stops[l.a], data.stations, j)
                && l == WalkLink(Skeleton(data), data.stops[l.a], data.stations[j])
  {
    hide NodeIndex, Skeleton, DistinctIds, TransferLinks, WalkLinked, Apart, DistanceSq, TransferMinutes, AllIds;
    TransferLinksMember(Skeleton(data), data.stops, data.stations, l);
    var i, j :| 0 <= i < |data.stops| && 0 <= j < |data.stations| && WalkLinked(data.stops[i], data.stations, j)
                && l == WalkLink(Skeleton(data), data.stops[i], data.stations[j]);
    SkeletonIs(data);
    IndexIs(data, i);
    IndexIs(data, |data.stops| + j);
    assert l.a == i && l.b == |data.stops| + j;
    assert Skeleton(data)[l.b] == StationNode(data.stations[j]) && Skeleton(data)[l.a] == StopNode(data.stops[i]);
  }

  /** Where a stored road comes from: the winning one of the links that join its two ends. */
  lemma RoadHasLink(data: AppData, i: int, j: int) returns (l: Link)
    requires RoadAt(Built(data), i, j).Some?
    ensures l in AllLinks(Skeleton(data), data)
              && RoadAt(Built(data), i, j).value.route == SafeCopy(l.route, MAX_ROUTE_LEN)
    ensures RoadAt(Built(data), i, j).value.weight == Max(l.weight, 1)
    ensures (l.a == i && l.b == j) || (l.a == j && l.b == i)
    ensures 0 <= i < |Skeleton(data)| && 0 <= j < |Skeleton(data)| && i != j
  {
    hide AllLinks, Skeleton, TakesPart;
    var g := Skeleton(data);
    var links := AllLinks(g, data);
    NoEdgesYet(data);
    BuiltWellFormed(data);
    RoadPositive(Built(data), i, j);
    var k := StoredIsWinner(g, BothWays(links), i, j);
    assert BothWays(links)[k] in BothWays(links);
    DirectedMember(links, BothWays(links)[k]);
    l :| l in links && BothWays(links)[k] in Directed(l);
  }

  /** An edge is labelled TRANSFER exactly when its two ends are of different kinds. */
  ghost predicate Typed(g: seq<Node>) {
    forall i, j | 0 <= i < |g| && 0 <= j < |g| && Linked(g, i, j) ::
      RoadAt(g, i, j).value.route == TRANSFER <==> g[i].kind != g[j].kind
  }

  lemma {:induction false} BuiltTyped(data: AppData)
    requires Tidy(data)
    ensures Typed(Built(data))
  {
    hide Tidy, Built, RoadAt;
    var g := Built(data);
    forall i, j | 0 <= i < |g| && 0 <= j < |g| && Linked(g, i, j)
      ensures RoadAt(g, i, j).value.route == TRANSFER <==> g[i].kind != g[j].kind
    {
      var l := RoadHasLink(data, i, j);
      BuiltNode(data, i);
      BuiltNode(data, j);
      LinkKind(data, l);
      assert SafeCopy(l.route, MAX_ROUTE_LEN) == TRANSFER <==> l.route == TRANSFER by {
        if |l.route| >= MAX_ROUTE_LEN { assert |SafeCopy(l.route, MAX_ROUTE_LEN)| == MAX_ROUTE_LEN - 1; }
      }
    }
  }

  /** Labels that are transfers exactly where a yes/no sequence flips, flip it evenly often iff it ends as it began. */
  lemma {:induction false} FlipParity(bus: seq<bool>, routes: seq<string>)
    requires |bus| == |routes| + 1
    requires forall i | 0 <= i < |routes| :: routes[i] == TRANSFER <==> bus[i] != bus[i + 1]
    ensures TransferSegments(routes) % 2 == 0 <==> bus[0] == bus[|routes|]
  {
    if routes != [] { FlipParity(bus[..|routes|], routes[..|routes| - 1]); }
  }

  lemma WalkFlips(g: seq<Node>, p: seq<nat>, routes: seq<string>, i: nat)
    requires Typed(g) && Walk(g, p) && i < |routes| == |p| - 1
    requires RoadAt(g, p[i], p[i + 1]).value.route == routes[i]
    requires forall v | 0 <= v < |g| :: g[v].kind == BUS_STOP || g[v].kind == SUBWAY_STATION
    ensures p[i] < |g| && p[i + 1] < |g|
    ensures routes[i] == TRANSFER <==> (g[p[i]].kind == BUS_STOP) != (g[p[i + 1]].kind == BUS_STOP)
  {
    hide RoadAt;
    var u, v := p[i], p[i + 1];
    assert Linked(g, u, v);
    assert g[u].kind == BUS_STOP || g[u].kind == SUBWAY_STATION;
    assert g[v].kind == BUS_STOP || g[v].kind == SUBWAY_STATION;
  }

  lemma {:induction false} WalkParity(g: seq<Node>, p: seq<nat>, routes: seq<string>)
    requires Typed(g) && Walk(g, p) && |routes| == |p| - 1
    requires forall i | 0 <= i < |routes| :: RoadAt(g, p[i], p[i + 1]).value.route == routes[i]
    requires forall v | 0 <= v < |g| :: g[v].kind == BUS_STOP || g[v].kind == SUBWAY_STATION
    ensures TransferSegments(routes) % 2 == 0 <==> g[p[0]].kind == g[p[|p| - 1]].kind
  {
    assert forall i | 0 <= i < |p| :: p[i] < |g|;
    var first, last := p[0], p[|p| - 1];
    assert g[first].kind == BUS_STOP || g[first].kind == SUBWAY_STATION;
    assert g[last].kind == BUS_STOP || g[last].kind == SUBWAY_STATION;
    hide *;
    var bus := seq(|p|, i requires 0 <= i < |p| => g[p[i]].kind == BUS_STOP);
    forall i | 0 <= i < |routes| ensures routes[i] == TRANSFER <==> bus[i] != bus[i + 1] {
      WalkFlips(g, p, routes, i);
    }
    FlipParity(bus, routes);
  }

  /** A reported path changes between bus and rail an even number of times exactly when it ends on
      the kind it starts on. */
  lemma {:induction false} PathParity(data: AppData, s: int, t: int, path: GraphPath)
    requires Tidy(data) && Reports(Built(data), s, t, path)
    ensures 0 <= s < |Built(data)| && 0 <= t < |Built(data)|
    ensures TransferSegments(path.routes) % 2 == 0 <==> Built(data)[s].kind == Built(data)[t].kind
  {
    hide Tidy, Built;
    BuiltTyped(data);
    NoEdgesYet(data);
    forall v | 0 <= v < |Built(data)| ensures Built(data)[v].kind == BUS_STOP || Built(data)[v].kind == SUBWAY_STATION {
      BuiltLength(data);
      BuiltNode(data, v);
    }
    WalkParity(Built(data), path.indices, path.routes);
  }

  lemma BuiltLength(data: AppData)
    ensures |Built(data)| == |Skeleton(data)|
  {}

  // ---------------------------------------------------------------- transfers on foot

  /** A proposed link of positive weight leaves a road at most that heavy, both ways. */
  lemma LinkGivesRoad(data: AppData, l: Link)
    requires l in AllLinks(Skeleton(data), data) && ValidPair(|Skeleton(data)|, l.a, l.b) && l.weight > 0
    ensures RoadAt(Built(data), l.a, l.b).Some? && RoadAt(Built(data), l.a, l.b).value.weight <= l.weight
    ensures RoadAt(Built(data), l.b, l.a) == RoadAt(Built(data), l.a, l.b)
  {
    hide AllLinks, Skeleton;
    var g := Skeleton(data);
    var ps := BothWays(AllLinks(g, data));
    NoEdgesYet(data);
    BuiltSymmetric(data);
    BuiltLength(data);
    var p := Proposal(l.a, l.b, l.weight, l.route);
    assert p in Directed(l);
    DirectedMember(AllLinks(g, data), p);
    var m :| 0 <= m < |ps| && ps[m] == p;
    assert For(ps[m], l.a, l.b) && TakesPart(ps, m);
    var k := StoredIsWinner(g, ps, l.a, l.b);
    assert RoadAt(Built(data), l.a, l.b) == RoadAt(Built(data), l.b, l.a);
  }

  /** Stop `i` and station `j` are joined exactly when the walking rule says so, by a TRANSFER edge of exactly
      the minutes for their distance, in both directions. */
  lemma {:induction false} WalkRoad(data: AppData, i: nat, j: nat)
    requires Separated(data) && i < |data.stops| && j < |data.stations|
    ensures RoadAt(Built(data), i, |data.stops| + j)
         == (if WalkLinked(data.stops[i], data.stations, j)
             then Some(Road(TransferMinutes(Apart(data.stops[i], data.stations[j])), TRANSFER)) else None)
    ensures RoadAt(Built(data), |data.stops| + j, i) == RoadAt(Built(data), i, |data.stops| + j)
  {
    DistinctSize(data);
    hide Built, Skeleton, WalkLinked, Apart, RoadAt, Separated;
    BuiltSymmetric(data);
    assert RoadAt(Built(data), i, |data.stops| + j) == RoadAt(Built(data), |data.stops| + j, i);
    if RoadAt(Built(data), i, |data.stops| + j).Some? {
      WalkRoadIsWalk(data, i, j);
    } else if WalkLinked(data.stops[i], data.stations, j) {
      SeparatedDistinct(data);
      LinkedHasRoad(data, i, j);
    }
  }

  lemma SeparatedDistinct(data: AppData)
    requires Separated(data)
    ensures DistinctIds(data)
  {}

  lemma {:induction false} WalkRoadIsWalk(data: AppData, i: nat, j: nat)
    requires Separated(data) && i < |data.stops| && j < |data.stations|
    requires RoadAt(Built(data), i, |data.stops| + j).Some?
    ensures WalkLinked(data.stops[i], data.stations, j)
    ensures RoadAt(Built(data), i, |data.stops| + j).value.weight
              == TransferMinutes(Apart(data.stops[i], data.stations[j]))
    ensures RoadAt(Built(data), i, |data.stops| + j).value.route == TRANSFER
  {
    hide *;
    var v := |data.stops| + j;
    var l := RoadHasLink(data, i, v);
    WalkLinkIs(data, l, i, j);
    TransferName();
  }

  /** A link between a stop and a station is the walk between them. */
  lemma WalkLinkIs(data: AppData, l: Link, i: nat, j: nat)
    requires Separated(data) && i < |data.stops| && j < |data.stations| && l in AllLinks(Skeleton(data), data)
    requires var v := |data.stops| + j; (l.a == i && l.b == v) || (l.a == v && l.b == i)
    ensures WalkLinked(data.stops[i], data.stations, j)
    ensures Max(l.weight, 1) == TransferMinutes(Apart(data.stops[i], data.stations[j])) && l.route == TRANSFER
  {
    hide Skeleton, WalkLinked, Apart, TransferLinks, AllLinks, NodeIndex, DistinctIds, AllIds, TransferMinutes;
    LinkEnds(data, l);
    SkeletonIs(data);
    assert Skeleton(data)[|data.stops| + j] == StationNode(data.stations[j])
        && Skeleton(data)[i] == StopNode(data.stops[i]);
    WalkEnds(data, l);
  }

  lemma TransferName()
    ensures SafeCopy(TRANSFER, MAX_ROUTE_LEN) == TRANSFER
  {}

  /** Whatever the other rows name, a stop and a station that the walking rule joins have a road, and it takes no
      longer than the walk. */
  lemma {:induction false} LinkedHasRoad(data: AppData, i: nat, j: nat)
    requires DistinctIds(data) && i < |data.stops| && j < |data.stations| && WalkLinked(data.stops[i], data.stations, j)
    ensures var road, back := RoadAt(Built(data), i, |data.stops| + j), RoadAt(Built(data), |data.stops| + j, i);
            road == back && road.Some? && road.value.weight <= TransferMinutes(Apart(data.stops[i], data.stations[j]))
  {
    hide Built, WalkLinked, Apart, TransferMinutes, RoadAt, NodeIndex, Skeleton, DistinctIds, AllIds, BusLinks,
         SubwayLinks, LineLinks, TransferLinks;
    var g := Skeleton(data);
    var l := WalkLink(g, data.stops[i], data.stations[j]);
    TransferLinksMember(g, data.stops, data.stations, l);
    IndexIs(data, i);
    IndexIs(data, |data.stops| + j);
    SkeletonIs(data);
    LinkGivesRoad(data, l);
  }

  /** A stop with coordinates that has some located station nearer than FAR. */
  ghost predicate Attached(stop: Stop, ss: seq<Station>) {
    HasCoordinates(stop.lat, stop.lng) && exists j :: 0 <= j < |ss| && Located(ss[j]) && Apart(stop, ss[j]) < FAR
  }

  /** Attached is exactly what it takes to be linked to some station. */
  lemma AttachedIsLinked(stop: Stop, ss: seq<Station>)
    ensures Attached(stop, ss) <==> exists j :: 0 <= j < |ss| && WalkLinked(stop, ss, j)
  {
    hide Apart;
    NearestStationMeans(stop, ss);
    if Attached(stop, ss) {
      if j :| 0 <= j < |ss| && Located(ss[j]) && Apart(stop, ss[j]) <= WALKABLE {
        assert WalkLinked(stop, ss, j);
      } else {
        assert NearestStation(stop, ss) >= 0;
        assert WalkLinked(stop, ss, NearestStation(stop, ss));
      }
    }
  }

  ghost predicate Connected(g: seq<Node>, s: int, t: int) {
    exists p: seq<nat> :: WalkBetween(g, p, s, t)
  }

  lemma ConnectedJoin(g: seq<Node>, a: int, b: int, c: int)
    requires Connected(g, a, b) && Connected(g, b, c)
    ensures Connected(g, a, c)
  {
    var p: seq<nat> :| WalkBetween(g, p, a, b);
    var q: seq<nat> :| WalkBetween(g, q, b, c);
    JoinWalks(g, p, q);
    assert WalkBetween(g, p + q[1..], a, c);
  }

  lemma RoadConnects(g: seq<Node>, a: nat, b: nat)
    requires a < |g| && b < |g| && Linked(g, a, b)
    ensures Connected(g, a, b)
  {
    assert WalkBetween(g, [a, b], a, b);
  }

  /** If the stations are mutually connected, so are any two attached stops. */
  lemma {:induction false} AttachedStopsConnected(data: AppData, i: nat, k: nat)
    requires DistinctIds(data) && i < |data.stops| && k < |data.stops|
    requires Attached(data.stops[i], data.stations) && Attached(data.stops[k], data.stations)
    requires forall u, v | |data.stops| <= u < |Built(data)| && |data.stops| <= v < |Built(data)| ::
               Connected(Built(data), u, v)
    ensures Connected(Built(data), i, k)
  {
    hide DistinctIds, Built, RoadAt, Attached, WalkLinked, Connected, TransferMinutes, Apart;
    var g, ns := Built(data), |data.stops|;
    AttachedIsLinked(data.stops[i], data.stations);
    AttachedIsLinked(data.stops[k], data.stations);
    var u :| 0 <= u < |data.stations| && WalkLinked(data.stops[i], data.stations, u);
    var v :| 0 <= v < |data.stations| && WalkLinked(data.stops[k], data.stations, v);
    LinkedHasRoad(data, i, u);
    LinkedHasRoad(data, k, v);
    DistinctSize(data);
    RoadConnects(g, i, ns + u);
    RoadConnects(g, ns + v, k);
    ConnectedJoin(g, i, ns + u, ns + v);
    ConnectedJoin(g, i, ns + v, k);
  }

  lemma DistinctSize(data: AppData)
    requires DistinctIds(data)
    ensures |Built(data)| == |data.stops| + |data.stations|
  {
    SkeletonIs(data);
    BuiltLength(data);
  }

  // ---------------------------------------------------------------- along a route

  /** Where a stop of a route ended up among the nodes. */
  function StopAt(data: AppData, r: Route, k: nat): int
    requires k < |r.stops|
  {
    NodeIndex(Skeleton(data), r.stops[k].stopId)
  }

  lemma {:induction false} AlongRoute(data: AppData, r: Route, i: nat, j: nat) returns (p: seq<nat>)
    requires r in data.routes && i <= j < |r.stops|
    requires forall k | 0 <= k < |r.stops| :: StopAt(data, r, k) >= 0
    ensures WalkBetween(Built(data), p, StopAt(data, r, i), StopAt(data, r, j))
    ensures Weight(Built(data), p) <= BUS_MINUTES * (j - i)
    decreases j
  {
    hide Built, Skeleton, NodeIndex, RoadAt;
    var g := Built(data);
    BuiltLength(data);
    NodeIndexMeans(Skeleton(data), r.stops[j].stopId);
    if i == j {
      p := [StopAt(data, r, j)];
    } else {
      p := AlongRoute(data, r, i, j - 1);
      var a, b := StopAt(data, r, j - 1), StopAt(data, r, j);
      if a != b {
        NodeIndexMeans(Skeleton(data), r.stops[j - 1].stopId);
        RouteRoad(data, r, j);
        var q := p + [b as nat];
        assert q[..|q| - 1] == p;
        p := q;
      }
    }
  }

  lemma RouteRoad(data: AppData, r: Route, j: nat)
    requires r in data.routes && 0 < j < |r.stops|
    requires ValidPair(|Skeleton(data)|, StopAt(data, r, j - 1), StopAt(data, r, j))
    ensures RoadAt(Built(data), StopAt(data, r, j - 1), StopAt(data, r, j)).Some?
    ensures RoadAt(Built(data), StopAt(data, r, j - 1), StopAt(data, r, j)).value.weight <= BUS_MINUTES
  {
    hide Built, Skeleton, NodeIndex, RoadAt, SubwayLinks, LineLinks, TransferLinks, BusLinks;
    var l := Link(StopAt(data, r, j - 1), StopAt(data, r, j), BUS_MINUTES, r.no);
    RouteLinksMember(Skeleton(data), r, |r.stops|, l);
    BusLinksContain(Skeleton(data), data.routes, r, l);
    LinkGivesRoad(data, l);
  }

  lemma {:induction false} BusLinksContain(g: seq<Node>, routes: seq<Route>, r: Route, l: Link)
    requires r in routes && l in RouteLinks(g, r.no, r.stops, |r.stops|)
    ensures l in BusLinks(g, routes)
  {
    if routes[|routes| - 1] != r { BusLinksContain(g, routes[..|routes| - 1], r, l); }
  }

  /** Riding bounds every answer: between the `i`-th and `j`-th stop of a route no reported total exceeds
      five minutes for each stop apart, and a walk that cheap exists. */
  lemma RouteBound(data: AppData, r: Route, i: nat, j: nat)
    requires r in data.routes && i < |r.stops| && j < |r.stops|
    requires forall k | 0 <= k < |r.stops| :: StopAt(data, r, k) >= 0
    ensures var far := BUS_MINUTES * (if i <= j then j - i else i - j);
            && (exists p: seq<nat> ::
                  WalkBetween(Built(data), p, StopAt(data, r, i), StopAt(data, r, j)) && Weight(Built(data), p) <= far)
            && (forall path :: Reports(Built(data), StopAt(data, r, i), StopAt(data, r, j), path) ==> path.total <= far)
  {
    hide Built, Skeleton, NodeIndex, RoadAt, StopAt;
    if i <= j {
      var p := AlongRoute(data, r, i, j);
    } else {
      var p := AlongRoute(data, r, j, i);
      BuiltSymmetric(data);
      ReversedWalk(Built(data), p);
      ReversedEnds(p);
      assert WalkBetween(Built(data), Reversed(p), StopAt(data, r, i), StopAt(data, r, j));
    }
  }

  // ---------------------------------------------------------------- fit for the search

  /** Every proposed link has a positive weight, so the builder's graph has the distances of the multigraph
      of all its proposals. */
  lemma BuiltSameDistances(data: AppData, s: int, t: int, bound: int)
    ensures (exists p: seq<nat> :: WalkBetween(Built(data), p, s, t) && Weight(Built(data), p) <= bound)
       <==> (exists trip ::
               Trip(|Skeleton(data)|, BothWays(AllLinks(Skeleton(data), data)), trip, s, t) &&
               TripWeight(trip) <= bound)
  {
    hide AllLinks, Skeleton;
    var links := AllLinks(Skeleton(data), data);
    NoEdgesYet(data);
    forall q | q in BothWays(links) ensures q.weight > 0 {
      DirectedMember(links, q);
      var l :| l in links && q in Directed(l);
      LinkPositive(data, l);
    }
    assert Built(data) == ConnectAll(Skeleton(data), BothWays(links));
    SameDistances(Skeleton(data), BothWays(links), s, t, bound);
  }

  lemma LinkPositive(data: AppData, l: Link)
    requires l in AllLinks(Skeleton(data), data)
    ensures l.weight > 0
    ensures l.weight <= 80 || exists d :: d in data.distances && l == DistanceLink(Skeleton(data), d)
  {
    hide NodeIndex, BusLinks, SubwayLinks, LineLinks, TransferLinks, Skeleton, WalkLinked, Apart, LineNamesOf;
    var g := Skeleton(data);
    if l in BusLinks(g, data.routes) {
      BusLinksMember(g, data.routes, l);
    } else if l in SubwayLinks(g, data.distances) {
      SubwayLinksMember(g, data.distances, l);
    } else if l in TransferLinks(g, data.stops, data.stations) {
      TransferLinksMember(g, data.stops, data.stations, l);
    } else {
      LineLinksMember(g, data.stations, |data.stations|, l);
    }
  }

  /** The path search may be run on what was built as long as no row of the distance table asks for more
      minutes than an `int` leaves room for. */
  lemma BuiltSearchable(data: AppData)
    requires forall d | d in data.distances :: DistanceLink(Skeleton(data), d).weight <= INT_MAX - INF as int
    ensures WellFormed(Built(data)) && SafeWeights(Built(data))
  {
    hide Built, Skeleton;
    BuiltWellFormed(data);
    var g := Built(data);
    forall i, k | 0 <= i < |g| && 0 <= k < |g[i].edges|
      ensures g[i].edges[k].weight <= INT_MAX - INF as int
    {
      var to := g[i].edges[k].to;
      assert RoadAt(g, i, to).Some? && RoadAt(g, i, to).value.weight == g[i].edges[k].weight;
      var l := RoadHasLink(data, i, to);
      LinkPositive(data, l);
    }
  }
}
