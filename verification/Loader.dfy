/**
 `data_loader_build_graph` of src/server/data_loader.c: nodes for stops and stations, bus edges along every route,
 subway edges from the distance table or, failing that, between stations on a common line, and walking transfers.
 */
module Loader {
  import opened Basics
  import opened Text
  import opened Graph
  import opened Proposals
  import opened LineNames
  import opened RouteStops

  // ---------------------------------------------------------------- the loaded data

  type IdText = s: string | |s| < MAX_ID_LEN witness ""
  type NameText = s: string | |s| < MAX_NAME_LEN witness ""
  type RouteText = s: string | |s| < MAX_ROUTE_LEN witness ""

  /** The number of a route; rows without one are skipped when routes are loaded. */
  type RouteNo = s: RouteText | s != "" witness "1"

  datatype Stop = Stop(id: IdText, name: NameText, lat: real, lng: real)
  datatype Route = Route(no: RouteNo, stops: seq<Row>)
  datatype Station = Station(id: IdText, name: NameText, line: RouteText, lat: real, lng: real)
  datatype Distance = Distance(from: IdText, to: IdText, line: RouteText, km: real, minutes: int)
  datatype AppData = AppData(stops: seq<Stop>, routes: seq<Route>, stations: seq<Station>, distances: seq<Distance>)

  const BUS_MINUTES := 5
  const LINE_MINUTES := 8
  const WALKABLE := 9.0
  const FAR := 999999.0

  // ---------------------------------------------------------------- arithmetic

  function DistanceSq(lat1: real, lng1: real, lat2: real, lng2: real): real {
    var latKm := (lat1 - lat2) * 111.0;
    var lngKm := (lng1 - lng2) * 88.0;
    latKm * latKm + lngKm * lngKm
  }

  function TransferMinutes(d: real): (m: int)
    ensures 3 <= m <= 80
  {
    if d <= 0.09 then 3
    else if d <= 0.25 then 5
    else if d <= 1.0 then 10
    else if d <= 2.25 then 15
    else if d <= 4.0 then 20
    else if d <= 9.0 then 30
    else if d <= 25.0 then 50
    else 80
  }

  function SubwayMinutes(km: real): (m: int)
    ensures m >= 2
  {
    if km <= 0.0 then 2 else Max((km * 2.0 + 0.5).Floor, 2)
  }

  // ---------------------------------------------------------------- what is proposed

  /** An edge proposed in both directions. */
  datatype Link = Link(a: int, b: int, weight: int, route: string)

  function Directed(l: Link): seq<Proposal> {
    [Proposal(l.a, l.b, l.weight, l.route), Proposal(l.b, l.a, l.weight, l.route)]
  }

  function BothWays(links: seq<Link>): seq<Proposal> {
    if links == [] then [] else BothWays(links[..|links| - 1]) + Directed(links[|links| - 1])
  }

  function WithNode(g: seq<Node>, node: Node): seq<Node> {
    if NodeIndex(g, node.id) >= 0 then g else g + [node]
  }

  function StopNode(s: Stop): Node { Node(s.id, s.name, BUS_STOP, s.lat, s.lng, []) }
  function StationNode(s: Station): Node { Node(s.id, s.name, SUBWAY_STATION, s.lat, s.lng, []) }

  function StopNodes(stops: seq<Stop>): seq<Node> {
    if stops == [] then [] else WithNode(StopNodes(stops[..|stops| - 1]), StopNode(stops[|stops| - 1]))
  }

  function StationNodes(g: seq<Node>, stations: seq<Station>): seq<Node> {
    if stations == [] then g
    else WithNode(StationNodes(g, stations[..|stations| - 1]), StationNode(stations[|stations| - 1]))
  }

  /** The nodes of the graph before any edge: stops, then stations, an id that is already there adding nothing. */
  function Skeleton(data: AppData): seq<Node> { StationNodes(StopNodes(data.stops), data.stations) }

  /** Bus links between consecutive stops among the first `n` of a route. */
  function RouteLinks(g: seq<Node>, no: string, stops: seq<Row>, n: nat): seq<Link>
    requires n <= |stops|
  {
    if n < 2 then []
    else RouteLinks(g, no, stops, n - 1)
         + [Link(NodeIndex(g, stops[n - 2].stopId), NodeIndex(g, stops[n - 1].stopId), BUS_MINUTES, no)]
  }

  function BusLinks(g: seq<Node>, routes: seq<Route>): seq<Link> {
    if routes == [] then []
    else
      var r := routes[|routes| - 1];
      BusLinks(g, routes[..|routes| - 1]) + RouteLinks(g, r.no, r.stops, |r.stops|)
  }

  function DistanceLink(g: seq<Node>, d: Distance): Link {
    Link(NodeIndex(g, d.from), NodeIndex(g, d.to),
         if d.minutes > 0 then d.minutes else SubwayMinutes(d.km),
         if IsBlank(d.line) then "SUBWAY" else d.line)
  }

  /** The link of one row; none when a station is unknown. */
  function RowLinks(g: seq<Node>, d: Distance): seq<Link> {
    var l := DistanceLink(g, d);
    if l.a < 0 || l.b < 0 then [] else [l]
  }

  /** Subway links of the distance table. */
  function SubwayLinks(g: seq<Node>, ds: seq<Distance>): seq<Link> {
    if ds == [] then [] else SubwayLinks(g, ds[..|ds| - 1]) + RowLinks(g, ds[|ds| - 1])
  }

  /** The link between two stations with a common line. */
  function PairLinks(g: seq<Node>, s: Station, t: Station): seq<Link> {
    var line := Common(LineNamesOf(s.line), LineNamesOf(t.line));
    if line.None? then [] else [Link(NodeIndex(g, s.id), NodeIndex(g, t.id), LINE_MINUTES, line.value)]
  }

  /** Links from station `i` to those of the stations before `n` that come after it and share a line. */
  function LineLinksFrom(g: seq<Node>, ss: seq<Station>, i: nat, n: nat): seq<Link>
    requires i < n <= |ss|
  {
    if n == i + 1 then [] else LineLinksFrom(g, ss, i, n - 1) + PairLinks(g, ss[i], ss[n - 1])
  }

  function LineLinks(g: seq<Node>, ss: seq<Station>, i: nat): seq<Link>
    requires i <= |ss|
  {
    if i == 0 then [] else LineLinks(g, ss, i - 1) + LineLinksFrom(g, ss, i - 1, |ss|)
  }

  function Apart(stop: Stop, station: Station): real { DistanceSq(stop.lat, stop.lng, station.lat, station.lng) }

  function WalkLink(g: seq<Node>, stop: Stop, station: Station): Link {
    Link(NodeIndex(g, stop.id), NodeIndex(g, station.id),
         TransferMinutes(Apart(stop, station)), TRANSFER)
  }

  predicate Located(s: Station) { HasCoordinates(s.lat, s.lng) }

  function NearLink(g: seq<Node>, stop: Stop, s: Station): seq<Link> {
    if Located(s) && Apart(stop, s) <= WALKABLE then [WalkLink(g, stop, s)] else []
  }

  /** Walking links from a stop to the located stations within reach. */
  function NearLinks(g: seq<Node>, stop: Stop, ss: seq<Station>): seq<Link> {
    if ss == [] then []
    else
      NearLinks(g, stop, ss[..|ss| - 1]) + NearLink(g, stop, ss[|ss| - 1])
  }

  /** The first located station at least distance, if that is under FAR; -1 otherwise. */
  function NearestStation(stop: Stop, ss: seq<Station>): (k: int)
    ensures -1 <= k < |ss|
  {
    if ss == [] then -1
    else
      var k := NearestStation(stop, ss[..|ss| - 1]);
      var n := |ss| - 1;
      if Located(ss[n]) && Apart(stop, ss[n]) < (if k < 0 then FAR else Apart(stop, ss[k])) then n else k
  }

  function StopLinks(g: seq<Node>, stop: Stop, ss: seq<Station>): seq<Link> {
    if !HasCoordinates(stop.lat, stop.lng) then []
    else
      var near := NearLinks(g, stop, ss);
      var k := NearestStation(stop, ss);
      if near == [] && k >= 0 then [WalkLink(g, stop, ss[k])] else near
  }

  function TransferLinks(g: seq<Node>, stops: seq<Stop>, ss: seq<Station>): seq<Link> {
    if stops == [] then []
    else TransferLinks(g, stops[..|stops| - 1], ss) + StopLinks(g, stops[|stops| - 1], ss)
  }

  /** Everything the builder proposes, in order; line links only when the distance table gave nothing. */
  function AllLinks(g: seq<Node>, data: AppData): seq<Link> {
    BusLinks(g, data.routes)
    + SubwayLinks(g, data.distances)
    + (if SubwayLinks(g, data.distances) == [] then LineLinks(g, data.stations, |data.stations|) else [])
    + TransferLinks(g, data.stops, data.stations)
  }

  /** The nodes and edges of the finished graph. */
  function Built(data: AppData): seq<Node> {
    ConnectAll(Skeleton(data), BothWays(AllLinks(Skeleton(data), data)))
  }

  // ---------------------------------------------------------------- the builder

  /** The graph under construction: `links` have been proposed on top of the nodes `g`. */
  ghost predicate Holds(graph: TransferGraph, g: seq<Node>, links: seq<Link>)
    reads graph, graph.nodes
  {
    graph.Valid() && graph.Contents() == ConnectAll(g, BothWays(links))
  }

  lemma {:induction false} SameIndex(g: seq<Node>, ps: seq<Proposal>, id: string)
    ensures NodeIndex(ConnectAll(g, ps), id) == NodeIndex(g, id)
  {
    forall i | 0 <= i < |g| ensures ConnectAll(g, ps)[i].id == g[i].id { ConnectAllKeepsNodes(g, ps, i); }
    NodeIndexSame(g, ConnectAll(g, ps), id);
  }

  lemma HoldsStep(g: seq<Node>, links: seq<Link>, l: Link)
    ensures ConnectAll(g, BothWays(links + [l]))
         == Connect(Connect(ConnectAll(g, BothWays(links)), l.a, l.b, l.weight, l.route), l.b, l.a, l.weight, l.route)
  {
    assert (links + [l])[..|links|] == links;
    var ps := BothWays(links);
    ConnectAllAppend(g, ps, Directed(l));
    var d := Directed(l);
    assert d[..1] == [d[0]] && d[..1][..0] == [];
    assert ConnectAll(ConnectAll(g, ps), d[..1][..0]) == ConnectAll(g, ps);
  }

  method FindNode(graph: TransferGraph, ghost g: seq<Node>, ghost links: seq<Link>, id: string) returns (i: int)
    requires Holds(graph, g, links)
    ensures i == NodeIndex(g, id)
  {
    SameIndex(g, BothWays(links), id);
    i := graph.FindNode(id);
  }

  method AddBothWays(graph: TransferGraph, ghost g: seq<Node>, ghost links: seq<Link>, l: Link)
    requires Holds(graph, g, links)
    modifies graph.nodes
    ensures Holds(graph, g, links + [l])
  {
    HoldsStep(g, links, l);
    var ok := graph.AddEdge(l.a, l.b, l.weight, l.route);
    ok := graph.AddEdge(l.b, l.a, l.weight, l.route);
  }

  /** One node more, unless its id is there already. */
  method AddPlace(graph: TransferGraph, id: IdText, name: NameText, kind: string, lat: real, lng: real)
    requires graph.Valid() && |kind| < MAX_NODE_TYPE_LEN
    modifies graph, graph.nodes
    ensures graph.Valid() && graph.Contents() == WithNode(old(graph.Contents()), Node(id, name, kind, lat, lng, []))
    ensures graph.nodes == old(graph.nodes) || fresh(graph.nodes)
  {
    hide NodeIndex;
    var k := graph.AddNode(id, name, kind, lat, lng);
  }

  method AddStops(graph: TransferGraph, stops: seq<Stop>)
    requires graph.Valid() && graph.Contents() == []
    modifies graph, graph.nodes
    ensures graph.Valid() && graph.Contents() == StopNodes(stops)
    ensures graph.nodes == old(graph.nodes) || fresh(graph.nodes)
  {
    hide NodeIndex, WithNode;
    var i := 0;
    while i < |stops|
      invariant 0 <= i <= |stops| && graph.Valid() && (graph.nodes == old(graph.nodes) || fresh(graph.nodes))
      invariant graph.Contents() == StopNodes(stops[..i])
    {
      var s := stops[i];
      assert stops[..i + 1][..i] == stops[..i];
      AddPlace(graph, s.id, s.name, BUS_STOP, s.lat, s.lng);
      i := i + 1;
    }
    assert stops[..i] == stops;
  }

  method AddStations(graph: TransferGraph, ghost g: seq<Node>, ss: seq<Station>)
    requires graph.Valid() && graph.Contents() == g
    modifies graph, graph.nodes
    ensures graph.Valid() && graph.Contents() == StationNodes(g, ss)
    ensures graph.nodes == old(graph.nodes) || fresh(graph.nodes)
  {
    hide NodeIndex, WithNode;
    var i := 0;
    while i < |ss|
      invariant 0 <= i <= |ss| && graph.Valid() && (graph.nodes == old(graph.nodes) || fresh(graph.nodes))
      invariant graph.Contents() == StationNodes(g, ss[..i])
    {
      var s := ss[i];
      assert ss[..i + 1][..i] == ss[..i];
      AddPlace(graph, s.id, s.name, SUBWAY_STATION, s.lat, s.lng);
      i := i + 1;
    }
    assert ss[..i] == ss;
  }

  method AddRoute(graph: TransferGraph, ghost g: seq<Node>, ghost links: seq<Link>, route: Route)
    requires Holds(graph, g, links)
    modifies graph.nodes
    ensures Holds(graph, g, links + RouteLinks(g, route.no, route.stops, |route.stops|))
  {
    hide Holds;
    assert links + [] == links;
    var i := 0;
    while i < |route.stops|
      invariant 0 <= i <= |route.stops| && graph.nodes == old(graph.nodes)
      invariant Holds(graph, g, links + RouteLinks(g, route.no, route.stops, i))
    {
      if i > 0 {
        ghost var sofar := links + RouteLinks(g, route.no, route.stops, i);
        var a := FindNode(graph, g, sofar, route.stops[i - 1].stopId);
        var b := FindNode(graph, g, sofar, route.stops[i].stopId);
        var l := Link(a, b, BUS_MINUTES, route.no);
        AddBothWays(graph, g, sofar, l);
        Regroup(links, RouteLinks(g, route.no, route.stops, i), [l]);
      }
      i := i + 1;
    }
  }

  method AddRoutes(graph: TransferGraph, ghost g: seq<Node>, routes: seq<Route>)
    requires Holds(graph, g, [])
    modifies graph.nodes
    ensures Holds(graph, g, BusLinks(g, routes))
  {
    hide Holds, RouteLinks;
    var i := 0;
    while i < |routes|
      invariant 0 <= i <= |routes| && graph.nodes == old(graph.nodes)
      invariant Holds(graph, g, BusLinks(g, routes[..i]))
    {
      AddRoute(graph, g, BusLinks(g, routes[..i]), routes[i]);
      assert routes[..i + 1][..i] == routes[..i];
      i := i + 1;
    }
    assert routes[..i] == routes;
  }

  method AddDistance(graph: TransferGraph, ghost g: seq<Node>, ghost links: seq<Link>, d: Distance)
    returns (loaded: nat)
    requires Holds(graph, g, links)
    modifies graph.nodes
    ensures Holds(graph, g, links + RowLinks(g, d)) && loaded == |RowLinks(g, d)|
  {
    hide Holds;
    var a := FindNode(graph, g, links, d.from);
    var b := FindNode(graph, g, links, d.to);
    var minutes := if d.minutes > 0 then d.minutes else SubwayMinutes(d.km);
    var line := if IsBlank(d.line) then "SUBWAY" else d.line;
    if a < 0 || b < 0 {
      assert links + [] == links;
      return 0;
    }
    AddBothWays(graph, g, links, Link(a, b, minutes, line));
    return 1;
  }

  method AddDistances(graph: TransferGraph, ghost g: seq<Node>, ghost links: seq<Link>, ds: seq<Distance>)
    returns (loaded: nat)
    requires Holds(graph, g, links)
    modifies graph.nodes
    ensures Holds(graph, g, links + SubwayLinks(g, ds)) && loaded == |SubwayLinks(g, ds)|
  {
    hide Holds, RowLinks;
    loaded := 0;
    var i := 0;
    assert links + [] == links;
    while i < |ds|
      invariant 0 <= i <= |ds| && graph.nodes == old(graph.nodes)
      invariant Holds(graph, g, links + SubwayLinks(g, ds[..i])) && loaded == |SubwayLinks(g, ds[..i])|
    {
      var more := AddDistance(graph, g, links + SubwayLinks(g, ds[..i]), ds[i]);
      assert ds[..i + 1][..i] == ds[..i];
      Regroup(links, SubwayLinks(g, ds[..i]), RowLinks(g, ds[i]));
      loaded := loaded + more;
      i := i + 1;
    }
    assert ds[..i] == ds;
  }

  method AddPair(graph: TransferGraph, ghost g: seq<Node>, ghost links: seq<Link>, s: Station, t: Station)
    requires Holds(graph, g, links)
    modifies graph.nodes
    ensures Holds(graph, g, links + PairLinks(g, s, t))
  {
    hide Holds;
    var line := CommonLineName(s.line, t.line);
    if line.Some? {
      var a := FindNode(graph, g, links, s.id);
      var b := FindNode(graph, g, links, t.id);
      AddBothWays(graph, g, links, Link(a, b, LINE_MINUTES, line.value));
    } else {
      assert links + [] == links;
    }
  }

  method AddLinesFrom(graph: TransferGraph, ghost g: seq<Node>, ghost links: seq<Link>, ss: seq<Station>, i: nat)
    requires Holds(graph, g, links) && i < |ss|
    modifies graph.nodes
    ensures Holds(graph, g, links + LineLinksFrom(g, ss, i, |ss|))
  {
    hide Holds, PairLinks;
    var j := i + 1;
    assert links + [] == links;
    while j < |ss|
      invariant i < j <= |ss| && graph.nodes == old(graph.nodes)
      invariant Holds(graph, g, links + LineLinksFrom(g, ss, i, j))
    {
      AddPair(graph, g, links + LineLinksFrom(g, ss, i, j), ss[i], ss[j]);
      Regroup(links, LineLinksFrom(g, ss, i, j), PairLinks(g, ss[i], ss[j]));
      j := j + 1;
    }
  }

  method AddLines(graph: TransferGraph, ghost g: seq<Node>, ghost links: seq<Link>, ss: seq<Station>)
    requires Holds(graph, g, links)
    modifies graph.nodes
    ensures Holds(graph, g, links + LineLinks(g, ss, |ss|))
  {
    hide Holds, LineLinksFrom;
    var i := 0;
    assert links + [] == links;
    while i < |ss|
      invariant 0 <= i <= |ss| && graph.nodes == old(graph.nodes)
      invariant Holds(graph, g, links + LineLinks(g, ss, i))
    {
      AddLinesFrom(graph, g, links + LineLinks(g, ss, i), ss, i);
      Regroup(links, LineLinks(g, ss, i), LineLinksFrom(g, ss, i, |ss|));
      i := i + 1;
    }
  }

  method AddWalk(graph: TransferGraph, ghost g: seq<Node>, ghost links: seq<Link>, stop: Stop, s: Station,
                 distance: real)
    requires Holds(graph, g, links) && distance == Apart(stop, s)
    modifies graph.nodes
    ensures Holds(graph, g, links + [WalkLink(g, stop, s)])
  {
    hide Holds;
    var a := FindNode(graph, g, links, stop.id);
    var b := FindNode(graph, g, links, s.id);
    AddBothWays(graph, g, links, Link(a, b, TransferMinutes(distance), TRANSFER));
  }

  method LinkIfNear(graph: TransferGraph, ghost g: seq<Node>, ghost links: seq<Link>, stop: Stop, s: Station)
    returns (linked: bool, distance: real)
    requires Holds(graph, g, links)
    modifies graph.nodes
    ensures Holds(graph, g, links + NearLink(g, stop, s))
    ensures linked <==> NearLink(g, stop, s) != []
    ensures distance == Apart(stop, s)
  {
    hide Holds;
    distance := DistanceSq(stop.lat, stop.lng, s.lat, s.lng);
    linked := false;
    assert links + [] == links;
    if HasCoordinates(s.lat, s.lng) && distance <= WALKABLE {
      AddWalk(graph, g, links, stop, s, distance);
      linked := true;
    }
  }

  method AddTransfers(graph: TransferGraph, ghost g: seq<Node>, ghost links: seq<Link>, stop: Stop, ss: seq<Station>)
    requires Holds(graph, g, links)
    modifies graph.nodes
    ensures Holds(graph, g, links + StopLinks(g, stop, ss))
  {
    hide Holds, NearLink;
    assert links + [] == links;
    if !HasCoordinates(stop.lat, stop.lng) { return; }
    var nearest, nearestDistance, linkedNearStation := -1, FAR, false;
    var j := 0;
    while j < |ss|
      invariant 0 <= j <= |ss| && graph.nodes == old(graph.nodes)
      invariant Holds(graph, g, links + NearLinks(g, stop, ss[..j]))
      invariant linkedNearStation <==> NearLinks(g, stop, ss[..j]) != []
      invariant nearest == NearestStation(stop, ss[..j])
      invariant nearestDistance == if nearest < 0 then FAR else Apart(stop, ss[nearest])
    {
      assert ss[..j + 1][..j] == ss[..j];
      var linked, distance := LinkIfNear(graph, g, links + NearLinks(g, stop, ss[..j]), stop, ss[j]);
      Regroup(links, NearLinks(g, stop, ss[..j]), NearLink(g, stop, ss[j]));
      if Located(ss[j]) && distance < nearestDistance {
        nearestDistance := distance;
        nearest := j;
      }
      linkedNearStation := linkedNearStation || linked;
      j := j + 1;
    }
    assert ss[..j] == ss;
    if !linkedNearStation && nearest >= 0 {
      AddWalk(graph, g, links, stop, ss[nearest], nearestDistance);
    }
  }

  method AddAllTransfers(graph: TransferGraph, ghost g: seq<Node>, ghost links: seq<Link>, stops: seq<Stop>,
                         ss: seq<Station>)
    requires Holds(graph, g, links)
    modifies graph.nodes
    ensures Holds(graph, g, links + TransferLinks(g, stops, ss))
  {
    hide Holds, StopLinks;
    var i := 0;
    assert links + [] == links;
    while i < |stops|
      invariant 0 <= i <= |stops| && graph.nodes == old(graph.nodes)
      invariant Holds(graph, g, links + TransferLinks(g, stops[..i], ss))
    {
      AddTransfers(graph, g, links + TransferLinks(g, stops[..i], ss), stops[i], ss);
      assert stops[..i + 1][..i] == stops[..i];
      Regroup(links, TransferLinks(g, stops[..i], ss), StopLinks(g, stops[i], ss));
      i := i + 1;
    }
    assert stops[..i] == stops;
  }

  method AddEdges(graph: TransferGraph, ghost g: seq<Node>, data: AppData)
    requires Holds(graph, g, [])
    modifies graph.nodes
    ensures Holds(graph, g, AllLinks(g, data))
  {
    hide Holds, BusLinks, SubwayLinks, LineLinks, TransferLinks;
    AddRoutes(graph, g, data.routes);
    ghost var links := BusLinks(g, data.routes);
    var loaded := AddDistances(graph, g, links, data.distances);
    links := links + SubwayLinks(g, data.distances);
    if loaded == 0 {
      AddLines(graph, g, links, data.stations);
      links := links + LineLinks(g, data.stations, |data.stations|);
    } else {
      assert links + [] == links;
    }
    AddAllTransfers(graph, g, links, data.stops, data.stations);
  }

  /** `data_loader_build_graph`, on an empty graph. */
  method BuildGraph(graph: TransferGraph, data: AppData) returns (ok: bool)
    requires graph.Valid() && graph.Contents() == []
    modifies graph, graph.nodes
    ensures graph.Valid() && graph.Contents() == Built(data)
    ensures ok <==> data.stops != [] || data.stations != []
  {
    AddStops(graph, data.stops);
    AddStations(graph, StopNodes(data.stops), data.stations);
    assert BothWays([]) == [];
    AddEdges(graph, Skeleton(data), data);
    SkeletonNonEmpty(data);
    ok := graph.nodeCount > 0;
  }

  lemma {:induction false} SkeletonNonEmpty(data: AppData)
    ensures Skeleton(data) != [] <==> data.stops != [] || data.stations != []
  {
    if data.stations == [] && data.stops != [] { assert StopNodes(data.stops) != []; }
    StationsKeep(StopNodes(data.stops), data.stations);
  }

  lemma {:induction false} StationsKeep(g: seq<Node>, ss: seq<Station>)
    ensures |StationNodes(g, ss)| >= |g|
    ensures ss != [] ==> StationNodes(g, ss) != []
  {
    if ss != [] { StationsKeep(g, ss[..|ss| - 1]); }
  }
}
