/**
 The adjacency-list graph of src/common/graph.c: an array of node structs that grows by doubling,
 each node heading a list of outgoing edges that is searched, updated in place or prepended to.
 */
module Graph {
  import opened Basics
  import opened Text

  const MAX_ID_LEN := 32
  const MAX_NAME_LEN := 100
  const MAX_ROUTE_LEN := 128
  const MAX_NODE_TYPE_LEN := 16

  /** The label of a walking transfer. */
  const TRANSFER := "TRANSFER"

  // The two kinds of node.
  const BUS_STOP := "bus_stop"
  const SUBWAY_STATION := "subway_station"

  datatype Edge = Edge(to: nat, weight: int, route: string)
  datatype Node = Node(id: string, name: string, kind: string, lat: real, lng: real, edges: seq<Edge>)

  /** What a slot of the node array holds after it is zero-filled. */
  const BLANK_NODE := Node("", "", "", 0.0, 0.0, [])

  /** What an edge says about going from one node to another. */
  datatype Road = Road(weight: int, route: string)

  /** `has_coordinates`: zero stands for unknown. */
  predicate HasCoordinates(lat: real, lng: real) { lat != 0.0 && lng != 0.0 }

  // ---------------------------------------------------------------- specification

  /** The position of the first edge towards `to`, or the length of the list. */
  function EdgePos(es: seq<Edge>, to: int): (k: nat)
    ensures k <= |es|
    ensures k < |es| ==> es[k].to == to
    ensures forall j | 0 <= j < k :: es[j].to != to
  {
    if es == [] || es[0].to == to then 0 else 1 + EdgePos(es[1..], to)
  }

  /** The road stored from `i` to `j`, as a search from the head of the list finds it. */
  function RoadAt(g: seq<Node>, i: int, j: int): Option<Road> {
    if 0 <= i < |g| then
      var k := EdgePos(g[i].edges, j);
      if k < |g[i].edges| then Some(Road(g[i].edges[k].weight, g[i].edges[k].route)) else None
    else None
  }

  /** One edge per ordered pair, no self-loop, no target outside the graph, weights at least one. */
  ghost predicate WellFormed(g: seq<Node>) {
    forall i, k | 0 <= i < |g| && 0 <= k < |g[i].edges| ::
      g[i].edges[k].to < |g| && g[i].edges[k].to != i && 1 <= g[i].edges[k].weight &&
      EdgePos(g[i].edges, g[i].edges[k].to) == k
  }

  predicate ValidPair(n: nat, from: int, to: int) {
    0 <= from < n && 0 <= to < n && from != to
  }

  /** What proposing weight `w` and label `route` does to the road between one pair. */
  function Improve(road: Option<Road>, w: int, route: string): Option<Road> {
    match road
    case None => Some(Road(Max(w, 1), SafeCopy(route, MAX_ROUTE_LEN)))
    case Some(r) => if 0 < w < r.weight then Some(Road(w, SafeCopy(route, MAX_ROUTE_LEN))) else road
  }

  /** The nodes after one call of `AddEdge`. */
  function Connect(g: seq<Node>, from: int, to: int, w: int, route: string): (h: seq<Node>)
    ensures |h| == |g|
  {
    if !ValidPair(|g|, from, to) then g
    else
      var es := g[from].edges;
      var k := EdgePos(es, to);
      if k < |es| then
        if 0 < w < es[k].weight
        then g[from := g[from].(edges := es[k := Edge(to, w, SafeCopy(route, MAX_ROUTE_LEN))])]
        else g
      else g[from := g[from].(edges := [Edge(to, Max(w, 1), SafeCopy(route, MAX_ROUTE_LEN))] + es)]
  }

  /** The first node carrying `id`, or -1. */
  function NodeIndex(g: seq<Node>, id: string): int {
    if g == [] then -1
    else
      var i := NodeIndex(g[..|g| - 1], id);
      if i >= 0 then i else if g[|g| - 1].id == id then |g| - 1 else -1
  }

  lemma {:induction false} NodeIndexMeans(g: seq<Node>, id: string)
    ensures -1 <= NodeIndex(g, id) < |g|
    ensures NodeIndex(g, id) >= 0 ==> g[NodeIndex(g, id)].id == id
    ensures forall j | 0 <= j < (if NodeIndex(g, id) >= 0 then NodeIndex(g, id) else |g|) :: g[j].id != id
  {
    if g != [] { NodeIndexMeans(g[..|g| - 1], id); }
  }

  function MakeNode(id: string, name: string, kind: string, lat: real, lng: real): Node {
    Node(SafeCopy(id, MAX_ID_LEN), SafeCopy(name, MAX_NAME_LEN), SafeCopy(kind, MAX_NODE_TYPE_LEN), lat, lng, [])
  }

  // ---------------------------------------------------------------- properties of the specification

  lemma {:induction false} EdgePosUpdate(es: seq<Edge>, k: nat, e: Edge, to: int)
    requires k < |es| && e.to == es[k].to
    ensures EdgePos(es[k := e], to) == EdgePos(es, to)
  {
    if k > 0 {
      assert es[k := e][1..] == es[1..][k - 1 := e];
      if es[0].to != to { EdgePosUpdate(es[1..], k - 1, e, to); }
    } else {
      assert es[0 := e][1..] == es[1..];
    }
  }

  lemma EdgePosPrepend(es: seq<Edge>, e: Edge, to: int)
    ensures EdgePos([e] + es, to) == if e.to == to then 0 else 1 + EdgePos(es, to)
  {
    assert ([e] + es)[1..] == es;
  }

  /** `Connect` changes the road of the proposed pair, as `Improve` says, and of no other pair. */
  lemma ConnectRoad(g: seq<Node>, from: int, to: int, w: int, route: string, i: int, j: int)
    ensures RoadAt(Connect(g, from, to, w, route), i, j)
         == if ValidPair(|g|, from, to) && i == from && j == to then Improve(RoadAt(g, i, j), w, route)
            else RoadAt(g, i, j)
  {
    if ValidPair(|g|, from, to) && i == from {
      var es := g[from].edges;
      var k := EdgePos(es, to);
      var e := Edge(to, w, SafeCopy(route, MAX_ROUTE_LEN));
      if k < |es| {
        EdgePosUpdate(es, k, e, j);
      } else {
        EdgePosPrepend(es, Edge(to, Max(w, 1), SafeCopy(route, MAX_ROUTE_LEN)), j);
      }
    }
  }

  lemma {:induction false} ConnectWellFormed(g: seq<Node>, from: int, to: int, w: int, route: string)
    requires WellFormed(g)
    ensures WellFormed(Connect(g, from, to, w, route))
  {
    var h := Connect(g, from, to, w, route);
    if h != g {
      var es := g[from].edges;
      var k := EdgePos(es, to);
      forall i, m | 0 <= i < |h| && 0 <= m < |h[i].edges|
        ensures h[i].edges[m].to < |h| && h[i].edges[m].to != i && 1 <= h[i].edges[m].weight &&
                EdgePos(h[i].edges, h[i].edges[m].to) == m
      {
        if i == from {
          if k < |es| {
            EdgePosUpdate(es, k, Edge(to, w, SafeCopy(route, MAX_ROUTE_LEN)), h[i].edges[m].to);
            assert g[i].edges[m].to < |g|;
          } else {
            EdgePosPrepend(es, h[i].edges[0], h[i].edges[m].to);
            assert m > 0 ==> g[i].edges[m - 1].to < |g|;
          }
        } else {
          assert g[i].edges[m].to < |g|;
        }
      }
    }
  }

  /** A node without edges disturbs nothing. */
  lemma AddedWellFormed(g: seq<Node>, node: Node)
    requires WellFormed(g) && node.edges == []
    ensures WellFormed(g + [node])
  {
    assert forall i, k | 0 <= i < |g| && 0 <= k < |g[i].edges| :: g[i].edges[k].to < |g|;
  }

  lemma {:induction false} NodeIndexSame(g: seq<Node>, h: seq<Node>, id: string)
    requires |g| == |h| && forall i | 0 <= i < |g| :: g[i].id == h[i].id
    ensures NodeIndex(g, id) == NodeIndex(h, id)
  {
    if g != [] { NodeIndexSame(g[..|g| - 1], h[..|h| - 1], id); }
  }

  lemma NodeIndexIs(g: seq<Node>, id: string, i: int)
    requires -1 <= i < |g| && (i >= 0 ==> g[i].id == id)
    requires forall j | 0 <= j < (if i >= 0 then i else |g|) :: g[j].id != id
    ensures NodeIndex(g, id) == i
  {
    NodeIndexMeans(g, id);
  }

  // ---------------------------------------------------------------- the graph object

  class TransferGraph {
    var nodes: array<Node>
    var nodeCount: nat

    ghost predicate Valid()
      reads this, nodes
    {
      nodeCount <= nodes.Length && WellFormed(nodes[..nodeCount])
    }

    /** The nodes in use, in index order. */
    ghost function Contents(): seq<Node>
      reads this, nodes
      requires nodeCount <= nodes.Length
    {
      nodes[..nodeCount]
    }

    constructor ()
      ensures Valid() && fresh(nodes)
      ensures Contents() == []
    {
      nodes := new Node[0];
      nodeCount := 0;
    }

    /** Makes room for `needed` nodes: 16 slots at first, then doubling; the new slots are blank. */
    method Reserve(needed: nat)
      requires Valid()
      modifies this`nodes
      ensures Valid() && nodes.Length >= needed
      ensures nodes == old(nodes) || fresh(nodes)
      ensures Contents() == old(Contents())
      ensures old(nodes.Length) >= needed ==> nodes == old(nodes)
      ensures forall i | old(nodes.Length) <= i < nodes.Length :: nodes[i] == BLANK_NODE
    {
      if nodes.Length >= needed { return; }
      var capacity := if nodes.Length == 0 then 16 else nodes.Length * 2;
      while capacity < needed
        invariant capacity > nodes.Length
        decreases needed - capacity
      {
        capacity := capacity * 2;
      }
      var grown := new Node[capacity](i reads this, nodes => if 0 <= i < nodes.Length then nodes[i] else BLANK_NODE);
      assert grown[..nodeCount] == nodes[..nodeCount];
      nodes := grown;
    }

    method FindNode(id: string) returns (r: int)
      requires Valid()
      ensures r == NodeIndex(Contents(), id)
    {
      var i := 0;
      while i < nodeCount
        invariant 0 <= i <= nodeCount
        invariant forall j | 0 <= j < i :: nodes[j].id != id
      {
        if nodes[i].id == id {
          NodeIndexIs(Contents(), id, i);
          return i;
        }
        i := i + 1;
      }
      NodeIndexIs(Contents(), id, -1);
      return -1;
    }

    method AddNode(id: string, name: string, kind: string, lat: real, lng: real) returns (r: int)
      requires Valid()
      modifies this, nodes
      ensures Valid() && (nodes == old(nodes) || fresh(nodes))
      ensures NodeIndex(old(Contents()), id) >= 0 ==>
                r == NodeIndex(old(Contents()), id) && Contents() == old(Contents())
      ensures NodeIndex(old(Contents()), id) < 0 ==>
                r == old(nodeCount) && Contents() == old(Contents()) + [MakeNode(id, name, kind, lat, lng)]
    {
      hide NodeIndex, SafeCopy;
      var existing := FindNode(id);
      if existing >= 0 { return existing; }
      ghost var was := Contents();
      AddedWellFormed(was, MakeNode(id, name, kind, lat, lng));
      hide WellFormed;
      Reserve(nodeCount + 1);
      nodes[nodeCount] := MakeNode(id, name, kind, lat, lng);
      nodeCount := nodeCount + 1;
      assert Contents() == was + [MakeNode(id, name, kind, lat, lng)];
      assert forall i | 0 <= i < |was| :: Contents()[i] == was[i];
      return nodeCount - 1;
    }

    /** The edge search that adding an edge and filling in a path both use. */
    method GetEdge(from: int, to: int) returns (k: int)
      requires Valid()
      ensures !(0 <= from < nodeCount) ==> k == -1
      ensures 0 <= from < nodeCount ==>
                var es := Contents()[from].edges;
                k == (if EdgePos(es, to) < |es| then EdgePos(es, to) else -1)
    {
      if from < 0 || from >= nodeCount { return -1; }
      var es := nodes[from].edges;
      k := 0;
      while k < |es|
        invariant 0 <= k <= |es|
        invariant forall j | 0 <= j < k :: es[j].to != to
      {
        if es[k].to == to { return; }
        k := k + 1;
      }
      k := -1;
    }

    method AddEdge(from: int, to: int, weight: int, route: string) returns (ok: bool)
      requires Valid()
      modifies nodes
      ensures Valid()
      ensures ok == (0 <= from < nodeCount && 0 <= to < nodeCount)
      ensures Contents() == Connect(old(Contents()), from, to, weight, route)
    {
      if from < 0 || to < 0 || from >= nodeCount || to >= nodeCount { return false; }
      if from == to { return true; }
      ghost var was := Contents();
      ConnectWellFormed(was, from, to, weight, route);
      var es := nodes[from].edges;
      var existing := GetEdge(from, to);
      if existing >= 0 {
        if weight > 0 && weight < es[existing].weight {
          nodes[from] := nodes[from].(edges := es[existing := Edge(to, weight, SafeCopy(route, MAX_ROUTE_LEN))]);
        }
      } else {
        var e := Edge(to, if weight > 0 then weight else 1, SafeCopy(route, MAX_ROUTE_LEN));
        nodes[from] := nodes[from].(edges := [e] + es);
      }
      assert Contents() == Connect(was, from, to, weight, route);
      return true;
    }
  }
}
