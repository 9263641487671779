/** `handle_transfer` from request to response line: resolve both ends, search, write the answer. */
module TransferService {
  import opened Basics
  import opened Text
  import opened Splitting
  import opened Graph
  import opened Walks
  import opened ShortestPath
  import opened Transfers
  import opened Resolve
  import opened RouteAnswer

  const NOT_FOUND := "TRANSFER_RES|1|\n"

  /** No text that can reach a response holds a terminator. */
  ghost predicate Terminable(g: seq<Node>, km: (string, string) -> string) {
    && (forall i | 0 <= i < |g| :: '\0' !in g[i].id && '\0' !in g[i].name && '\0' !in g[i].kind)
    && (forall i, k | 0 <= i < |g| && 0 <= k < |g[i].edges| :: '\0' !in g[i].edges[k].route)
    && (forall a, b :: '\0' !in km(a, b))
  }

  lemma ReportPrintable(g: seq<Node>, s: int, t: int, path: GraphPath)
    requires WellFormed(g) && Reports(g, s, t, path)
    ensures Printable(g, path)
  {
    hide Sum, RoadAt, WellFormed, Distinct;
    WeightAtLeastLength(g, path.indices);
    forall i | 0 <= i < |path.minutes| ensures path.minutes[i] >= 0 {
      assert Linked(g, path.indices[i], path.indices[i + 1]);
      RoadPositive(g, path.indices[i], path.indices[i + 1]);
    }
  }

  lemma StepTerminable(g: seq<Node>, path: GraphPath, km: (string, string) -> string, i: nat)
    requires Printable(g, path) && Terminable(g, km) && i < |path.routes| && '\0' !in path.routes[i]
    ensures '\0' !in Join(StepAt(g, path, km, i), "~")
  {
    hide Terminable, Join;
    NodeTerminable(g, path.indices[i], km);
    NodeTerminable(g, path.indices[i + 1], km);
    NotInJoin(StepAt(g, path, km, i), "~", '\0');
  }

  lemma {:induction false} ReportTerminable(g: seq<Node>, s: int, t: int, path: GraphPath,
                                            km: (string, string) -> string)
    requires Reports(g, s, t, path) && Printable(g, path) && Terminable(g, km)
    ensures NoNul(g, path, km)
  {
    hide Terminable, Sum, Shortest, Join;
    forall n | n in Names(g, path.indices) ensures '\0' !in n {
      var i :| 0 <= i < |path.indices| && Names(g, path.indices)[i] == n;
      NodeTerminable(g, path.indices[i], km);
    }
    var steps := AllSteps(g, path, km);
    forall i | 0 <= i < |steps| ensures '\0' !in StepTexts(steps)[i] {
      assert steps[i] == StepAt(g, path, km, i);
      RouteTerminable(g, path.indices[i], path.indices[i + 1], km);
      StepTerminable(g, path, km, i);
    }
  }

  lemma NodeTerminable(g: seq<Node>, i: nat, km: (string, string) -> string)
    requires Terminable(g, km) && i < |g|
    ensures '\0' !in g[i].id && '\0' !in g[i].name && '\0' !in g[i].kind
    ensures forall a, b :: '\0' !in km(a, b)
  {}

  lemma RouteTerminable(g: seq<Node>, i: nat, j: nat, km: (string, string) -> string)
    requires Terminable(g, km) && Linked(g, i, j)
    ensures '\0' !in RoadAt(g, i, j).value.route
  {}

  /** `handle_transfer`. `km` gives the printed distance between two stations, empty when none is known. */
  method HandleTransfer(graph: TransferGraph, payload: string, b: Buffer, km: (string, string) -> string)
    returns (code: int, path: GraphPath)
    requires graph.Valid() && SafeWeights(graph.Contents()) && Terminable(graph.Contents(), km)
    requires b.Valid()
    modifies b, b.data
    ensures b.Valid()
    ensures Halves(payload).None? ==> code == ERR_INVALID_REQUEST && b.text == SafeCopy(INVALID, b.data.Length)
    ensures Halves(payload).Some? ==>
              var g := graph.Contents();
              var s, t := RouteNode(g, Halves(payload).value.0), RouteNode(g, Halves(payload).value.1);
              if s >= 0 && t >= 0 && Answered(g, s, t)
              then code == ERR_OK && Finds(g, s, t, path) && Printable(g, path)
                   && b.text == Answer(g, path, km, b.data.Length)
              else code == ERR_NOT_FOUND && b.text == SafeCopy(NOT_FOUND, b.data.Length)
  {
    hide Terminable, SafeWeights, RouteNode, Trimmed, Reports, Answered, Answer, IndexOf, SafeCopy, WellFormed,
         Printable;
    path := EMPTY_PATH;
    if IsBlank(payload) {
      b.Set(INVALID);
      return ERR_INVALID_REQUEST, path;
    }
    var buf := SafeCopy(payload, REQUEST_SIZE);
    var c := FindChar(buf, ':');
    if c == |buf| {
      b.Set(INVALID);
      return ERR_INVALID_REQUEST, path;
    }
    var fromIndex := ResolveByKeyword(graph.nodes, graph.nodeCount, Trimmed(buf[..c]));
    var toIndex := ResolveByKeyword(graph.nodes, graph.nodeCount, Trimmed(buf[c + 1..]));
    RouteNodeRange(graph.Contents(), Trimmed(buf[..c]));
    RouteNodeRange(graph.Contents(), Trimmed(buf[c + 1..]));
    var found := false;
    if fromIndex >= 0 && toIndex >= 0 {
      found, path := FindPath(graph, fromIndex, toIndex, path);
    }
    if !found {
      b.Set(NOT_FOUND);
      return ERR_NOT_FOUND, path;
    }
    ghost var g := graph.Contents();
    ReportPrintable(g, fromIndex, toIndex, path);
    ReportTerminable(g, fromIndex, toIndex, path, km);
    WriteAnswer(b, graph.nodes, g, path, km);
    return ERR_OK, path;
  }

  lemma RouteNodeRange(g: seq<Node>, keyword: string)
    ensures -1 <= RouteNode(g, keyword) < |g|
  {
    if !IsBlank(keyword) { RouteNodeCases(g, keyword); }
  }
}
