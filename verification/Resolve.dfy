/**
 Two searches for the node a user means: `resolve_node_by_keyword` (src/server/transfer_service.c) and
 `resolve_node_id` (src/server/facility_service.c), both against one ranking of matches.
 */
module Resolve {
  import opened Basics
  import opened Text
  import opened Graph

  /** The UTF-8 bytes of the Korean word for "station". */
  const STATION_WORD: string := [0xEC as char, 0x97 as char, 0xAD as char]

  // ---------------------------------------------------------------- the ranking

  datatype Tier = Id | ExactStation | ExactLocated | Exact | PartStation | PartLocated | Part

  predicate OnMap(n: Node) { HasCoordinates(n.lat, n.lng) }

  predicate StationLike(keyword: string) { KeywordMatch(keyword, STATION_WORD) }

  predicate StationHit(keyword: string, n: Node) { StationLike(keyword) && n.kind == SUBWAY_STATION }

  predicate InTier(t: Tier, keyword: string, n: Node) {
    match t
    case Id => n.id == keyword
    case ExactStation => n.name == keyword && StationHit(keyword, n)
    case ExactLocated => n.name == keyword && OnMap(n)
    case Exact => n.name == keyword
    case PartStation => KeywordMatch(n.name, keyword) && StationHit(keyword, n)
    case PartLocated => KeywordMatch(n.name, keyword) && OnMap(n)
    case Part => KeywordMatch(n.name, keyword)
  }

  /** `i` is the lowest index of the tier, or -1 when the tier is empty. */
  ghost predicate IsFirst(g: seq<Node>, t: Tier, keyword: string, i: int) {
    && -1 <= i < |g| && (i >= 0 ==> InTier(t, keyword, g[i]))
    && forall j | 0 <= j < (if i >= 0 then i else |g|) :: !InTier(t, keyword, g[j])
  }

  function First(g: seq<Node>, t: Tier, keyword: string): (i: int)
    ensures IsFirst(g, t, keyword, i)
  {
    if g == [] then -1
    else
      var i := First(g[..|g| - 1], t, keyword);
      assert forall j | 0 <= j < |g| - 1 :: g[..|g| - 1][j] == g[j];
      if i >= 0 then i else if InTier(t, keyword, g[|g| - 1]) then |g| - 1 else -1
  }

  /** The lowest index in the first tier that is not empty. */
  function Best(g: seq<Node>, keyword: string, tiers: seq<Tier>): int {
    if tiers == [] then -1
    else if First(g, tiers[0], keyword) >= 0 then First(g, tiers[0], keyword)
    else Best(g, keyword, tiers[1..])
  }

  const ROUTE_TIERS := [Id, ExactStation, ExactLocated, Exact, PartStation, PartLocated, Part]
  const FACILITY_TIERS := [Id, ExactStation, Exact, PartStation, Part]

  function RouteNode(g: seq<Node>, keyword: string): int {
    if IsBlank(keyword) then -1 else Best(g, keyword, ROUTE_TIERS)
  }

  function FacilityNode(g: seq<Node>, keyword: string): int {
    if IsBlank(keyword) then -1 else Best(g, keyword, FACILITY_TIERS)
  }

  lemma FirstUnique(g: seq<Node>, t: Tier, keyword: string, i: int)
    requires IsFirst(g, t, keyword, i)
    ensures First(g, t, keyword) == i
  {}

  lemma BestAt(g: seq<Node>, keyword: string, tiers: seq<Tier>, k: nat)
    requires k <= |tiers|
    ensures Best(g, keyword, tiers[k..]) ==
            if k == |tiers| then -1
            else if First(g, tiers[k], keyword) >= 0 then First(g, tiers[k], keyword)
            else Best(g, keyword, tiers[k + 1..])
  {
    assert k < |tiers| ==> tiers[k..][1..] == tiers[k + 1..] && tiers[k..][0] == tiers[k];
  }

  lemma RouteNodeCases(g: seq<Node>, keyword: string)
    requires !IsBlank(keyword)
    ensures RouteNode(g, keyword) ==
            var f := (t: Tier) => First(g, t, keyword);
            if f(Id) >= 0 then f(Id) else if f(ExactStation) >= 0 then f(ExactStation)
            else if f(ExactLocated) >= 0 then f(ExactLocated) else if f(Exact) >= 0 then f(Exact)
            else if f(PartStation) >= 0 then f(PartStation) else if f(PartLocated) >= 0 then f(PartLocated) else f(Part)
  {
    hide First, Best;
    var t := ROUTE_TIERS;
    assert t[0..] == t && First(g, Part, keyword) >= -1;
    BestAt(g, keyword, t, 0);
    BestAt(g, keyword, t, 1);
    BestAt(g, keyword, t, 2);
    BestAt(g, keyword, t, 3);
    BestAt(g, keyword, t, 4);
    BestAt(g, keyword, t, 5);
    BestAt(g, keyword, t, 6);
    BestAt(g, keyword, t, 7);
  }

  lemma FacilityNodeCases(g: seq<Node>, keyword: string)
    requires !IsBlank(keyword)
    ensures FacilityNode(g, keyword) ==
            var f := (t: Tier) => First(g, t, keyword);
            if f(Id) >= 0 then f(Id) else if f(ExactStation) >= 0 then f(ExactStation)
            else if f(Exact) >= 0 then f(Exact)
            else if f(PartStation) >= 0 then f(PartStation) else f(Part)
  {
    hide First, Best;
    var t := FACILITY_TIERS;
    assert t[0..] == t && First(g, Part, keyword) >= -1;
    BestAt(g, keyword, t, 0);
    BestAt(g, keyword, t, 1);
    BestAt(g, keyword, t, 2);
    BestAt(g, keyword, t, 3);
    BestAt(g, keyword, t, 4);
    BestAt(g, keyword, t, 5);
  }

  // ---------------------------------------------------------------- when the two agree

  /** The name tier that decides when neither an id nor a station settles the matter. */
  function Deciding(g: seq<Node>, keyword: string): Option<Tier> {
    if First(g, Id, keyword) >= 0 || First(g, ExactStation, keyword) >= 0 then None
    else if First(g, Exact, keyword) >= 0 then Some(Exact)
    else if First(g, PartStation, keyword) >= 0 || First(g, Part, keyword) < 0 then None
    else Some(Part)
  }

  /** In the deciding tier the first match has coordinates, or no match has. */
  ghost predicate FirstMatchLocated(g: seq<Node>, keyword: string) {
    match Deciding(g, keyword)
    case None => true
    case Some(t) =>
      OnMap(g[First(g, t, keyword)]) || forall j | 0 <= j < |g| && InTier(t, keyword, g[j]) :: !OnMap(g[j])
  }

  /** The two searches pick the same node exactly when the first match that decides is located or
      nothing in its tier is. */
  lemma ResolversAgreeIff(g: seq<Node>, keyword: string)
    requires !IsBlank(keyword)
    ensures RouteNode(g, keyword) == FacilityNode(g, keyword) <==> FirstMatchLocated(g, keyword)
  {
    RouteNodeCases(g, keyword);
    FacilityNodeCases(g, keyword);
    hide First, RouteNode, FacilityNode;
    LocatedFirst(g, keyword, Exact, ExactLocated);
    LocatedFirst(g, keyword, Part, PartLocated);
  }

  lemma LocatedFirst(g: seq<Node>, keyword: string, t: Tier, located: Tier)
    requires (t == Exact && located == ExactLocated) || (t == Part && located == PartLocated)
    ensures var i, l := First(g, t, keyword), First(g, located, keyword);
            && (i < 0 ==> l < 0)
            && (i >= 0 ==> (l < 0 <==> forall j | 0 <= j < |g| && InTier(t, keyword, g[j]) :: !OnMap(g[j])))
            && (i >= 0 ==> (l == i <==> OnMap(g[i])))
  {
    hide First, KeywordMatch;
    var i, l := First(g, t, keyword), First(g, located, keyword);
    assert forall n: Node :: InTier(located, keyword, n) <==> InTier(t, keyword, n) && OnMap(n);
  }

  /** They do differ: of two namesakes without station status, one search takes the first and the
      other the one on the map. */
  lemma NamesakesDiffer(a: Node, b: Node, keyword: string)
    requires !IsBlank(keyword) && a.name == b.name == keyword && a.id != keyword && b.id != keyword
    requires a.kind != SUBWAY_STATION && b.kind != SUBWAY_STATION && !OnMap(a) && OnMap(b)
    ensures FacilityNode([a, b], keyword) == 0 && RouteNode([a, b], keyword) == 1
  {
    var g := [a, b];
    RouteNodeCases(g, keyword);
    FacilityNodeCases(g, keyword);
    hide First, RouteNode, FacilityNode, KeywordMatch;
    FirstUnique(g, Id, keyword, -1);
    FirstUnique(g, ExactStation, keyword, -1);
    FirstUnique(g, ExactLocated, keyword, 1);
    FirstUnique(g, Exact, keyword, 0);
  }

  /** When every node is located they agree on every keyword. */
  lemma ResolversAgree(g: seq<Node>, keyword: string)
    requires forall i | 0 <= i < |g| :: OnMap(g[i])
    ensures RouteNode(g, keyword) == FacilityNode(g, keyword)
  {
    if !IsBlank(keyword) {
      ResolversAgreeIff(g, keyword);
    }
  }

  // ---------------------------------------------------------------- the scans

  /** The first loop of both searches. */
  method FindId(nodes: array<Node>, n: nat, keyword: string) returns (r: int)
    requires n <= nodes.Length
    ensures r == First(nodes[..n], Id, keyword)
  {
    var i := 0;
    while i < n
      invariant 0 <= i <= n && forall j | 0 <= j < i :: !InTier(Id, keyword, nodes[j])
    {
      if nodes[i].id == keyword {
        FirstUnique(nodes[..n], Id, keyword, i);
        return i;
      }
      i := i + 1;
    }
    FirstUnique(nodes[..n], Id, keyword, -1);
    return -1;
  }

  /** The three tiers of one kind of name match. */
  function Matches(exact: bool): (Tier, Tier, Tier) {
    if exact then (ExactStation, ExactLocated, Exact) else (PartStation, PartLocated, Part)
  }

  predicate NameMatch(exact: bool, name: string, keyword: string) {
    if exact then name == keyword else KeywordMatch(name, keyword)
  }

  lemma TiersOfMatch(exact: bool, keyword: string, n: Node)
    ensures InTier(Matches(exact).2, keyword, n) <==> NameMatch(exact, n.name, keyword)
    ensures InTier(Matches(exact).0, keyword, n) <==> NameMatch(exact, n.name, keyword) && StationHit(keyword, n)
    ensures InTier(Matches(exact).1, keyword, n) <==> NameMatch(exact, n.name, keyword) && OnMap(n)
  {}

  /** The result of one name scan over the nodes: the best of its tiers. */
  function Scanned(g: seq<Node>, exact: bool, keyword: string): int {
    var (s, l, m) := Matches(exact);
    if First(g, s, keyword) >= 0 then First(g, s, keyword)
    else if First(g, l, keyword) >= 0 then First(g, l, keyword)
    else First(g, m, keyword)
  }

  /** The name loops of `resolve_node_by_keyword`: they remember the first located match and the first other one. */
  method ScanLocated(nodes: array<Node>, n: nat, exact: bool, keyword: string) returns (r: int)
    requires n <= nodes.Length
    ensures r == Scanned(nodes[..n], exact, keyword)
  {
    hide First, KeywordMatch, StationHit, NameMatch;
    ghost var g := nodes[..n];
    ghost var s, l, m := Matches(exact).0, Matches(exact).1, Matches(exact).2;
    var candidate, coordinateCandidate := -1, -1;
    var i := 0;
    while i < n
      invariant 0 <= i <= n && g == nodes[..n]
      invariant IsFirst(g[..i], s, keyword, -1)
      invariant IsFirst(g[..i], l, keyword, coordinateCandidate)
      invariant coordinateCandidate < 0 ==> IsFirst(g[..i], m, keyword, candidate)
    {
      TiersOfMatch(exact, keyword, g[i]);
      assert g[..i + 1] == g[..i] + [g[i]];
      if NameMatch(exact, nodes[i].name, keyword) {
        if StationHit(keyword, nodes[i]) {
          FirstUnique(g, s, keyword, i);
          return i;
        }
        if coordinateCandidate < 0 && OnMap(nodes[i]) {
          coordinateCandidate := i;
        } else if candidate < 0 {
          candidate := i;
        }
      }
      i := i + 1;
    }
    assert g[..n] == g;
    FirstUnique(g, s, keyword, -1);
    FirstUnique(g, l, keyword, coordinateCandidate);
    if coordinateCandidate >= 0 { return coordinateCandidate; }
    FirstUnique(g, m, keyword, candidate);
    return candidate;
  }

  /** `resolve_node_by_keyword`. */
  method ResolveByKeyword(nodes: array<Node>, n: nat, keyword: string) returns (r: int)
    requires n <= nodes.Length
    ensures r == RouteNode(nodes[..n], keyword)
  {
    if IsBlank(keyword) { return -1; }
    RouteNodeCases(nodes[..n], keyword);
    hide First, RouteNode;
    r := FindId(nodes, n, keyword);
    if r >= 0 { return; }
    r := ScanLocated(nodes, n, true, keyword);
    if r >= 0 { return; }
    r := ScanLocated(nodes, n, false, keyword);
  }

  /** The exact-name loop of `resolve_node_id`. */
  method ScanExact(nodes: array<Node>, n: nat, keyword: string) returns (r: int)
    requires n <= nodes.Length
    ensures var g := nodes[..n];
            r == if First(g, ExactStation, keyword) >= 0 then First(g, ExactStation, keyword)
                 else First(g, Exact, keyword)
  {
    hide First, StationLike;
    ghost var g := nodes[..n];
    var candidate := -1;
    var i := 0;
    while i < n
      invariant 0 <= i <= n
      invariant IsFirst(g[..i], ExactStation, keyword, -1) && IsFirst(g[..i], Exact, keyword, candidate)
    {
      assert g[..i + 1] == g[..i] + [g[i]];
      if nodes[i].name == keyword {
        if StationHit(keyword, nodes[i]) {
          FirstUnique(g, ExactStation, keyword, i);
          return i;
        }
        if candidate < 0 { candidate := i; }
      }
      i := i + 1;
    }
    assert g[..n] == g;
    FirstUnique(g, ExactStation, keyword, -1);
    FirstUnique(g, Exact, keyword, candidate);
    return candidate;
  }

  /** The partial-name loop of `resolve_node_id`: a station overtakes the candidate and ends the loop. */
  method ScanPart(nodes: array<Node>, n: nat, keyword: string) returns (r: int)
    requires n <= nodes.Length
    ensures var g := nodes[..n];
            r == if First(g, PartStation, keyword) >= 0 then First(g, PartStation, keyword) else First(g, Part, keyword)
  {
    hide First, StationLike, KeywordMatch;
    ghost var g := nodes[..n];
    var candidate := -1;
    var i := 0;
    while i < n
      invariant 0 <= i <= n
      invariant IsFirst(g[..i], PartStation, keyword, -1) && IsFirst(g[..i], Part, keyword, candidate)
    {
      assert g[..i + 1] == g[..i] + [g[i]];
      if KeywordMatch(nodes[i].name, keyword) {
        if candidate < 0 || StationHit(keyword, nodes[i]) {
          candidate := i;
          if StationHit(keyword, nodes[i]) {
            FirstUnique(g, PartStation, keyword, i);
            return candidate;
          }
        }
      }
      i := i + 1;
    }
    assert g[..n] == g;
    FirstUnique(g, PartStation, keyword, -1);
    FirstUnique(g, Part, keyword, candidate);
    return candidate;
  }

  /** `resolve_node_id`, as the index of the node whose id it returns. */
  method ResolveId(nodes: array<Node>, n: nat, keyword: string) returns (r: int)
    requires n <= nodes.Length
    ensures r == FacilityNode(nodes[..n], keyword)
  {
    if IsBlank(keyword) { return -1; }
    FacilityNodeCases(nodes[..n], keyword);
    hide First, FacilityNode;
    r := FindId(nodes, n, keyword);
    if r >= 0 { return; }
    r := ScanExact(nodes, n, keyword);
    if r >= 0 { return; }
    r := ScanPart(nodes, n, keyword);
  }
}
