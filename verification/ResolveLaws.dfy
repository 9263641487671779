/** What the two node searches find, in terms of the nodes and the keyword alone. */
module ResolveLaws {
  import opened Text
  import opened Graph
  import opened Resolve

  /** The keyword says "station". */
  ghost predicate SaysStation(keyword: string) { Contains(keyword, STATION_WORD) }

  ghost predicate Named(n: Node, keyword: string, exact: bool) {
    if exact then n.name == keyword else Contains(n.name, keyword)
  }

  ghost predicate NoId(g: seq<Node>, keyword: string) { forall j | 0 <= j < |g| :: g[j].id != keyword }

  ghost predicate NoExact(g: seq<Node>, keyword: string) { forall j | 0 <= j < |g| :: g[j].name != keyword }

  ghost predicate NamedStation(n: Node, keyword: string, exact: bool) {
    n.kind == SUBWAY_STATION && Named(n, keyword, exact)
  }

  lemma StationLikeMeans(keyword: string)
    ensures StationLike(keyword) <==> SaysStation(keyword)
  {
    KeywordMatchMeans(keyword, STATION_WORD);
    assert STATION_WORD[0] in STATION_WORD && !IsSpace(STATION_WORD[0]);
  }

  /** The tiers of a keyword, in those terms. */
  ghost predicate TiersAre(keyword: string, n: Node) {
    && (InTier(Id, keyword, n) <==> n.id == keyword)
    && (InTier(ExactStation, keyword, n) <==> SaysStation(keyword) && NamedStation(n, keyword, true))
    && (InTier(Exact, keyword, n) <==> Named(n, keyword, true))
    && (InTier(ExactLocated, keyword, n) <==> Named(n, keyword, true) && OnMap(n))
    && (InTier(PartStation, keyword, n) <==> SaysStation(keyword) && NamedStation(n, keyword, false))
    && (InTier(Part, keyword, n) <==> Named(n, keyword, false))
    && (InTier(PartLocated, keyword, n) <==> Named(n, keyword, false) && OnMap(n))
  }

  lemma TierMeans(keyword: string, n: Node)
    requires !IsBlank(keyword)
    ensures TiersAre(keyword, n)
  {
    StationLikeMeans(keyword);
    KeywordMatchMeans(n.name, keyword);
    hide Contains, KeywordMatch, IsBlank, OnMap;
  }

  lemma TiersMean(g: seq<Node>, keyword: string)
    requires !IsBlank(keyword)
    ensures forall j | 0 <= j < |g| :: TiersAre(keyword, g[j])
  {
    hide TiersAre, IsBlank;
    forall j | 0 <= j < |g| ensures TiersAre(keyword, g[j]) { TierMeans(keyword, g[j]); }
  }

  // ---------------------------------------------------------------- ids and stations

  /** The first node whose id is the keyword is found before anything else. */
  lemma IdWins(g: seq<Node>, keyword: string, i: nat)
    requires !IsBlank(keyword) && i < |g| && g[i].id == keyword && NoId(g[..i], keyword)
    ensures RouteNode(g, keyword) == i && FacilityNode(g, keyword) == i
  {
    RouteNodeCases(g, keyword);
    FacilityNodeCases(g, keyword);
    assert forall j | 0 <= j < i :: g[..i][j] == g[j];
    hide First, RouteNode, FacilityNode, IsBlank;
    FirstUnique(g, Id, keyword, i);
  }

  /** When the keyword says "station" and is no id, both searches take the first station that is named so. */
  lemma StationNamed(g: seq<Node>, keyword: string, i: nat)
    requires !IsBlank(keyword) && SaysStation(keyword) && NoId(g, keyword)
    requires i < |g| && NamedStation(g[i], keyword, true)
    requires forall j | 0 <= j < i :: !NamedStation(g[j], keyword, true)
    ensures RouteNode(g, keyword) == i && FacilityNode(g, keyword) == i
  {
    TiersMean(g, keyword);
    RouteNodeCases(g, keyword);
    FacilityNodeCases(g, keyword);
    hide First, RouteNode, FacilityNode, InTier, IsBlank, Named, SaysStation, OnMap;
    FirstUnique(g, Id, keyword, -1);
    FirstUnique(g, ExactStation, keyword, i);
  }

  /** And when nothing is named exactly so, the first station whose name contains it. */
  lemma StationNamedInPart(g: seq<Node>, keyword: string, i: nat)
    requires !IsBlank(keyword) && SaysStation(keyword) && NoId(g, keyword) && NoExact(g, keyword)
    requires i < |g| && NamedStation(g[i], keyword, false)
    requires forall j | 0 <= j < i :: !NamedStation(g[j], keyword, false)
    ensures RouteNode(g, keyword) == i && FacilityNode(g, keyword) == i
  {
    TiersMean(g, keyword);
    RouteNodeCases(g, keyword);
    FacilityNodeCases(g, keyword);
    hide First, RouteNode, FacilityNode, InTier, IsBlank, Contains, SaysStation, OnMap;
    FirstUnique(g, Id, keyword, -1);
    FirstUnique(g, ExactStation, keyword, -1);
    FirstUnique(g, ExactLocated, keyword, -1);
    FirstUnique(g, Exact, keyword, -1);
    FirstUnique(g, PartStation, keyword, i);
  }

  /** A keyword that does not say "station" is answered without regard to the kinds of the nodes. */
  lemma {:induction false} KindsDoNotMatter(g: seq<Node>, h: seq<Node>, keyword: string)
    requires !SaysStation(keyword) && |g| == |h| && forall j | 0 <= j < |g| :: h[j] == g[j].(kind := h[j].kind)
    ensures RouteNode(g, keyword) == RouteNode(h, keyword) && FacilityNode(g, keyword) == FacilityNode(h, keyword)
  {
    if !IsBlank(keyword) {
      SameFirst(g, h, keyword, Id);
      SameFirst(g, h, keyword, ExactStation);
      SameFirst(g, h, keyword, ExactLocated);
      SameFirst(g, h, keyword, Exact);
      SameFirst(g, h, keyword, PartStation);
      SameFirst(g, h, keyword, PartLocated);
      SameFirst(g, h, keyword, Part);
      RouteNodeCases(g, keyword);
      RouteNodeCases(h, keyword);
      FacilityNodeCases(g, keyword);
      FacilityNodeCases(h, keyword);
    }
  }

  lemma SameFirst(g: seq<Node>, h: seq<Node>, keyword: string, t: Tier)
    requires !SaysStation(keyword) && |g| == |h| && forall j | 0 <= j < |g| :: h[j] == g[j].(kind := h[j].kind)
    ensures First(g, t, keyword) == First(h, t, keyword)
  {
    StationLikeMeans(keyword);
    hide First, StationLike, SaysStation, KeywordMatch;
    forall j | 0 <= j < |g| ensures InTier(t, keyword, g[j]) <==> InTier(t, keyword, h[j]) {}
    FirstUnique(g, t, keyword, First(h, t, keyword));
  }

  // ---------------------------------------------------------------- names without a station

  /** No station comes in: the keyword does not say so, or no station is named so. */
  ghost predicate NoStation(g: seq<Node>, keyword: string, exact: bool) {
    SaysStation(keyword) ==> forall j | 0 <= j < |g| :: !NamedStation(g[j], keyword, exact)
  }

  /** Then the facility search takes the first node named so. */
  lemma FacilityNamed(g: seq<Node>, keyword: string, exact: bool, i: nat)
    requires !IsBlank(keyword) && NoId(g, keyword) && NoStation(g, keyword, exact) && (!exact ==> NoExact(g, keyword))
    requires i < |g| && Named(g[i], keyword, exact) && forall j | 0 <= j < i :: !Named(g[j], keyword, exact)
    ensures FacilityNode(g, keyword) == i
  {
    TiersMean(g, keyword);
    FacilityNodeCases(g, keyword);
    hide First, FacilityNode, InTier, IsBlank, Contains, SaysStation, OnMap;
    FirstUnique(g, Id, keyword, -1);
    FirstUnique(g, ExactStation, keyword, -1);
    if exact {
      FirstUnique(g, Exact, keyword, i);
    } else {
      FirstUnique(g, Exact, keyword, -1);
      FirstUnique(g, PartStation, keyword, -1);
      FirstUnique(g, Part, keyword, i);
    }
  }

  /** And the route search the first one on the map, or the first one if none is. */
  lemma RouteNamed(g: seq<Node>, keyword: string, exact: bool, i: nat)
    requires !IsBlank(keyword) && NoId(g, keyword) && NoStation(g, keyword, exact) && (!exact ==> NoExact(g, keyword))
    requires i < |g| && Named(g[i], keyword, exact)
    requires if OnMap(g[i]) then forall j | 0 <= j < i :: !(Named(g[j], keyword, exact) && OnMap(g[j]))
             else (forall j | 0 <= j < i :: !Named(g[j], keyword, exact))
                  && forall j | 0 <= j < |g| :: !(Named(g[j], keyword, exact) && OnMap(g[j]))
    ensures RouteNode(g, keyword) == i
  {
    TiersMean(g, keyword);
    RouteNodeCases(g, keyword);
    hide First, RouteNode, InTier, IsBlank, Contains, SaysStation, OnMap;
    FirstUnique(g, Id, keyword, -1);
    FirstUnique(g, ExactStation, keyword, -1);
    if exact {
      FirstUnique(g, ExactLocated, keyword, if OnMap(g[i]) then i else -1);
      if !OnMap(g[i]) { FirstUnique(g, Exact, keyword, i); }
    } else {
      FirstUnique(g, ExactLocated, keyword, -1);
      FirstUnique(g, Exact, keyword, -1);
      FirstUnique(g, PartStation, keyword, -1);
      FirstUnique(g, PartLocated, keyword, if OnMap(g[i]) then i else -1);
      if !OnMap(g[i]) { FirstUnique(g, Part, keyword, i); }
    }
  }

  /** Nothing is found exactly when the keyword is blank or neither an id nor part of a name. */
  lemma NothingFound(g: seq<Node>, keyword: string)
    ensures (RouteNode(g, keyword) == -1) == (FacilityNode(g, keyword) == -1)
    ensures RouteNode(g, keyword) == -1 <==>
            IsBlank(keyword) || forall j | 0 <= j < |g| :: g[j].id != keyword && !Contains(g[j].name, keyword)
  {
    if !IsBlank(keyword) {
      TiersMean(g, keyword);
      RouteNodeCases(g, keyword);
      FacilityNodeCases(g, keyword);
      forall j | 0 <= j < |g| && g[j].name == keyword ensures Contains(g[j].name, keyword) {
        assert g[j].name == "" + keyword + "";
      }
      hide RouteNode, FacilityNode, InTier, IsBlank, Contains, SaysStation, OnMap;
      FirstMeans(g, Id, keyword);
      FirstMeans(g, ExactStation, keyword);
      FirstMeans(g, ExactLocated, keyword);
      FirstMeans(g, Exact, keyword);
      FirstMeans(g, PartStation, keyword);
      FirstMeans(g, PartLocated, keyword);
      FirstMeans(g, Part, keyword);
      hide First;
    }
  }

  lemma FirstMeans(g: seq<Node>, t: Tier, keyword: string)
    ensures First(g, t, keyword) >= -1
    ensures First(g, t, keyword) >= 0 <==> exists j :: 0 <= j < |g| && InTier(t, keyword, g[j])
  {
    hide First, InTier;
    assert IsFirst(g, t, keyword, First(g, t, keyword));
  }
}
