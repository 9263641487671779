/** Data of stations and distance rows only, and the graph src/server/data_loader.c builds of it. */
module StationData {
  import opened Basics
  import opened Text
  import opened Numbers
  import opened Graph
  import opened Walks
  import opened Canonical
  import opened ShortestPath
  import opened Loader
  import opened LoaderFacts

  /** Ids made of numbers. */
  function NumberId(i: nat): IdText { SafeCopy(Decimal(i), MAX_ID_LEN) }

  const MANY := 1_000_000

  lemma NumberIdIs(i: nat)
    requires i < MANY
    ensures NumberId(i) == Decimal(i) && DigitsValue(NumberId(i)) == i && |NumberId(i)| <= 6
  {
    hide Decimal;
    assert PowerOfTen(6) == MANY;
    DecimalLength(i, 6);
    DigitsValueOfDecimal(i);
  }

  lemma NumberIdsDiffer(i: nat, j: nat)
    requires i < MANY && j < MANY && i != j
    ensures NumberId(i) != NumberId(j)
  {
    hide NumberId, DigitsValue, Decimal;
    NumberIdIs(i);
    NumberIdIs(j);
  }

  /** Every row `k` joins the stations `ends[k]`, lower index first, and takes as many minutes as they are apart. */
  ghost predicate Indexed(data: AppData, ends: seq<(nat, nat)>) {
    && data.stops == [] && data.routes == [] && DistinctIds(data) && 0 < |ends| == |data.distances|
    && (forall k | 0 <= k < |ends| :: RowJoins(data, data.distances[k], ends[k]))
  }

  ghost predicate RowJoins(data: AppData, d: Distance, e: (nat, nat)) {
    && e.0 < e.1 < |data.stations|
    && d.from == data.stations[e.0].id && d.to == data.stations[e.1].id
    && d.minutes == e.1 - e.0 && !IsBlank(d.line)
  }

  lemma {:induction false} SubwayLinksContain(g: seq<Node>, ds: seq<Distance>, k: nat)
    requires k < |ds| && DistanceLink(g, ds[k]).a >= 0 && DistanceLink(g, ds[k]).b >= 0
    ensures DistanceLink(g, ds[k]) in SubwayLinks(g, ds)
  {
    hide DistanceLink;
    var n := |ds| - 1;
    if k < n { SubwayLinksContain(g, ds[..n], k); }
  }

  lemma StationIndex(data: AppData, j: nat)
    requires data.stops == [] && DistinctIds(data) && j < |data.stations|
    ensures NodeIndex(Skeleton(data), data.stations[j].id) == j && |Skeleton(data)| == |data.stations|
  {
    hide Skeleton, NodeIndex, DistinctIds;
    SkeletonIs(data);
    IndexIs(data, j);
    assert AllIds(data)[|data.stops| + j] == data.stations[j].id;
  }

  /** The link of a row joins the two stations by index. */
  lemma RowLink(data: AppData, d: Distance, e: (nat, nat))
    requires data.stops == [] && DistinctIds(data) && RowJoins(data, d, e)
    ensures DistanceLink(Skeleton(data), d) == Link(e.0, e.1, e.1 - e.0, d.line)
    ensures |Skeleton(data)| == |data.stations|
  {
    hide Skeleton, NodeIndex, DistinctIds, IsBlank, SubwayMinutes;
    StationIndex(data, e.0);
    StationIndex(data, e.1);
  }

  lemma IndexedLinks(data: AppData, ends: seq<(nat, nat)>)
    requires Indexed(data, ends)
    ensures |Skeleton(data)| == |data.stations| == |Built(data)|
    ensures AllLinks(Skeleton(data), data) == SubwayLinks(Skeleton(data), data.distances)
  {
    hide Skeleton, RowJoins, DistinctIds, SubwayLinks, DistanceLink, LineLinks;
    var g := Skeleton(data);
    assert RowJoins(data, data.distances[0], ends[0]);
    RowLink(data, data.distances[0], ends[0]);
    SubwayLinksContain(g, data.distances, 0);
    BuiltLength(data);
  }

  /** Row `k` leaves a road of its minutes, in both directions. */
  lemma RowRoad(data: AppData, ends: seq<(nat, nat)>, k: nat)
    requires Indexed(data, ends) && k < |ends|
    ensures Linked(Built(data), ends[k].0, ends[k].1) && Linked(Built(data), ends[k].1, ends[k].0)
  {
    hide Skeleton, DistinctIds, SubwayLinks, DistanceLink, Built, RoadAt, AllLinks, IsBlank;
    assert RowJoins(data, data.distances[k], ends[k]);
    IndexedLinks(data, ends);
    RowLink(data, data.distances[k], ends[k]);
    SubwayLinksContain(Skeleton(data), data.distances, k);
    LinkGivesRoad(data, DistanceLink(Skeleton(data), data.distances[k]));
  }

  /** And every road comes from a row: it is as heavy as its ends are apart and carries the line of that row. */
  lemma RoadRow(data: AppData, ends: seq<(nat, nat)>, u: int, v: int) returns (k: nat)
    requires Indexed(data, ends) && Linked(Built(data), u, v)
    ensures k < |ends| && ((u, v) == (ends[k].0, ends[k].1) || (u, v) == (ends[k].1, ends[k].0))
    ensures RoadWeight(Built(data), u, v) == ends[k].1 - ends[k].0
    ensures RoadAt(Built(data), u, v).value.route == data.distances[k].line
  {
    hide Skeleton, DistinctIds, SubwayLinks, DistanceLink, Built, RoadAt, AllLinks, IsBlank;
    IndexedLinks(data, ends);
    var l := RoadHasLink(data, u, v);
    SubwayLinksMember(Skeleton(data), data.distances, l);
    var d :| d in data.distances && l == DistanceLink(Skeleton(data), d);
    k :| 0 <= k < |data.distances| && data.distances[k] == d;
    assert RowJoins(data, d, ends[k]);
    RowLink(data, d, ends[k]);
  }

  // ---------------------------------------------------------------- how far nodes are

  /** Every road takes as long as the indices of its ends are apart. */
  ghost predicate Ruled(g: seq<Node>) {
    forall u: int, v: int | Linked(g, u, v) :: RoadWeight(g, u, v) == (if u < v then v - u else u - v)
  }

  lemma IndexedRuled(data: AppData, ends: seq<(nat, nat)>)
    requires Indexed(data, ends)
    ensures Ruled(Built(data)) && WellFormed(Built(data))
  {
    hide Built, RowJoins, Linked, RoadWeight, WellFormed;
    BuiltWellFormed(data);
    forall u: int, v: int | Linked(Built(data), u, v)
      ensures RoadWeight(Built(data), u, v) == (if u < v then v - u else u - v)
    {
      var k := RoadRow(data, ends, u, v);
      RowRises(data, ends, k);
    }
  }

  lemma RowRises(data: AppData, ends: seq<(nat, nat)>, k: nat)
    requires Indexed(data, ends) && k < |ends|
    ensures ends[k].0 < ends[k].1 < |data.stations|
  {
    assert RowJoins(data, data.distances[k], ends[k]);
  }

  /** No walk is lighter than the indices of its ends are apart. */
  lemma {:induction false} WalkAtLeast(g: seq<Node>, p: seq<nat>)
    requires Ruled(g) && Walk(g, p)
    ensures p[0] + Weight(g, p) >= p[|p| - 1]
    decreases |p|
  {
    hide RoadAt;
    if |p| > 1 {
      assert Linked(g, p[|p| - 2], p[|p| - 2 + 1]);
      WalkAtLeast(g, p[..|p| - 1]);
    }
  }

  ghost predicate Rising(p: seq<nat>) { forall i | 0 <= i < |p| - 1 :: p[i] < p[i + 1] }

  /** A walk up the indices weighs just that. */
  lemma {:induction false} RisingWeight(g: seq<Node>, p: seq<nat>)
    requires Ruled(g) && Walk(g, p) && Rising(p)
    ensures p[0] + Weight(g, p) == p[|p| - 1]
    decreases |p|
  {
    hide RoadAt;
    if |p| > 1 {
      assert Linked(g, p[|p| - 2], p[|p| - 2 + 1]) && p[|p| - 2] < p[|p| - 2 + 1];
      RisingWeight(g, p[..|p| - 1]);
    }
  }

  /** So such a walk is a shortest one without repetition. */
  lemma RisingShortest(g: seq<Node>, p: seq<nat>, s: int, t: int)
    requires Ruled(g) && WellFormed(g) && WalkBetween(g, p, s, t) && Rising(p)
    ensures Shortest(g, p, s, t) && Distinct(p) && Weight(g, p) == t - s
    ensures Reachable(g, s, t) && Dist(g, s, t) == t - s
  {
    hide Ruled, RoadAt, WellFormed, Dist, Reachable, Rising;
    RisingWeight(g, p);
    forall q | WalkBetween(g, q, s, t) ensures Weight(g, p) <= Weight(g, q) { WalkAtLeast(g, q); }
    RisingDistinct(p);
    assert Shortest(g, p, s, t);
    DistIs(g, s, t, p);
  }

  lemma {:induction false} RisingDistinct(p: seq<nat>)
    requires Rising(p)
    ensures Distinct(p) && forall i, j | 0 <= i < j < |p| :: p[i] < p[j]
  {
    if p != [] {
      var n := |p| - 1;
      RisingDistinct(p[..n]);
      forall i, j | 0 <= i < j < |p| ensures p[i] < p[j] {
        if j == n {
          assert p[n - 1] < p[n - 1 + 1];
          if i < n - 1 { assert p[..n][i] < p[..n][n - 1]; }
        } else {
          assert p[..n][i] < p[..n][j];
        }
      }
    }
  }

  /** The rows ask for no more minutes than the search can take. */
  lemma IndexedSearchable(data: AppData, ends: seq<(nat, nat)>)
    requires Indexed(data, ends) && |data.stations| <= INF as int
    ensures WellFormed(Built(data)) && SafeWeights(Built(data))
  {
    hide Skeleton, DistinctIds, DistanceLink, IsBlank, Built;
    forall d | d in data.distances ensures DistanceLink(Skeleton(data), d).weight <= INT_MAX - INF as int {
      var k :| 0 <= k < |data.distances| && data.distances[k] == d;
      assert RowJoins(data, d, ends[k]);
      RowLink(data, d, ends[k]);
    }
    BuiltSearchable(data);
  }
}
