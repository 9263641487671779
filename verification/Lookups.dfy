/**
 The two list searches whose items are guarded by size and by count: stops by name or id
 (src/server/search_service.c) and facilities near a node (src/server/facility_service.c).
 */
module Lookups {
  import opened Basics
  import opened Text
  import opened Splitting
  import opened Graph
  import opened Resolve
  import opened Responses

  function FirstN<T>(s: seq<T>, n: nat): seq<T> { if |s| <= n then s else s[..n] }

  /** The next of the items is what the rest of the list starts with. */
  lemma NextItem(all: seq<string>, taken: seq<string>, max: nat, item: string, rest: seq<string>)
    requires all == taken + ([item] + rest) && |taken| < max
    ensures |taken| < |FirstN(all, max)| && FirstN(all, max)[|taken|] == item
    ensures all == (taken + [item]) + rest
  {
    assert all[|taken|] == item;
  }

  /** The items run out at the end of the list or at the maximum. */
  lemma AllTaken(all: seq<string>, taken: seq<string>, max: nat, rest: seq<string>)
    requires all == taken + rest && |taken| <= max
    ensures |taken| <= |FirstN(all, max)|
    ensures |taken| == max || rest == [] ==> |taken| == |FirstN(all, max)|
  {}

  /** The outcome of a search that reports an empty list as not found. */
  ghost predicate SearchOutcome(code: int, text: string, head: string, items: seq<string>, slack: nat,
                                notFound: string, size: nat)
    requires size > 0
  {
    if |head| + 2 <= size
    then exists k :: Fitting(head, items, slack, size, k)
           && (if k == 0 then code == ERR_NOT_FOUND && text == SafeCopy(notFound, size)
               else code == ERR_OK && text == Line(head, items, k))
    else code == ERR_NOT_FOUND && text == SafeCopy(notFound, size)
  }

  /** Ends a search: the empty answer when nothing was written, the line end otherwise. */
  method Conclude(b: Buffer, head: string, notFound: string, count: nat, ghost items: seq<string>, ghost slack: nat)
    returns (code: int)
    requires Responses.Holds(b, head, items, slack, count) && '\0' !in notFound
    requires |head| + 2 <= b.data.Length ==> Fitting(head, items, slack, b.data.Length, count)
    modifies b, b.data
    ensures b.Valid() && SearchOutcome(code, b.text, head, items, slack, notFound, b.data.Length)
  {
    hide Join, Room;
    if count == 0 {
      b.Set(notFound);
      return ERR_NOT_FOUND;
    }
    var ok := b.Append("\n");
    assert b.text == Line(head, items, count);
    return ERR_OK;
  }

  /** The response of a search is one whole line inside the buffer, of complete items only or the empty answer, exactly
      when the buffer is at least two bytes longer than the header. */
  lemma SearchResponseWhole(code: int, text: string, head: string, items: seq<string>, slack: nat, notFound: string,
                            size: nat)
    requires size > 0 && slack >= 2 && SearchOutcome(code, text, head, items, slack, notFound, size)
    requires notFound != "" && notFound[|notFound| - 1] == '\n' && '\n' !in notFound[..|notFound| - 1]
               && |notFound| == |head| + 1
    requires '\n' !in head && forall t | t in items :: '\n' !in t
    ensures |text| < size
    ensures (text != "" && text[|text| - 1] == '\n' && '\n' !in text[..|text| - 1]) <==> |head| + 2 <= size
  {
    hide Join, Room;
    if |head| + 2 <= size {
      var k :| Fitting(head, items, slack, size, k)
               && text == (if k == 0 then SafeCopy(notFound, size) else Line(head, items, k));
      LineFits(head, items, slack, size, k);
      LineIsWhole(head, items, k);
    } else {
      assert text <= notFound && |text| < |notFound|;
      assert text == notFound[..|notFound| - 1][..|text|];
    }
  }

  // ---------------------------------------------------------------- stops

  const STOP_MAX := 100
  const STOP_SLACK := 2
  const STOP_HEAD := "STOP_SEARCH_RES|0|"
  const STOP_NOT_FOUND := "STOP_SEARCH_RES|1|\n"

  /** A stop with the text of the routes that serve it. */
  datatype StopEntry = StopEntry(id: string, name: string, routes: string)

  predicate StopMatches(s: StopEntry, keyword: string) { KeywordMatch(s.name, keyword) || s.id == keyword }

  function StopItem(s: StopEntry): string { s.id + ":" + s.name + ":" + s.routes }

  function StopItems(stops: seq<StopEntry>, keyword: string): seq<string> {
    if stops == [] then []
    else (if StopMatches(stops[0], keyword) then [StopItem(stops[0])] else []) + StopItems(stops[1..], keyword)
  }

  /** `handle_stop_search`: the first hundred matches, as far as they fit. */
  method SearchStops(stops: seq<StopEntry>, keyword: string, b: Buffer) returns (code: int)
    requires b.Valid() && forall s | s in stops :: '\0' !in StopItem(s)
    modifies b, b.data
    ensures b.Valid()
    ensures if IsBlank(keyword) || HasProtocolDelimiter(keyword)
            then code == ERR_INVALID_REQUEST && b.text == SafeCopy(INVALID, b.data.Length)
            else SearchOutcome(code, b.text, STOP_HEAD, FirstN(StopItems(stops, keyword), STOP_MAX), STOP_SLACK,
                               STOP_NOT_FOUND, b.data.Length)
  {
    hide Holds, Fitting, SearchOutcome, StopItem, StopMatches, StopItems, IsBlank, HasProtocolDelimiter, SafeCopy,
         FirstN;
    if IsBlank(keyword) || HasProtocolDelimiter(keyword) {
      b.Set(INVALID);
      return ERR_INVALID_REQUEST;
    }
    ghost var all := StopItems(stops, keyword);
    ghost var items, taken := FirstN(all, STOP_MAX), [];
    Start(b, STOP_HEAD, items, STOP_SLACK);
    var count := 0;
    var rest := stops;
    assert all == taken + all;
    while rest != []
      invariant count == |taken| <= STOP_MAX && all == taken + StopItems(rest, keyword)
      invariant Responses.Holds(b, STOP_HEAD, items, STOP_SLACK, count)
      invariant forall r | r in rest :: '\0' !in StopItem(r)
      decreases |rest|
    {
      var s := rest[0];
      StopItemsNext(rest, keyword);
      if StopMatches(s, keyword) {
        if count >= STOP_MAX { break; }
        NextItem(all, taken, STOP_MAX, StopItem(s), StopItems(rest[1..], keyword));
        var ok := AddItem(b, StopItem(s), STOP_SLACK, count, STOP_HEAD, items);
        if !ok { break; }
        count := count + 1;
        taken := taken + [StopItem(s)];
      }
      rest := rest[1..];
    }
    StopItemsNext(rest, keyword);
    AllTaken(all, taken, STOP_MAX, StopItems(rest, keyword));
    HoldsAll(b, STOP_HEAD, items, STOP_SLACK, count);
    code := Conclude(b, STOP_HEAD, STOP_NOT_FOUND, count, items, STOP_SLACK);
  }

  lemma StopItemsNext(stops: seq<StopEntry>, keyword: string)
    ensures StopItems(stops, keyword) ==
            if stops == [] then []
            else if StopMatches(stops[0], keyword) then [StopItem(stops[0])] + StopItems(stops[1..], keyword)
            else StopItems(stops[1..], keyword)
  {
    hide StopMatches, StopItem;
  }

  // ---------------------------------------------------------------- facilities

  const FACILITY_MAX := 10
  const FACILITY_SLACK := 13
  const FACILITY_HEAD := "FACILITY_RES|0|"
  const FACILITY_NOT_FOUND := "FACILITY_RES|1|\n"

  datatype Facility = Facility(name: string, category: string, nodeId: string, address: string)

  predicate FacilityMatches(f: Facility, nodeId: string, category: string) {
    f.nodeId == nodeId && (IsBlank(category) || category == "all" || KeywordMatch(f.category, category))
  }

  function FacilityItem(f: Facility): string { f.name + ":" + f.category + ":" + f.nodeId + ":" + f.address }

  function FacilityItems(fs: seq<Facility>, nodeId: string, category: string): seq<string> {
    if fs == [] then []
    else
      (if FacilityMatches(fs[0], nodeId, category) then [FacilityItem(fs[0])] else [])
      + FacilityItems(fs[1..], nodeId, category)
  }

  /** The list loop of `handle_facility`: the first ten matches, as far as they fit. */
  method ListFacilities(fs: seq<Facility>, nodeId: string, category: string, b: Buffer) returns (code: int)
    requires b.Valid() && forall f | f in fs :: '\0' !in FacilityItem(f)
    modifies b, b.data
    ensures b.Valid()
    ensures SearchOutcome(code, b.text, FACILITY_HEAD, FirstN(FacilityItems(fs, nodeId, category), FACILITY_MAX),
                          FACILITY_SLACK, FACILITY_NOT_FOUND, b.data.Length)
  {
    hide Holds, Fitting, SearchOutcome, FacilityItem, FacilityMatches, FacilityItems, SafeCopy, FirstN;
    ghost var all := FacilityItems(fs, nodeId, category);
    ghost var items, taken := FirstN(all, FACILITY_MAX), [];
    Start(b, FACILITY_HEAD, items, FACILITY_SLACK);
    var count := 0;
    var rest := fs;
    assert all == taken + all;
    while rest != []
      invariant count == |taken| <= FACILITY_MAX && all == taken + FacilityItems(rest, nodeId, category)
      invariant Responses.Holds(b, FACILITY_HEAD, items, FACILITY_SLACK, count)
      invariant forall r | r in rest :: '\0' !in FacilityItem(r)
      decreases |rest|
    {
      var s := rest[0];
      FacilityItemsNext(rest, nodeId, category);
      if FacilityMatches(s, nodeId, category) {
        if count >= FACILITY_MAX { break; }
        NextItem(all, taken, FACILITY_MAX, FacilityItem(s), FacilityItems(rest[1..], nodeId, category));
        var ok := AddItem(b, FacilityItem(s), FACILITY_SLACK, count, FACILITY_HEAD, items);
        if !ok { break; }
        count := count + 1;
        taken := taken + [FacilityItem(s)];
      }
      rest := rest[1..];
    }
    FacilityItemsNext(rest, nodeId, category);
    AllTaken(all, taken, FACILITY_MAX, FacilityItems(rest, nodeId, category));
    HoldsAll(b, FACILITY_HEAD, items, FACILITY_SLACK, count);
    code := Conclude(b, FACILITY_HEAD, FACILITY_NOT_FOUND, count, items, FACILITY_SLACK);
  }

  lemma FacilityItemsNext(fs: seq<Facility>, nodeId: string, category: string)
    ensures FacilityItems(fs, nodeId, category) ==
            if fs == [] then []
            else if FacilityMatches(fs[0], nodeId, category) then
              [FacilityItem(fs[0])] + FacilityItems(fs[1..], nodeId, category)
            else FacilityItems(fs[1..], nodeId, category)
  {
    hide FacilityMatches, FacilityItem;
  }

  /** `handle_facility`. */
  method FindFacilities(graph: TransferGraph, fs: seq<Facility>, payload: string, b: Buffer) returns (code: int)
    requires graph.Valid() && b.Valid() && forall f | f in fs :: '\0' !in FacilityItem(f)
    modifies b, b.data
    ensures b.Valid()
    ensures Halves(payload).None? ==> code == ERR_INVALID_REQUEST && b.text == SafeCopy(INVALID, b.data.Length)
    ensures Halves(payload).Some? ==>
              var g, (place, category) := graph.Contents(), Halves(payload).value;
              var v := FacilityNode(g, place);
              if v < 0 then code == ERR_NOT_FOUND && b.text == SafeCopy(FACILITY_NOT_FOUND, b.data.Length)
              else v < |g| && SearchOutcome(code, b.text, FACILITY_HEAD,
                  FirstN(FacilityItems(fs, g[v].id, category), FACILITY_MAX),
                                            FACILITY_SLACK, FACILITY_NOT_FOUND, b.data.Length)
  {
    hide FacilityNode, FacilityItems, SearchOutcome, Trimmed, IndexOf;
    if IsBlank(payload) {
      b.Set(INVALID);
      return ERR_INVALID_REQUEST;
    }
    var buf := SafeCopy(payload, REQUEST_SIZE);
    var c := FindChar(buf, ':');
    if c == |buf| {
      b.Set(INVALID);
      return ERR_INVALID_REQUEST;
    }
    var v := ResolveId(graph.nodes, graph.nodeCount, Trimmed(buf[..c]));
    FacilityNodeRange(graph.Contents(), Trimmed(buf[..c]));
    if v < 0 {
      b.Set(FACILITY_NOT_FOUND);
      return ERR_NOT_FOUND;
    }
    code := ListFacilities(fs, graph.nodes[v].id, Trimmed(buf[c + 1..]), b);
  }

  lemma FacilityNodeRange(g: seq<Node>, keyword: string)
    ensures -1 <= FacilityNode(g, keyword) < |g|
  {
    if !IsBlank(keyword) { FacilityNodeCases(g, keyword); }
  }
}
