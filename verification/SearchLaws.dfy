/** What the three list searches find, and what of it the user sees. */
module SearchLaws {
  import opened Basics
  import opened Text
  import opened Numbers
  import opened Splitting
  import opened Packets
  import opened Responses
  import opened FixedGuard
  import opened Lookups
  import opened StationSearch
  import opened BusSearch
  import opened ListItems

  /** The elements with a property, in their order. */
  function Those<T>(s: seq<T>, p: T -> bool): seq<T> {
    if s == [] then [] else (if p(s[0]) then [s[0]] else []) + Those(s[1..], p)
  }

  function Rows<T>(s: seq<T>, row: T -> seq<string>): (rows: seq<seq<string>>)
    ensures |rows| == |s| && forall i | 0 <= i < |s| :: rows[i] == row(s[i])
  {
    seq(|s|, i requires 0 <= i < |s| => row(s[i]))
  }

  /** A keyword finds a text when it is not blank and the text contains it. */
  ghost predicate Finds(keyword: string, text: string) { !IsBlank(keyword) && Contains(text, keyword) }

  lemma FindsIs(keyword: string, text: string)
    ensures Finds(keyword, text) <==> KeywordMatch(text, keyword)
  {
    KeywordMatchMeans(text, keyword);
  }

  lemma {:induction false} ThoseMembers<T>(s: seq<T>, p: T -> bool)
    ensures forall x | x in Those(s, p) :: x in s && p(x)
  {
    if s != [] { ThoseMembers(s[1..], p); }
  }

  /** The first `n` of the rows are the rows of the first `n`. */
  lemma FirstRows<T>(s: seq<T>, row: T -> seq<string>, n: nat)
    ensures FirstN(RowTexts(Rows(s, row)), n) == RowTexts(Rows(FirstN(s, n), row))
  {
    hide RowText;
  }

  lemma RowNext<T>(x: T, s: seq<T>, row: T -> seq<string>)
    ensures RowTexts(Rows([x] + s, row)) == [RowText(row(x))] + RowTexts(Rows(s, row))
  {
    hide RowText;
  }

  lemma ThreeParts(a: string, b: string, c: string)
    ensures Join([a, b, c], ":") == a + ":" + b + ":" + c
  {
    hide Join;
    var parts := [a, b, c];
    JoinNext(parts, ":", 0);
    JoinNext(parts, ":", 1);
    JoinNext(parts, ":", 2);
    assert parts[..3] == parts;
  }

  lemma FourFields(a: string, b: string, c: string, d: string)
    ensures RowText([a, b, c]) == a + ":" + b + ":" + c
    ensures RowText([a, b, c, d]) == a + ":" + b + ":" + c + ":" + d
  {
    hide Join;
    ThreeParts(a, b, c);
    assert [a, b, c, d][..3] == [a, b, c];
    JoinNext([a, b, c, d], ":", 3);
    assert [a, b, c, d][..4] == [a, b, c, d];
  }

  // ---------------------------------------------------------------- stops

  /** A stop is found by a part of its name or by its id. */
  ghost predicate StopSought(keyword: string, s: StopEntry) { Finds(keyword, s.name) || s.id == keyword }

  ghost function StopsFound(stops: seq<StopEntry>, keyword: string): seq<StopEntry> {
    Those(stops, s => StopSought(keyword, s))
  }

  /** Id, name and routes, in this order. */
  function StopRow(s: StopEntry): seq<string> { [s.id, s.name, s.routes] }

  function StopRows(stops: seq<StopEntry>): seq<seq<string>> { Rows(stops, StopRow) }

  /** The items of the search are the rows of the stops found, in list order. */
  lemma {:induction false} StopItemsAre(stops: seq<StopEntry>, keyword: string)
    ensures StopItems(stops, keyword) == RowTexts(StopRows(StopsFound(stops, keyword)))
  {
    hide RowText, StopSought, Finds, StopMatches, StopItem;
    if stops != [] {
      var s := stops[0];
      StopItemsAre(stops[1..], keyword);
      StopItemsNext(stops, keyword);
      StopIsSought(keyword, s);
      StopItemIs(s);
      RowNext(s, StopsFound(stops[1..], keyword), StopRow);
    }
  }

  lemma StopIsSought(keyword: string, s: StopEntry)
    ensures StopSought(keyword, s) <==> StopMatches(s, keyword)
  {
    FindsIs(keyword, s.name);
  }

  lemma StopItemIs(s: StopEntry)
    ensures StopItem(s) == RowText(StopRow(s))
  {
    FourFields(s.id, s.name, s.routes, "");
  }

  /** The user is shown the first stops found, as many as fit the response and at most a hundred, each with id, name and
      routes; with none to show the answer says so. */
  lemma {:induction false} StopsShown(stops: seq<StopEntry>, keyword: string, code: int, text: string, size: nat,
                                      w: LongWidth)
    requires forall s | s in stops :: CleanRow(StopRow(s))
    requires |STOP_HEAD| + 2 <= size <= MAX_PACKET_SIZE
    requires SearchOutcome(code, text, STOP_HEAD, FirstN(StopItems(stops, keyword), STOP_MAX), STOP_SLACK,
                           STOP_NOT_FOUND, size)
    ensures var found := FirstN(StopsFound(stops, keyword), 100);
            var shown := if code == ERR_OK then ListShown(ParseHeader(text, w).payload) else [];
            shown <= StopRows(found) && Fitting(STOP_HEAD, RowTexts(StopRows(found)), STOP_SLACK, size, |shown|)
  {
    hide CleanRow, ListShown, ParseHeader, SearchOutcome, Fitting, StopItems, StopSought, RowText;
    var found := FirstN(StopsFound(stops, keyword), 100);
    StopItemsAre(stops, keyword);
    FirstRows(StopsFound(stops, keyword), StopRow, STOP_MAX);
    ThoseMembers(stops, s => StopSought(keyword, s));
    RowsClean(stops, found, StopRow);
    assert STOP_HEAD == "STOP_SEARCH_RES" + "|0|";
    OutcomeShown("STOP_SEARCH_RES", StopRows(found), STOP_SLACK, STOP_NOT_FOUND, code, text, size, w);
  }

  lemma RowsClean<T>(all: seq<T>, some: seq<T>, row: T -> seq<string>)
    requires (forall x | x in all :: CleanRow(row(x))) && forall x | x in some :: x in all
    ensures forall r | r in Rows(some, row) :: CleanRow(r)
  {
    hide CleanRow;
  }

  // ---------------------------------------------------------------- facilities

  /** A facility is found at its node when its category contains the one asked for; none asked for, or "all", takes
      every category. */
  ghost predicate FacilitySought(nodeId: string, category: string, f: Facility) {
    f.nodeId == nodeId && (Finds(category, f.category) || IsBlank(category) || category == "all")
  }

  ghost function FacilitiesFound(fs: seq<Facility>, nodeId: string, category: string): seq<Facility> {
    Those(fs, f => FacilitySought(nodeId, category, f))
  }

  /** Name, category, node and address, in this order. */
  function FacilityRow(f: Facility): seq<string> { [f.name, f.category, f.nodeId, f.address] }

  function FacilityRows(fs: seq<Facility>): seq<seq<string>> { Rows(fs, FacilityRow) }

  lemma {:induction false} FacilityItemsAre(fs: seq<Facility>, nodeId: string, category: string)
    ensures FacilityItems(fs, nodeId, category) == RowTexts(FacilityRows(FacilitiesFound(fs, nodeId, category)))
  {
    hide RowText, FacilitySought, Finds, FacilityMatches, FacilityItem;
    if fs != [] {
      var f := fs[0];
      FacilityItemsAre(fs[1..], nodeId, category);
      FacilityItemsNext(fs, nodeId, category);
      FacilityIsSought(nodeId, category, f);
      FacilityItemIs(f);
      RowNext(f, FacilitiesFound(fs[1..], nodeId, category), FacilityRow);
    }
  }

  lemma FacilityIsSought(nodeId: string, category: string, f: Facility)
    ensures FacilitySought(nodeId, category, f) <==> FacilityMatches(f, nodeId, category)
  {
    FindsIs(category, f.category);
  }

  lemma FacilityItemIs(f: Facility)
    ensures FacilityItem(f) == RowText(FacilityRow(f))
  {
    FourFields(f.name, f.category, f.nodeId, f.address);
  }

  /** The user is shown the first facilities found, as many as fit the response and at most ten. */
  lemma {:induction false} FacilitiesShown(fs: seq<Facility>, nodeId: string, category: string, code: int, text: string,
                                           size: nat, w: LongWidth)
    requires forall f | f in fs :: CleanRow(FacilityRow(f))
    requires |FACILITY_HEAD| + 2 <= size <= MAX_PACKET_SIZE
    requires SearchOutcome(code, text, FACILITY_HEAD, FirstN(FacilityItems(fs, nodeId, category), FACILITY_MAX),
                           FACILITY_SLACK, FACILITY_NOT_FOUND, size)
    ensures var found := FirstN(FacilitiesFound(fs, nodeId, category), 10);
            var shown := if code == ERR_OK then ListShown(ParseHeader(text, w).payload) else [];
            shown <= FacilityRows(found)
            && Fitting(FACILITY_HEAD, RowTexts(FacilityRows(found)), FACILITY_SLACK, size, |shown|)
  {
    hide CleanRow, ListShown, ParseHeader, SearchOutcome, Fitting, FacilityItems, FacilitySought, RowText;
    var found := FirstN(FacilitiesFound(fs, nodeId, category), 10);
    FacilityItemsAre(fs, nodeId, category);
    FirstRows(FacilitiesFound(fs, nodeId, category), FacilityRow, FACILITY_MAX);
    ThoseMembers(fs, f => FacilitySought(nodeId, category, f));
    RowsClean(fs, found, FacilityRow);
    assert FACILITY_HEAD == "FACILITY_RES" + "|0|";
    OutcomeShown("FACILITY_RES", FacilityRows(found), FACILITY_SLACK, FACILITY_NOT_FOUND, code, text, size, w);
  }

  // ---------------------------------------------------------------- stations

  /** A station is found by a part of its name, line, transfers or address, or by its id. */
  ghost predicate StationSought(keyword: string, s: StationEntry) {
    || s.id == keyword
    || exists t :: t in [s.name, s.line, s.transfers, s.address] && Finds(keyword, t)
  }

  ghost function StationsFound(ss: seq<StationEntry>, keyword: string): seq<StationEntry> {
    Those(ss, s => StationSought(keyword, s))
  }

  /** Id, name, line and transfers or a dash, in this order. */
  function StationRow(s: StationEntry): seq<string> {
    [s.id, s.name, s.line, if s.transfers == "" then "-" else s.transfers]
  }

  function StationRows(ss: seq<StationEntry>): seq<seq<string>> { Rows(ss, StationRow) }

  lemma {:induction false} StationItemsAre(ss: seq<StationEntry>, keyword: string)
    ensures StationItems(ss, keyword) == RowTexts(StationRows(StationsFound(ss, keyword)))
  {
    hide RowText, StationSought, Finds, StationMatches, StationItem;
    if ss != [] {
      var s := ss[0];
      StationItemsAre(ss[1..], keyword);
      StationItemsNext(ss, keyword);
      StationIsSought(keyword, s);
      StationItemIs(s);
      RowNext(s, StationsFound(ss[1..], keyword), StationRow);
    }
  }

  lemma StationIsSought(keyword: string, s: StationEntry)
    ensures StationSought(keyword, s) <==> StationMatches(s, keyword)
  {
    hide Finds, KeywordMatch;
    FindsIs(keyword, s.name);
    FindsIs(keyword, s.line);
    FindsIs(keyword, s.transfers);
    FindsIs(keyword, s.address);
  }

  lemma StationItemIs(s: StationEntry)
    ensures StationItem(s) == RowText(StationRow(s))
  {
    FourFields(s.id, s.name, s.line, if s.transfers == "" then "-" else s.transfers);
  }

  /** In the buffer the server passes, the user is shown the first twenty stations found, each complete. */
  lemma {:induction false} StationsShown(ss: seq<StationEntry>, keyword: string, code: int, text: string, w: LongWidth)
    requires forall s | s in ss :: StationSearch.Loaded(s) && CleanRow(StationRow(s))
    requires StationOutcome(code, text, FirstN(StationItems(ss, keyword), STATION_MAX), RESPONSE_SIZE)
    ensures var found := FirstN(StationsFound(ss, keyword), 20);
            if found == [] then code == ERR_NOT_FOUND
            else code == ERR_OK && ListShown(ParseHeader(text, w).payload) == StationRows(found)
  {
    hide CleanRow, ListShown, ParseHeader, Guarded, StationItems, StationSought, RowText, Join, StationSearch.Loaded;
    var found := FirstN(StationsFound(ss, keyword), 20);
    var items := FirstN(StationItems(ss, keyword), STATION_MAX);
    StationItemsAre(ss, keyword);
    FirstRows(StationsFound(ss, keyword), StationRow, STATION_MAX);
    ThoseMembers(ss, s => StationSought(keyword, s));
    RowsClean(ss, found, StationRow);
    var k: nat :| Taken(STATION_HEAD, STATION_ROOM, items, RESPONSE_SIZE, k)
                  && (if k == 0 then code == ERR_NOT_FOUND && text == SafeCopy(STATION_NOT_FOUND, RESPONSE_SIZE)
                      else code == ERR_OK && text == Closed(items, k, RESPONSE_SIZE));
    TwentyTaken(ss, keyword, k);
    WholeInServerBuffer(ss, keyword, k);
    assert items[..k] == items;
    assert STATION_HEAD == "SUBWAY_SEARCH_RES" + "|0|";
    if k > 0 { LineShown("SUBWAY_SEARCH_RES", StationRows(found), text, w); }
  }

  /** The guard never stops the search there. */
  lemma TwentyTaken(ss: seq<StationEntry>, keyword: string, k: nat)
    requires forall s | s in ss :: StationSearch.Loaded(s)
    requires Taken(STATION_HEAD, STATION_ROOM, FirstN(StationItems(ss, keyword), STATION_MAX), RESPONSE_SIZE, k)
    ensures k == |FirstN(StationItems(ss, keyword), STATION_MAX)|
  {
    hide StationItems, Listed, StationSearch.Loaded;
    ItemSizes(ss, keyword);
    var items := FirstN(StationItems(ss, keyword), STATION_MAX);
    forall i | 0 <= i < |items| ensures |Piece(items, i)| <= 360 { assert items[i] in StationItems(ss, keyword); }
    ListedSize(STATION_HEAD, items, k, 360);
  }

  // ---------------------------------------------------------------- bus routes

  /** The fixed fields of a route: number, label, start and end. */
  function BusBase(no: string, name: string, start: string, end: string): string {
    no + ":" + (name + ":" + (start + ":" + (end + ":")))
  }

  /** The item of a route splits into these four and its stops, and its stops into their names, in order. */
  lemma {:induction false} BusItemFields(c: Candidate, no: string, name: string, start: string, end: string)
    requires c.base == BusBase(no, name, start, end)
    requires ':' !in no && ':' !in name && ':' !in start && ':' !in end
    requires forall s | s in c.stops :: ':' !in s && ',' !in s
    ensures var stops := if c.stops == [] then "-" else Join(c.stops, ",");
            && Fields(BusSearch.ItemOf(c), ':', 5) == [no, name, start, end, stops]
            && (c.stops != [] ==> Fields(stops, ',', |c.stops|) == c.stops)
  {
    hide Fields, Join;
    var stops := if c.stops == [] then "-" else Join(c.stops, ",");
    NotInJoin(c.stops, ",", ':');
    if c.stops != [] {
      FieldsOfJoin(c.stops, ',', |c.stops|);
      assert [','] == ",";
    }
    BusItemShape(c, no, name, start, end, stops);
    FieldsStep(no, ':', name + [':'] + (start + [':'] + (end + [':'] + stops)), 5);
    FieldsStep(name, ':', start + [':'] + (end + [':'] + stops), 4);
    FieldsStep(start, ':', end + [':'] + stops, 3);
    FieldsStep(end, ':', stops, 2);
    FieldsStep(stops, ':', "", 1);
  }

  lemma BusItemShape(c: Candidate, no: string, name: string, start: string, end: string, stops: string)
    requires c.base == BusBase(no, name, start, end) && stops == if c.stops == [] then "-" else Join(c.stops, ",")
    ensures BusSearch.ItemOf(c) == no + [':'] + (name + [':'] + (start + [':'] + (end + [':'] + stops)))
  {
    hide Join;
    var e := end + ":";
    var d := start + ":" + e;
    var b := name + ":" + d;
    assert c.base == no + ":" + b;
    assert (no + ":" + b) + stops == no + [':'] + (b + stops);
    assert b + stops == name + [':'] + (d + stops);
    assert d + stops == start + [':'] + (e + stops);
    assert e + stops == end + [':'] + stops;
  }
}
