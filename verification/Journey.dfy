/** Loader, search, answer and client taken together: what a user sees for a route over any loaded data. */
module Journey {
  import opened Basics
  import opened Text
  import opened Numbers
  import opened Packets
  import opened Graph
  import opened Walks
  import opened ShortestPath
  import opened LineNames
  import opened Loader
  import opened LoaderFacts
  import opened Transfers
  import opened TransferLaws
  import opened RouteAnswer
  import opened AnswerLaws
  import opened TransferService

  lemma {:induction false} NamesNotBlank(field: string)
    ensures forall n | n in LineNamesOf(field) :: !IsBlank(n)
    decreases |field|
  {
    hide Clean, IsBlank, IndexOf, LineNamesOf;
    LineNamesNext(field);
    var k := IndexOf(field, ',');
    if k < |field| { NamesNotBlank(field[k + 1..]); }
  }

  lemma LinkLabelled(data: AppData, l: Link)
    requires l in AllLinks(Skeleton(data), data)
    ensures l.route != ""
  {
    hide NodeIndex, BusLinks, SubwayLinks, LineLinks, TransferLinks, Skeleton, WalkLinked, LineNamesOf;
    var g := Skeleton(data);
    if l in BusLinks(g, data.routes) {
      BusLinksMember(g, data.routes, l);
    } else if l in SubwayLinks(g, data.distances) {
      SubwayLinksMember(g, data.distances, l);
    } else if l in TransferLinks(g, data.stops, data.stations) {
      TransferLinksMember(g, data.stops, data.stations, l);
    } else {
      LineLinksMember(g, data.stations, |data.stations|, l);
      var s, t :| s in data.stations && t in data.stations && l in PairLinks(g, s, t);
      CommonMeans(LineNamesOf(s.line), LineNamesOf(t.line));
      NamesNotBlank(s.line);
    }
  }

  /** No edge of a built graph has an empty label, so no segment of a reported path has. */
  lemma PathLabelled(data: AppData, s: int, t: int, path: GraphPath)
    requires Reports(Built(data), s, t, path)
    ensures "" !in path.routes
  {
    hide Built, RoadAt, Shortest, Sum, AllLinks;
    forall i | 0 <= i < |path.routes| ensures path.routes[i] != "" {
      var u, v := path.indices[i], path.indices[i + 1];
      var l := RoadHasLink(data, u, v);
      LinkLabelled(data, l);
    }
  }

  // ---------------------------------------------------------------- what a built graph puts on the wire

  /** Free of the separators of a route answer and of line ends; commas are allowed. */
  ghost predicate Separable(t: string) { ':' !in t && ';' !in t && '~' !in t && '\n' !in t }

  /** Loaded texts without those separators. */
  ghost predicate SeparableData(data: AppData) {
    && (forall s | s in data.stops :: Separable(s.id) && Separable(s.name))
    && (forall s | s in data.stations :: Separable(s.id) && Separable(s.name) && Separable(s.line))
    && (forall r | r in data.routes :: Separable(r.no))
    && (forall d | d in data.distances :: Separable(d.line))
  }

  /** Distances as they are printed. */
  ghost predicate DistanceTexts(km: (string, string) -> string) {
    forall a, b :: Separable(km(a, b)) && '\n' !in km(a, b) && '\r' !in km(a, b)
  }

  ghost predicate NodeFits(n: Node) {
    && |n.id| < MAX_ID_LEN && |n.name| < MAX_NAME_LEN && (n.kind == BUS_STOP || n.kind == SUBWAY_STATION)
    && Separable(n.id) && Separable(n.name)
  }

  lemma {:induction false} StopNodesFit(stops: seq<Stop>)
    requires forall s | s in stops :: Separable(s.id) && Separable(s.name)
    ensures forall v | 0 <= v < |StopNodes(stops)| :: NodeFits(StopNodes(stops)[v])
  {
    if stops != [] {
      hide NodeIndex, Separable;
      var front, s := stops[..|stops| - 1], stops[|stops| - 1];
      assert s in stops && forall r | r in front :: r in stops;
      StopNodesFit(front);
    }
  }

  lemma {:induction false} StationNodesFit(g: seq<Node>, ss: seq<Station>)
    requires forall s | s in ss :: Separable(s.id) && Separable(s.name)
    requires forall v | 0 <= v < |g| :: NodeFits(g[v])
    ensures forall v | 0 <= v < |StationNodes(g, ss)| :: NodeFits(StationNodes(g, ss)[v])
  {
    if ss != [] {
      hide NodeIndex, Separable;
      var front, s := ss[..|ss| - 1], ss[|ss| - 1];
      assert s in ss && forall r | r in front :: r in ss;
      StationNodesFit(g, front);
    }
  }

  lemma BuiltFits(data: AppData, v: nat)
    requires SeparableData(data) && v < |Built(data)|
    ensures NodeFits(Built(data)[v])
  {
    hide Separable, StopNodes, StationNodes, Built;
    StopNodesFit(data.stops);
    StationNodesFit(StopNodes(data.stops), data.stations);
    BuiltLength(data);
    BuiltNode(data, v);
  }

  lemma CleanBytes(cell: string)
    ensures forall c | c in Clean(cell) :: c in cell
  {
    hide Trimmed, SkipBlanks;
    SkipBlanksBytes(cell);
    TrimmedBytes(SafeCopy(SkipBlanks(cell), TOKEN_SIZE));
  }

  lemma PartSeparable(field: string, k: nat)
    requires Separable(field) && k <= |field| && forall c | c in Clean(field[..k]) :: c in field[..k]
    ensures Separable(Clean(field[..k])) && (k < |field| ==> Separable(field[k + 1..]))
  {
    hide Clean;
  }

  /** Line names are made of bytes of the field. */
  lemma {:induction false} NamesSeparable(field: string)
    requires Separable(field)
    ensures forall n | n in LineNamesOf(field) :: Separable(n)
    decreases |field|
  {
    LineNamesNext(field);
    var k := IndexOf(field, ',');
    CleanBytes(field[..k]);
    PartSeparable(field, k);
    hide Clean, IsBlank, IndexOf, LineNamesOf, Separable;
    if k < |field| { NamesSeparable(field[k + 1..]); }
  }

  lemma {:induction false} LinkSeparable(data: AppData, l: Link)
    requires l in AllLinks(Skeleton(data), data) && SeparableData(data)
    ensures Separable(l.route)
  {
    KindsSeparable();
    hide NodeIndex, BusLinks, SubwayLinks, LineLinks, TransferLinks, Skeleton, WalkLinked, LineNamesOf, Separable,
         IsBlank;
    var g := Skeleton(data);
    if l in BusLinks(g, data.routes) {
      BusLinksMember(g, data.routes, l);
    } else if l in SubwayLinks(g, data.distances) {
      SubwayLinksMember(g, data.distances, l);
    } else if l in TransferLinks(g, data.stops, data.stations) {
      TransferLinksMember(g, data.stops, data.stations, l);
    } else {
      LineLinksMember(g, data.stations, |data.stations|, l);
      var s, t :| s in data.stations && t in data.stations && l in PairLinks(g, s, t);
      CommonMeans(LineNamesOf(s.line), LineNamesOf(t.line));
      NamesSeparable(s.line);
    }
  }

  lemma {:induction false} SumBounds(xs: seq<int>, n: nat)
    requires n <= |xs| && forall i | 0 <= i < |xs| :: xs[i] >= 0
    ensures 0 <= Sum(xs[..n]) && forall i | 0 <= i < n :: xs[i] <= Sum(xs[..n])
  {
    if n > 0 {
      SumBounds(xs, n - 1);
      assert xs[..n][..n - 1] == xs[..n - 1];
    }
  }

  /** Clipped texts and a number of minutes below INF: no step comes near the client's step buffer. */
  lemma {:induction false} StepFitsBuffer(f: seq<string>)
    requires |f| == STEP_FIELDS && |f[0]| < MAX_ID_LEN && |f[1]| < MAX_NAME_LEN && |f[2]| < MAX_NODE_TYPE_LEN
    requires |f[3]| < MAX_ROUTE_LEN && |f[4]| < MAX_ID_LEN && |f[5]| < MAX_NAME_LEN && |f[6]| < MAX_NODE_TYPE_LEN
    requires |f[7]| <= 9 && |f[8]| < DISTANCE_SIZE
    ensures |Join(f, "~")| < MAX_STEP
  {
    hide Join;
    JoinNext(f, "~", 0);
    JoinNext(f, "~", 1);
    JoinNext(f, "~", 2);
    JoinNext(f, "~", 3);
    JoinNext(f, "~", 4);
    JoinNext(f, "~", 5);
    JoinNext(f, "~", 6);
    JoinNext(f, "~", 7);
    JoinNext(f, "~", 8);
    assert f[..9] == f;
  }

  lemma StepIsSendable(a: Node, b: Node, route: string, minutes: nat, km: (string, string) -> string)
    requires NodeFits(a) && NodeFits(b) && Separable(route) && |route| < MAX_ROUTE_LEN && minutes < INF as int
    requires DistanceTexts(km)
    ensures StepSendable(StepFields(a, b, route, minutes, km))
  {
    var distance := DistanceText(a, b, route, km);
    PrintedFits(route);
    DistanceFits(a, b, route, km);
    DigitsSeparable(minutes);
    KindsFit(a);
    KindsFit(b);
    hide Join, Decimal, Separable, NodeFits, DistanceTexts, DistanceText, Printed;
    var f := StepFields(a, b, route, minutes, km);
    NineSeparable(f);
    StepFitsBuffer(f);
  }

  lemma KindsFit(n: Node)
    requires NodeFits(n)
    ensures |n.id| < MAX_ID_LEN && |n.name| < MAX_NAME_LEN && |n.kind| < MAX_NODE_TYPE_LEN
    ensures Separable(n.id) && Separable(n.name) && Separable(n.kind)
  {
    KindsSeparable();
    hide Separable;
  }

  lemma KindsSeparable()
    ensures Separable(BUS_STOP) && Separable(SUBWAY_STATION) && Separable(TRANSFER) && Separable("SUBWAY")
  {
    LettersSeparable(BUS_STOP);
    LettersSeparable(SUBWAY_STATION);
    LettersSeparable(TRANSFER);
    LettersSeparable("SUBWAY");
  }

  predicate Letter(c: char) { 'a' <= c <= 'z' || 'A' <= c <= 'Z' || c == '_' }

  lemma LettersSeparable(s: string)
    requires forall i | 0 <= i < |s| :: Letter(s[i])
    ensures Separable(s)
  {}

  lemma PrintedFits(route: string)
    requires Separable(route) && |route| < MAX_ROUTE_LEN
    ensures Separable(Printed(route)) && |Printed(route)| < MAX_ROUTE_LEN
  {}

  lemma DistanceFits(a: Node, b: Node, route: string, km: (string, string) -> string)
    requires DistanceTexts(km)
    ensures var d := DistanceText(a, b, route, km); Separable(d) && '\n' !in d && '\r' !in d && |d| < DISTANCE_SIZE
  {
    var full := km(a.id, b.id);
    assert Separable(full) && '\n' !in full && '\r' !in full;
  }

  lemma NineSeparable(f: seq<string>)
    requires |f| == STEP_FIELDS && Separable(f[0]) && Separable(f[1]) && Separable(f[2]) && Separable(f[3])
               && Separable(f[4])
    requires Separable(f[5]) && Separable(f[6]) && Separable(f[7]) && Separable(f[8])
    ensures forall t | t in f :: ';' !in t && '~' !in t
  {
    forall i | 0 <= i < |f| ensures ';' !in f[i] && '~' !in f[i] {
      assert Separable(f[i]);
    }
  }

  lemma DigitsSeparable(n: nat)
    ensures Separable(Decimal(n)) && (n < INF as int ==> |Decimal(n)| <= 9)
  {
    assert PowerOfTen(9) == 1_000_000_000;
    if n < INF as int { DecimalLength(n, 9); }
  }

  /** Of what a route answer needs to be read back, a path reported on a built graph leaves open only whether the whole
      line fits the packet. */
  lemma {:induction false} BuiltSendable(data: AppData, s: int, t: int, path: GraphPath, km: (string, string) -> string)
    requires Reports(Built(data), s, t, path) && SeparableData(data) && DistanceTexts(km)
    ensures Printable(Built(data), path)
    ensures |AnswerLine(Built(data), path, km)| < MAX_PACKET_SIZE ==> Sendable(Built(data), path, km)
  {
    hide Built, AnswerLine, SeparableData, DistanceTexts, RoadAt, Shortest, StepFields, AllLinks, Skeleton, WellFormed,
         StepSendable, Separable;
    var g := Built(data);
    BuiltWellFormed(data);
    ReportPrintable(g, s, t, path);
    forall n | n in Names(g, path.indices) ensures ':' !in n {
      var i :| 0 <= i < |path.indices| && Names(g, path.indices)[i] == n;
      BuiltFits(data, path.indices[i]);
      SeparableMeans(n);
    }
    forall i | 0 <= i < |path.routes| ensures StepSendable(StepAt(g, path, km, i)) {
      var u, v := path.indices[i], path.indices[i + 1];
      BuiltFits(data, u);
      BuiltFits(data, v);
      SegmentFits(data, s, t, path, i);
      StepIsSendable(g[u], g[v], path.routes[i], path.minutes[i], km);
    }
  }

  lemma SeparableMeans(t: string)
    requires Separable(t)
    ensures ':' !in t && '\n' !in t
  {}

  lemma SegmentFits(data: AppData, s: int, t: int, path: GraphPath, i: nat)
    requires Reports(Built(data), s, t, path) && SeparableData(data) && Printable(Built(data), path)
               && i < |path.routes|
    ensures |path.routes[i]| < MAX_ROUTE_LEN && Separable(path.routes[i]) && path.minutes[i] < INF as int
  {
    hide Built, SeparableData, RoadAt, Shortest, AllLinks, Skeleton;
    var l := RoadHasLink(data, path.indices[i], path.indices[i + 1]);
    LinkSeparable(data, l);
    SumBounds(path.minutes, |path.minutes|);
    assert path.minutes[..|path.minutes|] == path.minutes;
  }

  /** What the client makes its notes of fits the buffers of nodes and edges. */
  lemma {:induction false} DecodedFits(data: AppData, s: int, t: int, path: GraphPath, km: (string, string) -> string)
    requires Reports(Built(data), s, t, path) && SeparableData(data) && Printable(Built(data), path)
    ensures forall x | x in StepsOf(AllSteps(Built(data), path, km)) :: StepFits(x)
  {
    hide Built, SeparableData, RoadAt, Shortest, AllLinks, Skeleton, Separable, Sum, Distinct, DistanceText;
    var g := Built(data);
    var steps := AllSteps(g, path, km);
    forall i | 0 <= i < |steps| ensures StepFits(StepsOf(steps)[i]) {
      var u, v := path.indices[i], path.indices[i + 1];
      BuiltFits(data, u);
      BuiltFits(data, v);
      SegmentFits(data, s, t, path, i);
      PrintedFits(path.routes[i]);
      SeparableMeans(g[u].name);
      SeparableMeans(g[v].name);
      SeparableMeans(Printed(path.routes[i]));
      assert steps[i] == StepAt(g, path, km, i);
    }
  }

  /** Stored labels: the count is the number of walks and direct changes, and each of them has its note. */
  lemma {:induction false} PathStored(data: AppData, s: int, t: int, path: GraphPath)
    requires Reports(Built(data), s, t, path) && SeparableData(data) && Printable(Built(data), path)
    ensures forall r | r in path.routes :: Stored(r)
  {
    hide Built, SeparableData, Reports, Printable, Separable;
    PathLabelled(data, s, t, path);
    assert |path.minutes| == |path.routes| by { StepIndices(Built(data), path); }
    forall i | 0 <= i < |path.routes| ensures Stored(path.routes[i]) {
      SegmentFits(data, s, t, path, i);
    }
  }

  lemma StepIndices(g: seq<Node>, path: GraphPath)
    requires Printable(g, path)
    ensures |path.minutes| == |path.routes| == |path.indices| - 1
  {}

  /** The notes say what happens along the path: one for every walked segment with its two places in order, one for
      every direct change with its place and both labels in order, and no other; their number is that of walks and
      changes. */
  ghost predicate NotesTell(g: seq<Node>, path: GraphPath, notes: seq<Note>)
    requires Printable(g, path)
  {
    && |notes| == |WalkPlaces(path.routes)| + |ChangePlaces(path.routes)|
    && forall n :: n in notes <==> Noted(g, path, n)
  }

  lemma {:induction false} NotesTold(g: seq<Node>, path: GraphPath, km: (string, string) -> string)
    requires Printable(g, path) && forall r | r in path.routes :: Stored(r)
    ensures forall f | f in AllSteps(g, path, km) :: |f| >= 8
    ensures var notes := Notes(StepsOf(AllSteps(g, path, km)));
            |notes| == TransferTotal(path.routes) ==> NotesTell(g, path, notes)
  {
    hide *;
    NineFields(g, path, km);
    TotalIsPlaces(path.routes);
    forall n ensures n in Notes(StepsOf(AllSteps(g, path, km))) <==> Noted(g, path, n) {
      NotesOnPath(g, path, km, n);
    }
    if |Notes(StepsOf(AllSteps(g, path, km)))| == TransferTotal(path.routes) {
      TellsThen(g, path, Notes(StepsOf(AllSteps(g, path, km))));
    }
  }

  lemma TellsThen(g: seq<Node>, path: GraphPath, notes: seq<Note>)
    requires Printable(g, path) && |notes| == |WalkPlaces(path.routes)| + |ChangePlaces(path.routes)|
    requires forall n :: n in notes <==> Noted(g, path, n)
    ensures NotesTell(g, path, notes)
  {
    hide WalkPlaces, ChangePlaces, Noted;
  }

  /** For every path the search reports over every loaded data set whose texts keep clear of the separators, as long as
      the answer fits the packet: the steps the user reads lead along the nodes of the path, from each to the next; the
      number of transfers is the number of walks and direct changes and of notes, each note naming its places in order;
      and as many note lines follow as long as their text fits its buffer, which 87 notes always do. Only the summary of
      names suffers from unnamed nodes and from commas in names; when it comes back, the steps name the same nodes. */
  lemma {:induction false} ShownCountIsNotes(data: AppData, s: int, t: int, path: GraphPath,
                                             km: (string, string) -> string, w: LongWidth)
    requires Reports(Built(data), s, t, path) && SeparableData(data) && DistanceTexts(km)
    ensures Printable(Built(data), path)
    ensures |AnswerLine(Built(data), path, km)| < MAX_PACKET_SIZE ==>
              var header := ParseHeader(AnswerLine(Built(data), path, km), w);
              var shown := Decode(header.payload);
              var notes := Notes(StepsOf(AllSteps(Built(data), path, km)));
              && header.code == ERR_OK && shown.Shown?
              && shown.count == Decimal(|notes|) && shown.minutes == Decimal(path.total)
              && NotesTell(Built(data), path, notes)
              && LineCount(shown.notes) <= |notes|
              && (LineCount(shown.notes) == |notes| <==> |NotesText(notes)| < MAX_PACKET_SIZE)
              && (|notes| <= 87 ==> |NotesText(notes)| < MAX_PACKET_SIZE)
              && shown.steps == AllSteps(Built(data), path, km)
              && Follows(Built(data), path, km, shown.steps) && Meet(shown.steps)
              && (shown.names == Names(Built(data), path.indices)
                  <==> forall n | n in Names(Built(data), path.indices) :: n != "" && ',' !in n)
              && (shown.names == Names(Built(data), path.indices) ==> Name(shown.steps, shown.names))
  {
    hide *;
    BuiltSendable(data, s, t, path, km);
    if |AnswerLine(Built(data), path, km)| < MAX_PACKET_SIZE {
      var steps := AllSteps(Built(data), path, km);
      PathLabelled(data, s, t, path);
      PathStored(data, s, t, path);
      AnswerRoundTrip(Built(data), path, km, w);
      NotesMatchAnswer(Built(data), path, km);
      DecodedFits(data, s, t, path, km);
      NineFields(Built(data), path, km);
      NotesTold(Built(data), path, km);
      StepsFollow(Built(data), path, km);
      FollowsMeans(Built(data), path, km, steps);
      NotesPrinted(steps);
    }
  }

  lemma NineFields(g: seq<Node>, path: GraphPath, km: (string, string) -> string)
    requires Printable(g, path)
    ensures forall f | f in AllSteps(g, path, km) :: |f| == 9
  {
    hide DistanceText;
    forall f | f in AllSteps(g, path, km) ensures |f| == STEP_FIELDS {
      var i :| 0 <= i < |AllSteps(g, path, km)| && AllSteps(g, path, km)[i] == f;
    }
  }

  lemma NotesPrinted(steps: seq<seq<string>>)
    requires (forall f | f in steps :: |f| >= 8) && forall x | x in StepsOf(steps) :: StepFits(x)
    ensures var notes := Notes(StepsOf(steps));
            && LineCount(NotesShown(steps)) <= |notes|
            && (LineCount(NotesShown(steps)) == |notes| <==> |NotesText(notes)| < MAX_PACKET_SIZE)
            && (|notes| <= 87 ==> |NotesText(notes)| < MAX_PACKET_SIZE)
  {
    hide Notes, NotesText, LineCount, StepsOf, SafeCopy, StepFits;
    var notes := Notes(StepsOf(steps));
    NotesFit(StepsOf(steps));
    LinesPrintedIff(notes, MAX_PACKET_SIZE);
    NotesTextSize(notes);
  }
}
