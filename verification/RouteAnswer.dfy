/**
 The route answer on the wire: the line `handle_transfer` writes (src/server/transfer_service.c) and what the client's
 `split_header` and `show_transfer_result` read out of it (src/client/result_viewer.c).
 */
module RouteAnswer {
  import opened Basics
  import opened Text
  import opened Numbers
  import opened Splitting
  import opened Packets
  import opened Appending
  import opened Graph
  import opened Walks
  import opened ShortestPath
  import opened Transfers

  const MAX_STEP := 1024
  const RESULT := "TRANSFER_RES"

  // ---------------------------------------------------------------- what the server writes

  /** Indices of nodes, one label and one duration for each of the segments between them. */
  ghost predicate Printable(g: seq<Node>, path: GraphPath) {
    && path.indices != [] && |path.routes| == |path.minutes| == |path.indices| - 1
    && (forall i | 0 <= i < |path.indices| :: path.indices[i] < |g|)
    && (forall i | 0 <= i < |path.minutes| :: path.minutes[i] >= 0)
    && path.total >= 0
  }

  function Names(g: seq<Node>, indices: seq<nat>): (names: seq<string>)
    requires forall i | 0 <= i < |indices| :: indices[i] < |g|
    ensures |names| == |indices| && forall i | 0 <= i < |indices| :: names[i] == g[indices[i]].name
  {
    seq(|indices|, i requires 0 <= i < |indices| => g[indices[i]].name)
  }

  const DISTANCE_SIZE := 32

  /** The distance column: filled between two stations unless the segment is a transfer. */
  function DistanceText(a: Node, b: Node, route: string, km: (string, string) -> string): string {
    if Printed(route) != TRANSFER && a.kind == SUBWAY_STATION && b.kind == SUBWAY_STATION
    then SafeCopy(km(a.id, b.id), DISTANCE_SIZE) else ""
  }

  function StepFields(a: Node, b: Node, route: string, minutes: nat, km: (string, string) -> string): seq<string> {
    [a.id, a.name, a.kind, Printed(route), b.id, b.name, b.kind, Decimal(minutes), DistanceText(a, b, route, km)]
  }

  function StepAt(g: seq<Node>, path: GraphPath, km: (string, string) -> string, i: nat): seq<string>
    requires Printable(g, path) && i < |path.routes|
  {
    StepFields(g[path.indices[i]], g[path.indices[i + 1]], path.routes[i], path.minutes[i], km)
  }

  /** The nine fields of every segment, in order. */
  function AllSteps(g: seq<Node>, path: GraphPath, km: (string, string) -> string): (steps: seq<seq<string>>)
    requires Printable(g, path)
    ensures |steps| == |path.routes| && forall i | 0 <= i < |steps| :: steps[i] == StepAt(g, path, km, i)
  {
    seq(|path.routes|, i requires 0 <= i < |path.routes| => StepAt(g, path, km, i))
  }

  function StepTexts(steps: seq<seq<string>>): (texts: seq<string>)
    ensures |texts| == |steps| && forall i | 0 <= i < |steps| :: texts[i] == Join(steps[i], "~")
  {
    seq(|steps|, i requires 0 <= i < |steps| => Join(steps[i], "~"))
  }

  const HEAD := "TRANSFER_RES|0|"

  /** Transfers and total minutes between the names and the steps. */
  function Figures(path: GraphPath): string
    requires path.total >= 0
  {
    ":" + Decimal(TransferTotal(path.routes)) + ":" + Decimal(path.total) + ":"
  }

  function AnswerLine(g: seq<Node>, path: GraphPath, km: (string, string) -> string): string
    requires Printable(g, path)
  {
    HEAD + Join(Names(g, path.indices), ",") + Figures(path) + Join(StepTexts(AllSteps(g, path, km)), ";") + "\n"
  }

  /** No text of the graph, and no distance text, holds a terminator. */
  ghost predicate NoNul(g: seq<Node>, path: GraphPath, km: (string, string) -> string)
    requires Printable(g, path)
  {
    && (forall n | n in Names(g, path.indices) :: '\0' !in n)
    && (forall t | t in StepTexts(AllSteps(g, path, km)) :: '\0' !in t)
  }

  /** The response in a buffer of `size` bytes, whether or not the answer fits: names are left out when they do not fit,
      figures and steps are cut, and the line end comes last if there is room for it. */
  function Answer(g: seq<Node>, path: GraphPath, km: (string, string) -> string, size: nat): (r: string)
    requires Printable(g, path) && size > 0
    ensures |r| < size
  {
    var names, texts := Names(g, path.indices), StepTexts(AllSteps(g, path, km));
    var named := PutList(SafeCopy(HEAD, size), names, ",", |names|, size);
    var figured := PutCut(named, Figures(path), size);
    Put(PutCutList(figured, texts, ";", |texts|, size), "\n", size)
  }

  method WriteNames(b: Buffer, nodes: array<Node>, ghost g: seq<Node>, path: GraphPath)
    requires b.Valid() && g <= nodes[..] && Printable(g, path) && forall n | n in Names(g, path.indices) :: '\0' !in n
    modifies b, b.data
    ensures b.Valid()
    ensures b.text == PutList(old(b.text), Names(g, path.indices), ",", |path.indices|, b.data.Length)
  {
    hide PutList, Printable, Names;
    IndicesInside(g, path);
    PutListNone(b.text, Names(g, path.indices), ",", b.data.Length);
    var i := 0;
    while i < |path.indices|
      invariant 0 <= i <= |path.indices| && b.Valid()
      invariant b.text == PutList(old(b.text), Names(g, path.indices), ",", i, b.data.Length)
    {
      var node := nodes[path.indices[i]];
      assert node == nodes[..][path.indices[i]] == g[path.indices[i]];
      WriteName(b, node.name, i, old(b.text), Names(g, path.indices));
      i := i + 1;
    }
  }

  /** One name more, if it fits, and the separator in front of it. */
  method WriteName(b: Buffer, name: string, i: nat, ghost was: string, ghost names: seq<string>)
    requires b.Valid() && |was| < b.data.Length && i < |names| && name == names[i] && '\0' !in name
    requires b.text == PutList(was, names, ",", i, b.data.Length)
    modifies b, b.data
    ensures b.Valid() && b.text == PutList(was, names, ",", i + 1, b.data.Length)
  {
    hide Put, PutList;
    PutListNext(was, names, ",", i, b.data.Length);
    var ok;
    if i > 0 { ok := PutText(b, ","); }
    ok := PutText(b, name);
  }

  lemma IndicesInside(g: seq<Node>, path: GraphPath)
    requires Printable(g, path)
    ensures forall i | 0 <= i < |path.indices| :: path.indices[i] < |g|
    ensures |path.indices| == |path.routes| + 1 == |path.minutes| + 1
    ensures forall i | 0 <= i < |path.minutes| :: path.minutes[i] >= 0
  {}

  method WriteSteps(b: Buffer, nodes: array<Node>, ghost g: seq<Node>, path: GraphPath, km: (string, string) -> string)
    requires b.Valid() && g <= nodes[..] && Printable(g, path)
    requires forall t | t in StepTexts(AllSteps(g, path, km)) :: '\0' !in t
    modifies b, b.data
    ensures b.Valid()
    ensures var texts := StepTexts(AllSteps(g, path, km));
            b.text == PutCutList(old(b.text), texts, ";", |texts|, b.data.Length)
  {
    hide Join, Put, PutCut, StepFields, PutCutList, Printable, StepAt;
    IndicesInside(g, path);
    PutListNone(b.text, StepTexts(AllSteps(g, path, km)), ";", b.data.Length);
    ghost var texts := StepTexts(AllSteps(g, path, km));
    var i := 0;
    while i < |path.routes|
      invariant 0 <= i <= |texts| && b.Valid()
      invariant b.text == PutCutList(old(b.text), texts, ";", i, b.data.Length)
    {
      var from, to := nodes[path.indices[i]], nodes[path.indices[i + 1]];
      assert from == nodes[..][path.indices[i]] == g[path.indices[i]];
      assert to == nodes[..][path.indices[i + 1]] == g[path.indices[i + 1]];
      StepTextIs(g, path, km, i);
      var step := Join(StepFields(from, to, path.routes[i], path.minutes[i], km), "~");
      assert step == texts[i] && texts[i] in texts;
      var ok := WriteStep(b, step, i, old(b.text), texts);
      i := i + 1;
      if !ok {
        FullStays(old(b.text), texts, ";", i, |texts|, b.data.Length);
        return;
      }
    }
  }

  /** One step more, cut if it does not fit, and the separator in front of it. */
  method WriteStep(b: Buffer, step: string, i: nat, ghost was: string, ghost texts: seq<string>) returns (ok: bool)
    requires b.Valid() && |was| < b.data.Length && i < |texts| && step == texts[i] && '\0' !in step
    requires b.text == PutCutList(was, texts, ";", i, b.data.Length)
    modifies b, b.data
    ensures b.Valid() && b.text == PutCutList(was, texts, ";", i + 1, b.data.Length)
    ensures !ok ==> |b.text| + 1 == b.data.Length
  {
    hide Put, PutCut, PutCutList;
    PutListNext(was, texts, ";", i, b.data.Length);
    if i > 0 { ok := PutText(b, ";"); }
    ok := PutFormatted(b, step);
  }

  lemma StepTextIs(g: seq<Node>, path: GraphPath, km: (string, string) -> string, i: nat)
    requires Printable(g, path) && i < |path.routes|
    ensures |path.minutes| == |path.routes| && path.minutes[i] >= 0
    ensures path.indices[i] < |g| && path.indices[i + 1] < |g|
    ensures StepTexts(AllSteps(g, path, km))[i] ==
            Join(StepFields(g[path.indices[i]], g[path.indices[i + 1]], path.routes[i], path.minutes[i], km), "~")
  {
    hide Join, StepFields;
  }

  /** The part of `handle_transfer` that runs once a path is found. */
  method WriteAnswer(b: Buffer, nodes: array<Node>, ghost g: seq<Node>, path: GraphPath, km: (string, string) -> string)
    requires b.Valid() && g <= nodes[..] && Printable(g, path) && NoNul(g, path, km)
    modifies b, b.data
    ensures b.Valid() && b.text == Answer(g, path, km, b.data.Length)
  {
    hide AllSteps, Names, StepTexts, SafeCopy, Put, PutCut, PutList, PutCutList;
    b.Set(HEAD);
    var count := CountTransfers(path.routes);
    WriteNames(b, nodes, g, path);
    var middle := ":" + Decimal(count) + ":" + Decimal(path.total) + ":";
    var ok := PutFormatted(b, middle);
    WriteSteps(b, nodes, g, path, km);
    ok := PutText(b, "\n");
  }

  /** When the answer fits, the response is the answer. */
  lemma AnswerFits(g: seq<Node>, path: GraphPath, km: (string, string) -> string, size: nat)
    requires Printable(g, path) && |AnswerLine(g, path, km)| < size
    ensures Answer(g, path, km, size) == AnswerLine(g, path, km)
  {
    hide Join, Names, AllSteps, StepTexts, PutList, PutCutList, Figures;
    var names, texts := Names(g, path.indices), StepTexts(AllSteps(g, path, km));
    var l1 := HEAD + Join(names, ",");
    var l2 := l1 + Figures(path);
    PutListFits(HEAD, names, ",", |names|, size);
    JoinedGrows(HEAD, names, ",", |names|);
    PutCutListFits(l2, texts, ";", |texts|, size);
    JoinedGrows(l2, texts, ";", |texts|);
  }

  /** Without room for the answer something is cut, and what is cut leaves no room for the line end: the text is either
      complete up to its line end, or full. */
  lemma {:induction false} CutLeavesNoRoom(g: seq<Node>, path: GraphPath, km: (string, string) -> string, size: nat)
    requires Printable(g, path) && |HEAD| + MAX_NAME_LEN <= size && |AnswerLine(g, path, km)| >= size
    requires forall n | n in Names(g, path.indices) :: |n| < MAX_NAME_LEN
    ensures var names, texts := Names(g, path.indices), StepTexts(AllSteps(g, path, km));
            var figured := PutCut(PutList(HEAD, names, ",", |names|, size), Figures(path), size);
            |PutCutList(figured, texts, ";", |texts|, size)| + 1 == size
  {
    hide Join, Names, AllSteps, StepTexts, PutList, PutCutList, Figures, Put, PutCut, StepAt;
    var names, texts := Names(g, path.indices), StepTexts(AllSteps(g, path, km));
    var named := PutList(HEAD, names, ",", |names|, size);
    var figured := PutCut(named, Figures(path), size);
    PutListExactOrLost(HEAD, names, ",", |names|, size);
    JoinedGrows(HEAD, names, ",", |names|);
    PutCutListExactOrFull(figured, texts, ";", |texts|, size);
    JoinedGrows(figured, texts, ";", |texts|);
    FigureBytes(path);
    if named == HEAD + Join(names, ",") {
      if |named + Figures(path)| < size {
        PutCutWhole(named, Figures(path), size);
        assert |AnswerLine(g, path, km)| == |figured + Join(texts, ";")| + 1;
      }
    } else if |figured| + 1 < size {
      LoneNameFits(names, size);
      var j :| 0 <= j < |names| && |named| + |names[j]| >= size;
      var k := StepNaming(g, path, km, j);
      PutCutListFills(figured, texts, ";", |texts|, k, size);
    }
  }

  lemma LoneNameFits(names: seq<string>, size: nat)
    requires |HEAD| + MAX_NAME_LEN <= size && forall n | n in names :: |n| < MAX_NAME_LEN
    ensures |names| == 1 ==> PutList(HEAD, names, ",", 1, size) == HEAD + Join(names, ",")
  {
    if |names| == 1 {
      assert names[0] in names;
      PutListFits(HEAD, names, ",", 1, size);
      assert names[..1] == names;
    }
  }

  lemma PutCutWhole(t: string, s: string, size: nat)
    requires |t + s| < size
    ensures PutCut(t, s, size) == t + s
  {}

  lemma FigureBytes(path: GraphPath)
    requires path.total >= 0
    ensures |Figures(path)| > 0 && '\n' !in Figures(path)
  {
    DigitsAreClean(TransferTotal(path.routes));
    DigitsAreClean(path.total);
  }

  /** Every name of a path with a segment occurs in the text of a step. */
  lemma {:induction false} StepNaming(g: seq<Node>, path: GraphPath, km: (string, string) -> string, j: nat)
    returns (k: nat)
    requires Printable(g, path) && j < |path.indices| && |path.indices| > 1
    ensures k < |path.routes| && |StepTexts(AllSteps(g, path, km))[k]| >= |Names(g, path.indices)[j]|
  {
    hide Join, DistanceText;
    k := if j < |path.routes| then j else j - 1;
    var f := StepAt(g, path, km, k);
    assert StepTexts(AllSteps(g, path, km))[k] == Join(f, "~");
    JoinHolds(f, "~", if j < |path.routes| then 1 else 5);
  }

  lemma JoinHolds(parts: seq<string>, sep: string, i: nat)
    requires i < |parts|
    ensures |parts[i]| <= |Join(parts, sep)|
  {
    hide Join;
    JoinNext(parts, sep, i);
    JoinGrows(parts, sep, i + 1);
  }

  /** Whether the response is a whole line: exactly when the answer fits the buffer, once that has room for the header
      and a name. */
  lemma {:induction false} AnswerWholeIff(g: seq<Node>, path: GraphPath, km: (string, string) -> string, size: nat)
    requires Printable(g, path) && |HEAD| + MAX_NAME_LEN <= size
    requires forall n | n in Names(g, path.indices) :: |n| < MAX_NAME_LEN && '\n' !in n
    requires forall t | t in StepTexts(AllSteps(g, path, km)) :: '\n' !in t
    ensures '\n' in Answer(g, path, km, size) <==> |AnswerLine(g, path, km)| < size
    ensures '\n' in Answer(g, path, km, size) <==> Answer(g, path, km, size) == AnswerLine(g, path, km)
  {
    hide Join, Names, AllSteps, StepTexts, PutList, PutCutList, Figures, Put, PutCut, StepAt;
    LineHasEnd(g, path, km);
    if |AnswerLine(g, path, km)| < size {
      AnswerFits(g, path, km, size);
    } else {
      var names, texts := Names(g, path.indices), StepTexts(AllSteps(g, path, km));
      var named := PutList(HEAD, names, ",", |names|, size);
      var figured := PutCut(named, Figures(path), size);
      CutLeavesNoRoom(g, path, km, size);
      FigureBytes(path);
      PutListBytes(HEAD, names, ",", |names|, size, '\n');
      PutBytes(named, Figures(path), size, '\n');
      PutCutListBytes(figured, texts, ";", |texts|, size, '\n');
      NothingFits(PutCutList(figured, texts, ";", |texts|, size), "\n", "", size);
    }
  }

  lemma LineHasEnd(g: seq<Node>, path: GraphPath, km: (string, string) -> string)
    requires Printable(g, path)
    ensures '\n' in AnswerLine(g, path, km)
  {
    hide Join, Names, StepTexts, AllSteps, Figures;
    var l := AnswerLine(g, path, km);
    assert l[|l| - 1] == '\n';
  }

  // ---------------------------------------------------------------- what the client reads

  /** What `show_transfer_result` puts on the screen, line by line. */
  datatype Shown = Raw(payload: string)
                 | Shown(names: seq<string>, count: string, minutes: string, steps: seq<seq<string>>, notes: string)

  const STEP_FIELDS := 9

  /** The steps that have enough fields to be shown. */
  function DecodeSteps(words: seq<string>): (steps: seq<seq<string>>)
    ensures forall f | f in steps :: |f| >= 8
  {
    if words == [] then []
    else
      var f := Fields(SafeCopy(words[|words| - 1], MAX_STEP), '~', STEP_FIELDS);
      DecodeSteps(words[..|words| - 1]) + (if |f| < 8 then [] else [f])
  }

  function StepOf(f: seq<string>): Step
    requires |f| >= 8
  {
    Step(f[1], f[3], f[5])
  }

  function StepsOf(steps: seq<seq<string>>): (ss: seq<Step>)
    requires forall f | f in steps :: |f| >= 8
    ensures |ss| == |steps| && forall i | 0 <= i < |ss| :: ss[i] == StepOf(steps[i])
  {
    if steps == [] then []
    else
      assert steps[|steps| - 1] in steps;
      StepsOf(steps[..|steps| - 1]) + [StepOf(steps[|steps| - 1])]
  }

  /** The text of the transfer notes, cut to its buffer. */
  function NotesShown(steps: seq<seq<string>>): string
    requires forall f | f in steps :: |f| >= 8
  {
    SafeCopy(NotesText(Notes(StepsOf(steps))), MAX_PACKET_SIZE)
  }

  /** What three cuts at ':' make of a payload; none when the first or second is missing. */
  datatype Parts = Parts(path: string, count: string, minutes: string, steps: string)

  function PartsOf(payload: string): Option<Parts> {
    match SplitAt(payload, ':')
    case None => None
    case Some((path, rest1)) =>
      match SplitAt(rest1, ':')
      case None => None
      case Some((count, rest2)) =>
        match SplitAt(rest2, ':')
        case None => Some(Parts(path, count, rest2, ""))
        case Some((minutes, steps)) => Some(Parts(path, count, minutes, steps))
  }

  function Decode(payload: string): Shown {
    match PartsOf(payload)
    case None => Raw(payload)
    case Some(p) =>
      var steps := DecodeSteps(Words(p.steps, ';'));
      Shown(Words(p.path, ','), p.count, p.minutes, steps, NotesShown(steps))
  }

  /** The step loop of `show_transfer_result`. */
  method ReadSteps(text: string) returns (steps: seq<seq<string>>)
    ensures steps == DecodeSteps(Words(text, ';'))
  {
    hide Words, Fields, SafeCopy;
    var words := Tokenize(text, ';');
    steps := [];
    var i := 0;
    while i < |words|
      invariant 0 <= i <= |words| && steps == DecodeSteps(words[..i])
    {
      assert words[..i + 1][..i] == words[..i];
      var f := Cut(SafeCopy(words[i], MAX_STEP), '~', STEP_FIELDS);
      if |f| >= 8 { steps := steps + [f]; }
      i := i + 1;
    }
    assert words[..i] == words;
  }

  method CutParts(payload: string) returns (parts: Option<Parts>)
    ensures parts == PartsOf(payload)
  {
    hide SplitAt;
    var first := Split(payload, ':');
    if first.None? { return None; }
    var second := Split(first.value.1, ':');
    if second.None? { return None; }
    var third := Split(second.value.1, ':');
    if third.None? { return Some(Parts(first.value.0, second.value.0, second.value.1, "")); }
    parts := Some(Parts(first.value.0, second.value.0, third.value.0, third.value.1));
  }

  lemma PartsBytes(payload: string, x: char)
    requires x !in payload
    ensures PartsOf(payload).Some? ==> x !in PartsOf(payload).value.steps
  {
    hide SplitAt;
    SplitAtBytes(payload, ':', x);
    if SplitAt(payload, ':').Some? {
      var rest1 := SplitAt(payload, ':').value.1;
      SplitAtBytes(rest1, ':', x);
      if SplitAt(rest1, ':').Some? { SplitAtBytes(SplitAt(rest1, ':').value.1, ':', x); }
    }
  }

  /** `show_transfer_result`: each line it prints, as data. */
  method ShowTransfer(payload: string) returns (shown: Shown)
    requires |payload| < MAX_PACKET_SIZE && '\0' !in payload
    ensures shown == Decode(payload)
  {
    hide Words, DecodeSteps, NotesShown, PartsOf;
    PartsBytes(payload, '\0');
    var parts := CutParts(payload);
    if parts.None? { return Raw(payload); }
    var p := parts.value;
    var names := Tokenize(p.path, ',');
    var steps := ReadSteps(p.steps);
    var notes := ShowNotes(p.steps, steps);
    shown := Shown(names, p.count, p.minutes, steps, notes);
  }

  method ShowNotes(ghost text: string, steps: seq<seq<string>>) returns (notes: string)
    requires '\0' !in text && steps == DecodeSteps(Words(text, ';'))
    ensures notes == NotesShown(steps)
  {
    hide Words, DecodeSteps, Notes, NotesText, StepsOf;
    WordsBytes(text, ';', '\0');
    DecodedTerminable(Words(text, ';'));
    var b := new Buffer(MAX_PACKET_SIZE);
    WriteNotes(StepsOf(steps), b);
    notes := b.Read();
  }

  lemma {:induction false} DecodedTerminable(words: seq<string>)
    requires forall w | w in words :: '\0' !in w
    ensures forall s | s in StepsOf(DecodeSteps(words)) :: Terminable(s)
  {
    hide Fields, SafeCopy, StepOf;
    if words != [] {
      var front, w := words[..|words| - 1], words[|words| - 1];
      assert w in words && forall v | v in front :: v in words;
      DecodedTerminable(front);
      assert SafeCopy(w, MAX_STEP) <= w;
      FieldsBytes(SafeCopy(w, MAX_STEP), '~', STEP_FIELDS, '\0');
      var f := Fields(SafeCopy(w, MAX_STEP), '~', STEP_FIELDS);
      if |f| >= 8 {
        StepTerminable(f);
        assert DecodeSteps(words)[..|DecodeSteps(words)| - 1] == DecodeSteps(front);
      }
    }
  }

  lemma StepTerminable(f: seq<string>)
    requires |f| >= 8 && forall x | x in f :: '\0' !in x
    ensures Terminable(StepOf(f))
  {
    assert f[1] in f && f[3] in f && f[5] in f;
  }

  // ---------------------------------------------------------------- reading undoes writing

  function Body(g: seq<Node>, path: GraphPath, km: (string, string) -> string): string
    requires Printable(g, path)
  {
    Join(Names(g, path.indices), ",") + Figures(path) + Join(StepTexts(AllSteps(g, path, km)), ";")
  }

  /** The line fits both packet buffers, its names are free of ':', its step fields of ';' and '~', its distances of
      line ends, and no step is longer than the client's step buffer. */
  ghost predicate Sendable(g: seq<Node>, path: GraphPath, km: (string, string) -> string)
    requires Printable(g, path)
  {
    && |AnswerLine(g, path, km)| < MAX_PACKET_SIZE
    && (forall n | n in Names(g, path.indices) :: ':' !in n)
    && (forall i | 0 <= i < |path.routes| :: StepSendable(StepAt(g, path, km, i)))
  }

  ghost predicate StepSendable(fields: seq<string>) {
    && |fields| == STEP_FIELDS && (forall f | f in fields :: ';' !in f && '~' !in f)
    && '\n' !in fields[8] && '\r' !in fields[8] && |Join(fields, "~")| < MAX_STEP
  }

  /** Three cuts at ':' separate the summary, the two figures and the steps. */
  lemma {:induction false} BodyCuts(names: string, count: string, minutes: string, steps: string)
    requires ':' !in names && ':' !in count && ':' !in minutes
    ensures var body := names + (":" + count + ":" + minutes + ":") + steps;
            var shown := DecodeSteps(Words(steps, ';'));
            Decode(body) == Shown(Words(names, ','), count, minutes, shown, NotesShown(shown))
  {
    hide Words, DecodeSteps, NotesShown, SplitAt;
    var body := names + (":" + count + ":" + minutes + ":") + steps;
    var rest2 := minutes + [':'] + steps;
    var rest1 := count + [':'] + rest2;
    assert body == names + [':'] + rest1;
    SplitAtParts(names, ':', rest1);
    SplitAtParts(count, ':', rest2);
    SplitAtParts(minutes, ':', steps);
  }

  lemma {:induction false} StepRoundTrip(fields: seq<string>)
    requires StepSendable(fields)
    ensures Fields(SafeCopy(Join(fields, "~"), MAX_STEP), '~', STEP_FIELDS) == fields
  {
    hide Join;
    FieldsOfJoin(fields, '~', STEP_FIELDS);
    assert ['~'] == "~";
  }

  lemma DecodeNext(words: seq<string>, word: string)
    ensures DecodeSteps(words + [word])
         == DecodeSteps(words)
            + (var f := Fields(SafeCopy(word, MAX_STEP), '~', STEP_FIELDS); if |f| < 8 then [] else [f])
  {
    assert (words + [word])[..|words|] == words;
  }

  lemma {:induction false} StepsRoundTrip(steps: seq<seq<string>>)
    requires forall f | f in steps :: StepSendable(f)
    ensures DecodeSteps(StepTexts(steps)) == steps
  {
    hide Join, Fields, StepSendable, DecodeSteps;
    if steps == [] {
      DecodeNone(StepTexts(steps));
    } else {
      var n := |steps| - 1;
      var front, last := steps[..n], steps[n];
      assert last in steps && forall f | f in front :: f in steps;
      StepsRoundTrip(front);
      StepRoundTrip(last);
      StepSize(last);
      assert StepTexts(steps) == StepTexts(front) + [Join(last, "~")];
      DecodeNext(StepTexts(front), Join(last, "~"));
    }
  }

  lemma DecodeNone(words: seq<string>)
    requires words == []
    ensures DecodeSteps(words) == []
  {}

  lemma StepSize(fields: seq<string>)
    requires StepSendable(fields)
    ensures |fields| == STEP_FIELDS
  {}

  lemma DigitsAreClean(n: nat)
    ensures ':' !in Decimal(n) && '\n' !in Decimal(n) && '\r' !in Decimal(n)
  {}

  /** A joined step ends in its distance column or the '~' in front of it. */
  lemma StepEnd(fields: seq<string>)
    requires StepSendable(fields)
    ensures var t := Join(fields, "~"); t != "" && ';' !in t && t[|t| - 1] != '\n' && t[|t| - 1] != '\r'
  {
    NotInJoin(fields, "~", ';');
    var t := Join(fields, "~");
    var front := Join(fields[..8], "~") + "~";
    assert t == front + fields[8];
    if fields[8] == "" {
      assert t[|t| - 1] == '~';
    } else {
      assert t[|t| - 1] == fields[8][|fields[8]| - 1];
      assert t[|t| - 1] in fields[8];
    }
  }

  lemma JoinEnd(parts: seq<string>, sep: string)
    requires parts != [] && parts[|parts| - 1] != ""
    ensures var j, t := Join(parts, sep), parts[|parts| - 1]; j != "" && j[|j| - 1] == t[|t| - 1]
  {}

  lemma LastOf(a: string, b: string)
    requires b != ""
    ensures (a + b)[|a + b| - 1] == b[|b| - 1]
  {}

  lemma BodyEnd(g: seq<Node>, path: GraphPath, km: (string, string) -> string)
    requires Printable(g, path) && Sendable(g, path, km)
    ensures var b := Body(g, path, km); b != "" && b[|b| - 1] != '\n' && b[|b| - 1] != '\r'
  {
    hide Join, Names, StepSendable;
    var steps := AllSteps(g, path, km);
    var texts := StepTexts(steps);
    var head := Join(Names(g, path.indices), ",") + Figures(path);
    if texts == [] {
      JoinNone([], ";");
      LastOf(Join(Names(g, path.indices), ","), Figures(path));
      LastOf(":" + Decimal(TransferTotal(path.routes)) + ":" + Decimal(path.total), ":");
      assert Body(g, path, km) == head;
    } else {
      var n := |texts| - 1;
      assert StepSendable(StepAt(g, path, km, n));
      StepEnd(steps[n]);
      JoinEnd(texts, ";");
      LastOf(head, Join(texts, ";"));
    }
  }

  lemma AnswerIsBody(g: seq<Node>, path: GraphPath, km: (string, string) -> string)
    requires Printable(g, path)
    ensures AnswerLine(g, path, km) == RESULT + "|0|" + Body(g, path, km) + "\n"
  {
    hide Join, Names, StepTexts, AllSteps, Figures;
    assert HEAD == RESULT + "|0|";
  }

  /** What the client shows of the line the server wrote: the same figures and step fields, in the same order, one node
      and no step included, and of the node names those that are not empty, cut at commas; so the same names if and only
      if none is empty and none holds a comma. */
  lemma {:induction false} AnswerRoundTrip(g: seq<Node>, path: GraphPath, km: (string, string) -> string,
                                           w: LongWidth)
    requires Printable(g, path) && Sendable(g, path, km)
    ensures ParseHeader(AnswerLine(g, path, km), w) == Header(RESULT, ERR_OK, Body(g, path, km))
    ensures Decode(Body(g, path, km))
         == Shown(Words(Join(Names(g, path.indices), ","), ','), Decimal(TransferTotal(path.routes)),
                  Decimal(path.total), AllSteps(g, path, km), NotesShown(AllSteps(g, path, km)))
    ensures var names := Names(g, path.indices);
            && (Decode(Body(g, path, km)).names == names <==> forall n | n in names :: n != "" && ',' !in n)
            && ((forall n | n in names :: ',' !in n) ==> Decode(Body(g, path, km)).names == NonEmpty(names))
  {
    hide Join, Names, NotesShown, StepSendable, DecodeSteps, Words, ParseHeader, Decode, StepTexts, AllSteps;
    var names, steps := Names(g, path.indices), AllSteps(g, path, km);
    BodyEnd(g, path, km);
    assert AnswerLine(g, path, km) == RESULT + "|0|" + Body(g, path, km) + "\n" by { AnswerIsBody(g, path, km); }
    HeaderRoundTrip(RESULT, Body(g, path, km), w);
    if forall n | n in names :: ',' !in n { WordsOfJoin(names, ','); }
    WordsBackIff(names, ',');
    NotInJoin(names, ",", ':');
    forall f | f in steps ensures StepSendable(f) {
      var i :| 0 <= i < |steps| && steps[i] == f;
    }
    forall t | t in StepTexts(steps) ensures t != "" && ';' !in t {
      var i :| 0 <= i < |steps| && StepTexts(steps)[i] == t;
      assert steps[i] in steps;
      StepEnd(steps[i]);
    }
    WordsBackIff(StepTexts(steps), ';');
    StepsRoundTrip(steps);
    DigitsAreClean(TransferTotal(path.routes));
    DigitsAreClean(path.total);
    assert [','] == "," && [';'] == ";";
    BodyCuts(Join(names, ","), Decimal(TransferTotal(path.routes)), Decimal(path.total), Join(StepTexts(steps), ";"));
  }

  /** The loss is real: a path of one node without a name is written and shown without any node. */
  lemma UnnamedNodeLost(g: seq<Node>, v: nat, km: (string, string) -> string)
    requires WellFormed(g) && v < |g| && g[v].name == ""
    ensures var path := GraphPath([v], [], [], 0);
            Reports(g, v, v, path) && Printable(g, path) && Names(g, path.indices) == [""]
            && Decode(Body(g, path, km)).Shown? && Decode(Body(g, path, km)).names == []
  {
    LonePath(g, v);
    hide *;
    var path := GraphPath([v], [], [], 0);
    LoneName(g, v, path);
    LoneBody(g, v, km);
    AnswerRoundTrip(g, path, km, Long64);
    OnePart("");
  }

  lemma LonePath(g: seq<Node>, v: nat)
    requires WellFormed(g) && v < |g|
    ensures Reports(g, v, v, GraphPath([v], [], [], 0))
  {
    hide WellFormed, RoadAt;
    assert WalkBetween(g, [v], v, v) && Weight(g, [v]) == 0;
    forall q | WalkBetween(g, q, v, v) ensures Weight(g, q) >= 0 { WeightAtLeastLength(g, q); }
    assert Shortest(g, [v], v, v) && Sum([]) == 0;
  }

  lemma LoneName(g: seq<Node>, v: nat, path: GraphPath)
    requires v < |g| && path.indices == [v]
    ensures Names(g, path.indices) == [g[v].name]
  {}

  lemma LoneBody(g: seq<Node>, v: nat, km: (string, string) -> string)
    requires v < |g| && g[v].name == ""
    ensures var path := GraphPath([v], [], [], 0); Printable(g, path) && Sendable(g, path, km)
  {
    var path := GraphPath([v], [], [], 0);
    LoneName(g, v, path);
    assert AllSteps(g, path, km) == [] && StepTexts([]) == [];
    assert Decimal(0) == "0";
    assert TransferTotal([]) == 0;
    assert AnswerLine(g, path, km) == HEAD + "" + (":0:0:") + "" + "\n";
  }

  /** The number of transfers on the client's first lines and the list of transfer notes below it agree
      exactly when the empty labels of the path balance out, so always when it has none. */
  lemma {:induction false} NotesMatchAnswer(g: seq<Node>, path: GraphPath, km: (string, string) -> string)
    requires Printable(g, path)
    ensures var notes := Notes(StepsOf(AllSteps(g, path, km)));
            (|notes| == TransferTotal(path.routes) <==>
             Neighbours(path.routes, OnlyClient) == Neighbours(path.routes, OnlyServer))
            && ("" !in path.routes ==> |notes| == TransferTotal(path.routes))
  {
    hide Notes, Neighbours, TransferTotal, AllSteps, StepsOf, RoutesOf, PrintedAll, OnlyClient, OnlyServer;
    var steps := StepsOf(AllSteps(g, path, km));
    forall i | 0 <= i < |steps| ensures RoutesOf(steps)[i] == PrintedAll(path.routes)[i] {
      assert AllSteps(g, path, km)[i] == StepAt(g, path, km, i);
    }
    assert RoutesOf(steps) == PrintedAll(path.routes);
    NotesMatchCount(path.routes, steps);
  }
}
