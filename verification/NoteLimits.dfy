/**
 Loaded data on which the client's note buffer (src/client/result_viewer.c) is too short although the answer fits its
 packet: a long line label is printed in up to two notes but sent only once.
 */
module NoteLimits {
  import opened Basics
  import opened Text
  import opened Numbers
  import opened Packets
  import opened Graph
  import opened Walks
  import opened ShortestPath
  import opened Loader
  import opened LoaderFacts
  import opened StationData
  import opened BufferLimits
  import opened Transfers
  import opened TransferLaws
  import opened RouteAnswer
  import opened Journey

  const LEGS := 120
  const LABEL := 127

  /** Two labels of 127 bytes, taking turns. */
  function Label(k: nat): (t: RouteText)
    ensures |t| == LABEL
  {
    seq(LABEL, _ => if k % 2 == 0 then 'A' else 'B')
  }

  lemma LabelIs(k: nat)
    ensures !IsBlank(Label(k)) && Separable(Label(k)) && Label(k) != TRANSFER && Remembered(Label(k)) == Label(k)
    ensures Label(k) != Label(k + 1)
  {
    assert Label(k)[0] in Label(k) && !IsSpace(Label(k)[0]);
    assert Label(k)[0] != Label(k + 1)[0];
  }

  /** A line of stations on which every leg is ridden under another label than the one before. */
  function LegData(): AppData {
    AppData([], [], NumberedStations(LEGS + 1),
            seq(LEGS, k requires 0 <= k < LEGS => Distance(NumberId(k), NumberId(k + 1), Label(k), 0.0, 1)))
  }

  function Legs(): (r: seq<(nat, nat)>)
    ensures |r| == LEGS && forall k | 0 <= k < LEGS :: r[k] == (k, k + 1)
  {
    seq(LEGS, k requires 0 <= k < LEGS => (k, k + 1))
  }

  lemma LegRow(k: nat)
    requires k < LEGS
    ensures |LegData().distances| == LEGS && LegData().distances[k].line == Label(k)
    ensures RowJoins(LegData(), LegData().distances[k], Legs()[k])
  {
    hide NumberId, Label;
    LabelIs(k);
  }

  lemma LegDataIs()
    ensures Indexed(LegData(), Legs())
  {
    hide NumberId, DistinctIds, Label, RowJoins;
    NumberedDistinct(LegData(), LEGS + 1);
    forall k | 0 <= k < LEGS ensures RowJoins(LegData(), LegData().distances[k], Legs()[k]) { LegRow(k); }
  }

  lemma LegRoad(k: nat)
    requires k < LEGS
    ensures Linked(Built(LegData()), k, k + 1)
    ensures RoadWeight(Built(LegData()), k, k + 1) == 1 && RoadAt(Built(LegData()), k, k + 1).value.route == Label(k)
  {
    hide Built, LegData, Linked, RoadWeight, Indexed, Label, RoadAt, RowJoins;
    LegDataIs();
    RowRoad(LegData(), Legs(), k);
    var j := RoadRow(LegData(), Legs(), k, k + 1);
    LegRow(j);
  }

  lemma RoadOf(g: seq<Node>, u: int, v: int)
    requires Linked(g, u, v)
    ensures RoadAt(g, u, v) == Some(Road(RoadWeight(g, u, v), RoadAt(g, u, v).value.route))
  {}

  lemma LegCount()
    ensures |Built(LegData())| == LEGS + 1
  {
    hide Built, LegData, Indexed;
    LegDataIs();
    IndexedLinks(LegData(), Legs());
    LegStations();
  }

  lemma LegStations()
    ensures |LegData().stations| == LEGS + 1
  {}

  function LegPath(): GraphPath {
    GraphPath(seq(LEGS + 1, i => i), seq(LEGS, k requires 0 <= k < LEGS => Label(k)), seq(LEGS, k => 1), LEGS)
  }

  lemma LegReported()
    ensures Reports(Built(LegData()), 0, LEGS, LegPath())
  {
    hide Built, LegData, LegPath, RoadAt, Ruled, WellFormed, Indexed, Label, Reports, Distinct, Shortest;
    var g, p, path := Built(LegData()), LegPath().indices, LegPath();
    LegPathIs();
    LegDataIs();
    LegCount();
    IndexedRuled(LegData(), Legs());
    forall i | 0 <= i < |p| - 1 ensures RoadAt(g, p[i], p[i + 1]) == Some(Road(path.minutes[i], path.routes[i])) {
      LegRoad(i);
      RoadOf(g, i, i + 1);
    }
    assert WalkBetween(g, p, 0, LEGS);
    RisingShortest(g, p, 0, LEGS);
    SegmentsReport(g, 0, LEGS, p, path.minutes, path.routes, LEGS);
  }

  lemma LegSeparable()
    ensures SeparableData(LegData())
  {
    hide Separable, NumberId, Label;
    var data := LegData();
    forall s | s in data.stations ensures Separable(s.id) && Separable(s.name) && Separable(s.line) {
      var i :| 0 <= i < |data.stations| && data.stations[i] == s;
      NumberIdIs(i);
      DigitsSeparable(i);
      NothingSeparable();
    }
    forall d | d in data.distances ensures Separable(d.line) {
      var k :| 0 <= k < LEGS && data.distances[k] == d;
      LabelIs(k);
    }
  }

  lemma NothingSeparable()
    ensures Separable("")
  {}

  // ---------------------------------------------------------------- the answer fits

  lemma LegNode(v: nat)
    requires v <= LEGS
    ensures |Built(LegData())| == LEGS + 1
    ensures var n := Built(LegData())[v]; |n.id| <= 6 && n.name == "" && n.kind == SUBWAY_STATION
  {
    hide Built, Skeleton, NumberId, DistinctIds, Label;
    NumberedDistinct(LegData(), LEGS + 1);
    SkeletonIs(LegData());
    BuiltNode(LegData(), v);
    NumberIdIs(v);
    assert Skeleton(LegData())[|LegData().stops| + v] == StationNode(NumberedStation(v));
  }

  const STEP_SIZE := 207

  lemma LegStep(k: nat, km: (string, string) -> string)
    requires k < LEGS && Printable(Built(LegData()), LegPath())
    ensures |Join(StepAt(Built(LegData()), LegPath(), km, k), "~")| <= STEP_SIZE
  {
    hide Built, LegData, Join, Label, Printable;
    LegPathIs();
    LegNode(k);
    LegNode(k + 1);
    LabelIs(k);
    var f := StepAt(Built(LegData()), LegPath(), km, k);
    assert Decimal(1) == "1";
    NineSizes(f);
  }

  lemma LegPathIs()
    ensures |LegPath().indices| == LEGS + 1 && |LegPath().routes| == |LegPath().minutes| == LEGS
    ensures forall i | 0 <= i <= LEGS :: LegPath().indices[i] == i
    ensures forall k | 0 <= k < LEGS :: LegPath().routes[k] == Label(k) && LegPath().minutes[k] == 1
    ensures LegPath().total == LEGS
  {}

  lemma {:induction false} NineSizes(f: seq<string>)
    requires |f| == STEP_FIELDS && |f[0]| <= 6 && |f[1]| == 0 && |f[2]| == 14 && |f[3]| == LABEL
    requires |f[4]| <= 6 && |f[5]| == 0 && |f[6]| == 14 && |f[7]| == 1 && |f[8]| < DISTANCE_SIZE
    ensures |Join(f, "~")| <= STEP_SIZE
  {
    hide Join;
    JoinNext(f, "~", 0);
    JoinNext(f, "~", 1);
    JoinNext(f, "~", 2);
    JoinNext(f, "~", 3);
    JoinNext(f, "~", 4);
    JoinNext(f, "~", 5);
    JoinNext(f, "~", 6);
    JoinNext(f, "~", 7);
    JoinNext(f, "~", 8);
    assert f[..9] == f;
  }

  lemma LegAnswerFits(km: (string, string) -> string)
    requires Printable(Built(LegData()), LegPath())
    ensures |AnswerLine(Built(LegData()), LegPath(), km)| < MAX_PACKET_SIZE
  {
    hide Built, LegData, LegPath, Join, StepAt, Decimal, TransferTotal;
    var g, path := Built(LegData()), LegPath();
    LegPathIs();
    LegCount();
    var names, texts := Names(g, path.indices), StepTexts(AllSteps(g, path, km));
    forall i | 0 <= i < |names| ensures |names[i]| + |","| <= 1 { LegNode(i); }
    JoinSize(names, ",", 1);
    forall k | 0 <= k < |texts| ensures |texts[k]| + |";"| <= STEP_SIZE + 1 { LegStep(k, km); }
    JoinSize(texts, ";", STEP_SIZE + 1);
    TransferBound(path.routes);
    assert PowerOfTen(3) == 1000;
    DecimalLength(TransferTotal(path.routes), 3);
    DecimalLength(path.total, 3);
  }

  lemma {:induction false} TransferBound(routes: seq<string>)
    ensures TransferTotal(routes) <= 2 * |routes|
  {
    if routes != [] {
      hide RideChange;
      TransferBound(routes[..|routes| - 1]);
    }
  }

  // ---------------------------------------------------------------- the notes do not

  /** Steps ridden under the two labels in turn. */
  ghost predicate InTurn(steps: seq<Step>) { forall k | 0 <= k < |steps| :: steps[k].route == Label(k) }

  lemma {:induction false} NotesOfTurns(steps: seq<Step>)
    requires InTurn(steps) && steps != []
    ensures |Notes(steps)| == |steps| - 1
    ensures |NotesText(Notes(steps))| >= |Notes(steps)| * 277
  {
    hide *;
    var n := |steps| - 1;
    var front, s := steps[..n], steps[n];
    assert steps == front + [s];
    StepNotes(front, s);
    TurnAt(steps, n);
    if n == 0 {
      assert front == [];
      NoNotesYet(s);
    } else {
      TurnsFront(steps, n);
      NotesOfTurns(front);
      TurnAt(steps, n - 1);
      var note := TurnNote(front, s, n);
      NotesTextSnoc(Notes(front), note);
    }
  }

  lemma NotesTextSnoc(notes: seq<Note>, note: Note)
    ensures NotesText(notes + [note]) == NotesText(notes) + NoteText(note)
  {
    hide NoteText;
    assert (notes + [note])[..|notes|] == notes;
  }

  lemma TurnAt(steps: seq<Step>, k: nat)
    requires InTurn(steps) && k < |steps|
    ensures steps[k].route == Label(k)
  {}

  lemma TurnsFront(steps: seq<Step>, n: nat)
    requires InTurn(steps) && n <= |steps|
    ensures InTurn(steps[..n])
  {
    hide Label;
  }

  lemma NoNotesYet(s: Step)
    requires s.route == Label(0)
    ensures Notes([]) + NoteFor([], s) == [] && NotesText([]) == ""
  {
    LabelIs(0);
    hide Label;
  }

  lemma TurnNote(front: seq<Step>, s: Step, n: nat) returns (note: Note)
    requires 0 < n == |front| && front[n - 1].route == Label(n - 1) && s.route == Label(n)
    ensures NoteFor(front, s) == [note] && |NoteText(note)| >= 277
  {
    LabelIs(n);
    LabelIs(n - 1);
    hide Label, NoteText;
    note := Change(s.fromName, Label(n - 1), Label(n));
    ChangeSize(s.fromName, Label(n - 1), Label(n));
  }

  lemma ChangeSize(at: string, before: string, after: string)
    requires |before| == |after| == LABEL
    ensures |NoteText(Change(at, before, after))| >= 277
  {}

  /** So a path the search reports on loaded data, whose answer fits the packet, has more notes than the client prints:
      119 transfers are announced, and fewer lines follow. */
  lemma {:induction false} NotesOverflow(km: (string, string) -> string, w: LongWidth)
    requires DistanceTexts(km)
    ensures Reports(Built(LegData()), 0, LEGS, LegPath()) && Printable(Built(LegData()), LegPath())
    ensures |AnswerLine(Built(LegData()), LegPath(), km)| < MAX_PACKET_SIZE
    ensures var header := ParseHeader(AnswerLine(Built(LegData()), LegPath(), km), w);
            var shown := Decode(header.payload);
            shown.Shown? && shown.count == Decimal(LEGS - 1) && LineCount(shown.notes) < LEGS - 1
  {
    hide *;
    LegReported();
    LegSeparable();
    ShownCountIsNotes(LegData(), 0, LEGS, LegPath(), km, w);
    LegAnswerFits(km);
    LegNotes(km);
  }

  lemma LegNotes(km: (string, string) -> string)
    requires Printable(Built(LegData()), LegPath())
    ensures forall f | f in AllSteps(Built(LegData()), LegPath(), km) :: |f| >= 8
    ensures var notes := Notes(StepsOf(AllSteps(Built(LegData()), LegPath(), km)));
            |notes| == LEGS - 1 && |NotesText(notes)| >= MAX_PACKET_SIZE
  {
    hide Built, LegData, LegPath, Printable, Notes, NotesText, AllSteps, StepsOf;
    NineFields(Built(LegData()), LegPath(), km);
    LegPathIs();
    LegTurns(Built(LegData()), LegPath(), km);
    NotesOfTurns(StepsOf(AllSteps(Built(LegData()), LegPath(), km)));
  }

  lemma LegTurns(g: seq<Node>, path: GraphPath, km: (string, string) -> string)
    requires Printable(g, path) && forall k | 0 <= k < |path.routes| :: path.routes[k] == Label(k)
    ensures var steps := StepsOf(AllSteps(g, path, km)); |steps| == |path.routes| && InTurn(steps)
  {
    hide Label, Printable, DistanceText, Decimal;
    var fields := AllSteps(g, path, km);
    forall k | 0 <= k < |path.routes| ensures StepsOf(fields)[k].route == Label(k) {
      LabelIs(k);
      assert fields[k] == StepAt(g, path, km, k);
    }
  }
}
