/**
 Transfers along a path, worked out twice: the server counts them over the segment labels
 (src/server/transfer_service.c), the client writes a note for each over the steps it decoded
 (src/client/result_viewer.c).
 */
module Transfers {
  import opened Text
  import opened Graph

  // ---------------------------------------------------------------- what counts as a transfer

  /** How many of the labels are transfers. */
  function TransferSegments(routes: seq<string>): nat {
    if routes == [] then 0
    else TransferSegments(routes[..|routes| - 1]) + (if routes[|routes| - 1] == TRANSFER then 1 else 0)
  }

  /** Both sides keep the last label in a buffer of 128 bytes. */
  function Remembered(route: string): string { SafeCopy(route, MAX_ROUTE_LEN) }

  /** Two segments in a row ridden under different labels, the first label not being empty. */
  predicate RideChange(a: string, b: string) {
    a != TRANSFER && b != TRANSFER && a != "" && Remembered(a) != b
  }

  /** How many neighbouring labels satisfy `p`. */
  function Neighbours(routes: seq<string>, p: (string, string) -> bool): nat {
    if |routes| < 2 then 0
    else Neighbours(routes[..|routes| - 1], p) + (if p(routes[|routes| - 2], routes[|routes| - 1]) then 1 else 0)
  }

  /** Transfer segments plus direct changes between rides. */
  function TransferTotal(routes: seq<string>): nat {
    TransferSegments(routes) + Neighbours(routes, RideChange)
  }

  // ---------------------------------------------------------------- server

  /** `count_transfers`. */
  method CountTransfers(routes: seq<string>) returns (count: nat)
    ensures count == TransferTotal(routes)
  {
    count := 0;
    var bridge, lastRide := false, "";
    var i := 0;
    while i < |routes|
      invariant 0 <= i <= |routes| && count == TransferTotal(routes[..i])
      invariant bridge <==> i > 0 && routes[i - 1] == TRANSFER
      invariant i > 0 && !bridge ==> lastRide == Remembered(routes[i - 1])
      invariant i == 0 ==> lastRide == ""
    {
      var route := routes[i];
      assert routes[..i + 1][..i] == routes[..i];
      if route == TRANSFER {
        count, bridge := count + 1, true;
      } else {
        if lastRide != "" && lastRide != route && !bridge { count := count + 1; }
        lastRide := Remembered(route);
        bridge := false;
      }
      i := i + 1;
    }
    assert routes[..i] == routes;
  }

  // ---------------------------------------------------------------- client

  /** The parts of a decoded step the notes are written from. */
  datatype Step = Step(fromName: string, route: string, toName: string)

  datatype Note = OnFoot(fromName: string, toName: string) | Change(at: string, before: string, after: string)

  function NoteFor(before: seq<Step>, step: Step): seq<Note> {
    if step.route == TRANSFER then [OnFoot(step.fromName, step.toName)]
    else if before != [] && RideChange(before[|before| - 1].route, step.route)
    then [Change(step.fromName, Remembered(before[|before| - 1].route), step.route)]
    else []
  }

  /** One note for every transfer segment and every direct change, in order, naming the place. */
  function Notes(steps: seq<Step>): seq<Note> {
    if steps == [] then []
    else Notes(steps[..|steps| - 1]) + NoteFor(steps[..|steps| - 1], steps[|steps| - 1])
  }

  // The Korean words of a note, as UTF-8 bytes: "from" behind a place; "to, transfer on foot"; "transfer".
  const AT: string := [
    0xEC as char, 0x97 as char, 0x90 as char, 0xEC as char, 0x84 as char, 0x9C as char,
    0x20 as char]
  const BY_FOOT: string := [
    0xEC as char, 0x9C as char, 0xBC as char, 0xEB as char, 0xA1 as char, 0x9C as char,
    0x20 as char, 0xED as char, 0x99 as char, 0x98 as char, 0xEC as char, 0x8A as char,
    0xB9 as char, 0x2F as char, 0xEB as char, 0x8F as char, 0x84 as char, 0xEB as char,
    0xB3 as char, 0xB4 as char, 0x20 as char, 0xEC as char, 0x9D as char, 0xB4 as char,
    0xEB as char, 0x8F as char, 0x99 as char]
  const CHANGES: string := [
    0x20 as char, 0xED as char, 0x99 as char, 0x98 as char, 0xEC as char, 0x8A as char,
    0xB9 as char]

  /** A note as it is printed. */
  function NoteText(n: Note): string {
    match n
    case OnFoot(fromName, toName) => "  - " + fromName + AT + toName + BY_FOOT + "\n"
    case Change(at, before, after) => "  - " + at + AT + before + " -> " + after + CHANGES + "\n"
  }

  function NotesText(notes: seq<Note>): string {
    if notes == [] then "" else NotesText(notes[..|notes| - 1]) + NoteText(notes[|notes| - 1])
  }

  ghost predicate Terminable(s: Step) { '\0' !in s.fromName && '\0' !in s.route && '\0' !in s.toName }

  /** One note more at the end of the text, as far as there is room. */
  method AppendNote(b: Buffer, note: Note, ghost notes: seq<Note>)
    requires b.Valid() && b.text == SafeCopy(NotesText(notes), b.data.Length) && '\0' !in NoteText(note)
    modifies b, b.data
    ensures b.Valid() && b.text == SafeCopy(NotesText(notes + [note]), b.data.Length)
  {
    hide SafeCopy, NoteText;
    assert (notes + [note])[..|notes|] == notes;
    CopyMore(NotesText(notes), NoteText(note), b.data.Length);
    var ok := b.Appendf(NoteText(note));
  }

  lemma NoteTerminable(before: seq<Step>, s: Step)
    requires Terminable(s) && forall r | r in before :: Terminable(r)
    ensures forall n | n in NoteFor(before, s) :: '\0' !in NoteText(n)
  {
    assert before != [] ==> before[|before| - 1] in before;
  }

  lemma NotesNext(steps: seq<Step>, i: nat)
    requires i < |steps|
    ensures Notes(steps[..i + 1]) == Notes(steps[..i]) + NoteFor(steps[..i], steps[i])
  {
    hide NoteFor;
    assert steps[..i + 1][..i] == steps[..i];
  }

  /** The note-writing loop of `show_transfer_result`: the text it collects, cut to its buffer. */
  method WriteNotes(steps: seq<Step>, b: Buffer)
    requires b.Valid() && b.text == "" && forall s | s in steps :: Terminable(s)
    modifies b, b.data
    ensures b.Valid() && b.text == SafeCopy(NotesText(Notes(steps)), b.data.Length)
  {
    hide Notes, NotesText, NoteText, SafeCopy, Terminable;
    NoNotes(b.data.Length);
    assert steps[..0] == [];
    var lastRide, afterBridge := "", false;
    var i := 0;
    while i < |steps|
      invariant 0 <= i <= |steps| && b.Valid() && b.text == SafeCopy(NotesText(Notes(steps[..i])), b.data.Length)
      invariant afterBridge <==> i > 0 && steps[i - 1].route == TRANSFER
      invariant i > 0 && !afterBridge ==> lastRide == Remembered(steps[i - 1].route)
      invariant i == 0 ==> lastRide == ""
    {
      var s := steps[i];
      ghost var notes := Notes(steps[..i]);
      assert s in steps && forall r | r in steps[..i] :: r in steps;
      NotesNext(steps, i);
      NoteTerminable(steps[..i], s);
      if s.route == TRANSFER {
        AppendNote(b, OnFoot(s.fromName, s.toName), notes);
        afterBridge := true;
      } else {
        ShortRemembered(steps[..i]);
        if lastRide != "" && lastRide != s.route && !afterBridge {
          AppendNote(b, Change(s.fromName, lastRide, s.route), notes);
        } else {
          assert notes + [] == notes;
        }
        lastRide := Remembered(s.route);
        afterBridge := false;
      }
      i := i + 1;
    }
    assert steps[..i] == steps;
  }

  /** Only an empty label is remembered as empty. */
  lemma ShortRemembered(before: seq<Step>)
    ensures forall s | s in before :: Remembered(s.route) == "" <==> s.route == ""
  {}

  lemma NoNotes(size: nat)
    requires size > 0
    ensures SafeCopy(NotesText(Notes([])), size) == ""
  {}

  /** How many lines a text has. */
  function LineCount(s: string): nat {
    if s == "" then 0 else LineCount(s[..|s| - 1]) + (if s[|s| - 1] == '\n' then 1 else 0)
  }

  lemma {:induction false} LineCountConcat(a: string, b: string)
    ensures LineCount(a + b) == LineCount(a) + LineCount(b)
  {
    if b == "" {
      assert a + b == a;
    } else {
      LineCountConcat(a, b[..|b| - 1]);
      assert (a + b)[..|a + b| - 1] == a + b[..|b| - 1];
    }
  }

  lemma {:induction false} NoLineEnds(s: string)
    requires '\n' !in s
    ensures LineCount(s) == 0
  {
    if s != "" { NoLineEnds(s[..|s| - 1]); }
  }

  lemma OneLineEnd(s: string)
    requires '\n' !in s
    ensures LineCount(s + "\n") == 1
  {
    NoLineEnds(s);
    assert (s + "\n")[..|s|] == s;
  }

  ghost predicate OneLine(n: Note) {
    match n
    case OnFoot(fromName, toName) => '\n' !in fromName && '\n' !in toName
    case Change(at, before, after) => '\n' !in at && '\n' !in before && '\n' !in after
  }

  lemma NoteIsLine(n: Note)
    requires OneLine(n)
    ensures LineCount(NoteText(n)) == 1 && NoteText(n) != "" && NoteText(n)[|NoteText(n)| - 1] == '\n'
  {
    hide LineCount;
    match n
    case OnFoot(fromName, toName) =>
      var s := "  - " + fromName + AT + toName + BY_FOOT;
      OneLineEnd(s);
    case Change(at, before, after) =>
      var s := "  - " + at + AT + before + " -> " + after + CHANGES;
      OneLineEnd(s);
  }

  lemma {:induction false} NotesTextLines(notes: seq<Note>)
    requires forall n | n in notes :: OneLine(n)
    ensures LineCount(NotesText(notes)) == |notes|
    ensures notes != [] ==> NotesText(notes) != "" && NotesText(notes)[|NotesText(notes)| - 1] == '\n'
  {
    if notes != [] {
      hide NoteText, OneLine, LineCount;
      var front, n := notes[..|notes| - 1], notes[|notes| - 1];
      assert n in notes && forall m | m in front :: m in notes;
      NotesTextLines(front);
      NoteIsLine(n);
      LineCountConcat(NotesText(front), NoteText(n));
    } else {
      NoLineEnds("");
    }
  }

  /** As many lines are printed as there are notes exactly when their text fits the buffer; otherwise fewer. */
  lemma {:induction false} LinesPrintedIff(notes: seq<Note>, size: nat)
    requires size > 0 && forall n | n in notes :: OneLine(n)
    ensures LineCount(SafeCopy(NotesText(notes), size)) == |notes| <==> |NotesText(notes)| < size
    ensures LineCount(SafeCopy(NotesText(notes), size)) <= |notes|
  {
    hide NotesText, LineCount, OneLine;
    NotesTextLines(notes);
    var t := NotesText(notes);
    if |t| >= size {
      var kept, lost := t[..size - 1], t[size - 1..];
      assert t == kept + lost;
      LineCountConcat(kept, lost);
      if notes != [] { LastLineEnd(lost); } else { NoLineEnds(""); assert t == "" by { NothingToPrint(notes); } }
    }
  }

  /** Names and labels within the buffers of a node and an edge, each on one line. */
  ghost predicate StepFits(s: Step) {
    && |s.fromName| < MAX_NAME_LEN && |s.toName| < MAX_NAME_LEN && |s.route| < MAX_ROUTE_LEN
    && '\n' !in s.fromName && '\n' !in s.toName && '\n' !in s.route
  }

  const LONGEST_NOTE := 376

  ghost predicate NoteFits(n: Note) { OneLine(n) && |NoteText(n)| <= LONGEST_NOTE }

  lemma NoteForFits(before: seq<Step>, s: Step)
    requires StepFits(s) && forall r | r in before :: StepFits(r)
    ensures forall n | n in NoteFor(before, s) :: NoteFits(n)
  {
    assert before != [] ==> before[|before| - 1] in before;
  }

  lemma {:induction false} NotesFit(steps: seq<Step>)
    requires forall s | s in steps :: StepFits(s)
    ensures forall n | n in Notes(steps) :: NoteFits(n)
  {
    if steps != [] {
      hide NoteFor, StepFits, NoteFits;
      var front, s := steps[..|steps| - 1], steps[|steps| - 1];
      assert s in steps && forall r | r in front :: r in steps;
      NotesFit(front);
      NoteForFits(front, s);
    }
  }

  /** So up to 87 notes always fit. */
  lemma {:induction false} NotesTextSize(notes: seq<Note>)
    requires forall n | n in notes :: NoteFits(n)
    ensures |NotesText(notes)| <= |notes| * LONGEST_NOTE
  {
    if notes != [] {
      hide NoteText;
      var front, n := notes[..|notes| - 1], notes[|notes| - 1];
      assert n in notes && forall m | m in front :: m in notes;
      NotesTextSize(front);
      assert NoteFits(n);
    }
  }

  lemma NothingToPrint(notes: seq<Note>)
    requires notes == []
    ensures NotesText(notes) == ""
  {}

  lemma LastLineEnd(s: string)
    requires s != "" && s[|s| - 1] == '\n'
    ensures LineCount(s) > 0
  {}

  function RoutesOf(steps: seq<Step>): (rs: seq<string>)
    ensures |rs| == |steps| && forall i | 0 <= i < |steps| :: rs[i] == steps[i].route
  {
    if steps == [] then [] else RoutesOf(steps[..|steps| - 1]) + [steps[|steps| - 1].route]
  }

  lemma {:induction false} NotesCount(steps: seq<Step>)
    ensures |Notes(steps)| == TransferTotal(RoutesOf(steps))
  {
    if steps != [] {
      NotesCount(steps[..|steps| - 1]);
      assert RoutesOf(steps)[..|steps| - 1] == RoutesOf(steps[..|steps| - 1]);
    }
  }

  // ---------------------------------------------------------------- the two agree

  /** The label the server prints for a segment: an empty one becomes MOVE. */
  function Printed(route: string): string { if route == "" then "MOVE" else route }

  function PrintedAll(routes: seq<string>): (rs: seq<string>)
    ensures |rs| == |routes| && forall i | 0 <= i < |routes| :: rs[i] == Printed(routes[i])
  {
    if routes == [] then [] else PrintedAll(routes[..|routes| - 1]) + [Printed(routes[|routes| - 1])]
  }

  /** A change only the client sees: the server forgot the empty label before it. */
  predicate OnlyClient(a: string, b: string) { a == "" && b != "" && b != "MOVE" && b != TRANSFER }

  /** A change only the server sees: once printed, the two labels look alike. */
  predicate OnlyServer(a: string, b: string) { a == "MOVE" && b == "" }

  lemma PairAgainstPair(a: string, b: string)
    ensures RideChange(Printed(a), Printed(b)) && !RideChange(a, b) <==> OnlyClient(a, b)
    ensures RideChange(a, b) && !RideChange(Printed(a), Printed(b)) <==> OnlyServer(a, b)
  {
    assert Remembered("MOVE") == "MOVE";
  }

  /** How far the two can differ, on any labels at all. */
  lemma {:induction false} ClientAgainstServer(routes: seq<string>)
    ensures TransferTotal(PrintedAll(routes)) + Neighbours(routes, OnlyServer)
         == TransferTotal(routes) + Neighbours(routes, OnlyClient)
  {
    if routes != [] {
      var n := |routes| - 1;
      ClientAgainstServer(routes[..n]);
      if n > 0 {
        PairAgainstPair(routes[n - 1], routes[n]);
        hide RideChange, OnlyClient, OnlyServer;
      }
      assert PrintedAll(routes)[..n] == PrintedAll(routes[..n]);
    }
  }

  /** The client writes as many notes as the server counted exactly when the empty labels balance out;
      in particular whenever there are none. */
  lemma NotesMatchCount(routes: seq<string>, steps: seq<Step>)
    requires RoutesOf(steps) == PrintedAll(routes)
    ensures |Notes(steps)| == TransferTotal(routes) <==>
            Neighbours(routes, OnlyClient) == Neighbours(routes, OnlyServer)
    ensures "" !in routes ==> |Notes(steps)| == TransferTotal(routes)
  {
    NotesCount(steps);
    ClientAgainstServer(routes);
    if "" !in routes {
      NoEmptyLabels(routes);
    }
  }

  /** With empty labels they may not: a change out of an unlabelled segment is seen by the client only, one into it from
      a line called MOVE by the server only. */
  lemma EmptyLabelsDiffer()
    ensures TransferTotal(["", "5"]) == 0 && TransferTotal(PrintedAll(["", "5"])) == 1
    ensures TransferTotal(["MOVE", ""]) == 1 && TransferTotal(PrintedAll(["MOVE", ""])) == 0
  {
    PairTotal("", "5");
    PairTotal("MOVE", "");
    PairTotal("MOVE", "5");
    PairTotal("MOVE", "MOVE");
    assert Remembered("MOVE") == "MOVE";
    assert PrintedAll(["", "5"]) == ["MOVE", "5"];
    assert PrintedAll(["MOVE", ""]) == ["MOVE", "MOVE"];
  }

  lemma PairTotal(a: string, b: string)
    requires a != TRANSFER && b != TRANSFER
    ensures TransferTotal([a, b]) == if RideChange(a, b) then 1 else 0
  {
    hide RideChange;
    assert [a, b][..1] == [a] && [a][..0] == [];
    assert TransferSegments([a]) == 0 && Neighbours([a], RideChange) == 0;
  }

  lemma {:induction false} NoEmptyLabels(routes: seq<string>)
    requires "" !in routes
    ensures Neighbours(routes, OnlyClient) == 0 && Neighbours(routes, OnlyServer) == 0
  {
    if routes != [] { NoEmptyLabels(routes[..|routes| - 1]); }
  }
}
