/** What the transfer count and the transfer notes amount to, in terms of the labels alone. */
module TransferLaws {
  import opened Basics
  import opened Graph
  import opened Transfers

  /** Labels as they are stored on edges: not empty and within their buffer. */
  ghost predicate Stored(route: string) { route != "" && |route| < MAX_ROUTE_LEN }

  /** Two rides under different labels. */
  ghost predicate Differ(a: string, b: string) { a != TRANSFER && b != TRANSFER && a != b }

  // ---------------------------------------------------------------- the count

  /** Where the walks are. */
  ghost function WalkPlaces(routes: seq<string>): set<nat> {
    set i: nat | i < |routes| && routes[i] == TRANSFER
  }

  ghost predicate ChangeAt(routes: seq<string>, i: int) { 0 < i < |routes| && Differ(routes[i - 1], routes[i]) }

  /** Where a ride follows directly on a ride under another label. */
  ghost function ChangePlaces(routes: seq<string>): set<nat> {
    set i: nat | i < |routes| && ChangeAt(routes, i)
  }

  lemma WalkPlacesNext(front: seq<string>, r: string)
    ensures |WalkPlaces(front + [r])| == |WalkPlaces(front)| + (if r == TRANSFER then 1 else 0)
  {
    var n, all := |front|, front + [r];
    assert forall i: nat | i < n :: all[i] == front[i];
    assert WalkPlaces(all) == WalkPlaces(front) + (if r == TRANSFER then {n} else {});
    assert n !in WalkPlaces(front);
  }

  lemma ChangePlacesNext(front: seq<string>, r: string)
    ensures |ChangePlaces(front + [r])|
         == |ChangePlaces(front)| + (if front != [] && Differ(front[|front| - 1], r) then 1 else 0)
  {
    hide Differ;
    var n, all := |front|, front + [r];
    forall i: nat | i < n ensures ChangeAt(all, i) <==> ChangeAt(front, i) {
      assert all[i] == front[i] && (i > 0 ==> all[i - 1] == front[i - 1]);
    }
    assert n > 0 ==> all[n - 1] == front[n - 1];
    assert ChangePlaces(all) == ChangePlaces(front) + (if n > 0 && Differ(front[n - 1], r) then {n} else {});
    assert n !in ChangePlaces(front);
  }

  lemma TotalNext(front: seq<string>, r: string)
    requires Stored(r) && forall x | x in front :: Stored(x)
    ensures TransferTotal(front + [r]) == TransferTotal(front) + (if r == TRANSFER then 1 else 0)
                                          + (if front != [] && Differ(front[|front| - 1], r) then 1 else 0)
  {
    assert (front + [r])[..|front|] == front;
    assert front != [] ==> front[|front| - 1] in front;
  }

  /** The number of transfers is the number of walks plus the number of places where a ride follows directly on a ride
      under another label: a walk in between hides the change. */
  lemma {:induction false} TotalIsPlaces(routes: seq<string>)
    requires forall r | r in routes :: Stored(r)
    ensures TransferTotal(routes) == |WalkPlaces(routes)| + |ChangePlaces(routes)|
  {
    hide *;
    if routes == [] {
      NoPlaces();
    } else {
      var front, r := routes[..|routes| - 1], routes[|routes| - 1];
      assert routes == front + [r] && r in routes && forall x | x in front :: x in routes;
      TotalIsPlaces(front);
      TotalNext(front, r);
      WalkPlacesNext(front, r);
      ChangePlacesNext(front, r);
    }
  }

  lemma NoPlaces()
    ensures TransferTotal([]) == 0 && WalkPlaces([]) == {} && ChangePlaces([]) == {}
  {}

  lemma TotalSnoc(front: seq<string>, r: string)
    ensures TransferTotal(front + [r]) == TransferTotal(front) + (if r == TRANSFER then 1 else 0)
                                          + (if front != [] && RideChange(front[|front| - 1], r) then 1 else 0)
  {
    hide RideChange;
    assert (front + [r])[..|front|] == front;
  }

  /** On any labels at all, a walk separates what comes before from what comes after. */
  lemma {:induction false} WalkSeparates(a: seq<string>, b: seq<string>)
    ensures TransferTotal(a + [TRANSFER] + b) == TransferTotal(a) + 1 + TransferTotal(b)
  {
    if b == [] {
      assert a + [TRANSFER] + b == a + [TRANSFER];
      TotalSnoc(a, TRANSFER);
    } else {
      hide *;
      var front, r := b[..|b| - 1], b[|b| - 1];
      WalkSeparates(a, front);
      assert b == front + [r] && a + [TRANSFER] + b == (a + [TRANSFER] + front) + [r];
      TotalSnoc(a + [TRANSFER] + front, r);
      TotalSnoc(front, r);
      assert front != [] ==> (a + [TRANSFER] + front)[|a| + |front|] == front[|front| - 1];
      assert front == [] ==> (a + [TRANSFER] + front)[|a| + |front|] == TRANSFER;
      NoChangeAfterWalk(r);
    }
  }

  lemma NoChangeAfterWalk(r: string)
    ensures !RideChange(TRANSFER, r)
  {}

  // ---------------------------------------------------------------- the notes

  /** A single step is noted when it is a walk. */
  lemma NotesOfOne(s: Step)
    ensures Notes([]) == []
    ensures Notes([s]) == if s.route == TRANSFER then [OnFoot(s.fromName, s.toName)] else []
  {
    assert [s][..0] == [];
  }

  /** Where two paths meet, a change is noted exactly when a ride under one label meets a ride under another; the
      notes of the two stay as they are. */
  lemma {:induction false} NotesOfJoin(a: seq<Step>, b: seq<Step>)
    requires a != [] && b != [] && (forall s | s in a :: Stored(s.route)) && forall s | s in b :: Stored(s.route)
    ensures var p, q := a[|a| - 1], b[0];
            Notes(a + b) == Notes(a) + (if Differ(p.route, q.route) then [Change(q.fromName, p.route, q.route)] else [])
                            + Notes(b)
  {
    hide *;
    var front, s := b[..|b| - 1], b[|b| - 1];
    assert b == front + [s] && a + b == (a + front) + [s];
    assert s in b && forall t | t in front :: t in b;
    StepNotes(a + front, s);
    StepNotes(front, s);
    if front == [] {
      assert a + front == a && b == [s] && a[|a| - 1] in a;
      FirstNotes(a, s);
      NotesOfOne(s);
    } else {
      NotesOfJoin(a, front);
      assert front[0] == b[0] && (a + front)[|a + front| - 1] == front[|front| - 1];
      NoteForLast(a + front, front, s);
      var p, q := a[|a| - 1], b[0];
      var between := if Differ(p.route, q.route) then [Change(q.fromName, p.route, q.route)] else [];
      Regroup(Notes(a) + between, Notes(front), NoteFor(front, s));
    }
  }

  lemma StepNotes(front: seq<Step>, s: Step)
    ensures Notes(front + [s]) == Notes(front) + NoteFor(front, s)
  {
    hide NoteFor;
    assert (front + [s])[..|front|] == front;
  }

  lemma NoteForLast(a: seq<Step>, b: seq<Step>, s: Step)
    requires a != [] && b != [] && a[|a| - 1] == b[|b| - 1]
    ensures NoteFor(a, s) == NoteFor(b, s)
  {
    hide RideChange;
  }

  lemma FirstNotes(a: seq<Step>, s: Step)
    requires a != [] && Stored(a[|a| - 1].route) && Stored(s.route)
    ensures var p := a[|a| - 1];
            NoteFor(a, s) == (if Differ(p.route, s.route) then [Change(s.fromName, p.route, s.route)] else [])
                             + (if s.route == TRANSFER then [OnFoot(s.fromName, s.toName)] else [])
  {}

  /** A printed note begins with the place it starts at; a change then tells the label it comes from. */
  lemma NoteBegins(n: Note)
    ensures n.OnFoot? ==> "  - " + n.fromName + AT <= NoteText(n)
    ensures n.Change? ==> "  - " + n.at + AT + n.before + " -> " <= NoteText(n)
  {
    match n
    case OnFoot(fromName, toName) =>
      assert NoteText(n) == "  - " + fromName + AT + (toName + BY_FOOT + "\n");
    case Change(at, before, after) =>
      assert NoteText(n) == "  - " + at + AT + before + " -> " + (after + CHANGES + "\n");
  }
}
