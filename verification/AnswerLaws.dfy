/** What the steps and notes a client shows say about the path, node by node. */
module AnswerLaws {
  import opened Text
  import opened Numbers
  import opened Splitting
  import opened Graph
  import opened ShortestPath
  import opened Transfers
  import opened TransferLaws
  import opened RouteAnswer

  // ---------------------------------------------------------------- steps

  /** Three fields that say which node is meant. */
  ghost predicate NamesNode(fields: seq<string>, n: Node) { fields == [n.id, n.name, n.kind] }

  /** A step leads from `a` to `b`: `a` comes first, then the label, then `b`, then the minutes, and the distance
      unless a stop is involved or the step is walked. */
  ghost predicate Leads(f: seq<string>, a: Node, b: Node, route: string, minutes: nat, distance: string) {
    && |f| == STEP_FIELDS && NamesNode(f[0..3], a) && NamesNode(f[4..7], b)
    && f[3] == (if route == "" then "MOVE" else route) && f[7] == Decimal(minutes)
    && f[8] == (if a.kind == b.kind == SUBWAY_STATION && route != TRANSFER
                then SafeCopy(distance, DISTANCE_SIZE) else "")
  }

  /** Step by step the shown steps lead along the nodes of the path. */
  ghost predicate Follows(g: seq<Node>, path: GraphPath, km: (string, string) -> string, steps: seq<seq<string>>)
    requires Printable(g, path)
  {
    && |steps| == |path.routes|
    && forall i | 0 <= i < |steps| ::
         var a, b := g[path.indices[i]], g[path.indices[i + 1]];
         Leads(steps[i], a, b, path.routes[i], path.minutes[i], km(a.id, b.id))
  }

  /** Step `i` starts where the one before it ends. */
  ghost predicate MeetAt(steps: seq<seq<string>>, i: int) {
    0 < i < |steps| && |steps[i - 1]| >= 7 && |steps[i]| >= 7 && steps[i - 1][4..7] == steps[i][0..3]
  }

  /** Consecutive steps meet. */
  ghost predicate Meet(steps: seq<seq<string>>) { forall i | 0 < i < |steps| :: MeetAt(steps, i) }

  /** The steps name the nodes of the summary one after the other. */
  ghost predicate Name(steps: seq<seq<string>>, names: seq<string>) {
    && |names| == |steps| + 1
    && forall i | 0 <= i < |steps| :: |steps[i]| >= 7 && steps[i][1] == names[i] && steps[i][5] == names[i + 1]
  }

  lemma StepLeads(a: Node, b: Node, route: string, minutes: nat, km: (string, string) -> string)
    ensures Leads(StepFields(a, b, route, minutes, km), a, b, route, minutes, km(a.id, b.id))
  {
    hide Decimal;
    assert "MOVE" != TRANSFER;
    var f := StepFields(a, b, route, minutes, km);
    assert f[0..3] == [a.id, a.name, a.kind] && f[4..7] == [b.id, b.name, b.kind];
  }

  lemma StepsFollow(g: seq<Node>, path: GraphPath, km: (string, string) -> string)
    requires Printable(g, path)
    ensures Follows(g, path, km, AllSteps(g, path, km))
  {
    hide Leads, StepFields;
    var steps := AllSteps(g, path, km);
    forall i | 0 <= i < |steps|
      ensures var a, b := g[path.indices[i]], g[path.indices[i + 1]];
              Leads(steps[i], a, b, path.routes[i], path.minutes[i], km(a.id, b.id))
    {
      assert steps[i] == StepAt(g, path, km, i);
      StepLeads(g[path.indices[i]], g[path.indices[i + 1]], path.routes[i], path.minutes[i], km);
    }
  }

  lemma LeadsMeans(f: seq<string>, a: Node, b: Node, route: string, minutes: nat, distance: string)
    requires Leads(f, a, b, route, minutes, distance)
    ensures |f| >= 7 && f[1] == a.name && f[5] == b.name
    ensures f[0..3] == [a.id, a.name, a.kind] && f[4..7] == [b.id, b.name, b.kind]
    ensures route != "" ==> f[3] == route
  {
    assert f[1] == f[0..3][1] && f[5] == f[4..7][1];
  }

  lemma FollowsAt(g: seq<Node>, path: GraphPath, km: (string, string) -> string, steps: seq<seq<string>>, i: nat)
    requires Printable(g, path) && Follows(g, path, km, steps) && i < |steps|
    ensures var a, b, f := g[path.indices[i]], g[path.indices[i + 1]], steps[i];
            |f| >= 7 && f[1] == a.name && f[5] == b.name
            && f[0..3] == [a.id, a.name, a.kind] && f[4..7] == [b.id, b.name, b.kind]
  {
    hide Leads;
    var a, b := g[path.indices[i]], g[path.indices[i + 1]];
    LeadsMeans(steps[i], a, b, path.routes[i], path.minutes[i], km(a.id, b.id));
  }

  /** Steps that follow a path meet, and name its nodes. */
  lemma FollowsMeans(g: seq<Node>, path: GraphPath, km: (string, string) -> string, steps: seq<seq<string>>)
    requires Printable(g, path) && Follows(g, path, km, steps)
    ensures Meet(steps) && Name(steps, Names(g, path.indices))
  {
    hide Follows;
    assert |steps| == |path.routes| by { FollowsCount(g, path, km, steps); }
    forall i | 0 <= i < |steps|
      ensures |steps[i]| >= 7 && steps[i][1] == g[path.indices[i]].name && steps[i][5] == g[path.indices[i + 1]].name
    {
      FollowsAt(g, path, km, steps, i);
    }
    forall i | 0 < i < |steps| ensures MeetAt(steps, i) {
      FollowsAt(g, path, km, steps, i - 1);
      FollowsAt(g, path, km, steps, i);
    }
  }

  lemma FollowsCount(g: seq<Node>, path: GraphPath, km: (string, string) -> string, steps: seq<seq<string>>)
    requires Printable(g, path) && Follows(g, path, km, steps)
    ensures |steps| == |path.routes|
  {}

  // ---------------------------------------------------------------- notes

  /** What a note says about step `i`: that it is walked from one place to the other, or that at its start a ride
      under one label meets a ride under another. */
  ghost predicate NotedAt(steps: seq<Step>, i: int, n: Note)
    requires 0 <= i < |steps|
  {
    match n
    case OnFoot(fromName, toName) =>
      steps[i].route == TRANSFER && fromName == steps[i].fromName && toName == steps[i].toName
    case Change(at, before, after) =>
      i > 0 && Differ(steps[i - 1].route, steps[i].route)
      && at == steps[i].fromName && before == steps[i - 1].route && after == steps[i].route
  }

  lemma NoteForMeans(front: seq<Step>, s: Step, n: Note)
    requires (forall t | t in front :: Stored(t.route)) && Stored(s.route)
    ensures n in NoteFor(front, s) <==> NotedAt(front + [s], |front|, n)
  {
    assert front != [] ==> front[|front| - 1] in front;
  }

  lemma NotedBefore(front: seq<Step>, s: Step, i: nat, n: Note)
    requires i < |front|
    ensures NotedAt(front + [s], i, n) <==> NotedAt(front, i, n)
  {
    hide Differ;
    var all := front + [s];
    assert all[i] == front[i] && (i > 0 ==> all[i - 1] == front[i - 1]);
  }

  /** The notes are exactly those. */
  lemma {:induction false} NoteIff(steps: seq<Step>, n: Note)
    requires forall s | s in steps :: Stored(s.route)
    ensures n in Notes(steps) <==> exists i :: 0 <= i < |steps| && NotedAt(steps, i, n)
  {
    hide *;
    if steps == [] {
      NotesOfOne(Step("", "", ""));
    } else {
      var front, s := steps[..|steps| - 1], steps[|steps| - 1];
      assert steps == front + [s] && s in steps && forall t | t in front :: t in steps;
      NoteIff(front, n);
      StepNotes(front, s);
      NoteForMeans(front, s, n);
      forall i | 0 <= i < |front| ensures NotedAt(steps, i, n) <==> NotedAt(front, i, n) {
        NotedBefore(front, s, i, n);
      }
    }
  }

  /** What a note says about the path: segment `i` is walked from its first node to its second, or at its first node the
      label changes. */
  ghost predicate NotedOn(g: seq<Node>, path: GraphPath, i: int, n: Note)
    requires Printable(g, path) && 0 <= i < |path.routes|
  {
    match n
    case OnFoot(fromName, toName) =>
      && path.routes[i] == TRANSFER
      && fromName == g[path.indices[i]].name && toName == g[path.indices[i + 1]].name
    case Change(at, before, after) =>
      && i > 0 && Differ(path.routes[i - 1], path.routes[i]) && at == g[path.indices[i]].name
      && before == path.routes[i - 1] && after == path.routes[i]
  }

  /** Something happens on the path that the note is for. */
  ghost predicate Noted(g: seq<Node>, path: GraphPath, n: Note)
    requires Printable(g, path)
  {
    exists i :: 0 <= i < |path.routes| && NotedOn(g, path, i, n)
  }

  /** The notes of a path without empty labels: one for every walked segment, naming its two places in order, and one
      for every direct change, naming the place and both labels in order. */
  lemma {:induction false} NotesOnPath(g: seq<Node>, path: GraphPath, km: (string, string) -> string, n: Note)
    requires Printable(g, path) && forall r | r in path.routes :: Stored(r)
    ensures forall f | f in AllSteps(g, path, km) :: |f| >= 8
    ensures n in Notes(StepsOf(AllSteps(g, path, km))) <==> Noted(g, path, n)
  {
    hide NotedAt, NotedOn, Notes, Decimal, DistanceText, Stored;
    var ss := StepsOf(AllSteps(g, path, km));
    forall i | 0 <= i < |ss|
      ensures Stored(ss[i].route) && (NotedAt(ss, i, n) <==> NotedOn(g, path, i, n))
    {
      StepRead(g, path, km, i);
      if i > 0 { StepRead(g, path, km, i - 1); }
      NotedSame(g, path, ss, i, n);
    }
    NoteIff(ss, n);
  }

  lemma StepRead(g: seq<Node>, path: GraphPath, km: (string, string) -> string, i: nat)
    requires Printable(g, path) && i < |path.routes| && Stored(path.routes[i])
    ensures forall f | f in AllSteps(g, path, km) :: |f| >= 8
    ensures StepsOf(AllSteps(g, path, km))[i]
         == Step(g[path.indices[i]].name, path.routes[i], g[path.indices[i + 1]].name)
  {
    hide DistanceText, Decimal;
    assert AllSteps(g, path, km)[i] == StepAt(g, path, km, i);
  }

  lemma NotedSame(g: seq<Node>, path: GraphPath, ss: seq<Step>, i: nat, n: Note)
    requires Printable(g, path) && |ss| == |path.routes| && i < |ss|
    requires ss[i] == Step(g[path.indices[i]].name, path.routes[i], g[path.indices[i + 1]].name)
    requires i > 0 ==> ss[i - 1].route == path.routes[i - 1]
    ensures NotedAt(ss, i, n) <==> NotedOn(g, path, i, n)
  {
    hide Differ;
  }

  // ---------------------------------------------------------------- the line

  /** In front of the steps come the names, then the number of transfers, then the minutes. */
  lemma BodyFields(g: seq<Node>, path: GraphPath, km: (string, string) -> string)
    requires Printable(g, path) && (forall r | r in path.routes :: Stored(r))
    requires ':' !in Join(Names(g, path.indices), ",")
    ensures Fields(Body(g, path, km), ':', 3)
         == [Join(Names(g, path.indices), ","), Decimal(|WalkPlaces(path.routes)| + |ChangePlaces(path.routes)|),
             Decimal(path.total)]
  {
    hide Printable, Stored, Names, StepTexts, AllSteps, Join, Decimal, TransferTotal, WalkPlaces, ChangePlaces, Fields;
    TotalIsPlaces(path.routes);
    IndicesInside(g, path);
    TotalIsNat(g, path);
    var names, steps := Join(Names(g, path.indices), ","), Join(StepTexts(AllSteps(g, path, km)), ";");
    var count, total := Decimal(TransferTotal(path.routes)), Decimal(path.total);
    DigitsAreClean(TransferTotal(path.routes));
    DigitsAreClean(path.total);
    BodyShape(names, count, total, steps);
    FieldsStep(names, ':', count + [':'] + (total + [':'] + steps), 3);
    FieldsStep(count, ':', total + [':'] + steps, 2);
    FieldsStep(total, ':', steps, 1);
    NoFields(steps, ':');
  }

  lemma TotalIsNat(g: seq<Node>, path: GraphPath)
    requires Printable(g, path)
    ensures path.total >= 0
  {}

  lemma BodyShape(names: string, count: string, total: string, steps: string)
    ensures names + (":" + count + ":" + total + ":") + steps
         == names + [':'] + (count + [':'] + (total + [':'] + steps))
  {}
}
