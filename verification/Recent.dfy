/** The recent-search file of src/server/user_state_service.c: a window of the last twenty searches, kept as text. */
module Recent {
  import opened Basics
  import opened Text
  import opened Files
  import opened Responses

  const SERVER_RECENT_MAX_COUNT := 20
  const RECORD_SIZE := 1024
  const RECENT_SLACK := 4
  const RECENT_HEAD := "RECENT_LIST_RES|0|"

  // ---------------------------------------------------------------- what is meant

  predicate Accepted(kind: string, keyword: string) {
    !IsBlank(kind) && !IsBlank(keyword) && !HasDelimiter(kind) && !HasDelimiter(keyword)
  }

  function Record(kind: string, keyword: string, time: string): string {
    SafeCopy(kind + "|" + keyword + "|" + time, RECORD_SIZE)
  }

  /** The file after one call of `server_recent_add`. */
  function AfterAdd(file: Option<string>, s: Search): Option<string> {
    if Accepted(s.kind, s.keyword)
    then Some(Render(LastN(Records(TextOf(file)), SERVER_RECENT_MAX_COUNT - 1) + [Record(s.kind, s.keyword, s.time)]))
    else file
  }

  /** The three fields of a record; none when one is missing or blank. */
  datatype Search = Search(kind: string, keyword: string, time: string)

  function SearchIn(line: string): Option<Search> {
    match Cut3(line)
    case None => None
    case Some(t) => Some(Search(t.0, t.1, t.2))
  }

  function ParseRecord(line: string): Option<Search> {
    match SearchIn(line)
    case None => None
    case Some(s) => if IsBlank(s.kind) || IsBlank(s.keyword) || IsBlank(s.time) then None else Some(s)
  }

  /** A line is a search exactly when it is made of three parts that are not blank. */
  lemma ParseRecordIff(line: string, s: Search)
    ensures ParseRecord(line) == Some(s) <==>
            && line == s.kind + "|" + s.keyword + "|" + s.time && '|' !in s.kind && '|' !in s.keyword
            && !IsBlank(s.kind) && !IsBlank(s.keyword) && !IsBlank(s.time)
  {
    hide Cut3, IsBlank;
    Cut3Iff(line, s.kind, s.keyword, s.time);
  }

  function ItemText(s: Search): string { s.kind + ":" + s.keyword + ":" + s.time }

  /** The lines that hold a search, a byte-order mark in front of each dropped. */
  function WellFormed(lines: seq<string>): seq<string> {
    if lines == [] then []
    else
      var l := DropBom(lines[|lines| - 1]);
      WellFormed(lines[..|lines| - 1]) + (if ParseRecord(l).None? then [] else [l])
  }

  /** One item of the list. */
  function ItemOf(line: string): string {
    match SearchIn(line)
    case None => ""
    case Some(s) => ItemText(s)
  }

  function NewestFirst(lines: seq<string>): seq<string>
  {
    seq(|lines|, i requires 0 <= i < |lines| => ItemOf(lines[|lines| - 1 - i]))
  }

  lemma NewestAt(lines: seq<string>)
    ensures |NewestFirst(lines)| == |lines|
    ensures forall i | 0 <= i < |lines| :: NewestFirst(lines)[i] == ItemOf(lines[|lines| - 1 - i])
  {
    hide ItemOf;
  }

  /** What the list shows: the last twenty well-formed searches, newest first. */
  function RecentItems(text: string): seq<string> {
    NewestFirst(LastN(WellFormed(Lines(text)), SERVER_RECENT_MAX_COUNT))
  }

  // ---------------------------------------------------------------- the sliding window

  /** An array of the last entries read: appended to while there is room, shifted down by one when there is none. */
  method Remember(window: array<string>, count: nat, entry: string, ghost seen: seq<string>) returns (next: nat)
    requires 0 < window.Length && count <= window.Length && window[..count] == LastN(seen, window.Length)
    modifies window
    ensures next <= window.Length && window[..next] == LastN(seen + [entry], window.Length)
  {
    next := count;
    if next >= window.Length {
      ghost var was := window[..];
      var i := 1;
      while i < window.Length
        invariant 1 <= i <= window.Length
        invariant forall j | 0 <= j < i - 1 :: window[j] == was[j + 1]
        invariant forall j | i - 1 <= j < window.Length :: window[j] == was[j]
      {
        window[i - 1] := window[i];
        i := i + 1;
      }
      next := window.Length - 1;
      assert window[..next] == was[1..];
    }
    ghost var front := window[..next];
    window[next] := entry;
    next := next + 1;
    assert window[..next] == front + [entry];
  }

  class RecentStore {
    var file: Option<string>

    constructor ()
      ensures file == None
    {
      file := None;
    }

    /** Reads the records of the file through the window. */
    method ReadWindow(window: array<string>) returns (count: nat)
      requires window.Length > 0
      modifies window
      ensures count <= window.Length && window[..count] == LastN(Records(TextOf(file)), window.Length)
    {
      hide Records, LastN;
      ghost var seen: seq<string> := [];
      var rest := TextOf(file);
      count := 0;
      NoRecords(rest, window.Length);
      while rest != ""
        invariant count <= window.Length && window[..count] == LastN(seen, window.Length)
        invariant Records(TextOf(file)) == seen + Records(rest)
        decreases |rest|
      {
        count, rest, seen := TakeRecord(window, count, rest, seen);
      }
      NoRecords(seen, window.Length);
    }

    /** Reads the well-formed lines of the file through the window. */
    method ReadSearches(window: array<string>) returns (count: nat)
      requires window.Length > 0
      modifies window
      ensures count <= window.Length && window[..count] == LastN(WellFormed(Lines(TextOf(file))), window.Length)
    {
      hide Lines, WellFormed, LastN;
      ghost var seen: seq<string> := [];
      var rest := TextOf(file);
      count := 0;
      NoLines(rest, window.Length);
      while rest != ""
        invariant count <= window.Length && window[..count] == LastN(seen, window.Length)
        invariant WellFormed(Lines(TextOf(file))) == seen + WellFormed(Lines(rest))
        decreases |rest|
      {
        count, rest, seen := TakeSearch(window, count, rest, seen);
      }
      NoLines(seen, window.Length);
    }

    /** `handle_recent_list`. */
    method List(b: Buffer)
      requires b.Valid()
      modifies b, b.data
      ensures b.Valid() && Outcome(b.text, RECENT_HEAD, RecentItems(TextOf(file)), RECENT_SLACK, b.data.Length)
    {
      hide Lines, WellFormed, LastN, ItemOf, Outcome, Holds, NewestFirst;
      var recent := new string[SERVER_RECENT_MAX_COUNT](_ => "");
      var count := ReadSearches(recent);
      ghost var kept, items := recent[..count], RecentItems(TextOf(file));
      NewestAt(kept);
      Start(b, RECENT_HEAD, items, RECENT_SLACK);
      var i := 0;
      while i < count
        invariant 0 <= i <= count == |items| && Responses.Holds(b, RECENT_HEAD, items, RECENT_SLACK, i)
        invariant recent[..count] == kept
      {
        var line := recent[count - 1 - i];
        assert line == kept[count - 1 - i] && items[i] == ItemOf(line);
        ItemTerminable(TextOf(file), line);
        var ok := AddItem(b, ItemOf(line), RECENT_SLACK, i, RECENT_HEAD, items);
        if !ok { break; }
        i := i + 1;
      }
      HoldsAll(b, RECENT_HEAD, items, RECENT_SLACK, i);
      Finish(b, RECENT_HEAD, items, RECENT_SLACK, i);
    }

    /** `server_recent_add`, called at `time`. */
    method Add(kind: string, keyword: string, time: string)
      modifies this
      ensures file == AfterAdd(old(file), Search(kind, keyword, time))
    {
      if IsBlank(kind) || IsBlank(keyword) || HasDelimiter(kind) || HasDelimiter(keyword) { return; }
      var recent := new string[SERVER_RECENT_MAX_COUNT - 1](_ => "");
      var count := ReadWindow(recent);
      var record := Record(kind, keyword, time);
      var text := "";
      var i := 0;
      while i < count
        invariant 0 <= i <= count && text == Render(recent[..i])
      {
        assert recent[..i + 1][..i] == recent[..i];
        text := text + (recent[i] + "\n");
        i := i + 1;
      }
      ghost var kept := recent[..count];
      assert (kept + [record])[..|kept|] == kept;
      file := Some(text + (record + "\n"));
    }
  }

  /** One round of the reading loop of `server_recent_add`. */
  method TakeRecord(window: array<string>, count: nat, rest: string, ghost seen: seq<string>)
    returns (next: nat, after: string, ghost seen': seq<string>)
    requires rest != "" && 0 < window.Length && count <= window.Length && window[..count] == LastN(seen, window.Length)
    modifies window
    ensures next <= window.Length && window[..next] == LastN(seen', window.Length)
    ensures seen + Records(rest) == seen' + Records(after) && |after| < |rest|
  {
    hide Records, LastN, Chunks, StripNewline;
    var chunk;
    chunk, after := ReadChunk(rest);
    RecordsStep(rest, chunk, after);
    next, seen' := count, seen;
    var line := StripNewline(chunk);
    if !IsBlank(line) {
      next := Remember(window, count, line, seen);
      seen' := seen + [line];
      assert seen + ([line] + Records(after)) == seen' + Records(after);
    }
  }

  /** One round of the reading loop of `handle_recent_list`. */
  method TakeSearch(window: array<string>, count: nat, rest: string, ghost seen: seq<string>)
    returns (next: nat, after: string, ghost seen': seq<string>)
    requires rest != "" && 0 < window.Length && count <= window.Length && window[..count] == LastN(seen, window.Length)
    modifies window
    ensures next <= window.Length && window[..next] == LastN(seen', window.Length)
    ensures seen + WellFormed(Lines(rest)) == seen' + WellFormed(Lines(after)) && |after| < |rest|
  {
    hide Lines, WellFormed, LastN, Chunks, StripNewline, ParseRecord;
    var chunk;
    chunk, after := ReadChunk(rest);
    WellFormedStep(rest, chunk, after);
    next, seen' := count, seen;
    var line := DropBom(StripNewline(chunk));
    if ParseRecord(line).Some? {
      next := Remember(window, count, line, seen);
      seen' := seen + [line];
      assert seen + ([line] + WellFormed(Lines(after))) == seen' + WellFormed(Lines(after));
    }
  }

  lemma NoRecords<T>(s: seq<T>, n: nat)
    ensures LastN<string>([], n) == [] && Records("") == []
    ensures s + [] == s && [] + s == s
  {}

  lemma NoLines<T>(s: seq<T>, n: nat)
    ensures LastN<string>([], n) == [] && WellFormed(Lines("")) == []
    ensures s + [] == s && [] + s == s
  {}

  lemma {:induction false} WellFormedConcat(a: seq<string>, b: seq<string>)
    ensures WellFormed(a + b) == WellFormed(a) + WellFormed(b)
  {
    hide DropBom, ParseRecord;
    if b == [] {
      assert a + b == a;
    } else {
      WellFormedConcat(a, b[..|b| - 1]);
      assert (a + b)[..|a + b| - 1] == a + b[..|b| - 1];
    }
  }

  lemma WellFormedOne(l: string)
    ensures WellFormed([l]) == if ParseRecord(DropBom(l)).None? then [] else [DropBom(l)]
  {
    hide DropBom, ParseRecord;
    assert [l][..0] == [];
  }

  lemma {:induction false} WellFormedStep(s: string, chunk: string, after: string)
    requires Chunks(s) == [chunk] + Chunks(after)
    ensures var l := DropBom(StripNewline(chunk));
            WellFormed(Lines(s)) == (if ParseRecord(l).None? then [] else [l]) + WellFormed(Lines(after))
  {
    hide Chunks, StripNewline, DropBom, ParseRecord, WellFormed;
    assert StripAll([chunk] + Chunks(after)) == [StripNewline(chunk)] + StripAll(Chunks(after));
    WellFormedConcat([StripNewline(chunk)], StripAll(Chunks(after)));
    WellFormedOne(StripNewline(chunk));
  }

  /** Items hold no zero byte. */
  lemma {:induction false} ItemTerminable(text: string, line: string)
    requires line in LastN(WellFormed(Lines(text)), SERVER_RECENT_MAX_COUNT)
    ensures '\0' !in ItemOf(line)
  {
    hide Lines, WellFormed, LastN;
    LastNMember(WellFormed(Lines(text)), SERVER_RECENT_MAX_COUNT);
    WellFormedMember(Lines(text), line);
    var l :| l in Lines(text) && line == DropBom(l);
    LineTerminable(text, l);
    assert forall c | c in line :: c in l;
    ItemBytes(line);
  }

  lemma ItemBytes(line: string)
    requires '\0' !in line
    ensures '\0' !in ItemOf(line)
  {}

  lemma {:induction false} WellFormedMember(lines: seq<string>, line: string)
    requires line in WellFormed(lines)
    ensures exists l :: l in lines && line == DropBom(l)
  {
    hide DropBom, ParseRecord;
    if line in WellFormed(lines[..|lines| - 1]) {
      WellFormedMember(lines[..|lines| - 1], line);
    } else {
      assert lines[|lines| - 1] in lines;
    }
  }

  lemma {:induction false} RecordsStep(s: string, chunk: string, after: string)
    requires Chunks(s) == [chunk] + Chunks(after)
    ensures Records(s) == (if IsBlank(StripNewline(chunk)) then [] else [StripNewline(chunk)]) + Records(after)
  {
    hide Chunks, StripNewline, IsBlank, NonBlank;
    StripConcat(chunk, chunk, Chunks(after));
    NonBlankConcat([StripNewline(chunk)], StripAll(Chunks(after)));
    NonBlankOne(StripNewline(chunk));
  }

  // ---------------------------------------------------------------- whole runs

  /** The file after a run of calls. */
  function Run(file: Option<string>, calls: seq<Search>): Option<string> {
    if calls == [] then file else AfterAdd(Run(file, calls[..|calls| - 1]), calls[|calls| - 1])
  }

  /** The records of the calls that were accepted, in order. */
  function Recorded(calls: seq<Search>): seq<string> {
    if calls == [] then []
    else
      var c := calls[|calls| - 1];
      Recorded(calls[..|calls| - 1]) + (if Accepted(c.kind, c.keyword) then [Record(c.kind, c.keyword, c.time)] else [])
  }

  /** Strings, times as the clock writes them, and kinds short enough to be told apart from blank in a record. */
  ghost predicate Timed(c: Search) {
    && |c.kind| < RECORD_SIZE && '\n' !in c.time && '\r' !in c.time
    && '\0' !in c.kind && '\0' !in c.keyword && '\0' !in c.time
  }

  lemma RecordPlain(c: Search)
    requires Timed(c) && Accepted(c.kind, c.keyword)
    ensures Plain(Record(c.kind, c.keyword, c.time))
  {
    var full := c.kind + "|" + c.keyword + "|" + c.time;
    var r := Record(c.kind, c.keyword, c.time);
    assert '\n' !in full && '\r' !in full && '\0' !in full;
    assert c.kind == r[..|c.kind|];
    var x :| x in c.kind && !IsSpace(x);
    assert x in r;
    assert r[|r| - 1] in r && forall y | y in r :: y in full;
  }

  /** After at least one accepted call, the file is exactly the last twenty of what it held before and what was
      recorded, whatever bytes it held before. */
  lemma {:induction false} RecentRun(file: Option<string>, calls: seq<Search>)
    requires forall c | c in calls :: Timed(c)
    ensures Recorded(calls) == [] ==> Run(file, calls) == file
    ensures Recorded(calls) != [] ==>
              Run(file, calls) == Some(Render(LastN(Records(TextOf(file)) + Recorded(calls), SERVER_RECENT_MAX_COUNT)))
  {
    if calls == [] {
    } else {
      hide *;
      var front, c := calls[..|calls| - 1], calls[|calls| - 1];
      assert calls == front + [c];
      TimedSplit(front, c);
      RecentRun(file, front);
      RunSnoc(file, front, c);
      if Accepted(c.kind, c.keyword) { AcceptedStep(file, front, Record(c.kind, c.keyword, c.time)); }
    }
  }

  lemma TimedSplit(front: seq<Search>, c: Search)
    requires forall d | d in front + [c] :: Timed(d)
    ensures Timed(c) && forall d | d in front :: Timed(d)
  {
    hide Timed;
    assert (front + [c])[|front|] == c;
    assert forall d | d in front :: d in front + [c];
  }

  /** One accepted call more moves the window on by one record. */
  lemma AcceptedStep(file: Option<string>, front: seq<Search>, r: string)
    requires forall c | c in front :: Timed(c)
    requires Recorded(front) == [] ==> Run(file, front) == file
    requires Recorded(front) != [] ==>
               Run(file, front) == Some(Render(LastN(Records(TextOf(file)) + Recorded(front), SERVER_RECENT_MAX_COUNT)))
    ensures LastN(Records(TextOf(Run(file, front))), SERVER_RECENT_MAX_COUNT - 1) + [r]
         == LastN(Records(TextOf(file)) + (Recorded(front) + [r]), SERVER_RECENT_MAX_COUNT)
  {
    hide Records, TextOf, Run, Recorded, Timed, LastN, Render, Plain;
    var earlier, recorded := Records(TextOf(file)), Recorded(front);
    Regroup(earlier, recorded, [r]);
    if recorded == [] {
      assert earlier + [] == earlier;
      WindowStep(earlier, earlier, r);
    } else {
      var window := LastN(earlier + recorded, SERVER_RECENT_MAX_COUNT);
      RunPlain(file, front);
      ReadBack(window);
      TextOfSome(Render(window));
      WindowStep(earlier + recorded, window, r);
    }
  }

  lemma TextOfSome(text: string)
    ensures TextOf(Some(text)) == text
  {}

  /** One call more. */
  lemma RunSnoc(file: Option<string>, front: seq<Search>, c: Search)
    ensures var recs, was := Records(TextOf(Run(file, front))), Run(file, front);
            if Accepted(c.kind, c.keyword)
            then Recorded(front + [c]) == Recorded(front) + [Record(c.kind, c.keyword, c.time)]
                 && Run(file, front + [c])
                    == Some(Render(LastN(recs, SERVER_RECENT_MAX_COUNT - 1) + [Record(c.kind, c.keyword, c.time)]))
            else Recorded(front + [c]) == Recorded(front) && Run(file, front + [c]) == was
  {
    hide Records, Render, Record, LastN, Accepted;
    assert (front + [c])[..|front|] == front;
  }

  lemma WindowStep(all: seq<string>, kept: seq<string>, r: string)
    requires kept == all || kept == LastN(all, SERVER_RECENT_MAX_COUNT)
    ensures LastN(kept, SERVER_RECENT_MAX_COUNT - 1) + [r] == LastN(all + [r], SERVER_RECENT_MAX_COUNT)
  {}

  lemma LastNMember(all: seq<string>, n: nat)
    ensures forall l | l in LastN(all, n) :: l in all
  {}

  lemma {:induction false} RecordedPlain(calls: seq<Search>)
    requires forall c | c in calls :: Timed(c)
    ensures forall l | l in Recorded(calls) :: Plain(l)
  {
    if calls != [] {
      hide Timed, Plain, Record, Accepted;
      var front, c := calls[..|calls| - 1], calls[|calls| - 1];
      assert c in calls && forall d | d in front :: d in calls;
      RecordedPlain(front);
      if Accepted(c.kind, c.keyword) { RecordPlain(c); }
    }
  }

  lemma RunPlain(file: Option<string>, calls: seq<Search>)
    requires forall c | c in calls :: Timed(c)
    ensures forall l | l in LastN(Records(TextOf(file)) + Recorded(calls), SERVER_RECENT_MAX_COUNT) :: Plain(l)
  {
    hide Records, Timed, Plain, LastN, Recorded;
    RecordsPlain(TextOf(file));
    RecordedPlain(calls);
    LastNMember(Records(TextOf(file)) + Recorded(calls), SERVER_RECENT_MAX_COUNT);
  }

  /** So the records of the file are that window itself. */
  lemma WindowReadBack(file: Option<string>, calls: seq<Search>)
    requires (forall c | c in calls :: Timed(c)) && Recorded(calls) != []
    ensures Records(TextOf(Run(file, calls))) == LastN(Records(TextOf(file)) + Recorded(calls), SERVER_RECENT_MAX_COUNT)
  {
    RecentRun(file, calls);
    RunPlain(file, calls);
    ReadBack(LastN(Records(TextOf(file)) + Recorded(calls), SERVER_RECENT_MAX_COUNT));
  }

  // ---------------------------------------------------------------- what the list shows after a run

  /** A call whose record is not cut and splits back into its three parts. */
  ghost predicate Faithful(c: Search) {
    && Timed(c) && !IsBlank(c.time) && !(BOM <= c.kind)
    && |c.kind + "|" + c.keyword + "|" + c.time| < RECORD_SIZE
  }

  function AcceptedCalls(calls: seq<Search>): seq<Search> {
    if calls == [] then []
    else
      var c := calls[|calls| - 1];
      AcceptedCalls(calls[..|calls| - 1]) + (if Accepted(c.kind, c.keyword) then [c] else [])
  }

  /** A record is kind, keyword and time in this order. */
  lemma RecordParses(c: Search)
    requires Faithful(c) && Accepted(c.kind, c.keyword)
    ensures var r := Record(c.kind, c.keyword, c.time);
            && DropBom(r) == r && ParseRecord(r) == Some(c) && ItemOf(r) == ItemText(c)
            && Cut3(r) == Some((c.kind, c.keyword, c.time))
  {
    hide IsBlank, Cut3;
    var r := Record(c.kind, c.keyword, c.time);
    assert '|' !in c.kind && '|' !in c.keyword;
    Cut3OfParts(c.kind, c.keyword, c.time);
    assert !(BOM <= r) by {
      assert r[|c.kind|] == '|' && forall i | 0 <= i < |c.kind| :: r[i] == c.kind[i];
    }
  }

  lemma BlankIsNoSearch(l: string)
    requires IsBlank(l)
    ensures ParseRecord(DropBom(l)) == None
  {
    assert '|' !in l;
    assert forall i | 0 <= i < |l| :: l[i] in l;
    IndexOfNone(l, '|');
  }

  /** Blank lines hold no search. */
  lemma {:induction false} WellFormedNonBlank(lines: seq<string>)
    ensures WellFormed(NonBlank(lines)) == WellFormed(lines)
  {
    if lines != [] {
      hide IsBlank, DropBom, ParseRecord, WellFormed, NonBlank;
      var front, l := lines[..|lines| - 1], lines[|lines| - 1];
      assert lines == front + [l];
      WellFormedNonBlank(front);
      WellFormedConcat(front, [l]);
      WellFormedOne(l);
      NonBlankConcat(front, [l]);
      NonBlankOne(l);
      if IsBlank(l) {
        BlankIsNoSearch(l);
        assert NonBlank(front) + [] == NonBlank(front);
      } else {
        WellFormedConcat(NonBlank(front), [l]);
      }
    }
  }

  lemma {:induction false} RecordedSearches(calls: seq<Search>)
    requires forall c | c in calls :: Faithful(c)
    ensures |Recorded(calls)| == |AcceptedCalls(calls)|
    ensures forall i | 0 <= i < |Recorded(calls)| ::
              var c := AcceptedCalls(calls)[i];
              Faithful(c) && Accepted(c.kind, c.keyword) && Recorded(calls)[i] == Record(c.kind, c.keyword, c.time)
  {
    if calls != [] {
      hide Faithful, Accepted, Record;
      assert calls[|calls| - 1] in calls && forall d | d in calls[..|calls| - 1] :: d in calls;
      RecordedSearches(calls[..|calls| - 1]);
    }
  }

  lemma WellFormedSnoc(front: seq<string>, l: string)
    requires DropBom(l) == l && ParseRecord(l).Some?
    ensures WellFormed(front + [l]) == WellFormed(front) + [l]
  {
    hide DropBom, ParseRecord, WellFormed;
    WellFormedConcat(front, [l]);
    WellFormedOne(l);
  }

  ghost predicate HoldsSearch(l: string) { DropBom(l) == l && ParseRecord(l).Some? }

  lemma {:induction false} AllWellFormed(lines: seq<string>)
    requires forall l | l in lines :: HoldsSearch(l)
    ensures WellFormed(lines) == lines
  {
    if lines != [] {
      var front, l := lines[..|lines| - 1], lines[|lines| - 1];
      assert HoldsSearch(l) && lines == front + [l];
      hide HoldsSearch, WellFormed;
      AllWellFormed(front);
      assert DropBom(l) == l && ParseRecord(l).Some? by { HoldsSearchMeans(l); }
      WellFormedSnoc(front, l);
    }
  }

  lemma HoldsSearchMeans(l: string)
    requires HoldsSearch(l)
    ensures DropBom(l) == l && ParseRecord(l).Some?
  {}

  lemma LastNAt<T>(s: seq<T>, n: nat, i: nat)
    requires i < |LastN(s, n)|
    ensures |s| - |LastN(s, n)| + i < |s| && LastN(s, n)[i] == s[|s| - |LastN(s, n)| + i]
    ensures |LastN(s, n)| == Min(n, |s|)
  {}

  lemma {:induction false} WellFormedShorter(lines: seq<string>)
    ensures |WellFormed(lines)| <= |lines|
  {
    hide DropBom, ParseRecord;
    if lines != [] { WellFormedShorter(lines[..|lines| - 1]); }
  }

  /** The searches in the file after a run are those in its window of records. */
  lemma ShownWindow(file: Option<string>, calls: seq<Search>)
    requires (forall c | c in calls :: Timed(c)) && Recorded(calls) != []
    ensures var window := LastN(Records(TextOf(file)) + Recorded(calls), SERVER_RECENT_MAX_COUNT);
            WellFormed(Lines(TextOf(Run(file, calls)))) == WellFormed(window)
                && |WellFormed(window)| <= SERVER_RECENT_MAX_COUNT
  {
    hide Lines, NonBlank, WellFormed, Timed, Run, Recorded;
    WindowReadBack(file, calls);
    WellFormedNonBlank(Lines(TextOf(Run(file, calls))));
    WellFormedShorter(LastN(Records(TextOf(file)) + Recorded(calls), SERVER_RECENT_MAX_COUNT));
  }

  /** Whatever the file held, after a run with an accepted call the list shows, newest first, the well-formed ones among
      the last twenty of the old records followed by the new ones. */
  lemma RecentRunShows(file: Option<string>, calls: seq<Search>)
    requires (forall c | c in calls :: Timed(c)) && Recorded(calls) != []
    ensures RecentItems(TextOf(Run(file, calls)))
         == NewestFirst(WellFormed(LastN(Records(TextOf(file)) + Recorded(calls), SERVER_RECENT_MAX_COUNT)))
  {
    hide Lines, Records, WellFormed, Timed, Run, Recorded;
    ShownWindow(file, calls);
  }

  /** From an empty store, the list shows the last twenty accepted searches, newest first and nothing else. */
  lemma {:induction false} RecentRunLists(calls: seq<Search>)
    requires forall c | c in calls :: Faithful(c)
    ensures var all, items := AcceptedCalls(calls), RecentItems(TextOf(Run(None, calls)));
            && |items| == Min(|all|, SERVER_RECENT_MAX_COUNT)
            && forall i | 0 <= i < |items| :: items[i] == ItemText(all[|all| - 1 - i])
  {
    hide *;
    var recs := Recorded(calls);
    assert forall c | c in calls :: Timed(c) by { FaithfulTimed(calls); }
    NewestShown(calls);
    NothingShown();
    RecentRun(None, calls);
    if recs != [] {
      RecentRunShows(None, calls);
      RecordedWellFormed(calls);
      NoOldRecords(recs);
    }
  }

  lemma NothingShown()
    ensures RecentItems(TextOf(None)) == NewestFirst(LastN([], SERVER_RECENT_MAX_COUNT))
  {}

  lemma NoOldRecords(recs: seq<string>)
    ensures Records(TextOf(None)) + recs == recs
  {}

  /** The newest of the recorded searches, as items. */
  lemma {:induction false} NewestShown(calls: seq<Search>)
    requires forall c | c in calls :: Faithful(c)
    ensures var all, items := AcceptedCalls(calls), NewestFirst(LastN(Recorded(calls), SERVER_RECENT_MAX_COUNT));
            && |items| == Min(|all|, SERVER_RECENT_MAX_COUNT)
            && forall i | 0 <= i < |items| :: items[i] == ItemText(all[|all| - 1 - i])
  {
    hide Recorded, AcceptedCalls, LastN, Faithful, Record, ItemOf;
    var all, recs := AcceptedCalls(calls), Recorded(calls);
    RecordedSearches(calls);
    var kept := LastN(recs, SERVER_RECENT_MAX_COUNT);
    LastNTwice(recs, SERVER_RECENT_MAX_COUNT);
    forall i | 0 <= i < |kept| ensures NewestFirst(kept)[i] == ItemText(all[|all| - 1 - i]) {
      LastNAt(recs, SERVER_RECENT_MAX_COUNT, |kept| - 1 - i);
      RecordParses(all[|all| - 1 - i]);
    }
  }

  lemma FaithfulTimed(calls: seq<Search>)
    requires forall c | c in calls :: Faithful(c)
    ensures forall c | c in calls :: Timed(c)
  {}

  lemma LastNTwice<T>(s: seq<T>, n: nat)
    ensures LastN(LastN(s, n), n) == LastN(s, n) && |LastN(s, n)| == Min(n, |s|)
  {}

  lemma RecordedWellFormed(calls: seq<Search>)
    requires forall c | c in calls :: Faithful(c)
    ensures var kept := LastN(Recorded(calls), SERVER_RECENT_MAX_COUNT); WellFormed(kept) == kept
  {
    hide Recorded, WellFormed, Faithful, Record, AcceptedCalls;
    RecordedSearches(calls);
    var kept := LastN(Recorded(calls), SERVER_RECENT_MAX_COUNT);
    LastNMember(Recorded(calls), SERVER_RECENT_MAX_COUNT);
    forall l | l in kept ensures HoldsSearch(l) {
      var i :| 0 <= i < |Recorded(calls)| && Recorded(calls)[i] == l;
      RecordParses(AcceptedCalls(calls)[i]);
    }
    AllWellFormed(kept);
  }

  lemma {:induction false} RecentItemNoEnd(text: string, line: string)
    requires line in LastN(WellFormed(Lines(text)), SERVER_RECENT_MAX_COUNT)
    ensures '\n' !in ItemOf(line)
  {
    LastNMember(WellFormed(Lines(text)), SERVER_RECENT_MAX_COUNT);
    hide Lines, WellFormed, LastN, ItemOf;
    WellFormedMember(Lines(text), line);
    var l :| l in Lines(text) && line == DropBom(l);
    LineHasNoEnd(text, l);
    assert forall c | c in line :: c in l;
    ItemHasNoEnd(line);
  }

  /** Whatever the file holds, the response is one whole line of complete items, newest first, exactly when the buffer
      is at least two bytes longer than the header. */
  lemma {:induction false} RecentResponseWhole(text: string, response: string, size: nat)
    requires size > 0 && Outcome(response, RECENT_HEAD, RecentItems(text), RECENT_SLACK, size)
    ensures |response| < size
    ensures (response != "" && response[|response| - 1] == '\n' && '\n' !in response[..|response| - 1])
              <==> |RECENT_HEAD| + 2 <= size
  {
    hide Lines, WellFormed, LastN, Outcome, ItemOf;
    var kept, items := LastN(WellFormed(Lines(text)), SERVER_RECENT_MAX_COUNT), RecentItems(text);
    forall i | 0 <= i < |items| ensures '\n' !in items[i] {
      assert kept[|kept| - 1 - i] in kept;
      RecentItemNoEnd(text, kept[|kept| - 1 - i]);
    }
    WholeLineIff(response, RECENT_HEAD, items, RECENT_SLACK, size);
  }

  lemma ItemHasNoEnd(line: string)
    requires '\n' !in line
    ensures '\n' !in ItemOf(line)
  {}
}
