/** Text files as byte strings: what `fgets` with a 1024-byte buffer reads from them, and writing line by line. */
module Files {
  import opened Basics
  import opened Text

  const LINE_SIZE := 1024

  // ---------------------------------------------------------------- reading

  /** The text of a file; a missing one reads like an empty one. */
  function TextOf(file: Option<string>): string {
    match file
    case None => ""
    case Some(text) => text
  }

  /** How many bytes one `fgets` takes: up to and including a line end, but no more than the buffer holds. */
  function ChunkLength(s: string): (n: nat)
    requires s != ""
    ensures 0 < n <= |s| && n < LINE_SIZE
  {
    Min(IndexOf(s, '\n') + 1, Min(|s|, LINE_SIZE - 1))
  }

  /** What successive `fgets` calls leave in the buffer, each piece read as a string: up to its first zero byte. */
  function Chunks(s: string): seq<string>
    decreases |s|
  {
    if s == "" then [] else [CString(s[..ChunkLength(s)])] + Chunks(s[ChunkLength(s)..])
  }

  function StripAll(chunks: seq<string>): (lines: seq<string>)
    ensures |lines| == |chunks| && forall i | 0 <= i < |lines| :: lines[i] == StripNewline(chunks[i])
  {
    seq(|chunks|, i requires 0 <= i < |chunks| => StripNewline(chunks[i]))
  }

  /** The lines a reading loop sees. */
  function Lines(s: string): seq<string> { StripAll(Chunks(s)) }

  function NonBlank(lines: seq<string>): seq<string> {
    if lines == [] then []
    else NonBlank(lines[..|lines| - 1]) + (if IsBlank(lines[|lines| - 1]) then [] else [lines[|lines| - 1]])
  }

  /** The records of a file: its lines that are not blank. */
  function Records(s: string): seq<string> { NonBlank(Lines(s)) }

  /** One `fgets`. */
  method ReadChunk(rest: string) returns (chunk: string, after: string)
    requires rest != ""
    ensures chunk == CString(rest[..ChunkLength(rest)]) && after == rest[ChunkLength(rest)..]
    ensures Chunks(rest) == [chunk] + Chunks(after)
    ensures |after| < |rest| && |chunk| < LINE_SIZE
  {
    hide CString;
    var n := 0;
    while n < |rest| && n < LINE_SIZE - 1 && rest[n] != '\n'
      invariant n <= |rest| && n < LINE_SIZE && forall i | 0 <= i < n :: rest[i] != '\n'
    {
      n := n + 1;
    }
    if n < |rest| && n < LINE_SIZE - 1 {
      IndexOfIs(rest, '\n', n);
      n := n + 1;
    } else {
      assert IndexOf(rest, '\n') >= n;
    }
    chunk, after := CString(rest[..n]), rest[n..];
  }

  function Concat(parts: seq<string>): string { if parts == [] then "" else parts[0] + Concat(parts[1..]) }

  /** A piece that fills the buffer or ends a line. */
  predicate FullPiece(c: string) { |c| == LINE_SIZE - 1 || '\n' in c }

  predicate FullBefore(parts: seq<string>) {
    parts == [] || parts[1..] == [] || (FullPiece(parts[0]) && FullBefore(parts[1..]))
  }

  lemma FirstPiece(s: string)
    requires s != "" && '\0' !in s
    ensures var n := ChunkLength(s);
            && CString(s[..n]) == s[..n] && '\0' !in s[n..]
            && (s[n..] != "" ==> FullPiece(s[..n]))
  {
    var n := ChunkLength(s);
    assert n < |s| && n < LINE_SIZE - 1 ==> s[n - 1] == '\n' && s[n - 1] in s[..n];
  }

  /** Nothing of a file without zero bytes is lost, and only its last piece may be short without ending a line. */
  lemma {:induction false} ChunksCover(s: string)
    requires '\0' !in s
    ensures Concat(Chunks(s)) == s && FullBefore(Chunks(s))
    decreases |s|
  {
    hide *;
    NoChunks();
    if s != "" {
      var n := ChunkLength(s);
      var front, after := s[..n], s[n..];
      assert s == front + after;
      FirstPiece(s);
      ChunksStep(s, n);
      ChunksCover(after);
      PiecesGrow(front, Chunks(after));
    }
  }

  lemma NoChunks()
    ensures Chunks("") == [] && Concat([]) == "" && FullBefore([])
  {}

  lemma PiecesGrow(c: string, parts: seq<string>)
    ensures Concat([c] + parts) == c + Concat(parts)
    ensures FullBefore([c] + parts) <==> parts == [] || (FullPiece(c) && FullBefore(parts))
  {
    hide FullPiece;
    assert ([c] + parts)[1..] == parts;
  }

  // ---------------------------------------------------------------- writing

  /** Each line followed by a line end. */
  function Render(lines: seq<string>): string {
    if lines == [] then "" else Render(lines[..|lines| - 1]) + (lines[|lines| - 1] + "\n")
  }

  lemma {:induction false} RenderFront(l: string, ls: seq<string>)
    ensures Render([l] + ls) == l + "\n" + Render(ls)
  {
    if ls == [] {
      assert [l] + ls == [l] && [l][..0] == [];
    } else {
      RenderFront(l, ls[..|ls| - 1]);
      assert ([l] + ls)[..|ls|] == [l] + ls[..|ls| - 1];
    }
  }

  // ---------------------------------------------------------------- what is written is read back

  /** A line that survives writing and reading: not blank, within the buffer, without zero bytes, without line ends
      inside or at its end. */
  ghost predicate Plain(l: string) {
    !IsBlank(l) && |l| < LINE_SIZE && '\0' !in l && '\n' !in l && l[|l| - 1] != '\r'
  }

  lemma {:induction false} StripPlain(l: string)
    requires Plain(l)
    ensures StripNewline(l) == l && StripNewline(l + "\n") == l
  {
    assert l[|l| - 1] in l;
    assert (l + "\n")[..|l|] == l;
  }

  lemma {:induction false} ChunksOfLine(l: string, rest: string)
    requires Plain(l)
    ensures Chunks(l + "\n" + rest) ==
            if |l| < LINE_SIZE - 1 then [l + "\n"] + Chunks(rest) else [l, "\n"] + Chunks(rest)
  {
    hide Chunks, IndexOf, IsBlank, CString;
    var s := l + "\n" + rest;
    assert ['\n'] == "\n";
    IndexOfPart(l, '\n', rest);
    ChunksStep(s, Min(|l| + 1, LINE_SIZE - 1));
    if |l| < LINE_SIZE - 1 {
      assert s[..|l| + 1] == l + "\n" && s[|l| + 1..] == rest;
    } else {
      var t := "\n" + rest;
      assert s[..|l|] == l && s[|l|..] == t;
      IndexOfIs(t, '\n', 0);
      ChunksStep(t, 1);
      assert t[..1] == "\n" && t[1..] == rest;
      assert [l] + (["\n"] + Chunks(rest)) == [l, "\n"] + Chunks(rest);
    }
  }

  lemma ChunksStep(s: string, n: nat)
    requires s != "" && ChunkLength(s) == n
    ensures Chunks(s) == [CString(s[..n])] + Chunks(s[n..])
  {
    hide CString;
  }

  lemma {:induction false} NonBlankConcat(a: seq<string>, b: seq<string>)
    ensures NonBlank(a + b) == NonBlank(a) + NonBlank(b)
  {
    if b == [] {
      assert a + b == a;
    } else {
      NonBlankConcat(a, b[..|b| - 1]);
      assert (a + b)[..|a + b| - 1] == a + b[..|b| - 1];
    }
  }

  lemma NonBlankOne(l: string)
    ensures NonBlank([l]) == if IsBlank(l) then [] else [l]
  {
    assert [l][..0] == [];
  }

  lemma StripConcat(x: string, y: string, cs: seq<string>)
    ensures StripAll([x] + cs) == [StripNewline(x)] + StripAll(cs)
    ensures StripAll([x, y] + cs) == [StripNewline(x), StripNewline(y)] + StripAll(cs)
  {
    hide StripNewline;
  }

  lemma LinesOfLine(l: string, rest: string)
    requires Plain(l)
    ensures Lines(l + "\n" + rest) == (if |l| < LINE_SIZE - 1 then [l] else [l, ""]) + Lines(rest)
  {
    ChunksOfLine(l, rest);
    StripPlain(l);
    StripEnd();
    hide Chunks, Plain, StripNewline, StripAll;
    StripConcat(l + "\n", "", Chunks(rest));
    StripConcat(l, "\n", Chunks(rest));
  }

  lemma RecordsOfLine(l: string, rest: string)
    requires Plain(l)
    ensures Records(l + "\n" + rest) == [l] + Records(rest)
  {
    LinesOfLine(l, rest);
    NotBlank(l);
    BlankNothing();
    hide Lines, NonBlank, IsBlank, Plain;
    NonBlankOne(l);
    NonBlankOne("");
    NonBlankConcat([l], [""]);
    assert [l] + [""] == [l, ""] && [l] + [] == [l];
    NonBlankConcat([l], Lines(rest));
    NonBlankConcat([l, ""], Lines(rest));
  }

  lemma NotBlank(l: string)
    requires Plain(l)
    ensures !IsBlank(l)
  {}

  lemma StripEnd()
    ensures StripNewline("\n") == ""
  {
    assert "\n"[..0] == "";
  }

  lemma BlankNothing()
    ensures IsBlank("")
  {}

  /** Reading a file written line by line gives the lines again. */
  lemma {:induction false} ReadBack(lines: seq<string>)
    requires forall l | l in lines :: Plain(l)
    ensures Records(Render(lines)) == lines
  {
    if lines != [] {
      hide Records, Plain;
      var l, ls := lines[0], lines[1..];
      assert l in lines && forall m | m in ls :: m in lines;
      assert lines == [l] + ls;
      RenderFront(l, ls);
      RecordsOfLine(l, Render(ls));
      ReadBack(ls);
    }
  }

  /** Whatever the file, its records are lines that survive. */
  lemma {:induction false} RecordsPlain(s: string)
    ensures forall l | l in Records(s) :: Plain(l)
  {
    hide *;
    forall l | l in Records(s) ensures Plain(l) {
      RecordPlain(s, l);
    }
  }

  lemma RecordPlain(s: string, l: string)
    requires l in Records(s)
    ensures Plain(l)
  {
    hide Chunks, IsBlank, NonBlank, StripNewline;
    NonBlankMember(Lines(s), l);
    var i :| 0 <= i < |Lines(s)| && Lines(s)[i] == l;
    ChunkShape(s, Chunks(s)[i]);
    StrippedPlain(Chunks(s)[i]);
  }

  lemma {:induction false} StrippedPlain(c: string)
    requires '\0' !in c && |c| < LINE_SIZE && forall i | 0 <= i < |c| - 1 :: c[i] != '\n'
    requires !IsBlank(StripNewline(c))
    ensures Plain(StripNewline(c))
  {
    var l := StripNewline(c);
    NotBlankNotEmpty(l);
    hide IsBlank, StripNewline;
  }

  lemma NotBlankNotEmpty(l: string)
    requires !IsBlank(l)
    ensures l != ""
  {}

  lemma {:induction false} NonBlankMember(lines: seq<string>, l: string)
    ensures l in NonBlank(lines) <==> l in lines && !IsBlank(l)
  {
    if lines != [] {
      NonBlankMember(lines[..|lines| - 1], l);
      assert lines == lines[..|lines| - 1] + [lines[|lines| - 1]];
    }
  }

  lemma {:induction false} ChunkShape(s: string, c: string)
    requires c in Chunks(s)
    ensures '\0' !in c && |c| < LINE_SIZE && forall i | 0 <= i < |c| - 1 :: c[i] != '\n'
    decreases |s|
  {
    hide CString;
    if c != CString(s[..ChunkLength(s)]) { ChunkShape(s[ChunkLength(s)..], c); }
  }

  /** No line holds a zero byte. */
  lemma LineTerminable(s: string, l: string)
    requires l in Lines(s)
    ensures '\0' !in l
  {
    hide Chunks;
    var i :| 0 <= i < |Lines(s)| && Lines(s)[i] == l;
    ChunkShape(s, Chunks(s)[i]);
    assert forall x | x in l :: x in Chunks(s)[i];
  }

  ghost predicate Short(l: string) { Plain(l) && |l| < LINE_SIZE - 1 }

  lemma ShortStep(l: string, ls: seq<string>)
    requires Short(l)
    ensures Chunks(Render([l] + ls)) == [l + "\n"] + Chunks(Render(ls))
  {
    hide Chunks, Render;
    RenderFront(l, ls);
    ChunksOfLine(l, Render(ls));
  }

  /** Short lines come back one chunk each, line end included. */
  lemma {:induction false} ChunksOfShort(lines: seq<string>)
    requires forall l | l in lines :: Short(l)
    ensures Chunks(Render(lines)) == Ended(lines)
  {
    hide *;
    if lines == [] {
      assert Chunks(Render([])) == [] by { NothingRendered(); }
    } else {
      var l, ls := lines[0], lines[1..];
      assert l in lines && forall m | m in ls :: m in lines;
      assert lines == [l] + ls;
      ShortStep(l, ls);
      ChunksOfShort(ls);
      assert Ended(lines) == [l + "\n"] + Ended(ls);
    }
  }

  lemma NothingRendered()
    ensures Chunks(Render([])) == []
  {}

  lemma LinesOfShort(lines: seq<string>)
    requires forall l | l in lines :: Short(l)
    ensures Lines(Render(lines)) == lines
  {
    hide Chunks, Render;
    ChunksOfShort(lines);
    forall i | 0 <= i < |lines| ensures StripAll(Ended(lines))[i] == lines[i] {
      assert lines[i] in lines;
      StripPlain(lines[i]);
    }
  }

  function Ended(lines: seq<string>): (r: seq<string>)
    ensures |r| == |lines| && forall i | 0 <= i < |lines| :: r[i] == lines[i] + "\n"
  {
    seq(|lines|, i requires 0 <= i < |lines| => lines[i] + "\n")
  }

  // ---------------------------------------------------------------- records of three fields

  /** The parts of `first|second|rest`; none when a separator is missing. */
  function Cut3(line: string): Option<(string, string, string)> {
    var p := IndexOf(line, '|');
    if p == |line| then None
    else
      var rest := line[p + 1..];
      var q := IndexOf(rest, '|');
      if q == |rest| then None else Some((line[..p], rest[..q], rest[q + 1..]))
  }

  lemma Cut3OfParts(a: string, b: string, c: string)
    requires '|' !in a && '|' !in b
    ensures Cut3(a + "|" + b + "|" + c) == Some((a, b, c))
  {
    hide IndexOf;
    var rest := b + ['|'] + c;
    var line := a + ['|'] + rest;
    assert a + "|" + b + "|" + c == line;
    IndexOfPart(a, '|', rest);
    IndexOfPart(b, '|', c);
    assert line[..|a|] == a && line[|a| + 1..] == rest;
    assert rest[..|b|] == b && rest[|b| + 1..] == c;
  }

  /** A line has three parts exactly when it is made of them; only the last may hold a bar. */
  lemma Cut3Iff(line: string, a: string, b: string, c: string)
    ensures Cut3(line) == Some((a, b, c)) <==> line == a + "|" + b + "|" + c && '|' !in a && '|' !in b
  {
    hide Cut3;
    if Cut3(line) == Some((a, b, c)) { PartsOfCut3(line, a, b, c); }
    if line == a + "|" + b + "|" + c && '|' !in a && '|' !in b { Cut3OfParts(a, b, c); }
  }

  lemma PartsOfCut3(line: string, a: string, b: string, c: string)
    requires Cut3(line) == Some((a, b, c))
    ensures line == a + "|" + b + "|" + c && '|' !in a && '|' !in b
  {
    hide IndexOf;
    var rest := b + "|" + c;
    var p := IndexOf(line, '|');
    assert line[p + 1..] == rest;
    assert line == a + "|" + rest && a + "|" + rest == a + "|" + b + "|" + c;
  }

  /** No line holds a line end. */
  lemma LineHasNoEnd(s: string, l: string)
    requires l in Lines(s)
    ensures '\n' !in l
  {
    hide Chunks;
    var i :| 0 <= i < |Lines(s)| && Lines(s)[i] == l;
    var c := Chunks(s)[i];
    ChunkShape(s, c);
    assert forall j | 0 <= j < |l| :: l[j] == c[j];
  }
}
