/** Response packets as the client takes them apart: `split_header` of src/client/result_viewer.c. */
module Packets {
  import opened Basics
  import opened Text
  import opened Numbers

  const MAX_PACKET_SIZE := 32768
  const KIND_SIZE := 64
  const ERROR_KIND := "ERROR"

  datatype Header = Header(kind: string, code: int, payload: string)

  /** `split_header`. */
  function ParseHeader(response: string, w: LongWidth): Header {
    HeaderIn(StripNewline(SafeCopy(response, MAX_PACKET_SIZE)), w)
  }

  /** The header in a line without its end. */
  function HeaderIn(buf: string, w: LongWidth): Header {
    var p1 := IndexOf(buf, '|');
    var kind := SafeCopy(buf[..p1], KIND_SIZE);
    if p1 == |buf| then Header(kind, ERR_SERVER_ERROR, "")
    else
      var rest := buf[p1 + 1..];
      if kind == ERROR_KIND then
        var colon := IndexOf(rest, ':');
        if colon == |rest| then Header(kind, ERR_SERVER_ERROR, "")
        else Header(kind, Atoi(rest[..colon], w), SafeCopy(rest[colon + 1..], MAX_PACKET_SIZE))
      else
        var p2 := IndexOf(rest, '|');
        if p2 == |rest| then Header(kind, Atoi(rest, w), "")
        else Header(kind, Atoi(rest[..p2], w), SafeCopy(rest[p2 + 1..], MAX_PACKET_SIZE))
  }

  lemma {:induction false} StripOne(s: string)
    requires s != "" && s[|s| - 1] != '\n' && s[|s| - 1] != '\r'
    ensures StripNewline(s + "\n") == s
  {
    assert (s + "\n")[..|s|] == s;
    assert StripNewline(s) == s;
  }

  /** Where a text falls apart around a separator. */
  lemma CutsAt(a: string, c: char, b: string)
    requires c !in a
    ensures var s := a + [c] + b; IndexOf(s, c) == |a| < |s| && s[..|a|] == a && s[|a| + 1..] == b
  {
    hide IndexOf;
    IndexOfPart(a, c, b);
  }

  lemma SignedIsPlain(code: int)
    ensures '|' !in SignedDecimal(code) && ':' !in SignedDecimal(code)
  {}

  lemma LastByte(front: string, c: char, body: string)
    ensures var buf := front + [c] + body; buf != "" && buf[|buf| - 1] == if body == "" then c else body[|body| - 1]
  {}

  /** A line that does not end in a line end of its own. */
  ghost predicate OpenEnded(body: string) { body != "" ==> body[|body| - 1] != '\n' && body[|body| - 1] != '\r' }

  lemma HeaderOf(kind: string, digits: string, body: string, w: LongWidth)
    requires '|' !in kind && '|' !in digits && kind != ERROR_KIND && |kind| < KIND_SIZE && |body| < MAX_PACKET_SIZE
    ensures HeaderIn(kind + ['|'] + (digits + ['|'] + body), w) == Header(kind, Atoi(digits, w), body)
  {
    hide IndexOf, Atoi;
    CutsAt(kind, '|', digits + ['|'] + body);
    CutsAt(digits, '|', body);
  }

  lemma ErrorOf(digits: string, body: string, w: LongWidth)
    requires ':' !in digits && |body| < MAX_PACKET_SIZE
    ensures HeaderIn(ERROR_KIND + ['|'] + (digits + [':'] + body), w) == Header(ERROR_KIND, Atoi(digits, w), body)
  {
    hide IndexOf, Atoi;
    CutsAt(ERROR_KIND, '|', digits + [':'] + body);
    CutsAt(digits, ':', body);
  }

  /** What is left of a line once it is received and stripped of its end. */
  lemma LineReceived(front: string, c: char, body: string)
    requires OpenEnded(body) && c != '\n' && c != '\r' && |front + [c] + body + "\n"| < MAX_PACKET_SIZE
    ensures StripNewline(SafeCopy(front + [c] + body + "\n", MAX_PACKET_SIZE)) == front + [c] + body
  {
    hide StripNewline;
    LastByte(front, c, body);
    StripOne(front + [c] + body);
  }

  lemma Reassociate(a: string, c: char, b: string, d: char, body: string)
    ensures a + [c] + (b + [d] + body) == (a + [c] + b) + [d] + body
  {}

  /** A one-line response with any code splits into its kind, its code and everything up to the line end. */
  lemma {:induction false} ResponseRoundTrip(kind: string, code: int, body: string, w: LongWidth)
    requires '|' !in kind && kind != ERROR_KIND && |kind| < KIND_SIZE && OpenEnded(body)
    requires -INT_MAX - 1 <= code <= INT_MAX
    requires |kind + "|" + SignedDecimal(code) + "|" + body + "\n"| < MAX_PACKET_SIZE
    ensures ParseHeader(kind + "|" + SignedDecimal(code) + "|" + body + "\n", w) == Header(kind, code, body)
  {
    hide *;
    assert ['|'] == "|";
    var digits := SignedDecimal(code);
    SignedIsPlain(code);
    Reassociate(kind, '|', digits, '|', body);
    LineReceived(kind + ['|'] + digits, '|', body);
    HeaderOf(kind, digits, body, w);
    StrToIntOfDecimal(code, w);
    ParsesLine(kind + "|" + digits + "|" + body + "\n", w);
  }

  lemma ParsesLine(response: string, w: LongWidth)
    ensures ParseHeader(response, w) == HeaderIn(StripNewline(SafeCopy(response, MAX_PACKET_SIZE)), w)
  {}

  /** An error line splits at the colon behind its code. */
  lemma {:induction false} ErrorRoundTrip(code: int, body: string, w: LongWidth)
    requires OpenEnded(body) && -INT_MAX - 1 <= code <= INT_MAX
    requires |ERROR_KIND + "|" + SignedDecimal(code) + ":" + body + "\n"| < MAX_PACKET_SIZE
    ensures ParseHeader(ERROR_KIND + "|" + SignedDecimal(code) + ":" + body + "\n", w) == Header(ERROR_KIND, code, body)
  {
    hide *;
    assert ['|'] == "|" && [':'] == ":";
    var digits := SignedDecimal(code);
    SignedIsPlain(code);
    Reassociate(ERROR_KIND, '|', digits, ':', body);
    LineReceived(ERROR_KIND + ['|'] + digits, ':', body);
    ErrorOf(digits, body, w);
    StrToIntOfDecimal(code, w);
    ParsesLine(ERROR_KIND + "|" + digits + ":" + body + "\n", w);
  }

  /** The answer to a malformed request arrives as an error with its code. */
  lemma InvalidRead(w: LongWidth)
    ensures ParseHeader(INVALID, w) == Header(ERROR_KIND, ERR_INVALID_REQUEST, "INVALID_REQUEST")
  {
    hide ParseHeader;
    assert SignedDecimal(2) == "2";
    assert ERROR_KIND + "|" + "2" + ":" + "INVALID_REQUEST" + "\n" == INVALID;
    ErrorRoundTrip(2, "INVALID_REQUEST", w);
  }

  /** The header of a successful one-line response splits into its kind, code 0 and everything up to the line end. */
  lemma {:induction false} HeaderRoundTrip(kind: string, body: string, w: LongWidth)
    requires '|' !in kind && kind != ERROR_KIND && |kind| < KIND_SIZE
    requires body != "" ==> body[|body| - 1] != '\n' && body[|body| - 1] != '\r'
    requires |kind + "|0|" + body + "\n"| < MAX_PACKET_SIZE
    ensures ParseHeader(kind + "|0|" + body + "\n", w) == Header(kind, ERR_OK, body)
  {
    hide ParseHeader;
    assert SignedDecimal(0) == "0";
    assert kind + "|" + "0" + "|" + body + "\n" == kind + "|0|" + body + "\n";
    ResponseRoundTrip(kind, 0, body, w);
  }
}
