/**
 The string helpers of src/common/string_utils.c. Each `char` of a string stands for one byte; a string value holds
 the bytes in front of the terminator, so it never contains '\0' itself.
 */
module Text {
  // ---------------------------------------------------------------- reading strings

  /** `isspace` in the C locale: blank and the bytes 9 to 13. */
  predicate IsSpace(c: char) { c == ' ' || 9 as char <= c <= 13 as char }

  predicate IsBlank(s: string) { forall c | c in s :: IsSpace(c) }

  /** The bytes EF BB BF that may open a UTF-8 file. */
  const BOM: string := [0xEF as char, 0xBB as char, 0xBF as char]

  function DropBom(s: string): string { if BOM <= s then s[3..] else s }

  function TrimLeft(s: string): string {
    if s != [] && IsSpace(s[0]) then TrimLeft(s[1..]) else s
  }

  function TrimRight(s: string): string {
    if s != [] && IsSpace(s[|s| - 1]) then TrimRight(s[..|s| - 1]) else s
  }

  /** `str_trim`: leading space, then one byte-order mark, then trailing space. */
  function Trimmed(s: string): string { TrimRight(DropBom(TrimLeft(s))) }

  lemma {:induction false} TrimLeftShorter(s: string)
    ensures |TrimLeft(s)| <= |s|
  {
    if s != [] && IsSpace(s[0]) { TrimLeftShorter(s[1..]); }
  }

  lemma {:induction false} TrimRightShorter(s: string)
    ensures |TrimRight(s)| <= |s|
  {
    if s != [] && IsSpace(s[|s| - 1]) { TrimRightShorter(s[..|s| - 1]); }
  }

  lemma TrimmedShorter(s: string)
    ensures |Trimmed(s)| <= |s|
  {
    hide TrimLeft, TrimRight;
    TrimLeftShorter(s);
    TrimRightShorter(DropBom(TrimLeft(s)));
  }

  lemma {:induction false} TrimLeftBytes(s: string)
    ensures forall c | c in TrimLeft(s) :: c in s
  {
    if s != [] && IsSpace(s[0]) { TrimLeftBytes(s[1..]); }
  }

  lemma {:induction false} TrimRightBytes(s: string)
    ensures forall c | c in TrimRight(s) :: c in s
  {
    if s != [] && IsSpace(s[|s| - 1]) { TrimRightBytes(s[..|s| - 1]); }
  }

  lemma TrimmedBytes(s: string)
    ensures forall c | c in Trimmed(s) :: c in s
  {
    hide TrimLeft, TrimRight;
    TrimLeftBytes(s);
    TrimRightBytes(DropBom(TrimLeft(s)));
  }

  lemma {:induction false} TrimLeftParts(s: string) returns (lead: string)
    ensures s == lead + TrimLeft(s) && IsBlank(lead)
    ensures TrimLeft(s) != "" ==> !IsSpace(TrimLeft(s)[0])
  {
    if s != [] && IsSpace(s[0]) {
      var l := TrimLeftParts(s[1..]);
      lead := [s[0]] + l;
    } else {
      lead := "";
    }
  }

  lemma {:induction false} TrimRightParts(s: string) returns (tail: string)
    ensures s == TrimRight(s) + tail && IsBlank(tail)
    ensures TrimRight(s) != "" ==> !IsSpace(TrimRight(s)[|TrimRight(s)| - 1])
  {
    if s != [] && IsSpace(s[|s| - 1]) {
      var t := TrimRightParts(s[..|s| - 1]);
      tail := t + [s[|s| - 1]];
    } else {
      tail := "";
    }
  }

  /** What trimming takes off: all leading space, a mark if one opens what is then left, all trailing space. */
  ghost predicate TrimParts(s: string, lead: string, mark: string, core: string, tail: string) {
    && s == lead + mark + core + tail && IsBlank(lead) && IsBlank(tail)
    && (var rest := mark + core + tail; (rest != "" ==> !IsSpace(rest[0])) && mark == if BOM <= rest then BOM else "")
    && (core != "" ==> !IsSpace(core[|core| - 1]))
  }

  lemma TrimmedParts(s: string) returns (lead: string, mark: string, tail: string)
    ensures TrimParts(s, lead, mark, Trimmed(s), tail)
  {
    hide TrimLeft, TrimRight, IsSpace, IsBlank;
    lead := TrimLeftParts(s);
    var rest := TrimLeft(s);
    mark := if BOM <= rest then BOM else "";
    tail := TrimRightParts(DropBom(rest));
    assert rest == mark + Trimmed(s) + tail;
    assert s == lead + mark + Trimmed(s) + tail;
  }

  lemma {:induction false} TrimLeftIs(lead: string, rest: string)
    requires IsBlank(lead) && (rest != "" ==> !IsSpace(rest[0]))
    ensures TrimLeft(lead + rest) == rest
  {
    if lead == "" {
      assert lead + rest == rest;
    } else {
      assert lead[0] in lead && (lead + rest)[1..] == lead[1..] + rest;
      TrimLeftIs(lead[1..], rest);
    }
  }

  lemma {:induction false} TrimRightIs(core: string, tail: string)
    requires IsBlank(tail) && (core != "" ==> !IsSpace(core[|core| - 1]))
    ensures TrimRight(core + tail) == core
  {
    if tail == "" {
      assert core + tail == core;
    } else {
      assert tail[|tail| - 1] in tail && (core + tail)[..|core + tail| - 1] == core + tail[..|tail| - 1];
      TrimRightIs(core, tail[..|tail| - 1]);
    }
  }

  /** The trimmed text is the one that what was taken off leaves. */
  lemma TrimmedIff(s: string, core: string)
    ensures Trimmed(s) == core <==> exists lead, mark, tail :: TrimParts(s, lead, mark, core, tail)
  {
    hide TrimLeft, TrimRight, IsBlank, IsSpace;
    var l, m, t := TrimmedParts(s);
    if lead, mark, tail :| TrimParts(s, lead, mark, core, tail) {
      TrimPartsDecide(s, lead, mark, core, tail);
    }
  }

  lemma TrimPartsDecide(s: string, lead: string, mark: string, core: string, tail: string)
    requires TrimParts(s, lead, mark, core, tail)
    ensures Trimmed(s) == core
  {
    hide TrimLeft, TrimRight, IsBlank, IsSpace;
    var rest := mark + core + tail;
    assert s == lead + rest;
    TrimLeftIs(lead, rest);
    assert DropBom(rest) == core + tail;
    TrimRightIs(core, tail);
  }

  /** A text that trimming leaves alone, with space around it. */
  ghost predicate Tight(s: string) {
    s == "" || (!IsSpace(s[0]) && !IsSpace(s[|s| - 1]) && !(BOM <= s))
  }

  lemma BomInside(core: string, tail: string)
    requires core != "" && !(BOM <= core) && IsBlank(tail)
    ensures !(BOM <= core + tail)
  {
    assert forall c | c in tail :: c != BOM[1] && c != BOM[2];
    assert tail != "" ==> tail[0] in tail && (core + tail)[|core|] == tail[0];
    assert |core| >= 3 ==> (core + tail)[..3] == core[..3];
  }

  lemma PaddingGoes(lead: string, core: string, tail: string)
    requires Tight(core) && IsBlank(lead) && IsBlank(tail)
    ensures Trimmed(lead + core + tail) == core
  {
    hide IsSpace;
    if core == "" {
      assert lead + core + tail == lead + tail;
      TrimPartsDecide(lead + tail, lead + tail, "", "", "");
    } else {
      assert core + tail != "" && (core + tail)[0] == core[0];
      assert !(BOM <= core + tail) by { BomInside(core, tail); }
      assert "" + core + tail == core + tail && lead + "" + core + tail == lead + core + tail;
      TrimPartsDecide(lead + core + tail, lead, "", core, tail);
    }
  }

  /** `strip_newline`: trailing line ends of either kind. */
  function StripNewline(s: string): (r: string)
    ensures |r| <= |s| && r == s[..|r|]
    ensures r != [] ==> r[|r| - 1] != '\n' && r[|r| - 1] != '\r'
  {
    if s != [] && (s[|s| - 1] == '\n' || s[|s| - 1] == '\r') then StripNewline(s[..|s| - 1]) else s
  }

  /** `str_contains_protocol_delim`. */
  predicate HasProtocolDelimiter(s: string) {
    exists c | c in s :: c == '|' || c == ';' || c == '\n' || c == '\r'
  }

  /** `contains_packet_field_delim`. */
  predicate HasDelimiter(s: string) { HasProtocolDelimiter(s) || ':' in s }

  /** `strchr`: where `c` first occurs, or the length. */
  function IndexOf(s: string, c: char): (k: nat)
    ensures k <= |s|
    ensures k < |s| ==> s[k] == c
    ensures forall i | 0 <= i < k :: s[i] != c
  {
    if s == [] || s[0] == c then 0 else 1 + IndexOf(s[1..], c)
  }

  /** The string a buffer holds: what precedes the first terminator. */
  function CString(s: string): (r: string)
    ensures r <= s && '\0' !in r
    ensures '\0' !in s ==> r == s
  {
    s[..IndexOf(s, '\0')]
  }

  /** `strstr(s, needle) != NULL`. */
  predicate Occurs(needle: string, s: string) {
    exists i | 0 <= i <= |s| - |needle| :: OccursAt(needle, s, i)
  }

  /** `keyword_match`. */
  predicate KeywordMatch(text: string, keyword: string) { !IsBlank(keyword) && Occurs(keyword, text) }

  predicate OccursAt(needle: string, s: string, i: int) {
    0 <= i <= |s| - |needle| && s[i..i + |needle|] == needle
  }

  /** The text is the needle with something in front of it and something behind. */
  ghost predicate Contains(s: string, needle: string) {
    exists front: string, back: string :: s == front + needle + back
  }

  /** A keyword is found in a text exactly when it is not blank and the text contains it. */
  lemma KeywordMatchMeans(text: string, keyword: string)
    ensures KeywordMatch(text, keyword) <==> !IsBlank(keyword) && Contains(text, keyword)
  {
    hide IsBlank;
    if Occurs(keyword, text) {
      var i :| 0 <= i <= |text| - |keyword| && OccursAt(keyword, text, i);
      assert text == text[..i] + keyword + text[i + |keyword|..];
    }
    if Contains(text, keyword) {
      var front: string, back: string :| text == front + keyword + back;
      assert OccursAt(keyword, text, |front|);
    }
  }

  lemma IndexOfIs(s: string, c: char, k: nat)
    requires k <= |s| && (k < |s| ==> s[k] == c) && forall i | 0 <= i < k :: s[i] != c
    ensures IndexOf(s, c) == k
  {}

  lemma IndexOfPart(a: string, c: char, b: string)
    requires c !in a
    ensures IndexOf(a + [c] + b, c) == |a|
  {
    assert forall i | 0 <= i < |a| :: (a + [c] + b)[i] == a[i];
    IndexOfIs(a + [c] + b, c, |a|);
  }

  lemma IndexOfNone(s: string, c: char)
    requires c !in s
    ensures IndexOf(s, c) == |s|
  {}

  // ---------------------------------------------------------------- writing strings

  /** What `safe_strcpy` or `snprintf` leaves in a buffer of `size` bytes. */
  function SafeCopy(s: string, size: nat): (r: string)
    requires size > 0
    ensures |r| < size && r <= s
    ensures |s| < size ==> r == s
  {
    if |s| < size then s else s[..size - 1]
  }

  /** Copying what follows into the room that is left is copying the whole. */
  lemma CopyMore(a: string, b: string, size: nat)
    requires size > 0
    ensures SafeCopy(a, size) + SafeCopy(b, size - |SafeCopy(a, size)|) == SafeCopy(a + b, size)
  {}

  function Join(parts: seq<string>, sep: string): string {
    if parts == [] then ""
    else if |parts| == 1 then parts[0]
    else Join(parts[..|parts| - 1], sep) + sep + parts[|parts| - 1]
  }

  lemma {:induction false} JoinGrows(parts: seq<string>, sep: string, i: nat)
    requires i <= |parts|
    ensures |Join(parts[..i], sep)| <= |Join(parts, sep)|
    decreases |parts|
  {
    if i < |parts| {
      assert parts[..|parts| - 1][..i] == parts[..i];
      JoinGrows(parts[..|parts| - 1], sep, i);
    } else {
      assert parts[..i] == parts;
    }
  }

  lemma {:induction false} JoinSize(parts: seq<string>, sep: string, m: nat)
    requires forall i | 0 <= i < |parts| :: |parts[i]| + |sep| <= m
    ensures |Join(parts, sep)| <= |parts| * m
  {
    var n := |parts|;
    if n > 1 {
      JoinSize(parts[..n - 1], sep, m);
      assert |Join(parts, sep)| == |Join(parts[..n - 1], sep)| + |sep| + |parts[n - 1]|;
      OneMore(n, m);
    }
  }

  lemma OneMore(n: nat, m: nat)
    requires n > 0
    ensures (n - 1) * m + m == n * m
  {}

  lemma JoinNext(parts: seq<string>, sep: string, i: nat)
    requires i < |parts|
    ensures Join(parts[..i + 1], sep) == if i == 0 then parts[0] else Join(parts[..i], sep) + sep + parts[i]
  {
    assert parts[..i + 1][..i] == parts[..i];
  }

  lemma JoinNone(parts: seq<string>, sep: string)
    ensures Join(parts[..0], sep) == "" && Join([], sep) == ""
  {}

  /** A `char` array holding a terminated string. */
  class Buffer {
    const data: array<char>
    ghost var text: string

    ghost predicate Valid()
      reads this, data
    {
      && |text| < data.Length && data[..|text|] == text && data[|text|] == '\0'
      && '\0' !in text
    }

    constructor (size: nat)
      requires size > 0
      ensures Valid() && data.Length == size && text == "" && fresh(data)
    {
      data := new char[size](_ => '\0');
      text := "";
    }

    method Length() returns (n: nat)
      requires Valid()
      ensures n == |text|
    {
      n := 0;
      while data[n] != '\0'
        invariant n <= |text|
        decreases |text| - n
      {
        assert data[n] == data[..|text|][n];
        n := n + 1;
      }
    }

    method Read() returns (s: string)
      requires Valid()
      ensures s == text
    {
      var n := Length();
      s := data[..n];
    }

    /** Writes `src` from position `at`, with its terminator. */
    method Write(at: nat, src: string)
      requires Valid() && at <= |text| && at + |src| < data.Length && '\0' !in src
      modifies this, data
      ensures Valid() && text == old(text)[..at] + src
    {
      ghost var front := text[..at];
      assert data[..at] == front;
      var i := 0;
      while i < |src|
        invariant 0 <= i <= |src| && data[..at + i] == front + src[..i]
      {
        data[at + i] := src[i];
        i := i + 1;
      }
      data[at + |src|] := '\0';
      text := front + src;
      assert data[..|text|] == data[..at + |src|];
    }

    /** `safe_strcpy` and `snprintf` into the start of the buffer. */
    method Set(src: string)
      requires Valid() && '\0' !in src
      modifies this, data
      ensures Valid() && text == SafeCopy(src, data.Length)
    {
      Write(0, SafeCopy(src, data.Length));
    }

    /** `str_append`: all of `src` or nothing. */
    method Append(src: string) returns (ok: bool)
      requires Valid() && '\0' !in src
      modifies this, data
      ensures Valid() && ok == (|old(text)| + |src| < data.Length)
      ensures text == if ok then old(text) + src else old(text)
    {
      var used := Length();
      if used + |src| + 1 > data.Length { return false; }
      Write(used, src);
      return true;
    }

    /** `str_appendf`: as much of the formatted text as fits, and whether that was all of it. */
    method Appendf(src: string) returns (ok: bool)
      requires Valid() && '\0' !in src
      modifies this, data
      ensures Valid() && ok == (|old(text)| + |src| < data.Length)
      ensures text == old(text) + SafeCopy(src, data.Length - |old(text)|)
    {
      var used := Length();
      var room := data.Length - used;
      Write(used, SafeCopy(src, room));
      return |src| < room;
    }

    /** Moves the text from position `from` to the front. */
    method Shift(from: nat)
      requires Valid() && from <= |text|
      modifies this, data
      ensures Valid() && text == old(text)[from..]
    {
      ghost var was := text;
      forall i | 0 <= i < data.Length { data[i] := if i + from < data.Length then data[i + from] else data[i]; }
      text := text[from..];
      forall i | 0 <= i < |text| ensures data[i] == text[i] {
        assert old(data[i + from]) == old(data[..|was|])[i + from];
      }
      assert old(data[|was|]) == '\0';
    }

    /** `str_trim`, in place. */
    method Trim()
      requires Valid()
      modifies this, data
      ensures Valid() && text == Trimmed(old(text))
    {
      TrimStart();
      DropMark();
      if data[0] != '\0' { TrimEnd(); }
    }

    method TrimStart()
      requires Valid()
      modifies this, data
      ensures Valid() && text == TrimLeft(old(text))
    {
      var start := 0;
      while data[start] != '\0' && IsSpace(data[start])
        invariant start <= |text|
        invariant TrimLeft(text) == TrimLeft(text[start..])
        decreases |text| - start
      {
        assert data[start] == data[..|text|][start];
        assert text[start..][1..] == text[start + 1..];
        start := start + 1;
      }
      assert start < |text| ==> data[start] == data[..|text|][start] && text[start] in text;
      if start != 0 { Shift(start); }
    }

    method DropMark()
      requires Valid()
      modifies this, data
      ensures Valid() && text == DropBom(old(text))
    {
      assert text == data[..|text|];
      if data[0] == BOM[0] && data[1] == BOM[1] && data[2] == BOM[2] { Shift(3); }
    }

    method TrimEnd()
      requires Valid()
      modifies this, data
      ensures Valid() && text == TrimRight(old(text))
    {
      var n := Length();
      while n > 0 && IsSpace(data[n - 1])
        invariant Valid() && n == |text|
        invariant TrimRight(text) == TrimRight(old(text))
      {
        assert data[n - 1] == data[..|text|][n - 1];
        text := text[..n - 1];
        data[n - 1] := '\0';
        n := n - 1;
      }
      assert n > 0 ==> data[n - 1] == data[..|text|][n - 1];
    }
  }
}
