/** Line names in comma-separated station fields: `next_csv_token` and `common_line_name` of
    src/server/data_loader.c. */
module LineNames {
  import opened Basics
  import opened Text
  import opened Splitting

  const TOKEN_SIZE := 128

  // ---------------------------------------------------------------- what a field names

  function SkipBlanks(s: string): (r: string)
    ensures |r| <= |s|
  {
    if s != "" && s[0] == ' ' then SkipBlanks(s[1..]) else s
  }

  /** A cell as it is compared: cut to the token buffer, then trimmed. */
  function Clean(cell: string): string { Trimmed(SafeCopy(SkipBlanks(cell), TOKEN_SIZE)) }

  /** The names a field lists: its comma-separated cells, cleaned, up to the first that cleans to nothing. */
  function LineNamesOf(field: string): seq<string>
    decreases |field|
  {
    var k := IndexOf(field, ',');
    var name := Clean(field[..k]);
    if IsBlank(name) then [] else [name] + (if k < |field| then LineNamesOf(field[k + 1..]) else [])
  }

  lemma LineNamesNext(field: string)
    ensures var k := IndexOf(field, ','); var name := Clean(field[..k]);
            LineNamesOf(field) == if IsBlank(name) then []
                                  else [name] + (if k < |field| then LineNamesOf(field[k + 1..]) else [])
  {
    hide Clean, IsBlank, IndexOf;
  }

  /** The first name of `a` that `b` has too. */
  function Common(a: seq<string>, b: seq<string>): Option<string> {
    if a == [] then None else if a[0] in b then Some(a[0]) else Common(a[1..], b)
  }

  lemma {:induction false} CommonMeans(a: seq<string>, b: seq<string>)
    ensures Common(a, b).Some? <==> exists t :: t in a && t in b
    ensures Common(a, b).Some? ==> Common(a, b).value in a && Common(a, b).value in b
  {
    if a != [] {
      CommonMeans(a[1..], b);
      assert forall t :: t in a <==> t == a[0] || t in a[1..];
    }
  }

  /** Whether two fields share a line does not depend on their order. */
  lemma {:induction false} CommonCommutes(a: seq<string>, b: seq<string>)
    ensures Common(a, b).Some? <==> Common(b, a).Some?
  {
    CommonMeans(a, b);
    CommonMeans(b, a);
  }

  // ---------------------------------------------------------------- written fields

  /** A cell whose content is the name, with space around it. */
  ghost predicate CellOf(cell: string, name: string) {
    && ',' !in cell && |cell| < TOKEN_SIZE && name != "" && Tight(name)
    && exists lead, tail :: IsBlank(lead) && IsBlank(tail) && cell == lead + name + tail
  }

  ghost predicate CellsOf(cells: seq<string>, names: seq<string>) {
    |cells| == |names| && forall i | 0 <= i < |cells| :: CellOf(cells[i], names[i])
  }

  lemma {:induction false} SkipBlanksTrims(s: string)
    ensures TrimLeft(SkipBlanks(s)) == TrimLeft(s)
  {
    if s != "" && s[0] == ' ' { SkipBlanksTrims(s[1..]); }
  }

  lemma CleanCell(cell: string, name: string)
    requires CellOf(cell, name)
    ensures Clean(cell) == name && !IsBlank(name)
  {
    SkipBlanksTrims(cell);
    hide SkipBlanks, TrimLeft, TrimRight;
    var lead, tail :| IsBlank(lead) && IsBlank(tail) && cell == lead + name + tail;
    PaddingGoes(lead, name, tail);
    assert name[0] in name;
  }

  lemma BlankCell(cell: string)
    requires IsBlank(cell)
    ensures IsBlank(Clean(cell))
  {
    hide SkipBlanks, Trimmed;
    SkipBlanksBytes(cell);
    TrimmedBytes(SafeCopy(SkipBlanks(cell), TOKEN_SIZE));
  }

  lemma {:induction false} SkipBlanksBytes(s: string)
    ensures forall c | c in SkipBlanks(s) :: c in s
  {
    if s != "" && s[0] == ' ' { SkipBlanksBytes(s[1..]); }
  }

  lemma FirstCell(cell: string, rest: string)
    requires ',' !in cell
    ensures LineNamesOf(cell) == if IsBlank(Clean(cell)) then [] else [Clean(cell)]
    ensures LineNamesOf(cell + "," + rest) == if IsBlank(Clean(cell)) then [] else [Clean(cell)] + LineNamesOf(rest)
  {
    hide Clean, IsBlank, IndexOf, LineNamesOf;
    var s := cell + "," + rest;
    assert s == cell + [','] + rest;
    IndexOfPart(cell, ',', rest);
    IndexOfNone(cell, ',');
    LineNamesNext(s);
    LineNamesNext(cell);
    assert s[..|cell|] == cell && s[|cell| + 1..] == rest && cell[..|cell|] == cell;
  }

  /** A field made of names lists these names in order, whatever space is around them, up to the first blank cell. */
  lemma {:induction false} NamesBack(cells: seq<string>, names: seq<string>, more: seq<string>)
    requires CellsOf(cells, names) && (forall c | c in more :: ',' !in c) && (more != [] ==> IsBlank(more[0]))
    ensures LineNamesOf(Join(cells + more, ",")) == names
  {
    hide LineNamesOf, Clean, CellOf, IsBlank, Join;
    if cells == [] {
      assert cells + more == more;
      NoNames(more);
    } else {
      assert CellOf(cells[0], names[0]);
      CleanCell(cells[0], names[0]);
      CellHasNoComma(cells[0], names[0]);
      forall i | 0 <= i < |cells| - 1 ensures CellOf(cells[1..][i], names[1..][i]) {
        assert CellOf(cells[i + 1], names[i + 1]);
      }
      NamesBack(cells[1..], names[1..], more);
      var rest := cells[1..] + more;
      assert cells + more == [cells[0]] + rest && names == [names[0]] + names[1..];
      FirstCell(cells[0], Join(rest, ","));
      if rest == [] {
        assert [cells[0]] + rest == [cells[0]];
        JoinOne(cells[0], ",");
      } else {
        JoinFront(cells[0], rest, ",");
      }
    }
  }

  lemma CellHasNoComma(cell: string, name: string)
    requires CellOf(cell, name)
    ensures ',' !in cell
  {}

  lemma JoinOne(p: string, sep: string)
    ensures Join([p], sep) == p
  {}

  lemma NoNames(more: seq<string>)
    requires (forall c | c in more :: ',' !in c) && (more != [] ==> IsBlank(more[0]))
    ensures LineNamesOf(Join(more, ",")) == []
  {
    hide LineNamesOf, Clean, IsBlank, Join;
    JoinNone(more, ",");
    FirstCell("", "");
    NothingIsBlank();
    BlankCell("");
    if more != [] {
      var rest := more[1..];
      assert more == [more[0]] + rest && more[0] in more && (rest == [] ==> more == [more[0]]);
      BlankCell(more[0]);
      FirstCell(more[0], Join(rest, ","));
      if rest == [] { JoinOne(more[0], ","); } else { JoinFront(more[0], rest, ","); }
    }
  }

  lemma NothingIsBlank()
    ensures IsBlank("")
  {}

  // ---------------------------------------------------------------- the scanner

  lemma {:induction false} SkipBlanksOfCell(s: string)
    ensures SkipBlanks(s[..IndexOf(s, ',')]) == SkipBlanks(s)[..IndexOf(SkipBlanks(s), ',')]
    ensures IndexOf(s, ',') == |s| - |SkipBlanks(s)| + IndexOf(SkipBlanks(s), ',')
    decreases |s|
  {
    if s != "" && s[0] == ' ' {
      SkipBlanksOfCell(s[1..]);
      var k := IndexOf(s, ',');
      assert s[..k][1..] == s[1..][..k - 1];
    } else {
      var k := IndexOf(s, ',');
      assert k > 0 ==> s[..k][0] == s[0];
    }
  }

  lemma {:induction false} BlankField(s: string)
    requires SkipBlanks(s) == ""
    ensures LineNamesOf(s) == []
  {
    SkipBlanksOfCell(s);
    assert s[..|s|] == s;
  }

  /** The field splits at the end of its first cell. */
  lemma {:induction false} NamesStep(field: string, s: string, end: nat)
    requires s == SkipBlanks(field) && end == IndexOf(s, ',')
    ensures var name := Trimmed(SafeCopy(s[..end], TOKEN_SIZE));
            LineNamesOf(field) == if IsBlank(name) then []
                                  else [name] + (if end < |s| then LineNamesOf(s[end + 1..]) else [])
  {
    hide Trimmed, IsBlank, SkipBlanks, IndexOf;
    SkipBlanksOfCell(field);
    SkipBlanksIsSuffix(field);
    var k := IndexOf(field, ',');
    assert end < |s| ==> s[end + 1..] == field[k + 1..];
  }

  lemma {:induction false} SkipBlanksIsSuffix(s: string)
    ensures SkipBlanks(s) == s[|s| - |SkipBlanks(s)|..]
  {
    if s != "" && s[0] == ' ' { SkipBlanksIsSuffix(s[1..]); }
  }

  method Advance(cursor: string) returns (s: string)
    ensures s == SkipBlanks(cursor)
  {
    var start := 0;
    while start < |cursor| && cursor[start] == ' '
      invariant start <= |cursor| && SkipBlanks(cursor) == SkipBlanks(cursor[start..])
    {
      assert cursor[start..][1..] == cursor[start + 1..];
      start := start + 1;
    }
    s := cursor[start..];
  }

  method FindComma(s: string) returns (end: nat)
    ensures end == IndexOf(s, ',')
  {
    end := 0;
    while end < |s| && s[end] != ','
      invariant end <= |s| && forall i | 0 <= i < end :: s[i] != ','
    {
      end := end + 1;
    }
    IndexOfIs(s, ',', end);
  }

  /** `next_csv_token`: the next name, unless the rest is empty or the cell is blank. */
  method NextToken(cursor: string) returns (ok: bool, token: string, rest: string)
    ensures ok ==> |rest| < |cursor| && LineNamesOf(cursor) == [token] + LineNamesOf(rest)
    ensures !ok ==> LineNamesOf(cursor) == []
  {
    var s := Advance(cursor);
    if s == "" {
      BlankField(cursor);
      return false, "", cursor;
    }
    var end := FindComma(s);
    NamesStep(cursor, s, end);
    BlankField("");
    token := Trimmed(SafeCopy(s[..end], TOKEN_SIZE));
    rest := if end < |s| then s[end + 1..] else "";
    ok := !IsBlank(token);
  }

  method HasToken(field: string, token: string) returns (found: bool)
    ensures found <==> token in LineNamesOf(field)
  {
    var cursor := field;
    var ok, t, rest := NextToken(cursor);
    while ok
      invariant token in LineNamesOf(field) <==> token in LineNamesOf(cursor)
      invariant ok ==> |rest| < |cursor| && LineNamesOf(cursor) == [t] + LineNamesOf(rest)
      invariant !ok ==> LineNamesOf(cursor) == []
      decreases |cursor|
    {
      if t == token { return true; }
      cursor := rest;
      ok, t, rest := NextToken(cursor);
    }
    return false;
  }

  /** `common_line_name`: the first name of `a` found in `b`. */
  method CommonLineName(a: string, b: string) returns (line: Option<string>)
    ensures line == Common(LineNamesOf(a), LineNamesOf(b))
  {
    var cursor := a;
    var ok, t, rest := NextToken(cursor);
    while ok
      invariant Common(LineNamesOf(a), LineNamesOf(b)) == Common(LineNamesOf(cursor), LineNamesOf(b))
      invariant ok ==> |rest| < |cursor| && LineNamesOf(cursor) == [t] + LineNamesOf(rest)
      invariant !ok ==> LineNamesOf(cursor) == []
      decreases |cursor|
    {
      var found := HasToken(b, t);
      if found { return Some(t); }
      cursor := rest;
      ok, t, rest := NextToken(cursor);
    }
    return None;
  }
}
