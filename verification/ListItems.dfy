/** The lists of search results as the client cuts them up: `print_list_items` of src/client/result_viewer.c. */
module ListItems {
  import opened Basics
  import opened Text
  import opened Numbers
  import opened Splitting
  import opened Packets
  import opened Responses
  import opened Lookups

  const LIST_ITEM_SIZE := 1024
  const LIST_FIELDS := 4

  // ---------------------------------------------------------------- what the client prints

  /** Up to `n` pieces, the last of them with everything that is left. */
  function Pieces(s: string, n: nat): seq<string>
    requires n > 0
  {
    match SplitAt(s, ':')
    case None => [s]
    case Some((piece, rest)) => if n == 1 then [s] else [piece] + Pieces(rest, n - 1)
  }

  function ItemShown(word: string): seq<string> { Pieces(SafeCopy(word, LIST_ITEM_SIZE), LIST_FIELDS) }

  function ItemsShown(words: seq<string>): (items: seq<seq<string>>)
    ensures |items| == |words| && forall i | 0 <= i < |words| :: items[i] == ItemShown(words[i])
  {
    seq(|words|, i requires 0 <= i < |words| => ItemShown(words[i]))
  }

  function ListShown(payload: string): seq<seq<string>> { ItemsShown(Words(payload, ';')) }

  /** The three cuts of one item. */
  method CutItem(word: string) returns (fields: seq<string>)
    ensures fields == ItemShown(word)
  {
    hide SplitAt, SafeCopy, Pieces;
    var buf := SafeCopy(word, LIST_ITEM_SIZE);
    PiecesOf(buf, 4);
    var first := Split(buf, ':');
    if first.None? { return [buf]; }
    PiecesOf(first.value.1, 3);
    var second := Split(first.value.1, ':');
    if second.None? { return [first.value.0, first.value.1]; }
    PiecesOf(second.value.1, 2);
    var third := Split(second.value.1, ':');
    if third.None? { return [first.value.0, second.value.0, second.value.1]; }
    PiecesOf(third.value.1, 1);
    fields := [first.value.0, second.value.0, third.value.0, third.value.1];
  }

  lemma PiecesOf(s: string, n: nat)
    requires n > 0
    ensures Pieces(s, n) == match SplitAt(s, ':')
                            case None => [s]
                            case Some(parts) => if n == 1 then [s] else [parts.0] + Pieces(parts.1, n - 1)
  {
    hide SplitAt;
  }

  /** `print_list_items`: the fields it prints, item by item. */
  method PrintList(payload: string) returns (items: seq<seq<string>>)
    requires |payload| < MAX_PACKET_SIZE
    ensures items == ListShown(payload)
  {
    hide Words, ItemShown;
    items := [];
    var words := Tokenize(payload, ';');
    var i := 0;
    while i < |words|
      invariant 0 <= i <= |words| && items == ItemsShown(words)[..i]
    {
      var fields := CutItem(words[i]);
      items := items + [fields];
      i := i + 1;
    }
  }

  // ---------------------------------------------------------------- lists the server wrote

  function RowText(row: seq<string>): string { Join(row, ":") }

  function RowTexts(rows: seq<seq<string>>): (texts: seq<string>)
    ensures |texts| == |rows| && forall i | 0 <= i < |rows| :: texts[i] == RowText(rows[i])
  {
    seq(|rows|, i requires 0 <= i < |rows| => RowText(rows[i]))
  }

  /** Two to four fields without separators, short enough for the client's item buffer; a fourth may hold ':'. */
  ghost predicate CleanRow(row: seq<string>) {
    && 2 <= |row| <= LIST_FIELDS && |RowText(row)| < LIST_ITEM_SIZE
    && (forall f | f in row :: ';' !in f && '\n' !in f && '\r' !in f)
    && (forall i | 0 <= i < |row| && i < LIST_FIELDS - 1 :: ':' !in row[i])
  }

  lemma PiecesNext(p: string, rest: string, n: nat)
    requires n > 1 && ':' !in p
    ensures Pieces(p + ":" + rest, n) == [p] + Pieces(rest, n - 1)
  {
    hide SplitAt;
    SplitAtParts(p, ':', rest);
    assert p + [':'] + rest == p + ":" + rest;
  }

  lemma OnePiece(p: string, n: nat)
    requires n > 0 && (n > 1 ==> ':' !in p)
    ensures Pieces(p, n) == [p]
  {
    hide IndexOf;
    if n > 1 { IndexOfNone(p, ':'); }
  }

  lemma {:induction false} PiecesOfJoin(row: seq<string>, n: nat)
    requires 0 < |row| <= n && forall i | 0 <= i < |row| && i < n - 1 :: ':' !in row[i]
    ensures Pieces(Join(row, ":"), n) == row
  {
    hide Pieces;
    var p, ps := row[0], row[1..];
    assert row == [p] + ps;
    if ps == [] {
      OnePiece(p, n);
    } else {
      JoinFront(p, ps, ":");
      PiecesNext(p, Join(ps, ":"), n);
      forall i | 0 <= i < |ps| && i < n - 2 ensures ':' !in ps[i] { assert ps[i] == row[i + 1]; }
      PiecesOfJoin(ps, n - 1);
    }
  }

  lemma RowShown(row: seq<string>)
    requires CleanRow(row)
    ensures ItemShown(RowText(row)) == row
    ensures RowText(row) != "" && ';' !in RowText(row) && '\n' !in RowText(row) && '\r' !in RowText(row)
  {
    hide Join;
    PiecesOfJoin(row, LIST_FIELDS);
    NotInJoin(row, ":", ';');
    NotInJoin(row, ":", '\n');
    NotInJoin(row, ":", '\r');
    assert row == [row[0]] + row[1..];
    JoinFront(row[0], row[1..], ":");
  }

  /** Rows of clean fields are shown as they are. */
  lemma {:induction false} RowsShown(rows: seq<seq<string>>)
    requires forall r | r in rows :: CleanRow(r)
    ensures var payload := Join(RowTexts(rows), ";");
            ListShown(payload) == rows && '\n' !in payload && '\r' !in payload
  {
    hide Words, Join, CleanRow, ItemShown, RowText;
    var texts := RowTexts(rows);
    forall i | 0 <= i < |rows|
      ensures texts[i] != "" && ';' !in texts[i] && '\n' !in texts[i] && '\r' !in texts[i]
      ensures ItemShown(texts[i]) == rows[i]
    {
      assert rows[i] in rows;
      RowShown(rows[i]);
    }
    assert [';'] == ";";
    WordsBackIff(texts, ';');
    NotInJoin(texts, ";", '\n');
    NotInJoin(texts, ";", '\r');
  }

  /** From the line of a list response the client prints the rows it was made of. */
  lemma {:induction false} LineShown(kind: string, rows: seq<seq<string>>, text: string, w: LongWidth)
    requires forall r | r in rows :: CleanRow(r)
    requires '|' !in kind && kind != ERROR_KIND && |kind| < KIND_SIZE
    requires text == kind + "|0|" + Join(RowTexts(rows), ";") + "\n" && |text| < MAX_PACKET_SIZE
    ensures ParseHeader(text, w) == Header(kind, ERR_OK, Join(RowTexts(rows), ";"))
    ensures ListShown(ParseHeader(text, w).payload) == rows
  {
    hide CleanRow, ListShown, Join, ParseHeader;
    RowsShown(rows);
    var body := Join(RowTexts(rows), ";");
    assert body != "" ==> body[|body| - 1] in body;
    HeaderRoundTrip(kind, body, w);
  }

  /** What a search that fits its response writes is shown as the first of its rows, as many as fit. */
  lemma {:induction false} OutcomeShown(kind: string, rows: seq<seq<string>>, slack: nat, notFound: string, code: int,
                                        text: string, size: nat, w: LongWidth)
    requires forall r | r in rows :: CleanRow(r)
    requires '|' !in kind && kind != ERROR_KIND && |kind| < KIND_SIZE && slack >= 2
    requires |kind + "|0|"| + 2 <= size <= MAX_PACKET_SIZE
    requires SearchOutcome(code, text, kind + "|0|", RowTexts(rows), slack, notFound, size)
    ensures code == ERR_OK ==>
              var shown := ListShown(ParseHeader(text, w).payload);
              shown != [] && shown <= rows && Fitting(kind + "|0|", RowTexts(rows), slack, size, |shown|)
    ensures code != ERR_OK ==> Fitting(kind + "|0|", RowTexts(rows), slack, size, 0)
  {
    hide CleanRow, ListShown, Join, ParseHeader, Room, RowText;
    var head, texts := kind + "|0|", RowTexts(rows);
    var k: nat :| Fitting(head, texts, slack, size, k)
             && (if k == 0 then code == ERR_NOT_FOUND && text == SafeCopy(notFound, size)
                 else code == ERR_OK && text == Line(head, texts, k));
    if k > 0 {
      LineFits(head, texts, slack, size, k);
      assert texts[..k] == RowTexts(rows[..k]) && forall r | r in rows[..k] :: r in rows;
      LineShown(kind, rows[..k], text, w);
    }
  }
}
