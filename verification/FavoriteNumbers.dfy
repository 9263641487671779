/**
 The numbers of favorites: the client prints them in front of the list (`show_favorite_list_result` of
 src/client/result_viewer.c), the server counts lines when one is sent back to delete (src/server/user_state_service.c).
 */
module FavoriteNumbers {
  import opened Basics
  import opened Text
  import opened Numbers
  import opened Splitting
  import opened Packets
  import opened Files
  import opened Responses
  import opened Favorites

  const ITEM_SIZE := 1024
  const FAVORITE_KIND := "FAVORITE_LIST_RES"

  type Fields3 = (string, string, string)

  // ---------------------------------------------------------------- what the client prints

  /** An item around its first two ':'; none when one is missing. */
  function ShowItem(word: string): Option<Fields3> {
    match SplitAt(SafeCopy(word, ITEM_SIZE), ':')
    case None => None
    case Some((kind, rest)) =>
      match SplitAt(rest, ':')
      case None => None
      case Some((id, name)) => Some((kind, id, name))
  }

  /** The numbered lines, the first with number 1. */
  function ShowItems(words: seq<string>): seq<Fields3> {
    if words == [] then []
    else
      var item := ShowItem(words[|words| - 1]);
      ShowItems(words[..|words| - 1]) + (if item.None? then [] else [item.value])
  }

  /** What the client makes of the favorites, and in the same way of the recent searches. */
  function UserListShown(payload: string): seq<Fields3> {
    if IsBlank(payload) then [] else ShowItems(Words(payload, ';'))
  }

  /** `show_favorite_list_result`: each line it prints, as data. */
  method ShowFavorites(payload: string) returns (lines: seq<Fields3>)
    requires |payload| < MAX_PACKET_SIZE
    ensures lines == UserListShown(payload)
  {
    hide Words, IsBlank, SplitAt, SafeCopy;
    lines := [];
    if IsBlank(payload) { return; }
    var words := Tokenize(payload, ';');
    var i := 0;
    while i < |words|
      invariant 0 <= i <= |words| && lines == ShowItems(words[..i])
    {
      assert words[..i + 1][..i] == words[..i];
      i := i + 1;
      var kind := Split(SafeCopy(words[i - 1], ITEM_SIZE), ':');
      if kind.None? { continue; }
      var id := Split(kind.value.1, ':');
      if id.None? { continue; }
      lines := lines + [(kind.value.0, id.value.0, id.value.1)];
    }
    assert words[..i] == words;
  }

  // ---------------------------------------------------------------- a list the server wrote

  /** The text is one item of a list and is shown with these fields. */
  ghost predicate Shows(t: string, f: Fields3) {
    && !IsBlank(t) && ';' !in t && '\n' !in t && '\r' !in t
    && ShowItem(t) == Some(f)
  }

  ghost predicate ShowAll(texts: seq<string>, fields: seq<Fields3>) {
    |texts| == |fields| && forall i | 0 <= i < |texts| :: Shows(texts[i], fields[i])
  }

  lemma {:induction false} AllItemsShown(texts: seq<string>, fields: seq<Fields3>)
    requires ShowAll(texts, fields)
    ensures ShowItems(texts) == fields
  {
    hide ShowItem, IsBlank;
    if texts != [] {
      var n := |texts| - 1;
      assert Shows(texts[n], fields[n]);
      AllItemsShown(texts[..n], fields[..n]);
    }
  }

  lemma ShowsMeans(t: string, f: Fields3)
    requires Shows(t, f)
    ensures t != "" && ';' !in t && '\n' !in t && '\r' !in t && exists c :: c in t && !IsSpace(c)
  {
    hide ShowItem, IsSpace;
  }

  lemma {:induction false} ShownPayload(texts: seq<string>, fields: seq<Fields3>)
    requires ShowAll(texts, fields)
    ensures var payload := Join(texts, ";");
            UserListShown(payload) == fields && '\n' !in payload && '\r' !in payload
  {
    hide Shows, ShowItems, Words, Join;
    AllItemsShown(texts, fields);
    forall i | 0 <= i < |texts| ensures texts[i] != "" && ';' !in texts[i] && '\n' !in texts[i] && '\r' !in texts[i] {
      ShowsMeans(texts[i], fields[i]);
    }
    WordsBackIff(texts, ';');
    assert [';'] == ";";
    NotInJoin(texts, ";", '\n');
    NotInJoin(texts, ";", '\r');
    JoinNone(texts, ";");
    if texts != [] {
      ShowsMeans(texts[0], fields[0]);
      JoinStarts(texts, ";");
      var c :| c in texts[0] && !IsSpace(c);
      assert c in Join(texts, ";");
    }
  }

  function FieldsOf(favs: seq<Favorite>): (r: seq<Fields3>)
    ensures |r| == |favs| && forall i | 0 <= i < |favs| :: r[i] == (favs[i].kind, favs[i].id, favs[i].name)
  {
    seq(|favs|, i requires 0 <= i < |favs| => (favs[i].kind, favs[i].id, favs[i].name))
  }

  function ItemsFor(favs: seq<Favorite>): (r: seq<string>)
    ensures |r| == |favs| && forall i | 0 <= i < |favs| :: r[i] == ItemText((favs[i].kind, favs[i].id, favs[i].name))
  {
    seq(|favs|, i requires 0 <= i < |favs| => ItemText((favs[i].kind, favs[i].id, favs[i].name)))
  }

  lemma SoundItem(f: Favorite)
    requires Sound(f)
    ensures var t := ItemText((f.kind, f.id, f.name));
            && t != "" && ';' !in t && '\n' !in t && '\r' !in t && |t| < ITEM_SIZE
            && !IsSpace(t[0])
            && ShowItem(t) == Some((f.kind, f.id, f.name))
  {
    hide SplitAt, IsBlank;
    var t, rest := ItemText((f.kind, f.id, f.name)), f.id + [':'] + f.name;
    assert t == f.kind + [':'] + rest;
    assert ':' !in f.kind && ';' !in f.kind && '\n' !in f.kind && '\r' !in f.kind;
    SplitAtParts(f.kind, ':', rest);
    SplitAtParts(f.id, ':', f.name);
    assert t[0] == f.kind[0];
  }

  lemma SoundShows(f: Favorite)
    requires Sound(f)
    ensures Shows(ItemText((f.kind, f.id, f.name)), (f.kind, f.id, f.name))
  {
    SoundItem(f);
    var t := ItemText((f.kind, f.id, f.name));
    assert t[0] in t;
  }

  /** A payload of joined items is shown as the favorites it was made of. */
  lemma {:induction false} ShowsPayload(favs: seq<Favorite>)
    requires forall f | f in favs :: Sound(f)
    ensures var payload := Join(ItemsFor(favs), ";");
            && UserListShown(payload) == FieldsOf(favs) && '\n' !in payload && '\r' !in payload
  {
    hide Sound, Shows, ItemText, Join, UserListShown;
    forall i | 0 <= i < |favs| ensures Shows(ItemsFor(favs)[i], FieldsOf(favs)[i]) {
      assert favs[i] in favs;
      SoundShows(favs[i]);
    }
    ShownPayload(ItemsFor(favs), FieldsOf(favs));
  }

  lemma {:induction false} JoinStarts(parts: seq<string>, sep: string)
    requires parts != []
    ensures parts[0] <= Join(parts, sep)
  {
    if |parts| > 1 { JoinStarts(parts[..|parts| - 1], sep); }
  }

  /** After any run of requests, whatever part of the list fits the response: the client prints the first entries of the
      user's list with the numbers 1, 2, ..., and sending such a number back deletes the entry it was printed with. */
  lemma {:induction false} NumberShownDeletes(ops: seq<Op>, w: LongWidth, known: Favorite -> bool, response: string,
                                              size: nat)
    requires (forall op | op in ops :: '\0' !in op.payload) && |Favs(ops, w, known)| < INT_MAX
    requires |FAVORITE_HEAD| + 2 <= size <= MAX_PACKET_SIZE
    requires Outcome(response, FAVORITE_HEAD, Items(Lines(TextOf(Run(ops, w, known)))), FAVORITE_SLACK, size)
    ensures var favs, lines := Favs(ops, w, known), UserListShown(ParseHeader(response, w).payload);
            && Fitting(FAVORITE_HEAD, ItemsFor(favs), FAVORITE_SLACK, size, |lines|)
            && lines == FieldsOf(favs[..|lines|])
            && forall i | 0 <= i < |lines| ::
                 Step(favs, DeleteOp(SignedDecimal(i + 1)), w, known) == favs[..i] + favs[i + 1..]
  {
    hide Lines, Items, Run, Favs, Outcome, ItemText, ParseHeader, UserListShown, SoundList, Sound, Step, SignedDecimal,
         Fitting;
    var favs, items := Favs(ops, w, known), Items(Lines(TextOf(Run(ops, w, known))));
    FavoriteRun(ops, w, known);
    FavoriteRunLists(ops, w, known);
    assert items == ItemsFor(favs);
    SoundEach(favs);
    ResponseShows(favs, response, size, w);
    forall i | 0 <= i < |UserListShown(ParseHeader(response, w).payload)|
      ensures Step(favs, DeleteOp(SignedDecimal(i + 1)), w, known) == favs[..i] + favs[i + 1..]
    {
      NumberDeletes(favs, i + 1, w, known);
    }
  }

  /** From the response for a list of favorites the client shows the first of them, as many as fit. */
  lemma {:induction false} ResponseShows(favs: seq<Favorite>, response: string, size: nat, w: LongWidth)
    requires (forall f | f in favs :: Sound(f)) && |FAVORITE_HEAD| + 2 <= size <= MAX_PACKET_SIZE
    requires Outcome(response, FAVORITE_HEAD, ItemsFor(favs), FAVORITE_SLACK, size)
    ensures var lines := UserListShown(ParseHeader(response, w).payload);
            && Fitting(FAVORITE_HEAD, ItemsFor(favs), FAVORITE_SLACK, size, |lines|)
            && |lines| <= |favs| && lines == FieldsOf(favs[..|lines|])
  {
    hide Join, ItemText, ParseHeader, UserListShown, Sound, Room;
    var items := ItemsFor(favs);
    var k: nat :| Fitting(FAVORITE_HEAD, items, FAVORITE_SLACK, size, k) && response == Line(FAVORITE_HEAD, items, k);
    LineFits(FAVORITE_HEAD, items, FAVORITE_SLACK, size, k);
    assert items[..k] == ItemsFor(favs[..k]) && forall f | f in favs[..k] :: f in favs;
    var body := Join(ItemsFor(favs[..k]), ";");
    ShowsPayload(favs[..k]);
    assert body != "" ==> body[|body| - 1] in body;
    assert FAVORITE_HEAD == FAVORITE_KIND + "|0|";
    HeaderRoundTrip(FAVORITE_KIND, body, w);
  }

  lemma SoundEach(favs: seq<Favorite>)
    requires SoundList(favs)
    ensures forall f | f in favs :: Sound(f)
  {}

  // ---------------------------------------------------------------- any file

  predicate Listed(line: string) { ItemIn(line).Some? }

  /** Entry `n` of the list is in line `n` of the entries that deletion counts, as far as the list goes. */
  ghost predicate NumberedAlike(lines: seq<string>) {
    |Items(lines)| <= |lines| && forall n | 0 <= n < |Items(lines)| :: ItemIn(lines[n]) == Some(Items(lines)[n])
  }

  /** No line that the list leaves out stands before one that it shows. */
  ghost predicate LeftOutLast(lines: seq<string>) {
    forall i, j | 0 <= i < j < |lines| && Listed(lines[j]) :: Listed(lines[i])
  }

  lemma {:induction false} SomeListed(lines: seq<string>)
    ensures Items(lines) == [] <==> forall j | 0 <= j < |lines| :: !Listed(lines[j])
    ensures |Items(lines)| <= |lines|
  {
    hide ItemIn;
    if lines != [] {
      SomeListed(lines[1..]);
      assert forall j | 0 <= j < |lines| - 1 :: lines[1..][j] == lines[j + 1];
      assert forall j | 0 < j < |lines| :: lines[j] == lines[1..][j - 1];
    }
  }

  lemma {:induction false} AlikeIff(lines: seq<string>)
    ensures NumberedAlike(lines) <==> LeftOutLast(lines)
  {
    hide ItemIn;
    SomeListed(lines);
    if lines != [] {
      var rest := lines[1..];
      AlikeIff(rest);
      SomeListed(rest);
      assert forall j | 0 < j < |lines| :: lines[j] == rest[j - 1];
      if Listed(lines[0]) {
        assert Items(lines) == [ItemIn(lines[0]).value] + Items(rest);
        AlikeShift(lines);
        LastShift(lines);
      } else {
        assert Items(lines) == Items(rest);
      }
    }
  }

  lemma AlikeShift(lines: seq<string>)
    requires lines != [] && Listed(lines[0])
    ensures NumberedAlike(lines) <==> NumberedAlike(lines[1..])
  {
    hide ItemIn;
    var rest := lines[1..];
    assert Items(lines) == [ItemIn(lines[0]).value] + Items(rest);
    if NumberedAlike(lines) {
      forall n | 0 <= n < |Items(rest)| ensures ItemIn(rest[n]) == Some(Items(rest)[n]) {
        assert ItemIn(lines[n + 1]) == Some(Items(lines)[n + 1]);
      }
    }
    if NumberedAlike(rest) {
      forall n | 0 <= n < |Items(lines)| ensures ItemIn(lines[n]) == Some(Items(lines)[n]) {
        if n > 0 { assert ItemIn(rest[n - 1]) == Some(Items(rest)[n - 1]); }
      }
    }
  }

  lemma LastShift(lines: seq<string>)
    requires lines != [] && Listed(lines[0])
    ensures LeftOutLast(lines) <==> LeftOutLast(lines[1..])
  {
    hide Listed;
    var rest := lines[1..];
    if LeftOutLast(lines) {
      forall i, j | 0 <= i < j < |rest| && Listed(rest[j]) ensures Listed(rest[i]) {
        assert Listed(lines[j + 1]) && rest[i] == lines[i + 1];
      }
    }
    if LeftOutLast(rest) {
      forall i, j | 0 <= i < j < |lines| && Listed(lines[j]) ensures Listed(lines[i]) {
        if i > 0 { assert Listed(rest[j - 1]) && lines[i] == rest[i - 1]; }
      }
    }
  }

  lemma BlankNotListed(line: string)
    requires IsBlank(line)
    ensures !Listed(line)
  {
    assert forall i | 0 <= i < |line| :: line[i] in line;
    IndexOfNone(line, '|');
  }

  lemma {:induction false} ItemsOfRecords(lines: seq<string>)
    ensures Items(NonBlank(lines)) == Items(lines)
  {
    hide ItemIn, IsBlank, NonBlank, Items;
    if lines == [] {
      assert NonBlank(lines) == [] by { NothingKept(); }
    } else {
      var l, rest := lines[0], lines[1..];
      assert lines == [l] + rest;
      ItemsOfRecords(rest);
      NonBlankConcat([l], rest);
      NonBlankOne(l);
      ItemsStep(l, rest);
      if IsBlank(l) {
        BlankNotListed(l);
        assert [] + NonBlank(rest) == NonBlank(rest) && [] + Items(rest) == Items(rest);
      } else {
        ItemsStep(l, NonBlank(rest));
      }
    }
  }

  lemma NothingKept()
    ensures NonBlank([]) == []
  {}

  lemma {:induction false} EntriesAreRecords(chunks: seq<string>)
    ensures StripAll(Entries(chunks)) == NonBlank(StripAll(chunks))
  {
    hide StripNewline, IsBlank, NonBlank, Entries;
    if chunks == [] {
      NothingKept();
      NoEntriesIn();
      assert StripAll([]) == [];
    } else {
      var front, c := chunks[..|chunks| - 1], chunks[|chunks| - 1];
      assert chunks == front + [c];
      EntriesAreRecords(front);
      EntriesSnoc(front, c);
      assert StripAll(chunks) == StripAll(front) + [StripNewline(c)];
      NonBlankConcat(StripAll(front), [StripNewline(c)]);
      NonBlankOne(StripNewline(c));
      if IsBlank(StripNewline(c)) {
        assert Entries(front) + [] == Entries(front);
        assert NonBlank(StripAll(front)) + [] == NonBlank(StripAll(front));
      } else {
        assert StripAll(Entries(front) + [c]) == StripAll(Entries(front)) + [StripNewline(c)];
      }
    }
  }

  /** For any file: the number in front of each entry of the list is the number that deletes its line if and only if no
      line that is not blank but malformed stands before a well-formed one. */
  lemma NumbersAgreeIff(text: string)
    ensures NumberedAlike(StripAll(Entries(Chunks(text)))) <==> LeftOutLast(Records(text))
    ensures Items(StripAll(Entries(Chunks(text)))) == Items(Lines(text))
  {
    hide Chunks, Entries, NonBlank, Items, NumberedAlike, LeftOutLast;
    EntriesAreRecords(Chunks(text));
    ItemsOfRecords(Lines(text));
    AlikeIff(Records(text));
  }

  /** They do come apart: with a malformed line in front, the list shows the entry as number 1, but deleting number 1
      takes the malformed line out. */
  lemma MalformedShifts(l: string, f: Favorite, w: LongWidth)
    requires Short(l) && ItemIn(l).None? && Sound(f)
    ensures var text := Render([l, FavoriteLine(f)]);
            && Items(Lines(text)) == [ItemText((f.kind, f.id, f.name))]
            && AfterDelete(Some(text), SignedDecimal(1), w) == Some(Render([FavoriteLine(f)]))
  {
    hide Lines, Chunks, Entries, Rewrite, Render, ItemIn, Sound, Short, FavoriteLine, ItemText, StrToInt,
         SignedDecimal, Items;
    var ls, rest := [l, FavoriteLine(f)], [FavoriteLine(f)];
    SoundShort(f);
    SoundCut(f);
    LinesOfShort(ls);
    ChunksOfShort(ls);
    EntriesOfShort(ls);
    EntriesOfShort(rest);
    assert ls == [l] + rest && rest == [FavoriteLine(f)] + [];
    ItemsStep(l, rest);
    ItemsStep(FavoriteLine(f), []);
    NoItemsIn();
    StrToIntOfDecimal(1, w);
    assert TextOf(Some(Render(ls))) == Render(ls);
    assert Without(Ended(ls), 1) == Ended(rest);
  }

  lemma NoItemsIn()
    ensures Items([]) == []
  {}
}
