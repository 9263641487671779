/** The favorites file of src/server/user_state_service.c: a list of entries keyed by kind and id,
    edited by position. */
module Favorites {
  import opened Basics
  import opened Text
  import opened Numbers
  import opened Files
  import opened Responses

  const FAVORITE_HEAD := "FAVORITE_LIST_RES|0|"
  const FAVORITE_SLACK := 4

  // ---------------------------------------------------------------- requests

  datatype Favorite = Favorite(kind: string, id: string, name: string)

  // The Korean words for the three kinds, as UTF-8 bytes.
  const STOP_WORD1: string := [
    0xEC as char, 0xA0 as char, 0x95 as char, 0xEB as char, 0xA5 as char, 0x98 as char,
    0xEC as char, 0x9E as char, 0xA5 as char]
  const STOP_WORD2: string := [
    0xEB as char, 0xB2 as char, 0x84 as char, 0xEC as char, 0x8A as char, 0xA4 as char,
    0xEC as char, 0xA0 as char, 0x95 as char, 0xEB as char, 0xA5 as char, 0x98 as char,
    0xEC as char, 0x9E as char, 0xA5 as char]
  const BUS_WORD1: string := [0xEB as char, 0xB2 as char, 0x84 as char, 0xEC as char, 0x8A as char, 0xA4 as char]
  const BUS_WORD2: string := [
    0xEB as char, 0xB2 as char, 0x84 as char, 0xEC as char, 0x8A as char, 0xA4 as char,
    0xEB as char, 0xB2 as char, 0x88 as char, 0xED as char, 0x98 as char, 0xB8 as char]
  const BUS_WORD3: string := [0xEB as char, 0x85 as char, 0xB8 as char, 0xEC as char, 0x84 as char, 0xA0 as char]
  const STATION_WORD1: string := [
    0xEC as char, 0xA7 as char, 0x80 as char, 0xED as char, 0x95 as char, 0x98 as char,
    0xEC as char, 0xB2 as char, 0xA0 as char, 0xEC as char, 0x97 as char, 0xAD as char]
  const STATION_WORD2: string := [0xEC as char, 0x97 as char, 0xAD as char]

  /** `normalize_favorite_type`. */
  function Normalize(input: string): (kind: Option<string>)
    ensures kind.Some? ==> kind.value in ["stop", "bus", "station"]
  {
    if IsBlank(input) then None
    else
      var w := Trimmed(SafeCopy(input, 64));
      if w in ["1", "stop", STOP_WORD1, STOP_WORD2] then Some("stop")
      else if w in ["2", "bus", BUS_WORD1, BUS_WORD2, BUS_WORD3] then Some("bus")
      else if w in ["3", "station", STATION_WORD1, STATION_WORD2] then Some("station")
      else None
  }

  /** The favorite a request asks for; none when the request is malformed. */
  function ParseAdd(payload: string): Option<Favorite> {
    var buf := SafeCopy(payload, 2048);
    var p := IndexOf(buf, ':');
    if p == |buf| then None
    else
      var rest := buf[p + 1..];
      var q := IndexOf(rest, ':');
      if q == |rest| then None
      else
        var kind := Normalize(SafeCopy(Trimmed(buf[..p]), 64));
        var id := SafeCopy(Trimmed(rest[..q]), 128);
        var name := SafeCopy(Trimmed(rest[q + 1..]), 256);
        if kind.None? || IsBlank(id) || IsBlank(name) || HasDelimiter(id) || HasDelimiter(name) then None
        else Some(Favorite(kind.value, id, name))
  }

  function FavoriteLine(f: Favorite): string { f.kind + "|" + f.id + "|" + f.name }

  // ---------------------------------------------------------------- the operations on the text

  predicate Keyed(line: string, kind: string, id: string) {
    match Cut3(line)
    case None => false
    case Some(t) => t.0 == kind && t.1 == id
  }

  /** `favorite_exists`. */
  predicate HasKey(lines: seq<string>, kind: string, id: string) {
    exists l | l in lines :: Keyed(l, kind, id)
  }

  /** The file after `handle_favorite_add`; `known` says whether the data has such a target. */
  function AfterAdd(file: Option<string>, payload: string, known: Favorite -> bool): Option<string> {
    match ParseAdd(payload)
    case None => file
    case Some(f) =>
      if known(f) && !HasKey(Lines(TextOf(file)), f.kind, f.id)
      then Some(TextOf(file) + (FavoriteLine(f) + "\n"))
      else file
  }

  /** The chunks of a file that count as entries. */
  function Entries(chunks: seq<string>): seq<string> {
    if chunks == [] then []
    else Entries(chunks[..|chunks| - 1])
         + (if IsBlank(StripNewline(chunks[|chunks| - 1])) then [] else [chunks[|chunks| - 1]])
  }

  /** Chunks written back, each with its line end. */
  function Rewrite(chunks: seq<string>): string {
    if chunks == [] then ""
    else
      var c := chunks[|chunks| - 1];
      Rewrite(chunks[..|chunks| - 1]) + (if c != "" && c[|c| - 1] == '\n' then c else c + "\n")
  }

  function Without<T>(s: seq<T>, n: int): seq<T> {
    if 1 <= n <= |s| then s[..n - 1] + s[n..] else s
  }

  /** The file after `handle_favorite_delete`. */
  function AfterDelete(file: Option<string>, payload: string, w: LongWidth): Option<string> {
    var entries := Entries(Chunks(TextOf(file)));
    match StrToInt(payload, w)
    case None => file
    case Some(n) => if 1 <= n <= |entries| then Some(Rewrite(Without(entries, n))) else file
  }

  function ItemText(t: (string, string, string)): string { t.0 + ":" + t.1 + ":" + t.2 }

  /** The item of a line; none unless it has three fields that are not blank. */
  function ItemIn(line: string): Option<string> {
    match Cut3(line)
    case None => None
    case Some(t) => if IsBlank(t.0) || IsBlank(t.1) || IsBlank(t.2) then None else Some(ItemText(t))
  }

  /** A line is listed exactly when it is made of three parts that are not blank, and is listed with these. */
  lemma ItemIff(line: string, item: string)
    ensures ItemIn(line) == Some(item) <==>
            exists a, b, c :: && line == a + "|" + b + "|" + c && '|' !in a && '|' !in b
                              && !IsBlank(a) && !IsBlank(b) && !IsBlank(c) && item == a + ":" + b + ":" + c
  {
    hide Cut3, IsBlank;
    if ItemIn(line) == Some(item) {
      var t := Cut3(line).value;
      Cut3Iff(line, t.0, t.1, t.2);
      assert item == t.0 + ":" + t.1 + ":" + t.2;
    }
    if a, b, c :| && line == a + "|" + b + "|" + c && '|' !in a && '|' !in b
                  && !IsBlank(a) && !IsBlank(b) && !IsBlank(c) && item == a + ":" + b + ":" + c {
      Cut3Iff(line, a, b, c);
    }
  }

  /** What `handle_favorite_list` shows, in file order. */
  function Items(lines: seq<string>): seq<string> {
    if lines == [] then []
    else
      var item := ItemIn(lines[0]);
      (if item.None? then [] else [item.value]) + Items(lines[1..])
  }

  lemma LinesStep(s: string, chunk: string, after: string)
    requires Chunks(s) == [chunk] + Chunks(after)
    ensures Lines(s) == [StripNewline(chunk)] + Lines(after)
  {
    hide Chunks, StripNewline;
    assert StripAll([chunk] + Chunks(after)) == [StripNewline(chunk)] + StripAll(Chunks(after));
  }

  lemma EntriesSnoc(chunks: seq<string>, c: string)
    ensures Entries(chunks + [c]) == Entries(chunks) + (if IsBlank(StripNewline(c)) then [] else [c])
  {
    assert (chunks + [c])[..|chunks|] == chunks;
  }

  lemma RewriteSnoc(chunks: seq<string>, c: string)
    ensures Rewrite(chunks + [c]) == Rewrite(chunks) + (if c != "" && c[|c| - 1] == '\n' then c else c + "\n")
  {
    assert (chunks + [c])[..|chunks|] == chunks;
  }

  // ---------------------------------------------------------------- the store

  class FavoriteStore {
    var file: Option<string>

    constructor ()
      ensures file == None
    {
      file := None;
    }

    /** `favorite_exists`. */
    method Exists(kind: string, id: string) returns (found: bool)
      ensures found <==> HasKey(Lines(TextOf(file)), kind, id)
    {
      hide Chunks, StripNewline, Lines, Keyed;
      var rest := TextOf(file);
      while rest != ""
        invariant HasKey(Lines(TextOf(file)), kind, id) <==> HasKey(Lines(rest), kind, id)
        decreases |rest|
      {
        var chunk, after := ReadChunk(rest);
        LinesStep(rest, chunk, after);
        var line := StripNewline(chunk);
        assert line in Lines(rest) && forall l | l in Lines(rest) :: l == line || l in Lines(after);
        assert forall l | l in Lines(after) :: l in Lines(rest);
        if Keyed(line, kind, id) { return true; }
        rest := after;
      }
      assert Lines("") == [] by { NoLines(); }
      return false;
    }

    /** `handle_favorite_add`. */
    method Add(payload: string, known: Favorite -> bool) returns (code: int)
      modifies this
      ensures file == AfterAdd(old(file), payload, known)
      ensures code == match ParseAdd(payload)
                      case None => ERR_INVALID_REQUEST
                      case Some(f) => if known(f) then ERR_OK else ERR_NOT_FOUND
    {
      hide HasKey, Lines, ParseAdd;
      var request := ParseAdd(payload);
      if request.None? { return ERR_INVALID_REQUEST; }
      var f := request.value;
      if !known(f) { return ERR_NOT_FOUND; }
      var exists_ := Exists(f.kind, f.id);
      if exists_ { return ERR_OK; }
      file := Some(TextOf(file) + (FavoriteLine(f) + "\n"));
      return ERR_OK;
    }

    /** `handle_favorite_delete`; `removed` is the line that was dropped. */
    method Delete(payload: string, w: LongWidth) returns (code: int, removed: Option<string>)
      modifies this
      ensures file == AfterDelete(old(file), payload, w)
      ensures code == match StrToInt(payload, w)
                      case None => ERR_INVALID_REQUEST
                      case Some(n) => if n <= 0 then ERR_INVALID_REQUEST else ERR_OK
      ensures var entries := Entries(Chunks(TextOf(old(file))));
              removed == match StrToInt(payload, w)
                         case None => None
                         case Some(n) => if 1 <= n <= |entries| then Some(StripNewline(entries[n - 1])) else None
    {
      hide Chunks, Rewrite, Entries, StripNewline, IsBlank, StrToInt;
      var target := StrToInt(payload, w);
      if target.None? || target.value <= 0 { return ERR_INVALID_REQUEST, None; }
      code, removed := ERR_OK, None;
      if file.None? {
        NoEntries();
        return;
      }
      var kept;
      kept, removed := Filter(file.value, target.value);
      if removed.Some? { file := Some(kept); }
    }

    /** `handle_favorite_list`. */
    method List(b: Buffer)
      requires b.Valid()
      modifies b, b.data
      ensures b.Valid() && Outcome(b.text, FAVORITE_HEAD, Items(Lines(TextOf(file))), FAVORITE_SLACK, b.data.Length)
    {
      hide Room, Lines, Items, ItemIn, StripNewline, Chunks;
      ghost var items := Items(Lines(TextOf(file)));
      Start(b, FAVORITE_HEAD, items, FAVORITE_SLACK);
      var count := 0;
      var rest := TextOf(file);
      assert items[0..] == items;
      while rest != ""
        invariant count <= |items| && Responses.Holds(b, FAVORITE_HEAD, items, FAVORITE_SLACK, count)
        invariant items[count..] == Items(Lines(rest))
        decreases |rest|
      {
        var chunk, after := ReadChunk(rest);
        LinesStep(rest, chunk, after);
        var item := ItemIn(StripNewline(chunk));
        ItemsStep(StripNewline(chunk), Lines(after));
        ItemTerminable(chunk);
        if item.Some? {
          assert items[count] == items[count..][0] && items[count..][1..] == items[count + 1..];
          var ok := AddItem(b, item.value, FAVORITE_SLACK, count, FAVORITE_HEAD, items);
          if !ok { break; }
          count := count + 1;
        }
        rest := after;
      }
      NoItems();
      assert rest == "" ==> count == |items|;
      Finish(b, FAVORITE_HEAD, items, FAVORITE_SLACK, count);
    }
  }

  lemma NoLines()
    ensures Lines("") == []
  {}

  lemma NoEntries()
    ensures Entries(Chunks("")) == [] && Rewrite([]) == ""
  {}

  lemma NoItems()
    ensures Items(Lines("")) == []
  {}

  lemma ItemsStep(line: string, lines: seq<string>)
    ensures Items([line] + lines) == (if ItemIn(line).None? then [] else [ItemIn(line).value]) + Items(lines)
  {
    hide ItemIn;
    assert ([line] + lines)[1..] == lines;
  }

  lemma ItemTerminable(chunk: string)
    requires '\0' !in chunk
    ensures ItemIn(StripNewline(chunk)).Some? ==> '\0' !in ItemIn(StripNewline(chunk)).value
  {
    assert forall c | c in StripNewline(chunk) :: c in chunk;
  }

  /** The copying loop of the deletion: every entry but number `n` goes to the new file. */
  method Filter(text: string, n: int) returns (kept: string, removed: Option<string>)
    requires n > 0
    ensures kept == Rewrite(Without(Entries(Chunks(text)), n))
    ensures var entries := Entries(Chunks(text));
            removed == if n <= |entries| then Some(StripNewline(entries[n - 1])) else None
  {
    hide Chunks, Rewrite, Entries, StripNewline, IsBlank;
    kept, removed := "", None;
    var current := 1;
    var rest := text;
    ghost var seen: seq<string> := [];
    NoEntries();
    assert [] + Chunks(rest) == Chunks(rest);
    assert Entries([]) == [] by { NoEntriesIn(); }
    while rest != ""
      invariant Chunks(text) == seen + Chunks(rest)
      invariant current == |Entries(seen)| + 1
      invariant kept == Rewrite(Without(Entries(seen), n))
      invariant removed == if n <= |Entries(seen)| then Some(StripNewline(Entries(seen)[n - 1])) else None
      decreases |rest|
    {
      var chunk, after := ReadChunk(rest);
      var line := StripNewline(chunk);
      EntriesSnoc(seen, chunk);
      ghost var was := Entries(seen);
      assert seen + ([chunk] + Chunks(after)) == (seen + [chunk]) + Chunks(after);
      seen := seen + [chunk];
      if !IsBlank(line) {
        NotBlankNotEmpty(line);
        WithoutSnoc(was, chunk, n);
        if current == n {
          removed := Some(line);
        } else {
          RewriteSnoc(Without(was, n), chunk);
          kept := kept + (if chunk[|chunk| - 1] == '\n' then chunk else chunk + "\n");
        }
        current := current + 1;
      } else {
        assert was + [] == was;
      }
      rest := after;
    }
    assert Chunks("") == [] by { NoEntriesIn(); }
    assert seen + [] == seen;
  }

  lemma NoEntriesIn()
    ensures Entries([]) == [] && Chunks("") == []
  {}

  lemma WithoutSnoc(was: seq<string>, c: string, n: int)
    requires n > 0
    ensures Without(was + [c], n) == if n == |was| + 1 then Without(was, n) else Without(was, n) + [c]
  {}

  // ---------------------------------------------------------------- whole runs

  datatype Op = AddOp(payload: string) | DeleteOp(payload: string)

  function Apply(file: Option<string>, op: Op, w: LongWidth, known: Favorite -> bool): Option<string> {
    match op
    case AddOp(p) => AfterAdd(file, p, known)
    case DeleteOp(p) => AfterDelete(file, p, w)
  }

  /** The file after a run of requests on a store without one. */
  function Run(ops: seq<Op>, w: LongWidth, known: Favorite -> bool): Option<string> {
    if ops == [] then None else Apply(Run(ops[..|ops| - 1], w, known), ops[|ops| - 1], w, known)
  }

  predicate SameKey(f: Favorite, g: Favorite) { f.kind == g.kind && f.id == g.id }

  /** The list of favorites as a user thinks of it: adding a new key appends, deleting by number
      takes that entry out. */
  function Step(favs: seq<Favorite>, op: Op, w: LongWidth, known: Favorite -> bool): seq<Favorite> {
    match op
    case AddOp(p) =>
      (match ParseAdd(p)
       case None => favs
       case Some(f) => if known(f) && !exists g | g in favs :: SameKey(f, g) then favs + [f] else favs)
    case DeleteOp(p) =>
      (match StrToInt(p, w)
       case None => favs
       case Some(n) => Without(favs, n))
  }

  function Favs(ops: seq<Op>, w: LongWidth, known: Favorite -> bool): seq<Favorite> {
    if ops == [] then [] else Step(Favs(ops[..|ops| - 1], w, known), ops[|ops| - 1], w, known)
  }

  /** An entry that fits its line and splits back into its parts. */
  ghost predicate Sound(f: Favorite) {
    && f.kind in ["stop", "bus", "station"] && |f.id| < 128 && |f.name| < 256
    && !IsBlank(f.id) && !IsBlank(f.name) && !HasDelimiter(f.id) && !HasDelimiter(f.name)
    && '\0' !in f.id && '\0' !in f.name
  }

  ghost predicate SoundList(favs: seq<Favorite>) {
    && (forall f | f in favs :: Sound(f))
    && forall i, j | 0 <= i < j < |favs| :: !SameKey(favs[i], favs[j])
  }

  function LinesOf(favs: seq<Favorite>): (ls: seq<string>)
    ensures |ls| == |favs| && forall i | 0 <= i < |ls| :: ls[i] == FavoriteLine(favs[i])
  {
    seq(|favs|, i requires 0 <= i < |favs| => FavoriteLine(favs[i]))
  }

  lemma ParsedSound(payload: string)
    requires '\0' !in payload
    ensures ParseAdd(payload).Some? ==> Sound(ParseAdd(payload).value)
  {
    hide Normalize, Trimmed, HasDelimiter, IsBlank, IndexOf, SafeCopy;
    var buf := SafeCopy(payload, 2048);
    var p := IndexOf(buf, ':');
    if p < |buf| {
      var rest := buf[p + 1..];
      var q := IndexOf(rest, ':');
      if q < |rest| {
        FieldTerminable(rest[..q], 128);
        FieldTerminable(rest[q + 1..], 256);
      }
    }
  }

  lemma FieldTerminable(field: string, size: nat)
    requires '\0' !in field && size > 0
    ensures '\0' !in SafeCopy(Trimmed(field), size)
  {
    hide Trimmed;
    TrimmedBytes(field);
  }

  lemma SoundShort(f: Favorite)
    requires Sound(f)
    ensures Short(FavoriteLine(f))
  {
    var l := FavoriteLine(f);
    assert l[|l| - 1] == f.name[|f.name| - 1] && f.name[|f.name| - 1] in f.name;
    assert l[0] == f.kind[0] && l[0] in l && !IsSpace(f.kind[0]);
    assert '\n' !in l by {
      assert '\n' !in f.kind && '\n' !in f.id && '\n' !in f.name;
    }
  }

  lemma SoundCut(f: Favorite)
    requires Sound(f)
    ensures Cut3(FavoriteLine(f)) == Some((f.kind, f.id, f.name))
    ensures ItemIn(FavoriteLine(f)) == Some(ItemText((f.kind, f.id, f.name)))
  {
    hide Cut3;
    assert '|' !in f.kind && '|' !in f.id;
    Cut3OfParts(f.kind, f.id, f.name);
    assert f.kind[0] in f.kind && !IsSpace(f.kind[0]);
  }

  lemma SoundLines(favs: seq<Favorite>)
    requires forall f | f in favs :: Sound(f)
    ensures forall l | l in LinesOf(favs) :: Short(l)
  {
    hide Short, FavoriteLine, Sound;
    forall l | l in LinesOf(favs) ensures Short(l) {
      var i :| 0 <= i < |favs| && LinesOf(favs)[i] == l;
      assert favs[i] in favs;
      SoundShort(favs[i]);
    }
  }

  lemma {:induction false} SoundText(favs: seq<Favorite>)
    requires SoundList(favs)
    ensures Lines(Render(LinesOf(favs))) == LinesOf(favs) && Chunks(Render(LinesOf(favs))) == Ended(LinesOf(favs))
  {
    hide Short, FavoriteLine, Sound;
    SoundLines(favs);
    LinesOfShort(LinesOf(favs));
    ChunksOfShort(LinesOf(favs));
  }

  lemma {:induction false} AddStep(file: Option<string>, favs: seq<Favorite>, payload: string, w: LongWidth,
                                   known: Favorite -> bool)
    requires '\0' !in payload && SoundList(favs) && TextOf(file) == Render(LinesOf(favs))
    ensures var next := Step(favs, AddOp(payload), w, known);
            SoundList(next) && TextOf(AfterAdd(file, payload, known)) == Render(LinesOf(next))
  {
    hide Lines, Render, ParseAdd, Cut3, Sound, FavoriteLine, HasKey, SameKey;
    ParsedSound(payload);
    var request := ParseAdd(payload);
    if request.Some? {
      var f := request.value;
      SoundText(favs);
      KeyKnown(favs, f);
      NewKey(favs, f);
      assert LinesOf(favs + [f]) == LinesOf(favs) + [FavoriteLine(f)];
      RenderSnoc(LinesOf(favs), FavoriteLine(f));
    }
  }

  lemma NewKey(favs: seq<Favorite>, f: Favorite)
    requires SoundList(favs) && Sound(f)
    ensures (exists g | g in favs :: SameKey(f, g)) || SoundList(favs + [f])
  {
    hide Sound;
    assert forall i | 0 <= i < |favs| :: favs[i] in favs;
  }

  /** A key is in the file if and only if a favorite has it. */
  lemma KeyKnown(favs: seq<Favorite>, f: Favorite)
    requires forall g | g in favs :: Sound(g)
    ensures HasKey(LinesOf(favs), f.kind, f.id) <==> exists g | g in favs :: SameKey(f, g)
  {
    hide Cut3, Sound, FavoriteLine;
    forall i | 0 <= i < |favs| ensures Keyed(LinesOf(favs)[i], f.kind, f.id) <==> SameKey(f, favs[i]) {
      SoundCut(favs[i]);
    }
    if g :| g in favs && SameKey(f, g) {
      var i :| 0 <= i < |favs| && favs[i] == g;
      assert LinesOf(favs)[i] in LinesOf(favs);
    }
  }

  lemma RenderSnoc(ls: seq<string>, l: string)
    ensures Render(ls + [l]) == Render(ls) + (l + "\n")
  {
    assert (ls + [l])[..|ls|] == ls;
  }

  lemma {:induction false} EntriesOfShort(ls: seq<string>)
    requires forall l | l in ls :: Short(l)
    ensures Entries(Ended(ls)) == Ended(ls) && Rewrite(Ended(ls)) == Render(ls)
  {
    hide *;
    if ls == [] {
      assert Ended(ls) == [] && Entries([]) == [] && Rewrite([]) == Render([]) by { NothingWritten(); }
    } else {
      var front, l := ls[..|ls| - 1], ls[|ls| - 1];
      assert l in ls && forall m | m in front :: m in ls;
      EntriesOfShort(front);
      assert Ended(ls) == Ended(front) + [l + "\n"] && ls == front + [l];
      EntriesSnoc(Ended(front), l + "\n");
      RewriteSnoc(Ended(front), l + "\n");
      RenderSnoc(front, l);
      ShortEnd(l);
    }
  }

  lemma NothingWritten()
    ensures Ended([]) == [] && Entries([]) == [] && Rewrite([]) == Render([])
  {}

  lemma ShortEnd(l: string)
    requires Short(l)
    ensures !IsBlank(StripNewline(l + "\n"))
  {
    StripPlain(l);
  }

  lemma WithoutSound(favs: seq<Favorite>, n: int)
    requires SoundList(favs)
    ensures SoundList(Without(favs, n))
    ensures Without(Ended(LinesOf(favs)), n) == Ended(LinesOf(Without(favs, n)))
  {
    hide Sound, FavoriteLine;
    var next := Without(favs, n);
    assert forall f | f in next :: f in favs;
    assert forall i | 0 <= i < |next| :: next[i] == favs[if 1 <= n <= |favs| && i >= n - 1 then i + 1 else i];
  }

  lemma {:induction false} DeleteStep(file: Option<string>, favs: seq<Favorite>, payload: string, w: LongWidth)
    requires SoundList(favs) && TextOf(file) == Render(LinesOf(favs))
    ensures var next := match StrToInt(payload, w) case None => favs case Some(n) => Without(favs, n);
            SoundList(next) && TextOf(AfterDelete(file, payload, w)) == Render(LinesOf(next))
  {
    hide Chunks, Render, Rewrite, Entries, StrToInt, Short, FavoriteLine, Sound, LinesOf, Ended;
    SoundText(favs);
    SoundLines(favs);
    EntriesOfShort(LinesOf(favs));
    var parsed := StrToInt(payload, w);
    if parsed.Some? {
      WithoutSound(favs, parsed.value);
      SoundLines(Without(favs, parsed.value));
      EntriesOfShort(LinesOf(Without(favs, parsed.value)));
    }
  }

  /** After any run of requests the file is exactly the list a user thinks of, entry per line in order,
      every entry sound and no key twice. */
  lemma {:induction false} FavoriteRun(ops: seq<Op>, w: LongWidth, known: Favorite -> bool)
    requires forall op | op in ops :: '\0' !in op.payload
    ensures SoundList(Favs(ops, w, known)) && TextOf(Run(ops, w, known)) == Render(LinesOf(Favs(ops, w, known)))
  {
    if ops == [] {
      assert LinesOf([]) == [];
    } else {
      hide SoundList, Render, AfterAdd, AfterDelete, ParseAdd, StrToInt, LinesOf;
      var front, op := ops[..|ops| - 1], ops[|ops| - 1];
      assert op in ops && forall o | o in front :: o in ops;
      FavoriteRun(front, w, known);
      match op
      case AddOp(p) => AddStep(Run(front, w, known), Favs(front, w, known), p, w, known);
      case DeleteOp(p) => DeleteStep(Run(front, w, known), Favs(front, w, known), p, w);
    }
  }

  /** And the list shows exactly these entries in that order, so the number shown is the number that deletes. */
  lemma {:induction false} FavoriteRunLists(ops: seq<Op>, w: LongWidth, known: Favorite -> bool)
    requires forall op | op in ops :: '\0' !in op.payload
    ensures var favs, items := Favs(ops, w, known), Items(Lines(TextOf(Run(ops, w, known))));
            |items| == |favs| && forall i | 0 <= i < |favs| ::
                items[i] == ItemText((favs[i].kind, favs[i].id, favs[i].name))
  {
    hide Lines, Render, Run, Favs;
    var favs := Favs(ops, w, known);
    FavoriteRun(ops, w, known);
    SoundText(favs);
    ItemsOfSound(favs);
  }

  lemma {:induction false} ItemsOfSound(favs: seq<Favorite>)
    requires forall f | f in favs :: Sound(f)
    ensures |Items(LinesOf(favs))| == |favs|
    ensures forall i | 0 <= i < |favs| :: Items(LinesOf(favs))[i] == ItemText((favs[i].kind, favs[i].id, favs[i].name))
  {
    hide *;
    if favs == [] {
      assert Items(LinesOf([])) == [] by { NothingListed(); }
    } else {
      var f, rest := favs[0], favs[1..];
      assert f in favs && forall g | g in rest :: g in favs;
      ItemsOfSound(rest);
      SoundCut(f);
      assert LinesOf(favs) == [FavoriteLine(f)] + LinesOf(rest);
      ItemsStep(FavoriteLine(f), LinesOf(rest));
    }
  }

  lemma NothingListed()
    ensures Items(LinesOf([])) == []
  {}

  /** Exactly which typed numbers delete, and what. With a 32-bit `long` those that name an entry, so a number out of
      range deletes nothing. With a 64-bit `long` those within its range whose low 32 bits name an entry. */
  lemma {:induction false} NumberDeletes(favs: seq<Favorite>, k: int, w: LongWidth, known: Favorite -> bool)
    requires |favs| < INT_MAX
    ensures var next, n := Step(favs, DeleteOp(SignedDecimal(k)), w, known), ToInt32(Clamp(k, w));
            && (next == favs <==> !(1 <= n <= |favs|))
            && (1 <= n <= |favs| ==> next == favs[..n - 1] + favs[n..])
            && (-INT_MAX - 1 <= k <= INT_MAX ==> n == k)
            && (w == Long32 ==> (next == favs <==> !(1 <= k <= |favs|)))
            && (w == Long64 ==>
                  (next == favs <==> !(LongMin(w) <= k <= LongMax(w) && 1 <= k % 0x1_0000_0000 <= |favs|)))
  {
    hide SignedDecimal, StrToInt;
    StrToIntOfDecimal(k, w);
    var n := ToInt32(Clamp(k, w));
    if 1 <= n <= |favs| { assert |favs[..n - 1] + favs[n..]| == |favs| - 1; }
  }

  /** With a 64-bit `long` numbers out of range do delete, above and below. */
  lemma WrappedNumbersDelete(favs: seq<Favorite>, known: Favorite -> bool)
    requires 0 < |favs| < INT_MAX
    ensures Step(favs, DeleteOp(SignedDecimal(4294967297)), Long64, known) == favs[1..]
    ensures Step(favs, DeleteOp(SignedDecimal(-4294967295)), Long64, known) == favs[1..]
  {
    hide *;
    WrapToOne();
    NumberNamesOne(favs, 4294967297, known);
    NumberNamesOne(favs, -4294967295, known);
  }

  lemma WrapToOne()
    ensures ToInt32(Clamp(4294967297, Long64)) == 1 && ToInt32(Clamp(-4294967295, Long64)) == 1
  {}

  lemma NumberNamesOne(favs: seq<Favorite>, k: int, known: Favorite -> bool)
    requires 0 < |favs| < INT_MAX && ToInt32(Clamp(k, Long64)) == 1
    ensures Step(favs, DeleteOp(SignedDecimal(k)), Long64, known) == favs[1..]
  {
    hide SignedDecimal, Step, ToInt32, Clamp;
    NumberDeletes(favs, k, Long64, known);
    assert favs[..0] + favs[1..] == favs[1..];
  }

  lemma {:induction false} ItemsMember(lines: seq<string>, item: string)
    requires item in Items(lines)
    ensures exists l :: l in lines && ItemIn(l) == Some(item)
  {
    hide ItemIn;
    if ItemIn(lines[0]) == Some(item) {
      assert lines[0] in lines;
    } else {
      ItemsMember(lines[1..], item);
    }
  }

  lemma ItemHasNoEnd(line: string)
    requires '\n' !in line
    ensures ItemIn(line).Some? ==> '\n' !in ItemIn(line).value
  {}

  /** Whatever the file holds, the response is one whole line of complete items in file order, exactly when the buffer
      is at least two bytes longer than the header. */
  lemma FavoriteResponseWhole(text: string, response: string, size: nat)
    requires size > 0 && Outcome(response, FAVORITE_HEAD, Items(Lines(text)), FAVORITE_SLACK, size)
    ensures |response| < size
    ensures (response != "" && response[|response| - 1] == '\n' && '\n' !in response[..|response| - 1])
              <==> |FAVORITE_HEAD| + 2 <= size
  {
    hide Lines, Items, Outcome, ItemIn;
    var items := Items(Lines(text));
    forall t | t in items ensures '\n' !in t {
      ItemsMember(Lines(text), t);
      var l :| l in Lines(text) && ItemIn(l) == Some(t);
      LineHasNoEnd(text, l);
      ItemHasNoEnd(l);
    }
    WholeLineIff(response, FAVORITE_HEAD, items, FAVORITE_SLACK, size);
  }
}
