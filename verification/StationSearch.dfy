/**
 The station search of src/server/search_service.c. Its size guard keeps 300 bytes free in front of an item, whatever
 the item is; the fields of a station can take more, so here a response may end in a cut item and without its line end.
 */
module StationSearch {
  import opened Basics
  import opened Text
  import opened Responses
  import opened FixedGuard
  import opened Lookups

  const STATION_MAX := 20
  const STATION_ROOM := 300
  const RESPONSE_SIZE := 32768
  const STATION_HEAD := "SUBWAY_SEARCH_RES|0|"
  const STATION_NOT_FOUND := "SUBWAY_SEARCH_RES|1|\n"

  // ---------------------------------------------------------------- what the search finds

  datatype StationEntry = StationEntry(id: string, name: string, line: string, transfers: string, address: string)

  predicate StationMatches(s: StationEntry, keyword: string) {
    || KeywordMatch(s.name, keyword) || KeywordMatch(s.line, keyword) || KeywordMatch(s.transfers, keyword)
    || KeywordMatch(s.address, keyword) || s.id == keyword
  }

  function StationItem(s: StationEntry): string {
    s.id + ":" + s.name + ":" + s.line + ":" + (if s.transfers == "" then "-" else s.transfers)
  }

  function StationItems(ss: seq<StationEntry>, keyword: string): seq<string> {
    if ss == [] then []
    else (if StationMatches(ss[0], keyword) then [StationItem(ss[0])] else []) + StationItems(ss[1..], keyword)
  }

  lemma StationItemsNext(ss: seq<StationEntry>, keyword: string)
    ensures StationItems(ss, keyword) ==
            if ss == [] then []
            else if StationMatches(ss[0], keyword) then [StationItem(ss[0])] + StationItems(ss[1..], keyword)
            else StationItems(ss[1..], keyword)
  {
    hide StationMatches, StationItem;
  }

  // ---------------------------------------------------------------- what comes out

  /** The list closed by a line end if that fits; otherwise cut to the buffer, with none. */
  function Closed(items: seq<string>, k: nat, size: nat): string
    requires k <= |items| && size > 0
  {
    var l := Listed(STATION_HEAD, items, k);
    if |l + "\n"| < size then l + "\n" else SafeCopy(l, size)
  }

  ghost predicate StationOutcome(code: int, text: string, items: seq<string>, size: nat)
    requires size > 0
  {
    exists k :: Taken(STATION_HEAD, STATION_ROOM, items, size, k) &&
      if k == 0 then code == ERR_NOT_FOUND && text == SafeCopy(STATION_NOT_FOUND, size)
      else code == ERR_OK && text == Closed(items, k, size)
  }

  /** The buffer after `count` items; the last of them may have been cut. */
  ghost predicate Written(b: Buffer, items: seq<string>, count: nat)
    reads b, b.data
  {
    && b.Valid() && count <= |items|
    && b.text == SafeCopy(Listed(STATION_HEAD, items, count), b.data.Length)
    && forall i | 0 <= i < count :: Guarded(STATION_HEAD, STATION_ROOM, items, b.data.Length, i)
  }

  /** The guard, the separator and the item, cut if it does not fit. */
  method AddStation(b: Buffer, item: string, count: nat, ghost items: seq<string>) returns (ok: bool)
    requires Written(b, items, count) && count < |items| && item == items[count] && '\0' !in item
    modifies b, b.data
    ensures ok ==> Written(b, items, count + 1)
    ensures !ok ==> Written(b, items, count) && !Guarded(STATION_HEAD, STATION_ROOM, items, b.data.Length, count)
  {
    hide Listed, SafeCopy, Piece;
    CutShort(Listed(STATION_HEAD, items, count), b.data.Length);
    var used := b.Length();
    if used + STATION_ROOM >= b.data.Length { return false; }
    AddedPiece(items, count, b.text, b.data.Length);
    var done;
    if count > 0 { done := b.Append(";"); }
    done := b.Appendf(item);
    return true;
  }

  lemma AddedPiece(items: seq<string>, count: nat, was: string, size: nat)
    requires count < |items| && was == Listed(STATION_HEAD, items, count) && |was| + 1 < size
    ensures var front := if count == 0 then was else was + ";";
            front + SafeCopy(items[count], size - |front|) == SafeCopy(Listed(STATION_HEAD, items, count + 1), size)
  {
    hide Listed, SafeCopy;
    ListedNext(STATION_HEAD, items, count);
    var front := if count == 0 then was else was + ";";
    SeparatorFirst(was, items, count);
    CutShort(front, size);
    CopyMore(front, items[count], size);
  }

  lemma SeparatorFirst(was: string, items: seq<string>, count: nat)
    requires count < |items|
    ensures (if count == 0 then was else was + ";") + items[count] == was + Piece(items, count)
  {}

  /** `handle_subway_search`. */
  method SearchStations(ss: seq<StationEntry>, keyword: string, b: Buffer) returns (code: int)
    requires b.Valid() && forall s | s in ss :: '\0' !in StationItem(s)
    modifies b, b.data
    ensures b.Valid()
    ensures if IsBlank(keyword) || HasProtocolDelimiter(keyword)
            then code == ERR_INVALID_REQUEST && b.text == SafeCopy(INVALID, b.data.Length)
            else StationOutcome(code, b.text, FirstN(StationItems(ss, keyword), STATION_MAX), b.data.Length)
  {
    hide StationItem, StationMatches, StationItems, IsBlank, HasProtocolDelimiter, SafeCopy, Written,
         StationOutcome, FirstN, Guarded;
    if IsBlank(keyword) || HasProtocolDelimiter(keyword) {
      b.Set(INVALID);
      return ERR_INVALID_REQUEST;
    }
    ghost var all := StationItems(ss, keyword);
    ghost var items, taken := FirstN(all, STATION_MAX), [];
    b.Set(STATION_HEAD);
    NothingWritten(b, items);
    var count := 0;
    var rest := ss;
    assert all == taken + all;
    while rest != []
      invariant count == |taken| <= STATION_MAX && all == taken + StationItems(rest, keyword)
      invariant Written(b, items, count)
      invariant forall r | r in rest :: '\0' !in StationItem(r)
      decreases |rest|
    {
      var s := rest[0];
      StationItemsNext(rest, keyword);
      if StationMatches(s, keyword) {
        if count >= STATION_MAX { break; }
        NextItem(all, taken, STATION_MAX, StationItem(s), StationItems(rest[1..], keyword));
        var ok := AddStation(b, StationItem(s), count, items);
        if !ok { break; }
        count := count + 1;
        taken := taken + [StationItem(s)];
      }
      rest := rest[1..];
    }
    StationItemsNext(rest, keyword);
    AllTaken(all, taken, STATION_MAX, StationItems(rest, keyword));
    code := CloseList(b, count, items);
  }

  lemma NothingWritten(b: Buffer, items: seq<string>)
    requires b.Valid() && b.text == SafeCopy(STATION_HEAD, b.data.Length)
    ensures Written(b, items, 0)
  {
    ListedNone(STATION_HEAD, items);
  }

  lemma WrittenIs(b: Buffer, items: seq<string>, count: nat)
    requires Written(b, items, count)
    ensures b.Valid() && count <= |items| && b.text == SafeCopy(Listed(STATION_HEAD, items, count), b.data.Length)
    ensures count == |items| || !Guarded(STATION_HEAD, STATION_ROOM, items, b.data.Length, count) ==>
              Taken(STATION_HEAD, STATION_ROOM, items, b.data.Length, count)
  {}

  /** The empty answer, or the line end if there is room for it. */
  method CloseList(b: Buffer, count: nat, ghost items: seq<string>) returns (code: int)
    requires Written(b, items, count)
    requires count == |items| || !Guarded(STATION_HEAD, STATION_ROOM, items, b.data.Length, count)
    modifies b, b.data
    ensures b.Valid() && StationOutcome(code, b.text, items, b.data.Length)
  {
    hide Listed, SafeCopy, Taken, Guarded, Written;
    WrittenIs(b, items, count);
    assert Taken(STATION_HEAD, STATION_ROOM, items, b.data.Length, count);
    if count == 0 {
      b.Set(STATION_NOT_FOUND);
      return ERR_NOT_FOUND;
    }
    CutShort(Listed(STATION_HEAD, items, count), b.data.Length);
    var ok := b.Append("\n");
    assert b.text == Closed(items, count, b.data.Length);
    return ERR_OK;
  }

  lemma CutShort(s: string, size: nat)
    requires size > 0
    ensures |SafeCopy(s, size)| == Min(|s|, size - 1) && (|s| < size ==> SafeCopy(s, size) == s)
  {}

  // ---------------------------------------------------------------- when the response is whole

  predicate WholeLine(text: string) { text != "" && text[|text| - 1] == '\n' && '\n' !in text[..|text| - 1] }

  /** A response with items is a whole line exactly when all it lists and the line end fit. */
  lemma {:induction false} ClosedIsWhole(items: seq<string>, k: nat, size: nat)
    requires k <= |items| && size > 0 && forall t | t in items :: '\n' !in t
    ensures WholeLine(Closed(items, k, size)) <==> |Listed(STATION_HEAD, items, k) + "\n"| < size
  {
    hide Join;
    NoLineEnd(items[..k]);
    var l := Listed(STATION_HEAD, items, k);
    assert '\n' !in l;
    assert (l + "\n")[..|l|] == l;
    assert forall c | c in SafeCopy(l, size) :: c in l;
  }

  /** In every buffer what the search lists comes out as one whole line if and only if no item, with the separator in
      front of it, takes more than 299 bytes. */
  lemma WholeInAllBuffersIff(items: seq<string>)
    requires forall t | t in items :: '\n' !in t
    ensures (forall size: nat | size > 0 :: WholeIn(items, size))
       <==> (forall i | 0 <= i < |items| :: |Piece(items, i)| < STATION_ROOM)
  {
    hide WholeIn, FitsIn;
    forall size: nat | size > 0 ensures WholeIn(items, size) <==> FitsIn(STATION_HEAD, STATION_ROOM, items, size) {
      WholeIsFitting(items, size);
    }
    FitsInAllBuffersIff(STATION_HEAD, STATION_ROOM, items);
  }

  /** Whatever the guard lets through comes out as a whole line. */
  ghost predicate WholeIn(items: seq<string>, size: nat)
    requires size > 0
  {
    forall k | 0 < k <= |items| && Taken(STATION_HEAD, STATION_ROOM, items, size, k) ::
        WholeLine(Closed(items, k, size))
  }

  lemma WholeIsFitting(items: seq<string>, size: nat)
    requires size > 0 && forall t | t in items :: '\n' !in t
    ensures WholeIn(items, size) <==> FitsIn(STATION_HEAD, STATION_ROOM, items, size)
  {
    hide Taken, Listed, Closed, WholeLine;
    forall k | 0 < k <= |items|
      ensures WholeLine(Closed(items, k, size)) <==> |Listed(STATION_HEAD, items, k) + "\n"| < size
    {
      ClosedIsWhole(items, k, size);
    }
  }

  /** Fields within their buffers. */
  ghost predicate Loaded(s: StationEntry) { |s.id| <= 31 && |s.name| <= 99 && |s.line| <= 127 && |s.transfers| <= 99 }

  /** Stations whose fields fill their buffers have items above that: up to 359 bytes. */
  lemma ItemSize(s: StationEntry)
    requires Loaded(s)
    ensures |StationItem(s)| <= 359
    ensures |s.id| == 31 && |s.name| == 99 && |s.line| == 127 && |s.transfers| == 99 ==>
              |StationItem(s)| >= STATION_ROOM
  {}

  lemma {:induction false} ItemSizes(ss: seq<StationEntry>, keyword: string)
    requires forall s | s in ss :: Loaded(s)
    ensures forall t | t in StationItems(ss, keyword) :: |t| <= 359
  {
    hide StationMatches, StationItem, Loaded;
    if ss != [] {
      assert ss[0] in ss;
      ItemSize(ss[0]);
      ItemSizes(ss[1..], keyword);
    }
  }

  /** In the buffer of 32768 bytes the server passes, twenty stations always come out as one whole line. */
  lemma WholeInServerBuffer(ss: seq<StationEntry>, keyword: string, k: nat)
    requires forall s | s in ss :: Loaded(s)
    ensures var items := FirstN(StationItems(ss, keyword), STATION_MAX);
            k <= |items| ==> |Listed(STATION_HEAD, items, k) + "\n"| < RESPONSE_SIZE
  {
    hide StationItems, Listed;
    ItemSizes(ss, keyword);
    var items := FirstN(StationItems(ss, keyword), STATION_MAX);
    if k <= |items| {
      forall i | 0 <= i < |items| ensures |Piece(items, i)| <= 360 { assert items[i] in StationItems(ss, keyword); }
      ListedSize(STATION_HEAD, items, k, 360);
    }
  }
}
