/**
 The bus search of src/server/search_service.c: three passes over the routes, best rank first, with a string of
 "|key|" entries as the set of routes already shown. Rank, label and names of a route for a keyword are given.
 */
module BusSearch {
  import opened Basics
  import opened Text
  import opened Appending
  import opened FixedGuard

  const NEEDLE_SIZE := 132
  const KEYS_SIZE := 4096
  const KEY_SIZE := 336
  const MAX_MATCHES := 10
  const ITEM_ROOM := 700
  const BASE_SIZE := 457
  const NAME_SIZE := 100
  const BUS_HEAD := "BUS_SEARCH_RES|0|"
  const BUS_NOT_FOUND := "BUS_SEARCH_RES|1|\n"

  // ---------------------------------------------------------------- the seen-set in a string

  function Entry(k: string): string { "|" + k + "|" }

  function KeysText(ks: seq<string>): string {
    if ks == [] then "" else KeysText(ks[..|ks| - 1]) + Entry(ks[|ks| - 1])
  }

  function Needle(key: string): string { SafeCopy("|" + key + "|", NEEDLE_SIZE) }

  /** `route_key_exists`. */
  predicate RouteKeyExists(keys: string, key: string) { key != "" && Occurs(Needle(key), keys) }

  /** What the string search amounts to: membership for keys of at most 129 bytes; for longer ones the closing bar
      falls off the needle, and any stored key with the same first 130 bytes is taken for it. */
  predicate Clash(ks: seq<string>, key: string) {
    if |key| <= NEEDLE_SIZE - 3 then key in ks else exists k | k in ks :: key[..NEEDLE_SIZE - 2] <= k
  }

  ghost predicate BarFree(k: string) { k != "" && '|' !in k }

  lemma {:induction false} KeysTextFront(k: string, ks: seq<string>)
    ensures KeysText([k] + ks) == Entry(k) + KeysText(ks)
  {
    hide *;
    if ks == [] {
      assert [k] + ks == [] + [k];
      KeysTextNext([], k);
    } else {
      var front, last := ks[..|ks| - 1], ks[|ks| - 1];
      KeysTextFront(k, front);
      assert ks == front + [last] && [k] + ks == ([k] + front) + [last];
      KeysTextNext([k] + front, last);
      KeysTextNext(front, last);
      assert Entry(k) + (KeysText(front) + Entry(last)) == (Entry(k) + KeysText(front)) + Entry(last);
    }
  }

  lemma KeysTextNext(ks: seq<string>, k: string)
    ensures KeysText(ks + [k]) == KeysText(ks) + Entry(k) && KeysText([]) == ""
  {
    hide Entry;
    assert (ks + [k])[..|ks|] == ks;
  }

  /** Whether the needle of `key` matches at the entry of `k`. */
  predicate Matches(key: string, k: string) {
    if |key| <= NEEDLE_SIZE - 3 then key == k else key[..NEEDLE_SIZE - 2] <= k
  }

  lemma NeedleShape(key: string)
    requires BarFree(key)
    ensures var n := Needle(key);
            && |n| >= 2 && n[0] == '|' && n[1] != '|'
            && (|key| <= NEEDLE_SIZE - 3 ==> n == "|" + key + "|")
            && (|key| > NEEDLE_SIZE - 3 ==> n == "|" + key[..NEEDLE_SIZE - 2])
  {
    assert key[0] in key;
    if |key| > NEEDLE_SIZE - 3 { assert ("|" + key + "|")[..NEEDLE_SIZE - 1] == "|" + key[..NEEDLE_SIZE - 2]; }
  }

  lemma OccursHeads(n: string, s: string)
    requires |n| >= 2
    ensures forall i | OccursAt(n, s, i) :: s[i] == n[0] && s[i + 1] == n[1]
  {}

  lemma MatchPrefix(p: string, k: string, rest: string)
    requires '|' !in p
    ensures OccursAt("|" + p, Entry(k) + rest, 0) <==> p <= k
  {
    var n, s := "|" + p, Entry(k) + rest;
    assert s == "|" + (k + "|" + rest);
    BarredPrefix(p, k, rest);
    if OccursAt(n, s, 0) {
      assert s[0..|n|] == n;
      assert s[1..][..|p|] == p;
    }
    if p <= k { assert s[..|n|] == n; }
  }

  /** Text without a bar that opens what follows lies in front of the first bar. */
  lemma BarredPrefix(p: string, k: string, rest: string)
    requires '|' !in p
    ensures p <= k + "|" + rest <==> p <= k
  {
    var s := k + "|" + rest;
    assert |p| > |k| ==> p[|k|] in p;
    assert s[|k|] == '|' && s[..|k|] == k;
    assert p <= s && |p| <= |k| ==> p == s[..|k|][..|p|];
  }

  lemma MatchWhole(key: string, k: string, rest: string)
    requires '|' !in key && '|' !in k
    ensures OccursAt(Entry(key), Entry(k) + rest, 0) <==> key == k
  {
    var n, s := Entry(key), Entry(k) + rest;
    MatchPrefix(key, k, rest);
    assert n[..|key| + 1] == "|" + key && n[|key| + 1] == '|';
    assert forall i | 0 <= i < |k| :: s[i + 1] == k[i] && k[i] in k;
    if OccursAt(n, s, 0) {
      assert s[..|key| + 1] == "|" + key;
      assert s[|key| + 1] == '|';
    }
    if key == k { assert s[..|n|] == n; }
  }

  /** At the opening bar of an entry the needle matches exactly when the keys do. */
  lemma MatchAtEntry(key: string, k: string, rest: string)
    requires BarFree(key) && BarFree(k)
    ensures OccursAt(Needle(key), Entry(k) + rest, 0) <==> Matches(key, k)
  {
    NeedleShape(key);
    hide Needle, OccursAt;
    if |key| <= NEEDLE_SIZE - 3 {
      MatchWhole(key, k, rest);
    } else {
      assert '|' !in key[..NEEDLE_SIZE - 2];
      MatchPrefix(key[..NEEDLE_SIZE - 2], k, rest);
    }
  }

  /** Nowhere else in the text of an entry can the needle match. */
  lemma NoMatchInside(key: string, k: string, rest: string)
    requires BarFree(key) && BarFree(k) && (rest == "" || rest[0] == '|')
    ensures forall i | 0 < i < |k| + 2 :: !OccursAt(Needle(key), Entry(k) + rest, i)
  {
    NeedleShape(key);
    hide Needle;
    var n, s := Needle(key), Entry(k) + rest;
    OccursHeads(n, s);
    assert forall j | 0 <= j < |k| :: s[j + 1] == k[j] && k[j] in k;
    assert rest != "" ==> s[|k| + 2] == rest[0];
  }

  lemma {:induction false} KeysTextOpens(ks: seq<string>)
    ensures KeysText(ks) == "" || KeysText(ks)[0] == '|'
  {
    if ks != [] {
      assert ks == [ks[0]] + ks[1..];
      KeysTextFront(ks[0], ks[1..]);
    }
  }

  /** The string search is exact: it finds a key if and only if it clashes with a stored one. */
  lemma {:induction false} SeenIsClash(ks: seq<string>, key: string)
    requires BarFree(key) && forall k | k in ks :: BarFree(k)
    ensures RouteKeyExists(KeysText(ks), key) <==> exists k :: k in ks && Matches(key, k)
    ensures RouteKeyExists(KeysText(ks), key) <==> Clash(ks, key)
  {
    var n := Needle(key);
    NeedleShape(key);
    if ks == [] {
    } else {
      hide Needle, Matches, BarFree, KeysText;
      var k, rest := ks[0], ks[1..];
      assert ks == [k] + rest && k in ks && forall m | m in rest :: m in ks;
      SeenIsClash(rest, key);
      KeysTextFront(k, rest);
      KeysTextOpens(rest);
      MatchAtEntry(key, k, KeysText(rest));
      OccursSplit(n, k, KeysText(rest), key);
    }
    ClashIsMatch(ks, key);
  }

  lemma ClashIsMatch(ks: seq<string>, key: string)
    ensures Clash(ks, key) <==> exists k :: k in ks && Matches(key, k)
  {}

  lemma OccursSplit(n: string, k: string, rest: string, key: string)
    requires BarFree(key) && BarFree(k) && n == Needle(key) && (rest == "" || rest[0] == '|')
    ensures var s := Entry(k) + rest; Occurs(n, s) <==> OccursAt(n, s, 0) || Occurs(n, rest)
  {
    NoMatchInside(key, k, rest);
    hide Needle, BarFree;
    var s := Entry(k) + rest;
    var d := |k| + 2;
    assert s[d..] == rest;
    forall i | 0 <= i <= |rest| - |n| ensures OccursAt(n, rest, i) == OccursAt(n, s, i + d) {
      assert s[i + d..i + d + |n|] == rest[i..i + |n|];
    }
    if Occurs(n, s) {
      var i :| 0 <= i <= |s| - |n| && OccursAt(n, s, i);
      if i >= d { assert OccursAt(n, rest, i - d); }
    }
    if Occurs(n, rest) {
      var i :| 0 <= i <= |rest| - |n| && OccursAt(n, rest, i);
      assert OccursAt(n, s, i + d);
    }
  }

  /** With keys of at most 129 bytes the search is set membership. */
  lemma ShortKeysExact(ks: seq<string>, key: string)
    requires BarFree(key) && (forall k | k in ks :: BarFree(k)) && |key| <= NEEDLE_SIZE - 3
    ensures RouteKeyExists(KeysText(ks), key) <==> key in ks
  {
    SeenIsClash(ks, key);
  }

  // ---------------------------------------------------------------- what the search should find

  /** A route as the search sees it for one keyword: its rank (0 when it does not match), its key (none when it has
      no displayable label), the fixed fields of its item and the names of its stops. */
  datatype Candidate = Candidate(rank: int, key: Option<string>, base: string, stops: seq<string>)

  /** The item of a route in full. */
  function ItemOf(c: Candidate): string { c.base + (if c.stops == [] then "-" else Join(c.stops, ",")) }

  predicate Wanted(c: Candidate, rank: int) { c.rank == rank && c.key.Some? }

  function OfRank(cs: seq<Candidate>, rank: int): seq<Candidate> {
    if cs == [] then []
    else OfRank(cs[..|cs| - 1], rank) + (if Wanted(cs[|cs| - 1], rank) then [cs[|cs| - 1]] else [])
  }

  /** The displayable matches, best rank first, in list order within a rank. */
  function Ranked(cs: seq<Candidate>): seq<Candidate> { OfRank(cs, 1) + OfRank(cs, 2) + OfRank(cs, 3) }

  function KeyOf(c: Candidate): string {
    match c.key
    case None => ""
    case Some(k) => k
  }

  function KeysOf(cs: seq<Candidate>): (ks: seq<string>)
    ensures |ks| == |cs| && forall i | 0 <= i < |cs| :: ks[i] == KeyOf(cs[i])
  {
    seq(|cs|, i requires 0 <= i < |cs| => KeyOf(cs[i]))
  }

  function ItemsOf(cs: seq<Candidate>): (items: seq<string>)
    ensures |items| == |cs| && forall i | 0 <= i < |cs| :: items[i] == ItemOf(cs[i])
  {
    seq(|cs|, i requires 0 <= i < |cs| => ItemOf(cs[i]))
  }

  /** The candidates that clash with none kept before them. */
  function Dedup(cs: seq<Candidate>): seq<Candidate> {
    if cs == [] then []
    else
      var kept, c := Dedup(cs[..|cs| - 1]), cs[|cs| - 1];
      if Clash(KeysOf(kept), KeyOf(c)) then kept else kept + [c]
  }

  function FirstTen(cs: seq<Candidate>): seq<Candidate> {
    if |cs| <= MAX_MATCHES then cs else cs[..MAX_MATCHES]
  }

  function Found(cs: seq<Candidate>): seq<Candidate> { FirstTen(Dedup(Ranked(cs))) }

  /** A plain de-duplication: a candidate stays when no earlier one has its key. */
  function FirstsOfKeys(cs: seq<Candidate>): seq<Candidate> {
    if cs == [] then []
    else
      var c := cs[|cs| - 1];
      FirstsOfKeys(cs[..|cs| - 1]) + (if KeyOf(c) in KeysOf(cs[..|cs| - 1]) then [] else [c])
  }

  // ---------------------------------------------------------------- facts for the loops

  lemma DedupSnoc(cs: seq<Candidate>, c: Candidate)
    ensures Dedup(cs + [c]) == if Clash(KeysOf(Dedup(cs)), KeyOf(c)) then Dedup(cs) else Dedup(cs) + [c]
  {
    hide Clash;
    assert (cs + [c])[..|cs|] == cs;
  }

  lemma {:induction false} DedupGrows(cs: seq<Candidate>, ds: seq<Candidate>)
    ensures Dedup(cs) <= Dedup(cs + ds)
  {
    if ds == [] {
      assert cs + ds == cs;
    } else {
      DedupGrows(cs, ds[..|ds| - 1]);
      assert cs + ds == (cs + ds[..|ds| - 1]) + [ds[|ds| - 1]];
      DedupSnoc(cs + ds[..|ds| - 1], ds[|ds| - 1]);
    }
  }

  lemma OfRankSnoc(cs: seq<Candidate>, i: nat, rank: int)
    requires i < |cs|
    ensures OfRank(cs[..i + 1], rank) == OfRank(cs[..i], rank) + (if Wanted(cs[i], rank) then [cs[i]] else [])
  {
    assert cs[..i + 1][..i] == cs[..i];
  }

  lemma {:induction false} OfRankPrefix(cs: seq<Candidate>, i: nat, rank: int) returns (tail: seq<Candidate>)
    requires i <= |cs|
    ensures OfRank(cs, rank) == OfRank(cs[..i], rank) + tail
    decreases |cs|
  {
    if i == |cs| {
      assert cs[..i] == cs;
      tail := [];
    } else {
      var n := |cs| - 1;
      assert cs[..n][..i] == cs[..i];
      var t := OfRankPrefix(cs[..n], i, rank);
      tail := t + (if Wanted(cs[n], rank) then [cs[n]] else []);
    }
  }

  /** Candidates are routes of the loaded data: keys without bars, and all texts within their buffers. */
  ghost predicate Loaded(cs: seq<Candidate>) {
    forall c | c in cs :: RouteFits(c) && (c.key.Some? ==> StoredKey(c.key.value))
  }

  ghost predicate StoredKey(k: string) { BarFree(k) && '\0' !in k && |k| < KEY_SIZE }

  ghost predicate RouteFits(c: Candidate) {
    '\0' !in c.base && |c.base| < BASE_SIZE && forall n | n in c.stops :: '\0' !in n && |n| < NAME_SIZE
  }

  // ---------------------------------------------------------------- what comes out

  /** `append_bus_route_item` behind its guard: separator and fixed fields, then the stops one by one, each name and
      each comma left out if it does not fit. */
  function AddRoute(t: string, c: Candidate, first: bool, size: nat): (r: string)
    requires |t| < size
    ensures |t| <= |r| < size
  {
    var base := PutCut(if first then t else Put(t, ";", size), c.base, size);
    if c.stops == [] then Put(base, "-", size) else PutList(base, c.stops, ",", |c.stops|, size)
  }

  /** The response once the candidates in `shown` have been added, as far as they fit. */
  function Listing(shown: seq<Candidate>, size: nat): (r: string)
    requires size > 0
    ensures |r| < size
  {
    if shown == [] then SafeCopy(BUS_HEAD, size)
    else AddRoute(Listing(shown[..|shown| - 1], size), shown[|shown| - 1], |shown| == 1, size)
  }

  /** The response with every item in full. */
  function Response(shown: seq<Candidate>): string { Listed(BUS_HEAD, ItemsOf(shown), |shown|) }

  /** The size guard in front of an item. */
  predicate Full(text: string, size: nat) { |text| + ITEM_ROOM >= size }

  /** What is shown of `found`: everything up to the first item the guard refuses. */
  ghost predicate ShownPart(found: seq<Candidate>, shown: seq<Candidate>, size: nat)
    requires size > 0
  {
    && shown <= found
    && (forall i | 0 <= i < |shown| :: !Full(Listing(found[..i], size), size))
    && (shown != found ==> Full(Listing(shown, size), size))
  }

  /** With room for the whole item, the whole item is added. */
  lemma AddRouteFits(t: string, c: Candidate, first: bool, size: nat)
    requires |t + (if first then "" else ";") + ItemOf(c)| < size
    ensures AddRoute(t, c, first, size) == t + (if first then "" else ";") + ItemOf(c)
  {
    hide Join, PutList;
    assert t + "" == t;
    var front := t + (if first then "" else ";");
    var base := front + c.base;
    if c.stops != [] {
      PutListFits(base, c.stops, ",", |c.stops|, size);
      JoinedGrows(base, c.stops, ",", |c.stops|);
      assert base + Join(c.stops, ",") == front + ItemOf(c);
    } else {
      assert base + "-" == front + ItemOf(c);
    }
  }

  /** Without it something is left out, and then the guard has no room for another item. */
  lemma AddRouteFills(t: string, c: Candidate, first: bool, size: nat)
    requires |t| < size && RouteFits(c) && |t + (if first then "" else ";") + ItemOf(c)| >= size
    ensures Full(AddRoute(t, c, first, size), size)
  {
    hide Join, PutList;
    var base := PutCut(if first then t else Put(t, ";", size), c.base, size);
    if c.stops != [] {
      PutListExactOrLost(base, c.stops, ",", |c.stops|, size);
      JoinedGrows(base, c.stops, ",", |c.stops|);
      assert forall j | 0 <= j < |c.stops| :: c.stops[j] in c.stops;
    }
  }

  lemma ResponseSnoc(shown: seq<Candidate>, c: Candidate)
    ensures Response(shown + [c]) == Response(shown) + (if shown == [] then "" else ";") + ItemOf(c)
  {
    hide ItemOf, Listed, Piece;
    var items := ItemsOf(shown);
    assert ItemsOf(shown + [c]) == items + [ItemOf(c)];
    ListedNext(BUS_HEAD, items + [ItemOf(c)], |items|);
    ListedPrefix(items, ItemOf(c));
    PieceLast(items, ItemOf(c), Response(shown));
  }

  lemma ListedPrefix(items: seq<string>, item: string)
    ensures Listed(BUS_HEAD, items + [item], |items|) == Listed(BUS_HEAD, items, |items|)
  {
    assert (items + [item])[..|items|] == items[..|items|];
  }

  lemma PieceLast(items: seq<string>, item: string, t: string)
    ensures t + Piece(items + [item], |items|) == t + (if items == [] then "" else ";") + item
  {
    assert t + "" == t;
    assert t + (";" + item) == t + ";" + item;
  }

  lemma ListingSnoc(shown: seq<Candidate>, c: Candidate, size: nat)
    requires size > 0
    ensures Listing(shown + [c], size) == AddRoute(Listing(shown, size), c, shown == [], size)
  {
    hide AddRoute;
    assert (shown + [c])[..|shown|] == shown;
  }

  /** As long as the response in full fits, it is what the buffer holds; once it does not, the
      guard lets nothing through. */
  lemma {:induction false} ListingIs(shown: seq<Candidate>, size: nat)
    requires size > 0 && Loaded(shown)
    ensures |Response(shown)| < size ==> Listing(shown, size) == Response(shown)
    ensures |Response(shown)| >= size ==> Full(Listing(shown, size), size)
  {
    if shown == [] {
      ListedNone(BUS_HEAD, ItemsOf(shown));
    } else {
      hide *;
      var front, c := shown[..|shown| - 1], shown[|shown| - 1];
      assert shown == front + [c];
      LoadedSplit(front, c);
      ListingIs(front, size);
      ListingStep(front, c, size);
    }
  }

  lemma LoadedSplit(front: seq<Candidate>, c: Candidate)
    requires Loaded(front + [c])
    ensures Loaded(front) && RouteFits(c)
  {
    hide RouteFits, StoredKey;
    assert (front + [c])[|front|] == c;
    assert forall d | d in front :: d in front + [c];
  }

  lemma ListingStep(front: seq<Candidate>, c: Candidate, size: nat)
    requires size > 0 && RouteFits(c)
    requires |Response(front)| < size ==> Listing(front, size) == Response(front)
    requires |Response(front)| >= size ==> Full(Listing(front, size), size)
    ensures |Response(front + [c])| < size ==> Listing(front + [c], size) == Response(front + [c])
    ensures |Response(front + [c])| >= size ==> Full(Listing(front + [c], size), size)
  {
    hide AddRoute, Response, RouteFits, ItemOf, Listing;
    ResponseSnoc(front, c);
    ListingSnoc(front, c, size);
    if |Response(front + [c])| < size {
      AddRouteFits(Listing(front, size), c, front == [], size);
    } else if |Response(front)| < size {
      AddRouteFills(Listing(front, size), c, front == [], size);
    }
  }

  lemma GuardSame(found: seq<Candidate>, i: nat, size: nat)
    requires size > 0 && Loaded(found) && i <= |found|
    ensures Full(Listing(found[..i], size), size) <==> !Guarded(BUS_HEAD, ITEM_ROOM, ItemsOf(found), size, i)
    ensures Response(found[..i]) == Listed(BUS_HEAD, ItemsOf(found), i)
  {
    hide AddRoute, RouteFits, StoredKey, ItemOf, Join, Listing;
    assert forall d | d in found[..i] :: d in found;
    ListingIs(found[..i], size);
    assert ItemsOf(found[..i])[..i] == ItemsOf(found)[..i];
  }

  /** So what is shown is what the guard admits of the items in full. */
  lemma ShownIsTaken(found: seq<Candidate>, shown: seq<Candidate>, size: nat)
    requires size > 0 && Loaded(found)
    ensures ShownPart(found, shown, size) <==>
            shown <= found && Taken(BUS_HEAD, ITEM_ROOM, ItemsOf(found), size, |shown|)
  {
    hide Loaded, Listing, Full, Guarded, ItemOf;
    if shown <= found {
      forall i | 0 <= i <= |shown|
        ensures Full(Listing(found[..i], size), size) <==> !Guarded(BUS_HEAD, ITEM_ROOM, ItemsOf(found), size, i)
      {
        GuardSame(found, i, size);
      }
      assert found[..|shown|] == shown;
    }
  }

  /** A response with items is complete, every item in full and the line end behind the last, exactly when that fits. */
  lemma CompleteIff(shown: seq<Candidate>, size: nat)
    requires size > 0 && Loaded(shown)
    ensures Put(Listing(shown, size), "\n", size) == Response(shown) + "\n" <==> |Response(shown) + "\n"| < size
  {
    hide Loaded, Listing, Response;
    ListingIs(shown, size);
  }

  ghost predicate CompleteIn(found: seq<Candidate>, size: nat)
    requires size > 0
  {
    forall shown | shown != [] && ShownPart(found, shown, size) ::
      Put(Listing(shown, size), "\n", size) == Response(shown) + "\n"
  }

  lemma CompleteIsFitting(found: seq<Candidate>, size: nat)
    requires size > 0 && Loaded(found)
    ensures CompleteIn(found, size) <==> FitsIn(BUS_HEAD, ITEM_ROOM, ItemsOf(found), size)
  {
    hide Loaded, Listing, Response, ShownPart, Taken, ItemOf, Listed, Put;
    forall k | 0 <= k <= |found|
      ensures ShownPart(found, found[..k], size) <==> Taken(BUS_HEAD, ITEM_ROOM, ItemsOf(found), size, k)
      ensures Put(Listing(found[..k], size), "\n", size) == Response(found[..k]) + "\n"
         <==> |Listed(BUS_HEAD, ItemsOf(found), k) + "\n"| < size
    {
      ShownIsTaken(found, found[..k], size);
      GuardSame(found, k, size);
      LoadedFront(found, k);
      CompleteIff(found[..k], size);
    }
    if FitsIn(BUS_HEAD, ITEM_ROOM, ItemsOf(found), size) {
      forall shown | shown != [] && ShownPart(found, shown, size)
        ensures Put(Listing(shown, size), "\n", size) == Response(shown) + "\n"
      {
        ShownIsTaken(found, shown, size);
        assert shown == found[..|shown|];
      }
    } else {
      var k :| 0 < k <= |found| && Taken(BUS_HEAD, ITEM_ROOM, ItemsOf(found), size, k)
               && |Listed(BUS_HEAD, ItemsOf(found), k) + "\n"| >= size;
      assert found[..k] != [] && ShownPart(found, found[..k], size);
    }
  }

  lemma LoadedFront(found: seq<Candidate>, k: nat)
    requires Loaded(found) && k <= |found|
    ensures Loaded(found[..k])
  {
    hide RouteFits, StoredKey;
    assert forall d | d in found[..k] :: d in found;
  }

  /** In every buffer what the search shows comes out complete if and only if no item, with the separator in front of
      it, takes more than 699 bytes. */
  lemma CompleteInAllBuffersIff(found: seq<Candidate>)
    requires Loaded(found)
    ensures (forall size: nat | size > 0 :: CompleteIn(found, size))
       <==> (forall i | 0 <= i < |found| :: |Piece(ItemsOf(found), i)| < ITEM_ROOM)
  {
    hide CompleteIn, FitsIn, Loaded, ItemOf;
    forall size: nat | size > 0 ensures CompleteIn(found, size) <==> FitsIn(BUS_HEAD, ITEM_ROOM, ItemsOf(found), size) {
      CompleteIsFitting(found, size);
    }
    FitsInAllBuffersIff(BUS_HEAD, ITEM_ROOM, ItemsOf(found));
  }

  /** What is found is loaded data too. */
  lemma FoundLoaded(cs: seq<Candidate>)
    requires Loaded(cs)
    ensures Loaded(Found(cs))
  {
    hide OfRank, Dedup, RouteFits, StoredKey;
    OfRankMember(cs, 1);
    OfRankMember(cs, 2);
    OfRankMember(cs, 3);
    DedupMember(Ranked(cs));
    assert forall c | c in Found(cs) :: c in Dedup(Ranked(cs));
  }

  /** In particular for what a search of loaded data finds. */
  lemma FoundCompleteIff(cs: seq<Candidate>)
    requires Loaded(cs)
    ensures (forall size: nat | size > 0 :: CompleteIn(Found(cs), size))
       <==> (forall i | 0 <= i < |Found(cs)| :: |Piece(ItemsOf(Found(cs)), i)| < ITEM_ROOM)
  {
    hide *;
    FoundLoaded(cs);
    CompleteInAllBuffersIff(Found(cs));
  }

  /** If the guard still has room after everything found, everything is shown. */
  lemma AllShown(found: seq<Candidate>, shown: seq<Candidate>, size: nat)
    requires size > 0 && Loaded(found) && ShownPart(found, shown, size) && !Full(Response(found), size)
    ensures shown == found
  {
    hide Loaded, Listing, ItemOf, Listed;
    ShownIsTaken(found, shown, size);
    ListedGrows(BUS_HEAD, ItemsOf(found), |shown|, |found|);
  }

  /** Whether another candidate could still be shown. */
  predicate Open(text: string, shown: seq<Candidate>, size: nat) { |shown| < MAX_MATCHES && !Full(text, size) }

  /** What the two buffers hold after the candidates `before`; once nothing more can be shown, the
      keys do not matter. */
  ghost predicate Holding(keys: Buffer, b: Buffer, shown: seq<Candidate>, before: seq<Candidate>)
    reads keys, keys.data, b, b.data
  {
    && keys.Valid() && b.Valid() && keys.data != b.data && keys != b && keys.data.Length == KEYS_SIZE
    && b.text == Listing(shown, b.data.Length)
    && |shown| <= MAX_MATCHES && shown <= Dedup(before) && Loaded(shown) && Displayable(shown)
    && (forall i | 0 <= i < |shown| :: !Full(Listing(shown[..i], b.data.Length), b.data.Length))
    && (Open(b.text, shown, b.data.Length) ==> shown == Dedup(before) && keys.text == KeysText(KeysOf(shown)))
  }

  lemma {:induction false} KeysTextSize(ks: seq<string>)
    requires forall k | k in ks :: |k| < KEY_SIZE
    ensures |KeysText(ks)| <= |ks| * (KEY_SIZE + 1)
  {
    if ks != [] {
      assert ks[|ks| - 1] in ks;
      KeysTextSize(ks[..|ks| - 1]);
    }
  }

  /** The keys of ten candidates always fit. */
  lemma KeysFit(kept: seq<Candidate>)
    requires |kept| <= MAX_MATCHES && Loaded(kept) && Displayable(kept)
    ensures |KeysText(KeysOf(kept))| < KEYS_SIZE
  {
    hide KeysText, BarFree;
    forall k | k in KeysOf(kept) ensures |k| < KEY_SIZE {
      var i :| 0 <= i < |kept| && KeysOf(kept)[i] == k;
      assert kept[i] in kept;
    }
    KeysTextSize(KeysOf(kept));
  }

  lemma SnocKeys(shown: seq<Candidate>, c: Candidate)
    ensures KeysText(KeysOf(shown + [c])) == KeysText(KeysOf(shown)) + Entry(KeyOf(c))
  {
    hide Entry;
    var ks := KeysOf(shown);
    assert KeysOf(shown + [c]) == ks + [KeyOf(c)] && (ks + [KeyOf(c)])[..|ks|] == ks;
  }

  // ---------------------------------------------------------------- the search

  /** `mark_bus_route_seen` and, for a route not seen before, the rest of the loop body. */
  method Consider(c: Candidate, keys: Buffer, b: Buffer, shown: seq<Candidate>, ghost before: seq<Candidate>)
    returns (now: seq<Candidate>, stop: bool)
    requires Holding(keys, b, shown, before) && c.key.Some? && Loaded(shown + [c])
    modifies keys, keys.data, b, b.data
    ensures Holding(keys, b, now, before + [c])
    ensures stop ==> !Open(b.text, now, b.data.Length)
  {
    hide Dedup, Join, KeysText, RouteKeyExists, Clash, StoredKey, BarFree, RouteFits, Loaded, Displayable, FirstTen,
         Listing, AddRoute;
    DedupSnoc(before, c);
    LoadedKeys(shown, c);
    ghost var open := Open(b.text, shown, b.data.Length);
    now := shown;
    var seen := keys.Read();
    if open { SeenIsClash(KeysOf(shown), KeyOf(c)); }
    if RouteKeyExists(seen, KeyOf(c)) { return now, false; }
    KeysRoom(shown, c);
    var marked := keys.Appendf(Entry(KeyOf(c)));
    if !marked { return now, false; }
    if |shown| >= MAX_MATCHES { return now, true; }
    var added := AppendRoute(b, c, |shown|);
    if !added { return now, true; }
    ListingSnoc(shown, c, b.data.Length);
    now := shown + [c];
    stop := false;
  }

  lemma KeysRoom(shown: seq<Candidate>, c: Candidate)
    requires Loaded(shown + [c]) && Displayable(shown + [c])
    ensures KeysText(KeysOf(shown + [c])) == KeysText(KeysOf(shown)) + Entry(KeyOf(c))
    ensures |shown| < MAX_MATCHES ==> |KeysText(KeysOf(shown))| + |Entry(KeyOf(c))| < KEYS_SIZE
    ensures forall i | 0 <= i <= |shown| :: (shown + [c])[..i] == shown[..i]
  {
    hide Loaded, Displayable, KeysText, Entry;
    SnocKeys(shown, c);
    if |shown| < MAX_MATCHES { KeysFit(shown + [c]); }
  }

  lemma LoadedKeys(shown: seq<Candidate>, c: Candidate)
    requires Loaded(shown + [c]) && c.key.Some? && Displayable(shown)
    ensures BarFree(KeyOf(c)) && (forall k | k in KeysOf(shown) :: BarFree(k))
    ensures '\0' !in Entry(KeyOf(c)) && RouteFits(c) && Loaded(shown) && Displayable(shown + [c])
  {
    hide BarFree, RouteFits;
    var all := shown + [c];
    assert all[|shown|] == c && c in all && forall d | d in shown :: d in all;
  }

  ghost predicate Displayable(cs: seq<Candidate>) { forall d | d in cs :: d.key.Some? }

  /** `append_bus_route_item`. */
  method AppendRoute(b: Buffer, c: Candidate, index: nat) returns (ok: bool)
    requires b.Valid() && RouteFits(c)
    modifies b, b.data
    ensures b.Valid() && ok == !Full(old(b.text), b.data.Length)
    ensures b.text == if ok then AddRoute(old(b.text), c, index == 0, b.data.Length) else old(b.text)
  {
    hide Put, PutCut, PutList;
    var used := b.Length();
    if used + ITEM_ROOM >= b.data.Length { return false; }
    var done;
    if index > 0 { done := PutText(b, ";"); }
    done := PutFormatted(b, c.base);
    if !done { return false; }
    if c.stops == [] {
      done := PutText(b, "-");
    } else {
      AppendList(b, c.stops, ",");
    }
    return true;
  }

  lemma {:induction false} OfRankMember(cs: seq<Candidate>, rank: int)
    ensures forall c | c in OfRank(cs, rank) :: c in cs && c.key.Some?
  {
    if cs != [] { OfRankMember(cs[..|cs| - 1], rank); }
  }

  lemma DedupMember(cs: seq<Candidate>)
    ensures forall c | c in Dedup(cs) :: c in cs
  {
    if cs != [] {
      hide Clash;
      DedupMember(cs[..|cs| - 1]);
    }
  }

  /** One pass of the search over all routes for one rank. */
  method Pass(cs: seq<Candidate>, rank: int, keys: Buffer, b: Buffer, shown: seq<Candidate>,
              ghost before: seq<Candidate>)
    returns (now: seq<Candidate>)
    requires Holding(keys, b, shown, before) && Loaded(cs)
    modifies keys, keys.data, b, b.data
    ensures Holding(keys, b, now, before + OfRank(cs, rank))
  {
    hide Dedup, KeysText, Loaded, Displayable, OfRank, Listing, Holding;
    now := shown;
    var i := 0;
    assert OfRank(cs[..0], rank) == [] && before + [] == before by { OfRankNone(cs[..0], rank); }
    assert cs[..|cs|] == cs;
    while i < |cs|
      invariant 0 <= i <= |cs| && Holding(keys, b, now, before + OfRank(cs[..i], rank))
    {
      var c := cs[i];
      OfRankSnoc(cs, i, rank);
      ghost var sofar := before + OfRank(cs[..i], rank);
      if c.rank == rank && c.key.Some? {
        assert before + (OfRank(cs[..i], rank) + [c]) == sofar + [c];
        LoadedHeld(keys, b, cs, i, now, sofar);
        var stop;
        now, stop := Consider(c, keys, b, now, sofar);
        if stop {
          ghost var tail := OfRankPrefix(cs, i + 1, rank);
          assert before + OfRank(cs, rank) == (sofar + [c]) + tail;
          HeldOn(keys, b, now, sofar + [c], tail);
          return;
        }
      } else {
        assert OfRank(cs[..i], rank) + [] == OfRank(cs[..i], rank);
      }
      i := i + 1;
    }
  }

  /** Once nothing more can be shown, the rest of the candidates makes no difference. */
  lemma HeldOn(keys: Buffer, b: Buffer, shown: seq<Candidate>, before: seq<Candidate>, tail: seq<Candidate>)
    requires Holding(keys, b, shown, before) && !Open(b.text, shown, b.data.Length)
    ensures Holding(keys, b, shown, before + tail)
  {
    hide Dedup, Loaded, Displayable, Listing, KeysText;
    DedupGrows(before, tail);
  }

  lemma LoadedHeld(keys: Buffer, b: Buffer, cs: seq<Candidate>, i: nat, shown: seq<Candidate>, before: seq<Candidate>)
    requires Holding(keys, b, shown, before) && Loaded(cs) && i < |cs|
    ensures Loaded(shown + [cs[i]]) && b.data.Length > 0
  {
    hide Dedup, Loaded, Displayable, Listing, KeysText;
    LoadedSnoc(cs, i, shown);
  }

  lemma OfRankNone(cs: seq<Candidate>, rank: int)
    requires cs == []
    ensures OfRank(cs, rank) == []
  {}

  lemma LoadedSnoc(cs: seq<Candidate>, i: nat, now: seq<Candidate>)
    requires i < |cs| && Loaded(cs) && Loaded(now)
    ensures Loaded(now + [cs[i]])
  {
    hide BarFree;
    assert cs[i] in cs;
    assert forall d | d in now + [cs[i]] :: d in now || d == cs[i];
  }

  /** `handle_bus_search` past its argument check: the first ten displayable matches by rank, then list order, those
      that clash with an earlier one left out, up to the first the size guard refuses. */
  method SearchBuses(cs: seq<Candidate>, keys: Buffer, b: Buffer) returns (found: bool, shown: seq<Candidate>)
    requires keys.Valid() && keys.text == "" && keys.data.Length == KEYS_SIZE
    requires b.Valid() && keys != b && keys.data != b.data && Loaded(cs)
    modifies keys, keys.data, b, b.data
    ensures b.Valid() && ShownPart(Found(cs), shown, b.data.Length) && found == (shown != [])
    ensures b.text == if found then Put(Listing(shown, b.data.Length), "\n", b.data.Length)
                      else SafeCopy(BUS_NOT_FOUND, b.data.Length)
  {
    hide Dedup, KeysText, Loaded, Displayable, OfRank, Ranked, FirstTen, Listing, Holding, Put;
    b.Set(BUS_HEAD);
    shown := [];
    StartsEmpty(keys, b);
    var rank := 1;
    while rank <= 3 && |shown| < MAX_MATCHES
      invariant 1 <= rank <= 4 && Holding(keys, b, shown, Passed(cs, rank))
      decreases 4 - rank
    {
      RankedSplit(cs, rank);
      shown := Pass(cs, rank, keys, b, shown, Passed(cs, rank));
      rank := rank + 1;
    }
    PassedOn(keys, b, cs, rank, shown);
    EndsShown(keys, b, shown, Ranked(cs));
    found := |shown| > 0;
    if !found {
      b.Set(BUS_NOT_FOUND);
      return;
    }
    var ok := PutText(b, "\n");
  }

  lemma StartsEmpty(keys: Buffer, b: Buffer)
    requires keys.Valid() && b.Valid() && keys.data != b.data && keys != b && keys.data.Length == KEYS_SIZE
    requires keys.text == "" && b.text == SafeCopy(BUS_HEAD, b.data.Length)
    ensures Holding(keys, b, [], [])
  {
    Nothing();
  }

  /** The outer loop ends after the last rank or with ten routes shown. */
  lemma PassedOn(keys: Buffer, b: Buffer, cs: seq<Candidate>, rank: int, shown: seq<Candidate>)
    requires 1 <= rank <= 4 && Holding(keys, b, shown, Passed(cs, rank)) && (rank == 4 || |shown| >= MAX_MATCHES)
    ensures Holding(keys, b, shown, Ranked(cs))
    decreases 4 - rank
  {
    if rank < 4 {
      hide Holding, Passed;
      RankedSplit(cs, rank);
      HeldOn(keys, b, shown, Passed(cs, rank), OfRank(cs, rank));
      PassedOn(keys, b, cs, rank + 1, shown);
    }
  }

  lemma EndsShown(keys: Buffer, b: Buffer, shown: seq<Candidate>, order: seq<Candidate>)
    requires Holding(keys, b, shown, order)
    ensures ShownPart(FirstTen(Dedup(order)), shown, b.data.Length)
    ensures b.Valid() && b.text == Listing(shown, b.data.Length)
  {
    hide Dedup, Loaded, Displayable, Listing, KeysText;
    var found := FirstTen(Dedup(order));
    assert forall i | 0 <= i < |shown| :: found[..i] == shown[..i];
  }

  /** What the passes before `rank` have gone through. */
  function Passed(cs: seq<Candidate>, rank: int): seq<Candidate> {
    if rank <= 1 then []
    else if rank == 2 then OfRank(cs, 1)
    else if rank == 3 then OfRank(cs, 1) + OfRank(cs, 2)
    else Ranked(cs)
  }

  lemma RankedSplit(cs: seq<Candidate>, rank: int)
    requires 1 <= rank <= 3
    ensures Passed(cs, rank) + OfRank(cs, rank) == Passed(cs, rank + 1)
  {
    hide OfRank;
    assert [] + OfRank(cs, 1) == OfRank(cs, 1);
  }

  lemma Nothing()
    ensures Dedup([]) == [] && KeysText(KeysOf([])) == "" && Loaded([]) && Displayable([])
  {}

  // ---------------------------------------------------------------- exactly when it is a plain de-duplication

  /** Candidate `j` has a new key, yet the string search takes it for one seen before. */
  ghost predicate Mistaken(cs: seq<Candidate>, j: nat)
    requires j < |cs|
  {
    KeyOf(cs[j]) !in KeysOf(cs[..j]) && Clash(KeysOf(cs[..j]), KeyOf(cs[j]))
  }

  /** Whether a key clashes does not depend on the routes dropped before it. */
  lemma {:induction false} ClashSurvives(cs: seq<Candidate>, key: string)
    ensures Clash(KeysOf(Dedup(cs)), key) <==> Clash(KeysOf(cs), key)
  {
    if cs != [] {
      var front, c := cs[..|cs| - 1], cs[|cs| - 1];
      ClashSurvives(front, key);
      ClashSurvives(front, KeyOf(c));
      assert cs == front + [c];
      ClashSnoc(KeysOf(front), KeyOf(c), key);
      ClashSnoc(KeysOf(Dedup(front)), KeyOf(c), key);
      assert KeysOf(cs) == KeysOf(front) + [KeyOf(c)];
      assert KeysOf(Dedup(front) + [c]) == KeysOf(Dedup(front)) + [KeyOf(c)];
      hide Clash;
      DedupSnoc(front, c);
    }
  }

  /** A key that the newest one is taken for clashes with everything that one clashes with. */
  lemma ClashSnoc(ks: seq<string>, k: string, key: string)
    ensures Clash(ks + [k], key) <==> Clash(ks, key) || Matches(key, k)
    ensures Clash(ks, k) && Matches(key, k) ==> Clash(ks, key)
  {
    ClashIsMatch(ks, key);
    ClashIsMatch(ks, k);
    ClashIsMatch(ks + [k], key);
    assert forall m | m in ks + [k] :: m in ks || m == k;
    if Clash(ks, k) && Matches(key, k) {
      var m :| m in ks && Matches(k, m);
      if |key| > NEEDLE_SIZE - 3 && |k| > NEEDLE_SIZE - 3 {
        assert key[..NEEDLE_SIZE - 2] == k[..NEEDLE_SIZE - 2];
      }
      assert Matches(key, m);
    }
  }

  /** What is kept does not clash with what was kept before it. */
  lemma {:induction false} DedupApart(cs: seq<Candidate>, i: nat)
    requires i < |Dedup(cs)|
    ensures !Clash(KeysOf(Dedup(cs)[..i]), KeyOf(Dedup(cs)[i]))
  {
    hide Clash;
    var front := Dedup(cs[..|cs| - 1]);
    if i < |front| {
      DedupApart(cs[..|cs| - 1], i);
      assert Dedup(cs)[..i] == front[..i];
    } else {
      assert Dedup(cs)[..i] == front;
    }
  }

  lemma FirstsSnoc(cs: seq<Candidate>, c: Candidate)
    ensures FirstsOfKeys(cs + [c]) == FirstsOfKeys(cs) + (if KeyOf(c) in KeysOf(cs) then [] else [c])
  {
    assert (cs + [c])[..|cs|] == cs;
  }

  lemma {:induction false} FirstsGrow(cs: seq<Candidate>, ds: seq<Candidate>)
    ensures FirstsOfKeys(cs) <= FirstsOfKeys(cs + ds)
  {
    if ds == [] {
      assert cs + ds == cs;
    } else {
      FirstsGrow(cs, ds[..|ds| - 1]);
      assert cs + ds == (cs + ds[..|ds| - 1]) + [ds[|ds| - 1]];
      FirstsSnoc(cs + ds[..|ds| - 1], ds[|ds| - 1]);
    }
  }

  /** No candidate is mistaken before ten different keys have been met. */
  ghost predicate NoneMistaken(cs: seq<Candidate>) {
    forall j | 0 <= j < |cs| && |FirstsOfKeys(cs[..j])| < MAX_MATCHES :: !Mistaken(cs, j)
  }

  lemma MistakenFront(cs: seq<Candidate>, n: nat, j: nat)
    requires j < n <= |cs|
    ensures cs[..n][..j] == cs[..j] && (Mistaken(cs[..n], j) <==> Mistaken(cs, j))
  {
    assert cs[..n][..j] == cs[..j];
  }

  lemma {:induction false} PlainWhileNoneMistaken(cs: seq<Candidate>)
    requires NoneMistaken(cs)
    ensures FirstTen(Dedup(cs)) == FirstTen(FirstsOfKeys(cs))
    ensures |FirstsOfKeys(cs)| <= MAX_MATCHES ==> Dedup(cs) == FirstsOfKeys(cs)
  {
    if cs != [] {
      var n := |cs| - 1;
      var front, c := cs[..n], cs[n];
      assert cs == front + [c];
      hide Clash, KeyOf, Dedup, FirstsOfKeys;
      forall j | 0 <= j < n && |FirstsOfKeys(front[..j])| < MAX_MATCHES ensures !Mistaken(front, j) {
        MistakenFront(cs, n, j);
      }
      PlainWhileNoneMistaken(front);
      DedupSnoc(front, c);
      FirstsSnoc(front, c);
      ClashSurvives(front, KeyOf(c));
      SeenClashes(KeysOf(front), KeyOf(c));
      if |FirstsOfKeys(front)| < MAX_MATCHES { assert !Mistaken(cs, n); }
    }
  }

  lemma SeenClashes(ks: seq<string>, key: string)
    ensures key in ks ==> Clash(ks, key)
  {}

  /** The first mistaken candidate leaves a gap that no later one can fill. */
  lemma {:induction false} MistakenShows(cs: seq<Candidate>, j: nat)
    requires j < |cs| && |FirstsOfKeys(cs[..j])| < MAX_MATCHES && Mistaken(cs, j) && NoneMistaken(cs[..j])
    ensures FirstTen(Dedup(cs)) != FirstTen(FirstsOfKeys(cs))
  {
    var front, c := cs[..j], cs[j];
    FewPlain(front);
    MistakenMeans(cs, j);
    hide *;
    var kept := Dedup(front);
    ClashSurvives(front, KeyOf(c));
    FirstsSnoc(front, c);
    assert cs == front + cs[j..] && cs == (front + [c]) + cs[j + 1..];
    DedupGrows(front, cs[j..]);
    FirstsGrow(front + [c], cs[j + 1..]);
    NotKeptNext(cs, kept, c);
    GapStays(Dedup(cs), FirstsOfKeys(cs), kept, c);
  }

  lemma MistakenMeans(cs: seq<Candidate>, j: nat)
    requires j < |cs| && Mistaken(cs, j)
    ensures KeyOf(cs[j]) !in KeysOf(cs[..j]) && Clash(KeysOf(cs[..j]), KeyOf(cs[j]))
  {
    hide Clash, KeyOf;
  }

  lemma FewPlain(front: seq<Candidate>)
    requires NoneMistaken(front) && |FirstsOfKeys(front)| < MAX_MATCHES
    ensures Dedup(front) == FirstsOfKeys(front) && |Dedup(front)| < MAX_MATCHES
  {
    hide NoneMistaken, Dedup, FirstsOfKeys;
    PlainWhileNoneMistaken(front);
  }

  lemma NotKeptNext(cs: seq<Candidate>, kept: seq<Candidate>, c: Candidate)
    requires kept <= Dedup(cs) && Clash(KeysOf(kept), KeyOf(c))
    ensures |kept| < |Dedup(cs)| ==> Dedup(cs)[|kept|] != c
  {
    hide Clash, KeyOf, Dedup, KeysOf;
    if |kept| < |Dedup(cs)| {
      DedupApart(cs, |kept|);
      assert Dedup(cs)[..|kept|] == kept;
    }
  }

  lemma GapStays(a: seq<Candidate>, b: seq<Candidate>, kept: seq<Candidate>, c: Candidate)
    requires kept <= a && kept + [c] <= b && |kept| < MAX_MATCHES && (|kept| < |a| ==> a[|kept|] != c)
    ensures FirstTen(a) != FirstTen(b)
  {
    assert FirstTen(b)[|kept|] == b[|kept|] == c;
  }

  /** The result is the first ten of the ranked matches with later equal keys dropped if and only if no match that comes
      before ten different keys have been met is mistaken for an earlier one. */
  lemma PlainIff(cs: seq<Candidate>)
    ensures Found(cs) == FirstTen(FirstsOfKeys(Ranked(cs))) <==> NoneMistaken(Ranked(cs))
  {
    hide Dedup, FirstsOfKeys, Ranked, Mistaken;
    var order := Ranked(cs);
    if NoneMistaken(order) {
      PlainWhileNoneMistaken(order);
    } else {
      var j := FirstMistaken(order);
      MistakenShows(order, j);
    }
  }

  lemma {:induction false} FirstMistaken(cs: seq<Candidate>) returns (j: nat)
    requires !NoneMistaken(cs)
    ensures j < |cs| && |FirstsOfKeys(cs[..j])| < MAX_MATCHES && Mistaken(cs, j) && NoneMistaken(cs[..j])
  {
    hide Mistaken, FirstsOfKeys;
    j :| 0 <= j < |cs| && |FirstsOfKeys(cs[..j])| < MAX_MATCHES && Mistaken(cs, j);
    if !NoneMistaken(cs[..j]) {
      var n := j;
      j := FirstMistaken(cs[..n]);
      MistakenFront(cs, n, j);
      assert cs[..n][..j] == cs[..j];
    }
  }

  /** Keys of at most 129 bytes are never mistaken. */
  lemma ShortKeysPlain(cs: seq<Candidate>)
    requires forall c | c in cs :: |KeyOf(c)| <= NEEDLE_SIZE - 3
    ensures Found(cs) == FirstTen(FirstsOfKeys(Ranked(cs)))
  {
    hide OfRank, Dedup, FirstsOfKeys, KeyOf;
    OfRankMember(cs, 1);
    OfRankMember(cs, 2);
    OfRankMember(cs, 3);
    assert forall j | 0 <= j < |Ranked(cs)| :: Ranked(cs)[j] in Ranked(cs);
    PlainIff(cs);
  }

  /** For longer keys it is not: of two routes whose keys differ only after the 130th byte the later one is lost. */
  lemma LongKeysCollide(a: Candidate, c: Candidate)
    requires a.rank == c.rank == 1 && a.key.Some? && c.key.Some?
    requires |c.key.value| >= NEEDLE_SIZE - 2 && c.key.value[..NEEDLE_SIZE - 2] <= a.key.value && a.key != c.key
    ensures Found([a, c]) == [a] && FirstTen(FirstsOfKeys(Ranked([a, c]))) == [a, c]
  {
    hide Dedup, FirstsOfKeys, OfRank, Clash;
    var cs := [a, c];
    PairOfRank(a, c, 1);
    PairOfRank(a, c, 2);
    PairOfRank(a, c, 3);
    assert Ranked(cs) == cs;
    assert [] + [a] == [a] && [a] + [c] == cs;
    assert KeysOf([]) == [] && KeysOf([a]) == [KeyOf(a)];
    NothingFirst(KeyOf(a));
    DedupSnoc([], a);
    DedupSnoc([a], c);
    FirstsSnoc([], a);
    FirstsSnoc([a], c);
    OneClash(KeyOf(a), KeyOf(c));
  }

  lemma NothingFirst(key: string)
    ensures Dedup([]) == [] && FirstsOfKeys([]) == [] && !Clash([], key)
  {}

  lemma OneClash(k: string, key: string)
    requires |key| >= NEEDLE_SIZE - 2 && key[..NEEDLE_SIZE - 2] <= k
    ensures Clash([k], key)
  {
    assert k in [k];
  }

  lemma PairOfRank(a: Candidate, c: Candidate, rank: int)
    requires a.rank == c.rank == 1 && a.key.Some? && c.key.Some?
    ensures OfRank([a, c], rank) == if rank == 1 then [a, c] else []
  {
    var cs := [a, c];
    OfRankSnoc(cs, 0, rank);
    OfRankSnoc(cs, 1, rank);
    assert cs[..0] == [] && cs[..2] == cs;
  }
}
