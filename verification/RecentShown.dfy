/** The recent searches as the user reads them: `show_recent_list_result` of src/client/result_viewer.c. */
module RecentShown {
  import opened Basics
  import opened Text
  import opened Numbers
  import opened Splitting
  import opened Packets
  import opened Files
  import opened Responses
  import opened Recent
  import opened FavoriteNumbers

  const RECENT_KIND := "RECENT_LIST_RES"

  /** `show_recent_list_result`: each line it prints, as data. */
  method ShowSearches(payload: string) returns (lines: seq<Fields3>)
    requires |payload| < MAX_PACKET_SIZE
    ensures lines == UserListShown(payload)
  {
    hide Words, IsBlank, ShowItem;
    lines := [];
    if IsBlank(payload) { return; }
    var words := Tokenize(payload, ';');
    var i := 0;
    while i < |words|
      invariant 0 <= i <= |words| && lines == ShowItems(words[..i])
    {
      assert words[..i + 1][..i] == words[..i];
      var item := CutSearch(words[i]);
      if item.Some? { lines := lines + [item.value]; }
      i := i + 1;
    }
    assert words[..i] == words;
  }

  method CutSearch(word: string) returns (item: Option<Fields3>)
    ensures item == ShowItem(word)
  {
    hide SplitAt, SafeCopy;
    var kind := Split(SafeCopy(word, ITEM_SIZE), ':');
    if kind.None? { return None; }
    var keyword := Split(kind.value.1, ':');
    if keyword.None? { return None; }
    item := Some((kind.value.0, keyword.value.0, keyword.value.1));
  }

  // ---------------------------------------------------------------- after a run

  /** A search as it is shown: kind, keyword and time. */
  function FieldsShown(s: Search): Fields3 { (s.kind, s.keyword, s.time) }

  /** The last `n` searches, newest first. */
  function Newest(all: seq<Search>, n: nat): (newest: seq<Search>)
    ensures |newest| == Min(|all|, n) && forall i | 0 <= i < |newest| :: newest[i] == all[|all| - 1 - i]
  {
    seq(Min(|all|, n), i requires 0 <= i < Min(|all|, n) => all[|all| - 1 - i])
  }

  function FieldsOfAll(ss: seq<Search>): (fields: seq<Fields3>)
    ensures |fields| == |ss| && forall i | 0 <= i < |fields| :: fields[i] == FieldsShown(ss[i])
  {
    seq(|ss|, i requires 0 <= i < |ss| => FieldsShown(ss[i]))
  }

  /** A search whose record is faithful and whose time keeps clear of the list separator. */
  ghost predicate Listable(c: Search) { Faithful(c) && ';' !in c.time }

  lemma SearchShows(c: Search)
    requires Listable(c) && Accepted(c.kind, c.keyword)
    ensures Shows(ItemText(c), FieldsShown(c))
  {
    hide SplitAt;
    var t, rest := ItemText(c), c.keyword + [':'] + c.time;
    assert t == c.kind + [':'] + rest;
    SplitAtParts(c.kind, ':', rest);
    SplitAtParts(c.keyword, ':', c.time);
    var x :| x in c.kind && !IsSpace(x);
    assert x in t;
  }

  lemma {:induction false} AcceptedAre(calls: seq<Search>)
    requires forall c | c in calls :: Listable(c)
    ensures forall c | c in AcceptedCalls(calls) :: Listable(c) && Accepted(c.kind, c.keyword)
  {
    if calls != [] {
      hide Listable, Accepted;
      assert calls[|calls| - 1] in calls && forall d | d in calls[..|calls| - 1] :: d in calls;
      AcceptedAre(calls[..|calls| - 1]);
    }
  }

  lemma ListableFaithful(calls: seq<Search>)
    requires forall c | c in calls :: Listable(c)
    ensures forall c | c in calls :: Faithful(c)
  {
    hide Faithful;
  }

  /** The items of the list and what is shown for them. */
  lemma NewestShow(calls: seq<Search>)
    requires forall c | c in calls :: Listable(c)
    ensures ShowAll(RecentItems(TextOf(Run(None, calls))),
                    FieldsOfAll(Newest(AcceptedCalls(calls), SERVER_RECENT_MAX_COUNT)))
  {
    hide RecentItems, TextOf, Run, AcceptedCalls, Listable, Accepted, Shows, ItemText, FieldsShown;
    ListableFaithful(calls);
    RecentRunLists(calls);
    AcceptedAre(calls);
    var all, items := AcceptedCalls(calls), RecentItems(TextOf(Run(None, calls)));
    var fields := FieldsOfAll(Newest(all, SERVER_RECENT_MAX_COUNT));
    forall i | 0 <= i < |items| ensures Shows(items[i], fields[i]) {
      assert all[|all| - 1 - i] in all;
      SearchShows(all[|all| - 1 - i]);
    }
  }

  /** After any run of searches on an empty store, the user is shown the last twenty accepted ones, newest first, each
      with its kind, keyword and time, as many as fit the response. */
  lemma {:induction false} RecentRunShown(calls: seq<Search>, response: string, size: nat, w: LongWidth)
    requires forall c | c in calls :: Listable(c)
    requires |RECENT_HEAD| + 2 <= size <= MAX_PACKET_SIZE
    requires Outcome(response, RECENT_HEAD, RecentItems(TextOf(Run(None, calls))), RECENT_SLACK, size)
    ensures var newest := FieldsOfAll(Newest(AcceptedCalls(calls), 20));
            var shown := UserListShown(ParseHeader(response, w).payload);
            && shown <= newest
            && Fitting(RECENT_HEAD, RecentItems(TextOf(Run(None, calls))), RECENT_SLACK, size, |shown|)
  {
    hide RecentItems, TextOf, Run, AcceptedCalls, Listable, Shows, Join, UserListShown, ParseHeader, Room;
    NewestShow(calls);
    var items, newest := RecentItems(TextOf(Run(None, calls))), FieldsOfAll(Newest(AcceptedCalls(calls), 20));
    var k: nat :| Fitting(RECENT_HEAD, items, RECENT_SLACK, size, k) && response == Line(RECENT_HEAD, items, k);
    LineFits(RECENT_HEAD, items, RECENT_SLACK, size, k);
    ShownPayload(items[..k], newest[..k]);
    var body := Join(items[..k], ";");
    assert body != "" ==> body[|body| - 1] in body;
    assert RECENT_HEAD == RECENT_KIND + "|0|";
    HeaderRoundTrip(RECENT_KIND, body, w);
  }
}
