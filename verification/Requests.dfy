/** What requests ask for: the two halves of a route or facility request, and the three fields of a new favorite. */
module Requests {
  import opened Basics
  import opened Text
  import opened Splitting
  import opened Graph
  import opened Resolve
  import opened ResolveLaws
  import opened Favorites

  // ---------------------------------------------------------------- two halves

  /** `s` is `core` with space around it. */
  ghost predicate Padded(s: string, core: string) {
    Tight(core) && exists lead, tail :: IsBlank(lead) && IsBlank(tail) && s == lead + core + tail
  }

  lemma PaddedTrims(s: string, core: string)
    requires Padded(s, core)
    ensures Trimmed(s) == core
  {
    hide Trimmed, Tight;
    var lead, tail :| IsBlank(lead) && IsBlank(tail) && s == lead + core + tail;
    PaddingGoes(lead, core, tail);
  }

  lemma Unpadded(s: string)
    requires Tight(s)
    ensures Padded(s, s)
  {
    assert IsBlank("") && s == "" + s + "";
  }

  /** The text before the colon comes first, the text behind it second, both without the space around them. */
  lemma HalvesOf(a: string, b: string, first: string, second: string)
    requires Padded(a, first) && Padded(b, second) && ':' !in a && |a + ":" + b| < REQUEST_SIZE
    ensures Halves(a + ":" + b) == Some((first, second))
  {
    hide Padded, Trimmed, IndexOf;
    PaddedTrims(a, first);
    PaddedTrims(b, second);
    var s := a + ":" + b;
    assert s == a + [':'] + b;
    IndexOfPart(a, ':', b);
    assert s[..|a|] == a && s[|a| + 1..] == b;
    assert s[|a|] in s && !IsSpace(s[|a|]);
  }

  /** A request has halves exactly when a colon is among the bytes its buffer takes. */
  lemma HalvesIff(payload: string)
    ensures Halves(payload).Some? <==> ':' in payload[..Min(|payload|, REQUEST_SIZE - 1)]
  {
    hide Trimmed;
    var buf := SafeCopy(payload, REQUEST_SIZE);
    assert buf == payload[..Min(|payload|, REQUEST_SIZE - 1)];
    if ':' in buf { assert ':' in payload && !IsSpace(':'); }
  }

  /** A request by two ids leads from the first node to the second, whatever their names. */
  lemma RequestById(g: seq<Node>, u: nat, v: nat)
    requires u < |g| && v < |g| && (forall i, j | 0 <= i < j < |g| :: g[i].id != g[j].id)
    requires Tight(g[u].id) && Tight(g[v].id) && !IsBlank(g[u].id) && !IsBlank(g[v].id)
    requires ':' !in g[u].id && |g[u].id + ":" + g[v].id| < REQUEST_SIZE
    ensures Halves(g[u].id + ":" + g[v].id).Some?
    ensures var (a, b) := Halves(g[u].id + ":" + g[v].id).value; RouteNode(g, a) == u && RouteNode(g, b) == v
  {
    hide Padded, Tight, IsBlank, Halves, RouteNode;
    Unpadded(g[u].id);
    Unpadded(g[v].id);
    HalvesOf(g[u].id, g[v].id, g[u].id, g[v].id);
    assert forall j | 0 <= j < u :: g[..u][j] == g[j];
    assert forall j | 0 <= j < v :: g[..v][j] == g[j];
    IdWins(g, g[u].id, u);
    IdWins(g, g[v].id, v);
  }

  // ---------------------------------------------------------------- three fields

  const KIND_INPUT := 64

  /** The words a user may type for a kind of favorite. */
  function WordsFor(kind: string): seq<string> {
    if kind == "stop" then ["1", STOP_WORD1, STOP_WORD2, "stop"]
    else if kind == "bus" then ["2", BUS_WORD1, BUS_WORD2, BUS_WORD3, "bus"]
    else if kind == "station" then ["3", STATION_WORD1, STATION_WORD2, "station"]
    else []
  }

  /** A word means a kind, and no other, exactly when it is one of its words, whatever space is around it. */
  lemma NormalizeIff(input: string, word: string, kind: string)
    requires Padded(input, word) && |input| < KIND_INPUT
    ensures Normalize(input) == Some(kind) <==> word in WordsFor(kind)
  {
    hide Padded, Trimmed;
    PaddedTrims(input, word);
    if IsBlank(input) { NoWordBlank(input); }
    WordsDiffer(word);
  }

  lemma NoWordBlank(input: string)
    requires IsBlank(input)
    ensures forall kind :: Trimmed(input) !in WordsFor(kind)
  {
    TrimmedBytes(input);
    hide Trimmed;
    forall kind, w | w in WordsFor(kind) ensures w != Trimmed(input) {
      assert w[0] in w && !IsSpace(w[0]);
    }
  }

  /** No word means two kinds. */
  lemma WordsDiffer(word: string)
    ensures word in WordsFor("stop") ==> word !in WordsFor("bus") && word !in WordsFor("station")
    ensures word in WordsFor("bus") ==> word !in WordsFor("station")
  {
    assert |STOP_WORD1| == 9 && |STOP_WORD2| == 15 && |BUS_WORD1| == |BUS_WORD3| == 6 && |BUS_WORD2| == 12;
    assert |STATION_WORD1| == 12 && |STATION_WORD2| == 3 && BUS_WORD2[0] != STATION_WORD1[0];
  }

  /** Each kind is a word for itself. */
  lemma KindsAreWords(kind: string)
    requires kind in ["stop", "bus", "station"]
    ensures kind in WordsFor(kind)
  {}

  /** A request for a favorite reads as kind, id and name in this order, without the space around them. */
  lemma {:induction false} ParseAddOf(a: string, b: string, c: string, word: string, f: Favorite)
    requires Padded(a, word) && word in WordsFor(f.kind) && |a| < KIND_INPUT && ':' !in a
    requires Padded(b, f.id) && Padded(c, f.name) && ':' !in b && Sound(f) && |a + ":" + b + ":" + c| < 2048
    ensures ParseAdd(a + ":" + b + ":" + c) == Some(f)
  {
    hide Padded, Trimmed, IndexOf, Normalize, WordsFor, IsBlank, HasDelimiter;
    var rest := b + [':'] + c;
    assert a + ":" + b + ":" + c == a + [':'] + rest;
    PaddedTrims(a, word);
    PaddedTrims(b, f.id);
    PaddedTrims(c, f.name);
    TrimmedShorter(a);
    WordIsTight(a, word);
    Unpadded(word);
    NormalizeIff(word, word, f.kind);
    IndexOfPart(a, ':', rest);
    IndexOfPart(b, ':', c);
    var s := a + [':'] + rest;
    assert s[..|a|] == a && s[|a| + 1..] == rest && rest[..|b|] == b && rest[|b| + 1..] == c;
  }

  lemma WordIsTight(s: string, core: string)
    requires Padded(s, core)
    ensures Tight(core)
  {}

  /** So what the client sends for a favorite is the favorite. */
  lemma {:induction false} AddRoundTrip(f: Favorite)
    requires Sound(f) && Tight(f.id) && Tight(f.name)
    ensures ParseAdd(f.kind + ":" + f.id + ":" + f.name) == Some(f)
  {
    hide Padded, ParseAdd, Tight;
    assert ':' !in f.kind && |f.kind| <= 7 && ':' !in f.id;
    KindTight(f.kind);
    Unpadded(f.kind);
    Unpadded(f.id);
    Unpadded(f.name);
    KindsAreWords(f.kind);
    ParseAddOf(f.kind, f.id, f.name, f.kind, f);
  }

  lemma KindTight(kind: string)
    requires kind in ["stop", "bus", "station"]
    ensures Tight(kind)
  {}
}
