/** Cutting text at separators: `strtok` over lists, and the fixed-count cutting by `strchr` of list items and steps. */
module Splitting {
  import opened Basics
  import opened Text

  /** What repeated `strtok` yields: the non-empty stretches between separators. */
  function Words(s: string, c: char): seq<string>
    decreases |s|
  {
    if s == "" then []
    else
      var k := IndexOf(s, c);
      if k == 0 then Words(s[1..], c) else [s[..k]] + Words(s[k..], c)
  }

  /** Up to `n` fields, each ending at the next separator or the end of the text. */
  function Fields(s: string, c: char, n: nat): seq<string>
    decreases n
  {
    if n == 0 then []
    else
      var k := IndexOf(s, c);
      [s[..k]] + (if k < |s| then Fields(s[k + 1..], c, n - 1) else [])
  }

  /** The text around the first separator; none when there is no separator. */
  function SplitAt(s: string, c: char): Option<(string, string)> {
    var k := IndexOf(s, c);
    if k == |s| then None else Some((s[..k], s[k + 1..]))
  }

  lemma SplitAtParts(a: string, c: char, b: string)
    requires c !in a
    ensures SplitAt(a + [c] + b, c) == Some((a, b))
  {
    hide IndexOf;
    IndexOfPart(a, c, b);
    var s := a + [c] + b;
    assert s[..|a|] == a && s[|a| + 1..] == b;
  }

  lemma SplitAtBytes(s: string, c: char, x: char)
    requires x !in s
    ensures SplitAt(s, c).Some? ==> x !in SplitAt(s, c).value.0 && x !in SplitAt(s, c).value.1
  {
    hide IndexOf;
  }

  const REQUEST_SIZE := 256

  /** The two trimmed halves of a request around its first ':'. */
  function Halves(payload: string): Option<(string, string)> {
    if IsBlank(payload) then None
    else
      var buf := SafeCopy(payload, REQUEST_SIZE);
      var c := IndexOf(buf, ':');
      if c == |buf| then None else Some((Trimmed(buf[..c]), Trimmed(buf[c + 1..])))
  }

  // ---------------------------------------------------------------- the loops

  method Tokenize(s: string, c: char) returns (words: seq<string>)
    ensures words == Words(s, c)
  {
    words := [];
    var rest := s;
    while rest != ""
      invariant Words(s, c) == words + Words(rest, c)
      decreases |rest|
    {
      var k := FindChar(rest, c);
      if k == 0 {
        rest := rest[1..];
      } else {
        Regroup(words, [rest[..k]], Words(rest[k..], c));
        words := words + [rest[..k]];
        rest := rest[k..];
      }
    }
  }

  method FindChar(s: string, c: char) returns (k: nat)
    ensures k == IndexOf(s, c)
  {
    k := 0;
    while k < |s| && s[k] != c
      invariant k <= |s| && forall i | 0 <= i < k :: s[i] != c
    {
      k := k + 1;
    }
    IndexOfIs(s, c, k);
  }

  method Split(s: string, c: char) returns (parts: Option<(string, string)>)
    ensures parts == SplitAt(s, c)
  {
    var k := FindChar(s, c);
    parts := if k == |s| then None else Some((s[..k], s[k + 1..]));
  }

  /** `split_step_fields`, and the cutting of list items. */
  method Cut(s: string, c: char, n: nat) returns (fields: seq<string>)
    ensures fields == Fields(s, c, n)
  {
    hide IndexOf, Fields;
    fields := [];
    var cursor := s;
    assert [] + Fields(s, c, n) == Fields(s, c, n);
    while |fields| < n
      invariant |fields| <= n
      invariant Fields(s, c, n) == fields + Fields(cursor, c, n - |fields|)
      decreases n - |fields|
    {
      var k := FindChar(cursor, c);
      ghost var tail := if k < |cursor| then Fields(cursor[k + 1..], c, n - |fields| - 1) else [];
      FieldsNext(cursor, c, n - |fields|);
      Regroup(fields, [cursor[..k]], tail);
      fields := fields + [cursor[..k]];
      if k == |cursor| {
        assert fields + [] == fields;
        return;
      }
      cursor := cursor[k + 1..];
    }
    NoFields(cursor, c);
    assert fields + [] == fields;
  }

  lemma NoFields(s: string, c: char)
    ensures Fields(s, c, 0) == []
  {}

  lemma FieldsNext(s: string, c: char, n: nat)
    requires n > 0
    ensures var k := IndexOf(s, c); Fields(s, c, n) == [s[..k]] + (if k < |s| then Fields(s[k + 1..], c, n - 1) else [])
  {
    hide IndexOf;
  }

  // ---------------------------------------------------------------- cutting undoes joining

  lemma {:induction false} JoinFront(p: string, ps: seq<string>, sep: string)
    requires ps != []
    ensures Join([p] + ps, sep) == p + sep + Join(ps, sep)
  {
    var all := [p] + ps;
    assert all[..|all| - 1] == [p] + ps[..|ps| - 1];
    if |ps| > 1 {
      JoinFront(p, ps[..|ps| - 1], sep);
    }
  }

  lemma FieldsStep(p: string, c: char, rest: string, n: nat)
    requires c !in p && n > 0
    ensures Fields(p + [c] + rest, c, n) == [p] + Fields(rest, c, n - 1)
    ensures Fields(p, c, n) == [p]
  {
    var s := p + [c] + rest;
    IndexOfPart(p, c, rest);
    IndexOfNone(p, c);
    assert s[..|p|] == p && s[|p| + 1..] == rest && p[..|p|] == p;
  }

  lemma {:induction false} FieldsOfJoin(parts: seq<string>, c: char, n: nat)
    requires 0 < |parts| <= n && forall p | p in parts :: c !in p
    ensures Fields(Join(parts, [c]), c, n) == parts
  {
    hide IndexOf, Fields;
    var p, ps := parts[0], parts[1..];
    assert p in parts && forall q | q in ps :: q in parts;
    if ps == [] {
      assert parts == [p];
      FieldsStep(p, c, "", n);
    } else {
      assert parts == [p] + ps;
      JoinFront(p, ps, [c]);
      FieldsStep(p, c, Join(ps, [c]), n);
      FieldsOfJoin(ps, c, n - 1);
    }
  }

  lemma WordsStep(p: string, c: char, rest: string)
    requires c !in p
    ensures Words(p + [c] + rest, c) == NonEmpty([p]) + Words(rest, c)
    ensures Words(p, c) == NonEmpty([p])
  {
    hide Words, IndexOf, NonEmpty;
    var s := p + [c] + rest;
    OnePart(p);
    IndexOfPart(p, c, rest);
    IndexOfNone(p, c);
    IndexOfIs([c] + rest, c, 0);
    WordsNext([c] + rest, c);
    assert ([c] + rest)[1..] == rest;
    if p == "" {
      assert s == [c] + rest;
    } else {
      WordsNext(s, c);
      WordsNext(p, c);
      assert s[..|p|] == p && s[|p|..] == [c] + rest && p[..|p|] == p && p[|p|..] == "";
    }
    WordsNext("", c);
  }

  lemma WordsNext(s: string, c: char)
    ensures var k := IndexOf(s, c);
            Words(s, c) == if s == "" then [] else if k == 0 then Words(s[1..], c) else [s[..k]] + Words(s[k..], c)
  {
    hide IndexOf;
  }

  lemma OnePart(p: string)
    ensures NonEmpty([p]) == if p == "" then [] else [p]
  {
    assert [p][1..] == [];
  }

  function NonEmpty(parts: seq<string>): seq<string> {
    if parts == [] then [] else (if parts[0] == "" then [] else [parts[0]]) + NonEmpty(parts[1..])
  }

  lemma NonEmptyStep(p: string, ps: seq<string>)
    ensures NonEmpty([p] + ps) == NonEmpty([p]) + NonEmpty(ps)
  {
    assert ([p] + ps)[1..] == ps && [p][1..] == [];
  }

  lemma {:induction false} NonEmptyAll(parts: seq<string>)
    requires "" !in parts
    ensures NonEmpty(parts) == parts
  {
    if parts != [] {
      NonEmptyAll(parts[1..]);
      assert parts[0] in parts && parts == [parts[0]] + parts[1..];
    }
  }

  /** Cutting what was joined leaves out the empty parts. */
  lemma {:induction false} WordsOfJoin(parts: seq<string>, c: char)
    requires forall p | p in parts :: c !in p
    ensures Words(Join(parts, [c]), c) == NonEmpty(parts)
  {
    if parts != [] {
      hide IndexOf, Words, NonEmpty;
      var p, ps := parts[0], parts[1..];
      assert p in parts && forall q | q in ps :: q in parts;
      assert parts == [p] + ps;
      if ps == [] {
        assert parts == [p];
        WordsStep(p, c, "");
      } else {
        JoinFront(p, ps, [c]);
        WordsStep(p, c, Join(ps, [c]));
        WordsOfJoin(ps, c);
        NonEmptyStep(p, ps);
      }
    }
  }

  lemma {:induction false} WordsAreClean(s: string, c: char)
    ensures forall w | w in Words(s, c) :: w != "" && c !in w
    decreases |s|
  {
    if s != "" {
      var k := IndexOf(s, c);
      hide IndexOf;
      if k == 0 {
        WordsAreClean(s[1..], c);
      } else {
        WordsAreClean(s[k..], c);
        assert forall i | 0 <= i < k :: s[..k][i] == s[i];
      }
    }
  }

  /** Cutting makes no bytes. */
  lemma {:induction false} WordsBytes(s: string, c: char, x: char)
    requires x !in s
    ensures forall w | w in Words(s, c) :: x !in w
    decreases |s|
  {
    hide IndexOf, Words;
    WordsNext(s, c);
    if s != "" {
      var k := IndexOf(s, c);
      WordsBytes(if k == 0 then s[1..] else s[k..], c, x);
    }
  }

  lemma {:induction false} FieldsBytes(s: string, c: char, n: nat, x: char)
    requires x !in s
    ensures forall f | f in Fields(s, c, n) :: x !in f
    decreases n
  {
    hide IndexOf, Fields;
    if n == 0 {
      NoFields(s, c);
    } else {
      FieldsNext(s, c, n);
      var k := IndexOf(s, c);
      if k < |s| { FieldsBytes(s[k + 1..], c, n - 1, x); }
    }
  }

  /** The parts come back exactly when none of them is empty or holds the separator. */
  lemma {:induction false} WordsBackIff(parts: seq<string>, c: char)
    ensures Words(Join(parts, [c]), c) == parts <==> forall p | p in parts :: p != "" && c !in p
  {
    hide Words, Join;
    WordsAreClean(Join(parts, [c]), c);
    if forall p | p in parts :: p != "" && c !in p {
      WordsOfJoin(parts, c);
      NonEmptyAll(parts);
    }
  }

  lemma {:induction false} NotInJoin(parts: seq<string>, sep: string, c: char)
    requires c !in sep && forall p | p in parts :: c !in p
    ensures c !in Join(parts, sep)
  {
    if |parts| > 1 {
      NotInJoin(parts[..|parts| - 1], sep, c);
      assert parts[|parts| - 1] in parts;
    } else if |parts| == 1 {
      assert parts[0] in parts;
    }
  }
}
