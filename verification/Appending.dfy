/** Appending to a bounded text, as `str_append` and `str_appendf` of src/common/string_utils.c do
    it, over whole lists. */
module Appending {
  import opened Basics
  import opened Text

  /** `str_append`: all of `s` or nothing. */
  function Put(t: string, s: string, size: nat): (r: string)
    requires |t| < size
    ensures |t| <= |r| < size
    ensures |r| == if |t| + |s| < size then |t| + |s| else |t|
  {
    if |t| + |s| < size then t + s else t
  }

  /** `str_appendf`: as much of `s` as fits. */
  function PutCut(t: string, s: string, size: nat): (r: string)
    requires |t| < size
    ensures |t| <= |r| < size
    ensures |r| == Min(|t| + |s|, size - 1)
  {
    t + SafeCopy(s, size - |t|)
  }

  lemma PutBytes(t: string, s: string, size: nat, c: char)
    requires |t| < size && c !in t && c !in s
    ensures c !in Put(t, s, size) && c !in PutCut(t, s, size)
  {
    assert forall x | x in SafeCopy(s, size - |t|) :: x in s;
  }

  /** The first `n` parts with separators between them, each part and each separator all or nothing. */
  function PutList(t: string, parts: seq<string>, sep: string, n: nat, size: nat): (r: string)
    requires |t| < size && n <= |parts|
    ensures |t| <= |r| < size
  {
    if n == 0 then t
    else
      var before := PutList(t, parts, sep, n - 1, size);
      Put(if n == 1 then before else Put(before, sep, size), parts[n - 1], size)
  }

  /** The first `n` parts with separators between them, separators all or nothing, parts cut to fit. */
  function PutCutList(t: string, parts: seq<string>, sep: string, n: nat, size: nat): (r: string)
    requires |t| < size && n <= |parts|
    ensures |t| <= |r| < size
  {
    if n == 0 then t
    else
      var before := PutCutList(t, parts, sep, n - 1, size);
      PutCut(if n == 1 then before else Put(before, sep, size), parts[n - 1], size)
  }

  lemma PutListNone(t: string, parts: seq<string>, sep: string, size: nat)
    requires |t| < size
    ensures PutList(t, parts, sep, 0, size) == t && PutCutList(t, parts, sep, 0, size) == t
  {}

  lemma PutListNext(t: string, parts: seq<string>, sep: string, n: nat, size: nat)
    requires |t| < size && n < |parts|
    ensures var before := PutList(t, parts, sep, n, size);
            PutList(t, parts, sep, n + 1, size)
                == Put(if n == 0 then before else Put(before, sep, size), parts[n], size)
    ensures var before := PutCutList(t, parts, sep, n, size);
            PutCutList(t, parts, sep, n + 1, size)
            == PutCut(if n == 0 then before else Put(before, sep, size), parts[n], size)
  {
    hide Put, PutCut;
  }

  /** One part more of a joined text. */
  lemma JoinedNext(t: string, parts: seq<string>, sep: string, n: nat)
    requires 0 < n <= |parts|
    ensures t + Join(parts[..n], sep) ==
            (if n == 1 then t + Join(parts[..0], sep) else t + Join(parts[..n - 1], sep) + sep) + parts[n - 1]
  {
    hide Join;
    JoinNext(parts, sep, n - 1);
    JoinNone(parts, sep);
    var j := Join(parts[..n - 1], sep);
    assert t + (j + sep + parts[n - 1]) == (t + j + sep) + parts[n - 1];
    assert t + "" == t;
  }

  /** A part that was left out had no room, and still has none. */
  ghost predicate Lost(t: string, parts: seq<string>, size: nat) {
    |t| + 1 >= size || exists j :: 0 <= j < |parts| && |t| + |parts[j]| >= size
  }

  /** Whatever is appended whole or left out: the text is exact, or something is missing from it. */
  lemma {:induction false} PutListExactOrLost(t: string, parts: seq<string>, sep: string, n: nat, size: nat)
    requires |t| < size && n <= |parts| && |sep| == 1
    ensures var r := PutList(t, parts, sep, n, size);
            (r == t + Join(parts[..n], sep) && |r| < size) || Lost(r, parts, size)
  {
    hide Join;
    if n == 0 {
      JoinNone(parts, sep);
      assert t + "" == t;
    } else {
      PutListExactOrLost(t, parts, sep, n - 1, size);
      JoinedNext(t, parts, sep, n);
      JoinNone(parts, sep);
      assert t + "" == t;
    }
  }

  lemma JoinedGrows(t: string, parts: seq<string>, sep: string, n: nat)
    requires n <= |parts|
    ensures |t + Join(parts[..n], sep)| <= |t + Join(parts, sep)|
    ensures parts[..|parts|] == parts
  {
    JoinGrows(parts, sep, n);
  }

  /** With room for everything, everything is appended. */
  lemma {:induction false} PutListFits(t: string, parts: seq<string>, sep: string, n: nat, size: nat)
    requires n <= |parts| && |t + Join(parts, sep)| < size
    ensures PutList(t, parts, sep, n, size) == t + Join(parts[..n], sep)
  {
    hide Join;
    JoinedGrows(t, parts, sep, n);
    JoinNone(parts, sep);
    assert t + "" == t;
    if n > 0 {
      PutListFits(t, parts, sep, n - 1, size);
      JoinedNext(t, parts, sep, n);
    }
  }

  lemma {:induction false} PutCutListFits(t: string, parts: seq<string>, sep: string, n: nat, size: nat)
    requires n <= |parts| && |t + Join(parts, sep)| < size
    ensures PutCutList(t, parts, sep, n, size) == t + Join(parts[..n], sep)
  {
    hide Join;
    JoinedGrows(t, parts, sep, n);
    JoinNone(parts, sep);
    assert t + "" == t;
    if n > 0 {
      PutCutListFits(t, parts, sep, n - 1, size);
      JoinedNext(t, parts, sep, n);
    }
  }

  /** Cutting leaves the exact text or a full one. */
  lemma {:induction false} PutCutListExactOrFull(t: string, parts: seq<string>, sep: string, n: nat, size: nat)
    requires |t| < size && n <= |parts| && |sep| == 1
    ensures var r := PutCutList(t, parts, sep, n, size); r == t + Join(parts[..n], sep) || |r| + 1 == size
  {
    hide Join;
    JoinNone(parts, sep);
    assert t + "" == t;
    if n > 0 {
      PutCutListExactOrFull(t, parts, sep, n - 1, size);
      JoinedNext(t, parts, sep, n);
    }
  }

  /** A part that had no room at the start fills the text. */
  lemma {:induction false} PutCutListFills(t: string, parts: seq<string>, sep: string, n: nat, k: nat, size: nat)
    requires |t| < size && k < n <= |parts| && |t| + |parts[k]| >= size
    ensures |PutCutList(t, parts, sep, n, size)| + 1 == size
  {
    hide Put, PutCut;
    if k < n - 1 { PutCutListFills(t, parts, sep, n - 1, k, size); }
  }

  lemma {:induction false} PutListBytes(t: string, parts: seq<string>, sep: string, n: nat, size: nat, c: char)
    requires |t| < size && n <= |parts| && c !in t && c !in sep && forall p | p in parts :: c !in p
    ensures c !in PutList(t, parts, sep, n, size)
  {
    hide Put;
    if n > 0 {
      var before := PutList(t, parts, sep, n - 1, size);
      PutListBytes(t, parts, sep, n - 1, size, c);
      PutBytes(before, sep, size, c);
      assert parts[n - 1] in parts;
      PutBytes(if n == 1 then before else Put(before, sep, size), parts[n - 1], size, c);
    }
  }

  lemma {:induction false} PutCutListBytes(t: string, parts: seq<string>, sep: string, n: nat, size: nat, c: char)
    requires |t| < size && n <= |parts| && c !in t && c !in sep && forall p | p in parts :: c !in p
    ensures c !in PutCutList(t, parts, sep, n, size)
  {
    hide Put, PutCut;
    if n > 0 {
      var before := PutCutList(t, parts, sep, n - 1, size);
      PutCutListBytes(t, parts, sep, n - 1, size, c);
      PutBytes(before, sep, size, c);
      assert parts[n - 1] in parts;
      PutBytes(if n == 1 then before else Put(before, sep, size), parts[n - 1], size, c);
    }
  }

  /** Once the text is full, appending more does not change it. */
  lemma {:induction false} FullStays(t: string, parts: seq<string>, sep: string, i: nat, n: nat, size: nat)
    requires |t| < size && 0 < i <= n <= |parts| && |sep| > 0 && |PutCutList(t, parts, sep, i, size)| + 1 == size
    ensures PutCutList(t, parts, sep, n, size) == PutCutList(t, parts, sep, i, size)
  {
    hide Put, PutCut;
    if i < n {
      FullStays(t, parts, sep, i, n - 1, size);
      NothingFits(PutCutList(t, parts, sep, i, size), sep, parts[n - 1], size);
    }
  }

  lemma NothingFits(t: string, sep: string, s: string, size: nat)
    requires |t| + 1 == size && |sep| > 0
    ensures Put(t, sep, size) == t && PutCut(t, s, size) == t
  {
    assert t + "" == t;
  }

  // ---------------------------------------------------------------- the loops

  /** The list loop over `str_append`. */
  method AppendList(b: Buffer, parts: seq<string>, sep: string)
    requires b.Valid() && '\0' !in sep && forall p | p in parts :: '\0' !in p
    modifies b, b.data
    ensures b.Valid() && b.text == PutList(old(b.text), parts, sep, |parts|, b.data.Length)
  {
    var i := 0;
    while i < |parts|
      invariant 0 <= i <= |parts| && b.Valid()
      invariant b.text == PutList(old(b.text), parts, sep, i, b.data.Length)
    {
      assert parts[i] in parts;
      var ok;
      if i > 0 { ok := b.Append(sep); }
      ok := b.Append(parts[i]);
      i := i + 1;
    }
  }

  // ---------------------------------------------------------------- on a buffer

  method PutText(b: Buffer, s: string) returns (ok: bool)
    requires b.Valid() && '\0' !in s
    modifies b, b.data
    ensures b.Valid() && b.text == Put(old(b.text), s, b.data.Length)
  {
    ok := b.Append(s);
  }

  /** `ok` says that nothing was cut; what was cut fills the buffer. */
  method PutFormatted(b: Buffer, s: string) returns (ok: bool)
    requires b.Valid() && '\0' !in s
    modifies b, b.data
    ensures b.Valid() && b.text == PutCut(old(b.text), s, b.data.Length)
    ensures !ok ==> |b.text| + 1 == b.data.Length
  {
    ok := b.Appendf(s);
  }
}
