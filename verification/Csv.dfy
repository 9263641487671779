/**
 The CSV reader of src/common/csv_parser.c: a subset of section 2 of RFC 4180 without doubled quotes or line breaks
 inside fields, and with every field cut to its buffer and trimmed.
 */
module Csv {
  import opened Basics
  import opened Text

  const CSV_MAX_FIELDS := 32
  const CSV_MAX_FIELD_LEN := 256

  // ---------------------------------------------------------------- what a line holds

  predicate LineEnd(s: string) { s == "" || s[0] == '\n' || s[0] == '\r' }

  /** What the buffer of a field holds after one more character. */
  function Push(cur: string, c: char): string {
    if |cur| + 1 < CSV_MAX_FIELD_LEN then cur + [c] else cur
  }

  /** The fields still to come, `left` of them at most, when `cur` has been read of the first. */
  function Scan(s: string, cur: string, inQuotes: bool, left: nat): seq<string>
    requires left > 0
    decreases |s|
  {
    if LineEnd(s) then [Trimmed(cur)]
    else if s[0] == '"' then Scan(s[1..], cur, !inQuotes, left)
    else if s[0] == ',' && !inQuotes then [Trimmed(cur)] + (if left == 1 then [] else Scan(s[1..], "", false, left - 1))
    else Scan(s[1..], Push(cur, s[0]), inQuotes, left)
  }

  lemma ScanNext(s: string, cur: string, inQuotes: bool, left: nat)
    requires left > 0
    ensures Scan(s, cur, inQuotes, left) ==
            if LineEnd(s) then [Trimmed(cur)]
            else if s[0] == '"' then Scan(s[1..], cur, !inQuotes, left)
            else if s[0] == ',' && !inQuotes then
              [Trimmed(cur)] + (if left == 1 then [] else Scan(s[1..], "", false, left - 1))
            else Scan(s[1..], Push(cur, s[0]), inQuotes, left)
  {
    hide Trimmed, Push;
  }

  function Cells(line: string): seq<string> { Scan(line, "", false, CSV_MAX_FIELDS) }

  class CsvRow {
    const fields: array<string>
    var count: nat

    ghost predicate Valid()
      reads this
    {
      fields.Length == CSV_MAX_FIELDS && count <= CSV_MAX_FIELDS
    }

    constructor ()
      ensures Valid() && fresh(fields)
    {
      fields := new string[CSV_MAX_FIELDS](_ => "");
      count := 0;
    }

    /** The row while field `field` is being read and `rest` is still to come. */
    ghost predicate Reading(line: string, rest: string, field: nat, inQuotes: bool)
      reads this, fields
    {
      && Valid() && field < CSV_MAX_FIELDS
      && (forall i | field < i < CSV_MAX_FIELDS :: fields[i] == "")
      && Cells(line) == fields[..field] + Scan(rest, fields[field], inQuotes, CSV_MAX_FIELDS - field)
    }

    /** `csv_parse_line`. */
    method Parse(line: string) returns (ok: bool)
      requires Valid()
      modifies this, fields
      ensures Valid() && ok
      ensures fields[..count] == Cells(line)
    {
      hide Trimmed, Push, Scan, Reading;
      Clear(line);
      var field, p := 0, 0;
      var inQuotes := false;
      assert line[0..] == line;
      while p < |line| && line[p] != '\n' && line[p] != '\r'
        invariant p <= |line| && Reading(line, line[p..], field, inQuotes)
        decreases |line| - p
      {
        assert line[p..][0] == line[p] && line[p..][1..] == line[p + 1..];
        var full;
        field, inQuotes, full := Take(line, line[p..], field, inQuotes);
        if full { return true; }
        p := p + 1;
      }
      Finish(line, line[p..], field, inQuotes);
      return true;
    }

    method Clear(ghost line: string)
      requires Valid()
      modifies fields
      ensures Reading(line, line, 0, false)
    {
      hide Scan;
      forall i | 0 <= i < CSV_MAX_FIELDS { fields[i] := ""; }
      assert fields[..0] == [];
    }

    /** One character of the line; `full` when it ended the last field there is room for. */
    method Take(ghost line: string, rest: string, field: nat, inQuotes: bool)
      returns (next: nat, quoted: bool, full: bool)
      requires Reading(line, rest, field, inQuotes) && !LineEnd(rest)
      modifies this, fields
      ensures !full ==> Reading(line, rest[1..], next, quoted)
      ensures full ==> Valid() && fields[..count] == Cells(line)
    {
      hide Trimmed, Push, Scan;
      ScanNext(rest, fields[field], inQuotes, CSV_MAX_FIELDS - field);
      next, quoted, full := field, inQuotes, false;
      if rest[0] == '"' {
        quoted := !inQuotes;
      } else if rest[0] == ',' && !inQuotes {
        ghost var done, cur := fields[..field], fields[field];
        CloseField(field);
        next := field + 1;
        if next >= CSV_MAX_FIELDS {
          count := CSV_MAX_FIELDS;
          full := true;
        } else {
          Regroup(done, [Trimmed(cur)], Scan(rest[1..], "", false, CSV_MAX_FIELDS - next));
        }
      } else {
        AddByte(field, rest[0]);
      }
    }

    /** The line end closes the field that is being read. */
    method Finish(ghost line: string, ghost rest: string, field: nat, ghost inQuotes: bool)
      requires Reading(line, rest, field, inQuotes) && LineEnd(rest)
      modifies this, fields
      ensures Valid() && fields[..count] == Cells(line)
    {
      hide Trimmed, Scan;
      ScanNext(rest, fields[field], inQuotes, CSV_MAX_FIELDS - field);
      CloseField(field);
      count := field + 1;
    }

    /** Trims the field that ends. */
    method CloseField(field: nat)
      requires field < fields.Length
      modifies fields
      ensures fields[..field + 1] == old(fields[..field]) + [Trimmed(old(fields[field]))]
      ensures forall i | field < i < fields.Length :: fields[i] == old(fields[i])
    {
      hide Trimmed;
      ghost var done := fields[..field];
      fields[field] := Trimmed(fields[field]);
      assert fields[..field + 1] == done + [fields[field]];
    }

    /** Adds a byte to the field that is being read. */
    method AddByte(field: nat, c: char)
      requires field < fields.Length
      modifies fields
      ensures fields[..field] == old(fields[..field]) && fields[field] == Push(old(fields[field]), c)
      ensures forall i | field < i < fields.Length :: fields[i] == old(fields[i])
    {
      hide Push;
      fields[field] := Push(fields[field], c);
    }

    /** `csv_find_header`. */
    method FindHeader(name: string) returns (k: int)
      requires Valid()
      ensures -1 <= k < count
      ensures k >= 0 ==> fields[k] == name && name !in fields[..k]
      ensures k == -1 ==> name !in fields[..count]
    {
      k := 0;
      while k < count
        invariant 0 <= k <= count && name !in fields[..k]
      {
        if fields[k] == name { return; }
        k := k + 1;
      }
      k := -1;
    }
  }

  // ---------------------------------------------------------------- writing and reading back

  function Quoted(f: string, q: bool): string { if q then "\"" + f + "\"" else f }

  /** A comma-joined line in which the fields marked in `quotes` are quoted. */
  function Encode(fields: seq<string>, quotes: seq<bool>): string
    requires |fields| == |quotes| > 0
  {
    if |fields| == 1 then Quoted(fields[0], quotes[0])
    else Quoted(fields[0], quotes[0]) + "," + Encode(fields[1..], quotes[1..])
  }

  /** No quote and no line end in the field, and quotes around it if it holds a comma. */
  ghost predicate Writable(f: string, q: bool) {
    '"' !in f && '\n' !in f && '\r' !in f && (',' in f ==> q)
  }

  /** What reading makes of a field: cut to its buffer, then trimmed. */
  function Clean(f: string): string { Trimmed(SafeCopy(f, CSV_MAX_FIELD_LEN)) }

  /** The fields there is room for. */
  function Kept(fields: seq<string>, left: nat): seq<string> {
    if |fields| <= left then fields else fields[..left]
  }

  function CleanAll(fields: seq<string>): (r: seq<string>)
    ensures |r| == |fields| && forall i | 0 <= i < |fields| :: r[i] == Clean(fields[i])
  {
    seq(|fields|, i requires 0 <= i < |fields| => Clean(fields[i]))
  }

  lemma {:induction false} ScanText(f: string, rest: string, cur: string, inQuotes: bool, left: nat)
    requires left > 0 && |cur| < CSV_MAX_FIELD_LEN
    requires '"' !in f && '\n' !in f && '\r' !in f && (inQuotes || ',' !in f)
    ensures Scan(f + rest, cur, inQuotes, left) == Scan(rest, SafeCopy(cur + f, CSV_MAX_FIELD_LEN), inQuotes, left)
    decreases |f|
  {
    hide Trimmed;
    if f == "" {
      assert f + rest == rest && cur + f == cur;
    } else {
      var s := f + rest;
      assert s[0] == f[0] && f[0] in f && s[1..] == f[1..] + rest;
      ScanText(f[1..], rest, Push(cur, f[0]), inQuotes, left);
      assert cur + f == cur + [f[0]] + f[1..];
    }
  }

  lemma ScanField(f: string, q: bool, rest: string, left: nat)
    requires left > 0 && Writable(f, q)
    ensures LineEnd(rest) ==> Scan(Quoted(f, q) + rest, "", false, left) == [Clean(f)]
    ensures rest != "" && rest[0] == ',' ==>
              Scan(Quoted(f, q) + rest, "", false, left)
              == [Clean(f)] + (if left == 1 then [] else Scan(rest[1..], "", false, left - 1))
  {
    hide Trimmed;
    assert "" + f == f;
    if q {
      var s := "\"" + f + "\"" + rest;
      assert s[0] == '"' && s[1..] == f + ("\"" + rest);
      ScanText(f, "\"" + rest, "", true, left);
      assert ("\"" + rest)[1..] == rest;
    } else {
      ScanText(f, rest, "", false, left);
    }
  }

  lemma {:induction false} ScanFields(fields: seq<string>, quotes: seq<bool>, tail: string, left: nat)
    requires |fields| == |quotes| > 0 && left > 0 && LineEnd(tail)
    requires forall i | 0 <= i < |fields| :: Writable(fields[i], quotes[i])
    ensures Scan(Encode(fields, quotes) + tail, "", false, left)
         == CleanAll(Kept(fields, left))
    decreases |fields|
  {
    hide Writable, Quoted, Clean, Encode, Scan;
    var f, q := fields[0], quotes[0];
    if |fields| == 1 {
      EncodeStep(fields, quotes, tail);
      ScanField(f, q, tail, left);
      assert CleanAll(fields) == [Clean(f)] by { assert fields == [f]; }
    } else {
      var rest := Encode(fields[1..], quotes[1..]) + tail;
      EncodeStep(fields, quotes, tail);
      ScanField(f, q, "," + rest, left);
      assert ("," + rest)[1..] == rest;
      CleanStep(fields, left);
      if left > 1 {
        assert forall i | 0 <= i < |fields[1..]| :: fields[1..][i] == fields[i + 1] && quotes[1..][i] == quotes[i + 1];
        ScanFields(fields[1..], quotes[1..], tail, left - 1);
      }
    }
  }

  lemma CleanStep(fields: seq<string>, left: nat)
    requires |fields| > 1 && left > 0
    ensures CleanAll(Kept(fields, left)) == [Clean(fields[0])]
              + (if left == 1 then [] else CleanAll(Kept(fields[1..], left - 1)))
  {
    hide Clean;
    assert left > 1 ==> Kept(fields, left) == [fields[0]] + Kept(fields[1..], left - 1);
  }

  lemma EncodeStep(fields: seq<string>, quotes: seq<bool>, tail: string)
    requires |fields| == |quotes| > 0
    ensures |fields| == 1 ==> Encode(fields, quotes) + tail == Quoted(fields[0], quotes[0]) + tail
    ensures |fields| > 1 ==>
              Encode(fields, quotes) + tail == Quoted(fields[0], quotes[0])
                  + ("," + (Encode(fields[1..], quotes[1..]) + tail))
  {}

  /** Reading a written line yields the cleaned fields, the first 32 of them. */
  lemma {:induction false} ReadsCleaned(fields: seq<string>, quotes: seq<bool>, tail: string)
    requires |fields| == |quotes| > 0 && LineEnd(tail)
    requires forall i | 0 <= i < |fields| :: Writable(fields[i], quotes[i])
    ensures Cells(Encode(fields, quotes) + tail)
         == CleanAll(Kept(fields, CSV_MAX_FIELDS))
  {
    ScanFields(fields, quotes, tail, CSV_MAX_FIELDS);
  }

  /** The round trip: exactly the written fields come back, whichever of the optional quotes are used, if and only if
      there are at most 32 of them and none is changed by cutting and trimming. */
  lemma {:induction false} CsvRoundTrip(fields: seq<string>, quotes: seq<bool>, tail: string)
    requires |fields| == |quotes| > 0 && LineEnd(tail)
    requires forall i | 0 <= i < |fields| :: Writable(fields[i], quotes[i])
    ensures Cells(Encode(fields, quotes) + tail) == fields
       <==> |fields| <= CSV_MAX_FIELDS && forall i | 0 <= i < |fields| :: Clean(fields[i]) == fields[i]
  {
    hide Clean, Cells;
    ReadsCleaned(fields, quotes, tail);
    if |fields| <= CSV_MAX_FIELDS && forall i | 0 <= i < |fields| :: Clean(fields[i]) == fields[i] {
      assert CleanAll(fields) == fields;
    }
  }

  /** A field of at most 255 bytes that neither begins nor ends in space and does not begin with a
      byte-order mark stays as it is. */
  lemma {:induction false} CleanKeeps(f: string)
    requires |f| < CSV_MAX_FIELD_LEN && !(BOM <= f)
    requires f != "" ==> !IsSpace(f[0]) && !IsSpace(f[|f| - 1])
    ensures Clean(f) == f
  {}

  /** So 1 to 32 such fields, however quoted, come back exactly. */
  lemma TrimmedFieldsRoundTrip(fields: seq<string>, quotes: seq<bool>, tail: string)
    requires 0 < |fields| == |quotes| <= CSV_MAX_FIELDS && LineEnd(tail)
    requires forall i | 0 <= i < |fields| :: Writable(fields[i], quotes[i])
    requires forall f | f in fields :: |f| < CSV_MAX_FIELD_LEN && !(BOM <= f)
               && (f != "" ==> !IsSpace(f[0]) && !IsSpace(f[|f| - 1]))
    ensures Cells(Encode(fields, quotes) + tail) == fields
  {
    hide Clean, Cells, Encode, Writable;
    CsvRoundTrip(fields, quotes, tail);
    forall i | 0 <= i < |fields| ensures Clean(fields[i]) == fields[i] {
      assert fields[i] in fields;
      CleanKeeps(fields[i]);
    }
  }
}
