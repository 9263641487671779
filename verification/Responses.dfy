/**
 List responses inside a bounded buffer. Every list handler of the server writes a header, then items separated by ';'
 as long as a size guard lets it, then the line end; they differ in the slack of the guard and in what an empty list
 means.
 */
module Responses {
  import opened Text

  // ---------------------------------------------------------------- what is meant to come out

  /** The guard in front of item `i`: the text so far, the item and the slack stay below the buffer size. */
  ghost predicate Room(head: string, items: seq<string>, slack: nat, size: nat, i: nat)
    requires i < |items|
  {
    |head + Join(items[..i], ";")| + |items[i]| + slack < size
  }

  /** `k` is how many items make it: all before it had room, and it is the first without. */
  ghost predicate Fitting(head: string, items: seq<string>, slack: nat, size: nat, k: nat) {
    && k <= |items|
    && (forall i | 0 <= i < k :: Room(head, items, slack, size, i))
    && (k < |items| ==> !Room(head, items, slack, size, k))
  }

  /** A whole line: the header, the first `k` items, one line end. */
  function Line(head: string, items: seq<string>, k: nat): string
    requires k <= |items|
  {
    head + Join(items[..k], ";") + "\n"
  }

  // ---------------------------------------------------------------- facts about it

  /** The guards suffice: with a slack of two or more, header, separators, every admitted item and the line end all fit,
      terminator included. */
  lemma {:induction false} LineFits(head: string, items: seq<string>, slack: nat, size: nat, k: nat)
    requires |head| + 2 <= size && slack >= 2 && Fitting(head, items, slack, size, k)
    ensures |Line(head, items, k)| < size
  {
    hide Join;
    if k > 0 {
      assert Room(head, items, slack, size, k - 1);
      JoinNext(items, ";", k - 1);
      JoinNone(items, ";");
    } else {
      JoinNone(items, ";");
    }
  }

  /** A response is one line: a line end occurs nowhere but at its end. */
  lemma {:induction false} LineIsWhole(head: string, items: seq<string>, k: nat)
    requires k <= |items| && '\n' !in head && forall t | t in items :: '\n' !in t
    ensures var r := Line(head, items, k); r[|r| - 1] == '\n' && '\n' !in r[..|r| - 1]
  {
    var r := Line(head, items, k);
    NoLineEnd(items[..k]);
    assert r[..|r| - 1] == head + Join(items[..k], ";");
  }

  lemma {:induction false} NoLineEnd(items: seq<string>)
    requires forall t | t in items :: '\n' !in t
    ensures '\n' !in Join(items, ";")
  {
    if |items| > 1 {
      NoLineEnd(items[..|items| - 1]);
      assert items[|items| - 1] in items;
    } else if |items| == 1 {
      assert items[0] in items;
    }
  }

  // ---------------------------------------------------------------- one item of a list loop

  /** What is in the buffer after `i` items, provided the header left room for the line end. */
  ghost predicate Holds(b: Buffer, head: string, items: seq<string>, slack: nat, i: nat)
    reads b, b.data
  {
    && b.Valid() && i <= |items| && slack >= 2
    && if |head| + 2 <= b.data.Length
       then b.text == head + Join(items[..i], ";") && |b.text| + 2 <= b.data.Length
            && forall j | 0 <= j < i :: Room(head, items, slack, b.data.Length, j)
       else b.text == SafeCopy(head, b.data.Length) && i == 0
  }

  /** With all items in, nothing is left to admit. */
  lemma HoldsAll(b: Buffer, head: string, items: seq<string>, slack: nat, i: nat)
    requires Holds(b, head, items, slack, i)
    ensures i == |items| && |head| + 2 <= b.data.Length ==> Fitting(head, items, slack, b.data.Length, i)
  {
    hide Room;
  }

  method Start(b: Buffer, head: string, ghost items: seq<string>, ghost slack: nat)
    requires b.Valid() && '\0' !in head && slack >= 2
    modifies b, b.data
    ensures Holds(b, head, items, slack, 0)
  {
    b.Set(head);
    JoinNone(items, ";");
    assert head + "" == head;
  }

  /** The guard, the separator and the item; `ok` says whether the loop goes on. */
  method AddItem(b: Buffer, item: string, slack: nat, count: nat, ghost head: string, ghost items: seq<string>)
    returns (ok: bool)
    requires Holds(b, head, items, slack, count) && count < |items| && item == items[count] && '\0' !in item
    modifies b, b.data
    ensures ok ==> Holds(b, head, items, slack, count + 1)
    ensures !ok ==> Holds(b, head, items, slack, count)
    ensures !ok && |head| + 2 <= b.data.Length ==> Fitting(head, items, slack, b.data.Length, count)
  {
    hide Join;
    JoinNext(items, ";", count);
    JoinNone(items, ";");
    var used := b.Length();
    if used + |item| + slack >= b.data.Length { return false; }
    ghost var was := b.text;
    var done;
    if count > 0 { done := b.Append(";"); }
    done := b.Appendf(item);
    assert count > 0 ==> b.text == was + ";" + item;
    assert count == 0 ==> b.text == was + item;
    AddedText(head, items, count, was, b.text);
    return true;
  }

  lemma AddedText(head: string, items: seq<string>, count: nat, was: string, now: string)
    requires count < |items| && was == head + Join(items[..count], ";")
    requires now == if count > 0 then was + ";" + items[count] else was + items[count]
    ensures now == head + Join(items[..count + 1], ";")
  {
    JoinNext(items, ";", count);
    JoinNone(items, ";");
  }

  /** Ends the list: the outcome of every list loop. */
  ghost predicate Outcome(text: string, head: string, items: seq<string>, slack: nat, size: nat)
    requires size > 0
  {
    if |head| + 2 <= size
    then exists k :: Fitting(head, items, slack, size, k) && text == Line(head, items, k)
    else text == SafeCopy(head, size)
  }

  /** The response is a terminated line inside the buffer, of complete items only, exactly when the buffer is at least
      two bytes longer than the header; one byte more than the header is not enough. */
  lemma WholeLineIff(text: string, head: string, items: seq<string>, slack: nat, size: nat)
    requires size > 0 && slack >= 2 && Outcome(text, head, items, slack, size)
    requires '\n' !in head && forall t | t in items :: '\n' !in t
    ensures |text| < size
    ensures (exists k :: 0 <= k <= |items| && text == Line(head, items, k)) <==> |head| + 2 <= size
    ensures (text != "" && text[|text| - 1] == '\n' && '\n' !in text[..|text| - 1]) <==> |head| + 2 <= size
  {
    hide Join, Room;
    if |head| + 2 <= size {
      var k :| Fitting(head, items, slack, size, k) && text == Line(head, items, k);
      LineFits(head, items, slack, size, k);
      LineIsWhole(head, items, k);
    } else {
      assert text <= head;
    }
  }

  method Finish(b: Buffer, ghost head: string, ghost items: seq<string>, ghost slack: nat, ghost k: nat)
    requires Holds(b, head, items, slack, k)
    requires |head| + 2 <= b.data.Length ==> Fitting(head, items, slack, b.data.Length, k)
    modifies b, b.data
    ensures b.Valid() && Outcome(b.text, head, items, slack, b.data.Length)
  {
    hide Join, Room;
    var ok := b.Append("\n");
    if |head| + 2 <= b.data.Length {
      assert b.text == Line(head, items, k);
    }
  }
}
