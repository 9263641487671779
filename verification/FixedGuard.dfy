/**
 List loops whose size guard keeps a fixed number of bytes free in front of an item, whatever the item is: the station
 and bus searches of src/server/search_service.c.
 */
module FixedGuard {
  import opened Text

  /** The header and the first `k` items. */
  function Listed(head: string, items: seq<string>, k: nat): string
    requires k <= |items|
  {
    head + Join(items[..k], ";")
  }

  /** The guard in front of item `i`. */
  predicate Guarded(head: string, room: nat, items: seq<string>, size: nat, i: nat)
    requires i <= |items|
  {
    |Listed(head, items, i)| + room < size
  }

  /** `k` items are admitted: all before the first the guard refuses. */
  ghost predicate Taken(head: string, room: nat, items: seq<string>, size: nat, k: nat) {
    && k <= |items|
    && (forall i | 0 <= i < k :: Guarded(head, room, items, size, i))
    && (k < |items| ==> !Guarded(head, room, items, size, k))
  }

  /** An item with the separator in front of it. */
  function Piece(items: seq<string>, i: nat): string
    requires i < |items|
  {
    if i == 0 then items[0] else ";" + items[i]
  }

  lemma ListedNone(head: string, items: seq<string>)
    ensures Listed(head, items, 0) == head
  {
    JoinNone(items, ";");
  }

  lemma ListedNext(head: string, items: seq<string>, i: nat)
    requires i < |items|
    ensures Listed(head, items, i + 1) == Listed(head, items, i) + Piece(items, i)
  {
    hide Join;
    JoinNext(items, ";", i);
    JoinNone(items, ";");
    var j := Join(items[..i], ";");
    assert head + (j + ";" + items[i]) == (head + j) + (";" + items[i]);
    assert i == 0 ==> head + j == head;
  }

  lemma {:induction false} ListedGrows(head: string, items: seq<string>, i: nat, k: nat)
    requires i <= k <= |items|
    ensures |Listed(head, items, i)| <= |Listed(head, items, k)|
  {
    if i < k {
      hide Listed, Piece;
      ListedGrows(head, items, i, k - 1);
      ListedNext(head, items, k - 1);
    }
  }

  /** What the guard lets through fits, line end included, when the last item is shorter than the bytes kept free. */
  lemma ShortFits(head: string, room: nat, items: seq<string>, size: nat, k: nat)
    requires Taken(head, room, items, size, k) && k > 0 && |Piece(items, k - 1)| < room
    ensures |Listed(head, items, k) + "\n"| < size
  {
    hide Listed, Piece;
    assert Guarded(head, room, items, size, k - 1);
    ListedNext(head, items, k - 1);
  }

  /** A longer item meets a buffer in which the guard lets it through and the line no longer fits. */
  lemma LongOverflows(head: string, room: nat, items: seq<string>, i: nat) returns (size: nat)
    requires i < |items| && |Piece(items, i)| >= room > 0
    ensures Taken(head, room, items, size, i + 1) && size > 0 && |Listed(head, items, i + 1) + "\n"| >= size
  {
    hide Listed, Piece;
    size := |Listed(head, items, i)| + room + 1;
    forall j | 0 <= j < i + 1 ensures Guarded(head, room, items, size, j) { ListedGrows(head, items, j, i); }
    ListedNext(head, items, i);
  }

  /** Whatever the guard lets through fits together with the line end. */
  ghost predicate FitsIn(head: string, room: nat, items: seq<string>, size: nat) {
    forall k | 0 < k <= |items| && Taken(head, room, items, size, k) :: |Listed(head, items, k) + "\n"| < size
  }

  /** That holds in every buffer if and only if every item, with the separator in front of it, is shorter than the bytes
      the guard keeps free. */
  lemma FitsInAllBuffersIff(head: string, room: nat, items: seq<string>)
    requires room > 0
    ensures (forall size: nat | size > 0 :: FitsIn(head, room, items, size))
       <==> (forall i | 0 <= i < |items| :: |Piece(items, i)| < room)
  {
    hide Taken, Listed, Piece;
    if forall i | 0 <= i < |items| :: |Piece(items, i)| < room {
      forall size: nat | size > 0 ensures FitsIn(head, room, items, size) {
        forall k | 0 < k <= |items| && Taken(head, room, items, size, k)
          ensures |Listed(head, items, k) + "\n"| < size
        {
          ShortFits(head, room, items, size, k);
        }
      }
    } else {
      var i :| 0 <= i < |items| && |Piece(items, i)| >= room;
      var size := LongOverflows(head, room, items, i);
      assert !FitsIn(head, room, items, size);
    }
  }

  /** A bound on all items bounds the list. */
  lemma {:induction false} ListedSize(head: string, items: seq<string>, k: nat, m: nat)
    requires k <= |items| && forall i | 0 <= i < |items| :: |Piece(items, i)| <= m
    ensures |Listed(head, items, k)| <= |head| + k * m
  {
    hide Listed, Piece;
    ListedNone(head, items);
    if k > 0 {
      ListedSize(head, items, k - 1, m);
      ListedNext(head, items, k - 1);
    }
  }
}
