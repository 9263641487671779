/** The stop list of a route, `route_stop_add` of src/common/linked_list.c: ordered insertion into a linked list. */
module RouteStops {
  import opened Basics

  datatype Row = Row(seqNo: int, stopId: string)

  // ---------------------------------------------------------------- what insertion means

  /** How many rows at the front are not later than `seqNo`. */
  function Place(rows: seq<Row>, seqNo: int): (k: nat)
    ensures k <= |rows|
  {
    if rows != [] && rows[0].seqNo <= seqNo then 1 + Place(rows[1..], seqNo) else 0
  }

  function Insert(rows: seq<Row>, r: Row): seq<Row> {
    rows[..Place(rows, r.seqNo)] + [r] + rows[Place(rows, r.seqNo)..]
  }

  /** The list after adding `rows` one by one. */
  function AddAll(rows: seq<Row>): seq<Row> {
    if rows == [] then [] else Insert(AddAll(rows[..|rows| - 1]), rows[|rows| - 1])
  }

  ghost predicate Ordered(rows: seq<Row>) {
    forall i, j | 0 <= i < j < |rows| :: rows[i].seqNo <= rows[j].seqNo
  }

  /** The rows of one sequence number, in their order. */
  function Having(rows: seq<Row>, seqNo: int): seq<Row> {
    if rows == [] then []
    else Having(rows[..|rows| - 1], seqNo) + (if rows[|rows| - 1].seqNo == seqNo then [rows[|rows| - 1]] else [])
  }

  // ---------------------------------------------------------------- a stable sort

  lemma {:induction false} PlaceMeans(rows: seq<Row>, seqNo: int)
    ensures var k := Place(rows, seqNo);
            (forall i | 0 <= i < k :: rows[i].seqNo <= seqNo) && (k < |rows| ==> rows[k].seqNo > seqNo)
  {
    if rows != [] && rows[0].seqNo <= seqNo {
      PlaceMeans(rows[1..], seqNo);
      assert forall i | 1 <= i < |rows| :: rows[i] == rows[1..][i - 1];
    }
  }

  lemma {:induction false} InsertOrdered(rows: seq<Row>, r: Row)
    requires Ordered(rows)
    ensures Ordered(Insert(rows, r))
    ensures forall i | Place(rows, r.seqNo) <= i < |rows| :: rows[i].seqNo > r.seqNo
  {
    PlaceMeans(rows, r.seqNo);
    hide Place;
    var k, s := Place(rows, r.seqNo), Insert(rows, r);
    forall i, j | 0 <= i < j < |s| ensures s[i].seqNo <= s[j].seqNo {
      assert s[i] == (if i < k then rows[i] else if i == k then r else rows[i - 1]);
      assert s[j] == (if j < k then rows[j] else if j == k then r else rows[j - 1]);
    }
  }

  lemma {:induction false} HavingConcat(a: seq<Row>, b: seq<Row>, n: int)
    ensures Having(a + b, n) == Having(a, n) + Having(b, n)
  {
    if b == [] {
      assert a + b == a;
    } else {
      HavingConcat(a, b[..|b| - 1], n);
      assert (a + b)[..|a + b| - 1] == a + b[..|b| - 1];
    }
  }

  lemma {:induction false} HavingNone(a: seq<Row>, n: int)
    requires forall i | 0 <= i < |a| :: a[i].seqNo != n
    ensures Having(a, n) == []
  {
    if a != [] { HavingNone(a[..|a| - 1], n); }
  }

  lemma HavingOne(r: Row, n: int)
    ensures Having([r], n) == if r.seqNo == n then [r] else []
  {
    assert [r][..0] == [];
  }

  lemma TailHasNone(rows: seq<Row>, r: Row)
    requires Ordered(rows)
    ensures Having(rows[Place(rows, r.seqNo)..], r.seqNo) == []
  {
    InsertOrdered(rows, r);
    hide Having, Place, Ordered;
    HavingNone(rows[Place(rows, r.seqNo)..], r.seqNo);
  }

  lemma HavingMiddle(a: seq<Row>, r: Row, c: seq<Row>, n: int)
    ensures Having(a + [r] + c, n) == Having(a, n) + (if r.seqNo == n then [r] else []) + Having(c, n)
    ensures Having(a + c, n) == Having(a, n) + Having(c, n)
  {
    hide Having;
    HavingConcat(a + [r], c, n);
    HavingConcat(a, [r], n);
    HavingConcat(a, c, n);
    HavingOne(r, n);
  }

  lemma InsertStable(rows: seq<Row>, r: Row, n: int)
    requires Ordered(rows)
    ensures Having(Insert(rows, r), n) == Having(rows, n) + (if r.seqNo == n then [r] else [])
  {
    TailHasNone(rows, r);
    hide Having, Place, Ordered;
    var k := Place(rows, r.seqNo);
    assert rows == rows[..k] + rows[k..];
    HavingMiddle(rows[..k], r, rows[k..], n);
  }

  /** Whatever rows are added in whatever order, the list is ordered by sequence number, and the rows of each number
      stand in the order they were added: a stable sort of the rows. */
  lemma {:induction false} StableSort(rows: seq<Row>, n: int)
    ensures Ordered(AddAll(rows))
    ensures Having(AddAll(rows), n) == Having(rows, n)
  {
    if rows != [] {
      StableSort(rows[..|rows| - 1], n);
      InsertOrdered(AddAll(rows[..|rows| - 1]), rows[|rows| - 1]);
      InsertStable(AddAll(rows[..|rows| - 1]), rows[|rows| - 1], n);
    }
  }

  lemma SameLast(a: seq<Row>, b: seq<Row>)
    requires a != [] && Ordered(a) && Ordered(b) && forall n :: Having(a, n) == Having(b, n)
    ensures b != [] && a[|a| - 1] == b[|b| - 1]
  {
    var x := a[|a| - 1];
    hide Having, Ordered;
    EndsWithLast(a);
    assert Having(b, x.seqNo) == Having(a, x.seqNo);
    LastHas(b, x.seqNo);
    EndsWithLast(b);
    var y := b[|b| - 1];
    assert Having(a, y.seqNo) == Having(b, y.seqNo);
    LastHas(a, y.seqNo);
  }

  lemma EndsWithLast(a: seq<Row>)
    requires a != []
    ensures var h := Having(a, a[|a| - 1].seqNo); h != [] && h[|h| - 1] == a[|a| - 1]
  {}

  lemma HavingSnoc(s: seq<Row>, x: Row, n: int)
    ensures Having(s + [x], n) == if x.seqNo == n then Having(s, n) + [x] else Having(s, n)
  {
    assert (s + [x])[..|s|] == s;
  }

  lemma LastCounts(b: seq<Row>)
    ensures b != [] ==> Having(b, b[|b| - 1].seqNo) != []
  {}

  /** Which leaves no freedom: an ordered list with these rows per number is that list. */
  lemma {:induction false} SortUnique(a: seq<Row>, b: seq<Row>)
    requires Ordered(a) && Ordered(b) && forall n :: Having(a, n) == Having(b, n)
    ensures a == b
    decreases |a|
  {
    if a == [] {
      LastCounts(b);
    } else {
      SameLast(a, b);
      hide Having;
      var x, fa, fb := a[|a| - 1], a[..|a| - 1], b[..|b| - 1];
      assert a == fa + [x] && b == fb + [x];
      forall n ensures Having(fa, n) == Having(fb, n) {
        assert Having(a, n) == Having(b, n);
        HavingSnoc(fa, x, n);
        HavingSnoc(fb, x, n);
        if n == x.seqNo {
          var h := Having(a, n);
          assert Having(fa, n) == h[..|h| - 1] == Having(fb, n);
        }
      }
      SortUnique(fa, fb);
    }
  }

  /** In an ordered list no number that occurs exceeds the last. */
  lemma {:induction false} LastHas(a: seq<Row>, n: int)
    requires Ordered(a) && Having(a, n) != []
    ensures a != [] && n <= a[|a| - 1].seqNo
  {
    if forall i | 0 <= i < |a| :: a[i].seqNo != n {
      HavingNone(a, n);
    }
  }

  // ---------------------------------------------------------------- the linked list

  class RouteStopNode {
    var row: Row
    var next: RouteStopNode?

    constructor (row: Row)
      ensures this.row == row && next == null
    {
      this.row, next := row, null;
    }
  }

  class StopList {
    var head: RouteStopNode?
    ghost var spine: seq<RouteStopNode>

    ghost predicate Valid()
      reads this, spine
    {
      && Distinct(spine)
      && head == NodeAt(spine, 0)
      && forall i | 0 <= i < |spine| :: spine[i].next == NodeAt(spine, i + 1)
    }

    /** The node at a place of the spine; past its end, none. */
    static ghost function NodeAt(spine: seq<RouteStopNode>, i: nat): RouteStopNode? {
      if i < |spine| then spine[i] else null
    }

    ghost function Contents(): (rows: seq<Row>)
      reads this, spine
      ensures |rows| == |spine| && forall i | 0 <= i < |rows| :: rows[i] == spine[i].row
    {
      seq(|spine|, i requires 0 <= i < |spine| reads this, spine => spine[i].row)
    }

    constructor ()
      ensures Valid() && Contents() == [] && spine == []
    {
      head, spine := null, [];
    }

    /** The nodes around the place of a sequence number. */
    method FindPlace(seqNo: int) returns (prev: RouteStopNode?, cur: RouteStopNode?, ghost k: nat)
      requires Valid()
      ensures k == Place(Contents(), seqNo) <= |spine|
      ensures cur == NodeAt(spine, k) && prev == (if k > 0 then spine[k - 1] else null)
    {
      prev, cur, k := null, head, 0;
      while cur != null && cur.row.seqNo <= seqNo
        invariant 0 <= k <= |spine|
        invariant cur == NodeAt(spine, k)
        invariant prev == (if k > 0 then spine[k - 1] else null)
        invariant forall i | 0 <= i < k :: spine[i].row.seqNo <= seqNo
        decreases |spine| - k
      {
        assert spine[k].next == NodeAt(spine, k + 1);
        prev, cur, k := cur, cur.next, k + 1;
      }
      PlaceIs(Contents(), seqNo, k);
    }

    /** Links a new node in at place `k`, between `prev` and `cur`. */
    method Splice(prev: RouteStopNode?, cur: RouteStopNode?, node: RouteStopNode, ghost k: nat)
      requires Valid() && k <= |spine| && node !in spine
      requires cur == NodeAt(spine, k) && prev == (if k > 0 then spine[k - 1] else null)
      modifies this, spine, node
      ensures Valid() && spine == old(spine)[..k] + [node] + old(spine)[k..]
      ensures node.row == old(node.row) && forall n | n in old(spine) :: n.row == old(n.row)
    {
      ghost var was := spine;
      Relink(prev, cur, node, was, k);
      spine := was[..k] + [node] + was[k..];
      SpliceValid(was, k, node);
      LinksAfter(was, k, node);
      assert head == NodeAt(spine, 0);
    }

    /** With the two new links every node leads to the one after it. */
    lemma LinksAfter(was: seq<RouteStopNode>, k: nat, node: RouteStopNode)
      requires k <= |was| && Distinct(was) && node !in was && node.next == NodeAt(was, k)
      requires forall i | 0 <= i < |was| :: was[i].next == if i + 1 == k then node else NodeAt(was, i + 1)
      ensures var s := was[..k] + [node] + was[k..]; forall i | 0 <= i < |s| :: s[i].next == NodeAt(s, i + 1)
    {
      SpliceValid(was, k, node);
      hide NodeAt, Distinct;
      var s := was[..k] + [node] + was[k..];
      forall i | 0 <= i < |s| ensures s[i].next == NodeAt(s, i + 1) {
        assert NodeAt(s, i + 1) == if i + 1 < k then was[i + 1] else if i + 1 == k then node else NodeAt(was, i);
        if i < k {
          assert s[i] == was[i];
          WasNext(was, i);
        } else if i > k {
          assert s[i] == was[i - 1];
        } else {
          assert s[i] == node;
        }
      }
    }

    lemma WasNext(was: seq<RouteStopNode>, i: nat)
      requires i < |was|
      ensures NodeAt(was, i + 1) == if i + 1 < |was| then was[i + 1] else null
    {}

    /** The two assignments of the insertion. */
    method Relink(prev: RouteStopNode?, cur: RouteStopNode?, node: RouteStopNode, ghost was: seq<RouteStopNode>,
                  ghost k: nat)
      requires Valid() && was == spine && k <= |was| && node !in was
      requires cur == NodeAt(was, k) && prev == (if k > 0 then was[k - 1] else null)
      modifies this`head, was, node
      ensures node.next == cur && head == (if k == 0 then node else old(head)) && node.row == old(node.row)
      ensures forall i | 0 <= i < |was| :: was[i].next == if i + 1 == k then node else NodeAt(was, i + 1)
      ensures forall n | n in was :: n.row == old(n.row)
    {
      assert forall i | 0 <= i < |was| :: was[i].next == NodeAt(was, i + 1);
      node.next := cur;
      if prev == null { head := node; } else { prev.next := node; }
    }

    /** `route_stop_add`: the new node goes in front of the first one with a greater sequence number. */
    method Add(value: Row)
      requires Valid()
      modifies this, spine
      ensures Valid() && Contents() == Insert(old(Contents()), value)
      ensures forall n | n in spine :: n in old(spine) || fresh(n)
    {
      hide Place, Insert, Valid;
      ghost var rows, was := Contents(), spine;
      var prev, cur;
      ghost var k;
      prev, cur, k := FindPlace(value.seqNo);
      var node := new RouteStopNode(value);
      Splice(prev, cur, node, k);
      assert forall i | 0 <= i < |was| :: was[i] in was && was[i].row == rows[i];
      InsertedRows(was, rows, k, node, value);
      assert Contents() == Insert(rows, value);
    }

    /** The rows of the nodes after the splice. */
    lemma InsertedRows(was: seq<RouteStopNode>, rows: seq<Row>, k: nat, node: RouteStopNode, value: Row)
      requires |was| == |rows| && k == Place(rows, value.seqNo) && node.row == value
      requires forall i | 0 <= i < |was| :: was[i].row == rows[i]
      ensures var s := was[..k] + [node] + was[k..];
              |s| == |Insert(rows, value)| && forall i | 0 <= i < |s| :: s[i].row == Insert(rows, value)[i]
    {
      hide Place;
      var s := was[..k] + [node] + was[k..];
      var rs := rows[..k] + [value] + rows[k..];
      assert rs == Insert(rows, value);
      forall i | 0 <= i < |s| ensures s[i].row == rs[i] {
        if i < k {
          assert s[i] == was[i] && rs[i] == rows[i];
        } else if i > k {
          assert s[i] == was[i - 1] && rs[i] == rows[i - 1];
        }
      }
    }

    /** Where the nodes are after the splice, and that none occurs twice. */
    lemma SpliceValid(was: seq<RouteStopNode>, k: nat, node: RouteStopNode)
      requires k <= |was| && Distinct(was) && node !in was
      ensures var s := was[..k] + [node] + was[k..];
              Distinct(s) && forall i | 0 <= i <= |s| ::
                  NodeAt(s, i) == (if i < k then was[i] else if i == k then node else NodeAt(was, i - 1))
    {
      var s := was[..k] + [node] + was[k..];
      assert forall i | 0 <= i < |s| :: s[i] == (if i < k then was[i] else if i == k then node else was[i - 1]);
    }
  }

  lemma {:induction false} PlaceIs(rows: seq<Row>, seqNo: int, k: nat)
    requires k <= |rows| && (forall i | 0 <= i < k :: rows[i].seqNo <= seqNo) && (k < |rows| ==> rows[k].seqNo > seqNo)
    ensures Place(rows, seqNo) == k
  {
    PlaceMeans(rows, seqNo);
  }
}
