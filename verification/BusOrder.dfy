/** In what order the bus search shows its routes: a stable sort of the displayable matches by rank. */
module BusOrder {
  import opened BusSearch

  /** The matches that have a label to display, in list order. */
  function Displayed(cs: seq<Candidate>): seq<Candidate> {
    if cs == [] then []
    else
      var c := cs[|cs| - 1];
      Displayed(cs[..|cs| - 1]) + (if 1 <= c.rank <= 3 && c.key.Some? then [c] else [])
  }

  /** Those of one rank, in their order. */
  function ByRank(cs: seq<Candidate>, rank: int): seq<Candidate> {
    if cs == [] then []
    else ByRank(cs[..|cs| - 1], rank) + (if cs[|cs| - 1].rank == rank then [cs[|cs| - 1]] else [])
  }

  ghost predicate Ordered(cs: seq<Candidate>) {
    forall i, j | 0 <= i < j < |cs| :: cs[i].rank <= cs[j].rank
  }

  lemma ByRankNext(cs: seq<Candidate>, c: Candidate, rank: int)
    ensures ByRank(cs + [c], rank) == if c.rank == rank then ByRank(cs, rank) + [c] else ByRank(cs, rank)
    ensures ByRank([], rank) == []
  {
    assert (cs + [c])[..|cs|] == cs;
  }

  lemma DisplayedNext(cs: seq<Candidate>, c: Candidate)
    ensures Displayed(cs + [c]) == if 1 <= c.rank <= 3 && c.key.Some? then Displayed(cs) + [c] else Displayed(cs)
    ensures Displayed([]) == []
  {
    assert (cs + [c])[..|cs|] == cs;
  }

  lemma OfRankNext(cs: seq<Candidate>, c: Candidate, rank: int)
    ensures OfRank(cs + [c], rank) == if c.rank == rank && c.key.Some? then OfRank(cs, rank) + [c] else OfRank(cs, rank)
    ensures OfRank([], rank) == []
  {
    assert (cs + [c])[..|cs|] == cs;
  }

  lemma {:induction false} ByRankConcat(a: seq<Candidate>, b: seq<Candidate>, rank: int)
    ensures ByRank(a + b, rank) == ByRank(a, rank) + ByRank(b, rank)
  {
    hide *;
    if b == [] {
      assert a + b == a && b == [];
      assert ByRank(b, rank) == [] by { NothingOfRank(rank); }
    } else {
      var front, c := b[..|b| - 1], b[|b| - 1];
      assert b == front + [c] && a + b == (a + front) + [c];
      ByRankConcat(a, front, rank);
      ByRankNext(a + front, c, rank);
      ByRankNext(front, c, rank);
      if c.rank == rank {
        assert ByRank(a, rank) + ByRank(front, rank) + [c] == ByRank(a, rank) + (ByRank(front, rank) + [c]);
      }
    }
  }

  lemma NothingOfRank(rank: int)
    ensures ByRank([], rank) == []
  {}

  /** One pass takes the displayable matches of its rank. */
  lemma {:induction false} PassTakes(cs: seq<Candidate>, rank: int)
    requires 1 <= rank <= 3
    ensures OfRank(cs, rank) == ByRank(Displayed(cs), rank)
    ensures forall c | c in OfRank(cs, rank) :: c.rank == rank
  {
    hide *;
    if cs == [] {
      NothingTaken(rank);
    } else {
      var front, c := cs[..|cs| - 1], cs[|cs| - 1];
      assert cs == front + [c];
      PassTakes(front, rank);
      OfRankNext(front, c, rank);
      DisplayedNext(front, c);
      ByRankNext(Displayed(front), c, rank);
    }
  }

  lemma NothingTaken(rank: int)
    ensures OfRank([], rank) == [] && Displayed([]) == [] && ByRank([], rank) == []
  {}

  /** Of candidates of one rank, those of that rank are all, and those of another are none. */
  lemma {:induction false} OneRank(cs: seq<Candidate>, rank: int, other: int)
    requires forall c | c in cs :: c.rank == rank
    ensures ByRank(cs, other) == if other == rank then cs else []
  {
    hide *;
    if cs == [] {
      NothingOfRank(other);
    } else {
      var front, c := cs[..|cs| - 1], cs[|cs| - 1];
      assert cs == front + [c] && c in cs && forall d | d in front :: d in cs;
      OneRank(front, rank, other);
      ByRankNext(front, c, other);
    }
  }

  lemma {:induction false} DisplayedRanks(cs: seq<Candidate>)
    ensures forall c | c in Displayed(cs) :: c in cs && 1 <= c.rank <= 3 && c.key.Some?
  {
    if cs != [] { DisplayedRanks(cs[..|cs| - 1]); }
  }

  lemma {:induction false} NoneOfRank(cs: seq<Candidate>, rank: int)
    ensures ByRank(cs, rank) == [] <==> forall c | c in cs :: c.rank != rank
  {
    if cs != [] {
      assert cs[|cs| - 1] in cs && cs == cs[..|cs| - 1] + [cs[|cs| - 1]];
      NoneOfRank(cs[..|cs| - 1], rank);
    }
  }

  /** The routes in the order of the passes: ordered by rank, and for every rank the displayable matches of that rank in
      list order. */
  lemma {:induction false} RankedIsStableSort(cs: seq<Candidate>, rank: int)
    ensures Ordered(Ranked(cs))
    ensures ByRank(Ranked(cs), rank) == ByRank(Displayed(cs), rank)
  {
    hide OfRank, ByRank, Displayed;
    var a, b, c := OfRank(cs, 1), OfRank(cs, 2), OfRank(cs, 3);
    PassTakes(cs, 1);
    PassTakes(cs, 2);
    PassTakes(cs, 3);
    ByRankConcat(a + b, c, rank);
    ByRankConcat(a, b, rank);
    OneRank(a, 1, rank);
    OneRank(b, 2, rank);
    OneRank(c, 3, rank);
    DisplayedRanks(cs);
    NoneOfRank(Displayed(cs), rank);
    assert forall i | 0 <= i < |a| :: a[i] in a;
    assert forall i | 0 <= i < |b| :: b[i] in b;
    assert forall i | 0 <= i < |c| :: c[i] in c;
  }

  lemma OrderedFront(front: seq<Candidate>, c: Candidate)
    requires Ordered(front + [c])
    ensures Ordered(front) && forall d | d in front :: d.rank <= c.rank
  {
    var cs := front + [c];
    assert forall i | 0 <= i < |front| :: cs[i] == front[i] && cs[i].rank <= cs[|front|].rank;
  }

  /** An ordered list of the three ranks is its three parts. */
  lemma {:induction false} SplitByRank(ds: seq<Candidate>)
    requires Ordered(ds) && forall d | d in ds :: 1 <= d.rank <= 3
    ensures ds == ByRank(ds, 1) + ByRank(ds, 2) + ByRank(ds, 3)
  {
    hide *;
    if ds == [] {
      NothingOfRank(1);
      NothingOfRank(2);
      NothingOfRank(3);
    } else {
      var front, c := ds[..|ds| - 1], ds[|ds| - 1];
      assert ds == front + [c] && c in ds && forall d | d in front :: d in ds;
      OrderedFront(front, c);
      SplitByRank(front);
      ByRankNext(front, c, 1);
      ByRankNext(front, c, 2);
      ByRankNext(front, c, 3);
      NoneOfRank(front, 2);
      NoneOfRank(front, 3);
      LastPart(ByRank(front, 1), ByRank(front, 2), ByRank(front, 3), c);
    }
  }

  lemma LastPart(x: seq<Candidate>, y: seq<Candidate>, z: seq<Candidate>, c: Candidate)
    ensures (x + y + z) + [c] == x + y + (z + [c])
    ensures z == [] ==> (x + y + z) + [c] == x + (y + [c]) + z
    ensures y == z == [] ==> (x + y + z) + [c] == (x + [c]) + y + z
  {}

  /** And these two facts leave no freedom. */
  lemma RankedUnique(cs: seq<Candidate>, ds: seq<Candidate>)
    requires Ordered(ds) && forall rank :: ByRank(ds, rank) == ByRank(Displayed(cs), rank)
    ensures ds == Ranked(cs)
  {
    hide ByRank, Displayed, OfRank;
    PassTakes(cs, 1);
    PassTakes(cs, 2);
    PassTakes(cs, 3);
    DisplayedRanks(cs);
    forall d | d in ds ensures 1 <= d.rank <= 3 {
      NoneOfRank(ds, d.rank);
      assert ByRank(ds, d.rank) == ByRank(Displayed(cs), d.rank);
      NoneOfRank(Displayed(cs), d.rank);
    }
    SplitByRank(ds);
  }

  /** No route is lost or doubled by the passes. */
  lemma {:induction false} RankedIsPermutation(cs: seq<Candidate>)
    ensures multiset(Ranked(cs)) == multiset(Displayed(cs))
  {
    hide OfRank, Displayed;
    if cs == [] {
      NothingTaken(1);
      NothingTaken(2);
      NothingTaken(3);
    } else {
      var front, c := cs[..|cs| - 1], cs[|cs| - 1];
      assert cs == front + [c];
      RankedIsPermutation(front);
      DisplayedNext(front, c);
      OfRankNext(front, c, 1);
      OfRankNext(front, c, 2);
      OfRankNext(front, c, 3);
    }
  }

  // ---------------------------------------------------------------- what is shown

  lemma {:induction false} DedupOrdered(cs: seq<Candidate>)
    requires Ordered(cs)
    ensures Ordered(Dedup(cs))
  {
    hide Dedup, Clash;
    if cs == [] {
      Nothing();
    } else {
      var front, c := cs[..|cs| - 1], cs[|cs| - 1];
      assert cs == front + [c];
      DedupOrdered(front);
      DedupMember(front);
      DedupSnoc(front, c);
      forall i | 0 <= i < |Dedup(front)| ensures Dedup(front)[i].rank <= c.rank {
        assert Dedup(front)[i] in front;
        var j :| 0 <= j < |front| && front[j] == Dedup(front)[i];
        assert cs[j] == front[j];
      }
    }
  }

  /** The shown routes are ordered by rank. */
  lemma FoundOrdered(cs: seq<Candidate>)
    ensures Ordered(Found(cs))
  {
    hide Dedup, Ranked;
    RankedIsStableSort(cs, 1);
    DedupOrdered(Ranked(cs));
  }

  /** Whenever something matches, the first route shown is the first in list order of the best rank there is. */
  lemma BestFirst(cs: seq<Candidate>)
    requires Displayed(cs) != []
    ensures Found(cs) != []
    ensures var best := Found(cs)[0];
            (forall c | c in Displayed(cs) :: best.rank <= c.rank) && [best] <= ByRank(Displayed(cs), best.rank)
  {
    hide Dedup, OfRank, Ranked, ByRank, Displayed, Clash;
    RankedIsPermutation(cs);
    var order := Ranked(cs);
    assert forall c :: c in order <==> c in multiset(order);
    assert forall c :: c in Displayed(cs) <==> c in multiset(Displayed(cs));
    assert |multiset(order)| == |order|;
    KeptFirst(order);
    var best := order[0];
    RankedIsStableSort(cs, best.rank);
    FirstOfRank(order);
    forall c | c in Displayed(cs) ensures best.rank <= c.rank {
      assert c in order;
      var i :| 0 <= i < |order| && order[i] == c;
    }
  }

  /** Nothing comes before the first candidate that it could clash with. */
  lemma {:induction false} KeptFirst(cs: seq<Candidate>)
    requires cs != []
    ensures Dedup(cs) != [] && Dedup(cs)[0] == cs[0]
  {
    hide Dedup, Clash;
    assert cs == [cs[0]] + cs[1..] && [] + [cs[0]] == [cs[0]];
    DedupSnoc([], cs[0]);
    NothingFirst(KeyOf(cs[0]));
    assert KeysOf([]) == [];
    DedupGrows([cs[0]], cs[1..]);
  }

  lemma {:induction false} FirstOfRank(cs: seq<Candidate>)
    requires cs != []
    ensures [cs[0]] <= ByRank(cs, cs[0].rank)
  {
    hide ByRank;
    assert cs == [cs[0]] + cs[1..];
    ByRankConcat([cs[0]], cs[1..], cs[0].rank);
    ByRankNext([], cs[0], cs[0].rank);
    assert [] + [cs[0]] == [cs[0]];
  }
}
