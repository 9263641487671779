/** What the builder's arithmetic means: flat distances in kilometres and the minutes they take. */
module Distances {
  import opened Loader

  /** Squaring keeps the order of lengths. */
  lemma SquareOrder(a: real, b: real)
    requires a >= 0.0 && b >= 0.0
    ensures a <= b <==> a * a <= b * b
  {
    assert b * b - a * a == (b - a) * (b + a);
    if a <= b {
      assert (b - a) * (b + a) >= 0.0;
    } else {
      ProductPositive(a - b, a + b);
      assert (b - a) * (b + a) == -((a - b) * (a + b));
    }
  }

  lemma ProductPositive(x: real, y: real)
    requires x > 0.0 && y > 0.0
    ensures x * y > 0.0
  {}

  /** A degree of latitude is 111 km, one of longitude 88 km, and the two legs add up by Pythagoras. */
  lemma Pythagoras(lat1: real, lng1: real, lat2: real, lng2: real, north: real, east: real)
    requires north == 111.0 * (lat2 - lat1) && east == 88.0 * (lng2 - lng1)
    ensures DistanceSq(lat1, lng1, lat2, lng2) == north * north + east * east
    ensures DistanceSq(lat2, lng2, lat1, lng1) == DistanceSq(lat1, lng1, lat2, lng2) >= 0.0
  {
    var a, b := (lat1 - lat2) * 111.0, (lng1 - lng2) * 88.0;
    assert a == -north && b == -east;
    assert (lat2 - lat1) * 111.0 == north && (lng2 - lng1) * 88.0 == east;
    NegatedSquare(a, north);
    NegatedSquare(b, east);
  }

  lemma NegatedSquare(a: real, b: real)
    requires a == -b
    ensures a * a == b * b >= 0.0
  {}

  /** The table of walking times, in kilometres: from 3 minutes for up to 300 m to 50 for up to 5 km, and 80 beyond; and
      the walking rule reaches 3 km. */
  lemma WalkingTimes(km: real)
    requires km >= 0.0
    ensures TransferMinutes(km * km) == if km <= 0.3 then 3 else if km <= 0.5 then 5 else if km <= 1.0 then 10
                                   else if km <= 1.5 then 15 else if km <= 2.0 then 20 else if km <= 3.0 then 30
                                   else if km <= 5.0 then 50 else 80
    ensures km * km <= WALKABLE <==> km <= 3.0
  {
    SquareOrder(km, 0.3);
    SquareOrder(km, 0.5);
    SquareOrder(km, 1.0);
    SquareOrder(km, 1.5);
    SquareOrder(km, 2.0);
    SquareOrder(km, 3.0);
    SquareOrder(km, 5.0);
  }

  /** Farther is never quicker. */
  lemma WalkingTimesGrow(a: real, b: real)
    requires a <= b
    ensures TransferMinutes(a) <= TransferMinutes(b)
  {}

  /** A train takes two minutes for each kilometre, rounded to the nearest minute and never less than two. */
  lemma RidingTimes(km: real)
    ensures var m, exact := SubwayMinutes(km), km * 2.0;
            if exact < 1.5 then m == 2 else m as real - 0.5 <= exact < m as real + 0.5
  {
    var f := (km * 2.0 + 0.5).Floor;
    assert f as real <= km * 2.0 + 0.5 < f as real + 1.0;
    if km * 2.0 < 1.5 { assert f as real < 2.0; }
  }
}
