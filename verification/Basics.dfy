/** Values every other module shares: an option type and the integer bounds of the program. */
module Basics {

  datatype Option<+T> = None | Some(value: T)

  /** The C `int` of the platforms the program is built for. */
  const INT_MAX := 0x7fff_ffff
  newtype int32 = x: int | -0x8000_0000 <= x <= 0x7fff_ffff

  // The result codes of the server.
  const ERR_OK := 0
  const ERR_NOT_FOUND := 1
  const ERR_INVALID_REQUEST := 2
  const ERR_SERVER_ERROR := 4

  /** The answer to a malformed request. */
  const INVALID := "ERROR|2:INVALID_REQUEST\n"

  function Min(a: int, b: int): int { if a < b then a else b }
  function Max(a: int, b: int): int { if a < b then b else a }

  /** The last `n` elements of `s`, or all of it. */
  function LastN<T>(s: seq<T>, n: nat): seq<T> {
    if |s| <= n then s else s[|s| - n..]
  }

  lemma Regroup<T>(a: seq<T>, b: seq<T>, c: seq<T>)
    ensures a + b + c == a + (b + c)
  {}

  ghost predicate Distinct<T>(s: seq<T>) {
    forall i, j | 0 <= i < j < |s| :: s[i] != s[j]
  }

  /** Pigeonhole: distinct indices below `n` are at most `n` many. */
  lemma {:induction false} DistinctBounded(s: seq<nat>, n: nat)
    requires Distinct(s) && forall x | x in s :: x < n
    ensures |s| <= n
  {
    assert s != [] ==> s[0] in s;
    if n == 0 {
    } else if k :| 0 <= k < |s| && s[k] == n - 1 {
      var t := s[..k] + s[k + 1..];
      assert forall x | x in t :: x in s && x != n - 1;
      DistinctBounded(t, n - 1);
    } else {
      DistinctBounded(s, n - 1);
    }
  }
}
