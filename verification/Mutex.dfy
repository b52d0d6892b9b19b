/** How many threads are inside a critical section. */
module Mutex {
  function Count(inside: seq<bool>): (n: nat)
    ensures n <= |inside|
  {
    if inside == [] then 0 else Count(inside[..|inside| - 1]) + if inside[|inside| - 1] then 1 else 0
  }

  /** One thread goes in or out. */
  lemma {:induction false} CountUpdate(inside: seq<bool>, t: nat, now: bool)
    requires t < |inside|
    ensures Count(inside[t := now]) == Count(inside) - (if inside[t] then 1 else 0) + (if now then 1 else 0)
    decreases |inside|
  {
    var n := |inside| - 1;
    if t < n {
      CountUpdate(inside[..n], t, now);
      assert inside[t := now][..n] == inside[..n][t := now];
    } else {
      assert inside[t := now][..n] == inside[..n];
    }
  }

  lemma {:induction false} CountsInside(inside: seq<bool>, t: nat)
    requires t < |inside| && inside[t]
    ensures Count(inside) >= 1
  {
    CountUpdate(inside, t, false);
  }

  /** A count of at most one leaves room for no second thread. */
  lemma {:induction false} OnlyOne(inside: seq<bool>, t: nat, u: nat)
    requires Count(inside) <= 1 && t < |inside| && u < |inside| && inside[t] && inside[u]
    ensures t == u
  {
    CountUpdate(inside, t, false);
    if t != u {
      CountsInside(inside[t := false], u);
    }
  }

  lemma {:induction false} NoneInside(inside: seq<bool>)
    ensures Count(inside) == 0 <==> forall t | 0 <= t < |inside| :: !inside[t]
    decreases |inside|
  {
    if inside != [] {
      NoneInside(inside[..|inside| - 1]);
    }
  }
}
