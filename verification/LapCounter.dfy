/** Positions of an unbounded counter laid out on a ring of `m` slots: the slot is
    the remainder, and the phase (the cycle bit a producer writes) flips once a lap. */
module LapCounter {
  import opened DivMod

  function Slot(k: nat, m: nat): (i: nat)
    requires m > 0
    ensures i < m
  {
    k % m
  }

  /** The cycle bit of lap k / m; the first lap writes 1. */
  predicate Phase(k: nat, m: nat)
    requires m > 0
  {
    k / m % 2 == 0
  }

  /** Steps that stay in the lap of k. */
  lemma SameLap(k: nat, d: nat, m: nat)
    requires m > 0 && k % m + d < m
    ensures (k + d) / m == k / m && (k + d) % m == k % m + d
  {
    DivModUnique(k + d, m, k / m, k % m + d);
  }

  /** Steps that end in the lap after that of k. */
  lemma NextLap(k: nat, d: nat, m: nat)
    requires m > 0 && m <= k % m + d < 2 * m
    ensures (k + d) / m == k / m + 1 && (k + d) % m == k % m + d - m
  {
    assert (k / m + 1) * m == k / m * m + m;
    DivModUnique(k + d, m, k / m + 1, k % m + d - m);
  }

  /** Where the counter d steps after k stands, for d up to one whole lap. */
  lemma Ahead(k: nat, d: nat, m: nat)
    requires m > 0 && d <= m
    ensures Slot(k, m) + d < m ==> Slot(k + d, m) == Slot(k, m) + d && Phase(k + d, m) == Phase(k, m)
    ensures Slot(k, m) + d >= m ==> Slot(k + d, m) == Slot(k, m) + d - m && Phase(k + d, m) != Phase(k, m)
  {
    if k % m + d < m {
      SameLap(k, d, m);
    } else {
      NextLap(k, d, m);
    }
  }
}
