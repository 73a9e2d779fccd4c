/** Identifiers on the circle of 2^160 points (utils/id_utils.C). */
module Ids {

  /** 2^160 */
  const RING: nat := 0x1_0000000000_0000000000_0000000000_0000000000

  type Id = n: nat | n < RING

  /** Also of a number not far beyond the last identifier. */
  function IncId(n: nat): nat {
    if n + 1 >= RING then n + 1 - RING else n + 1
  }

  /** n in (a, b) on the circle. */
  predicate Between(a: nat, b: nat, n: nat) {
    if a == b then n != a
    else if a < b then n > a && n < b
    else n > a || n < b
  }

  /** n in [a, b) on the circle. */
  predicate BetweenLeftIncl(a: nat, b: nat, n: nat) {
    if a == b && n == a then true
    else if a < b then n >= a && n < b
    else n >= a || n < b
  }

  /** n in (a, b] on the circle. */
  predicate BetweenRightIncl(a: nat, b: nat, n: nat) {
    if a == b && n == a then true
    else if a < b then n > a && n <= b
    else n > a || n <= b
  }

  /** n in [a, b] on the circle. */
  predicate BetweenBothIncl(a: nat, b: nat, n: nat) {
    if a == b && n == a then true
    else if a < b then n >= a && n <= b
    else n >= a || n <= b
  }

  /** Clockwise distance as the code computes it: a full turn from a to a. */
  function Distance(a: Id, b: Id): nat {
    if a < b then b - a else RING - a + b
  }

  /** Clockwise steps from a to b, none from a to a. */
  function Arc(a: Id, b: Id): (r: nat)
    ensures r < RING && (r == 0 <==> a == b)
  {
    if a <= b then b - a else RING - a + b
  }

  /** The interval tests say where the point lies on the way round from a. */
  lemma {:induction false} IntervalsAreArcs(a: Id, b: Id, n: Id)
    ensures Between(a, b, n) <==> 0 < Arc(a, n) < Distance(a, b)
    ensures BetweenLeftIncl(a, b, n) <==> (a == b || Arc(a, n) < Arc(a, b))
    ensures BetweenRightIncl(a, b, n) <==> (a == b || 0 < Arc(a, n) <= Arc(a, b))
    ensures BetweenBothIncl(a, b, n) <==> (a == b || Arc(a, n) <= Arc(a, b))
  {
  }

  // ---------- powers of two ----------

  function Pow2(n: nat): nat {
    if n == 0 then 1 else 2 * Pow2(n - 1)
  }

  lemma {:induction false} Pow2Positive(n: nat)
    ensures Pow2(n) > 0
  {
    if n > 0 {
      Pow2Positive(n - 1);
    }
  }

  lemma {:induction false} Pow2Grows(m: nat, n: nat)
    requires m < n
    ensures Pow2(m) > 0 && Pow2(n) >= 2 * Pow2(m)
  {
    if n == m + 1 {
      Pow2Positive(m);
    } else {
      Pow2Grows(m, n - 1);
    }
  }

  lemma {:induction false} Pow2Nibble(n: nat)
    ensures Pow2(n + 4) == 16 * Pow2(n)
  {
    assert Pow2(n + 1) == 2 * Pow2(n);
    assert Pow2(n + 2) == 2 * Pow2(n + 1);
    assert Pow2(n + 3) == 2 * Pow2(n + 2);
    assert Pow2(n + 4) == 2 * Pow2(n + 3);
  }

  lemma {:induction false} Pow2Half(n: nat)
    ensures Pow2(n + 16) == 0x1_0000 * Pow2(n)
  {
    Pow2Nibble(n);
    Pow2Nibble(n + 4);
    Pow2Nibble(n + 8);
    Pow2Nibble(n + 12);
  }

  /** The number of bits of an identifier. */
  const NBIT: nat := 160

  lemma {:induction false} RingIsPow2(n: nat)
    requires n == NBIT
    ensures Pow2(n) == RING
  {
    Pow2Half(n - 16);
    Pow2Half(n - 32);
    Pow2Half(n - 48);
    Pow2Half(n - 64);
    Pow2Half(n - 80);
    Pow2Half(n - 96);
    Pow2Half(n - 112);
    Pow2Half(n - 128);
    Pow2Half(n - 144);
    Pow2Half(n - 160);
  }

  /** successorID: 2^p further round the circle. */
  function SuccessorId(n: Id, p: nat): Id {
    (n + Pow2(p)) % RING
  }
}
