/** Slot geometry of 160-bit keys (merkle/merkle_hash.C).

    A key is read as 26 slots of six bits followed by one slot of four bits.
    `Prefix(k, d)` is the number formed by the first `d` slots of `k`; it is
    defined by repeated division by a literal, so that all later reasoning
    about slots stays linear.
 */
module Slots {

  import opened Ids

  /** The number of keys. */
  const KEYS: nat := RING

  type Key = Id

  /** Number of values of slot `d`: six bits, four for the last one. */
  function Fan(d: nat): nat {
    if d < 26 then 64 else 16
  }

  /** Number of keys that share their first `d` slots. */
  function Width(d: nat): nat
    requires d <= 27
    decreases 27 - d
  {
    if d == 27 then 1 else Fan(d) * Width(d + 1)
  }

  function Prefix(k: nat, d: nat): nat
    requires d <= 27
    decreases 27 - d
  {
    if d == 27 then k else Prefix(k, d + 1) / Fan(d)
  }

  function Slot(k: nat, d: nat): nat
    requires d <= 26
  {
    Prefix(k, d + 1) % Fan(d)
  }

  lemma {:induction false} SlotRange(k: nat, d: nat)
    requires d <= 26
    ensures Slot(k, d) < Fan(d) <= 64
    ensures Prefix(k, d + 1) == Fan(d) * Prefix(k, d) + Slot(k, d)
  {
  }

  /** Agreement on `d + 1` slots is agreement on `d` slots and on slot `d`. */
  lemma {:induction false} PrefixStep(a: nat, b: nat, d: nat)
    requires d <= 26
    ensures Prefix(a, d + 1) == Prefix(b, d + 1)
            <==> Prefix(a, d) == Prefix(b, d) && Slot(a, d) == Slot(b, d)
  {
    SlotRange(a, d);
    SlotRange(b, d);
  }

  lemma {:induction false} PrefixMono(a: nat, b: nat, d: nat)
    requires d <= 27 && a <= b
    ensures Prefix(a, d) <= Prefix(b, d)
    decreases 27 - d
  {
    if d < 27 {
      PrefixMono(a, b, d + 1);
    }
  }

  /** Agreement on a longer prefix implies agreement on every shorter one. */
  lemma {:induction false} PrefixWeaken(a: nat, b: nat, d: nat, e: nat)
    requires d <= e <= 27
    requires Prefix(a, e) == Prefix(b, e)
    ensures Prefix(a, d) == Prefix(b, d)
    decreases e - d
  {
    if d < e {
      PrefixWeaken(a, b, d + 1, e);
    }
  }

  lemma {:induction false} WidthPositive(d: nat)
    requires d <= 27
    ensures Width(d) > 0
    ensures d <= 26 ==> Width(d) >= 16
    decreases 27 - d
  {
    if d < 27 {
      WidthPositive(d + 1);
    }
  }

  lemma {:induction false} BlockStep(p: nat, f: nat, s: nat, w: nat, k: nat)
    requires s < f
    requires (f * p + s) * w <= k < (f * p + s) * w + w
    ensures p * (f * w) <= k < p * (f * w) + f * w
  {
    var b := f * p;
    Grouped(p, f, w);
    Spread(b, s, w);
    Spread(b, f, w);
    Spread(s + 1, f - s - 1, w);
    Spread(s, 1, w);
  }

  lemma {:induction false} Grouped(p: nat, f: nat, w: nat)
    ensures (f * p) * w == p * (f * w)
  {
  }

  lemma {:induction false} Spread(a: nat, b: nat, w: nat)
    ensures (a + b) * w == a * w + b * w && b * w >= 0
  {
  }

  lemma {:induction false} NextBlock(p: nat, q: nat, w: nat)
    requires p < q
    ensures p * w + w <= q * w
  {
    if q > p + 1 {
      NextBlock(p, q - 1, w);
    }
    assert q * w == (q - 1) * w + w;
  }

  lemma {:induction false} BlockUnique(p: nat, q: nat, w: nat, k: nat)
    requires p * w <= k < p * w + w
    requires q * w <= k < q * w + w
    ensures p == q
  {
    if q < p {
      NextBlock(q, p, w);
    } else if p < q {
      NextBlock(p, q, w);
    }
  }

  /** The keys with a given prefix are one contiguous block of `Width(d)` keys. */
  lemma {:induction false} PrefixBlock(k: nat, d: nat)
    requires d <= 27
    ensures Prefix(k, d) * Width(d) <= k < Prefix(k, d) * Width(d) + Width(d)
    decreases 27 - d
  {
    if d < 27 {
      PrefixBlock(k, d + 1);
      SlotRange(k, d);
      BlockStep(Prefix(k, d), Fan(d), Slot(k, d), Width(d + 1), k);
    }
  }

  /** Every number of the block has the block's prefix. */
  lemma {:induction false} BlockPrefix(p: nat, k: nat, d: nat)
    requires d <= 27
    requires p * Width(d) <= k < p * Width(d) + Width(d)
    ensures Prefix(k, d) == p
  {
    PrefixBlock(k, d);
    BlockUnique(p, Prefix(k, d), Width(d), k);
  }

  lemma {:induction false} WidthAtRoot()
    ensures Width(0) == KEYS
    ensures forall k: Key :: Prefix(k, 0) == 0
  {
    assert Width(26) == 16;
    assert Width(25) == 0x400;
    assert Width(24) == 0x1_0000;
    assert Width(23) == 0x40_0000;
    assert Width(22) == 0x1000_0000;
    assert Width(21) == 64 * Width(22);
    assert Width(20) == 64 * Width(21);
    assert Width(19) == 64 * Width(20);
    assert Width(18) == 64 * Width(19);
    assert Width(17) == 64 * Width(18);
    assert Width(16) == 64 * Width(17);
    assert Width(15) == 64 * Width(16);
    assert Width(14) == 64 * Width(15);
    assert Width(13) == 64 * Width(14);
    assert Width(12) == 64 * Width(13);
    assert Width(11) == 64 * Width(12);
    assert Width(10) == 64 * Width(11);
    assert Width(9) == 64 * Width(10);
    assert Width(8) == 64 * Width(9);
    assert Width(7) == 64 * Width(8);
    assert Width(6) == 64 * Width(7);
    assert Width(5) == 64 * Width(6);
    assert Width(4) == 64 * Width(5);
    assert Width(3) == 64 * Width(4);
    assert Width(2) == 64 * Width(3);
    assert Width(1) == 64 * Width(2);
    assert Width(0) == 64 * Width(1);
    forall k: Key ensures Prefix(k, 0) == 0 {
      BlockPrefix(0, k, 0);
    }
  }

  /** The first key with the prefix of `k` at depth `d` (`clear_suffix`). */
  function ClearSuffix(k: Key, d: nat): (r: Key)
    requires d <= 27
    ensures r <= k && Prefix(r, d) == Prefix(k, d)
  {
    PrefixBlock(k, d);
    WidthPositive(d);
    BlockPrefix(Prefix(k, d), Prefix(k, d) * Width(d), d);
    Prefix(k, d) * Width(d)
  }

  /** Keys that share the prefix of `p` are exactly one interval. */
  lemma {:induction false} SharesIsInterval(p: Key, k: Key, d: nat)
    requires d <= 27
    ensures Prefix(k, d) == Prefix(p, d)
            <==> ClearSuffix(p, d) <= k < ClearSuffix(p, d) + Width(d)
  {
    PrefixBlock(k, d);
    if ClearSuffix(p, d) <= k < ClearSuffix(p, d) + Width(d) {
      BlockPrefix(Prefix(p, d), k, d);
    }
  }

  /** `a` precedes `b` at the first slot where they differ. */
  ghost predicate SlotsBefore(a: nat, b: nat, d: nat)
    requires d <= 27
    decreases 27 - d
  {
    d < 27 && (Slot(a, d) < Slot(b, d) || (Slot(a, d) == Slot(b, d) && SlotsBefore(a, b, d + 1)))
  }

  /** Numeric key order is lexicographic slot order (merkle_hash::cmp). */
  lemma {:induction false} OrderIsLexicographic(a: nat, b: nat, d: nat)
    requires d <= 27 && Prefix(a, d) == Prefix(b, d)
    ensures a < b <==> SlotsBefore(a, b, d)
    decreases 27 - d
  {
    if d < 27 {
      SlotRange(a, d);
      SlotRange(b, d);
      if Slot(a, d) == Slot(b, d) {
        OrderIsLexicographic(a, b, d + 1);
      } else {
        if a <= b {
          PrefixMono(a, b, d + 1);
        } else {
          PrefixMono(b, a, d + 1);
        }
      }
    }
  }

  lemma {:induction false} ChildBlock(p: nat, f: nat, s: nat, w: nat)
    requires s < f
    ensures p * (f * w) <= (f * p + s) * w
    ensures (f * p + s) * w + w <= p * (f * w) + f * w
    ensures (f * p + s) * w == p * (f * w) + s * w
  {
    assert (f * p + s) * w == (f * p) * w + s * w;
    assert (f * p) * w == p * (f * w);
    assert f * w == s * w + w + (f - s - 1) * w;
    assert (f - s - 1) * w >= 0 && s * w >= 0;
  }

  /** A block lies inside the key space. */
  lemma {:induction false} BlockFits(k: Key, d: nat)
    requires d <= 27
    ensures Prefix(k, d) * Width(d) + Width(d) <= KEYS
  {
    WidthAtRoot();
    if d > 0 {
      BlockFits(k, d - 1);
      SlotRange(k, d - 1);
      ChildBlock(Prefix(k, d - 1), Fan(d - 1), Slot(k, d - 1), Width(d));
    }
  }

  /** The first key of child `i` of the node of `p` at depth `d`: clear the
      suffix of `p`, then write_slot (d, i). */
  function ChildPrefix(p: Key, d: nat, i: nat): (r: Key)
    requires d <= 26 && i < Fan(d)
    ensures Prefix(r, d + 1) == Fan(d) * Prefix(p, d) + i
  {
    BlockFits(p, d);
    WidthPositive(d + 1);
    ChildBlock(Prefix(p, d), Fan(d), i, Width(d + 1));
    var q := Fan(d) * Prefix(p, d) + i;
    BlockPrefix(q, q * Width(d + 1), d + 1);
    q * Width(d + 1)
  }

  lemma {:induction false} ChildPrefixFacts(p: Key, d: nat, i: nat)
    requires d <= 26 && i < Fan(d)
    ensures Prefix(ChildPrefix(p, d, i), d) == Prefix(p, d) && Slot(ChildPrefix(p, d, i), d) == i
    ensures ClearSuffix(ChildPrefix(p, d, i), d + 1) == ChildPrefix(p, d, i)
  {
    SlotRange(ChildPrefix(p, d, i), d);
  }
}
