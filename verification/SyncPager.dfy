/** Where a local leaf meets a remote index node, the syncer pages through the
    remote keys (compare_nodes in merkle/merkle_syncer.C).  Over which range it does
    so, and when that range is the host's range inside the node. */
module SyncPager {
  import opened Ids
  import opened Slots

  /** The slot width `1 << (160 - 6*depth)` is the number of keys of a region. */
  lemma {:induction false} WidthIsPow2(d: nat)
    requires d <= 26
    ensures Width(d) == Pow2(160 - 6 * d)
    decreases 27 - d
  {
    if d == 26 {
      assert Pow2(4) == 16;
    } else {
      WidthIsPow2(d + 1);
      var n := 160 - 6 * (d + 1);
      assert Pow2(n + 1) == 2 * Pow2(n);
      assert Pow2(n + 2) == 2 * Pow2(n + 1);
      assert Pow2(n + 3) == 2 * Pow2(n + 2);
      assert Pow2(n + 4) == 2 * Pow2(n + 3);
      assert Pow2(n + 5) == 2 * Pow2(n + 4);
      assert Pow2(n + 6) == 2 * Pow2(n + 5);
    }
  }

  /** The range as first computed: `1 << (160 - depth)` keys from the prefix.  Its end
      can lie beyond the last identifier. */
  function Unclamped(d: nat, p: Key): nat
    requires d <= 26
  {
    Pow2Positive(160 - d);
    p + Pow2(160 - d) - 1
  }

  /** compare_nodes constrains the range to the host's. */
  function PageStart(d: nat, p: Key, rngmin: Key): Key
    requires d <= 26
  {
    if Between(p, Unclamped(d, p), rngmin) then rngmin else p
  }

  function PageEnd(d: nat, p: Key, rngmin: Key, rngmax: Key): nat
    requires d <= 26
  {
    if Between(PageStart(d, p, rngmin), Unclamped(d, p), rngmax) then rngmax else Unclamped(d, p)
  }

  /** The width for the depth's own unit of six bits is smaller below the root. */
  lemma {:induction false} WidthAndPower(d: nat)
    requires d <= 26
    ensures Pow2(160 - d) >= Width(d) >= 16 && (Pow2(160 - d) == Width(d) <==> d == 0)
  {
    WidthIsPow2(d);
    WidthPositive(d);
    if d > 0 {
      Pow2Grows(160 - 6 * d, 160 - d);
    }
  }

  lemma {:induction false} Pow2Within(n: nat)
    requires n <= 160
    ensures Pow2(n) <= KEYS && (n < 160 ==> Pow2(n) < KEYS)
  {
    var top := 160;
    RingIsPow2(top);
    if n < top {
      Pow2Grows(n, top);
    }
  }

  /** What is needed of these numbers: a node lies inside the ring, and the first
      range is that of the node exactly at the root. */
  lemma {:induction false} NodeBounds(d: nat, p: Key)
    requires d <= 26 && ClearSuffix(p, d) == p
    ensures 16 <= Width(d) && p + Width(d) <= KEYS && p + Width(d) - 1 <= Unclamped(d, p)
    ensures Unclamped(d, p) == p + Width(d) - 1 <==> d == 0
    ensures d == 0 ==> p == 0 && Width(d) == KEYS
    ensures d > 0 ==> Unclamped(d, p) + 1 < p + KEYS
  {
    WidthAndPower(d);
    BlockFits(p, d);
    Pow2Within(160 - d);
    WidthAtRoot();
  }

  // ---------- where the pages end ----------

  /** The greatest identifier not beyond `hi`. */
  function LastShown(hi: nat): Key {
    if hi < KEYS then hi else KEYS - 1
  }

  /** The pages show no key past the node exactly at the root, when the host's range
      ends inside the node and after the start of the pages, or when the node is the
      last of the ring. */
  predicate EndsInside(d: nat, p: Key, rngmin: Key, rngmax: Key)
    requires d <= 26
  {
    d == 0 || PageStart(d, p, rngmin) < rngmax < p + Width(d) || p + Width(d) == KEYS
  }

  lemma {:induction false} PagesInsideIff(d: nat, p: Key, rngmin: Key, rngmax: Key)
    requires d <= 26 && ClearSuffix(p, d) == p
    ensures p <= PageStart(d, p, rngmin) < PageEnd(d, p, rngmin, rngmax)
    ensures EndsInside(d, p, rngmin, rngmax) <==> LastShown(PageEnd(d, p, rngmin, rngmax)) < p + Width(d)
  {
    NodeBounds(d, p);
  }

  // ---------- when the range is the right one ----------

  predicate InNode(d: nat, p: Key, x: Key)
    requires d <= 26
  {
    p <= x < p + Width(d)
  }

  /** x is among the keys of the pages exactly if it is a key of the node in the
      host's range. */
  predicate Agrees(d: nat, p: Key, rngmin: Key, rngmax: Key, x: Key)
    requires d <= 26
  {
    (InNode(d, p, x) && BetweenBothIncl(rngmin, rngmax, x))
    <==> PageStart(d, p, rngmin) <= x <= PageEnd(d, p, rngmin, rngmax)
  }

  /** The host's range, when it does not wrap around, has to end inside the node, and
      not at its first key.  When it is the whole ring, or wraps around and covers the
      end of the node, the node has to be the last of the ring.  When it wraps around
      and starts too far to be noticed, it has to end inside the node. */
  predicate Fits(d: nat, p: Key, rngmin: Key, rngmax: Key)
    requires d <= 26
  {
    var q := p + Width(d) - 1;
    if rngmin < rngmax then p < rngmax <= q
    else if rngmin == rngmax then q == KEYS - 1 && (rngmin <= p || rngmin >= Unclamped(d, p))
    else (q == KEYS - 1 && rngmax < p) || (q < rngmin && Unclamped(d, p) <= rngmin && p < rngmax <= q)
  }

  lemma {:induction false} FitsAgrees(d: nat, p: Key, rngmin: Key, rngmax: Key, x: Key)
    requires d <= 26 && ClearSuffix(p, d) == p && Fits(d, p, rngmin, rngmax)
    ensures Agrees(d, p, rngmin, rngmax, x)
  {
    NodeBounds(d, p);
  }

  /** Otherwise one of five keys is wrongly in or out. */
  lemma {:induction false} MisfitDisagrees(d: nat, p: Key, rngmin: Key, rngmax: Key) returns (x: Key)
    requires d <= 26 && ClearSuffix(p, d) == p && !Fits(d, p, rngmin, rngmax)
    ensures !Agrees(d, p, rngmin, rngmax, x)
  {
    NodeBounds(d, p);
    var q, lo := p + Width(d) - 1, PageStart(d, p, rngmin);
    if !Agrees(d, p, rngmin, rngmax, p) {
      return p;
    }
    if !Agrees(d, p, rngmin, rngmax, p + 1) {
      return p + 1;
    }
    if !Agrees(d, p, rngmin, rngmax, q) {
      return q;
    }
    if !Agrees(d, p, rngmin, rngmax, lo) {
      return lo;
    }
    x := q + 1;
  }

  /** The pages cover exactly the host's range inside the node if and only if Fits. */
  lemma {:induction false} PagesFitIff(d: nat, p: Key, rngmin: Key, rngmax: Key)
    requires d <= 26 && ClearSuffix(p, d) == p
    ensures Fits(d, p, rngmin, rngmax) <==> forall x: Key :: Agrees(d, p, rngmin, rngmax, x)
  {
    if Fits(d, p, rngmin, rngmax) {
      forall x: Key ensures Agrees(d, p, rngmin, rngmax, x) {
        FitsAgrees(d, p, rngmin, rngmax, x);
      }
    } else {
      var x := MisfitDisagrees(d, p, rngmin, rngmax);
    }
  }

  // ---------- when the pages end ----------

  /** The pages of the root, for a host whose range starts and ends at an end of the
      identifiers: nothing is constrained. */
  predicate NeverEnds(d: nat, rngmin: Key, rngmax: Key) {
    d == 0 && (rngmin == 0 || rngmin == KEYS - 1) && (rngmax == 0 || rngmax == KEYS - 1)
  }

  /** Past its end the pager goes on only if that is the start of its range again. */
  lemma {:induction false} EndsIff(d: nat, p: Key, rngmin: Key, rngmax: Key, lo: Key, hi: nat)
    requires d <= 26 && ClearSuffix(p, d) == p
    requires lo == PageStart(d, p, rngmin) && hi == PageEnd(d, p, rngmin, rngmax)
    ensures BetweenBothIncl(lo, hi, IncId(hi)) <==> NeverEnds(d, rngmin, rngmax)
    ensures NeverEnds(d, rngmin, rngmax) ==> IncId(hi) == lo
  {
    NodeBounds(d, p);
  }
}
