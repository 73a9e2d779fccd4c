/** Which regions a synchronisation run hands to the key pager
    (merkle/merkle_syncer.C: next, compare_nodes): told from the two key sets alone. */
module SyncPages {
  import opened Ids
  import opened Slots
  import opened MerkleSpec
  import opened MerkleHashes
  import opened SyncSpec

  /** Whether [l1, r1] overlaps [l2, r2] on the circle. */
  predicate Overlap(l1: Key, r1: Key, l2: Key, r2: Key) {
    || BetweenBothIncl(l1, r1, l2) || BetweenBothIncl(l1, r1, r2)
    || BetweenBothIncl(l2, r2, l1) || BetweenBothIncl(l2, r2, r1)
  }

  /** The test finds every common point, on the circle too. */
  lemma {:induction false} OverlapIsCommonPoint(l1: Key, r1: Key, l2: Key, r2: Key)
    ensures Overlap(l1, r1, l2, r2)
            <==> exists k: Key :: BetweenBothIncl(l1, r1, k) && BetweenBothIncl(l2, r2, k)
  {
    if Overlap(l1, r1, l2, r2) {
      var k :| k in {l1, r1, l2, r2} && BetweenBothIncl(l1, r1, k) && BetweenBothIncl(l2, r2, k);
    }
  }

  /** The first and last key of a region. */
  function Last(g: Region): (k: Key)
    requires g.depth <= 26 && ClearSuffix(g.prefix, g.depth) == g.prefix
    ensures k == g.prefix + Width(g.depth) - 1
  {
    BlockFits(g.prefix, g.depth);
    WidthPositive(g.depth);
    g.prefix + Width(g.depth) - 1
  }

  lemma {:induction false} InRegion(g: Region, k: Key)
    requires g.depth <= 26 && ClearSuffix(g.prefix, g.depth) == g.prefix
    ensures In(g, k) <==> BetweenBothIncl(g.prefix, Last(g), k)
  {
    WidthPositive(g.depth);
    SharesIsInterval(g.prefix, k, g.depth);
  }

  ghost function LocalAt(t: Task, g: Region): set<Key>
    requires g.depth <= 26
  {
    Under(t.local, g.depth, g.prefix)
  }

  ghost function RemoteAt(t: Task, g: Region): set<Key>
    requires g.depth <= 26
  {
    Under(t.remote, g.depth, g.prefix)
  }

  /** The node of the region is fetched: it is the root, or its hashes differ and
      its slot overlaps the range. */
  ghost predicate Asked(t: Task, g: Region) {
    && BothHave(t, g)
    && (g.depth == 0
        || (TreeHash(t.sha, LocalAt(t, g), g.depth) != TreeHash(t.sha, RemoteAt(t, g), g.depth)
            && Overlap(t.lo, t.hi, g.prefix, Last(g))))
  }

  /** A local leaf meets a remote index node. */
  ghost predicate Handed(t: Task, g: Region) {
    Asked(t, g) && !IsIndex(LocalAt(t, g), g.depth) && IsIndex(RemoteAt(t, g), g.depth)
  }

  /** The regions paged so far: handed over, and each once. */
  ghost predicate AllHanded(t: Task, paged: seq<Region>) {
    && (forall g :: g in paged ==> Handed(t, g))
    && forall i, j :: 0 <= i < j < |paged| ==> paged[i] != paged[j]
  }

  /** Nothing is left to do in the region: no difference and nothing to page. */
  ghost predicate Settled(t: Task, h: Region) {
    && (forall r :: Differs(t, r) ==> !In(h, r.key))
    && forall g :: Handed(t, g) ==> !In(h, g.prefix)
  }

  /** Every region to be paged has been, or lies in what is left. */
  ghost predicate Resting(t: Task, st: seq<Frame>, log: seq<Report>, paged: seq<Region>) {
    && Idle(t, st, log, paged) && AllHanded(t, paged)
    && forall g :: Handed(t, g) ==> g in paged || InStack(st, g.prefix)
  }

  ghost predicate Awaiting(t: Task, st: seq<Frame>, h: Region, log: seq<Report>, paged: seq<Region>) {
    && Fetching(t, st, h, log, paged) && Asked(t, h) && AllHanded(t, paged)
    && forall g :: Handed(t, g) ==> g in paged || InStack(st, g.prefix) || In(h, g.prefix)
  }

  // ---------- where a paged region can lie ----------

  lemma {:induction false} SameNode(keys: set<Key>, d: nat, p: Key, q: Key, e: nat)
    requires d <= e <= 27 && Prefix(p, e) == Prefix(q, e)
    ensures Under(keys, d, p) == Under(keys, d, q)
  {
    PrefixWeaken(p, q, d, e);
  }

  lemma {:induction false} IndexAbove(keys: set<Key>, d: nat, p: Key, e: nat)
    requires e < d <= 26 && NodeAt(keys, d, p)
    ensures IsIndex(Under(keys, e, p), e)
  {
  }

  /** A region with a local leaf is no ancestor of a region both trees have. */
  lemma {:induction false} LeafIsDeep(t: Task, h: Region, g: Region)
    requires BothHave(t, h) && Handed(t, g) && In(h, g.prefix)
    ensures g.depth >= h.depth && (g.depth == h.depth ==> g == h)
    ensures g.depth > h.depth ==> IsIndex(LocalAt(t, h), h.depth) && IsIndex(RemoteAt(t, h), h.depth)
  {
    if g.depth < h.depth {
      IndexAbove(t.local, h.depth, h.prefix, g.depth);
      SameNode(t.local, g.depth, h.prefix, g.prefix, h.depth);
    } else {
      SameNode(t.local, h.depth, h.prefix, g.prefix, h.depth);
      SameNode(t.remote, h.depth, h.prefix, g.prefix, h.depth);
    }
  }

  lemma {:induction false} EqualInside(t: Task, h: Region, g: Region)
    requires h.depth <= g.depth <= 26 && In(h, g.prefix) && LocalAt(t, h) == RemoteAt(t, h)
    ensures LocalAt(t, g) == RemoteAt(t, g)
  {
    forall k: Key | Prefix(k, g.depth) == Prefix(g.prefix, g.depth) ensures k in t.local <==> k in t.remote {
      PrefixWeaken(k, g.prefix, h.depth, g.depth);
      assert k in LocalAt(t, h) <==> k in RemoteAt(t, h);
    }
  }

  /** No region to be paged lies where both sides hold the same keys. */
  lemma {:induction false} NoneInEqual(t: Task, h: Region, g: Region)
    requires BothHave(t, h) && LocalAt(t, h) == RemoteAt(t, h) && Handed(t, g)
    ensures !In(h, g.prefix)
  {
    if In(h, g.prefix) {
      LeafIsDeep(t, h, g);
      EqualInside(t, h, g);
    }
  }

  /** Nor where no key is in range. */
  lemma {:induction false} NoneOutside(t: Task, h: Region, g: Region)
    requires BothHave(t, h) && h.depth > 0 && !Overlap(t.lo, t.hi, h.prefix, Last(h)) && Handed(t, g)
    ensures !In(h, g.prefix)
  {
    if In(h, g.prefix) {
      LeafIsDeep(t, h, g);
      OverlapIsCommonPoint(t.lo, t.hi, g.prefix, Last(g));
      var k: Key :| BetweenBothIncl(t.lo, t.hi, k) && BetweenBothIncl(g.prefix, Last(g), k);
      InRegion(g, k);
      PrefixWeaken(k, g.prefix, h.depth, g.depth);
      InRegion(h, k);
      OverlapIsCommonPoint(t.lo, t.hi, h.prefix, Last(h));
    }
  }

  // ---------- the steps of a run ----------

  lemma {:induction false} Started(t: Task)
    ensures Awaiting(t, [], Region(0, 0), [], [])
  {
    Begin(t);
    WidthAtRoot();
  }

  lemma {:induction false} Skipped(t: Task, st: seq<Frame>, h: Region, log: seq<Report>, paged: seq<Region>)
    requires Resting(t, st, log, paged) && st != [] && st[|st| - 1].slot < 64
    requires h == Child(st[|st| - 1].node.depth, st[|st| - 1].node.prefix, st[|st| - 1].slot) && Settled(t, h)
    ensures Resting(t, Bump(st), log, paged)
  {
    SkipSlot(t, st, log, paged);
    forall g | Handed(t, g) ensures g in paged || InStack(Bump(st), g.prefix) {
      BumpIn(st, g.prefix);
    }
  }

  lemma {:induction false} Entered(t: Task, st: seq<Frame>, h: Region, log: seq<Report>, paged: seq<Region>)
    requires Resting(t, st, log, paged) && st != [] && st[|st| - 1].slot < 64 && Asked(t, h)
    requires h == Child(st[|st| - 1].node.depth, st[|st| - 1].node.prefix, st[|st| - 1].slot)
    ensures Awaiting(t, Bump(st), h, log, paged)
  {
    EnterSlot(t, st, log, paged);
    forall g | Handed(t, g) ensures g in paged || InStack(Bump(st), g.prefix) || In(h, g.prefix) {
      BumpIn(st, g.prefix);
    }
  }

  lemma {:induction false} SlotDecided(t: Task, st: seq<Frame>, h: Region, log: seq<Report>, paged: seq<Region>,
                                       fetch: bool)
    requires Resting(t, st, log, paged) && st != [] && st[|st| - 1].slot < 64
    requires h == Child(st[|st| - 1].node.depth, st[|st| - 1].node.prefix, st[|st| - 1].slot)
    requires if fetch then Asked(t, h) else Settled(t, h)
    ensures fetch ==> Awaiting(t, Bump(st), h, log, paged)
    ensures !fetch ==> Resting(t, Bump(st), log, paged)
  {
    if fetch {
      Entered(t, st, h, log, paged);
    } else {
      Skipped(t, st, h, log, paged);
    }
  }

  lemma {:induction false} Popped(t: Task, st: seq<Frame>, log: seq<Report>, paged: seq<Region>)
    requires Resting(t, st, log, paged) && st != [] && st[|st| - 1].slot == 64
    ensures Resting(t, st[..|st| - 1], log, paged)
  {
    PopFrame(t, st, log, paged);
    forall g | Handed(t, g) ensures g in paged || InStack(st[..|st| - 1], g.prefix) {
      InStackSplit(st, g.prefix);
      SlotRange(g.prefix, st[|st| - 1].node.depth);
    }
  }

  lemma {:induction false} Pushed(t: Task, st: seq<Frame>, h: Region, log: seq<Report>, paged: seq<Region>, f: Frame)
    requires Awaiting(t, st, h, log, paged) && BothIndex(t, h)
    requires f == Frame(Format(t.sha, t.remote, h.depth, h.prefix), 0)
    ensures Resting(t, st + [f], log, paged)
  {
    PushFrame(t, st, h, log, paged);
    assert (st + [f])[..|st|] == st;
    forall g | Handed(t, g) ensures g in paged || InStack(st + [f], g.prefix) {
      InStackSplit(st + [f], g.prefix);
    }
  }

  lemma {:induction false} LeafCompared(t: Task, st: seq<Frame>, h: Region, log: seq<Report>, paged: seq<Region>,
                                        more: seq<Report>)
    requires Awaiting(t, st, h, log, paged) && !IsIndex(RemoteAt(t, h), h.depth)
    requires Distinct(more) && forall r :: r in more <==> Differs(t, r) && In(h, r.key)
    ensures Resting(t, st, log + more, paged)
  {
    Compared(t, st, h, log, paged, more);
    forall g | Handed(t, g) ensures !In(h, g.prefix) {
      if In(h, g.prefix) {
        LeafIsDeep(t, h, g);
      }
    }
  }

  lemma {:induction false} LeafPaged(t: Task, st: seq<Frame>, h: Region, log: seq<Report>, paged: seq<Region>)
    requires Awaiting(t, st, h, log, paged)
    requires !IsIndex(LocalAt(t, h), h.depth) && IsIndex(RemoteAt(t, h), h.depth)
    ensures Resting(t, st, log, paged + [h])
  {
    HandedOver(t, st, h, log, paged);
    if h in paged {
      var j :| 0 <= j < |paged| && paged[j] == h;
      assert Paged(paged, h.prefix) && In(h, h.prefix);
    }
    forall g | Handed(t, g) ensures g in paged + [h] || InStack(st, g.prefix) {
      if In(h, g.prefix) {
        LeafIsDeep(t, h, g);
      }
    }
  }

  /** Two regions handed over have no key in common. */
  lemma {:induction false} HandedApart(t: Task, g: Region, h: Region, k: Key)
    requires Handed(t, g) && Handed(t, h) && In(g, k) && In(h, k)
    ensures g == h
  {
    if g.depth <= h.depth {
      PrefixWeaken(k, h.prefix, g.depth, h.depth);
      LeafIsDeep(t, g, h);
    } else {
      PrefixWeaken(k, g.prefix, h.depth, g.depth);
      LeafIsDeep(t, h, g);
    }
  }
}
