/** The bookkeeping of a synchronisation run (merkle/merkle_syncer.C): which
    differences have been reported and which part of the key space is still to
    be walked. */
module SyncSpec {
  import opened Ids
  import opened Slots
  import opened MerkleSpec
  import opened MerkleHashes

  /** One call of missingfnc: `localMissing` says which side lacks the key. */
  datatype Report = Report(key: Key, localMissing: bool)

  /** merkle_rpc_node: an index node carries its child hashes, a leaf its keys. */
  datatype RpcNode = RpcNode(depth: nat, prefix: Key, count: nat, hash: Key, isleaf: bool, childHash: seq<Key>)

  /** An index node being compared, and the next slot to look at. */
  datatype Frame = Frame(node: RpcNode, slot: nat)

  /** The keys that share the first `depth` slots of `prefix`. */
  datatype Region = Region(depth: nat, prefix: Key)

  /** Two key sets and the circular range [lo, hi] to compare them on. */
  datatype Task = Task(sha: Sha, local: set<Key>, remote: set<Key>, lo: Key, hi: Key)

  /** A key that one side has and the other has not. */
  ghost predicate OneSided(local: set<Key>, remote: set<Key>, r: Report) {
    if r.localMissing then r.key in remote && r.key !in local
    else r.key in local && r.key !in remote
  }

  /** The same for a key in range.  The end may lie beyond the last identifier. */
  ghost predicate DiffersIn(local: set<Key>, remote: set<Key>, lo: nat, hi: nat, r: Report) {
    BetweenBothIncl(lo, hi, r.key) && OneSided(local, remote, r)
  }

  ghost predicate Differs(t: Task, r: Report) {
    DiffersIn(t.local, t.remote, t.lo, t.hi, r)
  }

  ghost predicate Distinct(log: seq<Report>) {
    forall i, j :: 0 <= i < j < |log| ==> log[i] != log[j]
  }

  predicate In(g: Region, k: Key) {
    g.depth <= 26 && Prefix(k, g.depth) == Prefix(g.prefix, g.depth)
  }

  /** `k` lies in a slot of the frame that has not been looked at. */
  ghost predicate InFrame(f: Frame, k: Key) {
    && f.node.depth < 26
    && Prefix(k, f.node.depth) == Prefix(f.node.prefix, f.node.depth)
    && Slot(k, f.node.depth) >= f.slot
  }

  ghost predicate InStack(st: seq<Frame>, k: Key) {
    exists j :: 0 <= j < |st| && InFrame(st[j], k)
  }

  ghost predicate Paged(paged: seq<Region>, k: Key) {
    exists j :: 0 <= j < |paged| && In(paged[j], k)
  }

  /** What a node of the tree of `keys` looks like on the wire. */
  function Format(sha: Sha, keys: set<Key>, d: nat, p: Key): RpcNode
    requires d <= 26
  {
    var u := Under(keys, d, p);
    RpcNode(d, p, |u|, TreeHash(sha, u, d), !IsIndex(u, d),
            if IsIndex(u, d) then ChildHashes(sha, u, d) else Sorted(u))
  }

  /** Both trees have a node for the region. */
  ghost predicate BothHave(t: Task, g: Region) {
    && g.depth <= 26 && ClearSuffix(g.prefix, g.depth) == g.prefix
    && NodeAt(t.local, g.depth, g.prefix) && NodeAt(t.remote, g.depth, g.prefix)
  }

  ghost predicate BothIndex(t: Task, g: Region) {
    && BothHave(t, g)
    && IsIndex(Under(t.local, g.depth, g.prefix), g.depth)
    && IsIndex(Under(t.remote, g.depth, g.prefix), g.depth)
  }

  ghost predicate FrameOk(t: Task, f: Frame) {
    && f.slot <= 64
    && BothIndex(t, Region(f.node.depth, f.node.prefix))
    && f.node == Format(t.sha, t.remote, f.node.depth, f.node.prefix)
  }

  function Child(d: nat, p: Key, i: nat): Region
    requires d < 26 && i < 64
  {
    Region(d + 1, ChildPrefix(p, d, i))
  }

  /** The region `g` is the slot last taken from the top frame, that frame the
      slot last taken from the one below, and so on down to the root. */
  ghost predicate Inside(t: Task, st: seq<Frame>, g: Region) {
    if st == [] then g.depth == 0 && g.prefix == 0
    else
      var f := st[|st| - 1];
      && FrameOk(t, f) && f.slot >= 1
      && g == Child(f.node.depth, f.node.prefix, f.slot - 1)
      && Inside(t, st[..|st| - 1], Region(f.node.depth, f.node.prefix))
  }

  ghost predicate StackOk(t: Task, st: seq<Frame>) {
    st != [] ==>
      var f := st[|st| - 1];
      && FrameOk(t, f)
      && Inside(t, st[..|st| - 1], Region(f.node.depth, f.node.prefix))
  }

  /** Reports so far are real differences, each once, outside what is left. */
  ghost predicate Logged(t: Task, st: seq<Frame>, log: seq<Report>, paged: seq<Region>) {
    && Distinct(log)
    && (forall r :: r in log ==> Differs(t, r) && !InStack(st, r.key) && !Paged(paged, r.key))
    && forall k: Key :: Paged(paged, k) ==> !InStack(st, k)
  }

  /** Between two messages nothing is in flight. */
  ghost predicate Idle(t: Task, st: seq<Frame>, log: seq<Report>, paged: seq<Region>) {
    && StackOk(t, st)
    && Logged(t, st, log, paged)
    && forall r :: Differs(t, r) ==> r in log || InStack(st, r.key) || Paged(paged, r.key)
  }

  /** While the node of region `g` is being fetched. */
  ghost predicate Fetching(t: Task, st: seq<Frame>, g: Region, log: seq<Report>, paged: seq<Region>) {
    && Inside(t, st, g) && BothHave(t, g)
    && Logged(t, st, log, paged)
    && (forall r :: r in log ==> !In(g, r.key))
    && (forall k: Key :: Paged(paged, k) ==> !In(g, k))
    && forall r :: Differs(t, r) ==> r in log || InStack(st, r.key) || In(g, r.key) || Paged(paged, r.key)
  }

  // ---------- geometry of regions ----------

  lemma {:induction false} ChildIn(d: nat, p: Key, i: nat, k: Key)
    requires d < 26 && i < 64
    ensures In(Child(d, p, i), k) <==> Prefix(k, d) == Prefix(p, d) && Slot(k, d) == i
  {
    ChildPrefixFacts(p, d, i);
    PrefixStep(k, ChildPrefix(p, d, i), d);
  }

  lemma {:induction false} InStackSplit(st: seq<Frame>, k: Key)
    requires st != []
    ensures InStack(st, k) <==> InStack(st[..|st| - 1], k) || InFrame(st[|st| - 1], k)
  {
    var rest := st[..|st| - 1];
    if InStack(st, k) {
      var j :| 0 <= j < |st| && InFrame(st[j], k);
      if j < |rest| {
        assert rest[j] == st[j];
      }
    }
    if InStack(rest, k) {
      var j :| 0 <= j < |rest| && InFrame(rest[j], k);
      assert st[j] == rest[j];
    }
  }

  /** What was taken out of the stack is in no frame any more. */
  lemma {:induction false} Apart(t: Task, st: seq<Frame>, g: Region, k: Key)
    requires Inside(t, st, g) && In(g, k)
    ensures !InStack(st, k)
  {
    if st != [] {
      var f := st[|st| - 1];
      ChildIn(f.node.depth, f.node.prefix, f.slot - 1, k);
      Apart(t, st[..|st| - 1], Region(f.node.depth, f.node.prefix), k);
      InStackSplit(st, k);
    }
  }

  lemma {:induction false} NodeAtChild(keys: set<Key>, d: nat, p: Key, i: nat)
    requires d < 26 && i < 64 && NodeAt(keys, d, p) && IsIndex(Under(keys, d, p), d)
    ensures NodeAt(keys, d + 1, ChildPrefix(p, d, i))
  {
    var c := ChildPrefix(p, d, i);
    ChildPrefixFacts(p, d, i);
    forall e | 0 <= e < d + 1 ensures IsIndex(Under(keys, e, c), e) {
      PrefixWeaken(c, p, e, d);
      assert Under(keys, e, c) == Under(keys, e, p);
    }
  }

  lemma {:induction false} ChildBothHave(t: Task, g: Region, i: nat)
    requires BothIndex(t, g) && i < 64
    ensures BothHave(t, Child(g.depth, g.prefix, i))
  {
    NodeAtChild(t.local, g.depth, g.prefix, i);
    NodeAtChild(t.remote, g.depth, g.prefix, i);
    ChildPrefixFacts(g.prefix, g.depth, i);
  }

  /** The stack with the top frame moved on by one slot. */
  function Bump(st: seq<Frame>): seq<Frame>
    requires st != []
  {
    st[..|st| - 1] + [st[|st| - 1].(slot := st[|st| - 1].slot + 1)]
  }

  lemma {:induction false} BumpIn(st: seq<Frame>, k: Key)
    requires st != [] && st[|st| - 1].node.depth < 26 && st[|st| - 1].slot < 64
    ensures var f := st[|st| - 1];
      InStack(st, k) <==> InStack(Bump(st), k) || In(Child(f.node.depth, f.node.prefix, f.slot), k)
  {
    var f := st[|st| - 1];
    InStackSplit(st, k);
    InStackSplit(Bump(st), k);
    assert Bump(st)[..|st| - 1] == st[..|st| - 1];
    ChildIn(f.node.depth, f.node.prefix, f.slot, k);
  }

  // ---------- the steps of a run ----------

  /** At the start the whole key space is being fetched. */
  lemma {:induction false} Begin(t: Task)
    ensures Fetching(t, [], Region(0, 0), [], [])
  {
    WidthAtRoot();
  }

  /** The next slot holds no difference in range. */
  lemma {:induction false} SkipSlot(t: Task, st: seq<Frame>, log: seq<Report>, paged: seq<Region>)
    requires Idle(t, st, log, paged) && st != [] && st[|st| - 1].slot < 64
    requires var f := st[|st| - 1];
      forall r :: Differs(t, r) ==> !In(Child(f.node.depth, f.node.prefix, f.slot), r.key)
    ensures Idle(t, Bump(st), log, paged)
  {
    assert Bump(st)[..|st| - 1] == st[..|st| - 1];
    forall k: Key ensures InStack(Bump(st), k) ==> InStack(st, k) {
      BumpIn(st, k);
    }
    forall r | Differs(t, r) ensures r in log || InStack(Bump(st), r.key) || Paged(paged, r.key) {
      BumpIn(st, r.key);
    }
  }

  lemma {:induction false} TakenSlot(t: Task, st: seq<Frame>)
    requires StackOk(t, st) && st != [] && st[|st| - 1].slot < 64
    ensures var f := st[|st| - 1];
      var g := Child(f.node.depth, f.node.prefix, f.slot);
      Inside(t, Bump(st), g) && BothHave(t, g)
  {
    var f := st[|st| - 1];
    assert Bump(st)[..|st| - 1] == st[..|st| - 1];
    ChildBothHave(t, Region(f.node.depth, f.node.prefix), f.slot);
  }

  /** The node of the next slot is asked for. */
  lemma {:induction false} EnterSlot(t: Task, st: seq<Frame>, log: seq<Report>, paged: seq<Region>)
    requires Idle(t, st, log, paged) && st != [] && st[|st| - 1].slot < 64
    ensures var f := st[|st| - 1];
      Fetching(t, Bump(st), Child(f.node.depth, f.node.prefix, f.slot), log, paged)
  {
    TakenSlot(t, st);
    var f := st[|st| - 1];
    var g, st' := Child(f.node.depth, f.node.prefix, f.slot), Bump(st);
    forall k: Key ensures InStack(st', k) || In(g, k) <==> InStack(st, k) {
      BumpIn(st, k);
    }
    assert Logged(t, st', log, paged);
  }

  /** A frame with no slot left is dropped. */
  lemma {:induction false} PopFrame(t: Task, st: seq<Frame>, log: seq<Report>, paged: seq<Region>)
    requires Idle(t, st, log, paged) && st != [] && st[|st| - 1].slot == 64
    ensures Idle(t, st[..|st| - 1], log, paged)
  {
    var f := st[|st| - 1];
    forall k: Key ensures InStack(st[..|st| - 1], k) <==> InStack(st, k) {
      InStackSplit(st, k);
      SlotRange(k, f.node.depth);
    }
    PopStack(t, st);
  }

  lemma {:induction false} PopStack(t: Task, st: seq<Frame>)
    requires StackOk(t, st) && st != []
    ensures StackOk(t, st[..|st| - 1])
  {
  }

  /** Both sides have an index node: its slots are to be looked at. */
  lemma {:induction false} PushFrame(t: Task, st: seq<Frame>, g: Region, log: seq<Report>, paged: seq<Region>)
    requires Fetching(t, st, g, log, paged) && BothIndex(t, g)
    ensures Idle(t, st + [Frame(Format(t.sha, t.remote, g.depth, g.prefix), 0)], log, paged)
  {
    var f := Frame(Format(t.sha, t.remote, g.depth, g.prefix), 0);
    var st' := st + [f];
    assert st'[..|st'| - 1] == st;
    forall k: Key ensures InStack(st', k) <==> InStack(st, k) || In(g, k) {
      InStackSplit(st', k);
    }
  }

  /** The region is compared key by key: its differences are reported now. */
  lemma {:induction false} Compared(t: Task, st: seq<Frame>, g: Region, log: seq<Report>, paged: seq<Region>,
                                    more: seq<Report>)
    requires Fetching(t, st, g, log, paged)
    requires Distinct(more) && forall r :: r in more <==> Differs(t, r) && In(g, r.key)
    ensures Idle(t, st, log + more, paged)
  {
    FetchingStack(t, st, g);
    assert Distinct(log + more) by {
      forall i, j | 0 <= i < j < |log + more| ensures (log + more)[i] != (log + more)[j] {
        if i < |log| <= j {
          assert log[i] in log && more[j - |log|] in more;
        }
      }
    }
    forall r | r in more ensures !InStack(st, r.key) {
      Apart(t, st, g, r.key);
    }
  }

  /** The region is handed over to the key pager. */
  lemma {:induction false} HandedOver(t: Task, st: seq<Frame>, g: Region, log: seq<Report>, paged: seq<Region>)
    requires Fetching(t, st, g, log, paged)
    ensures Idle(t, st, log, paged + [g])
  {
    FetchingStack(t, st, g);
    forall k: Key ensures Paged(paged + [g], k) <==> Paged(paged, k) || In(g, k) {
      if Paged(paged, k) {
        var j :| 0 <= j < |paged| && In(paged[j], k);
        assert (paged + [g])[j] == paged[j];
      }
      if In(g, k) {
        assert (paged + [g])[|paged|] == g;
      }
    }
    forall k: Key | In(g, k) ensures !InStack(st, k) {
      Apart(t, st, g, k);
    }
  }

  lemma {:induction false} FetchingStack(t: Task, st: seq<Frame>, g: Region)
    requires Inside(t, st, g)
    ensures StackOk(t, st)
  {
  }
}
