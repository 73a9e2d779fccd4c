/** The Merkle synchronisation walk (merkle/merkle_syncer.C) and the server half
    that answers it (merkle/merkle_server.C).

    Both trees stay as they are during a run, so each is given by its key set:
    by MerkleMemory and MerkleDisk its nodes are then determined.
 */
module MerkleSync {
  import opened Ids
  import opened Slots
  import opened MerkleSpec
  import opened MerkleHashes
  import opened SyncSpec
  import opened SyncPages
  import opened Options
  import KeyList

  /** compare_keylists: reports the differences of two key lists within a range. */
  method CompareKeylists(lkeys: seq<Key>, vrkeys: seq<Key>, lo: nat, hi: nat) returns (log: seq<Report>)
    requires Ascending(lkeys)
    ensures Distinct(log)
    ensures forall r :: r in log <==> DiffersIn(Elements(lkeys), Elements(vrkeys), lo, hi, r)
  {
    var rkeys := Filter(vrkeys, lo, hi);
    log, rkeys := ReportLocal(lkeys, rkeys, lo, hi);
    log := ReportRemote(log, rkeys);
    forall r: Report ensures r in log <==> DiffersIn(Elements(lkeys), Elements(vrkeys), lo, hi, r) {
    }
  }

  /** The hash table of the remote keys in range. */
  method Filter(vrkeys: seq<Key>, lo: nat, hi: nat) returns (rkeys: set<Key>)
    ensures forall k :: k in rkeys <==> k in vrkeys && BetweenBothIncl(lo, hi, k)
  {
    rkeys := {};
    for i := 0 to |vrkeys|
      invariant forall k :: k in rkeys <==> k in vrkeys[..i] && BetweenBothIncl(lo, hi, k)
    {
      assert vrkeys[..i + 1] == vrkeys[..i] + [vrkeys[i]];
      if BetweenBothIncl(lo, hi, vrkeys[i]) {
        rkeys := rkeys + {vrkeys[i]};
      }
    }
    assert vrkeys[..|vrkeys|] == vrkeys;
  }

  /** Local keys the remote side lacks; the others leave the table. */
  method ReportLocal(lkeys: seq<Key>, table: set<Key>, lo: nat, hi: nat) returns (log: seq<Report>, rkeys: set<Key>)
    requires Ascending(lkeys)
    ensures Distinct(log)
    ensures forall r :: r in log <==>
              !r.localMissing && r.key in lkeys && r.key !in table && BetweenBothIncl(lo, hi, r.key)
    ensures forall k :: k in rkeys <==> k in table && k !in lkeys
  {
    log, rkeys := [], table;
    for i := 0 to |lkeys|
      invariant Distinct(log)
      invariant forall r :: r in log <==>
                  !r.localMissing && r.key in lkeys[..i] && r.key !in table && BetweenBothIncl(lo, hi, r.key)
      invariant forall k :: k in rkeys <==> k in table && k !in lkeys[..i]
    {
      assert lkeys[..i + 1] == lkeys[..i] + [lkeys[i]];
      assert lkeys[i] !in lkeys[..i];
      if lkeys[i] !in rkeys && BetweenBothIncl(lo, hi, lkeys[i]) {
        log := log + [Report(lkeys[i], false)];
      } else {
        rkeys := rkeys - {lkeys[i]};
      }
    }
    assert lkeys[..|lkeys|] == lkeys;
  }

  /** What is left in the table is missing here. */
  method ReportRemote(before: seq<Report>, table: set<Key>) returns (log: seq<Report>)
    requires Distinct(before) && forall r :: r in before ==> !r.localMissing
    ensures Distinct(log)
    ensures forall r :: r in log <==> r in before || (r.localMissing && r.key in table)
  {
    log := before;
    var rest := table;
    while rest != {}
      invariant rest <= table && Distinct(log)
      invariant forall r :: r in log <==> r in before || (r.localMissing && r.key in table - rest)
      decreases |rest|
    {
      var k := MinKey(rest);
      log := log + [Report(k, true)];
      rest := rest - {k};
    }
  }

  // ---------- lookups ----------

  /** merkle_tree::lookup: descends until the depth or a leaf is reached. */
  method Lookup(keys: set<Key>, maxDepth: nat, p: Key, from: nat) returns (depth: nat)
    requires from <= maxDepth <= 26
    ensures from <= depth <= maxDepth
    ensures forall e :: from <= e < depth ==> IsIndex(Under(keys, e, p), e)
    ensures depth < maxDepth ==> !IsIndex(Under(keys, depth, p), depth)
    decreases maxDepth - from
  {
    if from == maxDepth || !IsIndex(Under(keys, from, p), from) {
      return from;
    }
    depth := Lookup(keys, maxDepth, p, from + 1);
  }

  /** A descent reaches its depth exactly where the tree has a node. */
  lemma {:induction false} DescentReaches(keys: set<Key>, maxDepth: nat, p: Key, depth: nat)
    requires depth <= maxDepth <= 26
    requires forall e :: 0 <= e < depth ==> IsIndex(Under(keys, e, p), e)
    requires depth < maxDepth ==> !IsIndex(Under(keys, depth, p), depth)
    ensures depth == maxDepth <==> NodeAt(keys, maxDepth, p)
  {
  }

  // ---------- server ----------

  /** handle_send_node: the depths never disagree on a node both sides have. */
  method HandleSendNode(sha: Sha, remote: set<Key>, g: Region) returns (node: RpcNode)
    requires g.depth <= 26 && NodeAt(remote, g.depth, g.prefix) && ClearSuffix(g.prefix, g.depth) == g.prefix
    ensures node == Format(sha, remote, g.depth, g.prefix)
  {
    var depth := Lookup(remote, g.depth, g.prefix, 0);
    DescentReaches(remote, g.depth, g.prefix, depth);
    assert depth == g.depth;
    node := Format(sha, remote, depth, ClearSuffix(g.prefix, depth));
  }

  // ---------- what justifies each step ----------

  /** The contents of every node of the tree of `keys` are among cs. */
  ghost predicate Listed(sha: Sha, keys: set<Key>, cs: set<Content>) {
    forall d: nat, p: Key :: d <= 26 && NodeAt(keys, d, p) ==> Contents(sha, Under(keys, d, p), d) <= cs
  }

  /** SHA-1 does not collide on the nodes of the two trees. */
  ghost predicate Trusted(t: Task) {
    exists cs :: CollisionFree(t.sha, cs) && Listed(t.sha, t.local, cs) && Listed(t.sha, t.remote, cs)
  }

  /** It is enough that the nodes below the two roots do not collide. */
  lemma {:induction false} TrustedFromRoots(t: Task, top: nat)
    requires top == 0 && CollisionFree(t.sha, Contents(t.sha, t.local, top) + Contents(t.sha, t.remote, top))
    ensures Trusted(t)
  {
    var cs := Contents(t.sha, t.local, top) + Contents(t.sha, t.remote, top);
    forall d: nat, p: Key | d <= 26 && NodeAt(t.local, d, p) ensures Contents(t.sha, Under(t.local, d, p), d) <= cs {
      ContentsBelow(t.sha, t.local, d, p, top);
    }
    forall d: nat, p: Key | d <= 26 && NodeAt(t.remote, d, p) ensures Contents(t.sha, Under(t.remote, d, p), d) <= cs {
      ContentsBelow(t.sha, t.remote, d, p, top);
    }
    assert Listed(t.sha, t.local, cs) && Listed(t.sha, t.remote, cs);
  }

  /** Equal hashes on both sides: the same keys. */
  lemma {:induction false} SameBelow(t: Task, g: Region)
    requires BothHave(t, g) && Trusted(t)
    requires TreeHash(t.sha, LocalAt(t, g), g.depth) == TreeHash(t.sha, RemoteAt(t, g), g.depth)
    ensures LocalAt(t, g) == RemoteAt(t, g)
  {
    var cs :| CollisionFree(t.sha, cs) && Listed(t.sha, t.local, cs) && Listed(t.sha, t.remote, cs);
    HashIdentifies(t.sha, LocalAt(t, g), RemoteAt(t, g), g.depth, cs);
  }

  lemma {:induction false} SameIsSettled(t: Task, h: Region)
    requires BothHave(t, h) && LocalAt(t, h) == RemoteAt(t, h)
    ensures Settled(t, h)
  {
    forall r | Differs(t, r) ensures !In(h, r.key) {
      assert r.key in LocalAt(t, h) <==> r.key in RemoteAt(t, h);
    }
    forall g | Handed(t, g) ensures !In(h, g.prefix) {
      NoneInEqual(t, h, g);
    }
  }

  /** The hashes in a frame's slot are those of the slot's nodes. */
  lemma {:induction false} SlotHashes(t: Task, f: Frame, h: Region)
    requires FrameOk(t, f) && f.slot < 64 && h == Child(f.node.depth, f.node.prefix, f.slot)
    ensures BothHave(t, h) && h.depth > 0
    ensures f.node.childHash[f.slot] == TreeHash(t.sha, RemoteAt(t, h), h.depth)
    ensures ChildHashes(t.sha, Under(t.local, f.node.depth, f.node.prefix), f.node.depth)[f.slot]
            == TreeHash(t.sha, LocalAt(t, h), h.depth)
  {
    var d, p, i := f.node.depth, f.node.prefix, f.slot;
    SubUnderChild(t.local, d, p, i);
    SubUnderChild(t.remote, d, p, i);
    ChildBothHave(t, Region(d, p), i);
  }

  /** A slot that does not overlap the range holds no key in range. */
  lemma {:induction false} OutsideIsSettled(t: Task, h: Region)
    requires BothHave(t, h) && h.depth > 0 && !Overlap(t.lo, t.hi, h.prefix, Last(h))
    ensures Settled(t, h)
  {
    OverlapIsCommonPoint(t.lo, t.hi, h.prefix, Last(h));
    forall r | Differs(t, r) ensures !In(h, r.key) {
      InRegion(h, r.key);
    }
    forall g | Handed(t, g) ensures !In(h, g.prefix) {
      NoneOutside(t, h, g);
    }
  }

  /** Comparing the keys below a region finds exactly its differences. */
  lemma {:induction false} RegionDiffers(t: Task, g: Region, r: Report)
    requires g.depth <= 26
    ensures DiffersIn(Under(t.local, g.depth, g.prefix), Under(t.remote, g.depth, g.prefix), t.lo, t.hi, r)
            <==> Differs(t, r) && In(g, r.key)
  {
  }

  // ---------- termination ----------

  /** A bound on the messages for one node at depth `d` and all below it. */
  ghost function Cost(d: nat): (c: nat)
    requires d <= 27
    ensures c > 0
    decreases 27 - d
  {
    if d == 27 then 1 else 64 * Cost(d + 1) + 2
  }

  ghost function Times(n: nat, c: nat): nat {
    if n == 0 then 0 else c + Times(n - 1, c)
  }

  ghost function FrameCost(f: Frame): nat {
    if f.node.depth < 26 && f.slot <= 64 then 1 + Times(64 - f.slot, Cost(f.node.depth + 1)) else 0
  }

  ghost function Work(st: seq<Frame>): nat {
    if st == [] then 0 else Work(st[..|st| - 1]) + FrameCost(st[|st| - 1])
  }

  lemma {:induction false} TimesIs(n: nat, c: nat)
    ensures Times(n, c) == n * c
  {
    if n > 0 {
      TimesIs(n - 1, c);
      assert n * c == (n - 1) * c + c;
    }
  }

  lemma {:induction false} TimesNext(n: nat, c: nat)
    requires n > 0
    ensures Times(n, c) == Times(n - 1, c) + c
  {
  }

  lemma {:induction false} BumpCost(f: Frame, f': Frame)
    requires f.node.depth < 26 && f.slot < 64 && f' == f.(slot := f.slot + 1)
    ensures FrameCost(f') + Cost(f.node.depth + 1) == FrameCost(f)
  {
    TimesNext(64 - f.slot, Cost(f.node.depth + 1));
    assert 64 - f'.slot == 64 - f.slot - 1;
  }

  lemma {:induction false} WorkAppend(st: seq<Frame>, f: Frame)
    ensures Work(st + [f]) == Work(st) + FrameCost(f)
  {
    assert (st + [f])[..|st|] == st;
  }

  lemma {:induction false} WorkBump(st: seq<Frame>)
    requires st != [] && st[|st| - 1].node.depth < 26 && st[|st| - 1].slot < 64
    ensures Work(Bump(st)) + Cost(st[|st| - 1].node.depth + 1) == Work(st)
  {
    var rest, f := st[..|st| - 1], st[|st| - 1];
    var f' := f.(slot := f.slot + 1);
    assert st == rest + [f] && Bump(st) == rest + [f'];
    WorkAppend(rest, f);
    WorkAppend(rest, f');
    BumpCost(f, f');
    assert Work(st) == Work(rest) + FrameCost(f);
    assert Work(Bump(st)) == Work(rest) + FrameCost(f');
  }

  /** Checking a slot takes the cost of its node off the work. */
  lemma {:induction false} WorkOfSlot(t: Task, st: seq<Frame>, g: Region)
    requires StackOk(t, st) && st != [] && st[|st| - 1].slot < 64
    requires g == Child(st[|st| - 1].node.depth, st[|st| - 1].node.prefix, st[|st| - 1].slot)
    ensures g.depth <= 27 && Work(Bump(st)) + Cost(g.depth) == Work(st)
  {
    WorkBump(st);
  }

  lemma {:induction false} WorkPop(st: seq<Frame>)
    requires st != [] && st[|st| - 1].node.depth < 26 && st[|st| - 1].slot <= 64
    ensures Work(st[..|st| - 1]) < Work(st)
  {
    assert st == st[..|st| - 1] + [st[|st| - 1]];
    WorkAppend(st[..|st| - 1], st[|st| - 1]);
  }

  lemma {:induction false} WorkPush(st: seq<Frame>, f: Frame)
    requires f.node.depth < 26 && f.slot == 0
    ensures Work(st + [f]) < Work(st) + Cost(f.node.depth)
  {
    WorkAppend(st, f);
    TimesIs(64, Cost(f.node.depth + 1));
  }

  /** A pair of index nodes goes on the stack, for less than its node's cost. */
  lemma {:induction false} PairQueued(t: Task, st: seq<Frame>, g: Region, log: seq<Report>, paged: seq<Region>,
                                      rnode: RpcNode)
    requires Awaiting(t, st, g, log, paged) && rnode == Format(t.sha, t.remote, g.depth, g.prefix)
    requires !rnode.isleaf && IsIndex(Under(t.local, rnode.depth, rnode.prefix), rnode.depth)
    ensures Resting(t, st + [Frame(rnode, 0)], log, paged)
    ensures Work(st + [Frame(rnode, 0)]) < Work(st) + Cost(g.depth)
  {
    Pushed(t, st, g, log, paged, Frame(rnode, 0));
    WorkPush(st, Frame(rnode, 0));
  }

  /** Reports of differences, each once. */
  ghost predicate SoundLog(t: Task, log: seq<Report>) {
    Distinct(log) && forall r :: r in log ==> Differs(t, r)
  }

  /** Of n messages none has failed, or only the last, and then fatal is set. */
  ghost predicate EndsBy(fails: nat -> bool, n: nat, fatal: bool) {
    (forall i :: 0 <= i < n - 1 ==> !fails(i)) && fatal == (n > 0 && fails(n - 1))
  }

  lemma {:induction false} EndsLater(fails: nat -> bool, n: nat)
    ensures EndsBy(fails, n, false) ==> EndsBy(fails, n + 1, fails(n))
  {
  }

  // ---------- the syncer ----------

  class Syncer {
    const sha: Sha
    const ltree: set<Key>
    const lo: Key
    const hi: Key
    var st: seq<Frame>
    /** The calls of missingfnc made by the walk, in order. */
    var log: seq<Report>
    /** Regions handed to merkle_getkeyrange: a local leaf met a remote index node. */
    var paged: seq<Region>
    var done: bool
    /** An RPC failed, or was answered with an error. */
    var fatal: bool

    constructor (sha: Sha, ltree: set<Key>, lo: Key, hi: Key)
      ensures this.sha == sha && this.ltree == ltree && this.lo == lo && this.hi == hi
      ensures st == [] && log == [] && paged == [] && !done && !fatal
    {
      this.sha, this.ltree, this.lo, this.hi := sha, ltree, lo, hi;
      st, log, paged, done, fatal := [], [], [], false, false;
    }

    ghost predicate Runs(t: Task)
      reads this
    {
      t.sha == sha && t.local == ltree && t.lo == lo && t.hi == hi
    }

    /** sendnode: the local node asked about exists at exactly that depth. */
    method SendNode(g: Region, ghost t: Task) returns (arg: RpcNode)
      requires Runs(t) && BothHave(t, g)
      ensures arg == Format(sha, ltree, g.depth, g.prefix)
    {
      var depth := Lookup(ltree, g.depth, g.prefix, 0);
      DescentReaches(ltree, g.depth, g.prefix, depth);
      assert depth == g.depth;
      arg := Format(sha, ltree, g.depth, g.prefix);
    }

    /** compare_nodes, for a remote leaf: the region is compared key by key. */
    method CompareLeaf(rnode: RpcNode, ghost t: Task, ghost g: Region)
      requires Runs(t) && Awaiting(t, st, g, log, paged)
      requires rnode == Format(sha, t.remote, g.depth, g.prefix) && rnode.isleaf
      modifies this`log
      ensures Resting(t, st, log, paged) && Work(st) < old(Work(st)) + Cost(g.depth)
    {
      var lkeys := KeyList.DatabaseGetKeys(ltree, rnode.depth, rnode.prefix);
      var more := CompareKeylists(lkeys, rnode.childHash, lo, hi);
      SortedElements(Under(ltree, g.depth, g.prefix));
      SortedElements(Under(t.remote, g.depth, g.prefix));
      forall r: Report ensures r in more <==> Differs(t, r) && In(g, r.key) {
        RegionDiffers(t, g, r);
      }
      LeafCompared(t, st, g, log, paged, more);
      log := log + more;
    }

    /** compare_nodes, for a local leaf and a remote index node: its keys are paged. */
    method HandOver(rnode: RpcNode, ghost t: Task, ghost g: Region)
      requires Runs(t) && Awaiting(t, st, g, log, paged)
      requires rnode == Format(sha, t.remote, g.depth, g.prefix) && !rnode.isleaf
      requires !IsIndex(Under(ltree, g.depth, g.prefix), g.depth)
      modifies this`paged
      ensures Resting(t, st, log, paged) && Work(st) < old(Work(st)) + Cost(g.depth)
    {
      LeafPaged(t, st, g, log, paged);
      paged := paged + [Region(rnode.depth, rnode.prefix)];
    }

    method QueuePair(rnode: RpcNode, ghost t: Task, ghost g: Region)
      requires Runs(t) && Awaiting(t, st, g, log, paged)
      requires rnode == Format(sha, t.remote, g.depth, g.prefix) && !rnode.isleaf
      requires IsIndex(Under(ltree, g.depth, g.prefix), g.depth)
      modifies this`st
      ensures Resting(t, st, log, paged) && Work(st) < old(Work(st)) + Cost(g.depth)
    {
      PairQueued(t, st, g, log, paged, rnode);
      st := st + [Frame(rnode, 0)];
    }

    /** sendnode_cb: compares the two nodes and queues a pair of index nodes. */
    method SendNodeCb(rnode: RpcNode, ghost t: Task, ghost g: Region)
      requires Runs(t) && Awaiting(t, st, g, log, paged)
      requires rnode == Format(sha, t.remote, g.depth, g.prefix)
      modifies this`st, this`log, this`paged
      ensures Resting(t, st, log, paged) && Work(st) < old(Work(st)) + Cost(g.depth)
    {
      if rnode.isleaf {
        CompareLeaf(rnode, t, g);
      } else if !IsIndex(Under(ltree, rnode.depth, rnode.prefix), rnode.depth) {
        HandOver(rnode, t, g);
      } else {
        QueuePair(rnode, t, g);
      }
    }

    /** Whether the node in the next slot of a frame has to be fetched. */
    method Decide(f: Frame, ghost t: Task) returns (fetch: bool)
      requires Runs(t) && Trusted(t) && FrameOk(t, f) && f.slot < 64
      ensures var h := Child(f.node.depth, f.node.prefix, f.slot); if fetch then Asked(t, h) else Settled(t, h)
    {
      var i, d, p := f.slot, f.node.depth, f.node.prefix;
      var remote := f.node.childHash[i];
      var local := ChildHashes(sha, Under(ltree, d, p), d)[i];
      var h := Child(d, p, i);
      SlotHashes(t, f, h);
      var overlaps := Overlap(lo, hi, h.prefix, Last(h));
      fetch := remote != local && overlaps;
      if remote == local {
        SameBelow(t, h);
        SameIsSettled(t, h);
      } else if !overlaps {
        OutsideIsSettled(t, h);
      }
    }

    /** The next slot of the top frame: whether its node has to be fetched. */
    method CheckSlot(ghost t: Task) returns (fetch: bool, h: Region)
      requires Runs(t) && Trusted(t) && Resting(t, st, log, paged) && st != [] && st[|st| - 1].slot < 64
      ensures h == Child(st[|st| - 1].node.depth, st[|st| - 1].node.prefix, st[|st| - 1].slot)
      ensures fetch ==> Awaiting(t, Bump(st), h, log, paged)
      ensures !fetch ==> Resting(t, Bump(st), log, paged)
    {
      var f := st[|st| - 1];
      h := Child(f.node.depth, f.node.prefix, f.slot);
      fetch := Decide(f, t);
      SlotDecided(t, st, h, log, paged, fetch);
    }

    /** One round of next: a slot is checked or an exhausted frame dropped. */
    method Advance(ghost t: Task) returns (request: Option<Region>)
      requires Runs(t) && Trusted(t) && Resting(t, st, log, paged) && st != []
      modifies this`st
      ensures request.None? ==> Resting(t, st, log, paged) && Work(st) < old(Work(st))
      ensures request.Some? ==> Awaiting(t, st, request.value, log, paged)
                                && Work(st) + Cost(request.value.depth) <= old(Work(st))
    {
      if st[|st| - 1].slot < 64 {
        request := NextSlot(t);
      } else {
        DropFrame(t);
        request := None;
      }
    }

    method NextSlot(ghost t: Task) returns (request: Option<Region>)
      requires Runs(t) && Trusted(t) && Resting(t, st, log, paged) && st != [] && st[|st| - 1].slot < 64
      modifies this`st
      ensures request.None? ==> Resting(t, st, log, paged) && Work(st) < old(Work(st))
      ensures request.Some? ==> Awaiting(t, st, request.value, log, paged)
                                && Work(st) + Cost(request.value.depth) <= old(Work(st))
    {
      var fetch, h := CheckSlot(t);
      WorkOfSlot(t, st, h);
      st := Bump(st);
      request := if fetch then Some(h) else None;
    }

    method DropFrame(ghost t: Task)
      requires Resting(t, st, log, paged) && st != [] && st[|st| - 1].slot >= 64
      modifies this`st
      ensures st == old(st)[..|old(st)| - 1] && Resting(t, st, log, paged) && Work(st) < old(Work(st))
    {
      Popped(t, st, log, paged);
      WorkPop(st);
      st := st[..|st| - 1];
    }

    /** next: walks the stack until a node has to be fetched or nothing is left. */
    method Next(ghost t: Task) returns (request: Option<Region>)
      requires Runs(t) && Trusted(t) && Resting(t, st, log, paged)
      modifies this`st
      ensures request.None? ==> st == [] && Resting(t, st, log, paged)
      ensures request.Some? ==> Awaiting(t, st, request.value, log, paged)
                                && Work(st) + Cost(request.value.depth) <= old(Work(st))
    {
      request := None;
      while st != [] && request.None?
        invariant request.None? ==> Resting(t, st, log, paged) && Work(st) <= old(Work(st))
        invariant request.Some? ==> Awaiting(t, st, request.value, log, paged)
                                    && Work(st) + Cost(request.value.depth) <= old(Work(st))
        decreases request.None?, Work(st)
      {
        request := Advance(t);
      }
    }

    /** error: the run is over, whatever is left. */
    method Error()
      modifies this`done, this`fatal
      ensures done && fatal
    {
      fatal := true;
      done := true;
    }

    /** Before the last message of a walk, or after it. */
    ghost predicate Going(t: Task, request: Option<Region>)
      reads this
    {
      match request
      case Some(g) => !fatal && Awaiting(t, st, g, log, paged)
      case None => if fatal then SoundLog(t, log) else st == [] && Resting(t, st, log, paged)
    }

    /** One message of the walk and its answer. */
    method Exchange(g: Region, ghost t: Task, remote: set<Key>, fails: bool) returns (request: Option<Region>)
      requires Runs(t) && t.remote == remote && Trusted(t) && Going(t, Some(g))
      modifies this
      ensures Going(t, request) && fatal == fails
      ensures request.Some? ==> Work(st) + Cost(request.value.depth) < old(Work(st)) + Cost(g.depth)
    {
      var arg := SendNode(g, t);
      if fails {
        Error();
        return None;
      }
      var rnode := HandleSendNode(sha, remote, Region(arg.depth, arg.prefix));
      SendNodeCb(rnode, t, g);
      request := Next(t);
    }

    /** sync: the walk ends.  Unless the answer to some message, the i-th for which
        fails(i) holds, is an error, it has reported exactly the differences of the two
        key sets in the circular range, each once and with the right side, outside the
        regions handed to the key pager; those are exactly the ones fetched where a
        local leaf meets a remote index node.  After an error the reports so far are
        differences, each once.  n messages are sent, and an error ends the walk. */
    method Sync(ghost t: Task, remote: set<Key>, fails: nat -> bool) returns (ghost n: nat)
      requires Runs(t) && t.remote == remote && Trusted(t)
      requires st == [] && log == [] && paged == [] && !fatal
      modifies this
      ensures done && SoundLog(t, log)
      ensures n > 0 && EndsBy(fails, n, fatal)
      ensures !fatal ==> forall r :: r in log <==> Differs(t, r) && !Paged(paged, r.key)
      ensures !fatal ==> AllHanded(t, paged) && forall g :: g in paged <==> Handed(t, g)
      ensures !fatal && (forall g :: !Handed(t, g)) ==> forall r :: r in log <==> Differs(t, r)
    {
      Started(t);
      n := Walk(Region(0, 0), 0, t, remote, fails);
      done := true;
    }

    /** Message i, about region g, and all that follow: each is sent when the answer to
        the one before has been handled. */
    method Walk(g: Region, i: nat, ghost t: Task, remote: set<Key>, fails: nat -> bool) returns (ghost n: nat)
      requires Runs(t) && t.remote == remote && Trusted(t) && Going(t, Some(g)) && EndsBy(fails, i, false)
      modifies this
      ensures Going(t, None) && n > 0 && EndsBy(fails, n, fatal)
      decreases Work(st) + Cost(g.depth)
    {
      EndsLater(fails, i);
      var request := Exchange(g, t, remote, fails(i));
      n := i + 1;
      if request.Some? {
        n := Walk(request.value, i + 1, t, remote, fails);
      }
    }
  }
}
