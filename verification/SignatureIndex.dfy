/** The signature index itself (tools/gis_chordID.C): splits as sequences of single
    writes, and document insertion. */
module SignatureIndex {
  import opened PolyBits
  import opened PolyProducts
  import opened SternBrocot
  import opened SignatureSpec
  import opened SignatureChoice
  import opened SignatureSplits
  import opened SignatureTiling
  import opened SignatureUpkeep
  import opened SignatureExcess
  import opened SignatureWrites
  import opened SignatureInsert
  import opened SignatureWrongParent
  import opened SignatureDescent

  class SignatureTree {
    var db: Db
    var fullNodeIDs: seq<NodeId>
    var fullNodeInts: seq<Interval>
    const metric: bool
    /** Every stored state since the beginning. */
    ghost var writes: seq<Db>

    /** The index with a root and a single leaf. */
    constructor (m: bool)
      ensures FirstIndex(db, Named(0, 0, 1), [ONE]) && IsSig([ONE])
      ensures metric == m && fullNodeIDs == [] && fullNodeInts == []
    {
      metric := m;
      db := map[];
      writes := [];
      fullNodeIDs, fullNodeInts := [], [];
      new;
      var ignored := InsertHeader(Named(0, 0, 1), Leaf, WHOLE, false);
      ignored := InsertHeader(RootNode, Root, Interval(0, 1, 1, 1, 1), false);
      ValOne();
      InsertEntry(RootNode, NodeKey(Named(0, 0, 1)), [ONE], Update);
      assert db[RootNode].entries == [Entry(NodeKey(Named(0, 0, 1)), [ONE])];
    }

    /** An index that is stored already. */
    constructor Open(stored: Db, m: bool)
      ensures db == stored && metric == m && fullNodeIDs == [] && fullNodeInts == [] && writes == []
    {
      metric, db, writes, fullNodeIDs, fullNodeInts := m, stored, [], [], [];
    }

    /** insertBDB of a header; the new interval starts where the old one does. */
    method InsertHeader(id: NodeId, kind: Kind, span: Interval, lock: bool) returns (notFirst: bool)
      requires id in db && !lock ==> span.ln == db[id].span.ln && span.ld == db[id].span.ld
      modifies this`db, this`writes
      ensures notFirst == (lock && id in old(db))
      ensures id !in old(db) ==> db == old(db)[id := Node(kind, span, [])]
      ensures id in old(db) && lock ==> db == old(db)
      ensures id in old(db) && !lock ==>
                db == old(db)[id := old(db)[id].(span := MergedSpan(old(db)[id].kind, old(db)[id].span, span))]
      ensures writes == old(writes) + [db]
    {
      notFirst := false;
      if id !in db {
        db := db[id := Node(kind, span, [])];
      } else if lock {
        notFirst := true;
      } else {
        db := db[id := db[id].(span := MergedSpan(db[id].kind, db[id].span, span))];
      }
      writes := writes + [db];
    }

    /** insertBDB of one entry into a stored node. */
    method InsertEntry(id: NodeId, key: Key, sig: Vec, mode: Mode)
      requires id in db && IsSig(sig) && forall e :: e in db[id].entries ==> IsSig(e.sig)
      modifies this`db, this`writes
      ensures id in db && Adjusted(mode, key, sig, old(db)[id].entries, db[id].entries)
      ensures db == old(db)[id := old(db)[id].(entries := db[id].entries)]
      ensures writes == old(writes) + [db]
    {
      var r := AdjustEntries(mode, key, sig, db[id].entries);
      db := db[id := db[id].(entries := r)];
      writes := writes + [db];
    }

    /** insertBDB of a SPLIT list into a stored node. */
    method InsertSplit(id: NodeId, list: seq<Entry>)
      requires id in db
      modifies this`db, this`writes
      ensures db == old(db)[id := old(db)[id].(entries := SplitEntries(old(db)[id].entries, list))]
      ensures writes == old(writes) + [db]
    {
      var r := AdjustSplit(db[id].entries, list);
      db := db[id := db[id].(entries := r)];
      writes := writes + [db];
    }

    /** performSplit: the node keeps one group, a new sibling gets the other. */
    method PerformSplit(id: NodeId, oldInt: Interval, pID: NodeId) returns (status: Status)
      requires Tiled(db) && SigsOk(db) && id in db && id != RootNode && pID in db
      modifies this`db, this`writes
      ensures status == if Full(old(db)[id]) && oldInt == old(db)[id].span then SUCC else FAIL
      ensures status == FAIL ==> db == old(db) && writes == old(writes)
      ensures status == SUCC ==> old(writes) <= writes && |writes| == |old(writes)| + 6
      ensures status == SUCC ==> SplitOutcome(old(db), db, id, pID, writes[|old(writes)|..])
      ensures status == SUCC ==> SplitBy(old(db), db, id, pID, metric)
      ensures status == SUCC && pID == RootNode && RootIsNoParent(old(db), id) ==> Doubles(old(db), db)
    {
      var node := db[id];
      if !Full(node) || oldInt != node.span {
        return FAIL;
      }
      var group1, group2, lcm1, lcm2 := SplitNode(node.entries, metric);
      SiblingIsNew(db, id);
      PickedSigs(node.entries, group2);
      ghost var d := WriteSplit(id, pID, Pick(node.entries, group2), lcm1, lcm2);
      StepsOutcome(d, id, pID, group1, group2, lcm1, lcm2);
      if pID == RootNode && RootIsNoParent(old(db), id) {
        StepsDouble(d, id, group1, group2, lcm1, lcm2);
      }
      SixWrites(old(writes), d);
      assert SplitRun(d, id, pID, metric, group1, group2, lcm1, lcm2);
      status := SUCC;
    }

    /** The writes, in the order that keeps the moved entries in reach.  The name
        of the sibling is new, so this client is always the first to store it. */
    method WriteSplit(id: NodeId, pID: NodeId, moved: seq<Entry>, lcm1: Vec, lcm2: Vec) returns (ghost d: seq<Db>)
      requires id in db && id != RootNode && pID in db && SiblingId(db[id].span) !in db
      requires SigsOk(db) && IsSig(lcm1) && IsSig(lcm2)
      modifies this`db, this`writes
      ensures Steps(d, id, pID, moved, lcm1, lcm2) && d[0] == old(db) && d[6] == db
      ensures writes == old(writes) + [d[1]] + [d[2]] + [d[3]] + [d[4]] + [d[5]] + [d[6]]
    {
      ghost var d1, d2 := LinkSibling(id, pID, moved, lcm2);
      ghost var d3 := db;
      AdjustedSigs(Update, NodeKey(SiblingId(old(db)[id].span)), lcm2, d2[pID].entries, d3[pID].entries);
      ghost var d4, d5 := MoveEntries(id, pID, moved, lcm1, old(db));
      d := [old(db), d1, d2, d3, d4, d5, db];
    }

    method LinkSibling(id: NodeId, pID: NodeId, moved: seq<Entry>, lcm2: Vec) returns (ghost d1: Db, ghost d2: Db)
      requires id in db && id != RootNode && pID in db && SiblingId(db[id].span) !in db
      requires SigsOk(db) && IsSig(lcm2)
      modifies this`db, this`writes
      ensures Linking(old(db), d1, d2, db, id, pID, moved, lcm2) && d2[pID] == old(db)[pID]
      ensures db[id].kind == old(db)[id].kind && db[id].span == old(db)[id].span
      ensures writes == old(writes) + [d1] + [d2] + [db]
    {
      var sibInt := SiblingPart(db[id].span);
      var siblingID := Named(sibInt.level, sibInt.ln, sibInt.ld);
      var notFirst := InsertHeader(siblingID, db[id].kind, sibInt, true);
      assert !notFirst;
      d1 := db;
      InsertSplit(siblingID, moved);
      d2 := db;
      InsertEntry(pID, NodeKey(siblingID), lcm2, Update);
    }

    method MoveEntries(id: NodeId, pID: NodeId, moved: seq<Entry>, lcm1: Vec, ghost d0: Db)
      returns (ghost d4: Db, ghost d5: Db)
      requires id in db && pID in db && IsSig(lcm1) && forall e :: e in db[pID].entries ==> IsSig(e.sig)
      requires id in d0 && pID in d0 && db[id].span == d0[id].span
      modifies this`db, this`writes
      ensures Moving(d0, old(db), d4, d5, db, id, pID, moved, lcm1)
      ensures writes == old(writes) + [d4] + [d5] + [db]
    {
      var node := db[id];
      InsertEntry(pID, NodeKey(id), lcm1, ReplaceSig);
      d4 := db;
      InsertSplit(id, moved);
      d5 := db;
      var ignored := InsertHeader(id, node.kind, KeptPart(node.span), false);
    }

    /** Steps 1 and 2, or 3 and 4: a new inner node with its entries. */
    method NewHalf(span: Interval, lock: bool, es: seq<Entry>)
      requires Named(span.level, span.ln, span.ld) !in db
      modifies this`db, this`writes
      ensures db == old(db)[Named(span.level, span.ln, span.ld) := Node(NonLeaf, span, es)]
      ensures old(writes) <= writes
    {
      var id := Named(span.level, span.ln, span.ld);
      var notFirst := InsertHeader(id, NonLeaf, span, lock);
      assert !notFirst;
      InsertSplit(id, es);
    }

    /** Steps 5 to 7: the root is emptied, linked to the halves, and raised. */
    method RelinkRoot(all: seq<Entry>, lcm1: Vec, lcm2: Vec)
      requires RootNode in db && db[RootNode].kind == Root && Full(db[RootNode])
      requires Without(db[RootNode].entries, all) == [] && IsSig(lcm1) && IsSig(lcm2)
      modifies this`db, this`writes
      ensures var k := old(db)[RootNode].span.level;
              db == old(db)[RootNode := Node(Root, old(db)[RootNode].span.(level := k + 1),
                                             [Entry(NodeKey(Named(k, 0, 1)), lcm1),
                                              Entry(NodeKey(Named(k, 1, 2)), lcm2)])]
      ensures old(writes) <= writes && |writes| > |old(writes)| && EmptyRoot(writes[|old(writes)|])
    {
      var span := db[RootNode].span;
      var k := span.level;
      InsertSplit(RootNode, all);
      InsertEntry(RootNode, NodeKey(Named(k, 0, 1)), lcm1, Update);
      ghost var r := db[RootNode].entries;
      AdjustedSigs(Update, NodeKey(Named(k, 0, 1)), lcm1, [], r);
      InsertEntry(RootNode, NodeKey(Named(k, 1, 2)), lcm2, Update);
      TwoAdded(NodeKey(Named(k, 0, 1)), lcm1, NodeKey(Named(k, 1, 2)), lcm2, r, db[RootNode].entries);
      var ignored := InsertHeader(RootNode, Root, span.(level := k + 1), false);
    }

    method WriteRootSplit(A: seq<Entry>, B: seq<Entry>, all: seq<Entry>, lcm1: Vec, lcm2: Vec)
      requires RootNode in db && db[RootNode].kind == Root && Full(db[RootNode])
      requires Named(Top(db), 0, 1) !in db && Named(Top(db), 1, 2) !in db
      requires Without(db[RootNode].entries, all) == [] && IsSig(lcm1) && IsSig(lcm2)
      modifies this`db, this`writes
      ensures RootWritten(old(db), db, A, B, lcm1, lcm2) && old(writes) <= writes
      ensures exists i :: |old(writes)| <= i < |writes| && EmptyRoot(writes[i])
    {
      var k := db[RootNode].span.level;
      NewHalf(FirstHalf(k), true, A);
      NewHalf(SecondHalf(k), false, B);
      RelinkRoot(all, lcm1, lcm2);
    }

    /** performSplitRoot: all entries move down into two new nodes. */
    method PerformSplitRoot(oldInt: Interval) returns (status: Status)
      requires Sound(db)
      modifies this`db, this`writes
      ensures status == if Full(old(db)[RootNode]) && oldInt == old(db)[RootNode].span then NODESPLIT else FAIL
      ensures status == FAIL ==> db == old(db) && writes == old(writes)
      ensures status == NODESPLIT ==> RootOutcome(old(db), db) && RootSplitBy(old(db), db, metric)
      ensures status == NODESPLIT ==>
                old(writes) <= writes && exists i :: |old(writes)| <= i < |writes| && EmptyRoot(writes[i])
    {
      var node := db[RootNode];
      if !Full(node) || oldInt != node.span {
        return FAIL;
      }
      assert HeaderOk(RootNode, node, Top(db));
      HalvesAreNew(db);
      var group1, group2, lcm1, lcm2 := SplitNode(node.entries, metric);
      AllListed(node.entries, group1 + group2);
      var A, B := Pick(node.entries, group1), Pick(node.entries, group2);
      WriteRootSplit(A, B, Pick(node.entries, group1 + group2), lcm1, lcm2);
      RootSplitWritten(old(db), db, group1, group2, lcm1, lcm2);
      assert RootSplitRun(old(db), db, metric, group1, group2, lcm1, lcm2);
      status := NODESPLIT;
    }

    // ---------- inserting a document ----------

    /** The loop over the full nodes, deepest first.  It hands the first node the
        given parent and each later node the node before it. */
    method SplitFullNodes(id: NodeId)
      requires Tiled(db) && SigsOk(db) && id in db && id !in fullNodeIDs && fullNodeIDs != []
      requires StillFull(db, fullNodeIDs, fullNodeInts, 0)
      modifies this`db, this`writes
      ensures Tiled(db) && SigsOk(db) && old(writes) <= writes
      ensures SplitChain(old(db), db, fullNodeIDs, id, metric)
      ensures FirstSplit(old(db), db, fullNodeIDs, id, writes[|old(writes)|..])
      ensures |fullNodeIDs| == 1 && id == RootNode && RootIsNoParent(old(db), fullNodeIDs[0]) ==> Doubles(old(db), db)
    {
      FullNodesDiffer(db, fullNodeIDs, fullNodeInts);
      assert FullAt(db, fullNodeIDs[0], fullNodeInts[0], 0);
      ghost var start := db;
      var status := PerformSplit(fullNodeIDs[0], fullNodeInts[0], id);
      ghost var first := db;
      ChainStarts(AsCoded(metric), start, fullNodeIDs, id);
      ChainNext(AsCoded(metric), [start], first, fullNodeIDs, id, 0);
      NextStillFull(start, first, fullNodeIDs, fullNodeInts, 0, id);
      ghost var ds := SplitOthers([start, first], id);
      assert ds[0] == start;
      if |fullNodeIDs| > 1 {
        assert db[id] == first[id];
      }
    }

    /** Its turns after the first.  They touch the full nodes and new siblings only. */
    method SplitOthers(ghost past: seq<Db>, ghost id: NodeId) returns (ghost ds: seq<Db>)
      requires Tiled(db) && SigsOk(db) && fullNodeIDs != [] && fullNodeIDs[0] in db
      requires forall i, j :: 0 <= i < j < |fullNodeIDs| ==> fullNodeIDs[i] != fullNodeIDs[j]
      requires StillFull(db, fullNodeIDs, fullNodeInts, 1)
      requires ChainTo(AsCoded(metric), past, fullNodeIDs, id, 1) && past[1] == db
      modifies this`db, this`writes
      ensures Tiled(db) && SigsOk(db) && old(writes) <= writes && Untouched(old(db), db, fullNodeIDs)
      ensures ChainTo(AsCoded(metric), ds, fullNodeIDs, id, |fullNodeIDs|)
      ensures ds[0] == past[0] && ds[|fullNodeIDs|] == db
      ensures |fullNodeIDs| == 1 ==> db == old(db) && writes == old(writes)
    {
      var pID := fullNodeIDs[0];
      ds := past;
      for i := 1 to |fullNodeIDs|
        invariant Tiled(db) && SigsOk(db) && old(writes) <= writes
        invariant Untouched(old(db), db, fullNodeIDs) && pID == fullNodeIDs[i - 1] && pID in db
        invariant StillFull(db, fullNodeIDs, fullNodeInts, i)
        invariant ChainTo(AsCoded(metric), ds, fullNodeIDs, id, i) && ds[0] == past[0] && ds[i] == db
        invariant i == 1 ==> db == old(db) && writes == old(writes)
      {
        Turn(i, pID, ds, id);
        ds := ds + [db];
        pID := fullNodeIDs[i];
      }
    }

    method Turn(i: nat, pID: NodeId, ghost ds: seq<Db>, ghost id: NodeId)
      requires Tiled(db) && SigsOk(db) && 1 <= i < |fullNodeIDs| && pID == fullNodeIDs[i - 1] && pID in db
      requires forall i, j :: 0 <= i < j < |fullNodeIDs| ==> fullNodeIDs[i] != fullNodeIDs[j]
      requires StillFull(db, fullNodeIDs, fullNodeInts, i)
      requires ChainTo(AsCoded(metric), ds, fullNodeIDs, id, i) && ds[i] == db
      modifies this`db, this`writes
      ensures Tiled(db) && SigsOk(db) && old(writes) <= writes && Untouched(old(db), db, fullNodeIDs)
      ensures StillFull(db, fullNodeIDs, fullNodeInts, i + 1) && fullNodeIDs[i] in db
      ensures ChainTo(AsCoded(metric), ds + [db], fullNodeIDs, id, i + 1)
    {
      assert FullAt(db, fullNodeIDs[i], fullNodeInts[i], i);
      var status := PerformSplit(fullNodeIDs[i], fullNodeInts[i], pID);
      ChainNext(AsCoded(metric), ds, db, fullNodeIDs, id, i);
      NextStillFull(old(db), db, fullNodeIDs, fullNodeInts, i, pID);
    }

    /** The first node on the way back up that is not full. */
    method SplitUnder(id: NodeId, ghost leaf: NodeId)
      requires Sound(db) && FullPath(db, fullNodeIDs, fullNodeInts, leaf)
      requires LinkedFrom(db, fullNodeIDs[|fullNodeIDs| - 1], id) && !Full(db[id])
      modifies this`db, this`writes
      ensures old(writes) <= writes && Reinserted(old(db), db, leaf, writes[|old(writes)|..])
      ensures SplitChain(old(db), db, fullNodeIDs, id, metric)
    {
      NotAmongFull(db, fullNodeIDs, fullNodeInts, leaf, id);
      SplitFullNodes(id);
      AfterSplit(old(db), db, fullNodeIDs, fullNodeInts, leaf, id, writes[|old(writes)|..]);
    }

    /** The root, when it is full itself: it is split first. */
    method SplitUnderRoot(ghost leaf: NodeId)
      requires Sound(db) && Full(db[RootNode]) && FullPath(db, fullNodeIDs, fullNodeInts, leaf)
      requires LinkedFrom(db, fullNodeIDs[|fullNodeIDs| - 1], RootNode)
      modifies this`db, this`writes
      ensures old(writes) <= writes && Reinserted(old(db), db, leaf, writes[|old(writes)|..])
      ensures SplitUnderSplitRoot(old(db), db, fullNodeIDs, metric)
    {
      NotAmongFull(db, fullNodeIDs, fullNodeInts, leaf, RootNode);
      LeafIsLeaf(db, fullNodeIDs, fullNodeInts, leaf);
      var ignored := PerformSplitRoot(db[RootNode].span);
      ghost var mid := db;
      RootLosesLeaf(old(db), mid, leaf);
      FullAfterRootSplit(old(db), mid, fullNodeIDs, fullNodeInts);
      SplitFullNodes(RootNode);
      AfterBothSplits(old(db), mid, db, fullNodeIDs, fullNodeInts, leaf, writes[|old(writes)|..]);
    }

    /** insertDocument: one attempt below node id, which goes down to the leaf at the
        end of the path. */
    method InsertDocument(id: NodeId, sig: Vec, docid: int)
      returns (status: Status, ghost path: seq<NodeId>, leaf: NodeId)
      requires Sound(db) && id in db && IsSig(sig) && fullNodeIDs == [] && fullNodeInts == []
      modifies this
      ensures status != FAIL && old(writes) <= writes
      ensures Leads(path, id, leaf)
      ensures Descent(old(db), path, sig, metric) && IsLeaf(old(db), leaf)
      ensures leaf == id || HasParent(old(db), leaf)
      ensures status == SUCC <==> !Full(old(db)[leaf])
      ensures status == SUCC ==> Inserted(old(db), db, id, docid, sig) && PlacedAlong(old(db), db, path, sig, docid)
      ensures status == NODESPLIT ==> Pushed(old(db), db, fullNodeIDs, fullNodeInts, leaf, id) && writes == old(writes)
      ensures status == NODESPLIT ==> |fullNodeIDs| == |path| && Reversed(path, fullNodeIDs)
      ensures status == REINSERT ==> Reinserted(old(db), db, leaf, writes[|old(writes)|..])
      ensures status == REINSERT ==> SplitUp(old(db), db, path, fullNodeIDs, metric)
      decreases db[id].span.level, 1
    {
      if db[id].kind == Leaf {
        status := VisitLeaf(id, sig, docid);
        path, leaf := [id], id;
        DescentAtLeaf(old(db), id, sig, metric);
      } else {
        var childID := ChildFor(id, sig);
        status, path, leaf := InsertBelow(id, childID, sig, docid);
      }
    }

    method VisitLeaf(id: NodeId, sig: Vec, docid: int) returns (status: Status)
      requires Sound(db) && id in db && db[id].kind == Leaf
      requires IsSig(sig) && fullNodeIDs == [] && fullNodeInts == []
      modifies this
      ensures status == if Full(old(db)[id]) then NODESPLIT else SUCC
      ensures status == SUCC ==> Inserted(old(db), db, id, docid, sig) && old(writes) <= writes
      ensures status == SUCC ==> PlacedAlong(old(db), db, [id], sig, docid)
      ensures status == NODESPLIT ==> Pushed(old(db), db, fullNodeIDs, fullNodeInts, id, id) && writes == old(writes)
      ensures status == NODESPLIT ==> fullNodeIDs == [id]
    {
      assert HeaderOk(id, db[id], Top(db));
      if Full(db[id]) {
        fullNodeIDs, fullNodeInts := fullNodeIDs + [id], fullNodeInts + [db[id].span];
        return NODESPLIT;
      }
      InsertEntry(id, DocKey(docid), sig, Update);
      LeafInserted(old(db), id, docid, sig, db[id].entries);
      assert PlacedAt(old(db), db, [id], 0, sig, docid);
      status := SUCC;
    }

    /** The child whose signature is most alike. */
    method ChildFor(id: NodeId, sig: Vec) returns (childID: NodeId)
      requires SigsOk(db) && Linked(db) && Fed(db) && id in db && db[id].kind != Leaf && IsSig(sig)
      ensures LinkedFrom(db, childID, id) && db[childID].span.level + 1 == db[id].span.level
      ensures Follows(db, id, childID, sig, metric)
    {
      var k, sims, degs := PickChild(db[id].entries, sig, metric);
      BestIsUnbeaten(db[id].entries, k, sig, metric, sims, degs);
      var link := db[id].entries[k];
      assert LinkOk(db, id, link);
      childID := link.key.id;
    }

    method InsertBelow(id: NodeId, childID: NodeId, sig: Vec, docid: int)
      returns (status: Status, ghost path: seq<NodeId>, leaf: NodeId)
      requires Sound(db) && id in db && LinkedFrom(db, childID, id) && db[childID].span.level + 1 == db[id].span.level
      requires IsSig(sig) && fullNodeIDs == [] && fullNodeInts == [] && Follows(db, id, childID, sig, metric)
      modifies this
      ensures status != FAIL && old(writes) <= writes && HasParent(old(db), leaf)
      ensures Leads(path, id, leaf)
      ensures Descent(old(db), path, sig, metric) && IsLeaf(old(db), leaf)
      ensures status == SUCC <==> !Full(old(db)[leaf])
      ensures status == SUCC ==> Inserted(old(db), db, id, docid, sig) && PlacedAlong(old(db), db, path, sig, docid)
      ensures status == NODESPLIT ==> Pushed(old(db), db, fullNodeIDs, fullNodeInts, leaf, id) && writes == old(writes)
      ensures status == NODESPLIT ==> |fullNodeIDs| == |path| && Reversed(path, fullNodeIDs)
      ensures status == REINSERT ==> Reinserted(old(db), db, leaf, writes[|old(writes)|..])
      ensures status == REINSERT ==> SplitUp(old(db), db, path, fullNodeIDs, metric)
      decreases db[id].span.level, 0
    {
      ghost var below;
      status, below, leaf := InsertDocument(childID, sig, docid);
      DescentFrom(old(db), id, below, sig, metric);
      LeadsFrom(id, below, childID, leaf);
      path := [id] + below;
      if status == NODESPLIT {
        status := AfterNodeSplit(id, childID, leaf, below);
      } else if status == SUCC {
        NotOnTheWay(old(db), id, below, sig, metric);
        RaiseLink(old(db), id, childID, sig, docid, below);
      } else {
        SplitUpFrom(old(db), db, id, below, fullNodeIDs, metric);
      }
    }

    /** The way back up after a full leaf: this node is full too, or splits begin. */
    method AfterNodeSplit(id: NodeId, childID: NodeId, ghost leaf: NodeId, ghost below: seq<NodeId>)
      returns (status: Status)
      requires Sound(db) && LinkedFrom(db, childID, id)
      requires Pushed(db, db, fullNodeIDs, fullNodeInts, leaf, childID)
      requires |fullNodeIDs| == |below| && Reversed(below, fullNodeIDs)
      modifies this
      ensures status == NODESPLIT || status == REINSERT
      ensures status == NODESPLIT ==> Pushed(old(db), db, fullNodeIDs, fullNodeInts, leaf, id) && writes == old(writes)
      ensures status == NODESPLIT ==> |fullNodeIDs| == |below| + 1 && Reversed([id] + below, fullNodeIDs)
      ensures status == REINSERT ==>
                old(writes) <= writes && Reinserted(old(db), db, leaf, writes[|old(writes)|..])
      ensures status == REINSERT ==> SplitUp(old(db), db, [id] + below, fullNodeIDs, metric)
    {
      var node := db[id];
      assert HeaderOk(id, node, Top(db));
      ReversedFrom(id, below, fullNodeIDs);
      if node.kind != Root && Full(node) {
        FullPathGrows(db, fullNodeIDs, fullNodeInts, leaf, id);
        fullNodeIDs, fullNodeInts := fullNodeIDs + [id], fullNodeInts + [node.span];
        return NODESPLIT;
      }
      StartSplits(id, leaf, below);
      status := REINSERT;
    }

    /** The splits of all full nodes below id, which has room or is the root. */
    method StartSplits(id: NodeId, ghost leaf: NodeId, ghost below: seq<NodeId>)
      requires Sound(db) && FullPath(db, fullNodeIDs, fullNodeInts, leaf)
      requires LinkedFrom(db, fullNodeIDs[|fullNodeIDs| - 1], id) && (Full(db[id]) ==> id == RootNode)
      requires |fullNodeIDs| == |below| && Reversed([id] + below, fullNodeIDs)
      modifies this`db, this`writes
      ensures old(writes) <= writes && Reinserted(old(db), db, leaf, writes[|old(writes)|..])
      ensures SplitUp(old(db), db, [id] + below, fullNodeIDs, metric)
    {
      AllFull(db, fullNodeIDs, fullNodeInts, leaf);
      if Full(db[id]) {
        SplitUnderRoot(leaf);
      } else {
        SplitUnder(id, leaf);
      }
      TopOfAll(old(db), db, id, below, fullNodeIDs, metric);
    }

    /** The way back up after a successful insertion below childID. */
    method RaiseLink(ghost before: Db, id: NodeId, childID: NodeId, sig: Vec, docid: int, ghost below: seq<NodeId>)
      requires Formed(before) && Covered(before) && LinkedFrom(before, childID, id) && IsSig(sig)
      requires Inserted(before, db, childID, docid, sig) && PlacedAlong(before, db, below, sig, docid)
      requires below != [] && below[0] == childID && id !in below
      modifies this`db, this`writes
      ensures Inserted(before, db, id, docid, sig) && old(writes) <= writes
      ensures PlacedAlong(before, db, [id] + below, sig, docid)
    {
      ParentIsOnly(before, childID, id);
      ghost var d1 := db;
      InsertEntry(id, NodeKey(childID), sig, UpdateIfPresent);
      ParentInserted(before, d1, id, childID, docid, sig, db[id].entries);
      PlacedAbove(before, d1, db, id, below, sig, docid);
    }

    /** One attempt from the root, as the insertion loop makes it.  With the metric,
        a constant signature meeting a constant one is compared as Similar says. */
    method InsertFromRoot(sig: Vec, docid: int) returns (status: Status, ghost path: seq<NodeId>, leaf: NodeId)
      requires Sound(db) && IsSig(sig)
      modifies this
      ensures Leads(path, RootNode, leaf)
      ensures Descent(old(db), path, sig, metric) && IsLeaf(old(db), leaf)
      ensures HasParent(old(db), leaf) && status == if Full(old(db)[leaf]) then REINSERT else SUCC
      ensures status == SUCC ==>
                && Sound(db) && Top(db) == Top(old(db)) && PlacedAlong(old(db), db, path, sig, docid)
                && DocAdded(Docs(old(db), RootNode, Top(db)), Docs(db, RootNode, Top(db)), docid, sig)
      ensures status == REINSERT ==>
                && old(writes) <= writes && Reinserted(old(db), db, leaf, writes[|old(writes)|..])
                && SplitUp(old(db), db, path, fullNodeIDs, metric)
    {
      fullNodeIDs, fullNodeInts := [], [];
      assert HeaderOk(RootNode, db[RootNode], Top(db));
      status, path, leaf := InsertDocument(RootNode, sig, docid);
      if status == SUCC {
        InsertedAtRoot(old(db), db, docid, sig);
      }
    }

    /** The loop that inserts one document.  Each split of a full leaf lowers the
        excess, so there are few attempts; they end with the document in the index,
        or with a split under a full parent.  The code does not notice the latter and
        goes on with the broken index; here the loop ends. */
    method InsertLoop(sig: Vec, docid: int) returns (status: Status, attempts: nat)
      requires Sound(db) && IsSig(sig)
      modifies this
      ensures 1 <= attempts <= 1 + Excess(old(db))
      ensures status == SUCC || status == REINSERT
      ensures status == SUCC ==>
                && Sound(db) && Top(db) == Top(old(db))
                && DocAdded(Docs(old(db), RootNode, Top(db)), Docs(db, RootNode, Top(db)), docid, sig)
      ensures status == REINSERT ==> exists mid, leaf :: BrokenAfter(old(db), mid, db, leaf)
    {
      attempts := 0;
      while true
        invariant Sound(db) && Top(db) == Top(old(db))
        invariant Docs(db, RootNode, Top(db)) == Docs(old(db), RootNode, Top(db))
        invariant attempts + Excess(db) <= Excess(old(db))
        decreases Excess(db)
      {
        var before := db;
        ghost var w := |writes|;
        ghost var path;
        var leaf;
        status, path, leaf := InsertFromRoot(sig, docid);
        attempts := attempts + 1;
        if status == SUCC {
          return;
        }
        RetryOrBroken(before, db, leaf, writes[w..]);
        if FullParent(before, leaf) {
          assert BrokenAfter(old(db), before, db, leaf);
          return;
        }
      }
    }
  }
}
