/** Splitting a leaf under a node that does not link it (tools/gis_chordID.C): what
    the insertion loop does to the root when the root itself has just been split. */
module SignatureWrongParent {
  import opened PolyBits
  import opened SternBrocot
  import opened SignatureSpec
  import opened SignatureChoice
  import opened SignatureSplits
  import opened SignatureTiling
  import opened SignatureUpkeep
  import opened SignatureExcess
  import opened SignatureWrites

  // ---------- one document more ----------

  /** Apart from the root and the leaf id, which still holds e, nothing changes. */
  ghost predicate StillHolds(db: Db, db': Db, id: NodeId, e: Entry) {
    && id in db && id in db' && db[id].kind == Leaf && db'[id].kind == Leaf
    && multiset(db[id].entries)[e] <= multiset(db'[id].entries)[e]
    && forall x :: x in db && x != RootNode && x != id ==> x in db' && db'[x] == db[x]
  }

  lemma {:induction false} SumMono(db: Db, db': Db, leaf: bool, es: seq<Entry>, n: nat, e: Entry)
    requires forall f :: f in es ==> One(db, leaf, f, n)[e] <= One(db', leaf, f, n)[e]
    ensures SumOf(db, leaf, es, n)[e] <= SumOf(db', leaf, es, n)[e]
    decreases |es|
  {
    if es != [] {
      assert es[0] in es && forall f :: f in es[1..] ==> f in es;
      SumMono(db, db', leaf, es[1..], n, e);
    }
  }

  lemma {:induction false} StillThere(db: Db, db': Db, id: NodeId, e: Entry, x: NodeId, n: nat)
    requires Linked(db) && StillHolds(db, db', id, e) && x in db && x != RootNode
    ensures Docs(db, x, n)[e] <= Docs(db', x, n)[e]
    decreases n
  {
    if x == id {
      LeafDocs(db, db[id].entries, n);
      LeafDocs(db', db'[id].entries, n);
    } else {
      StillInSum(db, db', id, e, x, db[x].entries, n);
    }
  }

  lemma {:induction false} StillInSum(db: Db, db': Db, id: NodeId, e: Entry, x: NodeId, es: seq<Entry>, n: nat)
    requires Linked(db) && StillHolds(db, db', id, e) && x in db && es == db[x].entries
    ensures SumOf(db, db[x].kind == Leaf, es, n)[e] <= SumOf(db', db[x].kind == Leaf, es, n)[e]
    decreases n, 0
  {
    var leaf := db[x].kind == Leaf;
    forall f | f in es ensures One(db, leaf, f, n)[e] <= One(db', leaf, f, n)[e] {
      assert LinkOk(db, x, f);
      if !leaf && n > 0 {
        StillThere(db, db', id, e, f.key.id, n - 1);
      }
    }
    SumMono(db, db', leaf, es, n, e);
  }

  /** The root gets a second way to the leaf: what the leaf keeps is there once more. */
  lemma {:induction false} DoubledBelowRoot(db: Db, db': Db, id: NodeId, a: Vec, sib: NodeId, b: Vec, e: Entry, n: nat)
    requires Linked(db) && StillHolds(db, db', id, e) && e in db'[id].entries && n > 0
    requires RootNode in db && RootNode in db' && db[RootNode].kind != Leaf && db'[RootNode].kind != Leaf
    requires db'[RootNode].entries == db[RootNode].entries + [Entry(NodeKey(sib), b)] + [Entry(NodeKey(id), a)]
    ensures Docs(db', RootNode, n)[e] > Docs(db, RootNode, n)[e]
  {
    var es := db[RootNode].entries;
    StillInSum(db, db', id, e, RootNode, es, n);
    LeafDocs(db', db'[id].entries, n - 1);
    SumAppend(db', false, es + [Entry(NodeKey(sib), b)], [Entry(NodeKey(id), a)], n);
    SumAppend(db', false, es, [Entry(NodeKey(sib), b)], n);
    SumOne(db', false, Entry(NodeKey(id), a), n);
  }

  // ---------- the split that does it ----------

  lemma {:induction false} BothAppended(d: seq<Db>, id: NodeId, B: seq<Entry>, a: Vec, b: Vec)
    requires Steps(d, id, RootNode, B, a, b) && Tiled(d[0]) && Linked(d[0]) && !LinkedFrom(d[0], id, RootNode)
    ensures RootNode in d[6]
    ensures d[6][RootNode].entries
            == d[0][RootNode].entries + [Entry(NodeKey(SiblingId(d[0][id].span)), b)] + [Entry(NodeKey(id), a)]
  {
    var es, sib := d[0][RootNode].entries, SiblingId(d[0][id].span);
    SiblingIsNew(d[0], id);
    NotLinkedYet(d[0], sib, RootNode);
    AdjustedShapes(Update, NodeKey(sib), b, es, d[3][RootNode].entries);
    assert !HasKey(es + [Entry(NodeKey(sib), b)], NodeKey(id));
    AdjustedShapes(ReplaceSig, NodeKey(id), a, es + [Entry(NodeKey(sib), b)], d[4][RootNode].entries);
  }

  lemma {:induction false} StillHeld(d: seq<Db>, id: NodeId, B: seq<Entry>, a: Vec, b: Vec, e: Entry)
    requires Steps(d, id, RootNode, B, a, b) && SiblingId(d[0][id].span) !in d[0]
    requires d[0][id].kind == Leaf && Full(d[0][id])
    requires multiset(d[0][id].entries)[e] <= multiset(Without(d[0][id].entries, B))[e]
    ensures StillHolds(d[0], d[6], id, e) && d[6][RootNode].kind == d[0][RootNode].kind
    ensures d[6][id].entries == Without(d[0][id].entries, B)
  {
    LinkingRest(d[0], d[1], d[2], d[3], id, RootNode, B, b);
    MovingRest(d[0], d[3], d[4], d[5], d[6], id, RootNode, B, a);
  }

  /** Some document is in the index more often than before. */
  ghost predicate Doubles(db: Db, db': Db) {
    RootNode in db && exists e :: Docs(db', RootNode, Top(db))[e] > Docs(db, RootNode, Top(db))[e]
  }

  /** The root is no parent of the leaf id. */
  ghost predicate RootIsNoParent(db: Db, id: NodeId) {
    Tiled(db) && Linked(db) && Single(db) && id in db && db[id].kind == Leaf && !LinkedFrom(db, id, RootNode)
  }

  lemma {:induction false} WrongParentDoubles(d: seq<Db>, id: NodeId, B: seq<Entry>, a: Vec, b: Vec, e: Entry)
    requires Steps(d, id, RootNode, B, a, b) && RootIsNoParent(d[0], id) && Full(d[0][id])
    requires e in Without(d[0][id].entries, B)
    requires multiset(d[0][id].entries)[e] <= multiset(Without(d[0][id].entries, B))[e]
    ensures Doubles(d[0], d[6])
  {
    BothAppended(d, id, B, a, b);
    SiblingIsNew(d[0], id);
    assert HeaderOk(RootNode, d[0][RootNode], Top(d[0]));
    StillHeld(d, id, B, a, b, e);
    DoubledBelowRoot(d[0], d[6], id, a, SiblingId(d[0][id].span), b, e, Top(d[0]));
  }

  /** performSplit on a leaf with the root as parent, when the root does not link it. */
  lemma {:induction false} StepsDouble(d: seq<Db>, id: NodeId, g1: seq<nat>, g2: seq<nat>, a: Vec, b: Vec)
    requires |d| == 7 && RootIsNoParent(d[0], id) && Full(d[0][id])
    requires SplitGroups(d[0][id].entries, g1, g2, a, b)
    requires Steps(d, id, RootNode, Pick(d[0][id].entries, g2), a, b)
    ensures Doubles(d[0], d[6])
  {
    var es := d[0][id].entries;
    var A, B := Without(es, Pick(es, g2)), Pick(es, g2);
    GroupsShare(es, g1, g2, a, b);
    KeptOnce(es, A, B, a, b, A[0]);
    WrongParentDoubles(d, id, B, a, b, A[0]);
  }

  lemma {:induction false} KeptOnce(es: seq<Entry>, A: seq<Entry>, B: seq<Entry>, a: Vec, b: Vec, e: Entry)
    requires Shared(es, A, B, a, b) && e in A
    ensures multiset(es)[e] == multiset(A)[e]
  {
    assert e !in B;
    assert multiset(B)[e] == 0;
  }

  // ---------- the full nodes of one insertion ----------

  /** The full nodes met on the way up from leaf, one per level, with the headers
      seen there. */
  ghost predicate FullPath(db: Db, ids: seq<NodeId>, ints: seq<Interval>, leaf: NodeId) {
    && ids != [] && |ids| == |ints| && ids[0] == leaf
    && (forall i :: 0 <= i < |ids| ==> FullAt(db, ids[i], ints[i], i))
    && (|ids| > 1 ==> LinkedFrom(db, leaf, ids[1]))
  }

  ghost predicate FullAt(db: Db, id: NodeId, span: Interval, level: nat) {
    id in db && id != RootNode && Full(db[id]) && span == db[id].span && span.level == level
  }

  lemma {:induction false} FullPathGrows(db: Db, ids: seq<NodeId>, ints: seq<Interval>, leaf: NodeId, id: NodeId)
    requires FullPath(db, ids, ints, leaf) && Linked(db) && LinkedFrom(db, ids[|ids| - 1], id)
    requires id != RootNode && Full(db[id])
    ensures FullPath(db, ids + [id], ints + [db[id].span], leaf)
  {
    AboveFull(db, ids, ints, leaf, id);
  }

  lemma {:induction false} AboveFull(db: Db, ids: seq<NodeId>, ints: seq<Interval>, leaf: NodeId, id: NodeId)
    requires FullPath(db, ids, ints, leaf) && Linked(db) && LinkedFrom(db, ids[|ids| - 1], id)
    ensures db[id].span.level == |ids|
  {
    var last := ids[|ids| - 1];
    assert FullAt(db, last, ints[|ids| - 1], |ids| - 1);
    var s :| s in db[id].entries && s.key == NodeKey(last);
    assert LinkOk(db, id, s);
  }

  lemma {:induction false} FullAfterRootSplit(db: Db, mid: Db, ids: seq<NodeId>, ints: seq<Interval>)
    requires RootOutcome(db, mid) && |ids| == |ints|
    requires forall i :: 0 <= i < |ids| ==> FullAt(db, ids[i], ints[i], i)
    ensures forall i :: 0 <= i < |ids| ==> FullAt(mid, ids[i], ints[i], i)
  {
    RootOutcomeIs(db, mid);
    forall i | 0 <= i < |ids| ensures FullAt(mid, ids[i], ints[i], i) {
      assert FullAt(db, ids[i], ints[i], i);
    }
  }

  lemma {:induction false} RootLosesLeaf(db: Db, mid: Db, id: NodeId)
    requires RootOutcome(db, mid) && id in db && id != RootNode && db[id].kind == Leaf
    ensures RootNode in mid && Tiled(mid) && SigsOk(mid) && RootIsNoParent(mid, id)
  {
    RootOutcomeIs(db, mid);
  }

  // ---------- what an insertion that met a full leaf has done ----------

  /** A link to leaf in a node p that is not one level above it. */
  ghost predicate Misplaced(db: Db, leaf: NodeId, p: NodeId) {
    leaf in db && p in db && HasKey(db[p].entries, NodeKey(leaf)) && db[p].span.level != db[leaf].span.level + 1
  }

  lemma {:induction false} MisplacedBreaks(db: Db, leaf: NodeId, p: NodeId)
    requires Misplaced(db, leaf, p)
    ensures !Linked(db)
  {
    var e :| e in db[p].entries && e.key == NodeKey(leaf);
    assert !LinkOk(db, p, e);
  }

  /** With p the node that links the full leaf: if p is not full, the index stays
      sound, holds the same documents, and keeps all of them in reach at every write.
      If p is full, a node ends up with a link it must not have, and if p is the root
      a document is in the index more often than before. */
  ghost predicate Reinserted(db: Db, db': Db, leaf: NodeId, W: seq<Db>) {
    && RootNode in db && Tiled(db') && SigsOk(db')
    && forall p :: LinkedFrom(db, leaf, p) ==> if Full(db[p]) then Broken(db, db', p) else Kept(db, db', W)
  }

  ghost predicate Kept(db: Db, db': Db, W: seq<Db>) {
    && RootNode in db && Sound(db') && Top(db') == Top(db) && Excess(db') < Excess(db)
    && Docs(db', RootNode, Top(db)) == Docs(db, RootNode, Top(db))
    && forall i :: 0 <= i < |W| ==> KeepsFound(db, W[i])
  }

  ghost predicate Broken(db: Db, db': Db, p: NodeId) {
    && RootNode in db && RootNode in db' && !Linked(db')
    && (p == RootNode ==> exists e :: Docs(db', RootNode, Top(db'))[e] > Docs(db, RootNode, Top(db))[e])
  }

  /** So the index survives exactly when the parent of the full leaf was not full. */
  lemma {:induction false} SoundExactlyIf(db: Db, db': Db, leaf: NodeId, p: NodeId, W: seq<Db>)
    requires Reinserted(db, db', leaf, W) && LinkedFrom(db, leaf, p)
    ensures Sound(db') && Docs(db', RootNode, Top(db')) == Docs(db, RootNode, Top(db)) <==> !Full(db[p])
  {
    assert if Full(db[p]) then Broken(db, db', p) else Kept(db, db', W);
  }

  /** Every node's level is what it was, and id still or newly links leaf. */
  ghost predicate LinkLeft(db: Db, db': Db, leaf: NodeId, id: NodeId) {
    && (forall x :: x in db ==> x in db' && db'[x].span.level == db[x].span.level)
    && id in db' && HasKey(db'[id].entries, NodeKey(leaf))
  }

  /** What the loop over the full nodes does to the node id it starts from. */
  ghost predicate FirstSplit(db: Db, db': Db, ids: seq<NodeId>, id: NodeId, W: seq<Db>) {
    ids != [] && LinkLeft(db, db', ids[0], id) && (|ids| == 1 ==> SplitOutcome(db, db', ids[0], id, W))
  }

  lemma {:induction false} OneParent(db: Db, leaf: NodeId, p: NodeId, q: NodeId)
    requires Single(db) && LinkedFrom(db, leaf, p) && LinkedFrom(db, leaf, q)
    ensures p == q
  {
  }

  lemma {:induction false} OutcomeKept(db: Db, db': Db, ids: seq<NodeId>, ints: seq<Interval>, leaf: NodeId,
                                       id: NodeId, W: seq<Db>)
    requires Sound(db) && FullPath(db, ids, ints, leaf) && |ids| == 1 && LinkedFrom(db, leaf, id)
    requires SplitOutcome(db, db', leaf, id, W)
    ensures Kept(db, db', W)
  {
    LeafIsLeaf(db, ids, ints, leaf);
    SplitKeptIs(db, db', leaf, W);
  }

  /** Splits under a node that is not full. */
  lemma {:induction false} AfterSplit(db: Db, db': Db, ids: seq<NodeId>, ints: seq<Interval>, leaf: NodeId,
                                      id: NodeId, W: seq<Db>)
    requires Sound(db) && Tiled(db') && SigsOk(db')
    requires FullPath(db, ids, ints, leaf) && LinkedFrom(db, ids[|ids| - 1], id) && !Full(db[id])
    requires ids[0] == leaf && FirstSplit(db, db', ids, id, W)
    ensures Reinserted(db, db', leaf, W)
  {
    if |ids| == 1 {
      OutcomeKept(db, db', ids, ints, leaf, id, W);
    }
    forall p | LinkedFrom(db, leaf, p) ensures if Full(db[p]) then Broken(db, db', p) else Kept(db, db', W) {
      if |ids| == 1 {
        OneParent(db, leaf, p, id);
      } else {
        OneParent(db, leaf, p, ids[1]);
        AboveFull(db, ids, ints, leaf, id);
        assert FullAt(db, ids[0], ints[0], 0) && FullAt(db, ids[1], ints[1], 1);
        MisplacedBreaks(db', leaf, id);
      }
    }
  }

  /** Splits under the root after its own split. */
  lemma {:induction false} AfterBothSplits(db: Db, mid: Db, db': Db, ids: seq<NodeId>, ints: seq<Interval>,
                                           leaf: NodeId, W: seq<Db>)
    requires Linked(db) && Single(db) && RootOutcome(db, mid) && Tiled(db') && SigsOk(db')
    requires FullPath(db, ids, ints, leaf) && LinkedFrom(db, ids[|ids| - 1], RootNode) && Full(db[RootNode])
    requires LinkLeft(mid, db', leaf, RootNode) && (|ids| == 1 ==> Doubles(mid, db'))
    ensures Reinserted(db, db', leaf, W)
  {
    RootOutcomeIs(db, mid);
    assert FullAt(db, ids[0], ints[0], 0);
    AboveFull(db, ids, ints, leaf, RootNode);
    MisplacedBreaks(db', leaf, RootNode);
    forall p | LinkedFrom(db, leaf, p) ensures Full(db[p]) && Broken(db, db', p) {
      if |ids| == 1 {
        OneParent(db, leaf, p, RootNode);
      } else {
        OneParent(db, leaf, p, ids[1]);
        assert FullAt(db, ids[1], ints[1], 1);
      }
    }
  }

  predicate IsLeaf(db: Db, leaf: NodeId) {
    leaf in db && db[leaf].kind == Leaf
  }

  ghost predicate HasParent(db: Db, leaf: NodeId) {
    exists p :: LinkedFrom(db, leaf, p)
  }

  /** The node that links the leaf is full. */
  predicate FullParent(db: Db, leaf: NodeId) {
    exists p :: p in db && LinkedFrom(db, leaf, p) && Full(db[p])
  }

  /** What a split of a full leaf does, by what its parent was. */
  lemma {:induction false} RetryOrBroken(db: Db, db': Db, leaf: NodeId, W: seq<Db>)
    requires Reinserted(db, db', leaf, W) && HasParent(db, leaf)
    ensures !FullParent(db, leaf) ==> Kept(db, db', W)
    ensures FullParent(db, leaf) ==> BrokenAt(db, db', leaf)
  {
    var p :| LinkedFrom(db, leaf, p);
    assert if Full(db[p]) then Broken(db, db', p) else Kept(db, db', W);
    if FullParent(db, leaf) {
      var q :| q in db && LinkedFrom(db, leaf, q) && Full(db[q]);
      assert if Full(db[q]) then Broken(db, db', q) else Kept(db, db', W);
    }
  }

  ghost predicate BrokenAt(db: Db, db': Db, leaf: NodeId) {
    exists p :: LinkedFrom(db, leaf, p) && Full(db[p]) && Broken(db, db', p)
  }

  /** Some attempts have kept the index sound and its documents, and the last one,
      on mid, has broken it. */
  ghost predicate BrokenAfter(db: Db, mid: Db, db': Db, leaf: NodeId) {
    && RootNode in db && Sound(mid) && Top(mid) == Top(db)
    && Docs(mid, RootNode, Top(mid)) == Docs(db, RootNode, Top(db))
    && IsLeaf(mid, leaf) && Full(mid[leaf]) && BrokenAt(mid, db', leaf)
  }

  /** Nothing is stored yet, and the last of the full nodes is id. */
  ghost predicate Pushed(db: Db, db': Db, ids: seq<NodeId>, ints: seq<Interval>, leaf: NodeId, id: NodeId) {
    db' == db && id != RootNode && FullPath(db, ids, ints, leaf) && ids[|ids| - 1] == id
  }

  /** Nodes outside the list are as they were, and all keep their levels. */
  ghost predicate Untouched(db: Db, db': Db, ids: seq<NodeId>) {
    && (forall x :: x in db ==> x in db' && db'[x].span.level == db[x].span.level)
    && (forall x :: x in db && x !in ids ==> db'[x] == db[x])
  }

  lemma {:induction false} NotAmongFull(db: Db, ids: seq<NodeId>, ints: seq<Interval>, leaf: NodeId, id: NodeId)
    requires FullPath(db, ids, ints, leaf) && Linked(db) && LinkedFrom(db, ids[|ids| - 1], id)
    ensures id !in ids
  {
    AboveFull(db, ids, ints, leaf, id);
    forall i | 0 <= i < |ids| ensures ids[i] != id {
      assert FullAt(db, ids[i], ints[i], i);
    }
  }

  lemma {:induction false} LeafIsLeaf(db: Db, ids: seq<NodeId>, ints: seq<Interval>, leaf: NodeId)
    requires FullPath(db, ids, ints, leaf) && Linked(db)
    ensures leaf in db && db[leaf].kind == Leaf && leaf != RootNode
  {
    assert FullAt(db, ids[0], ints[0], 0);
  }
}
