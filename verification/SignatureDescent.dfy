/** One attempt to insert a document into the signature index, node by node
    (tools/gis_chordID.C): the way down to a leaf, what a leaf with room does to the
    nodes on that way, and which splits a full leaf leads to. */
module SignatureDescent {
  import opened Poly
  import opened PolyBits
  import opened SternBrocot
  import opened Guard
  import opened SignatureSpec
  import opened SignatureChoice
  import opened SignatureWrites
  import opened SignatureWrongParent

  // ---------- the way down ----------

  ghost function DegreeOf(v: Vec): int {
    Len(Val(v)) - 1
  }

  /** No entry is more alike to the signature than entry k, nor as alike and of lower
      degree; and those before it are not as good as it is. */
  ghost predicate NoneBeats(es: seq<Entry>, k: nat, sig: Vec, metric: bool) {
    k < |es| && forall i, v, w ::
                  0 <= i < |es| && Similarity(es[i].sig, sig, metric, v) && Similarity(es[k].sig, sig, metric, w)
                  ==> !Beats(v, DegreeOf(es[i].sig), w, DegreeOf(es[k].sig))
                      && (i < k ==> Beats(w, DegreeOf(es[k].sig), v, DegreeOf(es[i].sig)))
  }

  lemma {:induction false} BestIsUnbeaten(es: seq<Entry>, k: nat, sig: Vec, metric: bool, sims: seq<int>,
                                          degs: seq<int>)
    requires |sims| == |es| && Measured(es, sig, metric, sims, degs) && Best(sims, degs, k)
    ensures NoneBeats(es, k, sig, metric)
  {
    forall i, v, w | 0 <= i < |es| && Similarity(es[i].sig, sig, metric, v) && Similarity(es[k].sig, sig, metric, w)
      ensures !Beats(v, DegreeOf(es[i].sig), w, DegreeOf(es[k].sig))
              && (i < k ==> Beats(w, DegreeOf(es[k].sig), v, DegreeOf(es[i].sig)))
    {
      SimilarityIsUnique(es[i].sig, sig, metric, v, sims[i]);
      SimilarityIsUnique(es[k].sig, sig, metric, w, sims[k]);
    }
  }

  /** The link from id that the document's signature follows leads to c. */
  ghost predicate Follows(db: Db, id: NodeId, c: NodeId, sig: Vec, metric: bool) {
    id in db && exists k: nat :: NoneBeats(db[id].entries, k, sig, metric) && db[id].entries[k].key == NodeKey(c)
  }


  /** From the first node down to a leaf, along the link that no other beats. */
  ghost predicate GoesDown(db: Db, path: seq<NodeId>, sig: Vec, metric: bool) {
    && path != [] && IsLeaf(db, path[|path| - 1])
    && path[0] in db
    && (forall i :: 0 <= i < |path| ==> path[i] in db && db[path[i]].span.level + i == db[path[0]].span.level)
    && forall i :: 0 <= i < |path| - 1 ==> StepDown(db, path, i, sig, metric)
  }

  ghost predicate Descent(db: Db, path: seq<NodeId>, sig: Vec, metric: bool) {
    forall n: nat {:trigger Look(n)} :: Look(n) ==> GoesDown(db, path, sig, metric)
  }

  lemma {:induction false} DescentIs(db: Db, path: seq<NodeId>, sig: Vec, metric: bool)
    ensures Descent(db, path, sig, metric) <==> GoesDown(db, path, sig, metric)
  {
    assert Look(0);
  }

  /** A leaf is the end of its own way. */
  lemma {:induction false} DescentAtLeaf(db: Db, id: NodeId, sig: Vec, metric: bool)
    requires IsLeaf(db, id)
    ensures Descent(db, [id], sig, metric)
  {
  }

  predicate Leads(path: seq<NodeId>, id: NodeId, leaf: NodeId) {
    path != [] && path[0] == id && path[|path| - 1] == leaf
  }

  lemma {:induction false} LeadsFrom(id: NodeId, path: seq<NodeId>, child: NodeId, leaf: NodeId)
    requires Leads(path, child, leaf)
    ensures Leads([id] + path, id, leaf)
  {
  }

  ghost predicate StepDown(db: Db, path: seq<NodeId>, i: nat, sig: Vec, metric: bool)
    requires i < |path| - 1
  {
    Follows(db, path[i], path[i + 1], sig, metric)
  }

  lemma {:induction false} DescentFrom(db: Db, id: NodeId, path: seq<NodeId>, sig: Vec, metric: bool)
    requires Descent(db, path, sig, metric) && path != [] && path[0] in db
    requires id in db && db[id].span.level == db[path[0]].span.level + 1 && Follows(db, id, path[0], sig, metric)
    ensures Descent(db, [id] + path, sig, metric)
  {
    DescentIs(db, path, sig, metric);
    DescentIs(db, [id] + path, sig, metric);
    var all := [id] + path;
    forall i | 0 <= i < |all| - 1 ensures StepDown(db, all, i, sig, metric) {
      assert i > 0 ==> StepDown(db, path, i - 1, sig, metric);
    }
  }

  // ---------- a leaf with room ----------

  /** What the document changes at node i of its way: the leaf gets its entry, and a
      node above raises its link to the next node. */
  ghost predicate PlacedAt(db: Db, db': Db, path: seq<NodeId>, i: nat, sig: Vec, docid: int)
    requires i < |path|
  {
    var x := path[i];
    && x in db && x in db' && db'[x] == db[x].(entries := db'[x].entries)
    && if i == |path| - 1 then Adjusted(Update, DocKey(docid), sig, db[x].entries, db'[x].entries)
       else Adjusted(UpdateIfPresent, NodeKey(path[i + 1]), sig, db[x].entries, db'[x].entries)
  }

  /** Nothing else changes. */
  ghost predicate PlacedAlong(db: Db, db': Db, path: seq<NodeId>, sig: Vec, docid: int) {
    && db'.Keys == db.Keys
    && (forall x :: x in db && x !in path ==> db'[x] == db[x])
    && forall i :: 0 <= i < |path| ==> PlacedAt(db, db', path, i, sig, docid)
  }

  lemma {:induction false} PlacedAbove(db: Db, d1: Db, db': Db, id: NodeId, path: seq<NodeId>, sig: Vec, docid: int)
    requires path != [] && id !in path && id in db && PlacedAlong(db, d1, path, sig, docid) && id in db'
    requires db' == d1[id := d1[id].(entries := db'[id].entries)]
    requires Adjusted(UpdateIfPresent, NodeKey(path[0]), sig, d1[id].entries, db'[id].entries)
    ensures PlacedAlong(db, db', [id] + path, sig, docid)
  {
    var all := [id] + path;
    forall i | 0 <= i < |all| ensures PlacedAt(db, db', all, i, sig, docid) {
      if i > 0 {
        assert PlacedAt(db, d1, path, i - 1, sig, docid);
        assert all[i] == path[i - 1] && all[i] in path;
      }
    }
    forall x | x in db && x !in all ensures db'[x] == db[x] {
      assert x !in path;
    }
  }

  lemma {:induction false} NotOnTheWay(db: Db, id: NodeId, path: seq<NodeId>, sig: Vec, metric: bool)
    requires Descent(db, path, sig, metric) && path != [] && path[0] in db
    requires id in db && db[id].span.level > db[path[0]].span.level
    ensures id !in path
  {
    DescentIs(db, path, sig, metric);
  }

  // ---------- a full leaf ----------

  /** The full nodes, deepest first, are the end of the way down. */
  predicate Reversed(path: seq<NodeId>, ids: seq<NodeId>) {
    |ids| <= |path| && forall i :: 0 <= i < |ids| ==> ids[i] == path[|path| - 1 - i]
  }

  lemma {:induction false} ReversedFrom(id: NodeId, path: seq<NodeId>, ids: seq<NodeId>)
    requires Reversed(path, ids)
    ensures Reversed([id] + path, ids)
    ensures |ids| == |path| ==> Reversed([id] + path, ids + [id])
  {
    var all := [id] + path;
    assert forall j :: 0 <= j < |path| ==> all[j + 1] == path[j];
    assert all[0] == id;
  }

  /** Whether one state follows another by the split of a node under a node. */
  type Splitting = (Db, Db, NodeId, NodeId) -> bool

  ghost function AsCoded(metric: bool): Splitting {
    (db: Db, db': Db, id: NodeId, p: NodeId) => SplitBy(db, db', id, p, metric)
  }

  /** Each of the first n full nodes is divided under the one before it, the first under id. */
  ghost predicate ChainTo(split: Splitting, ds: seq<Db>, ids: seq<NodeId>, id: NodeId, n: nat) {
    && |ds| == n + 1 && n <= |ids|
    && forall i :: 0 <= i < n ==> split(ds[i], ds[i + 1], ids[i], if i == 0 then id else ids[i - 1])
  }

  lemma {:induction false} ChainStarts(split: Splitting, db: Db, ids: seq<NodeId>, id: NodeId)
    ensures ChainTo(split, [db], ids, id, 0)
  {
  }

  lemma {:induction false} ChainNext(split: Splitting, ds: seq<Db>, db: Db, ids: seq<NodeId>, id: NodeId, n: nat)
    requires n < |ids| && ChainTo(split, ds, ids, id, n)
    requires split(ds[n], db, ids[n], if n == 0 then id else ids[n - 1])
    ensures ChainTo(split, ds + [db], ids, id, n + 1)
  {
    var es := ds + [db];
    forall i | 0 <= i < n + 1 ensures split(es[i], es[i + 1], ids[i], if i == 0 then id else ids[i - 1]) {
      assert es[i] == ds[i];
      assert i < n ==> es[i + 1] == ds[i + 1];
    }
  }

  /** The full nodes from n on are as they were when they were met. */
  ghost predicate StillFull(db: Db, ids: seq<NodeId>, ints: seq<Interval>, n: nat) {
    |ids| == |ints| && forall i :: n <= i < |ids| ==> FullAt(db, ids[i], ints[i], i)
  }

  lemma {:induction false} NextStillFull(db: Db, db': Db, ids: seq<NodeId>, ints: seq<Interval>, n: nat, p: NodeId)
    requires n < |ids| && StillFull(db, ids, ints, n) && SplitFrame(db, db', ids[n], p)
    requires (forall i :: n <= i < |ids| ==> ids[i] != p)
    ensures StillFull(db', ids, ints, n + 1)
  {
    assert FullAt(db, ids[n], ints[n], n);
    forall i | n + 1 <= i < |ids| ensures FullAt(db', ids[i], ints[i], i) {
      assert FullAt(db, ids[i], ints[i], i);
    }
  }

  lemma {:induction false} FullNodesDiffer(db: Db, ids: seq<NodeId>, ints: seq<Interval>)
    requires StillFull(db, ids, ints, 0)
    ensures forall i, j :: 0 <= i < j < |ids| ==> ids[i] != ids[j]
  {
    forall i, j | 0 <= i < j < |ids| ensures ids[i] != ids[j] {
      assert FullAt(db, ids[i], ints[i], i) && FullAt(db, ids[j], ints[j], j);
    }
  }

  /** What a full leaf at the end of the way leads to: the node `top` above the full ones
      is not full, or it is the root and is divided first; then the full ones are. */
  ghost predicate SplitUp(db: Db, db': Db, path: seq<NodeId>, ids: seq<NodeId>, metric: bool) {
    && 1 <= |ids| < |path| && Reversed(path, ids)
    && var top := path[|path| - 1 - |ids|];
    && top in db && (forall i :: 0 <= i < |ids| ==> ids[i] in db && Full(db[ids[i]]))
    && if Full(db[top]) then top == RootNode && SplitUnderSplitRoot(db, db', ids, metric)
       else SplitChain(db, db', ids, top, metric)
  }

  ghost predicate SplitChain(db: Db, db': Db, ids: seq<NodeId>, top: NodeId, metric: bool) {
    exists ds :: ChainTo(AsCoded(metric), ds, ids, top, |ids|) && ds[0] == db && ds[|ids|] == db'
  }

  ghost predicate SplitUnderSplitRoot(db: Db, db': Db, ids: seq<NodeId>, metric: bool) {
    exists mid :: RootSplitBy(db, mid, metric) && SplitChain(mid, db', ids, RootNode, metric)
  }

  lemma {:induction false} SplitUpFrom(db: Db, db': Db, id: NodeId, path: seq<NodeId>, ids: seq<NodeId>, metric: bool)
    requires SplitUp(db, db', path, ids, metric)
    ensures SplitUp(db, db', [id] + path, ids, metric)
  {
    ReversedFrom(id, path, ids);
  }

  lemma {:induction false} AllFull(db: Db, ids: seq<NodeId>, ints: seq<Interval>, leaf: NodeId)
    requires FullPath(db, ids, ints, leaf)
    ensures forall i :: 0 <= i < |ids| ==> ids[i] in db && Full(db[ids[i]])
  {
    forall i | 0 <= i < |ids| ensures ids[i] in db && Full(db[ids[i]]) {
      assert FullAt(db, ids[i], ints[i], i);
    }
  }

  /** All nodes below id are full. */
  lemma {:induction false} TopOfAll(db: Db, db': Db, id: NodeId, below: seq<NodeId>, ids: seq<NodeId>, metric: bool)
    requires id in db && ids != [] && |ids| == |below| && Reversed([id] + below, ids)
    requires forall i :: 0 <= i < |ids| ==> ids[i] in db && Full(db[ids[i]])
    requires if Full(db[id]) then id == RootNode && SplitUnderSplitRoot(db, db', ids, metric)
             else SplitChain(db, db', ids, id, metric)
    ensures SplitUp(db, db', [id] + below, ids, metric)
  {
  }
}
