/** Single writes to stored nodes of the signature index (tools/gis_chordID.C), and
    what the writes of a split add up to. */
module SignatureWrites {
  import opened PolyDivides
  import opened PolyBits
  import opened PolyProducts
  import opened SternBrocot
  import opened Guard
  import opened SignatureSpec
  import opened SignatureChoice
  import opened SignatureSplits
  import opened SignatureTiling
  import opened SignatureUpkeep
  import opened SignatureExcess

  datatype Mode = Update | UpdateIfPresent | ReplaceSig

  datatype Status = SUCC | FAIL | NODESPLIT | REINSERT

  // ---------- what one write does to a node ----------

  /** Entry e after a write of (key, sig). */
  ghost predicate Rewritten(mode: Mode, key: Key, sig: Vec, e: Entry, f: Entry) {
    && f.key == e.key
    && if e.key != key then f == e
       else if mode == ReplaceSig then f.sig == sig
       else IsSig(f.sig) && IsLcm(Val(f.sig), Val(e.sig), Val(sig))
  }

  /** All entries under the key are rewritten; if there is none, one is added,
      except by UPDATEIFPRESENT. */
  ghost predicate Adjusted(mode: Mode, key: Key, sig: Vec, es: seq<Entry>, r: seq<Entry>) {
    && |r| == |es| + (if HasKey(es, key) || mode == UpdateIfPresent then 0 else 1)
    && (forall i :: 0 <= i < |es| ==> Rewritten(mode, key, sig, es[i], r[i]))
    && (|r| > |es| ==> r[|es|] == Entry(key, sig))
  }

  method AdjustEntries(mode: Mode, key: Key, sig: Vec, es: seq<Entry>) returns (r: seq<Entry>)
    requires IsSig(sig) && forall e :: e in es ==> IsSig(e.sig)
    ensures Adjusted(mode, key, sig, es, r)
  {
    r := es;
    var isUpdate := false;
    for i := 0 to |es|
      invariant |r| == |es| && isUpdate == exists j :: 0 <= j < i && es[j].key == key
      invariant forall j :: 0 <= j < i ==> Rewritten(mode, key, sig, es[j], r[j])
      invariant forall j :: i <= j < |es| ==> r[j] == es[j]
    {
      if es[i].key == key {
        var childSig := sig;
        if mode != ReplaceSig {
          childSig := Lcm(es[i].sig, sig);
        }
        isUpdate := true;
        r := r[i := Entry(key, childSig)];
      }
    }
    assert isUpdate == HasKey(es, key);
    if !isUpdate && mode != UpdateIfPresent {
      r := r + [Entry(key, sig)];
    }
  }

  /** SPLIT: a full node loses the listed keys, an empty one takes the list, and
      any other stays as it is. */
  function SplitEntries(es: seq<Entry>, list: seq<Entry>): seq<Entry> {
    if |es| + 1 > MAXENTRIES then Without(es, list) else if es == [] then list else es
  }

  method AdjustSplit(es: seq<Entry>, list: seq<Entry>) returns (r: seq<Entry>)
    ensures r == SplitEntries(es, list)
  {
    if |es| + 1 > MAXENTRIES {
      r := [];
      for i := 0 to |es|
        invariant r == Without(es[..i], list)
      {
        var isPresent := false;
        for j := 0 to |list|
          invariant !isPresent && forall k :: 0 <= k < j ==> list[k].key != es[i].key
        {
          if list[j].key == es[i].key {
            isPresent := true;
            break;
          }
        }
        assert isPresent == HasKey(list, es[i].key);
        assert es[..i + 1][..i] == es[..i];
        if !isPresent {
          r := r + [es[i]];
        }
      }
      assert es[..|es|] == es;
    } else if es == [] {
      r := list;
    } else {
      r := es;
    }
  }

  /** UPDATEHDR: the right end moves only to the left, and only the root's level
      grows. */
  function MergedSpan(kind: Kind, cur: Interval, next: Interval): (r: Interval)
    ensures r.ln == cur.ln && r.ld == cur.ld
    ensures r.rn * cur.rd <= cur.rn * r.rd
    ensures (r.rn == next.rn && r.rd == next.rd) || (r.rn == cur.rn && r.rd == cur.rd)
    ensures r.level >= cur.level && (kind != Root ==> r.level == cur.level)
  {
    var right := if next.rn * cur.rd < next.rd * cur.rn then (next.rn, next.rd) else (cur.rn, cur.rd);
    var level := if kind == Root && cur.level < next.level then next.level else cur.level;
    Interval(cur.ln, cur.ld, right.0, right.1, level)
  }

  lemma {:induction false} AdjustedSigs(mode: Mode, key: Key, sig: Vec, es: seq<Entry>, r: seq<Entry>)
    requires Adjusted(mode, key, sig, es, r) && IsSig(sig) && forall e :: e in es ==> IsSig(e.sig)
    ensures forall e :: e in r ==> IsSig(e.sig)
  {
    forall i | 0 <= i < |r| ensures IsSig(r[i].sig) {
      if i < |es| {
        assert es[i] in es && Rewritten(mode, key, sig, es[i], r[i]);
      }
    }
  }

  /** The first write of a key appends it; replacing keeps all else. */
  lemma {:induction false} AdjustedShapes(mode: Mode, key: Key, sig: Vec, es: seq<Entry>, r: seq<Entry>)
    requires Adjusted(mode, key, sig, es, r)
    ensures !HasKey(es, key) && mode != UpdateIfPresent ==> r == es + [Entry(key, sig)]
    ensures HasKey(es, key) && mode == ReplaceSig ==> r == Relinked(es, key, sig)
  {
    forall i | 0 <= i < |es| ensures Rewritten(mode, key, sig, es[i], r[i]) && es[i] in es {
    }
  }

  lemma {:induction false} WithoutMembers(es: seq<Entry>, list: seq<Entry>)
    ensures forall e :: e in Without(es, list) ==> e in es
  {
    if es != [] {
      WithoutMembers(es[..|es| - 1], list);
      assert forall e :: e in es[..|es| - 1] ==> e in es;
    }
  }

  // ---------- the writes of a split ----------

  /** The six writes of performSplit, from d[0] to d[6]. */
  ghost predicate Steps(d: seq<Db>, id: NodeId, p: NodeId, B: seq<Entry>, a: Vec, b: Vec) {
    && |d| == 7 && id in d[0] && p in d[0] && id != RootNode
    && Linking(d[0], d[1], d[2], d[3], id, p, B, b)
    && Moving(d[0], d[3], d[4], d[5], d[6], id, p, B, a)
  }

  /** Steps 1 to 3: the sibling is stored and filled, then the parent links it. */
  ghost predicate Linking(d0: Db, d1: Db, d2: Db, d3: Db, id: NodeId, p: NodeId, B: seq<Entry>, b: Vec)
    requires id in d0 && p in d0
  {
    var s, sib := d0[id].span, SiblingId(d0[id].span);
    && d1 == d0[sib := Node(d0[id].kind, SiblingPart(s), [])]
    && d2 == d1[sib := d1[sib].(entries := SplitEntries(d1[sib].entries, B))]
    && p in d2 && p in d3 && Adjusted(Update, NodeKey(sib), b, d2[p].entries, d3[p].entries)
    && d3 == d2[p := d2[p].(entries := d3[p].entries)]
  }

  /** Steps 3.1 to 5: the old link is lowered, the moved entries go, the interval
      shrinks. */
  ghost predicate Moving(d0: Db, d3: Db, d4: Db, d5: Db, d6: Db, id: NodeId, p: NodeId, B: seq<Entry>, a: Vec)
    requires id in d0 && p in d0
  {
    && p in d3 && p in d4 && Adjusted(ReplaceSig, NodeKey(id), a, d3[p].entries, d4[p].entries)
    && d4 == d3[p := d3[p].(entries := d4[p].entries)]
    && id in d4 && d5 == d4[id := d4[id].(entries := SplitEntries(d4[id].entries, B))]
    && d6 == d5[id := d5[id].(span := MergedSpan(d5[id].kind, d5[id].span, KeptPart(d0[id].span)))]
  }

  lemma {:induction false} KeptSpan(kind: Kind, s: Interval)
    requires Unimodular(s) && kind != Root
    ensures MergedSpan(kind, s, KeptPart(s)) == KeptPart(s)
  {
    MediantSplits(s);
  }

  /** The headers after each half of the writes. */
  lemma {:induction false} LinkingHeaders(d0: Db, d1: Db, d2: Db, d3: Db, id: NodeId, p: NodeId, B: seq<Entry>, b: Vec)
    requires id in d0 && p in d0 && SiblingId(d0[id].span) !in d0 && Linking(d0, d1, d2, d3, id, p, B, b)
    ensures d3.Keys == d0.Keys + {SiblingId(d0[id].span)}
    ensures d3[SiblingId(d0[id].span)].span == SiblingPart(d0[id].span)
    ensures d3[SiblingId(d0[id].span)].kind == d0[id].kind
    ensures forall x :: x in d0 ==> d3[x].span == d0[x].span && d3[x].kind == d0[x].kind
  {
  }

  lemma {:induction false} MovingHeaders(d0: Db, d3: Db, d4: Db, d5: Db, d6: Db, id: NodeId, p: NodeId, B: seq<Entry>,
                                         a: Vec)
    requires id in d0 && p in d0 && id in d3 && Moving(d0, d3, d4, d5, d6, id, p, B, a)
    ensures d6.Keys == d3.Keys && d6[id].kind == d3[id].kind
    ensures d6[id].span == MergedSpan(d3[id].kind, d3[id].span, KeptPart(d0[id].span))
    ensures forall x :: x in d3 && x != id ==> d6[x].span == d3[x].span && d6[x].kind == d3[x].kind
  {
  }

  lemma {:induction false} StepsRespanned(d: seq<Db>, id: NodeId, p: NodeId, B: seq<Entry>, a: Vec, b: Vec)
    requires Steps(d, id, p, B, a, b) && SiblingId(d[0][id].span) !in d[0]
    requires Unimodular(d[0][id].span) && d[0][id].kind != Root
    ensures Respanned(d[0], d[6], id)
  {
    LinkingHeaders(d[0], d[1], d[2], d[3], id, p, B, b);
    MovingHeaders(d[0], d[3], d[4], d[5], d[6], id, p, B, a);
    KeptSpan(d[0][id].kind, d[0][id].span);
  }

  /** The intervals at the end, whoever the parent is. */
  lemma {:induction false} StepsRespan(d: seq<Db>, id: NodeId, p: NodeId, B: seq<Entry>, a: Vec, b: Vec)
    requires Steps(d, id, p, B, a, b) && Tiled(d[0])
    ensures Respanned(d[0], d[6], id) && Tiled(d[6])
  {
    SiblingIsNew(d[0], id);
    assert HeaderOk(id, d[0][id], Top(d[0]));
    StepsRespanned(d, id, p, B, a, b);
    TiledAfterSplit(d[0], d[6], id);
  }

  /** The parent's entries after each of the two writes to it. */
  lemma {:induction false} StepsAtParent(d: seq<Db>, id: NodeId, p: NodeId, B: seq<Entry>, a: Vec, b: Vec)
    requires Steps(d, id, p, B, a, b) && Tiled(d[0]) && Linked(d[0]) && LinkedFrom(d[0], id, p)
    ensures p != id && SiblingId(d[0][id].span) !in d[0]
    ensures d[3][p].entries == d[0][p].entries + [Entry(NodeKey(SiblingId(d[0][id].span)), b)]
    ensures d[4][p].entries == BothLinked(d[0][p].entries, id, a, SiblingId(d[0][id].span), b)
  {
    var es, sib := d[0][p].entries, SiblingId(d[0][id].span);
    SiblingIsNew(d[0], id);
    ParentIsHigher(d[0], id, p);
    NotLinkedYet(d[0], sib, p);
    AdjustedShapes(Update, NodeKey(sib), b, es, d[3][p].entries);
    RelinkBoth(es, id, a, sib, b);
    AdjustedShapes(ReplaceSig, NodeKey(id), a, es + [Entry(NodeKey(sib), b)], d[4][p].entries);
  }

  /** Under the true parent the six writes are six stages of a split. */
  lemma {:induction false} FirstStages(d: seq<Db>, id: NodeId, p: NodeId, B: seq<Entry>, a: Vec, b: Vec)
    requires Steps(d, id, p, B, a, b) && SiblingId(d[0][id].span) !in d[0] && p != id
    ensures Stage(d[0], d[1], id, p, d[0][id].entries, d[0][p].entries, [])
    ensures Stage(d[0], d[2], id, p, d[0][id].entries, d[0][p].entries, B)
    ensures Stage(d[0], d[3], id, p, d[0][id].entries, d[3][p].entries, B)
  {
  }

  lemma {:induction false} LastStages(d: seq<Db>, id: NodeId, p: NodeId, B: seq<Entry>, a: Vec, b: Vec)
    requires Steps(d, id, p, B, a, b) && SiblingId(d[0][id].span) !in d[0] && p != id && Full(d[0][id])
    requires Stage(d[0], d[3], id, p, d[0][id].entries, d[3][p].entries, B)
    ensures Stage(d[0], d[4], id, p, d[0][id].entries, d[4][p].entries, B)
    ensures Stage(d[0], d[5], id, p, Without(d[0][id].entries, B), d[4][p].entries, B)
    ensures Stage(d[0], d[6], id, p, Without(d[0][id].entries, B), d[4][p].entries, B)
  {
  }

  /** What a split relies on to keep its documents in reach. */
  ghost predicate Searchable(db: Db, id: NodeId, p: NodeId) {
    RootNode in db && id != RootNode && LinkedFrom(db, id, p) && Linked(db) && Single(db) && Covered(db)
  }

  lemma {:induction false} EarlyKeeps(db: Db, db': Db, id: NodeId, p: NodeId, more: seq<Entry>, sibs: seq<Entry>)
    requires Searchable(db, id, p) && Stage(db, db', id, p, db[id].entries, db[p].entries + more, sibs)
    ensures KeepsFound(db, db')
  {
    CarriedEarly(db, db', id, p, more, sibs);
    CarriedKeepsFound(db, db', id, p, SiblingId(db[id].span));
  }

  lemma {:induction false} LateKeeps(db: Db, db': Db, id: NodeId, p: NodeId, ids: seq<Entry>, A: seq<Entry>,
                                     B: seq<Entry>, a: Vec, b: Vec)
    requires Searchable(db, id, p) && Shared(db[id].entries, A, B, a, b) && forall e :: e in A ==> e in ids
    requires Stage(db, db', id, p, ids, BothLinked(db[p].entries, id, a, SiblingId(db[id].span), b), B)
    ensures KeepsFound(db, db')
  {
    CarriedLate(db, db', id, p, ids, A, B, a, b);
    CarriedKeepsFound(db, db', id, p, SiblingId(db[id].span));
  }

  /** The division the groups stand for, when the second one is deleted. */
  ghost predicate SplitGroups(es: seq<Entry>, g1: seq<nat>, g2: seq<nat>, a: Vec, b: Vec) {
    Group(es, g1, a) && Group(es, g2, b) && Lists(g1 + g2, |es|)
  }

  /** The writes of a split as the code makes it. */
  ghost predicate SplitRun(d: seq<Db>, id: NodeId, p: NodeId, metric: bool, g1: seq<nat>, g2: seq<nat>, a: Vec,
                           b: Vec) {
    && |d| == 7 && id in d[0] && SplitGroups(d[0][id].entries, g1, g2, a, b)
    && Division(d[0][id].entries, metric, g1, g2)
    && Steps(d, id, p, Pick(d[0][id].entries, g2), a, b)
  }

  ghost predicate SplitRuns(db: Db, db': Db, id: NodeId, p: NodeId, metric: bool) {
    exists d, g1, g2, a, b :: SplitRun(d, id, p, metric, g1, g2, a, b) && d[0] == db && d[6] == db'
  }

  /** The split that the code makes leads from db to db'.  This is SplitRuns, under a
      guard that keeps proofs which only pass it on from unfolding it. */
  ghost predicate SplitBy(db: Db, db': Db, id: NodeId, p: NodeId, metric: bool) {
    forall n: nat {:trigger Look(n)} :: Look(n) ==> SplitRuns(db, db', id, p, metric)
  }

  lemma {:induction false} SplitByIs(db: Db, db': Db, id: NodeId, p: NodeId, metric: bool)
    ensures SplitBy(db, db', id, p, metric) <==> SplitRuns(db, db', id, p, metric)
  {
    assert Look(0);
  }

  /** Under the true parent the first three writes are stages before the parent's
      signature is replaced, */
  lemma {:induction false} EarlyStage(d: seq<Db>, id: NodeId, p: NodeId, B: seq<Entry>, a: Vec, b: Vec, i: nat)
    requires Steps(d, id, p, B, a, b) && Tiled(d[0]) && Linked(d[0]) && LinkedFrom(d[0], id, p) && 1 <= i <= 3
    ensures Stage(d[0], d[i], id, p, d[0][id].entries,
                  d[0][p].entries + (if i <= 2 then [] else [Entry(NodeKey(SiblingId(d[0][id].span)), b)]),
                  if i == 1 then [] else B)
  {
    StepsAtParent(d, id, p, B, a, b);
    FirstStages(d, id, p, B, a, b);
    assert d[0][p].entries + [] == d[0][p].entries;
  }

  /** and the last three are stages after it. */
  lemma {:induction false} LateStage(d: seq<Db>, id: NodeId, p: NodeId, B: seq<Entry>, a: Vec, b: Vec, i: nat)
    requires Steps(d, id, p, B, a, b) && Tiled(d[0]) && Linked(d[0]) && LinkedFrom(d[0], id, p)
    requires 4 <= i <= 6 && Full(d[0][id])
    ensures Stage(d[0], d[i], id, p, if i == 4 then d[0][id].entries else Without(d[0][id].entries, B),
                  BothLinked(d[0][p].entries, id, a, SiblingId(d[0][id].span), b), B)
  {
    StepsAtParent(d, id, p, B, a, b);
    FirstStages(d, id, p, B, a, b);
    LastStages(d, id, p, B, a, b);
  }

  lemma {:induction false} EarlyStepKeeps(d: seq<Db>, id: NodeId, p: NodeId, B: seq<Entry>, a: Vec, b: Vec, i: nat)
    requires Steps(d, id, p, B, a, b) && Tiled(d[0]) && Searchable(d[0], id, p) && 1 <= i <= 3
    ensures KeepsFound(d[0], d[i])
  {
    EarlyStage(d, id, p, B, a, b, i);
    var link := Entry(NodeKey(SiblingId(d[0][id].span)), b);
    EarlyKeeps(d[0], d[i], id, p, if i <= 2 then [] else [link], if i == 1 then [] else B);
  }

  lemma {:induction false} LateStepKeeps(d: seq<Db>, id: NodeId, p: NodeId, B: seq<Entry>, a: Vec, b: Vec, i: nat)
    requires Steps(d, id, p, B, a, b) && Tiled(d[0]) && Searchable(d[0], id, p) && 4 <= i <= 6 && Full(d[0][id])
    requires Shared(d[0][id].entries, Without(d[0][id].entries, B), B, a, b)
    ensures KeepsFound(d[0], d[i])
  {
    LateStage(d, id, p, B, a, b, i);
    var A := Without(d[0][id].entries, B);
    LateKeeps(d[0], d[i], id, p, if i == 4 then d[0][id].entries else A, A, B, a, b);
  }

  /** Under the true parent, at every stored state of the split every document can
      still be found. */
  lemma {:induction false} StepsKeepFound(d: seq<Db>, id: NodeId, p: NodeId, g1: seq<nat>, g2: seq<nat>, a: Vec, b: Vec)
    requires |d| == 7 && Tiled(d[0]) && Searchable(d[0], id, p) && Full(d[0][id])
    requires SplitGroups(d[0][id].entries, g1, g2, a, b) && Steps(d, id, p, Pick(d[0][id].entries, g2), a, b)
    ensures forall i :: 1 <= i <= 6 ==> KeepsFound(d[0], d[i])
  {
    var es := d[0][id].entries;
    var B := Pick(es, g2);
    GroupsShare(es, g1, g2, a, b);
    forall i | 1 <= i <= 6 ensures KeepsFound(d[0], d[i]) {
      if i <= 3 {
        EarlyStepKeeps(d, id, p, B, a, b, i);
      } else {
        LateStepKeeps(d, id, p, B, a, b, i);
      }
    }
  }

  /** And at the end the index is sound and holds the same documents. */
  lemma {:induction false} StepsAreSound(d: seq<Db>, id: NodeId, p: NodeId, g1: seq<nat>, g2: seq<nat>, a: Vec, b: Vec)
    requires |d| == 7 && Sound(d[0]) && LinkedFrom(d[0], id, p) && Full(d[0][id])
    requires SplitGroups(d[0][id].entries, g1, g2, a, b) && Steps(d, id, p, Pick(d[0][id].entries, g2), a, b)
    ensures Sound(d[6]) && Top(d[6]) == Top(d[0])
    ensures Docs(d[6], RootNode, Top(d[0])) == Docs(d[0], RootNode, Top(d[0]))
    ensures d[0][id].kind == Leaf ==> Excess(d[6]) < Excess(d[0])
  {
    var es := d[0][id].entries;
    var A, B := Without(es, Pick(es, g2)), Pick(es, g2);
    GroupsShare(es, g1, g2, a, b);
    StepsRespan(d, id, p, B, a, b);
    LateStage(d, id, p, B, a, b, 6);
    SplitIsSound(d[0], d[6], id, p, A, B, a, b);
    SplitKeepsDocs(d[0], d[6], id, p, A, B, a, b);
    if d[0][id].kind == Leaf {
      SplitDrops(d[0], d[6], id, p, A, B, a, b);
    }
  }

  lemma {:induction false} ParentIsHigher(db: Db, id: NodeId, p: NodeId)
    requires Linked(db) && LinkedFrom(db, id, p)
    ensures p != id
  {
    var s :| s in db[p].entries && s.key == NodeKey(id);
    assert LinkOk(db, p, s);
  }

  lemma {:induction false} RelinkBoth(es: seq<Entry>, id: NodeId, a: Vec, sib: NodeId, b: Vec)
    requires HasKey(es, NodeKey(id)) && sib != id
    ensures HasKey(es + [Entry(NodeKey(sib), b)], NodeKey(id))
    ensures Relinked(es + [Entry(NodeKey(sib), b)], NodeKey(id), a) == BothLinked(es, id, a, sib, b)
  {
    var s :| s in es && s.key == NodeKey(id);
    assert s in es + [Entry(NodeKey(sib), b)];
  }

  lemma {:induction false} StepsKeepSigs(d: seq<Db>, id: NodeId, p: NodeId, B: seq<Entry>, a: Vec, b: Vec)
    requires Steps(d, id, p, B, a, b) && SigsOk(d[0]) && SiblingId(d[0][id].span) !in d[0]
    requires IsSig(a) && IsSig(b) && forall e :: e in B ==> IsSig(e.sig)
    ensures SigsOk(d[6])
  {
    AdjustedSigs(Update, NodeKey(SiblingId(d[0][id].span)), b, d[2][p].entries, d[3][p].entries);
    AdjustedSigs(ReplaceSig, NodeKey(id), a, d[3][p].entries, d[4][p].entries);
    WithoutMembers(d[4][id].entries, B);
  }

  /** What a split of id does to the other nodes, whoever the parent is. */
  ghost predicate SplitFrame(db: Db, db': Db, id: NodeId, p: NodeId) {
    && (forall x :: x in db ==> x in db' && db'[x].span.level == db[x].span.level)
    && (forall x :: x in db && x != id && x != p ==> db'[x] == db[x])
    && (p != id ==> p in db' && HasKey(db'[p].entries, NodeKey(id)))
  }

  lemma {:induction false} AdjustedHas(mode: Mode, key: Key, sig: Vec, es: seq<Entry>, r: seq<Entry>)
    requires Adjusted(mode, key, sig, es, r) && mode != UpdateIfPresent
    ensures HasKey(r, key)
  {
    if HasKey(es, key) {
      var e :| e in es && e.key == key;
      var i :| 0 <= i < |es| && es[i] == e;
      assert Rewritten(mode, key, sig, es[i], r[i]) && r[i] in r;
    } else {
      assert r[|es|] in r;
    }
  }

  /** What the two halves of the writes leave alone. */
  lemma {:induction false} LinkingRest(d0: Db, d1: Db, d2: Db, d3: Db, id: NodeId, p: NodeId, B: seq<Entry>, b: Vec)
    requires id in d0 && p in d0 && SiblingId(d0[id].span) !in d0 && Linking(d0, d1, d2, d3, id, p, B, b)
    ensures forall x :: x in d0 ==> x in d3 && d3[x].kind == d0[x].kind && (x != p ==> d3[x] == d0[x])
  {
  }

  lemma {:induction false} MovingRest(d0: Db, d3: Db, d4: Db, d5: Db, d6: Db, id: NodeId, p: NodeId, B: seq<Entry>,
                                      a: Vec)
    requires id in d0 && p in d0 && id in d3 && p != id && Moving(d0, d3, d4, d5, d6, id, p, B, a)
    ensures forall x :: x in d3 ==> x in d6 && d6[x].kind == d3[x].kind
    ensures forall x :: x in d3 && x != p && x != id ==> d6[x] == d3[x]
    ensures d6[id].entries == SplitEntries(d3[id].entries, B)
  {
  }

  lemma {:induction false} StepsFrame(d: seq<Db>, id: NodeId, p: NodeId, B: seq<Entry>, a: Vec, b: Vec)
    requires Steps(d, id, p, B, a, b) && SiblingId(d[0][id].span) !in d[0]
    requires Unimodular(d[0][id].span) && d[0][id].kind != Root
    ensures SplitFrame(d[0], d[6], id, p)
  {
    LinkingHeaders(d[0], d[1], d[2], d[3], id, p, B, b);
    MovingHeaders(d[0], d[3], d[4], d[5], d[6], id, p, B, a);
    LinkingRest(d[0], d[1], d[2], d[3], id, p, B, b);
    if p != id {
      MovingRest(d[0], d[3], d[4], d[5], d[6], id, p, B, a);
    }
    KeptSpan(d[0][id].kind, d[0][id].span);
    AdjustedHas(ReplaceSig, NodeKey(id), a, d[3][p].entries, d[4][p].entries);
  }

  /** What a split of a sound index under the true parent promises besides. */
  ghost predicate SplitKept(db: Db, db': Db, id: NodeId, W: seq<Db>)
    requires RootNode in db && id in db
  {
    forall n: nat {:trigger Look(n)} :: Look(n) ==> KeepsAll(db, db', id, W)
  }

  lemma {:induction false} SplitKeptIs(db: Db, db': Db, id: NodeId, W: seq<Db>)
    requires RootNode in db && id in db
    ensures SplitKept(db, db', id, W) <==> KeepsAll(db, db', id, W)
  {
    assert Look(0);
  }

  ghost predicate KeepsAll(db: Db, db': Db, id: NodeId, W: seq<Db>)
    requires RootNode in db && id in db
  {
    && Sound(db') && Top(db') == Top(db)
    && Docs(db', RootNode, Top(db)) == Docs(db, RootNode, Top(db))
    && (db[id].kind == Leaf ==> Excess(db') < Excess(db))
    && forall i :: 0 <= i < |W| ==> KeepsFound(db, W[i])
  }

  /** What a split of id with parent p promises of the states W it writes. */
  ghost predicate SplitOutcome(db: Db, db': Db, id: NodeId, p: NodeId, W: seq<Db>) {
    && Respanned(db, db', id) && Tiled(db') && SigsOk(db') && SplitFrame(db, db', id, p)
    && (Sound(db) && LinkedFrom(db, id, p) ==> SplitKept(db, db', id, W))
  }

  lemma {:induction false} StepsBasics(d: seq<Db>, id: NodeId, p: NodeId, B: seq<Entry>, a: Vec, b: Vec)
    requires Steps(d, id, p, B, a, b) && Tiled(d[0]) && SigsOk(d[0])
    requires IsSig(a) && IsSig(b) && forall e :: e in B ==> IsSig(e.sig)
    ensures Respanned(d[0], d[6], id) && Tiled(d[6]) && SigsOk(d[6]) && SplitFrame(d[0], d[6], id, p)
  {
    StepsRespan(d, id, p, B, a, b);
    assert HeaderOk(id, d[0][id], Top(d[0]));
    StepsFrame(d, id, p, B, a, b);
    StepsKeepSigs(d, id, p, B, a, b);
  }

  lemma {:induction false} StepsKept(d: seq<Db>, id: NodeId, p: NodeId, g1: seq<nat>, g2: seq<nat>, a: Vec, b: Vec)
    requires |d| == 7 && id in d[0] && Full(d[0][id]) && Sound(d[0]) && LinkedFrom(d[0], id, p)
    requires SplitGroups(d[0][id].entries, g1, g2, a, b) && Steps(d, id, p, Pick(d[0][id].entries, g2), a, b)
    ensures SplitKept(d[0], d[6], id, d[1..])
  {
    StepsAreSound(d, id, p, g1, g2, a, b);
    StepsKeepFound(d, id, p, g1, g2, a, b);
    Shifted(d);
  }

  lemma {:induction false} StepsOutcome(d: seq<Db>, id: NodeId, p: NodeId, g1: seq<nat>, g2: seq<nat>, a: Vec, b: Vec)
    requires |d| == 7 && id in d[0] && Tiled(d[0]) && SigsOk(d[0]) && Full(d[0][id])
    requires SplitGroups(d[0][id].entries, g1, g2, a, b) && Steps(d, id, p, Pick(d[0][id].entries, g2), a, b)
    ensures SplitOutcome(d[0], d[6], id, p, d[1..])
  {
    StepsBasics(d, id, p, Pick(d[0][id].entries, g2), a, b);
    if Sound(d[0]) && LinkedFrom(d[0], id, p) {
      StepsKept(d, id, p, g1, g2, a, b);
    }
  }

  lemma {:induction false} Shifted(d: seq<Db>)
    requires |d| == 7 && forall i :: 1 <= i <= 6 ==> KeepsFound(d[0], d[i])
    ensures forall i :: 0 <= i < |d[1..]| ==> KeepsFound(d[0], d[1..][i])
  {
  }

  lemma {:induction false} PickedSigs(es: seq<Entry>, g: seq<nat>)
    requires InRange(g, |es|) && forall e :: e in es ==> IsSig(e.sig)
    ensures forall e :: e in Pick(es, g) ==> IsSig(e.sig)
  {
  }

  lemma {:induction false} SixWrites(W: seq<Db>, d: seq<Db>)
    requires |d| == 7
    ensures W + [d[1]] + [d[2]] + [d[3]] + [d[4]] + [d[5]] + [d[6]] == W + d[1..]
    ensures (W + d[1..])[|W|..] == d[1..]
  {
  }

  // ---------- the writes of a root split ----------

  predicate EmptyRoot(db: Db) {
    RootNode in db && db[RootNode].kind != Leaf && db[RootNode].entries == []
  }

  /** Between emptying the root and linking the halves no document is in reach. */
  lemma {:induction false} NothingFound(db: Db, n: nat, d: Entry)
    requires EmptyRoot(db)
    ensures !Found(db, RootNode, n, d)
  {
  }

  /** The first two writes of new keys into an empty node. */
  lemma {:induction false} TwoAdded(k1: Key, a: Vec, k2: Key, b: Vec, r: seq<Entry>, t: seq<Entry>)
    requires k1 != k2 && Adjusted(Update, k1, a, [], r) && Adjusted(Update, k2, b, r, t)
    ensures r == [Entry(k1, a)] && t == [Entry(k1, a), Entry(k2, b)]
  {
    AdjustedShapes(Update, k1, a, [], r);
    AdjustedShapes(Update, k2, b, r, t);
  }

  ghost predicate RootWritten(db: Db, db': Db, A: seq<Entry>, B: seq<Entry>, a: Vec, b: Vec) {
    && RootNode in db
    && var k := Top(db);
    && db' == db[Named(k, 0, 1) := Node(NonLeaf, FirstHalf(k), A)]
                [Named(k, 1, 2) := Node(NonLeaf, SecondHalf(k), B)]
                [RootNode := Node(Root, db[RootNode].span.(level := k + 1),
                                  [Entry(NodeKey(Named(k, 0, 1)), a), Entry(NodeKey(Named(k, 1, 2)), b)])]
  }

  /** A split of the root as the code makes it. */
  ghost predicate RootSplitRun(db: Db, db': Db, metric: bool, g1: seq<nat>, g2: seq<nat>, a: Vec, b: Vec) {
    && RootNode in db && SplitGroups(db[RootNode].entries, g1, g2, a, b)
    && Division(db[RootNode].entries, metric, g1, g2)
    && RootWritten(db, db', Pick(db[RootNode].entries, g1), Pick(db[RootNode].entries, g2), a, b)
  }

  ghost predicate RootSplitRuns(db: Db, db': Db, metric: bool) {
    exists g1, g2, a, b :: RootSplitRun(db, db', metric, g1, g2, a, b)
  }

  /** The same for the root. */
  ghost predicate RootSplitBy(db: Db, db': Db, metric: bool) {
    forall n: nat {:trigger Look(n)} :: Look(n) ==> RootSplitRuns(db, db', metric)
  }

  lemma {:induction false} RootSplitByIs(db: Db, db': Db, metric: bool)
    ensures RootSplitBy(db, db', metric) <==> RootSplitRuns(db, db', metric)
  {
    assert Look(0);
  }

  /** What a split of the root promises. */
  ghost predicate RootOutcome(db: Db, db': Db) {
    forall n: nat {:trigger Look(n)} :: Look(n) ==> RootKept(db, db')
  }

  lemma {:induction false} RootOutcomeIs(db: Db, db': Db)
    ensures RootOutcome(db, db') <==> RootKept(db, db')
  {
    assert Look(0);
  }

  /** The root is one level higher; the index is sound and holds the same documents. */
  ghost predicate RootKept(db: Db, db': Db) {
    && RootRespanned(db, db') && Sound(db')
    && Docs(db', RootNode, Top(db')) == Docs(db, RootNode, Top(db))
    && (forall x :: x in db && x != RootNode ==> db'[x] == db[x])
    && forall x :: x in db ==> !LinkedFrom(db', x, RootNode)
  }

  lemma {:induction false} RootWrittenFinished(db: Db, db': Db, g1: seq<nat>, g2: seq<nat>, a: Vec, b: Vec)
    requires Tiled(db) && Distinct(db[RootNode].entries) && SplitGroups(db[RootNode].entries, g1, g2, a, b)
    requires RootWritten(db, db', Pick(db[RootNode].entries, g1), Pick(db[RootNode].entries, g2), a, b)
    ensures RootFinished(db, db', Pick(db[RootNode].entries, g1), Pick(db[RootNode].entries, g2), a, b)
  {
    HalvesAreNew(db);
    GroupsShareAll(db[RootNode].entries, g1, g2, a, b);
  }

  lemma {:induction false} RootSplitWritten(db: Db, db': Db, g1: seq<nat>, g2: seq<nat>, a: Vec, b: Vec)
    requires Sound(db) && SplitGroups(db[RootNode].entries, g1, g2, a, b)
    requires RootWritten(db, db', Pick(db[RootNode].entries, g1), Pick(db[RootNode].entries, g2), a, b)
    ensures RootOutcome(db, db')
  {
    var A, B := Pick(db[RootNode].entries, g1), Pick(db[RootNode].entries, g2);
    RootWrittenFinished(db, db', g1, g2, a, b);
    RootSplitIsSound(db, db', A, B, a, b);
    assert HeaderOk(RootNode, db[RootNode], Top(db));
    HalvesAreNew(db);
    RootDocsAfter(db, db', A, B, a, b);
  }

  /** The listed entries are all entries. */
  lemma {:induction false} AllListed(es: seq<Entry>, g: seq<nat>)
    requires Lists(g, |es|)
    ensures InRange(g, |es|) && Without(es, Pick(es, g)) == []
  {
    InRangeIfListed(g, |es|);
    forall e | e in es ensures e in Pick(es, g) {
      var i :| 0 <= i < |es| && es[i] == e;
      assert i in g;
      var k :| 0 <= k < |g| && g[k] == i;
      assert Pick(es, g)[k] == e;
    }
    AllDeleted(es, Pick(es, g));
  }
}
