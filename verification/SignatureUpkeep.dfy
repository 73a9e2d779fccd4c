/** Splits and insertions keep the invariants of the signature index
    (tools/gis_chordID.C). */
module SignatureUpkeep {
  import opened PolyDivides
  import opened PolyBits
  import opened SternBrocot
  import opened SignatureSpec
  import opened SignatureChoice
  import opened SignatureSplits
  import opened SignatureTiling

  // ---------- the end of a split ----------

  ghost predicate Finished(db: Db, db': Db, id: NodeId, p: NodeId, A: seq<Entry>, B: seq<Entry>, a: Vec, b: Vec) {
    && LinkedFrom(db, id, p) && Shared(db[id].entries, A, B, a, b) && Respanned(db, db', id)
    && Stage(db, db', id, p, A, BothLinked(db[p].entries, id, a, SiblingId(db[id].span), b), B)
  }

  /** The entries of a node of db', traced to the node of db they were in. */
  lemma {:induction false} EntryOrigin(db: Db, db': Db, id: NodeId, p: NodeId, A: seq<Entry>, B: seq<Entry>, a: Vec,
                                       b: Vec, x: NodeId, e: Entry)
    requires Finished(db, db', id, p, A, B, a, b) && x in db' && e in db'[x].entries
    ensures x == id ==> e in A
    ensures x == SiblingId(db[id].span) ==> e in B
    ensures x == p ==> e == Entry(NodeKey(id), a) || e == Entry(NodeKey(SiblingId(db[id].span)), b)
                       || (e in db[p].entries && e.key != NodeKey(id))
    ensures x != id && x != p && x != SiblingId(db[id].span) ==> x in db && e in db[x].entries
  {
    LinksOfBoth(db[p].entries, id, a, SiblingId(db[id].span), b);
  }

  lemma {:induction false} LinkedAfter(db: Db, db': Db, id: NodeId, p: NodeId, A: seq<Entry>, B: seq<Entry>, a: Vec,
                                       b: Vec)
    requires Linked(db) && Finished(db, db', id, p, A, B, a, b)
    ensures Linked(db')
  {
    var sib := SiblingId(db[id].span);
    var s :| s in db[p].entries && s.key == NodeKey(id);
    assert LinkOk(db, p, s);
    forall x, e | x in db' && e in db'[x].entries ensures LinkOk(db', x, e) {
      EntryOrigin(db, db', id, p, A, B, a, b, x, e);
      var o := if x == sib then id else x;
      assert e in db[o].entries ==> LinkOk(db, o, e);
    }
  }

  lemma {:induction false} SigsAfter(db: Db, db': Db, id: NodeId, p: NodeId, A: seq<Entry>, B: seq<Entry>, a: Vec,
                                     b: Vec)
    requires SigsOk(db) && Finished(db, db', id, p, A, B, a, b)
    ensures SigsOk(db')
  {
    forall x, e | x in db' && e in db'[x].entries ensures IsSig(e.sig) {
      EntryOrigin(db, db', id, p, A, B, a, b, x, e);
    }
  }

  lemma {:induction false} DistinctBoth(es: seq<Entry>, id: NodeId, a: Vec, sib: NodeId, b: Vec)
    requires Distinct(es) && !HasKey(es, NodeKey(sib))
    ensures Distinct(BothLinked(es, id, a, sib, b))
  {
    var t := BothLinked(es, id, a, sib, b);
    forall i, j | 0 <= i < j < |t| ensures t[i].key != t[j].key {
      assert es[i] in es;
      if j < |es| {
        assert es[i].key != es[j].key;
      }
    }
  }

  lemma {:induction false} NotLinkedYet(db: Db, sib: NodeId, x: NodeId)
    requires Linked(db) && sib !in db && x in db
    ensures !HasKey(db[x].entries, NodeKey(sib))
  {
    forall e | e in db[x].entries ensures e.key != NodeKey(sib) {
      assert LinkOk(db, x, e);
    }
  }

  /** Where in db a link of db' was: in the divided node for the sibling's links. */
  lemma {:induction false} KeyOrigin(db: Db, db': Db, id: NodeId, p: NodeId, A: seq<Entry>, B: seq<Entry>, a: Vec,
                                     b: Vec, x: NodeId, key: Key)
    requires Linked(db) && Finished(db, db', id, p, A, B, a, b) && x in db' && HasKey(db'[x].entries, key)
    ensures Origin(db, id, x) in db
    ensures key == NodeKey(SiblingId(db[id].span)) ==> x == p
    ensures key != NodeKey(SiblingId(db[id].span)) ==> HasKey(db[Origin(db, id, x)].entries, key)
    ensures (x == id ==> HasKey(A, key)) && (x == SiblingId(db[id].span) ==> HasKey(B, key))
  {
    var e :| e in db'[x].entries && e.key == key;
    EntryOrigin(db, db', id, p, A, B, a, b, x, e);
    NotLinkedYet(db, SiblingId(db[id].span), Origin(db, id, x));
  }

  lemma {:induction false} OneHolder(db: Db, db': Db, id: NodeId, p: NodeId, A: seq<Entry>, B: seq<Entry>, a: Vec,
                                     b: Vec, x: NodeId, y: NodeId, key: Key)
    requires Linked(db) && Finished(db, db', id, p, A, B, a, b) && x in db' && y in db'
    requires HasKey(db'[x].entries, key) && HasKey(db'[y].entries, key)
    requires forall u, v :: u in db && v in db && HasKey(db[u].entries, key) && HasKey(db[v].entries, key) ==> u == v
    ensures x == y
  {
    KeyOrigin(db, db', id, p, A, B, a, b, x, key);
    KeyOrigin(db, db', id, p, A, B, a, b, y, key);
    NoCommonKey(A, B, key);
  }

  lemma {:induction false} NoCommonKey(A: seq<Entry>, B: seq<Entry>, key: Key)
    requires forall e, f :: e in A && f in B ==> e.key != f.key
    ensures !HasKey(A, key) || !HasKey(B, key)
  {
  }

  lemma {:induction false} DistinctAfter(db: Db, db': Db, id: NodeId, p: NodeId, A: seq<Entry>, B: seq<Entry>,
                                         a: Vec, b: Vec)
    requires Linked(db) && (forall x :: x in db ==> Distinct(db[x].entries)) && Finished(db, db', id, p, A, B, a, b)
    ensures forall x :: x in db' ==> Distinct(db'[x].entries)
  {
    var sib := SiblingId(db[id].span);
    NotLinkedYet(db, sib, p);
    DistinctBoth(db[p].entries, id, a, sib, b);
  }

  lemma {:induction false} SingleAfter(db: Db, db': Db, id: NodeId, p: NodeId, A: seq<Entry>, B: seq<Entry>, a: Vec,
                                       b: Vec)
    requires Linked(db) && Single(db) && Finished(db, db', id, p, A, B, a, b)
    ensures Single(db')
  {
    DistinctAfter(db, db', id, p, A, B, a, b);
    forall x, y, c | x in db' && y in db' && HasKey(db'[x].entries, NodeKey(c)) && HasKey(db'[y].entries, NodeKey(c))
      ensures x == y
    {
      OneHolder(db, db', id, p, A, B, a, b, x, y, NodeKey(c));
    }
  }

  /** The links above the parent still cover it: both lcms divide what the old
      signature of the divided node was a multiple of. */
  lemma {:induction false} PartsDivide(db: Db, id: NodeId, p: NodeId, A: seq<Entry>, B: seq<Entry>, a: Vec, b: Vec)
    returns (s: Entry)
    requires Covered(db) && LinkedFrom(db, id, p) && Shared(db[id].entries, A, B, a, b)
    ensures s in db[p].entries && Divides(Val(a), Val(s.sig)) && Divides(Val(b), Val(s.sig))
  {
    s :| s in db[p].entries && s.key == NodeKey(id);
    assert AllInto(db[id].entries, Val(s.sig));
    assert AllInto(A, Val(s.sig)) && AllInto(B, Val(s.sig));
  }

  /** A multiple of the parent's old signatures is one of its new signatures. */
  lemma {:induction false} ParentStillInto(db: Db, id: NodeId, p: NodeId, a: Vec, b: Vec, s: Entry, m: nat)
    requires LinkedFrom(db, id, p) && s in db[p].entries && Divides(Val(a), Val(s.sig)) && Divides(Val(b), Val(s.sig))
    requires AllInto(db[p].entries, m)
    ensures AllInto(BothLinked(db[p].entries, id, a, SiblingId(db[id].span), b), m)
  {
    LinksOfBoth(db[p].entries, id, a, SiblingId(db[id].span), b);
    assert Into(s, m);
    DividesTrans(Val(a), Val(s.sig), m);
    DividesTrans(Val(b), Val(s.sig), m);
  }

  lemma {:induction false} CoveredLink(db: Db, db': Db, id: NodeId, p: NodeId, A: seq<Entry>, B: seq<Entry>, a: Vec,
                                       b: Vec, s: Entry, x: NodeId, e: Entry)
    requires Linked(db) && OnlyParent(db, id, p) && Covered(db) && Finished(db, db', id, p, A, B, a, b)
    requires s in db[p].entries && Divides(Val(a), Val(s.sig)) && Divides(Val(b), Val(s.sig))
    requires x in db' && e in db'[x].entries && e.key.NodeKey? && e.key.id in db'
    ensures AllInto(db'[e.key.id].entries, Val(e.sig))
  {
    var c, o := e.key.id, Origin(db, id, x);
    EntryOrigin(db, db', id, p, A, B, a, b, x, e);
    assert HasKey(db'[x].entries, e.key);
    KeyOrigin(db, db', id, p, A, B, a, b, x, e.key);
    if c != SiblingId(db[id].span) && c != id {
      assert e in db[o].entries && AllInto(db[c].entries, Val(e.sig));
      if c == p {
        ParentStillInto(db, id, p, a, b, s, Val(e.sig));
      }
    }
  }

  lemma {:induction false} CoveredAfter(db: Db, db': Db, id: NodeId, p: NodeId, A: seq<Entry>, B: seq<Entry>, a: Vec,
                                        b: Vec)
    requires Linked(db) && OnlyParent(db, id, p) && Covered(db) && Finished(db, db', id, p, A, B, a, b)
    ensures Covered(db')
  {
    var s := PartsDivide(db, id, p, A, B, a, b);
    forall x, e | x in db' && e in db'[x].entries && e.key.NodeKey? && e.key.id in db'
      ensures AllInto(db'[e.key.id].entries, Val(e.sig))
    {
      CoveredLink(db, db', id, p, A, B, a, b, s, x, e);
    }
  }

  lemma {:induction false} FedAfter(db: Db, db': Db, id: NodeId, p: NodeId, A: seq<Entry>, B: seq<Entry>, a: Vec,
                                    b: Vec)
    requires Fed(db) && Finished(db, db', id, p, A, B, a, b)
    ensures Fed(db')
  {
  }

  lemma {:induction false} FormAfter(db: Db, db': Db, id: NodeId, p: NodeId, A: seq<Entry>, B: seq<Entry>, a: Vec,
                                     b: Vec)
    requires SigsOk(db) && Linked(db) && Single(db) && Fed(db) && Finished(db, db', id, p, A, B, a, b)
    ensures SigsOk(db') && Linked(db') && Single(db') && Fed(db')
  {
    SigsAfter(db, db', id, p, A, B, a, b);
    LinkedAfter(db, db', id, p, A, B, a, b);
    SingleAfter(db, db', id, p, A, B, a, b);
    FedAfter(db, db', id, p, A, B, a, b);
  }

  /** A split of a node under its true parent: sound before, sound after, */
  lemma {:induction false} SplitIsSound(db: Db, db': Db, id: NodeId, p: NodeId, A: seq<Entry>, B: seq<Entry>, a: Vec,
                                        b: Vec)
    requires Sound(db) && Finished(db, db', id, p, A, B, a, b)
    ensures Sound(db') && Top(db') == Top(db)
  {
    TiledAfterSplit(db, db', id);
    FormAfter(db, db', id, p, A, B, a, b);
    ParentIsOnly(db, id, p);
    CoveredAfter(db, db', id, p, A, B, a, b);
  }

  /** and the same documents. */
  lemma {:induction false} SplitKeepsDocs(db: Db, db': Db, id: NodeId, p: NodeId, A: seq<Entry>, B: seq<Entry>,
                                          a: Vec, b: Vec)
    requires RootNode in db && Linked(db) && Single(db) && Finished(db, db', id, p, A, B, a, b)
    ensures Docs(db', RootNode, Top(db)) == Docs(db, RootNode, Top(db))
  {
    ParentIsOnly(db, id, p);
    PartedAfter(db, db', id, p, A, B, a, b);
    DocsLevel(db, db', id, p, a, SiblingId(db[id].span), b, Top(db));
  }

  lemma {:induction false} PartedAfter(db: Db, db': Db, id: NodeId, p: NodeId, A: seq<Entry>, B: seq<Entry>, a: Vec,
                                       b: Vec)
    requires Single(db) && Finished(db, db', id, p, A, B, a, b)
    ensures Parted(db, db', id, p, a, SiblingId(db[id].span), b)
  {
  }

  // ---------- the end of a root split ----------

  ghost predicate RootFinished(db: Db, db': Db, A: seq<Entry>, B: seq<Entry>, a: Vec, b: Vec) {
    && RootRespanned(db, db')
    && var first, second := Named(Top(db), 0, 1), Named(Top(db), 1, 2);
    && Shared(db[RootNode].entries, A, B, a, b)
    && db'[first].entries == A && db'[second].entries == B
    && db'[RootNode].entries == [Entry(NodeKey(first), a), Entry(NodeKey(second), b)]
    && forall x :: x in db && x != RootNode ==> db'[x] == db[x]
  }

  /** Where the entries of a node of db' were. */
  function RootOrigin(db: Db, x: NodeId): NodeId {
    if x in db then x else RootNode
  }

  lemma {:induction false} RootEntryOrigin(db: Db, db': Db, A: seq<Entry>, B: seq<Entry>, a: Vec, b: Vec, x: NodeId,
                                           e: Entry)
    requires RootFinished(db, db', A, B, a, b) && x in db' && e in db'[x].entries
    ensures x == Named(Top(db), 0, 1) ==> e in A
    ensures x == Named(Top(db), 1, 2) ==> e in B
    ensures x == RootNode ==>
              e == Entry(NodeKey(Named(Top(db), 0, 1)), a) || e == Entry(NodeKey(Named(Top(db), 1, 2)), b)
    ensures x != RootNode ==> e in db[RootOrigin(db, x)].entries
  {
  }

  lemma {:induction false} RootLinkedAfter(db: Db, db': Db, A: seq<Entry>, B: seq<Entry>, a: Vec, b: Vec)
    requires Linked(db) && RootNode in db && db[RootNode].kind == Root && RootFinished(db, db', A, B, a, b)
    ensures Linked(db')
  {
    forall x, e | x in db' && e in db'[x].entries ensures LinkOk(db', x, e) {
      RootEntryOrigin(db, db', A, B, a, b, x, e);
      var o := RootOrigin(db, x);
      assert e in db[o].entries ==> LinkOk(db, o, e);
    }
  }

  lemma {:induction false} RootKeyOrigin(db: Db, db': Db, A: seq<Entry>, B: seq<Entry>, a: Vec, b: Vec, x: NodeId,
                                         key: Key)
    requires Linked(db) && RootFinished(db, db', A, B, a, b) && x in db' && HasKey(db'[x].entries, key)
    ensures x == RootNode <==> key == NodeKey(Named(Top(db), 0, 1)) || key == NodeKey(Named(Top(db), 1, 2))
    ensures x != RootNode ==> HasKey(db[RootOrigin(db, x)].entries, key)
    ensures (x == Named(Top(db), 0, 1) ==> HasKey(A, key)) && (x == Named(Top(db), 1, 2) ==> HasKey(B, key))
  {
    var e :| e in db'[x].entries && e.key == key;
    RootEntryOrigin(db, db', A, B, a, b, x, e);
    NotLinkedYet(db, Named(Top(db), 0, 1), RootOrigin(db, x));
    NotLinkedYet(db, Named(Top(db), 1, 2), RootOrigin(db, x));
  }

  lemma {:induction false} RootOneHolder(db: Db, db': Db, A: seq<Entry>, B: seq<Entry>, a: Vec, b: Vec, x: NodeId,
                                         y: NodeId, key: Key)
    requires Linked(db) && RootFinished(db, db', A, B, a, b) && x in db' && y in db'
    requires HasKey(db'[x].entries, key) && HasKey(db'[y].entries, key)
    requires forall u, v :: u in db && v in db && HasKey(db[u].entries, key) && HasKey(db[v].entries, key) ==> u == v
    ensures x == y
  {
    RootKeyOrigin(db, db', A, B, a, b, x, key);
    RootKeyOrigin(db, db', A, B, a, b, y, key);
    NoCommonKey(A, B, key);
  }

  lemma {:induction false} RootSingleAfter(db: Db, db': Db, A: seq<Entry>, B: seq<Entry>, a: Vec, b: Vec)
    requires Linked(db) && Single(db) && RootFinished(db, db', A, B, a, b)
    ensures Single(db')
  {
    forall x, y, c | x in db' && y in db' && HasKey(db'[x].entries, NodeKey(c)) && HasKey(db'[y].entries, NodeKey(c))
      ensures x == y
    {
      RootOneHolder(db, db', A, B, a, b, x, y, NodeKey(c));
    }
    forall x | x in db' ensures Distinct(db'[x].entries) {
    }
  }

  lemma {:induction false} RootCoveredAfter(db: Db, db': Db, A: seq<Entry>, B: seq<Entry>, a: Vec, b: Vec)
    requires Linked(db) && Covered(db) && RootFinished(db, db', A, B, a, b)
    ensures Covered(db')
  {
    forall x, e | x in db' && e in db'[x].entries && e.key.NodeKey? && e.key.id in db'
      ensures AllInto(db'[e.key.id].entries, Val(e.sig))
    {
      RootEntryOrigin(db, db', A, B, a, b, x, e);
      var o := RootOrigin(db, x);
      assert e in db[o].entries ==> LinkOk(db, o, e);
    }
  }

  lemma {:induction false} RootLevel(db: Db, db': Db, n: nat)
    requires Linked(db) && forall x :: x in db && x != RootNode ==> x in db' && db'[x] == db[x]
    ensures SameDocs(db, db', RootNode, n)
  {
    if n > 0 {
      RootLevel(db, db', n - 1);
    }
    forall x | x in db && x != RootNode && db[x].span.level == n ensures Docs(db', x, n) == Docs(db, x, n) {
      if db[x].kind != Leaf {
        LinksAvoidRoot(db, x);
      }
      DocsThrough(db, db', RootNode, x, n);
    }
  }

  lemma {:induction false} LinksAvoidRoot(db: Db, x: NodeId)
    requires Linked(db) && x in db && db[x].kind != Leaf
    ensures db[x].span.level > 0 && LinksTo(db, x, RootNode, db[x].span.level - 1)
  {
    forall e | e in db[x].entries ensures LinkOk(db, x, e) {
    }
  }

  lemma {:induction false} RootDocsAfter(db: Db, db': Db, A: seq<Entry>, B: seq<Entry>, a: Vec, b: Vec)
    requires Linked(db) && RootNode in db && db[RootNode].kind == Root && RootFinished(db, db', A, B, a, b)
    ensures Docs(db', RootNode, Top(db) + 1) == Docs(db, RootNode, Top(db))
  {
    RootDocsFrom(db, db', Named(Top(db), 0, 1), a, Named(Top(db), 1, 2), b, Top(db));
  }

  lemma {:induction false} RootDocsFrom(db: Db, db': Db, first: NodeId, a: Vec, second: NodeId, b: Vec, k: nat)
    requires Linked(db) && RootNode in db && RootNode in db' && db[RootNode].kind != Leaf && db'[RootNode].kind != Leaf
    requires k == db[RootNode].span.level && first in db' && second in db'
    requires db'[first].kind != Leaf && db'[second].kind != Leaf
    requires multiset(db'[first].entries) + multiset(db'[second].entries) == multiset(db[RootNode].entries)
    requires db'[RootNode].entries == [Entry(NodeKey(first), a), Entry(NodeKey(second), b)]
    requires forall x :: x in db && x != RootNode ==> x in db' && db'[x] == db[x]
    ensures Docs(db', RootNode, k + 1) == Docs(db, RootNode, k)
  {
    TwoLinks(db', RootNode, first, a, second, b, k);
    HalvesHold(db', first, second, db[RootNode].entries, k);
    OldRootSum(db, db', k);
  }

  lemma {:induction false} OldRootSum(db: Db, db': Db, k: nat)
    requires Linked(db) && RootNode in db && db[RootNode].kind != Leaf && k == db[RootNode].span.level
    requires forall x :: x in db && x != RootNode ==> x in db' && db'[x] == db[x]
    ensures SumOf(db', false, db[RootNode].entries, k) == Docs(db, RootNode, k)
  {
    LinksAvoidRoot(db, RootNode);
    RootLevel(db, db', k - 1);
    SumThroughLinks(db, db', RootNode, db[RootNode].entries, k);
  }

  lemma {:induction false} HalvesHold(db: Db, first: NodeId, second: NodeId, es: seq<Entry>, n: nat)
    requires first in db && second in db && db[first].kind != Leaf && db[second].kind != Leaf
    requires multiset(db[first].entries) + multiset(db[second].entries) == multiset(es)
    ensures Docs(db, first, n) + Docs(db, second, n) == SumOf(db, false, es, n)
  {
    SumParts(db, db[first].entries, db[second].entries, es, n);
  }

  lemma {:induction false} SumParts(db: Db, A: seq<Entry>, B: seq<Entry>, es: seq<Entry>, n: nat)
    requires multiset(A) + multiset(B) == multiset(es)
    ensures SumOf(db, false, A, n) + SumOf(db, false, B, n) == SumOf(db, false, es, n)
  {
    SumAppend(db, false, A, B, n);
    SumPermuted(db, false, A + B, es, n);
  }

  /** A node with just two links. */
  lemma {:induction false} TwoLinks(db: Db, x: NodeId, c1: NodeId, a: Vec, c2: NodeId, b: Vec, n: nat)
    requires x in db && db[x].kind != Leaf && db[x].entries == [Entry(NodeKey(c1), a), Entry(NodeKey(c2), b)]
    ensures Docs(db, x, n + 1) == Docs(db, c1, n) + Docs(db, c2, n)
  {
    var l1, l2 := Entry(NodeKey(c1), a), Entry(NodeKey(c2), b);
    SumAppend(db, false, [l1], [l2], n + 1);
    SumOne(db, false, l1, n + 1);
    SumOne(db, false, l2, n + 1);
    assert [l1] + [l2] == db[x].entries;
  }

  lemma {:induction false} RootFormAfter(db: Db, db': Db, A: seq<Entry>, B: seq<Entry>, a: Vec, b: Vec)
    requires SigsOk(db) && Linked(db) && Single(db) && Fed(db) && RootNode in db && db[RootNode].kind == Root
    requires RootFinished(db, db', A, B, a, b)
    ensures SigsOk(db') && Linked(db') && Single(db') && Fed(db')
  {
    RootLinkedAfter(db, db', A, B, a, b);
    RootSingleAfter(db, db', A, B, a, b);
    forall x, e | x in db' && e in db'[x].entries ensures IsSig(e.sig) {
      RootEntryOrigin(db, db', A, B, a, b, x, e);
    }
  }

  /** A split of the root: sound before, sound after, and one level more. */
  lemma {:induction false} RootSplitIsSound(db: Db, db': Db, A: seq<Entry>, B: seq<Entry>, a: Vec, b: Vec)
    requires Sound(db) && RootFinished(db, db', A, B, a, b)
    ensures Sound(db') && Top(db') == Top(db) + 1
  {
    assert HeaderOk(RootNode, db[RootNode], Top(db));
    TiledAfterRootSplit(db, db');
    RootFormAfter(db, db', A, B, a, b);
    RootCoveredAfter(db, db', A, B, a, b);
  }

  /** The groups as they are, when all entries move. */
  lemma {:induction false} GroupsShareAll(es: seq<Entry>, g1: seq<nat>, g2: seq<nat>, a: Vec, b: Vec)
    requires Distinct(es) && Lists(g1 + g2, |es|) && Group(es, g1, a) && Group(es, g2, b)
    ensures Shared(es, Pick(es, g1), Pick(es, g2), a, b)
  {
    ConcatLists(g1, g2, |es|);
    PickDistinct(es, g1);
    PickDistinct(es, g2);
    PickAll(es, g1 + g2);
    PickAppend(es, g1, g2);
    MembersOfBoth(es, Pick(es, g1), Pick(es, g2));
    forall e, f | e in Pick(es, g1) && f in Pick(es, g2) ensures e.key != f.key {
      var i :| 0 <= i < |g1| && Pick(es, g1)[i] == e;
      PickedKey(es, g2, g1[i]);
      assert g1[i] in g1;
    }
  }

  lemma {:induction false} AllDeleted(es: seq<Entry>, list: seq<Entry>)
    requires forall e :: e in es ==> e in list
    ensures Without(es, list) == []
  {
    if es != [] {
      var n := |es| - 1;
      assert es[n] in list;
      forall e | e in es[..n] ensures e in list {
      }
      AllDeleted(es[..n], list);
    }
  }

  // ---------- the first index ----------

  /** Every fraction of [0, 1) is in s. */
  ghost predicate AllInSpan(s: Interval) {
    forall x: nat, y: nat :: x < y ==> InSpan(x, y, s)
  }

  lemma {:induction false} FirstIndexIsTiled(db: Db, leaf: NodeId)
    requires db.Keys == {RootNode, leaf} && leaf == Named(0, db[leaf].span.ln, db[leaf].span.ld)
    requires db[RootNode].kind == Root && db[RootNode].span.level == 1
    requires db[leaf].kind == Leaf && db[leaf].span.level == 0 && Unimodular(db[leaf].span)
    requires AllInSpan(db[leaf].span)
    ensures Tiled(db)
  {
    forall k: nat, x: nat, y: nat | k < Top(db) && x < y ensures SomeSpan(db, k, x, y) {
      assert InSpan(x, y, db[leaf].span);
    }
  }

  lemma {:induction false} FirstIndexIsFormed(db: Db, leaf: NodeId, one: Vec)
    requires db.Keys == {RootNode, leaf} && leaf != RootNode && IsSig(one)
    requires db[RootNode].kind == Root && db[RootNode].span.level == 1
    requires db[RootNode].entries == [Entry(NodeKey(leaf), one)]
    requires db[leaf].kind == Leaf && db[leaf].span.level == 0 && db[leaf].entries == []
    ensures SigsOk(db) && Linked(db) && Single(db) && Fed(db) && Covered(db)
  {
    forall x, id | x in db && HasKey(db[x].entries, NodeKey(id)) ensures x == RootNode {
    }
  }

  lemma {:induction false} WholeSpan(s: Interval)
    requires s == WHOLE
    ensures AllInSpan(s) && Unimodular(s)
  {
  }

  /** A root with one empty leaf. */
  ghost predicate FirstIndex(db: Db, leaf: NodeId, one: Vec) {
    && db.Keys == {RootNode, leaf} && leaf == Named(0, WHOLE.ln, WHOLE.ld)
    && db[RootNode].kind == Root && db[RootNode].span.level == 1
    && db[RootNode].entries == [Entry(NodeKey(leaf), one)]
    && db[leaf] == Node(Leaf, WHOLE, [])
  }

  /** The index starts sound and without documents. */
  lemma {:induction false} FirstIndexIsSound(db: Db, leaf: NodeId, one: Vec)
    requires FirstIndex(db, leaf, one) && IsSig(one)
    ensures Sound(db) && Docs(db, RootNode, Top(db)) == multiset{}
  {
    WholeSpan(db[leaf].span);
    FirstIndexIsTiled(db, leaf);
    FirstIndexIsFormed(db, leaf, one);
    NoDocsYet(db, leaf, one, Top(db));
  }

  lemma {:induction false} NoDocsYet(db: Db, leaf: NodeId, one: Vec, n: nat)
    requires RootNode in db && leaf in db && n > 0 && db[RootNode].kind != Leaf
    requires db[RootNode].entries == [Entry(NodeKey(leaf), one)] && db[leaf].entries == []
    ensures Docs(db, RootNode, n) == multiset{}
  {
    SumOne(db, false, Entry(NodeKey(leaf), one), n);
    assert Docs(db, leaf, n - 1) == multiset{};
  }
}
