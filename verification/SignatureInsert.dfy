/** Inserting a document into the signature index without a split
    (tools/gis_chordID.C): the leaf takes it, and every link above is raised. */
module SignatureInsert {
  import opened PolyDivides
  import opened PolyBits
  import opened SternBrocot
  import opened SignatureSpec
  import opened SignatureSplits
  import opened SignatureWrites

  /** The document is new, or its signature becomes the lcm with the old one. */
  ghost predicate DocAdded(D: multiset<Entry>, D': multiset<Entry>, docid: int, sig: Vec) {
    || D' == D + multiset{Entry(DocKey(docid), sig)}
    || exists s, l :: Merged(D, D', docid, sig, s, l)
  }

  ghost predicate Merged(D: multiset<Entry>, D': multiset<Entry>, docid: int, sig: Vec, s: Vec, l: Vec) {
    && Entry(DocKey(docid), s) in D && IsLcm(Val(l), Val(s), Val(sig))
    && D' == D - multiset{Entry(DocKey(docid), s)} + multiset{Entry(DocKey(docid), l)}
  }

  /** A document whose id is nowhere in the index is simply added. */
  lemma {:induction false} NewDocAdded(D: multiset<Entry>, D': multiset<Entry>, docid: int, sig: Vec)
    requires DocAdded(D, D', docid, sig) && forall d :: d in D ==> d.key != DocKey(docid)
    ensures D' == D + multiset{Entry(DocKey(docid), sig)}
  {
    forall s ensures Entry(DocKey(docid), s) !in D {
      assert Entry(DocKey(docid), s).key == DocKey(docid);
    }
  }

  lemma {:induction false} MovedBeside(D: multiset<Entry>, D': multiset<Entry>, E: multiset<Entry>, s: Entry, l: Entry)
    requires s in D && D' == D - multiset{s} + multiset{l}
    ensures D' + E == D + E - multiset{s} + multiset{l}
  {
  }

  lemma {:induction false} AddedBeside(D: multiset<Entry>, D': multiset<Entry>, E: multiset<Entry>, docid: int,
                                       sig: Vec)
    requires DocAdded(D, D', docid, sig)
    ensures DocAdded(D + E, D' + E, docid, sig)
  {
    if D' == D + multiset{Entry(DocKey(docid), sig)} {
      assert D' + E == D + E + multiset{Entry(DocKey(docid), sig)};
    } else {
      var s, l :| Merged(D, D', docid, sig, s, l);
      MovedBeside(D, D', E, Entry(DocKey(docid), s), Entry(DocKey(docid), l));
      assert Merged(D + E, D' + E, docid, sig, s, l);
    }
  }

  /** Any common multiple of the old signatures and the new one is still one. */
  ghost predicate Grown(es: seq<Entry>, r: seq<Entry>, sig: Vec) {
    forall m :: AllInto(es, m) && Divides(Val(sig), m) ==> AllInto(r, m)
  }

  lemma {:induction false} AdjustedGrows(mode: Mode, key: Key, sig: Vec, es: seq<Entry>, r: seq<Entry>)
    requires Adjusted(mode, key, sig, es, r) && mode != ReplaceSig
    ensures Grown(es, r, sig)
  {
    forall m | AllInto(es, m) && Divides(Val(sig), m) ensures AllInto(r, m) {
      forall i | 0 <= i < |r| ensures Into(r[i], m) {
        if i < |es| {
          assert Rewritten(mode, key, sig, es[i], r[i]) && es[i] in es && Into(es[i], m);
        }
      }
    }
  }

  lemma {:induction false} AdjustedKeys(mode: Mode, key: Key, sig: Vec, es: seq<Entry>, r: seq<Entry>)
    requires Adjusted(mode, key, sig, es, r) && Distinct(es)
    ensures Distinct(r) && forall k :: HasKey(r, k) ==> HasKey(es, k) || (k == key && mode != UpdateIfPresent)
  {
    forall i | 0 <= i < |r| ensures i < |es| ==> r[i].key == es[i].key {
      if i < |es| {
        assert Rewritten(mode, key, sig, es[i], r[i]);
      }
    }
    if |r| > |es| {
      forall i | 0 <= i < |es| ensures es[i].key != key {
        assert es[i] in es;
      }
    }
    forall k | HasKey(r, k) ensures HasKey(es, k) || (k == key && mode != UpdateIfPresent) {
      var e :| e in r && e.key == k;
      var i :| 0 <= i < |r| && r[i] == e;
      if i < |es| {
        assert es[i] in es;
      }
    }
  }

  // ---------- the state after a subtree has taken the document ----------

  /** Covered, except that links to x may not cover it yet. */
  ghost predicate CoveredBut(db: Db, x: NodeId) {
    forall id, e ::
      (id in db && e in db[id].entries && e.key.NodeKey? && e.key.id in db && e.key.id != x)
      ==> AllInto(db[e.key.id].entries, Val(e.sig))
  }

  ghost predicate SameHeaders(db: Db, db': Db) {
    db'.Keys == db.Keys && forall y :: y in db ==> db'[y].span == db[y].span && db'[y].kind == db[y].kind
  }

  ghost predicate Formed(db: Db) {
    SigsOk(db) && Linked(db) && Single(db) && Fed(db)
  }

  /** Only x and what is below it has changed. */
  ghost predicate ChangedBelow(db: Db, db': Db, x: NodeId)
    requires x in db
  {
    && SameHeaders(db, db')
    && (forall y :: y in db && y != x && db[y].span.level >= db[x].span.level ==> db'[y] == db[y])
  }

  ghost predicate Inserted(db: Db, db': Db, x: NodeId, docid: int, sig: Vec)
    requires x in db
  {
    && ChangedBelow(db, db', x) && Formed(db') && CoveredBut(db', x)
    && Grown(db[x].entries, db'[x].entries, sig)
    && SameDocs(db, db', x, db[x].span.level)
    && DocAdded(Docs(db, x, db[x].span.level), Docs(db', x, db[x].span.level), docid, sig)
  }

  lemma {:induction false} SameHeadersTiled(db: Db, db': Db)
    requires Tiled(db) && SameHeaders(db, db')
    ensures Tiled(db') && Top(db') == Top(db)
  {
    forall y | y in db' ensures HeaderOk(y, db'[y], Top(db')) {
      assert HeaderOk(y, db[y], Top(db));
    }
    forall a, b | a in db' && b in db' && a != b && SameLevel(db', a, b) ensures Apart(db'[a].span, db'[b].span) {
      assert SameLevel(db, a, b);
    }
    forall k: nat, x: nat, y: nat | k < Top(db') && x < y ensures SomeSpan(db', k, x, y) {
      assert SomeSpan(db, k, x, y);
    }
  }

  /** At the root nothing is left uncovered. */
  lemma {:induction false} InsertedAtRoot(db: Db, db': Db, docid: int, sig: Vec)
    requires Sound(db) && Inserted(db, db', RootNode, docid, sig)
    ensures Sound(db') && Top(db') == Top(db)
    ensures DocAdded(Docs(db, RootNode, Top(db)), Docs(db', RootNode, Top(db)), docid, sig)
  {
    SameHeadersTiled(db, db');
    forall id, e | id in db' && e in db'[id].entries && e.key.NodeKey? && e.key.id in db'
      ensures AllInto(db'[e.key.id].entries, Val(e.sig))
    {
      assert LinkOk(db', id, e);
    }
  }

  // ---------- one node rewritten ----------

  function Put(db: Db, x: NodeId, r: seq<Entry>): Db
    requires x in db
  {
    db[x := db[x].(entries := r)]
  }

  /** The keys of x do not change, except that a leaf may get one more document. */
  lemma {:induction false} PutFormed(db: Db, x: NodeId, mode: Mode, key: Key, sig: Vec, r: seq<Entry>)
    requires Formed(db) && x in db && IsSig(sig) && Adjusted(mode, key, sig, db[x].entries, r)
    requires mode == UpdateIfPresent || (db[x].kind == Leaf && key.DocKey?)
    ensures Formed(Put(db, x, r))
  {
    PutSigs(db, x, mode, key, sig, r);
    PutLinked(db, x, mode, key, sig, r);
    PutSingle(db, x, mode, key, sig, r);
  }

  lemma {:induction false} PutSigs(db: Db, x: NodeId, mode: Mode, key: Key, sig: Vec, r: seq<Entry>)
    requires SigsOk(db) && x in db && IsSig(sig) && Adjusted(mode, key, sig, db[x].entries, r)
    ensures SigsOk(Put(db, x, r))
  {
    AdjustedSigs(mode, key, sig, db[x].entries, r);
  }

  lemma {:induction false} PutLinked(db: Db, x: NodeId, mode: Mode, key: Key, sig: Vec, r: seq<Entry>)
    requires Linked(db) && x in db && Adjusted(mode, key, sig, db[x].entries, r)
    requires mode == UpdateIfPresent || (db[x].kind == Leaf && key.DocKey?)
    ensures Linked(Put(db, x, r))
  {
    var db' := Put(db, x, r);
    forall y, e | y in db' && e in db'[y].entries ensures LinkOk(db', y, e) {
      if y == x {
        var i :| 0 <= i < |r| && r[i] == e;
        if i < |db[x].entries| {
          var o := db[x].entries[i];
          assert Rewritten(mode, key, sig, o, e);
          assert o in db[x].entries && LinkOk(db, x, o);
        }
      } else {
        assert LinkOk(db, y, e);
      }
    }
  }

  lemma {:induction false} PutSingle(db: Db, x: NodeId, mode: Mode, key: Key, sig: Vec, r: seq<Entry>)
    requires Single(db) && x in db && Adjusted(mode, key, sig, db[x].entries, r)
    requires mode == UpdateIfPresent || key.DocKey?
    ensures Single(Put(db, x, r))
  {
    AdjustedKeys(mode, key, sig, db[x].entries, r);
    var db' := Put(db, x, r);
    forall y, c | y in db' && HasKey(db'[y].entries, NodeKey(c)) ensures HasKey(db[y].entries, NodeKey(c)) {
    }
  }

  // ---------- the leaf ----------

  lemma {:induction false} LeafAdded(docid: int, sig: Vec, es: seq<Entry>, r: seq<Entry>)
    requires Distinct(es) && Adjusted(Update, DocKey(docid), sig, es, r)
    ensures DocAdded(multiset(es), multiset(r), docid, sig)
  {
    var key := DocKey(docid);
    if !HasKey(es, key) {
      AdjustedShapes(Update, key, sig, es, r);
    } else {
      var e :| e in es && e.key == key;
      var i :| 0 <= i < |es| && es[i] == e;
      forall j | 0 <= j < |es| ensures r[j] == if j == i then r[i] else es[j] {
        assert Rewritten(Update, key, sig, es[j], r[j]);
      }
      assert r == es[i := r[i]];
      assert Rewritten(Update, key, sig, e, r[i]);
      assert Merged(multiset(es), multiset(r), docid, sig, e.sig, r[i].sig);
    }
  }

  lemma {:induction false} LeafCovers(db: Db, x: NodeId, r: seq<Entry>)
    requires Covered(db) && Linked(db) && x in db && db[x].kind == Leaf && forall e :: e in r ==> e.key.DocKey?
    ensures CoveredBut(Put(db, x, r), x)
  {
  }

  lemma {:induction false} OtherLeaves(db: Db, x: NodeId, r: seq<Entry>, n: nat)
    requires x in db && Linked(db) && db[x].kind == Leaf && n == db[x].span.level
    ensures SameDocs(db, Put(db, x, r), x, n)
  {
    var db' := Put(db, x, r);
    forall y | y in db && y != x && db[y].span.level == n ensures Docs(db', y, n) == Docs(db, y, n) {
      LeafDocs(db, db[y].entries, n);
      LeafDocs(db', db[y].entries, n);
    }
  }

  lemma {:induction false} LeafTakes(db: Db, x: NodeId, docid: int, sig: Vec, r: seq<Entry>, n: nat)
    requires x in db && db[x].kind == Leaf && Distinct(db[x].entries)
    requires Adjusted(Update, DocKey(docid), sig, db[x].entries, r)
    ensures DocAdded(Docs(db, x, n), Docs(Put(db, x, r), x, n), docid, sig)
  {
    LeafAdded(docid, sig, db[x].entries, r);
    LeafDocs(db, db[x].entries, n);
    LeafDocs(Put(db, x, r), r, n);
  }

  lemma {:induction false} LeafInserted(db: Db, x: NodeId, docid: int, sig: Vec, r: seq<Entry>)
    requires Formed(db) && Covered(db) && x in db && db[x].kind == Leaf && IsSig(sig)
    requires Adjusted(Update, DocKey(docid), sig, db[x].entries, r)
    ensures Inserted(db, Put(db, x, r), x, docid, sig)
  {
    var db', es := Put(db, x, r), db[x].entries;
    PutFormed(db, x, Update, DocKey(docid), sig, r);
    forall e | e in r ensures e.key.DocKey? {
      assert LinkOk(db', x, e);
    }
    LeafCovers(db, x, r);
    AdjustedGrows(Update, DocKey(docid), sig, es, r);
    OtherLeaves(db, x, r, db[x].span.level);
    LeafTakes(db, x, docid, sig, r, db[x].span.level);
  }

  // ---------- the nodes above ----------

  /** Raising the link to c covers c again, and may uncover x. */
  lemma {:induction false} ParentCovers(db: Db, d1: Db, x: NodeId, c: NodeId, sig: Vec, r: seq<Entry>)
    requires x in db && c in db && x != c && d1.Keys == db.Keys && d1[x] == db[x]
    requires Covered(db) && CoveredBut(d1, c) && Linked(d1) && OnlyParent(d1, c, x)
    requires Grown(db[c].entries, d1[c].entries, sig)
    requires Adjusted(UpdateIfPresent, NodeKey(c), sig, d1[x].entries, r)
    ensures CoveredBut(Put(d1, x, r), x)
  {
    var d2 := Put(d1, x, r);
    forall id, e | id in d2 && e in d2[id].entries && e.key.NodeKey? && e.key.id in d2 && e.key.id != x
      ensures AllInto(d2[e.key.id].entries, Val(e.sig))
    {
      if id == x {
        RaisedLink(db, d1, x, c, sig, r, e);
      } else {
        assert HasKey(d1[id].entries, e.key);
      }
    }
  }

  lemma {:induction false} RaisedLink(db: Db, d1: Db, x: NodeId, c: NodeId, sig: Vec, r: seq<Entry>, e: Entry)
    requires x in db && c in db && d1.Keys == db.Keys && d1[x] == db[x]
    requires Covered(db) && CoveredBut(d1, c)
    requires Grown(db[c].entries, d1[c].entries, sig)
    requires Adjusted(UpdateIfPresent, NodeKey(c), sig, d1[x].entries, r)
    requires e in r && e.key.NodeKey? && e.key.id in d1
    ensures AllInto(d1[e.key.id].entries, Val(e.sig))
  {
    var i :| 0 <= i < |r| && r[i] == e;
    var o := d1[x].entries[i];
    assert Rewritten(UpdateIfPresent, NodeKey(c), sig, o, e) && o in d1[x].entries;
    if o.key == NodeKey(c) {
      assert AllInto(db[c].entries, Val(o.sig));
      IntoMultiple(db[c].entries, Val(o.sig), Val(e.sig));
    }
  }

  lemma {:induction false} IntoMultiple(es: seq<Entry>, a: nat, b: nat)
    requires AllInto(es, a) && Divides(a, b)
    ensures AllInto(es, b)
  {
    forall e | e in es ensures Into(e, b) {
      assert Into(e, a);
      DividesTrans(Val(e.sig), a, b);
    }
  }

  lemma {:induction false} AdjustedSums(db: Db, mode: Mode, key: Key, sig: Vec, es: seq<Entry>, r: seq<Entry>, n: nat)
    requires Adjusted(mode, key, sig, es, r) && |r| == |es|
    ensures SumOf(db, false, r, n) == SumOf(db, false, es, n)
  {
    forall i | 0 <= i < |es| ensures One(db, false, es[i], n) == One(db, false, r[i], n) {
      assert Rewritten(mode, key, sig, es[i], r[i]);
    }
    SumSame(db, db, false, es, r, n);
  }

  /** The document of the child is a document of the parent. */
  lemma {:induction false} ParentAdds(db: Db, d1: Db, c: NodeId, es: seq<Entry>, n: nat, docid: int, sig: Vec)
    requires n > 0 && Distinct(es) && HasKey(es, NodeKey(c)) && SameDocs(db, d1, c, n - 1)
    requires forall e :: e in es ==> e.key.NodeKey? && e.key.id in db && db[e.key.id].span.level == n - 1
    requires DocAdded(Docs(db, c, n - 1), Docs(d1, c, n - 1), docid, sig)
    ensures DocAdded(SumOf(db, false, es, n), SumOf(d1, false, es, n), docid, sig)
  {
    var rest := TakeLink(db, d1, es, c, LinkSig(es, c), n);
    SumThroughLinks(db, d1, c, rest, n);
    RelinkSame(es, c);
    AddedBeside(Docs(db, c, n - 1), Docs(d1, c, n - 1), SumOf(db, false, rest, n), docid, sig);
  }

  /** The signature with which c is linked. */
  ghost function LinkSig(es: seq<Entry>, c: NodeId): Vec
    requires HasKey(es, NodeKey(c))
  {
    var e :| e in es && e.key == NodeKey(c); e.sig
  }

  lemma {:induction false} RelinkSame(es: seq<Entry>, c: NodeId)
    requires HasKey(es, NodeKey(c)) && Distinct(es)
    ensures Relinked(es, NodeKey(c), LinkSig(es, c)) == es
  {
    var e :| e in es && e.key == NodeKey(c) && e.sig == LinkSig(es, c);
    var i :| 0 <= i < |es| && es[i] == e;
    forall j | 0 <= j < |es| ensures Relinked(es, NodeKey(c), LinkSig(es, c))[j] == es[j] {
      if j < i {
        assert es[j].key != es[i].key;
      } else if j > i {
        assert es[i].key != es[j].key;
      }
    }
  }

  /** Rewriting x changes nothing below its level. */
  lemma {:induction false} BelowUnchanged(db: Db, x: NodeId, r: seq<Entry>, n: nat)
    requires Linked(db) && x in db && n < db[x].span.level
    ensures SameDocs(db, Put(db, x, r), x, n)
  {
    if n > 0 {
      BelowUnchanged(db, x, r, n - 1);
    }
    forall y | y in db && y != x && db[y].span.level == n ensures Docs(Put(db, x, r), y, n) == Docs(db, y, n) {
      if db[y].kind != Leaf {
        LinksDown(db, y, x);
      }
      DocsThrough(db, Put(db, x, r), x, y, n);
    }
  }

  lemma {:induction false} LinksDown(db: Db, y: NodeId, x: NodeId)
    requires Linked(db) && y in db && x in db && db[y].kind != Leaf && db[x].span.level >= db[y].span.level
    ensures db[y].span.level > 0 && LinksTo(db, y, x, db[y].span.level - 1)
  {
    forall e | e in db[y].entries ensures LinkOk(db, y, e) {
    }
  }

  /** Documents elsewhere on the level of x: those subtrees do not hold c. */
  lemma {:induction false} OtherSubtrees(db: Db, d1: Db, x: NodeId, c: NodeId, r: seq<Entry>)
    requires Linked(db) && Linked(d1) && OnlyParent(db, c, x) && SameHeaders(db, d1)
    requires SameDocs(db, d1, c, db[c].span.level)
    requires forall y :: y in db && y != c && db[y].span.level >= db[c].span.level ==> d1[y] == db[y]
    ensures SameDocs(db, Put(d1, x, r), x, db[x].span.level)
  {
    var n, d2 := db[x].span.level, Put(d1, x, r);
    BelowUnchanged(d1, x, r, n - 1);
    assert SameDocs(db, d2, c, n - 1);
    forall y | y in db && y != x && db[y].span.level == n ensures Docs(d2, y, n) == Docs(db, y, n) {
      LinksLead(db, c, x, y);
      DocsThrough(db, d2, c, y, n);
    }
  }

  lemma {:induction false} ParentDocs(db: Db, d1: Db, x: NodeId, c: NodeId, r: seq<Entry>, docid: int, sig: Vec)
    requires Linked(db) && Linked(d1) && OnlyParent(db, c, x) && SameHeaders(db, d1) && d1[x] == db[x]
    requires HasKey(db[x].entries, NodeKey(c)) && Distinct(db[x].entries)
    requires SameDocs(db, d1, c, db[c].span.level)
    requires DocAdded(Docs(db, c, db[c].span.level), Docs(d1, c, db[c].span.level), docid, sig)
    requires Adjusted(UpdateIfPresent, NodeKey(c), sig, db[x].entries, r)
    ensures DocAdded(Docs(db, x, db[x].span.level), Docs(Put(d1, x, r), x, db[x].span.level), docid, sig)
  {
    var n, es, d2 := db[x].span.level, db[x].entries, Put(d1, x, r);
    BelowUnchanged(d1, x, r, n - 1);
    LinksDown(db, x, x);
    LinksDown(d1, x, x);
    AdjustedSums(d2, UpdateIfPresent, NodeKey(c), sig, es, r, n);
    SumThroughLinks(d1, d2, x, es, n);
    ParentAdds(db, d1, c, es, n, docid, sig);
  }

  lemma {:induction false} OnlyParentStill(db: Db, d1: Db, c: NodeId, x: NodeId)
    requires OnlyParent(db, c, x) && SameHeaders(db, d1) && d1[x] == db[x] && HasKey(db[x].entries, NodeKey(c))
             && Single(d1)
    ensures OnlyParent(d1, c, x)
  {
  }

  lemma {:induction false} ChangedAbove(db: Db, d1: Db, x: NodeId, c: NodeId, r: seq<Entry>)
    requires c in db && x in db && db[x].span.level > db[c].span.level && ChangedBelow(db, d1, c)
    ensures x in d1 && ChangedBelow(db, Put(d1, x, r), x)
  {
  }

  lemma {:induction false} ParentShape(db: Db, d1: Db, x: NodeId, c: NodeId, sig: Vec, r: seq<Entry>)
    requires Covered(db) && OnlyParent(db, c, x) && IsSig(sig) && ChangedBelow(db, d1, c)
    requires Formed(d1) && CoveredBut(d1, c) && Grown(db[c].entries, d1[c].entries, sig)
    requires HasKey(db[x].entries, NodeKey(c)) && Adjusted(UpdateIfPresent, NodeKey(c), sig, db[x].entries, r)
    ensures x in d1 && d1[x] == db[x]
    ensures CoveredBut(Put(d1, x, r), x)
  {
    assert d1[x] == db[x];
    OnlyParentStill(db, d1, c, x);
    ParentCovers(db, d1, x, c, sig, r);
  }

  lemma {:induction false} ParentInserted(db: Db, d1: Db, x: NodeId, c: NodeId, docid: int, sig: Vec, r: seq<Entry>)
    requires Formed(db) && Covered(db) && LinkedFrom(db, c, x) && IsSig(sig) && Inserted(db, d1, c, docid, sig)
    requires Adjusted(UpdateIfPresent, NodeKey(c), sig, db[x].entries, r)
    ensures x in d1 && d1[x] == db[x] && Inserted(db, Put(d1, x, r), x, docid, sig)
  {
    ParentIsOnly(db, c, x);
    ParentShape(db, d1, x, c, sig, r);
    ChangedAbove(db, d1, x, c, r);
    PutFormed(d1, x, UpdateIfPresent, NodeKey(c), sig, r);
    OtherSubtrees(db, d1, x, c, r);
    ParentDocs(db, d1, x, c, r, docid, sig);
    AdjustedGrows(UpdateIfPresent, NodeKey(c), sig, db[x].entries, r);
  }
}
