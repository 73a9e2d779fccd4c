/** A sound index on which every insertion goes wrong (tools/gis_chordID.C): all
    leaves are full, and so is the root that links them.  It stands for any stored
    sound index of that kind; which insertions lead to it is not shown. */
module SignatureFailure {
  import opened PolyDivides
  import opened PolyBits
  import opened PolyProducts
  import opened SternBrocot
  import opened SignatureSpec
  import opened SignatureSplits
  import opened SignatureWrongParent
  import opened SignatureIndex

  /** Leaf i of n: what n - 1 splits of the last leaf leave behind. */
  function CombSpan(n: nat, i: nat): Interval {
    if i + 1 < n then Interval(i, i + 1, i + 1, i + 2, 0) else Interval(i, i + 1, 1, 1, 0)
  }

  function CombLeaf(i: nat): NodeId {
    Named(0, i, i + 1)
  }

  function CombDocs(m: nat, one: Vec): seq<Entry> {
    seq(m, j => Entry(DocKey(j), one))
  }

  function CombLinks(n: nat, one: Vec): seq<Entry> {
    seq(n, i requires 0 <= i < n => Entry(NodeKey(CombLeaf(i)), one))
  }

  /** A root with n leaves of m documents each, all with one signature. */
  ghost predicate IsComb(db: Db, n: nat, m: nat, one: Vec) {
    && RootNode in db && db[RootNode] == Node(Root, Interval(0, 1, 1, 1, 1), CombLinks(n, one))
    && (forall i :: 0 <= i < n ==>
          CombLeaf(i) in db && db[CombLeaf(i)] == Node(Leaf, CombSpan(n, i), CombDocs(m, one)))
    && forall id :: id in db && id != RootNode ==> IsCombLeaf(id, n)
  }

  predicate IsCombLeaf(id: NodeId, n: nat) {
    id.Named? && id.level == 0 && id.ln < n && id == CombLeaf(id.ln)
  }

  function Comb(n: nat, m: nat, one: Vec): (db: Db)
    ensures IsComb(db, n, m, one)
  {
    var leaves := map i: nat | 0 <= i < n :: CombLeaf(i) := Node(Leaf, CombSpan(n, i), CombDocs(m, one));
    leaves[RootNode := Node(Root, Interval(0, 1, 1, 1, 1), CombLinks(n, one))]
  }

  lemma {:induction false} CombUnimodular(n: nat, i: nat)
    requires i < n
    ensures Unimodular(CombSpan(n, i))
  {
    assert (i + 1) * (i + 1) == i * (i + 2) + 1;
  }

  lemma {:induction false} CombApart(n: nat, i: nat, j: nat)
    requires i < j < n
    ensures Apart(CombSpan(n, i), CombSpan(n, j)) && Apart(CombSpan(n, j), CombSpan(n, i))
  {
    assert (i + 1) * (j + 1) == i * j + i + j + 1;
    assert j * (i + 2) == i * j + 2 * j;
  }

  /** Every fraction x/y below 1 is in the interval of some leaf. */
  lemma {:induction false} CombCovers(n: nat, x: nat, y: nat) returns (i: nat)
    requires n > 0 && x < y
    ensures i < n && InSpan(x, y, CombSpan(n, i))
  {
    var w := y - x;
    var q := Quotient(x, w);
    if q + 1 < n {
      i := q;
      InComb(x, y, w, i);
    } else {
      i := n - 1;
      Fewer(i, q, w);
      LastInComb(x, y, w, i);
    }
  }

  lemma {:induction false} Quotient(x: nat, w: nat) returns (q: nat)
    requires w > 0
    ensures q * w <= x < q * w + w
  {
    q := x / w;
  }

  lemma {:induction false} Fewer(i: nat, q: nat, w: nat)
    requires i <= q
    ensures i * w <= q * w
  {
  }

  lemma {:induction false} InComb(x: nat, y: nat, w: nat, i: nat)
    requires i * w <= x < i * w + w && y == x + w
    ensures i * y <= x * (i + 1) && x * (i + 2) < (i + 1) * y
  {
    assert i * y == i * x + i * w;
    assert x * (i + 1) == i * x + x;
    assert x * (i + 2) == i * x + 2 * x;
    assert (i + 1) * y == i * y + y;
  }

  lemma {:induction false} LastInComb(x: nat, y: nat, w: nat, i: nat)
    requires i * w <= x && y == x + w
    ensures i * y <= x * (i + 1)
  {
    assert i * y == i * x + i * w;
    assert x * (i + 1) == i * x + x;
  }

  lemma {:induction false} CombIsTiled(db: Db, n: nat, m: nat, one: Vec)
    requires IsComb(db, n, m, one) && n > 0
    ensures Tiled(db) && Top(db) == 1
  {
    forall id | id in db && id != RootNode ensures Unimodular(db[id].span) {
      assert IsCombLeaf(id, n);
      CombUnimodular(n, id.ln);
    }
    forall a, b | a in db && b in db && a != b && SameLevel(db, a, b) ensures Apart(db[a].span, db[b].span) {
      assert IsCombLeaf(a, n) && IsCombLeaf(b, n);
      if a.ln < b.ln {
        CombApart(n, a.ln, b.ln);
      } else {
        CombApart(n, b.ln, a.ln);
      }
    }
    forall k: nat, x: nat, y: nat | k < Top(db) && x < y ensures SomeSpan(db, k, x, y) {
      var i := CombCovers(n, x, y);
      assert CombLeaf(i) in db;
    }
  }

  lemma {:induction false} CombIsLinked(db: Db, n: nat, m: nat, one: Vec)
    requires IsComb(db, n, m, one) && n > 0 && IsSig(one)
    ensures SigsOk(db) && Linked(db) && Fed(db)
  {
    forall id, e | id in db && e in db[id].entries ensures IsSig(e.sig) && LinkOk(db, id, e) {
      assert id != RootNode ==> IsCombLeaf(id, n);
    }
  }

  lemma {:induction false} CombIsSingle(db: Db, n: nat, m: nat, one: Vec)
    requires IsComb(db, n, m, one)
    ensures Single(db)
  {
    forall id | id in db ensures Distinct(db[id].entries) {
      assert id != RootNode ==> IsCombLeaf(id, n);
    }
    forall id, c | id in db && HasKey(db[id].entries, NodeKey(c)) ensures id == RootNode {
      assert id != RootNode ==> IsCombLeaf(id, n);
    }
  }

  lemma {:induction false} CombIsCovered(db: Db, n: nat, m: nat, one: Vec)
    requires IsComb(db, n, m, one)
    ensures Covered(db)
  {
    DividesSelf(Val(one));
    forall id, e | id in db && e in db[id].entries && e.key.NodeKey? && e.key.id in db
      ensures AllInto(db[e.key.id].entries, Val(e.sig))
    {
      assert id != RootNode ==> IsCombLeaf(id, n);
    }
  }

  lemma {:induction false} CombIsSound(db: Db, n: nat, m: nat, one: Vec)
    requires IsComb(db, n, m, one) && n > 0 && IsSig(one)
    ensures Sound(db)
  {
    CombIsTiled(db, n, m, one);
    CombIsLinked(db, n, m, one);
    CombIsSingle(db, n, m, one);
    CombIsCovered(db, n, m, one);
  }

  lemma {:induction false} CombIsFull(db: Db, n: nat, m: nat, one: Vec, leaf: NodeId)
    requires IsComb(db, n, m, one) && n >= MAXENTRIES && m >= MAXENTRIES && IsLeaf(db, leaf)
    ensures Full(db[leaf]) && LinkedFrom(db, leaf, RootNode) && Full(db[RootNode])
  {
    assert IsCombLeaf(leaf, n);
    assert CombLinks(n, one)[leaf.ln] in db[RootNode].entries;
  }

  /** 500 leaves of 500 documents: whatever is inserted, the index ends up with a
      misplaced link and with some document more often than before. */
  method FailingInsertion(sig: Vec, docid: int, m: bool) returns (before: Db, after: Db)
    requires IsSig(sig)
    ensures Sound(before) && RootNode in before && RootNode in after && !Linked(after)
    ensures exists e :: Docs(after, RootNode, Top(after))[e] > Docs(before, RootNode, Top(before))[e]
  {
    ValOne();
    var n := MAXENTRIES;
    before := Comb(n, n, [ONE]);
    CombIsSound(before, n, n, [ONE]);
    var t := new SignatureTree.Open(before, m);
    var status, path, leaf := t.InsertFromRoot(sig, docid);
    CombIsFull(before, n, n, [ONE], leaf);
    after := t.db;
    assert Broken(before, after, RootNode);
  }
}
