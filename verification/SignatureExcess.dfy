/** How far the leaves of the signature index are over their limit
    (tools/gis_chordID.C).  A split of a full leaf makes it less, which bounds how
    often the insertion of one document can be repeated. */
module SignatureExcess {
  import opened PolyBits
  import opened SignatureSpec
  import opened SignatureSplits
  import opened SignatureUpkeep

  /** The entries of a leaf beyond those it can hold without being full. */
  function Over(node: Node): (n: nat)
    ensures n > 0 <==> node.kind == Leaf && Full(node)
  {
    if node.kind == Leaf && Full(node) then |node.entries| + 1 - MAXENTRIES else 0
  }

  ghost function SumOver(db: Db, ids: set<NodeId>): nat
    requires ids <= db.Keys
  {
    if ids == {} then 0 else
    var x :| x in ids;
    Over(db[x]) + SumOver(db, ids - {x})
  }

  ghost function Excess(db: Db): nat {
    SumOver(db, db.Keys)
  }

  lemma {:induction false} SumOverTake(db: Db, ids: set<NodeId>, x: NodeId)
    requires ids <= db.Keys && x in ids
    ensures SumOver(db, ids) == Over(db[x]) + SumOver(db, ids - {x})
    decreases |ids|
  {
    var y :| y in ids && SumOver(db, ids) == Over(db[y]) + SumOver(db, ids - {y});
    if y != x {
      SumOverTake(db, ids - {y}, x);
      SumOverTake(db, ids - {x}, y);
      assert ids - {y} - {x} == ids - {x} - {y};
    }
  }

  lemma {:induction false} SumOverSame(db: Db, db': Db, ids: set<NodeId>)
    requires ids <= db.Keys && ids <= db'.Keys && forall x :: x in ids ==> Over(db'[x]) == Over(db[x])
    ensures SumOver(db', ids) == SumOver(db, ids)
    decreases |ids|
  {
    if ids != {} {
      var x :| x in ids;
      SumOverTake(db, ids, x);
      SumOverTake(db', ids, x);
      SumOverSame(db, db', ids - {x});
    }
  }

  /** No excess: no leaf is full. */
  lemma {:induction false} NoneFull(db: Db, x: NodeId)
    requires x in db
    ensures Over(db[x]) <= Excess(db)
  {
    SumOverTake(db, db.Keys, x);
  }

  /** One node divided, with less over the limit in its two parts together. */
  lemma {:induction false} DividedExcess(db: Db, db': Db, id: NodeId, sib: NodeId)
    requires id in db && sib !in db && db'.Keys == db.Keys + {sib}
    requires forall x :: x in db && x != id ==> Over(db'[x]) == Over(db[x])
    requires Over(db'[id]) + Over(db'[sib]) < Over(db[id])
    ensures Excess(db') < Excess(db)
  {
    SumOverTake(db, db.Keys, id);
    SumOverTake(db', db'.Keys, sib);
    assert db'.Keys - {sib} == db.Keys;
    SumOverTake(db', db.Keys, id);
    SumOverSame(db, db', db.Keys - {id});
  }

  /** Splitting a full leaf takes something off the excess. */
  lemma {:induction false} SplitDrops(db: Db, db': Db, id: NodeId, p: NodeId, A: seq<Entry>, B: seq<Entry>, a: Vec,
                                      b: Vec)
    requires Linked(db) && Finished(db, db', id, p, A, B, a, b) && db[id].kind == Leaf && Full(db[id])
    ensures Excess(db') < Excess(db)
  {
    var sib := SiblingId(db[id].span);
    assert |multiset(A)| == |A| && |multiset(B)| == |B| && |multiset(db[id].entries)| == |db[id].entries|;
    var s :| s in db[p].entries && s.key == NodeKey(id);
    assert LinkOk(db, p, s);
    DividedExcess(db, db', id, sib);
  }
}
