/** The intervals of the signature index keep tiling every level, so that no node
    name is ever used twice (tools/gis_chordID.C). */
module SignatureTiling {
  import opened SternBrocot
  import opened SignatureSpec
  import opened SignatureSplits

  /** The name of the sibling a split would create is not in use. */
  lemma {:induction false} SiblingIsNew(db: Db, id: NodeId)
    requires Tiled(db) && id in db && id != RootNode
    ensures SiblingId(db[id].span) !in db
  {
    var sib := SiblingId(db[id].span);
    if sib in db {
      assert HeaderOk(sib, db[sib], Top(db)) && HeaderOk(id, db[id], Top(db));
      assert sib != id ==> SameLevel(db, id, sib);
      SiblingNameIsFresh(db[id].span, db[sib].span);
    }
  }

  /** Headers before and after a split of id; the entries do not matter. */
  ghost predicate Respanned(db: Db, db': Db, id: NodeId) {
    && id in db && id != RootNode && SiblingId(db[id].span) !in db
    && db'.Keys == db.Keys + {SiblingId(db[id].span)}
    && (forall x :: x in db && x != id ==> db'[x].span == db[x].span && db'[x].kind == db[x].kind)
    && db'[id].span == KeptPart(db[id].span) && db'[id].kind == db[id].kind
    && db'[SiblingId(db[id].span)].span == SiblingPart(db[id].span)
    && db'[SiblingId(db[id].span)].kind == db[id].kind
  }

  /** Where the interval of a node of db' comes from. */
  function Origin(db: Db, id: NodeId, x: NodeId): NodeId
    requires id in db
  {
    if x == SiblingId(db[id].span) then id else x
  }

  lemma {:induction false} SplitApart(db: Db, db': Db, id: NodeId, x: NodeId, y: NodeId)
    requires Tiled(db) && Respanned(db, db', id)
    requires x in db' && y in db' && x != y && SameLevel(db', x, y)
    ensures Apart(db'[x].span, db'[y].span)
  {
    var s := db[id].span;
    var ox, oy := Origin(db, id, x), Origin(db, id, y);
    MediantSplits(s);
    if ox == oy {
      assert ox == id;
    } else {
      assert SameLevel(db, ox, oy);
      if ox == id {
        PartsApart(s, db[oy].span);
      } else if oy == id {
        PartsApart(s, db[ox].span);
      }
    }
  }

  lemma {:induction false} SplitCovers(db: Db, db': Db, id: NodeId, k: nat, x: nat, y: nat)
    requires Tiled(db) && Respanned(db, db', id) && k < Top(db) && x < y
    ensures SomeSpan(db', k, x, y)
  {
    assert SomeSpan(db, k, x, y);
    var n :| n in db && n != RootNode && db[n].span.level == k && InSpan(x, y, db[n].span);
    if n == id {
      PartsCover(x, y, db[id].span);
      var sib := SiblingId(db[id].span);
      assert InSpan(x, y, db'[id].span) || InSpan(x, y, db'[sib].span);
    } else {
      assert InSpan(x, y, db'[n].span);
    }
  }

  lemma {:induction false} TiledAfterSplit(db: Db, db': Db, id: NodeId)
    requires Tiled(db) && Respanned(db, db', id)
    ensures Tiled(db') && Top(db') == Top(db)
  {
    MediantSplits(db[id].span);
    assert HeaderOk(id, db[id], Top(db));
    forall x | x in db' ensures HeaderOk(x, db'[x], Top(db)) {
      assert Origin(db, id, x) in db;
    }
    forall x | x in db' && x != RootNode ensures Unimodular(db'[x].span) {
      assert Origin(db, id, x) in db;
    }
    forall x, y | x in db' && y in db' && x != y && SameLevel(db', x, y) ensures Apart(db'[x].span, db'[y].span) {
      SplitApart(db, db', id, x, y);
    }
    forall k: nat, x: nat, y: nat | k < Top(db) && x < y ensures SomeSpan(db', k, x, y) {
      SplitCovers(db, db', id, k, x, y);
    }
  }

  // ---------- the root ----------

  function FirstHalf(k: nat): Interval {
    Interval(0, 1, 1, 2, k)
  }

  function SecondHalf(k: nat): Interval {
    Interval(1, 2, 1, 1, k)
  }

  /** Headers before and after a split of the root: one more level of two nodes. */
  ghost predicate RootRespanned(db: Db, db': Db) {
    && RootNode in db
    && var k := Top(db);
    && Named(k, 0, 1) !in db && Named(k, 1, 2) !in db
    && db'.Keys == db.Keys + {Named(k, 0, 1), Named(k, 1, 2)}
    && (forall x :: x in db && x != RootNode ==> db'[x].span == db[x].span && db'[x].kind == db[x].kind)
    && db'[RootNode].span.level == k + 1 && db'[RootNode].kind == Root
    && db'[Named(k, 0, 1)].span == FirstHalf(k) && db'[Named(k, 0, 1)].kind == NonLeaf
    && db'[Named(k, 1, 2)].span == SecondHalf(k) && db'[Named(k, 1, 2)].kind == NonLeaf
  }

  /** Below the root no node is of the root's level. */
  lemma {:induction false} HalvesAreNew(db: Db)
    requires Tiled(db)
    ensures Named(Top(db), 0, 1) !in db && Named(Top(db), 1, 2) !in db
  {
    forall id | id in db && id != RootNode ensures id.level < Top(db) {
      assert HeaderOk(id, db[id], Top(db));
    }
  }

  lemma {:induction false} HalvesCover(k: nat, x: nat, y: nat)
    requires x < y
    ensures InSpan(x, y, FirstHalf(k)) || InSpan(x, y, SecondHalf(k))
  {
  }

  lemma {:induction false} TiledAfterRootSplit(db: Db, db': Db)
    requires Tiled(db) && RootRespanned(db, db')
    ensures Tiled(db') && Top(db') == Top(db) + 1
  {
    var k := Top(db);
    assert HeaderOk(RootNode, db[RootNode], k);
    forall x | x in db' ensures HeaderOk(x, db'[x], k + 1) {
      assert x in db ==> HeaderOk(x, db[x], k);
    }
    forall x | x in db' && x != RootNode ensures Unimodular(db'[x].span) {
      assert x in db ==> HeaderOk(x, db[x], k);
    }
    forall x, y | x in db' && y in db' && x != y && SameLevel(db', x, y) ensures Apart(db'[x].span, db'[y].span) {
      assert x in db ==> HeaderOk(x, db[x], k);
      assert y in db ==> HeaderOk(y, db[y], k);
      if x in db && y in db {
        assert SameLevel(db, x, y);
      }
    }
    forall l: nat, x: nat, y: nat | l < k + 1 && x < y ensures SomeSpan(db', l, x, y) {
      if l < k {
        assert SomeSpan(db, l, x, y);
        var n :| n in db && n != RootNode && db[n].span.level == l && InSpan(x, y, db[n].span);
        assert InSpan(x, y, db'[n].span);
      } else {
        HalvesCover(k, x, y);
        assert InSpan(x, y, db'[Named(k, 0, 1)].span) || InSpan(x, y, db'[Named(k, 1, 2)].span);
      }
    }
  }
}
