/** What a split of a node does to the signature index (tools/gis_chordID.C), as
    the sequence of stored states it goes through. */
module SignatureSplits {
  import opened PolyDivides
  import opened PolyBits
  import opened SternBrocot
  import opened SignatureSpec
  import opened SignatureChoice

  /** The entries whose key is on no list entry. */
  function Without(es: seq<Entry>, list: seq<Entry>): seq<Entry> {
    if es == [] then []
    else Without(es[..|es| - 1], list) + if HasKey(list, es[|es| - 1].key) then [] else [es[|es| - 1]]
  }

  // ---------- a division of the entries ----------

  /** A and B share out the entries es; a and b are the lcms of their signatures. */
  ghost predicate Shared(es: seq<Entry>, A: seq<Entry>, B: seq<Entry>, a: Vec, b: Vec) {
    && A != [] && B != [] && (forall e :: e in es <==> e in A || e in B)
    && Distinct(A) && Distinct(B)
    && (forall e, f :: e in A && f in B ==> e.key != f.key)
    && multiset(A) + multiset(B) == multiset(es)
    && IsSig(a) && IsLcmOf(Val(a), A) && IsSig(b) && IsLcmOf(Val(b), B)
  }

  /** The positions Without keeps, in order. */
  ghost function Kept(es: seq<Entry>, list: seq<Entry>, n: nat): seq<nat>
    requires n <= |es|
  {
    if n == 0 then []
    else Kept(es, list, n - 1) + if HasKey(list, es[n - 1].key) then [] else [n - 1]
  }

  lemma {:induction false} KeptFacts(es: seq<Entry>, list: seq<Entry>, n: nat)
    requires n <= |es|
    ensures InRange(Kept(es, list, n), n) && NoDup(Kept(es, list, n))
    ensures forall i: nat :: i in Kept(es, list, n) <==> i < n && !HasKey(list, es[i].key)
  {
    if n > 0 {
      KeptFacts(es, list, n - 1);
    }
  }

  lemma {:induction false} WithoutIsPick(es: seq<Entry>, list: seq<Entry>, n: nat)
    requires n <= |es|
    ensures InRange(Kept(es, list, n), |es|)
    ensures Without(es[..n], list) == Pick(es, Kept(es, list, n))
  {
    KeptFacts(es, list, n);
    if n > 0 {
      var m := n - 1;
      WithoutIsPick(es, list, m);
      KeptFacts(es, list, m);
      WithoutNext(es, list, m);
      PickNext(es, Kept(es, list, m), m);
    }
  }

  lemma {:induction false} WithoutNext(es: seq<Entry>, list: seq<Entry>, m: nat)
    requires m < |es|
    ensures Without(es[..m + 1], list) == Without(es[..m], list) + if HasKey(list, es[m].key) then [] else [es[m]]
  {
    assert es[..m + 1][..m] == es[..m];
  }

  lemma {:induction false} PickNext(es: seq<Entry>, g: seq<nat>, m: nat)
    requires InRange(g, |es|) && m < |es|
    ensures InRange(g + [m], |es|) && Pick(es, g + [m]) == Pick(es, g) + [es[m]]
  {
    PickAppend(es, g, [m]);
    assert Pick(es, [m]) == [es[m]];
  }

  lemma {:induction false} PickDistinct(es: seq<Entry>, g: seq<nat>)
    requires InRange(g, |es|) && Distinct(es) && NoDup(g)
    ensures Distinct(Pick(es, g))
  {
    var p := Pick(es, g);
    forall i, j | 0 <= i < j < |p| ensures p[i].key != p[j].key {
      if g[i] < g[j] {
        assert es[g[i]].key != es[g[j]].key;
      } else {
        assert es[g[j]].key != es[g[i]].key;
      }
    }
  }

  /** With distinct keys, the keys of the picked entries are at the picked positions only. */
  lemma {:induction false} PickedKey(es: seq<Entry>, g: seq<nat>, i: nat)
    requires InRange(g, |es|) && Distinct(es) && i < |es|
    ensures HasKey(Pick(es, g), es[i].key) <==> i in g
  {
    var p := Pick(es, g);
    if i in g {
      var k :| 0 <= k < |g| && g[k] == i;
      assert p[k] in p;
    }
    if HasKey(p, es[i].key) {
      var e :| e in p && e.key == es[i].key;
      var k :| 0 <= k < |p| && p[k] == e;
      assert es[g[k]].key == es[i].key;
      assert g[k] == i;
    }
  }

  lemma {:induction false} ConcatLists(g1: seq<nat>, g2: seq<nat>, n: nat)
    requires Lists(g1 + g2, n)
    ensures NoDup(g1) && NoDup(g2) && InRange(g1, n) && InRange(g2, n)
    ensures forall i: nat :: i < n ==> (i in g1 <==> i !in g2)
  {
    var g := g1 + g2;
    InRangeIfListed(g, n);
    assert forall j :: 0 <= j < |g1| ==> g[j] == g1[j];
    assert forall j :: 0 <= j < |g2| ==> g[|g1| + j] == g2[j];
    forall i: nat | i < n ensures i in g1 <==> i !in g2 {
      assert i in g;
    }
  }

  /** Deleting the second group leaves the first. */
  lemma {:induction false} DeleteGroup(es: seq<Entry>, g1: seq<nat>, g2: seq<nat>) returns (h: seq<nat>)
    requires Distinct(es) && Lists(g1 + g2, |es|) && InRange(g1, |es|) && InRange(g2, |es|)
    ensures InRange(h, |es|) && Without(es, Pick(es, g2)) == Pick(es, h)
    ensures NoDup(h) && forall i :: i in h <==> i in g1
  {
    h := Kept(es, Pick(es, g2), |es|);
    ConcatLists(g1, g2, |es|);
    KeptFacts(es, Pick(es, g2), |es|);
    WithoutIsPick(es, Pick(es, g2), |es|);
    assert es[..|es|] == es;
    forall i: nat ensures i in h <==> i in g1 {
      if i < |es| {
        PickedKey(es, g2, i);
      }
    }
  }

  lemma {:induction false} SameMembers(es: seq<Entry>, g: seq<nat>, h: seq<nat>, e: Entry)
    requires InRange(g, |es|) && InRange(h, |es|) && forall i :: i in g ==> i in h
    ensures e in Pick(es, g) ==> e in Pick(es, h)
  {
    if e in Pick(es, g) {
      var k :| 0 <= k < |g| && Pick(es, g)[k] == e;
      assert g[k] in h;
      var j :| 0 <= j < |h| && h[j] == g[k];
      assert Pick(es, h)[j] == e;
    }
  }

  lemma {:induction false} GroupsShare(es: seq<Entry>, g1: seq<nat>, g2: seq<nat>, a: Vec, b: Vec)
    requires Distinct(es) && Lists(g1 + g2, |es|) && Group(es, g1, a) && Group(es, g2, b)
    ensures Shared(es, Without(es, Pick(es, g2)), Pick(es, g2), a, b)
  {
    var h := DeleteGroup(es, g1, g2);
    ConcatLists(g1, g2, |es|);
    var A, B := Pick(es, h), Pick(es, g2);
    PickDistinct(es, h);
    PickDistinct(es, g2);
    ShareLists(g1, g2, h, |es|);
    PickAll(es, h + g2);
    PickAppend(es, h, g2);
    forall e ensures e in A <==> e in Pick(es, g1) {
      SameMembers(es, g1, h, e);
      SameMembers(es, h, g1, e);
    }
    LcmOfMembers(Val(a), Pick(es, g1), A);
    MembersOfBoth(es, A, B);
    forall e, f | e in A && f in B ensures e.key != f.key {
      var i :| 0 <= i < |h| && A[i] == e;
      PickedKey(es, g2, h[i]);
      assert h[i] in h && h[i] in g1;
    }
    assert g1[0] in h;
  }

  lemma {:induction false} ShareLists(g1: seq<nat>, g2: seq<nat>, h: seq<nat>, n: nat)
    requires Lists(g1 + g2, n) && NoDup(h) && forall i :: i in h <==> i in g1
    ensures Lists(h + g2, n)
  {
    ConcatLists(g1, g2, n);
    var g := h + g2;
    forall i: nat ensures i in g <==> i < n {
      assert i in g <==> i in h || i in g2;
      assert i in g1 + g2 <==> i in g1 || i in g2;
    }
    forall i, j | 0 <= i < j < |g| ensures g[i] != g[j] {
      if i < |h| <= j {
        assert g[i] in g1 && g[j] in g2;
      }
    }
  }

  lemma {:induction false} LcmOfMembers(l: nat, xs: seq<Entry>, ys: seq<Entry>)
    requires IsLcmOf(l, xs) && forall e :: e in ys <==> e in xs
    ensures IsLcmOf(l, ys)
  {
    forall m | AllInto(ys, m) ensures Divides(l, m) {
      assert AllInto(xs, m);
    }
  }

  lemma {:induction false} MembersOfBoth(es: seq<Entry>, A: seq<Entry>, B: seq<Entry>)
    requires multiset(A + B) == multiset(es)
    ensures multiset(A) + multiset(B) == multiset(es)
    ensures forall e :: e in es <==> e in A || e in B
  {
    forall e ensures e in es <==> e in A || e in B {
      assert e in es <==> e in multiset(es);
      assert e in A + B <==> e in multiset(A + B);
    }
  }

  // ---------- the stored states of a split ----------

  function SiblingId(s: Interval): NodeId {
    Named(s.level, SiblingPart(s).ln, SiblingPart(s).ld)
  }

  /** Entries with the signature under one key replaced. */
  function Relinked(es: seq<Entry>, key: Key, sig: Vec): (r: seq<Entry>)
    ensures |r| == |es|
    ensures forall i :: 0 <= i < |es| ==> r[i] == if es[i].key == key then Entry(key, sig) else es[i]
  {
    if es == [] then []
    else Relinked(es[..|es| - 1], key, sig)
         + [if es[|es| - 1].key == key then Entry(key, sig) else es[|es| - 1]]
  }

  /** A stored state during the split of id: the entries of id, its parent p and
      the new sibling; everything else is as before. */
  ghost predicate Stage(db: Db, db': Db, id: NodeId, p: NodeId, ids: seq<Entry>, ps: seq<Entry>, sibs: seq<Entry>)
    requires id in db && p in db
  {
    var sib := SiblingId(db[id].span);
    && sib !in db && p != id && db'.Keys == db.Keys + {sib}
    && db'[sib] == Node(db[id].kind, SiblingPart(db[id].span), sibs)
    && db'[id].kind == db[id].kind && db'[id].entries == ids
    && db'[p] == db[p].(entries := ps)
    && forall x :: x in db && x != id && x != p ==> db'[x] == db[x]
  }

  /** The parent's entries when it links both parts. */
  function BothLinked(es: seq<Entry>, id: NodeId, a: Vec, sib: NodeId, b: Vec): seq<Entry> {
    Relinked(es, NodeKey(id), a) + [Entry(NodeKey(sib), b)]
  }

  // ---------- what every intermediate state keeps ----------

  /** Node c holds e, and p links c with a multiple of e's signature. */
  ghost predicate Held(db: Db, p: NodeId, c: NodeId, e: Entry) {
    c in db && p in db && e in db[c].entries && exists s ::
      s in db[p].entries && s.key == NodeKey(c) && Into(e, Val(s.sig))
  }

  /** Every entry of id is held by id or by its sibling; all else is as before. */
  ghost predicate Carried(db: Db, db': Db, id: NodeId, p: NodeId, sib: NodeId)
    requires id in db && p in db
  {
    && (forall x :: x in db ==> x in db' && db'[x].kind == db[x].kind)
    && (forall x :: x in db && x != id && x != p ==> db'[x].entries == db[x].entries)
    && (forall e :: e in db[p].entries && e.key != NodeKey(id) ==> e in db'[p].entries)
    && (sib in db' ==> db'[sib].kind == db[id].kind)
    && (forall e :: e in db[id].entries ==> Held(db', p, id, e) || Held(db', p, sib, e))
  }

  /** Whatever a search could reach from the root it still can. */
  ghost predicate KeepsFound(db: Db, db': Db) {
    RootNode in db && forall d :: Found(db, RootNode, Top(db), d) ==> Found(db', RootNode, Top(db), d)
  }

  predicate LinkedFrom(db: Db, id: NodeId, p: NodeId) {
    id in db && p in db && HasKey(db[p].entries, NodeKey(id))
  }

  /** Documents found below nodes of level n, other than id, are still found. */
  ghost predicate Survives(db: Db, db': Db, id: NodeId, n: nat) {
    forall x, d :: x in db && x != id && db[x].span.level == n && Found(db, x, n, d) ==> Found(db', x, n, d)
  }

  /** The links of x lead to nodes of level n other than id. */
  predicate LinksTo(db: Db, x: NodeId, id: NodeId, n: nat)
    requires x in db
  {
    forall e :: e in db[x].entries ==>
      e.key.NodeKey? && e.key.id in db && e.key.id != id && db[e.key.id].span.level == n
  }

  /** Through a node whose entries are as before. */
  lemma {:induction false} FoundSame(db: Db, db': Db, id: NodeId, x: NodeId, n: nat, d: Entry)
    requires x in db && x in db' && db'[x].kind == db[x].kind && db'[x].entries == db[x].entries
    requires db[x].kind != Leaf ==> n > 0 && LinksTo(db, x, id, n - 1) && Survives(db, db', id, n - 1)
    requires Found(db, x, n, d)
    ensures Found(db', x, n, d)
  {
    if db[x].kind != Leaf {
      var e :| e in db[x].entries && FoundVia(db, e, n - 1, d);
      assert FoundVia(db', e, n - 1, d);
    }
  }

  /** What id found, each of its entries still finds. */
  lemma {:induction false} FoundEntry(db: Db, db': Db, id: NodeId, n: nat, d: Entry) returns (f: Entry)
    requires id in db && Found(db, id, n, d)
    requires db[id].kind != Leaf ==> n > 0 && LinksTo(db, id, id, n - 1) && Survives(db, db', id, n - 1)
    ensures f in db[id].entries && Into(d, Val(f.sig))
    ensures if db[id].kind == Leaf then f == d else n > 0 && FoundVia(db', f, n - 1, d)
  {
    if db[id].kind == Leaf {
      f := d;
      DividesSelf(Val(d.sig));
    } else {
      f :| f in db[id].entries && FoundVia(db, f, n - 1, d);
    }
  }

  /** Through the parent, by way of the node that now holds the entry. */
  lemma {:induction false} FoundHeld(db': Db, leaf: bool, p: NodeId, c: NodeId, n: nat, f: Entry, d: Entry)
    requires Held(db', p, c, f) && Into(d, Val(f.sig)) && db'[p].kind != Leaf && (db'[c].kind == Leaf <==> leaf)
    requires if leaf then f == d else n > 0 && FoundVia(db', f, n - 1, d)
    ensures Found(db', p, n + 1, d)
  {
    var s :| s in db'[p].entries && s.key == NodeKey(c) && Into(f, Val(s.sig));
    DividesTrans(Val(d.sig), Val(f.sig), Val(s.sig));
    assert Found(db', c, n, d);
    assert FoundVia(db', s, n, d);
  }

  /** The parent's other links. */
  lemma {:induction false} FoundBeside(db: Db, db': Db, id: NodeId, p: NodeId, n: nat, e: Entry, d: Entry)
    requires p in db && p in db' && db'[p].kind != Leaf && Survives(db, db', id, n)
    requires e in db'[p].entries && e.key.NodeKey? && e.key.id in db && e.key.id != id && db[e.key.id].span.level == n
    requires FoundVia(db, e, n, d)
    ensures Found(db', p, n + 1, d)
  {
    assert FoundVia(db', e, n, d);
  }

  ghost predicate OnlyParent(db: Db, id: NodeId, p: NodeId) {
    && id in db && p in db && db[p].span.level == db[id].span.level + 1 && db[p].kind != Leaf
    && forall x :: x in db && HasKey(db[x].entries, NodeKey(id)) ==> x == p
  }

  lemma {:induction false} ParentIsOnly(db: Db, id: NodeId, p: NodeId)
    requires LinkedFrom(db, id, p) && Linked(db) && Single(db)
    ensures OnlyParent(db, id, p)
  {
    var s :| s in db[p].entries && s.key == NodeKey(id);
    assert LinkOk(db, p, s);
  }

  lemma {:induction false} LinksLead(db: Db, id: NodeId, p: NodeId, x: NodeId)
    requires Linked(db) && OnlyParent(db, id, p) && x in db && x != p && db[x].kind != Leaf
    ensures db[x].span.level > 0 && LinksTo(db, x, id, db[x].span.level - 1)
  {
    forall e | e in db[x].entries ensures e.key.NodeKey? && e.key.id in db && e.key.id != id
      && db[e.key.id].span.level == db[x].span.level - 1 {
      assert LinkOk(db, x, e);
      assert HasKey(db[x].entries, e.key);
    }
  }

  lemma {:induction false} CarriedParent(db: Db, db': Db, id: NodeId, p: NodeId, sib: NodeId, d: Entry)
    requires Linked(db) && OnlyParent(db, id, p) && Carried(db, db', id, p, sib)
    requires Survives(db, db', id, db[id].span.level)
    requires db[id].kind != Leaf ==> Survives(db, db', id, db[id].span.level - 1)
    requires Found(db, p, db[p].span.level, d)
    ensures Found(db', p, db[p].span.level, d)
  {
    var n := db[id].span.level;
    var e :| e in db[p].entries && FoundVia(db, e, n, d);
    assert LinkOk(db, p, e);
    if e.key.id != id {
      FoundBeside(db, db', id, p, n, e, d);
    } else {
      if db[id].kind != Leaf {
        LinksLead(db, id, p, id);
      }
      var f := FoundEntry(db, db', id, n, d);
      var c := if Held(db', p, id, f) then id else sib;
      FoundHeld(db', db[id].kind == Leaf, p, c, n, f, d);
    }
  }

  lemma {:induction false} CarriedLevel(db: Db, db': Db, id: NodeId, p: NodeId, sib: NodeId, n: nat)
    requires Linked(db) && OnlyParent(db, id, p) && Carried(db, db', id, p, sib)
    ensures Survives(db, db', id, n) && (n > 0 ==> Survives(db, db', id, n - 1))
  {
    if n > 0 {
      CarriedLevel(db, db', id, p, sib, n - 1);
    }
    forall x, d | x in db && x != id && db[x].span.level == n && Found(db, x, n, d) ensures Found(db', x, n, d) {
      if x == p {
        CarriedParent(db, db', id, p, sib, d);
      } else {
        if db[x].kind != Leaf {
          LinksLead(db, id, p, x);
        }
        FoundSame(db, db', id, x, n, d);
      }
    }
  }

  // ---------- the states of a split, one after the other ----------

  /** Before the parent's signature for id is replaced. */
  lemma {:induction false} CarriedEarly(db: Db, db': Db, id: NodeId, p: NodeId, more: seq<Entry>, sibs: seq<Entry>)
    requires LinkedFrom(db, id, p) && Covered(db)
    requires Stage(db, db', id, p, db[id].entries, db[p].entries + more, sibs)
    ensures Carried(db, db', id, p, SiblingId(db[id].span))
  {
    var s :| s in db[p].entries && s.key == NodeKey(id);
    assert s in db'[p].entries;
    forall e | e in db[id].entries ensures Held(db', p, id, e) {
      assert Into(e, Val(s.sig));
    }
  }

  lemma {:induction false} LinksOfBoth(es: seq<Entry>, id: NodeId, a: Vec, sib: NodeId, b: Vec)
    requires HasKey(es, NodeKey(id))
    ensures Entry(NodeKey(id), a) in BothLinked(es, id, a, sib, b)
            && Entry(NodeKey(sib), b) in BothLinked(es, id, a, sib, b)
    ensures forall e :: e in es && e.key != NodeKey(id) ==> e in BothLinked(es, id, a, sib, b)
    ensures forall e :: e in BothLinked(es, id, a, sib, b) ==>
              e == Entry(NodeKey(id), a) || e == Entry(NodeKey(sib), b) || (e in es && e.key != NodeKey(id))
  {
    var r := Relinked(es, NodeKey(id), a);
    var t := BothLinked(es, id, a, sib, b);
    assert t[|es|] == Entry(NodeKey(sib), b);
    forall i | 0 <= i < |es| ensures r[i] in t {
      assert t[i] == r[i];
    }
    var s :| s in es && s.key == NodeKey(id);
    var i :| 0 <= i < |es| && es[i] == s;
    assert r[i] == Entry(NodeKey(id), a);
    forall e | e in es && e.key != NodeKey(id) ensures e in t {
      var j :| 0 <= j < |es| && es[j] == e;
      assert r[j] == e;
    }
  }

  /** Once it is replaced, whether or not id still holds what has moved. */
  lemma {:induction false} CarriedLate(db: Db, db': Db, id: NodeId, p: NodeId, ids: seq<Entry>,
                                       A: seq<Entry>, B: seq<Entry>, a: Vec, b: Vec)
    requires LinkedFrom(db, id, p) && Shared(db[id].entries, A, B, a, b)
    requires forall e :: e in A ==> e in ids
    requires Stage(db, db', id, p, ids, BothLinked(db[p].entries, id, a, SiblingId(db[id].span), b), B)
    ensures Carried(db, db', id, p, SiblingId(db[id].span))
  {
    var sib := SiblingId(db[id].span);
    LinksOfBoth(db[p].entries, id, a, sib, b);
    forall e | e in db[id].entries ensures Held(db', p, id, e) || Held(db', p, sib, e) {
      if e in A {
        assert Into(e, Val(a));
      } else {
        assert Into(e, Val(b));
      }
    }
  }

  lemma {:induction false} CarriedKeepsFound(db: Db, db': Db, id: NodeId, p: NodeId, sib: NodeId)
    requires RootNode in db && id != RootNode && LinkedFrom(db, id, p) && Linked(db) && Single(db)
    requires Carried(db, db', id, p, sib)
    ensures KeepsFound(db, db')
  {
    ParentIsOnly(db, id, p);
    CarriedLevel(db, db', id, p, sib, Top(db));
  }

  // ---------- no document is lost or doubled ----------

  ghost predicate SameDocs(db: Db, db': Db, id: NodeId, n: nat) {
    forall x :: x in db && x != id && db[x].span.level == n ==> Docs(db', x, n) == Docs(db, x, n)
  }

  /** Links that lead to nodes of level n - 1 whose documents are the same. */
  lemma {:induction false} SumThroughLinks(db: Db, db': Db, id: NodeId, es: seq<Entry>, n: nat)
    requires n > 0 && SameDocs(db, db', id, n - 1)
    requires forall e :: e in es ==>
               e.key.NodeKey? && e.key.id in db && e.key.id != id && db[e.key.id].span.level == n - 1
    ensures SumOf(db', false, es, n) == SumOf(db, false, es, n)
  {
    forall i | 0 <= i < |es| ensures One(db, false, es[i], n) == One(db', false, es[i], n) {
      assert es[i] in es;
    }
    SumSame(db, db', false, es, es, n);
  }

  lemma {:induction false} DocsThrough(db: Db, db': Db, id: NodeId, x: NodeId, n: nat)
    requires x in db && x in db' && db'[x].kind == db[x].kind && db'[x].entries == db[x].entries
    requires db[x].kind != Leaf ==> n > 0 && LinksTo(db, x, id, n - 1) && SameDocs(db, db', id, n - 1)
    ensures Docs(db', x, n) == Docs(db, x, n)
  {
    var es := db[x].entries;
    if db[x].kind == Leaf {
      LeafSum(db, db', es, n);
    } else {
      SumThroughLinks(db, db', id, es, n);
    }
  }

  lemma {:induction false} LeafSum(db: Db, db': Db, es: seq<Entry>, n: nat)
    ensures SumOf(db', true, es, n) == SumOf(db, true, es, n)
  {
    SumSame(db, db', true, es, es, n);
  }

  /** The two parts hold together what the node held. */
  lemma {:induction false} DocsOfParts(db: Db, db': Db, id: NodeId, sib: NodeId, n: nat)
    requires id in db && id in db' && sib in db' && db'[id].kind == db'[sib].kind == db[id].kind
    requires multiset(db'[id].entries) + multiset(db'[sib].entries) == multiset(db[id].entries)
    requires db[id].kind != Leaf ==> n > 0 && LinksTo(db, id, id, n - 1) && SameDocs(db, db', id, n - 1)
    ensures Docs(db', id, n) + Docs(db', sib, n) == Docs(db, id, n)
  {
    var leaf, A, B, es := db[id].kind == Leaf, db'[id].entries, db'[sib].entries, db[id].entries;
    SumAppend(db', leaf, A, B, n);
    SumPermuted(db', leaf, A + B, es, n);
    if leaf {
      LeafSum(db, db', es, n);
    } else {
      SumThroughLinks(db, db', id, es, n);
    }
  }

  /** The links beside the one to id are the same before and after. */
  lemma {:induction false} OtherLinks(es: seq<Entry>, id: NodeId, a: Vec) returns (i: nat, rest: seq<Entry>)
    requires HasKey(es, NodeKey(id)) && Distinct(es)
    ensures i < |es| && es[i].key == NodeKey(id) && rest == es[..i] + es[i + 1..]
    ensures Relinked(es, NodeKey(id), a)[i] == Entry(NodeKey(id), a)
    ensures Relinked(es, NodeKey(id), a)[..i] + Relinked(es, NodeKey(id), a)[i + 1..] == rest
    ensures forall e :: e in rest ==> e in es && e.key != NodeKey(id)
  {
    var r := Relinked(es, NodeKey(id), a);
    var s :| s in es && s.key == NodeKey(id);
    i :| 0 <= i < |es| && es[i] == s;
    rest := es[..i] + es[i + 1..];
    forall j | 0 <= j < |rest| ensures rest[j] == (r[..i] + r[i + 1..])[j] && rest[j] in es
      && rest[j].key != NodeKey(id) {
      var k := if j < i then j else j + 1;
      assert rest[j] == es[k] && es[k].key != es[i].key;
    }
  }

  lemma {:induction false} TakeLink(db: Db, db': Db, es: seq<Entry>, id: NodeId, a: Vec, n: nat)
    returns (rest: seq<Entry>)
    requires n > 0 && HasKey(es, NodeKey(id)) && Distinct(es)
    ensures SumOf(db, false, es, n) == Docs(db, id, n - 1) + SumOf(db, false, rest, n)
    ensures SumOf(db', false, Relinked(es, NodeKey(id), a), n) == Docs(db', id, n - 1) + SumOf(db', false, rest, n)
    ensures forall e :: e in rest ==> e in es && e.key != NodeKey(id)
  {
    var i;
    i, rest := OtherLinks(es, id, a);
    SumTake(db, false, es, i, n);
    SumTake(db', false, Relinked(es, NodeKey(id), a), i, n);
  }

  /** The parent's sum when one link has become two. */
  lemma {:induction false} DocsOfParent(db: Db, db': Db, id: NodeId, p: NodeId, a: Vec, sib: NodeId, b: Vec, n: nat)
    requires p in db && p in db' && n > 0 && db[p].kind == db'[p].kind != Leaf
    requires HasKey(db[p].entries, NodeKey(id)) && Distinct(db[p].entries)
    requires forall e :: e in db[p].entries ==> e.key.NodeKey? && e.key.id in db && db[e.key.id].span.level + 1 == n
    requires db'[p].entries == BothLinked(db[p].entries, id, a, sib, b)
    requires SameDocs(db, db', id, n - 1) && Docs(db', id, n - 1) + Docs(db', sib, n - 1) == Docs(db, id, n - 1)
    ensures Docs(db', p, n) == Docs(db, p, n)
  {
    var rest := TakeLink(db, db', db[p].entries, id, a, n);
    SumThroughLinks(db, db', id, rest, n);
    SumAppend(db', false, Relinked(db[p].entries, NodeKey(id), a), [Entry(NodeKey(sib), b)], n);
    SumOne(db', false, Entry(NodeKey(sib), b), n);
  }

  /** The entries of id are shared between id and sib, and p links both. */
  ghost predicate Parted(db: Db, db': Db, id: NodeId, p: NodeId, a: Vec, sib: NodeId, b: Vec)
    requires id in db && p in db
  {
    && (forall x :: x in db ==> x in db' && db'[x].kind == db[x].kind)
    && (forall x :: x in db && x != id && x != p ==> db'[x].entries == db[x].entries)
    && Distinct(db[p].entries) && HasKey(db[p].entries, NodeKey(id))
    && db'[p].entries == BothLinked(db[p].entries, id, a, sib, b)
    && sib in db' && db'[sib].kind == db[id].kind
    && multiset(db'[id].entries) + multiset(db'[sib].entries) == multiset(db[id].entries)
  }

  lemma {:induction false} DocsLevel(db: Db, db': Db, id: NodeId, p: NodeId, a: Vec, sib: NodeId, b: Vec, n: nat)
    requires Linked(db) && OnlyParent(db, id, p) && Parted(db, db', id, p, a, sib, b)
    ensures SameDocs(db, db', id, n) && (n > 0 ==> SameDocs(db, db', id, n - 1))
  {
    if n > 0 {
      DocsLevel(db, db', id, p, a, sib, b, n - 1);
    }
    forall x | x in db && x != id && db[x].span.level == n ensures Docs(db', x, n) == Docs(db, x, n) {
      if x == p {
        DocsAtParent(db, db', id, p, a, sib, b);
      } else {
        DocsElsewhere(db, db', id, p, a, sib, b, x);
      }
    }
  }

  lemma {:induction false} DocsElsewhere(db: Db, db': Db, id: NodeId, p: NodeId, a: Vec, sib: NodeId, b: Vec, x: NodeId)
    requires Linked(db) && OnlyParent(db, id, p) && Parted(db, db', id, p, a, sib, b)
    requires x in db && x != id && x != p
    requires db[x].span.level > 0 ==> SameDocs(db, db', id, db[x].span.level - 1)
    ensures Docs(db', x, db[x].span.level) == Docs(db, x, db[x].span.level)
  {
    if db[x].kind != Leaf {
      LinksLead(db, id, p, x);
    }
    DocsThrough(db, db', id, x, db[x].span.level);
  }

  lemma {:induction false} DocsAtParent(db: Db, db': Db, id: NodeId, p: NodeId, a: Vec, sib: NodeId, b: Vec)
    requires Linked(db) && OnlyParent(db, id, p) && Parted(db, db', id, p, a, sib, b)
    requires SameDocs(db, db', id, db[id].span.level)
    requires db[id].kind != Leaf ==> db[id].span.level > 0 && SameDocs(db, db', id, db[id].span.level - 1)
    ensures Docs(db', p, db[p].span.level) == Docs(db, p, db[p].span.level)
  {
    PartsTogether(db, db', id, p, a, sib, b);
    LinksOfParent(db, p);
    DocsOfParent(db, db', id, p, a, sib, b, db[id].span.level + 1);
  }

  lemma {:induction false} PartsTogether(db: Db, db': Db, id: NodeId, p: NodeId, a: Vec, sib: NodeId, b: Vec)
    requires Linked(db) && OnlyParent(db, id, p) && Parted(db, db', id, p, a, sib, b)
    requires db[id].kind != Leaf ==> db[id].span.level > 0 && SameDocs(db, db', id, db[id].span.level - 1)
    ensures Docs(db', id, db[id].span.level) + Docs(db', sib, db[id].span.level) == Docs(db, id, db[id].span.level)
  {
    if db[id].kind != Leaf {
      LinksLead(db, id, p, id);
    }
    DocsOfParts(db, db', id, sib, db[id].span.level);
  }

  lemma {:induction false} LinksOfParent(db: Db, p: NodeId)
    requires Linked(db) && p in db && db[p].kind != Leaf
    ensures forall e :: e in db[p].entries ==>
              e.key.NodeKey? && e.key.id in db && db[e.key.id].span.level + 1 == db[p].span.level
  {
    forall e | e in db[p].entries ensures LinkOk(db, p, e) {
    }
  }
}
