/** The signature index (tools/gis_chordID.C): its nodes, what its documents are,
    and the invariants its operations keep. */
module SignatureSpec {
  import opened PolyDivides
  import opened PolyBits
  import opened SternBrocot

  /** A node with more than MAXENTRIES elements, the header counted, is full. */
  const MAXENTRIES := 500

  datatype Kind = Leaf | NonLeaf | Root

  /** Nodes are stored under the hash of "level.ln.ld"; here the name itself. */
  datatype NodeId = RootNode | Named(level: nat, ln: nat, ld: nat)

  datatype Key = DocKey(docid: int) | NodeKey(id: NodeId)

  datatype Entry = Entry(key: Key, sig: Vec)

  /** The header, which is element 0 of the stored vector, and the rest of it. */
  datatype Node = Node(kind: Kind, span: Interval, entries: seq<Entry>)

  type Db = map<NodeId, Node>

  predicate Full(node: Node) {
    |node.entries| + 1 > MAXENTRIES
  }

  ghost predicate IsSig(v: Vec) {
    Normal(v) && Val(v) > 0
  }

  /** The signature of e divides the polynomial a. */
  ghost predicate Into(e: Entry, a: nat) {
    Divides(Val(e.sig), a)
  }

  ghost predicate AllInto(es: seq<Entry>, a: nat) {
    forall e :: e in es ==> Into(e, a)
  }

  /** l is the least common multiple of the signatures of es. */
  ghost predicate IsLcmOf(l: nat, es: seq<Entry>) {
    AllInto(es, l) && forall m :: AllInto(es, m) ==> Divides(l, m)
  }

  // ---------- the documents of a tree ----------

  /** All documents at or below a node, each as often as it is reached. */
  ghost function Docs(db: Db, id: NodeId, n: nat): multiset<Entry>
    decreases n, 1, 0
  {
    if id in db then SumOf(db, db[id].kind == Leaf, db[id].entries, n) else multiset{}
  }

  ghost function SumOf(db: Db, leaf: bool, es: seq<Entry>, n: nat): multiset<Entry>
    decreases n, 0, |es| + 1
  {
    if es == [] then multiset{} else One(db, leaf, es[0], n) + SumOf(db, leaf, es[1..], n)
  }

  ghost function One(db: Db, leaf: bool, e: Entry, n: nat): multiset<Entry>
    decreases n, 0, 0
  {
    if leaf then multiset{e}
    else if n == 0 || e.key.DocKey? then multiset{}
    else Docs(db, e.key.id, n - 1)
  }

  /** A pruned search can reach document d: on some path down from id every
      entry's signature is a multiple of the document's. */
  ghost predicate Found(db: Db, id: NodeId, n: nat, d: Entry)
    decreases n
  {
    && id in db
    && if db[id].kind == Leaf then d in db[id].entries
       else n > 0 && exists e :: e in db[id].entries && FoundVia(db, e, n - 1, d)
  }

  ghost predicate FoundVia(db: Db, e: Entry, n: nat, d: Entry)
    decreases n + 1, 0
  {
    e.key.NodeKey? && Into(d, Val(e.sig)) && Found(db, e.key.id, n, d)
  }

  lemma {:induction false} SumAppend(db: Db, leaf: bool, a: seq<Entry>, b: seq<Entry>, n: nat)
    ensures SumOf(db, leaf, a + b, n) == SumOf(db, leaf, a, n) + SumOf(db, leaf, b, n)
  {
    if a == [] {
      assert a + b == b;
    } else {
      assert (a + b)[1..] == a[1..] + b;
      SumAppend(db, leaf, a[1..], b, n);
    }
  }

  lemma {:induction false} SumOne(db: Db, leaf: bool, e: Entry, n: nat)
    ensures SumOf(db, leaf, [e], n) == One(db, leaf, e, n)
  {
    assert SumOf(db, leaf, [e][1..], n) == multiset{};
  }

  lemma {:induction false} SumTake(db: Db, leaf: bool, es: seq<Entry>, i: nat, n: nat)
    requires i < |es|
    ensures SumOf(db, leaf, es, n) == One(db, leaf, es[i], n) + SumOf(db, leaf, es[..i] + es[i + 1..], n)
  {
    assert es == es[..i] + ([es[i]] + es[i + 1..]);
    SumAppend(db, leaf, es[..i], [es[i]] + es[i + 1..], n);
    SumAppend(db, leaf, [es[i]], es[i + 1..], n);
    SumAppend(db, leaf, es[..i], es[i + 1..], n);
    SumOne(db, leaf, es[i], n);
  }

  lemma {:induction false} TakeOut(db: Db, leaf: bool, es: seq<Entry>, e: Entry, n: nat) returns (rest: seq<Entry>)
    requires e in es
    ensures |rest| == |es| - 1 && multiset(rest) == multiset(es) - multiset{e}
    ensures SumOf(db, leaf, es, n) == One(db, leaf, e, n) + SumOf(db, leaf, rest, n)
  {
    var i :| 0 <= i < |es| && es[i] == e;
    rest := es[..i] + es[i + 1..];
    assert es == es[..i] + [es[i]] + es[i + 1..];
    SumTake(db, leaf, es, i, n);
  }

  /** The order of the entries does not matter. */
  lemma {:induction false} SumPermuted(db: Db, leaf: bool, a: seq<Entry>, b: seq<Entry>, n: nat)
    requires multiset(a) == multiset(b)
    ensures SumOf(db, leaf, a, n) == SumOf(db, leaf, b, n)
    decreases |a|
  {
    if a == [] {
      assert |b| == |multiset(b)|;
    } else {
      var e := a[0];
      assert e in multiset(b);
      var a' := TakeOut(db, leaf, a, e, n);
      var b' := TakeOut(db, leaf, b, e, n);
      SumPermuted(db, leaf, a', b', n);
    }
  }

  lemma {:induction false} SumSame(db: Db, db': Db, leaf: bool, es: seq<Entry>, es': seq<Entry>, n: nat)
    requires |es| == |es'|
    requires forall i :: 0 <= i < |es| ==> One(db, leaf, es[i], n) == One(db', leaf, es'[i], n)
    ensures SumOf(db, leaf, es, n) == SumOf(db', leaf, es', n)
    decreases |es|
  {
    if es != [] {
      assert forall i :: 0 <= i < |es| - 1 ==> es[1..][i] == es[i + 1] && es'[1..][i] == es'[i + 1];
      SumSame(db, db', leaf, es[1..], es'[1..], n);
    }
  }

  /** What is in the sum is in one of its parts. */
  lemma {:induction false} SumMember(db: Db, leaf: bool, es: seq<Entry>, n: nat, d: Entry) returns (e: Entry)
    requires d in SumOf(db, leaf, es, n)
    ensures e in es && d in One(db, leaf, e, n)
    decreases |es|
  {
    if d in One(db, leaf, es[0], n) {
      e := es[0];
    } else {
      e := SumMember(db, leaf, es[1..], n, d);
    }
  }

  /** The documents of a leaf are its entries. */
  lemma {:induction false} LeafDocs(db: Db, es: seq<Entry>, n: nat)
    ensures SumOf(db, true, es, n) == multiset(es)
  {
    if es != [] {
      LeafDocs(db, es[1..], n);
      assert es == [es[0]] + es[1..];
    }
  }

  // ---------- invariants ----------

  predicate Distinct(es: seq<Entry>) {
    forall i, j :: 0 <= i < j < |es| ==> es[i].key != es[j].key
  }

  predicate HasKey(es: seq<Entry>, key: Key) {
    exists e :: e in es && e.key == key
  }

  predicate HeaderOk(id: NodeId, node: Node, top: nat) {
    if id == RootNode then node.kind == Root && node.span.level == top > 0
    else
      && node.span.level < top
      && id == Named(node.span.level, node.span.ln, node.span.ld)
      && node.kind == (if node.span.level == 0 then Leaf else NonLeaf)
  }

  predicate LinkOk(db: Db, id: NodeId, e: Entry)
    requires id in db
  {
    if db[id].kind == Leaf then e.key.DocKey?
    else
      && e.key.NodeKey? && e.key.id in db && e.key.id != RootNode
      && db[e.key.id].span.level + 1 == db[id].span.level
  }

  function Top(db: Db): nat
    requires RootNode in db
  {
    db[RootNode].span.level
  }

  /** The intervals of every level tile [0, 1), and name their nodes. */
  ghost predicate Tiled(db: Db) {
    && RootNode in db
    && (forall id :: id in db ==> HeaderOk(id, db[id], Top(db)))
    && (forall id :: id in db && id != RootNode ==> Unimodular(db[id].span))
    && (forall a, b :: a in db && b in db && a != b && SameLevel(db, a, b) ==> Apart(db[a].span, db[b].span))
    && (forall k: nat, x: nat, y: nat :: k < Top(db) && x < y ==> SomeSpan(db, k, x, y))
  }

  predicate SameLevel(db: Db, a: NodeId, b: NodeId)
    requires a in db && b in db
  {
    a != RootNode && b != RootNode && db[a].span.level == db[b].span.level
  }

  ghost predicate SomeSpan(db: Db, k: nat, x: nat, y: nat) {
    exists id :: id in db && id != RootNode && db[id].span.level == k && InSpan(x, y, db[id].span)
  }

  ghost predicate SigsOk(db: Db) {
    forall id, e :: id in db && e in db[id].entries ==> IsSig(e.sig)
  }

  /** Leaves hold documents, other nodes hold links one level down. */
  ghost predicate Linked(db: Db) {
    && (forall id :: id in db ==> (db[id].kind == Leaf <==> db[id].span.level == 0))
    && (forall id, e :: id in db && e in db[id].entries ==> LinkOk(db, id, e))
  }

  /** No document is twice in a leaf, and no node is linked twice. */
  ghost predicate Single(db: Db) {
    && (forall id :: id in db ==> Distinct(db[id].entries))
    && (forall a, b, id ::
          (a in db && b in db && HasKey(db[a].entries, NodeKey(id)) && HasKey(db[b].entries, NodeKey(id))) ==> a == b)
  }

  /** No inner node is empty. */
  ghost predicate Fed(db: Db) {
    forall id :: id in db && db[id].kind != Leaf ==> db[id].entries != []
  }

  /** Every entry's signature is a multiple of all signatures in its child. */
  ghost predicate Covered(db: Db) {
    forall id, e ::
      (id in db && e in db[id].entries && e.key.NodeKey? && e.key.id in db)
      ==> AllInto(db[e.key.id].entries, Val(e.sig))
  }

  ghost predicate Sound(db: Db) {
    Tiled(db) && SigsOk(db) && Linked(db) && Single(db) && Fed(db) && Covered(db)
  }

  /** Below a link everything divides the link's signature. */
  lemma {:induction false} BelowDivides(db: Db, id: NodeId, n: nat, a: nat, d: Entry)
    requires Covered(db) && id in db && AllInto(db[id].entries, a) && d in Docs(db, id, n)
    ensures Into(d, a)
    decreases n
  {
    var leaf := db[id].kind == Leaf;
    var e := SumMember(db, leaf, db[id].entries, n, d);
    if !leaf {
      BelowDivides(db, e.key.id, n - 1, Val(e.sig), d);
      DividesTrans(Val(d.sig), Val(e.sig), a);
    }
  }

  /** In a covered tree a pruned search can reach every document. */
  lemma {:induction false} CoveredIsFound(db: Db, id: NodeId, n: nat, d: Entry)
    requires Covered(db) && id in db && d in Docs(db, id, n)
    ensures Found(db, id, n, d)
    decreases n
  {
    var leaf := db[id].kind == Leaf;
    var e := SumMember(db, leaf, db[id].entries, n, d);
    if !leaf {
      CoveredIsFound(db, e.key.id, n - 1, d);
      BelowDivides(db, e.key.id, n - 1, Val(e.sig), d);
      assert FoundVia(db, e, n - 1, d);
    }
  }

  /** And whatever it can reach is a document of the tree. */
  lemma {:induction false} FoundIsDoc(db: Db, id: NodeId, n: nat, d: Entry)
    requires Found(db, id, n, d)
    ensures id in db && d in Docs(db, id, n)
    decreases n
  {
    var leaf := db[id].kind == Leaf;
    if leaf {
      SumHas(db, leaf, db[id].entries, n, d, d);
    } else {
      var e :| e in db[id].entries && FoundVia(db, e, n - 1, d);
      FoundIsDoc(db, e.key.id, n - 1, d);
      SumHas(db, leaf, db[id].entries, n, e, d);
    }
  }

  lemma {:induction false} SumHas(db: Db, leaf: bool, es: seq<Entry>, n: nat, e: Entry, d: Entry)
    requires e in es && d in One(db, leaf, e, n)
    ensures d in SumOf(db, leaf, es, n)
  {
    var i :| 0 <= i < |es| && es[i] == e;
    SumTake(db, leaf, es, i, n);
  }
}
