/** The on-disk image of the Merkle tree (merkle/merkle_tree_disk.h) and what it
    means for an image to hold a key set.

    A pointer is a block number with the block's kind in its low bit: odd for a
    leaf block, even for an index block.  Leaf and index blocks are numbered
    separately, so pointers name blocks uniquely.
 */
module DiskLayout {
  import opened Slots
  import opened MerkleSpec

  datatype LeafBlock = LeafBlock(count: nat, keys: seq<Key>)

  datatype IndexBlock = IndexBlock(count: nat, hashes: seq<Key>, pointers: seq<nat>)

  /** The leaf file and the internal file. */
  datatype Files = Files(leafs: map<nat, LeafBlock>, internals: map<nat, IndexBlock>)

  datatype Metadata = Metadata(root: nat, numLeafFree: nat, numInternalFree: nat,
                               nextLeaf: nat, nextInternal: nat)

  /** The index file: missing, or the metadata followed by the free list. */
  datatype IndexFile = Missing | Written(md: Metadata, freelist: seq<nat>)

  datatype Image = Image(files: Files, index: IndexFile)

  function Pointer(block: nat, leaf: bool): nat {
    2 * block + (if leaf then 1 else 0)
  }

  function Pointers(blocks: seq<nat>, leaf: bool): (r: seq<nat>)
    ensures |r| == |blocks|
  {
    seq(|blocks|, i requires 0 <= i < |blocks| => Pointer(blocks[i], leaf))
  }

  // ---------- which blocks exist ----------

  /** The pointers handed out so far: below the two counters. */
  ghost predicate Known(md: Metadata, p: nat) {
    p / 2 < if p % 2 == 1 then md.nextLeaf else md.nextInternal
  }

  /** Every known pointer once. */
  ghost function Universe(md: Metadata): multiset<nat> {
    multiset(set b | 0 <= b < md.nextLeaf :: Pointer(b, true))
    + multiset(set b | 0 <= b < md.nextInternal :: Pointer(b, false))
  }

  lemma {:induction false} UniverseIs(md: Metadata, p: nat)
    ensures Universe(md)[p] == if Known(md, p) then 1 else 0
  {
    var odd := set b | 0 <= b < md.nextLeaf :: Pointer(b, true);
    var even := set b | 0 <= b < md.nextInternal :: Pointer(b, false);
    assert p == Pointer(p / 2, p % 2 == 1);
    assert p in odd <==> p % 2 == 1 && p / 2 < md.nextLeaf;
    assert p in even <==> p % 2 == 0 && p / 2 < md.nextInternal;
  }

  // ---------- the tree on disk ----------

  /** The shape of a tree on disk: the pointer of each node. */
  datatype Layout = Layout(ptr: nat, kids: seq<Layout>)

  /** The pointers of a tree, with multiplicity. */
  ghost function Blocks(lay: Layout): multiset<nat> {
    multiset{lay.ptr} + BlocksOf(lay.kids)
  }

  ghost function BlocksOf(kids: seq<Layout>): multiset<nat> {
    if kids == [] then multiset{} else Blocks(kids[0]) + BlocksOf(kids[1..])
  }

  /** `f` holds, from pointer `lay.ptr` down, the tree of `keys` at depth `d`. */
  ghost predicate Holds(sha: Sha, f: Files, lay: Layout, keys: set<Key>, d: nat)
    decreases 27 - d
  {
    if IsIndex(keys, d) then
      && IndexAt(f, lay)
      && f.internals[lay.ptr / 2].count == |keys|
      && f.internals[lay.ptr / 2].hashes == ChildHashes(sha, keys, d)
      && forall i :: 0 <= i < 64 ==> Holds(sha, f, lay.kids[i], Sub(keys, d, i), d + 1)
    else
      && lay.kids == []
      && lay.ptr % 2 == 1 && lay.ptr / 2 in f.leafs
      && f.leafs[lay.ptr / 2] == LeafBlock(|keys|, Sorted(keys))
  }

  /** A pointer to a block that exists and is well formed. */
  ghost predicate Readable(f: Files, p: nat) {
    if p % 2 == 1 then
      p / 2 in f.leafs && f.leafs[p / 2].count <= LEAF_MAX
    else
      p / 2 in f.internals && |f.internals[p / 2].hashes| == 64 && |f.internals[p / 2].pointers| == 64
  }

  ghost predicate IndexAt(f: Files, lay: Layout) {
    && |lay.kids| == 64
    && lay.ptr % 2 == 0 && lay.ptr / 2 in f.internals
    && f.internals[lay.ptr / 2].pointers == Roots(lay.kids)
  }

  ghost function Roots(kids: seq<Layout>): (r: seq<nat>)
    ensures |r| == |kids|
  {
    seq(|kids|, i requires 0 <= i < |kids| => kids[i].ptr)
  }

  /** The index file commits to the tree of `keys`, and the free list holds
      exactly the known blocks that the tree does not use, each once. */
  ghost predicate Commits(sha: Sha, img: Image, lay: Layout, keys: set<Key>) {
    && img.index.Written?
    && lay.ptr == img.index.md.root
    && Holds(sha, img.files, lay, keys, 0)
    && Blocks(lay) + multiset(img.index.freelist) == Universe(img.index.md)
    && img.index.md.numLeafFree == |OddHalves(img.index.freelist)|
    && img.index.md.numInternalFree == |EvenHalves(img.index.freelist)|
  }

  /** What a reader that opens the image sees. */
  ghost predicate Decodes(sha: Sha, img: Image, keys: set<Key>) {
    exists lay :: Commits(sha, img, lay, keys)
  }

  // ---------- free list encoding ----------

  function OddHalves(ptrs: seq<nat>): seq<nat> {
    if ptrs == [] then []
    else OddHalves(ptrs[..|ptrs| - 1])
         + (if ptrs[|ptrs| - 1] % 2 == 1 then [ptrs[|ptrs| - 1] / 2] else [])
  }

  function EvenHalves(ptrs: seq<nat>): seq<nat> {
    if ptrs == [] then []
    else EvenHalves(ptrs[..|ptrs| - 1])
         + (if ptrs[|ptrs| - 1] % 2 == 0 then [ptrs[|ptrs| - 1] / 2] else [])
  }

  lemma {:induction false} PointersAppend(a: seq<nat>, x: nat, leaf: bool)
    ensures Pointers(a + [x], leaf) == Pointers(a, leaf) + [Pointer(x, leaf)]
  {
  }

  lemma {:induction false} PointersLast(a: seq<nat>, leaf: bool)
    requires a != []
    ensures multiset(Pointers(a, leaf))
            == multiset(Pointers(a[..|a| - 1], leaf)) + multiset{Pointer(a[|a| - 1], leaf)}
  {
    assert a == a[..|a| - 1] + [a[|a| - 1]];
    PointersAppend(a[..|a| - 1], a[|a| - 1], leaf);
  }

  /** Reading a free list back splits it by kind and loses nothing. */
  lemma {:induction false} HalvesConserve(ptrs: seq<nat>)
    ensures multiset(Pointers(OddHalves(ptrs), true)) + multiset(Pointers(EvenHalves(ptrs), false))
            == multiset(ptrs)
  {
    if ptrs != [] {
      var init, x := ptrs[..|ptrs| - 1], ptrs[|ptrs| - 1];
      HalvesConserve(init);
      assert ptrs == init + [x];
      assert Pointer(x / 2, x % 2 == 1) == x;
      if x % 2 == 1 {
        PointersAppend(OddHalves(init), x / 2, true);
        assert EvenHalves(ptrs) == EvenHalves(init);
      } else {
        PointersAppend(EvenHalves(init), x / 2, false);
        assert OddHalves(ptrs) == OddHalves(init);
      }
    }
  }

  lemma {:induction false} HalvesConcat(a: seq<nat>, b: seq<nat>)
    ensures OddHalves(a + b) == OddHalves(a) + OddHalves(b)
    ensures EvenHalves(a + b) == EvenHalves(a) + EvenHalves(b)
  {
    if b == [] {
      assert a + b == a;
    } else {
      HalvesConcat(a, b[..|b| - 1]);
      assert (a + b)[..|a + b| - 1] == a + b[..|b| - 1];
    }
  }

  lemma {:induction false} HalvesOfPointers(blocks: seq<nat>, leaf: bool)
    ensures OddHalves(Pointers(blocks, leaf)) == if leaf then blocks else []
    ensures EvenHalves(Pointers(blocks, leaf)) == if leaf then [] else blocks
  {
    if blocks != [] {
      var init, x := blocks[..|blocks| - 1], blocks[|blocks| - 1];
      HalvesOfPointers(init, leaf);
      assert blocks == init + [x];
      PointersAppend(init, x, leaf);
      assert Pointers(blocks, leaf)[..|blocks| - 1] == Pointers(init, leaf);
    }
  }

  // ---------- frames ----------

  /** Block `p` is the same in both pairs of files. */
  ghost predicate SameAt(f: Files, g: Files, p: nat) {
    if p % 2 == 1 then
      (p / 2 in f.leafs ==> p / 2 in g.leafs && g.leafs[p / 2] == f.leafs[p / 2])
    else
      (p / 2 in f.internals ==> p / 2 in g.internals && g.internals[p / 2] == f.internals[p / 2])
  }

  lemma {:induction false} BlocksOfContains(kids: seq<Layout>, i: nat)
    requires i < |kids|
    ensures Blocks(kids[i]) <= BlocksOf(kids)
  {
    if i > 0 {
      BlocksOfContains(kids[1..], i - 1);
    }
  }

  lemma {:induction false} BlocksOfUpdate(kids: seq<Layout>, i: nat, lay: Layout)
    requires i < |kids|
    ensures BlocksOf(kids[i := lay]) + Blocks(kids[i]) == BlocksOf(kids) + Blocks(lay)
  {
    var rest := kids[1..];
    if i == 0 {
      assert kids[0 := lay][1..] == rest;
    } else {
      BlocksOfUpdate(rest, i - 1, lay);
      var rest' := rest[i - 1 := lay];
      assert kids[i := lay][1..] == rest';
      AddFirst(Blocks(kids[0]), BlocksOf(rest'), Blocks(kids[i]), BlocksOf(rest), Blocks(lay));
    }
  }

  lemma {:induction false} AddFirst(a: multiset<nat>, b: multiset<nat>, c: multiset<nat>, d: multiset<nat>,
                                    e: multiset<nat>)
    requires b + c == d + e
    ensures (a + b) + c == (a + d) + e
  {
    assert (a + b) + c == a + (b + c);
    assert (a + d) + e == a + (d + e);
  }

  lemma {:induction false} BlocksOfAppend(kids: seq<Layout>, lay: Layout)
    ensures BlocksOf(kids + [lay]) == BlocksOf(kids) + Blocks(lay)
  {
    if kids == [] {
      assert (kids + [lay])[1..] == [];
    } else {
      BlocksOfAppend(kids[1..], lay);
      assert (kids + [lay])[1..] == kids[1..] + [lay];
    }
  }

  /** A tree is still there when none of its blocks changed. */
  lemma {:induction false} HoldsFrame(sha: Sha, f: Files, g: Files, lay: Layout, keys: set<Key>, d: nat)
    requires Holds(sha, f, lay, keys, d)
    requires forall p :: p in Blocks(lay) ==> SameAt(f, g, p)
    ensures Holds(sha, g, lay, keys, d)
    decreases 27 - d, 0
  {
    assert lay.ptr in Blocks(lay);
    if IsIndex(keys, d) {
      forall i | 0 <= i < 64 ensures Holds(sha, g, lay.kids[i], Sub(keys, d, i), d + 1) {
        KidFrame(sha, f, g, lay.kids, Sub(keys, d, i), d + 1, i);
      }
    }
  }

  lemma {:induction false} KidFrame(sha: Sha, f: Files, g: Files, kids: seq<Layout>, keys: set<Key>, d: nat, i: nat)
    requires i < |kids| && Holds(sha, f, kids[i], keys, d)
    requires forall p :: p in BlocksOf(kids) ==> SameAt(f, g, p)
    ensures Holds(sha, g, kids[i], keys, d)
    decreases 27 - d, 1
  {
    BlocksOfContains(kids, i);
    HoldsFrame(sha, f, g, kids[i], keys, d);
  }

  // ---------- allocation accounts ----------

  /** The allocator: counters, free blocks, and blocks freed since the last commit. */
  datatype Account = Account(md: Metadata, free: multiset<nat>, future: multiset<nat>)

  /** No block of the kind is in the list. */
  ghost predicate NoneLeft(free: multiset<nat>, leaf: bool) {
    forall p :: p in free ==> (p % 2 == 1) != leaf
  }

  /** A counter moves only when no free block of its kind is left. */
  ghost predicate UsesUp(a: Metadata, b: Metadata, free: multiset<nat>) {
    && (b.nextLeaf > a.nextLeaf ==> NoneLeft(free, true))
    && (b.nextInternal > a.nextInternal ==> NoneLeft(free, false))
  }

  /** Blocks move between the live tree, the free list and the future-free list;
      new ones come only from the counters, when the free ones are used up.  Free
      blocks are only taken. */
  ghost predicate Moves(a: Account, b: Account, live: multiset<nat>, live': multiset<nat>) {
    && a.md.nextLeaf <= b.md.nextLeaf && a.md.nextInternal <= b.md.nextInternal
    && b.free <= a.free && UsesUp(a.md, b.md, b.free)
    && live' + b.free + b.future + Universe(a.md) == live + a.free + a.future + Universe(b.md)
  }

  /** Live, free and future-free blocks are distinct known blocks. */
  ghost predicate Sound(a: Account, live: multiset<nat>) {
    live + a.free + a.future <= Universe(a.md)
  }

  /** Blocks that a step starting from `a` must leave alone. */
  ghost predicate Settled(a: Account, p: nat) {
    Known(a.md, p) && p !in a.free
  }

  /** Nothing but free or new blocks was written between `f` and `g`. */
  ghost predicate WritesOnlyFree(a: Account, f: Files, g: Files) {
    forall p :: Settled(a, p) ==> SameAt(f, g, p)
  }

  lemma {:induction false} MovesKeepSound(a: Account, b: Account, live: multiset<nat>, live': multiset<nat>)
    requires Moves(a, b, live, live') && Sound(a, live)
    ensures Sound(b, live')
  {
    forall p | p in live' + b.free + b.future
      ensures (live' + b.free + b.future)[p] <= Universe(b.md)[p]
    {
      assert (live' + b.free + b.future + Universe(a.md))[p] == (live + a.free + a.future + Universe(b.md))[p];
    }
  }

  lemma {:induction false} MovesTrans(a: Account, b: Account, c: Account,
                   l0: multiset<nat>, l1: multiset<nat>, l2: multiset<nat>)
    requires Moves(a, b, l0, l1) && Moves(b, c, l1, l2)
    ensures Moves(a, c, l0, l2)
  {
    forall p: nat ensures (l2 + c.free + c.future + Universe(a.md))[p]
                          == (l0 + a.free + a.future + Universe(c.md))[p]
    {
      assert (l1 + b.free + b.future + Universe(a.md))[p] == (l0 + a.free + a.future + Universe(b.md))[p];
      assert (l2 + c.free + c.future + Universe(b.md))[p] == (l1 + b.free + b.future + Universe(c.md))[p];
    }
  }

  /** Live blocks that take no part in a step. */
  lemma {:induction false} MovesFrame(a: Account, b: Account, l0: multiset<nat>, l1: multiset<nat>, rest: multiset<nat>)
    requires Moves(a, b, l0, l1)
    ensures Moves(a, b, l0 + rest, l1 + rest)
  {
    assert l1 + rest + b.free + b.future + Universe(a.md)
        == rest + (l1 + b.free + b.future + Universe(a.md));
    assert l0 + rest + a.free + a.future + Universe(b.md)
        == rest + (l0 + a.free + a.future + Universe(b.md));
  }

  lemma {:induction false} WritesTrans(a: Account, b: Account, f: Files, g: Files, h: Files)
    requires a.md.nextLeaf <= b.md.nextLeaf && a.md.nextInternal <= b.md.nextInternal && b.free <= a.free
    requires WritesOnlyFree(a, f, g) && WritesOnlyFree(b, g, h)
    ensures WritesOnlyFree(a, f, h)
  {
    forall p | Settled(a, p) ensures SameAt(f, h, p) {
      assert Settled(b, p);
    }
  }

  /** A sound tree survives any step that writes only free blocks. */
  lemma {:induction false} LiveSurvives(sha: Sha, a: Account, f: Files, g: Files, lay: Layout, live: multiset<nat>,
                                        keys: set<Key>, d: nat)
    requires Holds(sha, f, lay, keys, d)
    requires Blocks(lay) <= live && Sound(a, live)
    requires WritesOnlyFree(a, f, g)
    ensures Holds(sha, g, lay, keys, d)
  {
    forall p | p in Blocks(lay) ensures SameAt(f, g, p) {
      UniverseIs(a.md, p);
      assert (live + a.free + a.future)[p] <= Universe(a.md)[p];
      assert Settled(a, p);
    }
    HoldsFrame(sha, f, g, lay, keys, d);
  }

  // ---------- steps of an operation ----------

  /** Everything an operation changes, and every image it has left on disk. */
  datatype Snap = Snap(acct: Account, files: Files, index: IndexFile, trace: seq<Image>)

  /** Each image written after `t0` keeps the index file and the settled blocks. */
  ghost predicate Safe(t0: seq<Image>, t1: seq<Image>, a: Account, f: Files, index: IndexFile) {
    && t0 <= t1
    && forall i :: |t0| <= i < |t1| ==> t1[i].index == index && WritesOnlyFree(a, f, t1[i].files)
  }

  /** A run of allocations, frees and block writes that turns the live blocks
      `live` into `live'` and commits nothing. */
  ghost predicate Step(s: Snap, t: Snap, live: multiset<nat>, live': multiset<nat>) {
    && Moves(s.acct, t.acct, live, live')
    && WritesOnlyFree(s.acct, s.files, t.files)
    && t.index == s.index
    && Safe(s.trace, t.trace, s.acct, s.files, s.index)
  }

  /** A step that only moves blocks between the lists. */
  lemma {:induction false} QuietStep(s: Snap, t: Snap, live: multiset<nat>, live': multiset<nat>)
    requires Moves(s.acct, t.acct, live, live')
    requires t.files == s.files && t.index == s.index && t.trace == s.trace
    ensures Step(s, t, live, live')
  {
  }

  lemma {:induction false} StepTrans(s: Snap, t: Snap, u: Snap, l0: multiset<nat>, l1: multiset<nat>, l2: multiset<nat>)
    requires Step(s, t, l0, l1) && Step(t, u, l1, l2)
    ensures Step(s, u, l0, l2)
  {
    MovesTrans(s.acct, t.acct, u.acct, l0, l1, l2);
    WritesTrans(s.acct, t.acct, s.files, t.files, u.files);
    forall i | |s.trace| <= i < |u.trace|
      ensures u.trace[i].index == s.index && WritesOnlyFree(s.acct, s.files, u.trace[i].files)
    {
      if i < |t.trace| {
        assert u.trace[i] == t.trace[i];
      } else {
        WritesTrans(s.acct, t.acct, s.files, t.files, u.trace[i].files);
      }
    }
  }

  lemma {:induction false} StepFrame(s: Snap, t: Snap, l0: multiset<nat>, l1: multiset<nat>, rest: multiset<nat>)
    requires Step(s, t, l0, l1)
    ensures Step(s, t, l0 + rest, l1 + rest)
  {
    MovesFrame(s.acct, t.acct, l0, l1, rest);
  }

  ghost predicate DiffersAt(f: Files, g: Files, p: nat) {
    forall q :: q != p ==> SameAt(f, g, q)
  }

  /** Writing a block that was not settled when the step began extends the step. */
  lemma {:induction false} StepWrite(s: Snap, t: Snap, u: Snap, live: multiset<nat>, live': multiset<nat>, p: nat)
    requires Step(s, t, live, live') && !Settled(s.acct, p)
    requires u.acct == t.acct && u.index == t.index && DiffersAt(t.files, u.files, p)
    requires u.trace == t.trace + [Image(u.files, u.index)]
    ensures Step(s, u, live, live')
  {
    forall q | Settled(s.acct, q) ensures SameAt(s.files, u.files, q) {
      assert SameAt(t.files, u.files, q);
    }
  }

  /** The committed tree is intact in every image a step leaves behind. */
  lemma {:induction false} StepKeepsCommitted(sha: Sha, s: Snap, t: Snap, live: multiset<nat>, live': multiset<nat>,
                           lay: Layout, keys: set<Key>, i: nat)
    requires Step(s, t, live, live')
    requires Commits(sha, Image(s.files, s.index), lay, keys)
    requires Blocks(lay) <= live && Sound(s.acct, live)
    requires |s.trace| <= i < |t.trace|
    ensures Commits(sha, t.trace[i], lay, keys)
  {
    LiveSurvives(sha, s.acct, s.files, t.trace[i].files, lay, live, keys, 0);
  }

  // ---------- the children of an index node ----------

  /** Each of the 64 children holds its share of `keys`. */
  ghost predicate KidsHold(sha: Sha, f: Files, kids: seq<Layout>, keys: set<Key>, d: nat)
    requires d < 26
  {
    && |kids| == 64
    && forall i :: 0 <= i < 64 ==> Holds(sha, f, kids[i], Sub(keys, d, i), d + 1)
  }

  lemma {:induction false} KidsSurvive(sha: Sha, a: Account, f: Files, g: Files, kids: seq<Layout>,
                                       live: multiset<nat>, keys: set<Key>, d: nat)
    requires d < 26 && KidsHold(sha, f, kids, keys, d)
    requires BlocksOf(kids) <= live && Sound(a, live)
    requires WritesOnlyFree(a, f, g)
    ensures KidsHold(sha, g, kids, keys, d)
  {
    forall i | 0 <= i < 64 ensures Holds(sha, g, kids[i], Sub(keys, d, i), d + 1) {
      BlocksOfContains(kids, i);
      LiveSurvives(sha, a, f, g, kids[i], live, Sub(keys, d, i), d + 1);
    }
  }

  /** The first children of a node being split. */
  ghost predicate FirstKidsHold(sha: Sha, f: Files, kids: seq<Layout>, keys: set<Key>, d: nat)
    requires d < 26
  {
    forall i :: 0 <= i < |kids| ==> Holds(sha, f, kids[i], Sub(keys, d, i), d + 1)
  }

  /** The in-memory pointers and hashes of a node being split. */
  ghost predicate Filled(sha: Sha, children: seq<nat>, hashes: seq<Key>, kids: seq<Layout>, keys: set<Key>, d: nat)
    requires d < 26
  {
    && |children| == |hashes| == 64 && |kids| <= 64
    && (forall j :: 0 <= j < |kids| ==> children[j] == kids[j].ptr)
    && (forall j :: 0 <= j < |kids| ==> hashes[j] == TreeHash(sha, Sub(keys, d, j), d + 1))
  }

  lemma {:induction false} SwapPart(own: multiset<nat>, all: multiset<nat>, all': multiset<nat>, x: multiset<nat>,
                                    y: multiset<nat>)
    requires x <= all && all' + x == all + y
    ensures x + (own + (all - x)) == own + all
    ensures y + (own + (all - x)) == own + all'
  {
    assert all == (all - x) + x;
    assert (all - x) + y == all' by {
      assert all' + x == ((all - x) + y) + x;
      forall p: nat ensures all'[p] == ((all - x) + y)[p] {
        assert (all' + x)[p] == (((all - x) + y) + x)[p];
      }
    }
  }

  /** Rewriting child `b` into `lay`, as seen by the whole node. */
  lemma {:induction false} ReplaceKidStep(s: Snap, t: Snap, own: multiset<nat>, kids: seq<Layout>, b: nat, lay: Layout)
    requires b < |kids|
    requires Step(s, t, Blocks(kids[b]), Blocks(lay))
    ensures Step(s, t, own + BlocksOf(kids), own + BlocksOf(kids[b := lay]))
  {
    BlocksOfContains(kids, b);
    BlocksOfUpdate(kids, b, lay);
    SwapPart(own, BlocksOf(kids), BlocksOf(kids[b := lay]), Blocks(kids[b]), Blocks(lay));
    StepFrame(s, t, Blocks(kids[b]), Blocks(lay), own + (BlocksOf(kids) - Blocks(kids[b])));
  }

  /** Rewriting child `b` into `lay` leaves the other children intact. */
  lemma {:induction false} ReplaceKidHolds(sha: Sha, a: Account, f: Files, g: Files, live: multiset<nat>,
                                           kids: seq<Layout>, b: nat, lay: Layout,
                        keys: set<Key>, keys': set<Key>, d: nat)
    requires d < 26 && KidsHold(sha, f, kids, keys, d) && b < 64
    requires BlocksOf(kids) <= live && Sound(a, live) && WritesOnlyFree(a, f, g)
    requires Holds(sha, g, lay, Sub(keys', d, b), d + 1)
    requires forall i :: 0 <= i < 64 && i != b ==> Sub(keys', d, i) == Sub(keys, d, i)
    ensures KidsHold(sha, g, kids[b := lay], keys', d)
  {
    KidsSurvive(sha, a, f, g, kids, live, keys, d);
  }

  /** A new child written beside the ones already there. */
  lemma {:induction false} AppendKidStep(s: Snap, t: Snap, u: Snap, kids: seq<Layout>, lay: Layout)
    requires Step(s, t, multiset{}, BlocksOf(kids)) && Step(t, u, multiset{}, Blocks(lay))
    ensures Step(s, u, multiset{}, BlocksOf(kids + [lay]))
  {
    StepFrame(t, u, multiset{}, Blocks(lay), BlocksOf(kids));
    BlocksOfAppend(kids, lay);
    assert multiset{} + BlocksOf(kids) == BlocksOf(kids);
    assert Blocks(lay) + BlocksOf(kids) == BlocksOf(kids + [lay]);
    StepTrans(s, t, u, multiset{}, BlocksOf(kids), BlocksOf(kids + [lay]));
  }

  lemma {:induction false} AppendKidHolds(sha: Sha, a: Account, f: Files, g: Files, kids: seq<Layout>, lay: Layout,
                                          keys: set<Key>, d: nat)
    requires d < 26 && FirstKidsHold(sha, f, kids, keys, d)
    requires Sound(a, BlocksOf(kids)) && WritesOnlyFree(a, f, g)
    requires Holds(sha, g, lay, Sub(keys, d, |kids|), d + 1)
    ensures FirstKidsHold(sha, g, kids + [lay], keys, d)
  {
    forall i | 0 <= i < |kids| ensures Holds(sha, g, kids[i], Sub(keys, d, i), d + 1) {
      BlocksOfContains(kids, i);
      LiveSurvives(sha, a, f, g, kids[i], BlocksOf(kids), Sub(keys, d, i), d + 1);
    }
  }
}
