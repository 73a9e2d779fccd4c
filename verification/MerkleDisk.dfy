/** The copy-on-write Merkle index on disk (merkle/merkle_tree_disk.C).

    Every insert and remove rewrites the path from the changed leaf to the root
    into freshly allocated blocks and then commits by rewriting the index file
    in one step.  `trace` records the image after every single write, in the order
    the writes are issued.  The postconditions of `Insert` and `Remove` speak about
    a crash, or a concurrent reader, at any point of that order: they assume that
    block writes reach their files before the index does.  The code does not see to
    that: write_metadata flushes the index file alone.
 */
module MerkleDisk {
  import opened Slots
  import opened MerkleSpec
  import opened DiskLayout

  /** A node in memory: a copy of one block (merkle_node_disk). */
  class DiskNode {
    var leaf: bool
    var blockNo: nat
    var count: nat
    var hash: Key
    var keylist: set<Key>
    var hashes: seq<Key>
    var children: seq<nat>

    /** This node is the root of the tree of `keys` at depth `d` laid out as `lay`. */
    ghost predicate Loaded(sha: Sha, lay: Layout, keys: set<Key>, d: nat)
      reads this
    {
      && leaf == !IsIndex(keys, d)
      && lay.ptr == Pointer(blockNo, leaf)
      && count == |keys|
      && hash == TreeHash(sha, keys, d)
      && (leaf ==> keylist == keys)
      && (!leaf ==> hashes == ChildHashes(sha, keys, d) && children == Roots(lay.kids) && keylist == {})
    }

    /** Reads the block of a pointer and computes the node's hash. */
    constructor Load(sha: Sha, files: Files, pointer: nat)
      requires Readable(files, pointer)
      ensures leaf == (pointer % 2 == 1) && blockNo == pointer / 2
      ensures leaf ==> count == files.leafs[blockNo].count
                       && keylist == Elements(files.leafs[blockNo].keys)
      ensures !leaf ==> count == files.internals[blockNo].count
                        && hashes == files.internals[blockNo].hashes
                        && children == files.internals[blockNo].pointers && keylist == {}
      ensures hash == if count == 0 then 0 else if leaf then sha(Sorted(keylist)) else sha(hashes)
    {
      leaf := pointer % 2 == 1;
      blockNo := pointer / 2;
      keylist, hashes, children := {}, [], [];
      hash := 0;
      if pointer % 2 == 1 {
        count := files.leafs[pointer / 2].count;
        keylist := Elements(files.leafs[pointer / 2].keys);
      } else {
        count := files.internals[pointer / 2].count;
        hashes := files.internals[pointer / 2].hashes;
        children := files.internals[pointer / 2].pointers;
      }
      new;
      Rehash(sha);
    }

    /** A node made from a zeroed leaf block. */
    constructor EmptyLeaf(block: nat)
      ensures leaf && blockNo == block && count == 0 && hash == 0 && keylist == {}
    {
      leaf, blockNo, count, hash, keylist := true, block, 0, 0, {};
      hashes, children := [], [];
    }

    method Rehash(sha: Sha)
      requires leaf ==> count <= LEAF_MAX
      modifies this`hash
      ensures hash == if count == 0 then 0 else if leaf then sha(Sorted(keylist)) else sha(hashes)
    {
      hash := 0;
      if count == 0 {
        return;
      }
      hash := if leaf then sha(Sorted(keylist)) else sha(hashes);
    }

    method AddKey(key: Key)
      requires leaf && count < LEAF_MAX
      modifies this`count, this`keylist
      ensures count == old(count) + 1 && keylist == old(keylist) + {key}
    {
      count := count + 1;
      keylist := keylist + {key};
    }

    method SetChild(n: DiskNode, i: nat)
      requires !leaf && i < |children| && i < |hashes|
      modifies this`children, this`hashes
      ensures children == old(children)[i := Pointer(n.blockNo, n.leaf)]
      ensures hashes == old(hashes)[i := n.hash]
    {
      children := children[i := Pointer(n.blockNo, n.leaf)];
      hashes := hashes[i := n.hash];
    }

    method LeafToInternal()
      requires leaf
      modifies this`leaf, this`children, this`hashes, this`keylist
      ensures !leaf && |children| == 64 && |hashes| == 64 && keylist == {}
    {
      leaf := false;
      children := seq(64, _ => 0);
      hashes := seq(64, _ => 0);
      keylist := {};
    }

    method InternalToLeaf()
      requires !leaf
      modifies this`leaf, this`children, this`hashes
      ensures leaf
    {
      leaf := true;
      children, hashes := [], [];
    }
  }

  /** The keys of a list whose slot at depth `d` is `i`, in order. */
  function OnBranch(s: seq<Key>, d: nat, i: nat): (r: seq<Key>)
    requires d <= 26
    ensures forall k :: k in r <==> k in s && Slot(k, d) == i
  {
    if s == [] then [] else
    var init, k := s[..|s| - 1], s[|s| - 1];
    assert s == init + [k];
    OnBranch(init, d, i) + (if Slot(k, d) == i then [k] else [])
  }

  lemma {:induction false} OnBranchAscending(s: seq<Key>, d: nat, i: nat)
    requires d <= 26 && Ascending(s)
    ensures Ascending(OnBranch(s, d, i))
  {
    if s != [] {
      var init, k := s[..|s| - 1], s[|s| - 1];
      OnBranchAscending(init, d, i);
      var o := OnBranch(init, d, i);
      forall j | 0 <= j < |o| ensures o[j] < k {
        assert o[j] in init;
      }
    }
  }

  /** Splits the keys of a full leaf by their slot at depth `d`. */
  method Distribute(keys: set<Key>, d: nat) returns (parts: seq<seq<Key>>)
    requires d <= 26
    ensures |parts| == 64
    ensures forall i :: 0 <= i < 64 ==> parts[i] == Sorted(Sub(keys, d, i))
  {
    var s := Sorted(keys);
    parts := seq(64, _ => []);
    var j := 0;
    while j < |s|
      invariant j <= |s| && |parts| == 64
      invariant forall i :: 0 <= i < 64 ==> parts[i] == OnBranch(s[..j], d, i)
    {
      var branch := Slot(s[j], d);
      SlotRange(s[j], d);
      forall i | 0 <= i < 64
        ensures OnBranch(s[..j + 1], d, i) == OnBranch(s[..j], d, i) + (if i == branch then [s[j]] else [])
      {
        OnBranchNext(s, j, d, i);
      }
      parts := parts[branch := parts[branch] + [s[j]]];
      j := j + 1;
    }
    assert s[..j] == s;
    forall i | 0 <= i < 64 ensures parts[i] == Sorted(Sub(keys, d, i)) {
      BranchIsPart(keys, d, i);
    }
  }

  lemma {:induction false} OnBranchNext(s: seq<Key>, j: nat, d: nat, i: nat)
    requires d <= 26 && j < |s|
    ensures OnBranch(s[..j + 1], d, i) == OnBranch(s[..j], d, i) + if Slot(s[j], d) == i then [s[j]] else []
  {
    assert s[..j + 1][..j] == s[..j];
  }

  lemma {:induction false} BranchIsPart(keys: set<Key>, d: nat, i: nat)
    requires d <= 26
    ensures OnBranch(Sorted(keys), d, i) == Sorted(Sub(keys, d, i))
  {
    OnBranchAscending(Sorted(keys), d, i);
    AscendingUnique(OnBranch(Sorted(keys), d, i), Sorted(Sub(keys, d, i)));
  }

  /** Taking a block off a free list. */
  lemma {:induction false} TakeFree(a: Account, b: Account, p: nat)
    requires a.free == b.free + multiset{p} && b.future == a.future
    requires b.md.nextLeaf == a.md.nextLeaf && b.md.nextInternal == a.md.nextInternal
    ensures Moves(a, b, multiset{}, multiset{p}) && !Settled(a, p)
  {
  }

  /** Taking a block from a counter. */
  lemma {:induction false} TakeNew(a: Account, b: Account, leaf: bool)
    requires b.free == a.free && b.future == a.future
    requires b.md.nextLeaf == a.md.nextLeaf + (if leaf then 1 else 0)
    requires b.md.nextInternal == a.md.nextInternal + (if leaf then 0 else 1) && NoneLeft(a.free, leaf)
    ensures var p := Pointer(if leaf then a.md.nextLeaf else a.md.nextInternal, leaf);
      Moves(a, b, multiset{}, multiset{p}) && !Settled(a, p)
  {
    UniverseGrows(a.md, b.md, leaf, Pointer(if leaf then a.md.nextLeaf else a.md.nextInternal, leaf));
  }

  lemma {:induction false} UniverseGrows(m: Metadata, m': Metadata, leaf: bool, p: nat)
    requires p == Pointer(if leaf then m.nextLeaf else m.nextInternal, leaf)
    requires m'.nextLeaf == m.nextLeaf + (if leaf then 1 else 0)
    requires m'.nextInternal == m.nextInternal + (if leaf then 0 else 1)
    ensures Universe(m') == Universe(m) + multiset{p}
  {
    forall q: nat ensures Universe(m')[q] == (Universe(m) + multiset{p})[q] {
      UniverseIs(m, q);
      UniverseIs(m', q);
    }
  }

  /** An empty free list of one kind. */
  lemma {:induction false} NothingFree(blocks: seq<nat>, leaf: bool)
    ensures NoneLeft(multiset(Pointers([], leaf)) + multiset(Pointers(blocks, !leaf)), leaf)
  {
  }

  /** What an operation that commits `index` has done with the free blocks of the
      image `before`: acct.free are those it has not taken, acct.future those it has
      freed.  The files grow only if every free block of the kind was taken; it is in
      the new tree then, or was freed again by the same operation. */
  ghost predicate Recycles(before: IndexFile, acct: Account, index: IndexFile, live: multiset<nat>) {
    && before.Written? && index.Written?
    && acct.free <= multiset(before.freelist) && multiset(index.freelist) == acct.free + acct.future
    && UsesUp(before.md, index.md, acct.free)
    && (index.md.nextLeaf > before.md.nextLeaf ==>
          forall p :: p in before.freelist && p % 2 == 1 ==> p in live || p in acct.future)
    && (index.md.nextInternal > before.md.nextInternal ==>
          forall p :: p in before.freelist && p % 2 == 0 ==> p in live || p in acct.future)
  }

  lemma {:induction false} StepRecycles(s0: Snap, s1: Snap, lay: Layout, lay': Layout, before: IndexFile,
                                        index: IndexFile)
    requires Step(s0, s1, Blocks(lay), Blocks(lay')) && before.Written? && index.Written?
    requires s0.acct == Account(before.md, multiset(before.freelist), multiset{})
    requires Blocks(lay') + s1.acct.free + s1.acct.future == Universe(s1.acct.md)
    requires Blocks(lay) + s0.acct.free + s0.acct.future == Universe(s0.acct.md)
    requires index.md.nextLeaf == s1.acct.md.nextLeaf && index.md.nextInternal == s1.acct.md.nextInternal
    requires multiset(index.freelist) == s1.acct.free + s1.acct.future
    ensures Recycles(before, s1.acct, index, Blocks(lay'))
  {
    forall p | p in before.freelist && p !in s1.acct.free ensures p in Blocks(lay') || p in s1.acct.future {
      UniverseIs(s0.acct.md, p);
      UniverseIs(s1.acct.md, p);
      assert (Blocks(lay) + s0.acct.free + s0.acct.future)[p] >= 1;
      assert (Blocks(lay') + s1.acct.free + s1.acct.future)[p] == 1;
    }
  }

  /** A block taken, another freed, and the one taken written. */
  lemma {:induction false} Relocated(s0: Snap, s1: Snap, s2: Snap, s3: Snap, gone: multiset<nat>, p: nat)
    requires Step(s0, s1, multiset{}, multiset{p}) && Step(s1, s2, gone, multiset{}) && !Settled(s0.acct, p)
    requires s3.acct == s2.acct && s3.index == s2.index && DiffersAt(s2.files, s3.files, p)
    requires s3.trace == s2.trace + [Image(s3.files, s3.index)]
    ensures Step(s0, s3, gone, multiset{p})
  {
    StepFrame(s0, s1, multiset{}, multiset{p}, gone);
    StepFrame(s1, s2, gone, multiset{}, multiset{p});
    assert multiset{} + gone == gone && multiset{} + multiset{p} == multiset{p};
    assert gone + multiset{p} == multiset{p} + gone;
    StepTrans(s0, s1, s2, gone, multiset{p} + gone, multiset{p});
    StepWrite(s0, s2, s3, gone, multiset{p}, p);
  }

  lemma {:induction false} LeafHolds(sha: Sha, f: Files, block: nat, keys: set<Key>, d: nat)
    requires |keys| <= LEAF_MAX
    requires block in f.leafs && f.leafs[block] == LeafBlock(|keys|, Sorted(keys))
    ensures Holds(sha, f, Layout(Pointer(block, true), []), keys, d)
  {
    assert Pointer(block, true) / 2 == block;
  }

  /** A moved index block over children that stayed is the root of a whole layout. */
  lemma {:induction false} IndexWritten(sha: Sha, s: Snap, t: Snap, own: multiset<nat>, block: nat, lay: Layout,
                                        keys: set<Key>, d: nat)
    requires d < 26 && |keys| > LEAF_MAX && KidsHold(sha, s.files, lay.kids, keys, d)
    requires lay.ptr == Pointer(block, false) && Step(s, t, own, multiset{lay.ptr})
    requires Sound(s.acct, own + BlocksOf(lay.kids)) && block in t.files.internals
    requires t.files.internals[block] == IndexBlock(|keys|, ChildHashes(sha, keys, d), Roots(lay.kids))
    ensures Holds(sha, t.files, lay, keys, d)
    ensures Step(s, t, own + BlocksOf(lay.kids), Blocks(lay))
  {
    assert lay.ptr / 2 == block;
    KidsSurvive(sha, s.acct, s.files, t.files, lay.kids, own + BlocksOf(lay.kids), keys, d);
    StepFrame(s, t, own, multiset{lay.ptr}, BlocksOf(lay.kids));
  }

  /** A new leaf behind the children written so far. */
  lemma {:induction false} LeafAppended(sha: Sha, s: Snap, t: Snap, u: Snap, kids: seq<Layout>, block: nat,
                                        keys: set<Key>, d: nat) returns (lay: Layout)
    requires d < 26 && |keys| <= LEAF_MAX && FirstKidsHold(sha, t.files, kids, keys, d) && Sound(s.acct, multiset{})
    requires Step(s, t, multiset{}, BlocksOf(kids)) && Step(t, u, multiset{}, multiset{Pointer(block, true)})
    requires block in u.files.leafs && |Sub(keys, d, |kids|)| <= LEAF_MAX
    requires u.files.leafs[block] == LeafBlock(|Sub(keys, d, |kids|)|, Sorted(Sub(keys, d, |kids|)))
    ensures lay == Layout(Pointer(block, true), [])
    ensures FirstKidsHold(sha, u.files, kids + [lay], keys, d) && Step(s, u, multiset{}, BlocksOf(kids + [lay]))
  {
    lay := Layout(Pointer(block, true), []);
    LeafBlocks(lay);
    MovesKeepSound(s.acct, t.acct, multiset{}, BlocksOf(kids));
    AppendKidStep(s, t, u, kids, lay);
    LeafHolds(sha, u.files, block, Sub(keys, d, |kids|), d + 1);
    AppendKidHolds(sha, t.acct, t.files, u.files, kids, lay, keys, d);
  }

  lemma {:induction false} LeafBlocks(lay: Layout)
    requires lay.kids == []
    ensures Blocks(lay) == multiset{lay.ptr}
  {
  }

  class MerkleTreeDisk {
    const sha: Sha
    var md: Metadata
    var freeLeafs: seq<nat>
    var freeInternals: seq<nat>
    var futureLeafs: seq<nat>
    var futureInternals: seq<nat>
    var files: Files
    var index: IndexFile
    /** The same state as one value, with the image on disk after each write so far. */
    ghost var st: Snap

    /** The free-list lengths agree with the metadata, as write_metadata checks,
        and `st` describes the real fields. */
    ghost predicate Consistent()
      reads this
    {
      && md.numLeafFree == |freeLeafs| && md.numInternalFree == |freeInternals|
      && st.acct.md == md
      && st.acct.free == multiset(Pointers(freeLeafs, true)) + multiset(Pointers(freeInternals, false))
      && st.acct.future == multiset(Pointers(futureLeafs, true)) + multiset(Pointers(futureInternals, false))
      && st.files == files && st.index == index
    }

    // ---------- blocks ----------

    method FreeBlock(block: nat, leaf: bool)
      requires Consistent()
      modifies this`futureLeafs, this`futureInternals, this`st
      ensures Consistent()
      ensures Step(old(st), st, multiset{Pointer(block, leaf)}, multiset{})
    {
      if leaf {
        PointersAppend(futureLeafs, block, true);
        futureLeafs := futureLeafs + [block];
      } else {
        PointersAppend(futureInternals, block, false);
        futureInternals := futureInternals + [block];
      }
      st := st.(acct := st.acct.(future := st.acct.future + multiset{Pointer(block, leaf)}));
      QuietStep(old(st), st, multiset{Pointer(block, leaf)}, multiset{});
    }

    method AllocLeaf() returns (block: nat)
      requires Consistent()
      modifies this`md, this`freeLeafs, this`st
      ensures Consistent()
      ensures Step(old(st), st, multiset{}, multiset{Pointer(block, true)})
      ensures !Settled(old(st.acct), Pointer(block, true))
    {
      ghost var before := st.acct;
      if md.numLeafFree > 0 {
        block := freeLeafs[|freeLeafs| - 1];
        PointersLast(freeLeafs, true);
        freeLeafs := freeLeafs[..|freeLeafs| - 1];
        md := md.(numLeafFree := md.numLeafFree - 1);
        st := st.(acct := st.acct.(md := md, free := st.acct.free - multiset{Pointer(block, true)}));
        TakeFree(before, st.acct, Pointer(block, true));
      } else {
        block := md.nextLeaf;
        NothingFree(freeInternals, true);
        assert freeLeafs == [];
        md := md.(nextLeaf := md.nextLeaf + 1);
        st := st.(acct := st.acct.(md := md));
        TakeNew(before, st.acct, true);
      }
      QuietStep(old(st), st, multiset{}, multiset{Pointer(block, true)});
    }

    method AllocInternal() returns (block: nat)
      requires Consistent()
      modifies this`md, this`freeInternals, this`st
      ensures Consistent()
      ensures Step(old(st), st, multiset{}, multiset{Pointer(block, false)})
      ensures !Settled(old(st.acct), Pointer(block, false))
    {
      ghost var before := st.acct;
      if md.numInternalFree > 0 {
        block := freeInternals[|freeInternals| - 1];
        PointersLast(freeInternals, false);
        freeInternals := freeInternals[..|freeInternals| - 1];
        md := md.(numInternalFree := md.numInternalFree - 1);
        st := st.(acct := st.acct.(md := md, free := st.acct.free - multiset{Pointer(block, false)}));
        TakeFree(before, st.acct, Pointer(block, false));
      } else {
        block := md.nextInternal;
        NothingFree(freeLeafs, false);
        assert freeInternals == [];
        md := md.(nextInternal := md.nextInternal + 1);
        st := st.(acct := st.acct.(md := md));
        TakeNew(before, st.acct, false);
      }
      QuietStep(old(st), st, multiset{}, multiset{Pointer(block, false)});
    }

    method AllocFreeBlock(leaf: bool) returns (block: nat)
      requires Consistent()
      modifies this`md, this`freeLeafs, this`freeInternals, this`st
      ensures Consistent()
      ensures Step(old(st), st, multiset{}, multiset{Pointer(block, leaf)})
      ensures !Settled(old(st.acct), Pointer(block, leaf))
    {
      if leaf {
        block := AllocLeaf();
      } else {
        block := AllocInternal();
      }
    }

    method WriteOut(n: DiskNode)
      requires Consistent()
      modifies this`files, this`st
      ensures Consistent()
      ensures files == if n.leaf
                       then old(files).(leafs := old(files).leafs[n.blockNo := LeafBlock(n.count, Sorted(n.keylist))])
                       else old(files).(internals :=
                         old(files).internals[n.blockNo := IndexBlock(n.count, n.hashes, n.children)])
      ensures DiffersAt(old(files), files, Pointer(n.blockNo, n.leaf))
      ensures st == old(st).(files := files, trace := old(st.trace) + [Image(files, index)])
    {
      if n.leaf {
        files := files.(leafs := files.leafs[n.blockNo := LeafBlock(n.count, Sorted(n.keylist))]);
      } else {
        files := files.(internals := files.internals[n.blockNo := IndexBlock(n.count, n.hashes, n.children)]);
      }
      st := st.(files := files, trace := st.trace + [Image(files, index)]);
    }

    /** The last lines of insert and remove: write the node to a new block. */
    method Relocate(n: DiskNode, wasLeaf: bool)
      requires Consistent()
      modifies this, n`blockNo
      ensures Consistent()
      ensures Step(old(st), st, multiset{Pointer(old(n.blockNo), wasLeaf)}, multiset{Pointer(n.blockNo, n.leaf)})
      ensures n.leaf ==> n.blockNo in files.leafs
                         && files.leafs[n.blockNo] == LeafBlock(n.count, Sorted(n.keylist))
      ensures !n.leaf ==> n.blockNo in files.internals
                          && files.internals[n.blockNo] == IndexBlock(n.count, n.hashes, n.children)
    {
      ghost var s0 := st;
      ghost var gone := multiset{Pointer(n.blockNo, wasLeaf)};
      var block := AllocFreeBlock(n.leaf);
      ghost var s1 := st;
      ghost var p := Pointer(block, n.leaf);
      FreeBlock(n.blockNo, wasLeaf);
      ghost var s2 := st;
      n.blockNo := block;
      WriteOut(n);
      ghost var s3 := st;
      Relocated(s0, s1, s2, s3, gone, p);
    }

    method LoadNode(pointer: nat, ghost lay: Layout, ghost keys: set<Key>, ghost d: nat) returns (n: DiskNode)
      requires Holds(sha, files, lay, keys, d) && pointer == lay.ptr
      requires |keys| > LEAF_MAX ==> d < 26
      ensures fresh(n) && n.Loaded(sha, lay, keys, d)
    {
      n := new DiskNode.Load(sha, files, pointer);
      SortedElements(keys);
    }

    // ---------- insert ----------

    /** A new leaf block, zeroed on disk. */
    method NewEmptyLeaf() returns (child: DiskNode)
      requires Consistent()
      modifies this
      ensures Consistent() && fresh(child)
      ensures child.leaf && child.count == 0 && child.keylist == {}
      ensures !Settled(old(st.acct), Pointer(child.blockNo, true))
      ensures Step(old(st), st, multiset{}, multiset{Pointer(child.blockNo, true)})
    {
      ghost var s0 := st;
      var block := AllocFreeBlock(true);
      ghost var s1 := st;
      child := new DiskNode.EmptyLeaf(block);
      WriteOut(child);
      StepWrite(s0, s1, st, multiset{}, multiset{Pointer(block, true)}, Pointer(block, true));
    }

    static method FillLeaf(child: DiskNode, part: seq<Key>)
      requires child.leaf && child.count == 0 && child.keylist == {}
      requires |part| <= LEAF_MAX && Ascending(part)
      modifies child`count, child`keylist
      ensures child.count == |part| && Sorted(child.keylist) == part
    {
      for j := 0 to |part|
        invariant child.count == j && child.keylist == Elements(part[..j])
      {
        child.AddKey(part[j]);
        assert part[..j + 1] == part[..j] + [part[j]];
      }
      assert part[..|part|] == part;
      AscendingUnique(Sorted(child.keylist), part);
    }

    /** One child of a split leaf: a new block, zeroed, filled and written. */
    method NewLeaf(part: seq<Key>) returns (child: DiskNode)
      requires Consistent() && |part| <= LEAF_MAX && Ascending(part)
      modifies this
      ensures Consistent() && fresh(child)
      ensures child.leaf && child.hash == if part == [] then 0 else sha(part)
      ensures child.blockNo in files.leafs && files.leafs[child.blockNo] == LeafBlock(|part|, part)
      ensures Step(old(st), st, multiset{}, multiset{Pointer(child.blockNo, true)})
    {
      child := NewEmptyLeaf();
      ghost var s1 := st;
      ghost var p := Pointer(child.blockNo, true);
      FillLeaf(child, part);
      child.Rehash(sha);
      WriteOut(child);
      StepWrite(old(st), s1, st, multiset{}, multiset{p}, p);
    }

    /** Writes the part `i` of a split leaf as child `i` of `n`. */
    method AddChild(n: DiskNode, i: nat, part: seq<Key>, ghost s0: Snap, ghost kids: seq<Layout>,
                    ghost keys: set<Key>, ghost d: nat)
      returns (ghost kids': seq<Layout>)
      requires d < 26 && i == |kids| < 64 && Consistent() && Sound(s0.acct, multiset{})
      requires !n.leaf && Filled(sha, n.children, n.hashes, kids, keys, d)
      requires |keys| <= LEAF_MAX && part == Sorted(Sub(keys, d, i))
      requires FirstKidsHold(sha, files, kids, keys, d) && Step(s0, st, multiset{}, BlocksOf(kids))
      modifies this, n`children, n`hashes
      ensures Consistent() && |kids'| == i + 1
      ensures Filled(sha, n.children, n.hashes, kids', keys, d)
      ensures FirstKidsHold(sha, files, kids', keys, d) && Step(s0, st, multiset{}, BlocksOf(kids'))
    {
      SubCard(keys, d, i);
      ghost var s1 := st;
      var child := NewLeaf(part);
      n.SetChild(child, i);
      ghost var lay := LeafAppended(sha, s0, s1, st, kids, child.blockNo, keys, d);
      kids' := kids + [lay];
    }

    method WriteChildren(d: nat, n: DiskNode, parts: seq<seq<Key>>, ghost keys: set<Key>)
      returns (ghost kids: seq<Layout>)
      requires d < 26 && Consistent() && Sound(st.acct, multiset{})
      requires !n.leaf && |n.children| == 64 && |n.hashes| == 64
      requires |keys| <= LEAF_MAX && |parts| == 64
      requires forall i :: 0 <= i < 64 ==> parts[i] == Sorted(Sub(keys, d, i))
      modifies this, n`children, n`hashes
      ensures Consistent()
      ensures n.hashes == ChildHashes(sha, keys, d) && |kids| == 64 && n.children == Roots(kids)
      ensures FirstKidsHold(sha, files, kids, keys, d)
      ensures Step(old(st), st, multiset{}, BlocksOf(kids))
    {
      ghost var s0 := st;
      kids := [];
      QuietStep(s0, s0, multiset{}, multiset{});
      for i := 0 to 64
        invariant Consistent() && |kids| == i && Filled(sha, n.children, n.hashes, kids, keys, d)
        invariant FirstKidsHold(sha, files, kids, keys, d)
        invariant Step(s0, st, multiset{}, BlocksOf(kids))
      {
        kids := AddChild(n, i, parts[i], s0, kids, keys, d);
      }
    }

    method LeafToInternal(d: nat, n: DiskNode) returns (ghost kids: seq<Layout>)
      requires d < 26 && Consistent() && Sound(st.acct, multiset{})
      requires n.leaf && n.count == |n.keylist| == LEAF_MAX
      modifies this, n`leaf, n`children, n`hashes, n`keylist
      ensures Consistent()
      ensures !n.leaf && n.hashes == ChildHashes(sha, old(n.keylist), d) && n.keylist == {}
      ensures KidsHold(sha, files, kids, old(n.keylist), d) && n.children == Roots(kids)
      ensures Step(old(st), st, multiset{}, BlocksOf(kids))
    {
      ghost var keys := n.keylist;
      var parts := Distribute(n.keylist, d);
      n.LeafToInternal();
      kids := WriteChildren(d, n, parts, keys);
    }

    /** Hash and write a node that is a leaf now. */
    method WriteLeaf(d: nat, n: DiskNode, wasLeaf: bool, ghost keys: set<Key>) returns (ghost lay: Layout)
      requires Consistent() && n.leaf && n.keylist == keys && n.count == |keys| <= LEAF_MAX
      modifies this, n
      ensures Consistent() && n.Loaded(sha, lay, keys, d)
      ensures Holds(sha, files, lay, keys, d)
      ensures Step(old(st), st, multiset{Pointer(old(n.blockNo), wasLeaf)}, Blocks(lay))
    {
      n.Rehash(sha);
      Relocate(n, wasLeaf);
      lay := Layout(Pointer(n.blockNo, true), []);
      LeafHolds(sha, files, n.blockNo, keys, d);
      LeafBlocks(lay);
    }

    /** The node `n` is an index node over `keys`, in memory; its own block is `own`. */
    ghost predicate OverKids(n: DiskNode, kids: seq<Layout>, keys: set<Key>, d: nat)
      requires d < 26
      reads this, n
    {
      && !n.leaf && n.hashes == ChildHashes(sha, keys, d) && n.children == Roots(kids) && n.keylist == {}
      && KidsHold(sha, files, kids, keys, d)
    }

    /** After one child changed: count, hash and write the index node. */
    method WriteIndex(d: nat, n: DiskNode, wasLeaf: bool, ghost kids: seq<Layout>, ghost keys: set<Key>)
      returns (ghost lay: Layout)
      requires d < 26 && Consistent() && OverKids(n, kids, keys, d) && n.count == |keys| > LEAF_MAX
      requires Sound(st.acct, multiset{Pointer(n.blockNo, wasLeaf)} + BlocksOf(kids))
      modifies this, n
      ensures Consistent() && n.Loaded(sha, lay, keys, d)
      ensures Holds(sha, files, lay, keys, d)
      ensures Step(old(st), st, multiset{Pointer(old(n.blockNo), wasLeaf)} + BlocksOf(kids), Blocks(lay))
    {
      ghost var s0 := st;
      ghost var own := multiset{Pointer(n.blockNo, wasLeaf)};
      n.Rehash(sha);
      Relocate(n, wasLeaf);
      lay := Layout(Pointer(n.blockNo, false), kids);
      IndexWritten(sha, s0, st, own, n.blockNo, lay, keys, d);
    }

    /** Links the rewritten child `branch` into its parent. */
    method UpdateChild(d: nat, n: DiskNode, child: DiskNode, branch: nat, ghost s0: Snap, ghost own: multiset<nat>,
                       ghost kids: seq<Layout>, ghost kid: Layout, ghost keys: set<Key>, ghost keys': set<Key>)
      returns (ghost kids': seq<Layout>)
      requires d < 26 && branch < 64 && Consistent() && KidsHold(sha, s0.files, kids, keys, d)
      requires !n.leaf && n.hashes == ChildHashes(sha, keys, d) && n.children == Roots(kids) && n.keylist == {}
      requires child.Loaded(sha, kid, Sub(keys', d, branch), d + 1)
      requires Holds(sha, st.files, kid, Sub(keys', d, branch), d + 1)
      requires forall i :: 0 <= i < 64 && i != branch ==> Sub(keys', d, i) == Sub(keys, d, i)
      requires Sound(s0.acct, own + BlocksOf(kids))
      requires Step(s0, st, Blocks(kids[branch]), Blocks(kid))
      modifies n`children, n`hashes
      ensures OverKids(n, kids', keys', d)
      ensures Step(s0, st, own + BlocksOf(kids), own + BlocksOf(kids'))
    {
      n.SetChild(child, branch);
      kids' := kids[branch := kid];
      ReplaceKidStep(s0, st, own, kids, branch, kid);
      ReplaceKidHolds(sha, s0.acct, s0.files, st.files, own + BlocksOf(kids), kids, branch, kid, keys, keys', d);
      HashesUpdate(sha, keys, keys', d, branch);
    }

    /** The recursive call of insert: rewrites one child of `n`. */
    method InsertBelow(d: nat, key: Key, n: DiskNode, ghost own: multiset<nat>, ghost kids: seq<Layout>,
                       ghost keys: set<Key>, ghost keys': set<Key>)
      returns (ghost kids': seq<Layout>)
      requires d < 26 && Consistent() && OverKids(n, kids, keys, d)
      requires key !in keys && keys' == keys + {key} && Shares(keys', d)
      requires Sound(st.acct, own + BlocksOf(kids))
      modifies this, n`children, n`hashes
      ensures Consistent() && OverKids(n, kids', keys', d)
      ensures Step(old(st), st, own + BlocksOf(kids), own + BlocksOf(kids'))
      decreases 27 - d, 0
    {
      ghost var s0 := st;
      var branch := Slot(key, d);
      InsertFacts(keys, keys', d, key);
      SoundPart(s0.acct, own, kids, branch);
      ghost var sub, sub' := Sub(keys, d, branch), Sub(keys', d, branch);
      var child := LoadNode(n.children[branch], kids[branch], sub, d + 1);
      ghost var kid := InsertAt(d + 1, key, child, kids[branch], sub, sub');
      kids' := UpdateChild(d, n, child, branch, s0, own, kids, kid, keys, keys');
    }

    method InsertIntoIndex(d: nat, key: Key, n: DiskNode, wasLeaf: bool, ghost kids: seq<Layout>,
                           ghost keys: set<Key>, ghost keys': set<Key>)
      returns (ghost lay': Layout)
      requires d < 26 && Consistent() && OverKids(n, kids, keys, d) && n.count == |keys| >= LEAF_MAX
      requires key !in keys && keys' == keys + {key} && Shares(keys', d)
      requires Sound(st.acct, multiset{Pointer(n.blockNo, wasLeaf)} + BlocksOf(kids))
      modifies this, n
      ensures Consistent() && n.Loaded(sha, lay', keys', d)
      ensures Holds(sha, files, lay', keys', d)
      ensures Step(old(st), st, multiset{Pointer(old(n.blockNo), wasLeaf)} + BlocksOf(kids), Blocks(lay'))
      decreases 27 - d, 1
    {
      ghost var own := multiset{Pointer(n.blockNo, wasLeaf)};
      ghost var s0 := st;
      ghost var kids' := InsertBelow(d, key, n, own, kids, keys, keys');
      n.count := n.count + 1;
      ghost var s1 := st;
      MovesKeepSound(s0.acct, s1.acct, own + BlocksOf(kids), own + BlocksOf(kids'));
      lay' := WriteIndex(d, n, wasLeaf, kids', keys');
      StepTrans(s0, s1, st, own + BlocksOf(kids), own + BlocksOf(kids'), Blocks(lay'));
    }

    method InsertAt(d: nat, key: Key, n: DiskNode, ghost lay: Layout, ghost keys: set<Key>, ghost keys': set<Key>)
      returns (ghost lay': Layout)
      requires d <= 26 && Consistent() && n.Loaded(sha, lay, keys, d) && Holds(sha, files, lay, keys, d)
      requires key !in keys && keys' == keys + {key} && Shares(keys', d)
      requires Sound(st.acct, Blocks(lay))
      modifies this, n
      ensures Consistent() && n.Loaded(sha, lay', keys', d)
      ensures Holds(sha, files, lay', keys', d)
      ensures Step(old(st), st, Blocks(lay), Blocks(lay'))
      decreases 27 - d, 3
    {
      if n.leaf && n.count < LEAF_MAX {
        n.AddKey(key);
        LeafBlocks(lay);
        lay' := WriteLeaf(d, n, true, keys');
      } else if n.leaf {
        DepthBound(keys', d);
        LeafBlocks(lay);
        lay' := SplitAndInsert(d, key, n, keys, keys');
      } else {
        lay' := InsertIntoIndex(d, key, n, false, lay.kids, keys, keys');
      }
    }

    /** Inserting into a full leaf: split it, then insert below. */
    method SplitAndInsert(d: nat, key: Key, n: DiskNode, ghost keys: set<Key>, ghost keys': set<Key>)
      returns (ghost lay': Layout)
      requires d < 26 && Consistent() && n.leaf && n.keylist == keys && n.count == |keys| == LEAF_MAX
      requires key !in keys && keys' == keys + {key} && Shares(keys', d)
      requires Sound(st.acct, multiset{Pointer(n.blockNo, true)})
      modifies this, n
      ensures Consistent() && n.Loaded(sha, lay', keys', d)
      ensures Holds(sha, files, lay', keys', d)
      ensures Step(old(st), st, multiset{Pointer(old(n.blockNo), true)}, Blocks(lay'))
      decreases 27 - d, 2
    {
      ghost var own := multiset{Pointer(n.blockNo, true)};
      ghost var s0 := st;
      ghost var kids := LeafToInternal(d, n);
      ghost var s1 := st;
      StepFrame(s0, s1, multiset{}, BlocksOf(kids), own);
      assert multiset{} + own == own && BlocksOf(kids) + own == own + BlocksOf(kids);
      MovesKeepSound(s0.acct, s1.acct, own, own + BlocksOf(kids));
      lay' := InsertIntoIndex(d, key, n, true, kids, keys, keys');
      StepTrans(s0, s1, st, own, own + BlocksOf(kids), Blocks(lay'));
    }

    // ---------- remove ----------

    /** The recursive call of remove: rewrites one child of `n`. */
    method RemoveBelow(d: nat, key: Key, n: DiskNode, ghost own: multiset<nat>, ghost kids: seq<Layout>,
                       ghost keys: set<Key>, ghost keys': set<Key>)
      returns (ghost kids': seq<Layout>)
      requires d < 26 && Consistent() && OverKids(n, kids, keys, d)
      requires key in keys && keys' == keys - {key} && Shares(keys, d)
      requires Sound(st.acct, own + BlocksOf(kids))
      modifies this, n`children, n`hashes
      ensures Consistent() && OverKids(n, kids', keys', d)
      ensures Step(old(st), st, own + BlocksOf(kids), own + BlocksOf(kids'))
      decreases 27 - d, 0
    {
      ghost var s0 := st;
      var branch := Slot(key, d);
      RemoveFacts(keys, keys', d, key);
      SoundPart(s0.acct, own, kids, branch);
      ghost var sub, sub' := Sub(keys, d, branch), Sub(keys', d, branch);
      var child := LoadNode(n.children[branch], kids[branch], sub, d + 1);
      ghost var kid := RemoveAt(d + 1, key, child, kids[branch], sub, sub');
      kids' := UpdateChild(d, n, child, branch, s0, own, kids, kid, keys, keys');
    }

    /** Frees child `i` of `n` and copies its keys into `n`. */
    method AbsorbChild(d: nat, n: DiskNode, i: nat, ghost s0: Snap, ghost kids: seq<Layout>, ghost keys: set<Key>)
      returns (count: nat)
      requires d < 26 && i < |kids| && i < |n.children| && n.children[i] == kids[i].ptr
      requires Consistent() && |keys| <= LEAF_MAX && Holds(sha, files, kids[i], Sub(keys, d, i), d + 1)
      requires Step(s0, st, BlocksOf(kids), BlocksOf(kids[i..]))
      modifies this, n`keylist
      ensures Consistent() && files == old(files)
      ensures forall added: nat ::
                Absorbed(old(n.keylist), added, keys, d, i) ==> Absorbed(n.keylist, added + count, keys, d, i + 1)
      ensures Step(s0, st, BlocksOf(kids), BlocksOf(kids[i + 1..]))
    {
      SubCard(keys, d, i);
      var child := LoadNode(n.children[i], kids[i], Sub(keys, d, i), d + 1);
      ghost var s1 := st;
      assert child.leaf;
      FreeBlock(child.blockNo, true);
      n.keylist := n.keylist + child.keylist;
      count := child.count;
      BelowStep(keys, d, i);
      DropKid(s0, s1, st, kids, i);
    }

    /** Frees the 64 children of `n` and copies their keys into it. */
    method AbsorbChildren(d: nat, n: DiskNode, ghost kids: seq<Layout>, ghost keys: set<Key>)
      requires d < 26 && Consistent() && OverKids(n, kids, keys, d) && n.count == |keys| <= LEAF_MAX
      modifies this, n`keylist
      ensures Consistent() && n.keylist == keys
      ensures Step(old(st), st, BlocksOf(kids), multiset{})
    {
      ghost var s0 := st;
      var added := 0;
      QuietStep(s0, s0, BlocksOf(kids), BlocksOf(kids));
      assert kids[0..] == kids;
      for i := 0 to 64
        invariant Consistent() && files == s0.files
        invariant Absorbed(n.keylist, added, keys, d, i)
        invariant Step(s0, st, BlocksOf(kids), BlocksOf(kids[i..]))
      {
        var c := AbsorbChild(d, n, i, s0, kids, keys);
        added := added + c;
      }
      AllAbsorbed(n.keylist, added, keys, d);
      assert added == n.count;
    }

    /** An index node that has come back to 64 keys or fewer becomes a leaf. */
    method Collapse(d: nat, n: DiskNode, ghost kids: seq<Layout>, ghost keys: set<Key>) returns (ghost lay: Layout)
      requires d < 26 && Consistent() && OverKids(n, kids, keys, d) && n.count == |keys| <= LEAF_MAX
      modifies this, n
      ensures Consistent() && n.Loaded(sha, lay, keys, d)
      ensures Holds(sha, files, lay, keys, d)
      ensures Step(old(st), st, multiset{Pointer(old(n.blockNo), false)} + BlocksOf(kids), Blocks(lay))
    {
      ghost var s0 := st;
      ghost var own := multiset{Pointer(n.blockNo, false)};
      AbsorbChildren(d, n, kids, keys);
      n.InternalToLeaf();
      ghost var s1 := st;
      StepFrame(s0, s1, BlocksOf(kids), multiset{}, own);
      assert BlocksOf(kids) + own == own + BlocksOf(kids) && multiset{} + own == own;
      lay := WriteLeaf(d, n, false, keys);
      StepTrans(s0, s1, st, own + BlocksOf(kids), own, Blocks(lay));
    }

    method RemoveFromIndex(d: nat, key: Key, n: DiskNode, ghost kids: seq<Layout>, ghost keys: set<Key>,
                           ghost keys': set<Key>)
      returns (ghost lay': Layout)
      requires d < 26 && Consistent() && OverKids(n, kids, keys, d) && n.count == |keys|
      requires key in keys && keys' == keys - {key} && Shares(keys, d)
      requires Sound(st.acct, multiset{Pointer(n.blockNo, false)} + BlocksOf(kids))
      modifies this, n
      ensures Consistent() && n.Loaded(sha, lay', keys', d)
      ensures Holds(sha, files, lay', keys', d)
      ensures Step(old(st), st, multiset{Pointer(old(n.blockNo), false)} + BlocksOf(kids), Blocks(lay'))
      decreases 27 - d, 1
    {
      ghost var own := multiset{Pointer(n.blockNo, false)};
      ghost var s0 := st;
      ghost var kids' := RemoveBelow(d, key, n, own, kids, keys, keys');
      n.count := n.count - 1;
      ghost var s1 := st;
      MovesKeepSound(s0.acct, s1.acct, own + BlocksOf(kids), own + BlocksOf(kids'));
      if n.count <= LEAF_MAX {
        lay' := Collapse(d, n, kids', keys');
      } else {
        lay' := WriteIndex(d, n, false, kids', keys');
      }
      StepTrans(s0, s1, st, own + BlocksOf(kids), own + BlocksOf(kids'), Blocks(lay'));
    }

    method RemoveAt(d: nat, key: Key, n: DiskNode, ghost lay: Layout, ghost keys: set<Key>, ghost keys': set<Key>)
      returns (ghost lay': Layout)
      requires d <= 26 && Consistent() && n.Loaded(sha, lay, keys, d) && Holds(sha, files, lay, keys, d)
      requires key in keys && keys' == keys - {key} && Shares(keys, d)
      requires |keys| > LEAF_MAX ==> d < 26
      requires Sound(st.acct, Blocks(lay))
      modifies this, n
      ensures Consistent() && n.Loaded(sha, lay', keys', d)
      ensures Holds(sha, files, lay', keys', d)
      ensures Step(old(st), st, Blocks(lay), Blocks(lay'))
      decreases 27 - d, 2
    {
      if n.leaf {
        n.keylist := n.keylist - {key};
        n.count := n.count - 1;
        LeafBlocks(lay);
        lay' := WriteLeaf(d, n, true, keys');
      } else {
        lay' := RemoveFromIndex(d, key, n, lay.kids, keys, keys');
      }
    }

    // ---------- commit ----------

    /** Between operations: the image on disk decodes to `keys`. */
    ghost predicate Open(keys: set<Key>)
      reads this
    {
      && futureLeafs == [] && futureInternals == []
      && st.files == files && st.index == index
      && Decodes(sha, Image(files, index), keys)
    }

    static method EncodePointers(blocks: seq<nat>, leaf: bool) returns (ptrs: seq<nat>)
      ensures ptrs == Pointers(blocks, leaf)
    {
      ptrs := [];
      for i := 0 to |blocks|
        invariant ptrs == Pointers(blocks[..i], leaf)
      {
        assert blocks[..i + 1] == blocks[..i] + [blocks[i]];
        PointersAppend(blocks[..i], blocks[i], leaf);
        ptrs := ptrs + [Pointer(blocks[i], leaf)];
      }
      assert blocks[..|blocks|] == blocks;
    }

    /** Rewrites the index file; what was freed since the last commit becomes free. */
    method WriteMetadata(ghost lay: Layout, ghost keys: set<Key>)
      requires Consistent() && lay.ptr == md.root && Holds(sha, files, lay, keys, 0)
      requires Blocks(lay) + st.acct.free + st.acct.future == Universe(md)
      modifies this
      ensures futureLeafs == [] && futureInternals == [] && files == old(files)
      ensures st == old(st).(index := index, trace := old(st.trace) + [Image(files, index)])
      ensures Commits(sha, Image(files, index), lay, keys)
      ensures index.md.nextLeaf == old(md).nextLeaf && index.md.nextInternal == old(md).nextInternal
      ensures multiset(index.freelist) == old(st.acct).free + old(st.acct).future
    {
      var a := EncodePointers(freeLeafs, true);
      var b := EncodePointers(freeInternals, false);
      var c := EncodePointers(futureLeafs, true);
      var e := EncodePointers(futureInternals, false);
      FreelistFacts(freeLeafs, freeInternals, futureLeafs, futureInternals);
      md := md.(numLeafFree := md.numLeafFree + |futureLeafs|,
                numInternalFree := md.numInternalFree + |futureInternals|);
      index := Written(md, a + b + c + e);
      futureLeafs, futureInternals := [], [];
      st := st.(index := index, trace := st.trace + [Image(files, index)]);
    }

    /** Reads the metadata and the free list, and loads the root. */
    method GetRoot(ghost lay: Layout, ghost keys: set<Key>) returns (n: DiskNode)
      requires futureLeafs == [] && futureInternals == []
      requires st.files == files && st.index == index
      requires Commits(sha, Image(files, index), lay, keys)
      modifies this`md, this`freeLeafs, this`freeInternals, this`st
      ensures Consistent() && fresh(n) && n.Loaded(sha, lay, keys, 0)
      ensures st == old(st).(acct := Account(index.md, multiset(index.freelist), multiset{}))
      ensures Blocks(lay) + st.acct.free + st.acct.future == Universe(md) && md.root == lay.ptr
    {
      md := index.md;
      ReadFreelist(index.freelist);
      HalvesConserve(index.freelist);
      st := st.(acct := Account(md, multiset(index.freelist), multiset{}));
      n := LoadNode(md.root, lay, keys, 0);
    }

    method ReadFreelist(list: seq<nat>)
      modifies this`freeLeafs, this`freeInternals
      ensures freeLeafs == OddHalves(list) && freeInternals == EvenHalves(list)
    {
      freeLeafs, freeInternals := [], [];
      for i := 0 to |list|
        invariant freeLeafs == OddHalves(list[..i]) && freeInternals == EvenHalves(list[..i])
      {
        assert list[..i + 1][..i] == list[..i];
        if list[i] % 2 == 0 {
          freeInternals := freeInternals + [list[i] / 2];
        } else {
          freeLeafs := freeLeafs + [list[i] / 2];
        }
      }
      assert list[..|list|] == list;
    }

    /** Opening files without an index makes the empty tree and commits it. */
    constructor Create(sha: Sha)
      ensures this.sha == sha && Open({})
    {
      this.sha := sha;
      md := Metadata(1, 0, 0, 1, 0);
      freeLeafs, freeInternals, futureLeafs, futureInternals := [], [], [], [];
      files := Files(map[0 := LeafBlock(0, [])], map[]);
      index := Missing;
      st := Snap(Account(Metadata(1, 0, 0, 1, 0), multiset{}, multiset{}),
                 Files(map[0 := LeafBlock(0, [])], map[]), Missing, []);
      new;
      ghost var lay := Layout(1, []);
      LeafBlocks(lay);
      EmptyUniverse();
      LeafHolds(sha, files, 0, {}, 0);
      WriteMetadata(lay, {});
    }

    /** Opening existing files, for instance after a crash: a writer reads the
        committed state and writes the same state back. */
    constructor Reopen(sha: Sha, img: Image, ghost keys: set<Key>)
      requires Decodes(sha, img, keys)
      ensures this.sha == sha && Open(keys)
    {
      this.sha := sha;
      md := Metadata(0, 0, 0, 0, 0);
      freeLeafs, freeInternals, futureLeafs, futureInternals := [], [], [], [];
      files, index := img.files, img.index;
      st := Snap(Account(Metadata(0, 0, 0, 0, 0), multiset{}, multiset{}), img.files, img.index, []);
      new;
      ghost var lay :| Commits(sha, img, lay, keys);
      var _ := GetRoot(lay, keys);
      WriteMetadata(lay, keys);
    }

    /** The end of an operation: the new root is committed in one write. */
    method SwitchRoot(n: DiskNode, ghost lay: Layout, ghost keys: set<Key>)
      requires Consistent() && n.Loaded(sha, lay, keys, 0) && Holds(sha, files, lay, keys, 0)
      requires Blocks(lay) + st.acct.free + st.acct.future == Universe(md)
      modifies this
      ensures Open(keys) && files == old(files)
      ensures st.trace == old(st.trace) + [Image(files, index)]
      ensures Commits(sha, Image(files, index), lay, keys)
      ensures st.acct.free == old(st.acct).free && st.acct.future == old(st.acct).future
      ensures index.md.nextLeaf == old(md).nextLeaf && index.md.nextInternal == old(md).nextInternal
      ensures multiset(index.freelist) == st.acct.free + st.acct.future
    {
      ghost var before := md;
      md := md.(root := Pointer(n.blockNo, n.leaf));
      st := st.(acct := st.acct.(md := md));
      assert Universe(md) == Universe(before);
      WriteMetadata(lay, keys);
    }

    /** merkle_tree_disk::insert.  In every image before the last write the
        committed key set is still the old one; the last write commits the key. */
    method Insert(key: Key, ghost keys: set<Key>)
      requires Open(keys) && key !in keys
      modifies this
      ensures Open(keys + {key})
      ensures CrashSafe(sha, old(st.trace), st.trace, keys, keys + {key})
      ensures exists lay :: Commits(sha, Image(files, index), lay, keys + {key})
                            && Recycles(old(index), st.acct, index, Blocks(lay))
    {
      ghost var lay :| Commits(sha, Image(files, index), lay, keys);
      var root := GetRoot(lay, keys);
      ghost var s0 := st;
      WholeTreeShares(keys + {key});
      ghost var lay' := InsertAt(0, key, root, lay, keys, keys + {key});
      ghost var s1 := st;
      StepConserves(s0, s1, lay, lay');
      SwitchRoot(root, lay', keys + {key});
      StepRecycles(s0, s1, lay, lay', old(index), index);
      assert st.acct.free == s1.acct.free && st.acct.future == s1.acct.future;
      StepIsCrashSafe(sha, s0, s1, lay, Blocks(lay'), keys);
    }

    /** merkle_tree_disk::remove, with the same guarantee. */
    method Remove(key: Key, ghost keys: set<Key>)
      requires Open(keys) && key in keys
      modifies this
      ensures Open(keys - {key})
      ensures CrashSafe(sha, old(st.trace), st.trace, keys, keys - {key})
      ensures exists lay :: Commits(sha, Image(files, index), lay, keys - {key})
                            && Recycles(old(index), st.acct, index, Blocks(lay))
    {
      ghost var lay :| Commits(sha, Image(files, index), lay, keys);
      var root := GetRoot(lay, keys);
      ghost var s0 := st;
      WholeTreeShares(keys);
      ghost var lay' := RemoveAt(0, key, root, lay, keys, keys - {key});
      ghost var s1 := st;
      StepConserves(s0, s1, lay, lay');
      SwitchRoot(root, lay', keys - {key});
      StepRecycles(s0, s1, lay, lay', old(index), index);
      assert st.acct.free == s1.acct.free && st.acct.future == s1.acct.future;
      StepIsCrashSafe(sha, s0, s1, lay, Blocks(lay'), keys);
    }
  }

  /** Each image that an operation leaves on disk decodes: to the old key set up
      to the last write, to the new one after it. */
  ghost predicate CrashSafe(sha: Sha, t0: seq<Image>, t1: seq<Image>, before: set<Key>, after: set<Key>) {
    && t0 < t1
    && (forall i :: |t0| <= i < |t1| - 1 ==> Decodes(sha, t1[i], before))
    && Decodes(sha, t1[|t1| - 1], after)
  }

  lemma {:induction false} StepIsCrashSafe(sha: Sha, s0: Snap, s1: Snap, lay: Layout, live': multiset<nat>,
                                           keys: set<Key>)
    requires Step(s0, s1, Blocks(lay), live')
    requires Commits(sha, Image(s0.files, s0.index), lay, keys) && Sound(s0.acct, Blocks(lay))
    ensures forall i :: |s0.trace| <= i < |s1.trace| ==> Decodes(sha, s1.trace[i], keys)
  {
    forall i | |s0.trace| <= i < |s1.trace| ensures Decodes(sha, s1.trace[i], keys) {
      StepKeepsCommitted(sha, s0, s1, Blocks(lay), live', lay, keys, i);
    }
  }

  /** No block is lost or duplicated by a whole operation. */
  lemma {:induction false} StepConserves(s0: Snap, s1: Snap, lay: Layout, lay': Layout)
    requires Step(s0, s1, Blocks(lay), Blocks(lay'))
    requires Blocks(lay) + s0.acct.free + s0.acct.future == Universe(s0.acct.md)
    ensures Blocks(lay') + s1.acct.free + s1.acct.future == Universe(s1.acct.md)
  {
    var l0, l1 := Blocks(lay) + s0.acct.free + s0.acct.future, Blocks(lay') + s1.acct.free + s1.acct.future;
    forall p: nat ensures l1[p] == Universe(s1.acct.md)[p] {
      assert (l1 + Universe(s0.acct.md))[p] == (l0 + Universe(s1.acct.md))[p];
    }
  }

  lemma {:induction false} WholeTreeShares(keys: set<Key>)
    ensures Shares(keys, 0)
  {
    WidthAtRoot();
  }

  lemma {:induction false} EmptyUniverse()
    ensures Universe(Metadata(1, 0, 0, 1, 0)) == multiset{1}
  {
    forall p: nat ensures Universe(Metadata(1, 0, 0, 1, 0))[p] == multiset{1}[p] {
      UniverseIs(Metadata(1, 0, 0, 1, 0), p);
    }
  }

  lemma {:induction false} FreelistFacts(a: seq<nat>, b: seq<nat>, c: seq<nat>, e: seq<nat>)
    ensures var l := Pointers(a, true) + Pointers(b, false) + Pointers(c, true) + Pointers(e, false);
      && |OddHalves(l)| == |a| + |c| && |EvenHalves(l)| == |b| + |e|
      && multiset(l) == multiset(Pointers(a, true)) + multiset(Pointers(b, false))
                        + (multiset(Pointers(c, true)) + multiset(Pointers(e, false)))
  {
    var pa, pb, pc, pe := Pointers(a, true), Pointers(b, false), Pointers(c, true), Pointers(e, false);
    HalvesOfPointers(a, true);
    HalvesOfPointers(b, false);
    HalvesOfPointers(c, true);
    HalvesOfPointers(e, false);
    HalvesConcat(pa, pb);
    HalvesConcat(pa + pb, pc);
    HalvesConcat(pa + pb + pc, pe);
  }

  /** The keys and the count collected from the first `i` children. */
  ghost predicate Absorbed(keylist: set<Key>, added: nat, keys: set<Key>, d: nat, i: nat)
    requires d <= 26
  {
    keylist == Below(keys, d, i) && added == CountBelow(keys, d, i)
  }

  lemma {:induction false} AllAbsorbed(keylist: set<Key>, added: nat, keys: set<Key>, d: nat)
    requires d <= 26 && Absorbed(keylist, added, keys, d, 64)
    ensures keylist == keys && added == |keys|
  {
    ChildrenCount(keys, d);
    AllBelow(keys, d);
  }

  lemma {:induction false} DropKid(s0: Snap, s1: Snap, s2: Snap, kids: seq<Layout>, i: nat)
    requires i < |kids| && kids[i].kids == []
    requires Step(s0, s1, BlocksOf(kids), BlocksOf(kids[i..]))
    requires Step(s1, s2, multiset{kids[i].ptr}, multiset{})
    ensures Step(s0, s2, BlocksOf(kids), BlocksOf(kids[i + 1..]))
  {
    var rest := BlocksOf(kids[i + 1..]);
    LeafBlocks(kids[i]);
    assert kids[i..][1..] == kids[i + 1..];
    StepFrame(s1, s2, multiset{kids[i].ptr}, multiset{}, rest);
    assert multiset{} + rest == rest;
    StepTrans(s0, s1, s2, BlocksOf(kids), BlocksOf(kids[i..]), rest);
  }

  lemma {:induction false} RemoveFacts(keys: set<Key>, keys': set<Key>, d: nat, key: Key)
    requires d < 26 && key in keys && keys' == keys - {key} && Shares(keys, d)
    ensures Slot(key, d) < 64
    ensures key in Sub(keys, d, Slot(key, d))
    ensures Sub(keys', d, Slot(key, d)) == Sub(keys, d, Slot(key, d)) - {key}
    ensures forall i :: 0 <= i < 64 && i != Slot(key, d) ==> Sub(keys', d, i) == Sub(keys, d, i)
    ensures Shares(Sub(keys, d, Slot(key, d)), d + 1)
    ensures |Sub(keys, d, Slot(key, d))| > LEAF_MAX ==> d + 1 < 26
  {
    var b := Slot(key, d);
    SlotRange(key, d);
    forall i: nat ensures Sub(keys', d, i) == if i == b then Sub(keys, d, i) - {key} else Sub(keys, d, i) {
      SubInsert(keys, d, key, i);
    }
    SubShares(keys, d, b);
    if |Sub(keys, d, b)| > LEAF_MAX {
      DepthBound(Sub(keys, d, b), d + 1);
    }
  }

  /** What the descent into one child needs. */
  lemma {:induction false} InsertFacts(keys: set<Key>, keys': set<Key>, d: nat, key: Key)
    requires d < 26 && key !in keys && keys' == keys + {key} && Shares(keys', d)
    ensures Slot(key, d) < 64
    ensures Sub(keys', d, Slot(key, d)) == Sub(keys, d, Slot(key, d)) + {key}
    ensures forall i :: 0 <= i < 64 && i != Slot(key, d) ==> Sub(keys', d, i) == Sub(keys, d, i)
    ensures Shares(Sub(keys', d, Slot(key, d)), d + 1)
    ensures |Sub(keys, d, Slot(key, d))| > LEAF_MAX ==> d + 1 < 26
  {
    var b := Slot(key, d);
    SlotRange(key, d);
    forall i: nat ensures Sub(keys', d, i) == if i == b then Sub(keys, d, i) + {key} else Sub(keys, d, i) {
      SubInsert(keys, d, key, i);
    }
    SubShares(keys', d, b);
    assert Shares(Sub(keys, d, b), d + 1);
    if |Sub(keys, d, b)| > LEAF_MAX {
      DepthBound(Sub(keys, d, b), d + 1);
    }
  }

  lemma {:induction false} SoundPart(a: Account, own: multiset<nat>, kids: seq<Layout>, b: nat)
    requires b < |kids| && Sound(a, own + BlocksOf(kids))
    ensures Sound(a, Blocks(kids[b]))
  {
    BlocksOfContains(kids, b);
  }

  lemma {:induction false} HashesUpdate(sha: Sha, keys: set<Key>, keys': set<Key>, d: nat, b: nat)
    requires d < 26 && b < 64
    requires forall i :: 0 <= i < 64 && i != b ==> Sub(keys', d, i) == Sub(keys, d, i)
    ensures ChildHashes(sha, keys', d) == ChildHashes(sha, keys, d)[b := TreeHash(sha, Sub(keys', d, b), d + 1)]
  {
  }
}
