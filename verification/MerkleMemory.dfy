/** The Merkle tree in memory (merkle/merkle_tree.C, merkle/merkle_node.C).

    Nodes hold only a count, a hash and 64 children; the keys live in one key
    list beside the tree.  `Shape` and `Hashed` say that a node is what
    MerkleSpec prescribes for the keys below it.
 */
module MerkleMemory {
  import opened Slots
  import opened MerkleSpec
  import KeyList

  class MemNode {
    /** The 64 children, or none for a leaf. */
    var entry: seq<MemNode>
    var count: nat
    var hash: Key
    ghost var Repr: set<MemNode>

    constructor (n: nat)
      ensures entry == [] && count == n && hash == 0 && Repr == {this}
    {
      entry, count, hash := [], n, 0;
      Repr := {this};
    }

    /** The children own disjoint parts of the tree. */
    ghost predicate Owns()
      reads this, Repr
    {
      && this in Repr
      && (forall i :: 0 <= i < |entry| ==>
            entry[i] in Repr && entry[i].Repr <= Repr && this !in entry[i].Repr)
      && (forall i, j :: 0 <= i < |entry| && 0 <= j < |entry| && i != j ==> entry[i].Repr !! entry[j].Repr)
    }

    ghost predicate KidsShape(sha: Sha, hashed: bool, keys: set<Key>, d: nat)
      reads this, Repr
      decreases 27 - d, 0
    {
      && d < 26 && |entry| == 64 && Owns()
      && forall i :: 0 <= i < 64 ==> entry[i].Shape(sha, hashed, Sub(keys, d, i), d + 1)
    }

    /** Index node iff more than 64 keys below, the exact count everywhere and,
        when `hashed`, the prescribed hash everywhere. */
    ghost predicate Shape(sha: Sha, hashed: bool, keys: set<Key>, d: nat)
      reads this, Repr
      decreases 27 - d, 1
    {
      && this in Repr
      && count == |keys|
      && (hashed ==> hash == TreeHash(sha, keys, d))
      && if IsIndex(keys, d) then KidsShape(sha, hashed, keys, d) else entry == []
    }

    /** The first `n` children are hashed. */
    ghost predicate PartHashed(sha: Sha, n: nat, keys: set<Key>, d: nat)
      reads this, Repr
    {
      && d < 26 && |entry| == 64 && Owns()
      && forall j :: 0 <= j < 64 ==> entry[j].Shape(sha, j < n, Sub(keys, d, j), d + 1)
    }

    /** Forgetting about the hashes. */
    lemma {:induction false} Unhashed(sha: Sha, hashed: bool, keys: set<Key>, d: nat)
      requires Shape(sha, hashed, keys, d)
      ensures Shape(sha, false, keys, d)
      decreases 27 - d, 1
    {
      if IsIndex(keys, d) {
        KidsUnhashed(sha, hashed, keys, d);
      }
    }

    lemma {:induction false} KidsUnhashed(sha: Sha, hashed: bool, keys: set<Key>, d: nat)
      requires KidsShape(sha, hashed, keys, d)
      ensures KidsShape(sha, false, keys, d)
      decreases 27 - d, 0
    {
      forall i | 0 <= i < 64 ensures entry[i].Shape(sha, false, Sub(keys, d, i), d + 1) {
        entry[i].Unhashed(sha, hashed, Sub(keys, d, i), d + 1);
      }
    }
  }

  class MerkleTree {
    const sha: Sha
    var root: MemNode
    var keylist: set<Key>
    var doRehash: bool

    /** The tree is the one MerkleSpec prescribes for its key list. */
    ghost predicate Valid(hashed: bool)
      reads this, root, root.Repr
    {
      root.Shape(sha, hashed, keylist, 0)
    }

    constructor (sha: Sha)
      ensures this.sha == sha && keylist == {} && doRehash && fresh(root) && fresh(root.Repr) && Valid(true)
    {
      this.sha := sha;
      root := new MemNode(0);
      keylist, doRehash := {}, true;
    }

    /** The hashes of the children of a node, in order. */
    static method ChildHashesOf(n: MemNode) returns (h: seq<Key>)
      ensures |h| == |n.entry|
      ensures forall i :: 0 <= i < |h| ==> h[i] == n.entry[i].hash
    {
      h := [];
      for i := 0 to |n.entry|
        invariant |h| == i && forall j :: 0 <= j < i ==> h[j] == n.entry[j].hash
      {
        h := h + [n.entry[i].hash];
      }
    }

    /** The hash of a node that holds keys, from the key list or from its children. */
    method Digest(d: nat, key: Key, n: MemNode, ghost hashed: bool, ghost keys: set<Key>) returns (h: Key)
      requires d <= 26 && n.count == |keys| > 0 && keys == Under(keylist, d, key)
      requires if IsIndex(keys, d) then n.KidsShape(sha, hashed, keys, d) else n.entry == []
      ensures hashed || n.entry == [] ==> h == TreeHash(sha, keys, d)
    {
      if n.entry == [] {
        var ks := KeyList.DatabaseGetKeys(keylist, d, ClearSuffix(key, d));
        assert Under(keylist, d, ClearSuffix(key, d)) == keys;
        h := sha(ks);
      } else {
        var hs := ChildHashesOf(n);
        assert hashed ==> hs == ChildHashes(sha, keys, d);
        h := sha(hs);
      }
    }

    /** Recomputes the hash of one node. */
    method Rehash(d: nat, key: Key, n: MemNode, ghost hashed: bool, ghost keys: set<Key>)
      requires d <= 26 && n in n.Repr && n.count == |keys| && keys == Under(keylist, d, key)
      requires hashed ==> doRehash
      requires if IsIndex(keys, d) then n.KidsShape(sha, hashed, keys, d) else n.entry == []
      modifies n`hash
      ensures n.Shape(sha, hashed, keys, d)
    {
      if doRehash {
        var h: Key := 0;
        if n.count != 0 {
          h := Digest(d, key, n, hashed, keys);
        }
        n.hash := h;
      }
    }

    /** How many keys of a node fall into each of its 64 slots. */
    method CountBlocks(d: nat, key: Key) returns (nblocks: seq<nat>)
      requires d <= 26
      ensures |nblocks| == 64
      ensures forall i :: 0 <= i < 64 ==> nblocks[i] == |Sub(Under(keylist, d, key), d, i)|
    {
      var ks := KeyList.DatabaseGetKeys(keylist, d, ClearSuffix(key, d));
      ghost var keys := Under(keylist, d, key);
      assert Under(keylist, d, ClearSuffix(key, d)) == keys;
      nblocks := CountSlots(ks, d);
      SortedElements(keys);
    }

    static method CountSlots(ks: seq<Key>, d: nat) returns (nblocks: seq<nat>)
      requires d <= 26 && Ascending(ks)
      ensures |nblocks| == 64 && forall i :: 0 <= i < 64 ==> nblocks[i] == |Sub(Elements(ks), d, i)|
    {
      nblocks := seq(64, _ => 0);
      for j := 0 to |ks|
        invariant |nblocks| == 64
        invariant forall i :: 0 <= i < 64 ==> nblocks[i] == |Sub(Elements(ks[..j]), d, i)|
      {
        var branch := Slot(ks[j], d);
        SlotRange(ks[j], d);
        CountOneMore(ks, j, d);
        nblocks := nblocks[branch := nblocks[branch] + 1];
      }
      assert ks[..|ks|] == ks;
    }

    static lemma {:induction false} CountOneMore(ks: seq<Key>, j: nat, d: nat)
      requires d <= 26 && Ascending(ks) && j < |ks|
      ensures forall i :: 0 <= i < 64 ==>
                |Sub(Elements(ks[..j + 1]), d, i)|
                == |Sub(Elements(ks[..j]), d, i)| + if i == Slot(ks[j], d) then 1 else 0
    {
      var before := Elements(ks[..j]);
      assert ks[..j + 1] == ks[..j] + [ks[j]];
      assert Elements(ks[..j + 1]) == before + {ks[j]};
      assert ks[j] !in before;
      forall i | 0 <= i < 64
        ensures |Sub(before + {ks[j]}, d, i)| == |Sub(before, d, i)| + if i == Slot(ks[j], d) then 1 else 0
      {
        SubInsert(before, d, ks[j], i);
      }
    }

    /** A child made by a split: a leaf with its count and hash. */
    method NewChild(d: nat, key: Key, i: nat, n: nat, ghost hashed: bool, ghost sub: set<Key>) returns (child: MemNode)
      requires d < 26 && i < 64 && sub == Sub(Under(keylist, d, key), d, i) && n == |sub| <= LEAF_MAX
      requires hashed ==> doRehash
      ensures fresh(child) && child.Repr == {child} && child.Shape(sha, hashed, sub, d + 1)
    {
      child := new MemNode(n);
      SubUnderChild(keylist, d, key, i);
      Rehash(d + 1, ChildPrefix(key, d, i), child, hashed, sub);
    }

    /** leaf2internal: the leaf becomes an index node over 64 new leaves. */
    method LeafToInternal(d: nat, key: Key, n: MemNode, ghost hashed: bool, ghost keys: set<Key>)
      requires d < 26 && keys == Under(keylist, d, key) && |keys| == LEAF_MAX && n in n.Repr
      requires hashed ==> doRehash
      modifies n`entry, n`Repr
      ensures n.KidsShape(sha, hashed, keys, d) && fresh(n.Repr - old(n.Repr))
    {
      var nblocks := CountBlocks(d, key);
      var kids: seq<MemNode> := [];
      for i := 0 to 64
        invariant |kids| == i
        invariant forall j :: 0 <= j < i ==> fresh(kids[j]) && kids[j].Repr == {kids[j]}
        invariant forall j, k :: 0 <= j < k < i ==> kids[j] != kids[k]
        invariant forall j :: 0 <= j < i ==> kids[j].Shape(sha, hashed, Sub(keys, d, j), d + 1)
      {
        SubCard(keys, d, i);
        var child := NewChild(d, key, i, nblocks[i], hashed, Sub(keys, d, i));
        kids := kids + [child];
      }
      n.entry := kids;
      n.Repr := {n} + set i | 0 <= i < 64 :: kids[i];
    }

    /** The recursive call of insert, into the child on the key's branch. */
    method InsertBelow(d: nat, key: Key, n: MemNode, ghost hashed: bool, ghost keys: set<Key>, ghost keys': set<Key>)
      requires d < 26 && n.KidsShape(sha, hashed, keys, d) && keys == Under(keylist, d, key)
      requires hashed ==> doRehash
      requires key !in keylist && keys' == keys + {key}
      modifies this`keylist, n.Repr
      ensures keylist == old(keylist) + {key}
      ensures n.KidsShape(sha, hashed, keys', d) && fresh(n.Repr - old(n.Repr))
      ensures n.count == old(n.count)
      decreases 27 - d, 0
    {
      var branch := Slot(key, d);
      ListInsertFacts(keylist, keys, keys', d, key);
      var child := n.entry[branch];
      InsertAt(d + 1, key, child, hashed, Sub(keys, d, branch), Sub(keys', d, branch));
      n.Repr := n.Repr + child.Repr;
      forall i | 0 <= i < 64 ensures n.entry[i].Shape(sha, hashed, Sub(keys', d, i), d + 1) {
        if i != branch {
          assert old(n.entry[i].Shape(sha, hashed, Sub(keys, d, i), d + 1));
          assert old(n.entry[i].Repr) !! old(child.Repr);
        }
      }
    }

    method InsertAt(d: nat, key: Key, n: MemNode, ghost hashed: bool, ghost keys: set<Key>, ghost keys': set<Key>)
      requires d <= 26 && n.Shape(sha, hashed, keys, d) && keys == Under(keylist, d, key)
      requires hashed ==> doRehash
      requires key !in keylist && keys' == keys + {key}
      modifies this`keylist, n.Repr
      ensures keylist == old(keylist) + {key}
      ensures n.Shape(sha, hashed, keys', d) && fresh(n.Repr - old(n.Repr))
      decreases 27 - d, 2
    {
      UnderInsert(keylist, d, key);
      if n.entry == [] && n.count < LEAF_MAX {
        keylist := keylist + {key};
        n.count := n.count + 1;
        Rehash(d, key, n, hashed, keys');
        return;
      }
      UnderShares(keylist + {key}, d, key);
      DepthBound(keys', d);
      if n.entry == [] {
        LeafToInternal(d, key, n, hashed, keys);
      }
      InsertIntoIndex(d, key, n, hashed, keys, keys');
    }

    method InsertIntoIndex(d: nat, key: Key, n: MemNode, ghost hashed: bool, ghost keys: set<Key>,
                           ghost keys': set<Key>)
      requires d < 26 && n.KidsShape(sha, hashed, keys, d) && keys == Under(keylist, d, key)
      requires hashed ==> doRehash
      requires key !in keylist && keys' == keys + {key} && n.count == |keys| >= LEAF_MAX
      modifies this`keylist, n.Repr
      ensures keylist == old(keylist) + {key}
      ensures n.Shape(sha, hashed, keys', d) && fresh(n.Repr - old(n.Repr))
      decreases 27 - d, 1
    {
      UnderInsert(keylist, d, key);
      InsertBelow(d, key, n, hashed, keys, keys');
      n.count := n.count + 1;
      Rehash(d, key, n, hashed, keys');
    }

    /** The recursive call of remove. */
    method RemoveBelow(d: nat, key: Key, n: MemNode, ghost hashed: bool, ghost keys: set<Key>, ghost keys': set<Key>)
      requires d < 26 && n.KidsShape(sha, hashed, keys, d) && keys == Under(keylist, d, key)
      requires hashed ==> doRehash
      requires key in keylist && keys' == keys - {key}
      modifies this`keylist, n.Repr
      ensures keylist == old(keylist) - {key}
      ensures n.KidsShape(sha, hashed, keys', d) && fresh(n.Repr - old(n.Repr))
      ensures n.count == old(n.count)
      decreases 27 - d, 0
    {
      var branch := Slot(key, d);
      ListRemoveFacts(keylist, keys, keys', d, key);
      var child := n.entry[branch];
      RemoveAt(d + 1, key, child, hashed, Sub(keys, d, branch), Sub(keys', d, branch));
      n.Repr := n.Repr + child.Repr;
      forall i | 0 <= i < 64 ensures n.entry[i].Shape(sha, hashed, Sub(keys', d, i), d + 1) {
        if i != branch {
          assert old(n.entry[i].Shape(sha, hashed, Sub(keys, d, i), d + 1));
          assert old(n.entry[i].Repr) !! old(child.Repr);
        }
      }
    }

    method RemoveAt(d: nat, key: Key, n: MemNode, ghost hashed: bool, ghost keys: set<Key>, ghost keys': set<Key>)
      requires d <= 26 && n.Shape(sha, hashed, keys, d) && keys == Under(keylist, d, key)
      requires hashed ==> doRehash
      requires key in keylist && keys' == keys - {key}
      modifies this`keylist, n.Repr
      ensures keylist == old(keylist) - {key}
      ensures n.Shape(sha, hashed, keys', d) && fresh(n.Repr - old(n.Repr))
      decreases 27 - d, 1
    {
      UnderInsert(keylist, d, key);
      UnderShares(keylist, d, key);
      if n.entry == [] {
        if |keys| > LEAF_MAX {
          DepthBound(keys, d);
        }
        keylist := keylist - {key};
      } else {
        RemoveBelow(d, key, n, hashed, keys, keys');
      }
      assert n.count != 0;
      n.count := n.count - 1;
      if n.entry != [] && n.count <= LEAF_MAX {
        n.entry := [];
        n.Repr := {n};
      }
      Rehash(d, key, n, hashed, keys');
    }

    /** _hash_tree: recomputes every hash bottom up.  The two results are the
        checks that end the program when they fail. */
    method HashTree(d: nat, prefix: Key, n: MemNode, ghost keys: set<Key>) returns (countOk: bool, hashOk: bool)
      requires d <= 26 && n.Shape(sha, false, keys, d) && keys == Under(keylist, d, prefix)
      modifies n.Repr`hash
      ensures n.Shape(sha, true, keys, d) && countOk
      ensures old(n.hash) == TreeHash(sha, keys, d) ==> hashOk
      decreases 27 - d
    {
      var ncount := 0;
      if n.entry != [] {
        ncount := HashChildren(d, prefix, n, keys);
      } else {
        var ks := KeyList.DatabaseGetKeys(keylist, d, ClearSuffix(prefix, d));
        assert Under(keylist, d, ClearSuffix(prefix, d)) == keys;
        ncount := |ks|;
      }
      countOk := ncount == n.count;
      var nhash: Key := 0;
      if n.count != 0 {
        nhash := Digest(d, prefix, n, true, keys);
      }
      hashOk := nhash == n.hash;
      n.hash := nhash;
    }

    /** One round of the loop of _hash_tree over the children. */
    method HashChild(d: nat, prefix: Key, n: MemNode, i: nat, ghost keys: set<Key>) returns (count: nat)
      requires d < 26 && i < 64 && n.PartHashed(sha, i, keys, d) && keys == Under(keylist, d, prefix)
      modifies n.entry[i].Repr`hash
      ensures n.PartHashed(sha, i + 1, keys, d)
      ensures count == |Sub(keys, d, i)|
      decreases 27 - d, 0
    {
      var child := n.entry[i];
      count := child.count;
      SubUnderChild(keylist, d, prefix, i);
      var _, _ := HashTree(d + 1, ChildPrefix(prefix, d, i), child, Sub(keys, d, i));
      forall j | 0 <= j < 64 ensures n.entry[j].Shape(sha, j < i + 1, Sub(keys, d, j), d + 1) {
        if j != i {
          assert old(n.entry[j].Shape(sha, j < i, Sub(keys, d, j), d + 1));
          assert n.entry[j].Repr !! child.Repr;
        }
      }
    }

    method HashChildren(d: nat, prefix: Key, n: MemNode, ghost keys: set<Key>) returns (ncount: nat)
      requires d < 26 && n.KidsShape(sha, false, keys, d) && keys == Under(keylist, d, prefix)
      modifies n.Repr`hash
      ensures n.KidsShape(sha, true, keys, d) && n.hash == old(n.hash)
      ensures ncount == |keys|
      decreases 27 - d, 1
    {
      ncount := 0;
      for i := 0 to 64
        invariant n.PartHashed(sha, i, keys, d) && n.hash == old(n.hash) && ncount == CountBelow(keys, d, i)
      {
        var c := HashChild(d, prefix, n, i, keys);
        ncount := ncount + c;
      }
      ChildrenCount(keys, d);
    }

    // ---------- the whole tree ----------

    /** merkle_tree::insert; inserting a key twice ends the program. */
    method Insert(key: Key, ghost hashed: bool)
      requires Valid(hashed) && (hashed ==> doRehash) && key !in keylist
      modifies this`keylist, root.Repr
      ensures Valid(hashed) && fresh(root.Repr - old(root.Repr))
      ensures keylist == old(keylist) + {key}
    {
      UnderRoot(keylist, key);
      InsertAt(0, key, root, hashed, keylist, keylist + {key});
    }

    method Remove(key: Key, ghost hashed: bool)
      requires Valid(hashed) && (hashed ==> doRehash) && key in keylist
      modifies this`keylist, root.Repr
      ensures Valid(hashed) && fresh(root.Repr - old(root.Repr))
      ensures keylist == old(keylist) - {key}
    {
      UnderRoot(keylist, key);
      RemoveAt(0, key, root, hashed, keylist, keylist - {key});
    }

    method InsertAll(keys: seq<Key>)
      requires Valid(false)
      requires NoRepeat(keys) && Elements(keys) !! keylist
      modifies this`keylist, root.Repr
      ensures Valid(false) && fresh(root.Repr - old(root.Repr))
      ensures keylist == old(keylist) + Elements(keys)
      decreases |keys|
    {
      if keys != [] {
        NoRepeatTail(keys);
        Insert(keys[0], false);
        InsertAll(keys[1..]);
      }
    }

    /** Switching the rehash off, inserting, and hashing at the end gives the same
        tree as rehashing all along. */
    method BulkLoad(keys: seq<Key>)
      requires Valid(false)
      requires NoRepeat(keys) && Elements(keys) !! keylist
      modifies this`keylist, this`doRehash, root.Repr
      ensures Valid(true) && doRehash && fresh(root.Repr - old(root.Repr))
      ensures keylist == old(keylist) + Elements(keys)
    {
      doRehash := false;
      InsertAll(keys);
      doRehash := true;
      UnderRoot(keylist, 0);
      var _, _ := HashTree(0, 0, root, keylist);
    }
  }

  lemma {:induction false} ListRemoveFacts(keylist: set<Key>, keys: set<Key>, keys': set<Key>, d: nat, key: Key)
    requires d < 26 && keys == Under(keylist, d, key) && keys' == keys - {key}
    ensures Slot(key, d) < 64
    ensures Sub(keys, d, Slot(key, d)) == Under(keylist, d + 1, key)
    ensures Sub(keys', d, Slot(key, d)) == Sub(keys, d, Slot(key, d)) - {key}
    ensures forall i :: 0 <= i < 64 && i != Slot(key, d) ==> Sub(keys', d, i) == Sub(keys, d, i)
  {
    SlotRange(key, d);
    SubUnder(keylist, d, key);
    forall i: nat ensures Sub(keys', d, i) == if i == Slot(key, d) then Sub(keys, d, i) - {key} else Sub(keys, d, i) {
      SubInsert(keys, d, key, i);
    }
  }

  ghost predicate NoRepeat(keys: seq<Key>) {
    forall i, j :: 0 <= i < j < |keys| ==> keys[i] != keys[j]
  }

  lemma {:induction false} NoRepeatTail(keys: seq<Key>)
    requires NoRepeat(keys) && keys != []
    ensures NoRepeat(keys[1..]) && keys[0] !in Elements(keys[1..])
    ensures Elements(keys) == {keys[0]} + Elements(keys[1..])
  {
    assert keys == [keys[0]] + keys[1..];
  }

  lemma {:induction false} UnderInsert(keylist: set<Key>, d: nat, key: Key)
    requires d <= 27
    ensures Under(keylist + {key}, d, key) == Under(keylist, d, key) + {key}
    ensures Under(keylist - {key}, d, key) == Under(keylist, d, key) - {key}
  {
  }

  lemma {:induction false} ListInsertFacts(keylist: set<Key>, keys: set<Key>, keys': set<Key>, d: nat, key: Key)
    requires d < 26 && keys == Under(keylist, d, key) && keys' == keys + {key}
    ensures Slot(key, d) < 64
    ensures Sub(keys, d, Slot(key, d)) == Under(keylist, d + 1, key)
    ensures Sub(keys', d, Slot(key, d)) == Sub(keys, d, Slot(key, d)) + {key}
    ensures forall i :: 0 <= i < 64 && i != Slot(key, d) ==> Sub(keys', d, i) == Sub(keys, d, i)
  {
    SlotRange(key, d);
    SubUnder(keylist, d, key);
    forall i: nat ensures Sub(keys', d, i) == if i == Slot(key, d) then Sub(keys, d, i) + {key} else Sub(keys, d, i) {
      SubInsert(keys, d, key, i);
    }
  }
}
