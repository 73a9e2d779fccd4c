/** Reading nodes of a tree in memory (merkle/merkle_tree.C, merkle/merkle_syncer.C,
    merkle/merkle_server.C): looking a node up and putting it on the wire.

    MerkleSync works on the key sets of the two trees.  Here the same answers are
    read off the nodes of a tree that is in the prescribed shape.
 */
module MerkleNodes {
  import opened Slots
  import opened MerkleSpec
  import opened MerkleHashes
  import opened MerkleMemory
  import opened SyncSpec
  import opened Options
  import KeyList

  /** merkle_tree::lookup: goes down from node n at depth `from` along the key's slots. */
  method Descend(maxDepth: nat, key: Key, n: MemNode, from: nat, ghost sha: Sha, ghost keys: set<Key>)
      returns (depth: nat, m: MemNode)
    requires from <= 26 && from <= maxDepth && NodeAt(keys, from, key)
    requires n.Shape(sha, true, Under(keys, from, key), from)
    ensures from <= depth <= 26 && depth <= maxDepth && NodeAt(keys, depth, key)
    ensures m.Shape(sha, true, Under(keys, depth, key), depth)
    ensures depth < maxDepth ==> !IsIndex(Under(keys, depth, key), depth)
    decreases 26 - from
  {
    if from == maxDepth || n.entry == [] {
      return from, n;
    }
    SlotRange(key, from);
    SubUnder(keys, from, key);
    var branch := Slot(key, from);
    depth, m := Descend(maxDepth, key, n.entry[branch], from + 1, sha, keys);
  }

  /** merkle_tree::lookup_exact: there is a node exactly where the key list has
      more than 64 keys at every depth above. */
  method LookupExact(tree: MerkleTree, depth: nat, key: Key) returns (n: Option<MemNode>)
    requires tree.Valid(true)
    ensures n.Some? <==> depth <= 26 && NodeAt(tree.keylist, depth, key)
    ensures n.Some? ==> n.value.Shape(tree.sha, true, Under(tree.keylist, depth, key), depth)
  {
    var d, m := FromRoot(tree, depth, key);
    n := if d != depth then None else Some(m);
  }

  method FromRoot(tree: MerkleTree, maxDepth: nat, key: Key) returns (depth: nat, m: MemNode)
    requires tree.Valid(true)
    ensures depth <= 26 && depth <= maxDepth && NodeAt(tree.keylist, depth, key)
    ensures m.Shape(tree.sha, true, Under(tree.keylist, depth, key), depth)
    ensures depth < maxDepth ==> !IsIndex(Under(tree.keylist, depth, key), depth)
  {
    UnderRoot(tree.keylist, key);
    depth, m := Descend(maxDepth, key, tree.root, 0, tree.sha, tree.keylist);
  }

  /** The hash stored in a child is the one its keys determine. */
  lemma {:induction false} KidHash(sha: Sha, n: MemNode, keys: set<Key>, d: nat, i: nat)
    requires n.Shape(sha, true, keys, d) && IsIndex(keys, d) && i < 64
    ensures |n.entry| == 64 && n.entry[i].hash == TreeHash(sha, Sub(keys, d, i), d + 1)
  {
    assert n.KidsShape(sha, true, keys, d);
    assert n.entry[i].Shape(sha, true, Sub(keys, d, i), d + 1);
  }

  /** format_rpcnode: what a node looks like on the wire is a function of the keys below it. */
  method FormatRpcNode(tree: MerkleTree, d: nat, p: Key, n: MemNode) returns (node: RpcNode)
    requires d <= 26 && ClearSuffix(p, d) == p && n.Shape(tree.sha, true, Under(tree.keylist, d, p), d)
    ensures node == Format(tree.sha, tree.keylist, d, p)
  {
    ghost var keys := Under(tree.keylist, d, p);
    if n.entry != [] {
      var hashes := MerkleTree.ChildHashesOf(n);
      forall i | 0 <= i < 64 ensures |n.entry| == 64 && hashes[i] == ChildHashes(tree.sha, keys, d)[i] {
        KidHash(tree.sha, n, keys, d, i);
      }
      assert hashes == ChildHashes(tree.sha, keys, d);
      node := RpcNode(d, p, n.count, n.hash, false, hashes);
    } else {
      var keylist := KeyList.DatabaseGetKeys(tree.keylist, d, p);
      node := RpcNode(d, p, n.count, n.hash, true, keylist);
    }
  }

  /** handle_send_node on a tree: None where the depths disagree, which the code
      asserts cannot be. */
  method HandleSendNode(tree: MerkleTree, depth: nat, prefix: Key) returns (node: Option<RpcNode>)
    requires tree.Valid(true)
    ensures node.Some? <==> depth <= 26 && NodeAt(tree.keylist, depth, prefix)
    ensures node.Some? ==> node.value == Format(tree.sha, tree.keylist, depth, ClearSuffix(prefix, depth))
  {
    var n := LookupExact(tree, depth, prefix);
    if n.None? {
      return None;
    }
    var p := ClearSuffix(prefix, depth);
    assert Under(tree.keylist, depth, p) == Under(tree.keylist, depth, prefix);
    var answer := FormatRpcNode(tree, depth, p, n.value);
    node := Some(answer);
  }

  /** A branch of a node that is looked at in next: the hash stored in the child's
      node is the one that the child's keys determine. */
  method ChildHash(n: MemNode, i: nat, ghost sha: Sha, ghost keys: set<Key>, ghost d: nat, ghost p: Key)
      returns (h: Key)
    requires d < 26 && i < 64 && n.Shape(sha, true, Under(keys, d, p), d) && IsIndex(Under(keys, d, p), d)
    ensures h == TreeHash(sha, Under(keys, d + 1, ChildPrefix(p, d, i)), d + 1)
  {
    KidHash(sha, n, Under(keys, d, p), d, i);
    SubUnderChild(keys, d, p, i);
    h := n.entry[i].hash;
  }
}
