/** Runs of inserts and removes on the memory tree and the disk tree together. */
module MerkleAgreement {
  import opened Slots
  import opened MerkleSpec
  import opened DiskLayout
  import opened MerkleMemory
  import opened MerkleDisk

  datatype Op = Insert(key: Key) | Remove(key: Key)

  /** The key set after a run. */
  ghost function Replayed(keys: set<Key>, ops: seq<Op>): set<Key>
    decreases |ops|
  {
    if ops == [] then keys else Replayed(Applied(keys, ops[0]), ops[1..])
  }

  function Applied(keys: set<Key>, op: Op): set<Key> {
    match op
    case Insert(k) => keys + {k}
    case Remove(k) => keys - {k}
  }

  /** No key is inserted twice or removed when absent. */
  ghost predicate Legal(keys: set<Key>, ops: seq<Op>)
    decreases |ops|
  {
    ops != [] ==>
      && (ops[0].Insert? <==> ops[0].key !in keys)
      && Legal(Applied(keys, ops[0]), ops[1..])
  }

  method Apply(mem: MerkleTree, disk: MerkleTreeDisk, op: Op)
    requires mem.Valid(true) && mem.doRehash && mem.sha == disk.sha
    requires disk.Open(mem.keylist) && (op.Insert? <==> op.key !in mem.keylist)
    modifies mem`keylist, mem.root.Repr, disk
    ensures mem.keylist == Applied(old(mem.keylist), op)
    ensures mem.Valid(true) && fresh(mem.root.Repr - old(mem.root.Repr))
    ensures disk.Open(mem.keylist)
  {
    ApplyToDisk(disk, op, mem.keylist);
    ApplyToMemory(mem, op);
  }

  method ApplyToDisk(disk: MerkleTreeDisk, op: Op, ghost keys: set<Key>)
    requires disk.Open(keys) && (op.Insert? <==> op.key !in keys)
    modifies disk
    ensures disk.Open(Applied(keys, op))
  {
    match op
    case Insert(k) => disk.Insert(k, keys);
    case Remove(k) => disk.Remove(k, keys);
  }

  method ApplyToMemory(mem: MerkleTree, op: Op)
    requires mem.Valid(true) && mem.doRehash && (op.Insert? <==> op.key !in mem.keylist)
    modifies mem`keylist, mem.root.Repr
    ensures mem.keylist == Applied(old(mem.keylist), op)
    ensures mem.Valid(true) && fresh(mem.root.Repr - old(mem.root.Repr))
  {
    match op
    case Insert(k) => mem.Insert(k, true);
    case Remove(k) => mem.Remove(k, true);
  }

  /** History independence: whatever the run, the nodes in memory and the
      committed image are those prescribed for the final key set. */
  method Replay(mem: MerkleTree, disk: MerkleTreeDisk, ops: seq<Op>)
    requires mem.Valid(true) && mem.doRehash && mem.sha == disk.sha
    requires disk.Open(mem.keylist) && Legal(mem.keylist, ops)
    modifies mem`keylist, mem.root.Repr, disk
    ensures mem.keylist == Replayed(old(mem.keylist), ops)
    ensures mem.Valid(true) && disk.Open(mem.keylist)
    decreases |ops|
  {
    if ops != [] {
      Apply(mem, disk, ops[0]);
      Replay(mem, disk, ops[1..]);
    }
  }

  /** The hash a reader computes for the committed root is the memory tree's. */
  method CommittedHash(sha: Sha, img: Image, ghost keys: set<Key>) returns (hash: Key)
    requires Decodes(sha, img, keys)
    ensures hash == TreeHash(sha, keys, 0)
  {
    ghost var lay :| Commits(sha, img, lay, keys);
    SortedElements(keys);
    var root := new DiskNode.Load(sha, img.files, img.index.md.root);
    hash := root.hash;
  }
}
