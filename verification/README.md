# Verified model of chord-0.1-vasil

A Dafny model of the parts of the Chord/DHash system with the most state and
arithmetic, and proofs of what they keep. `dafny verify dfyconfig.toml` checks it.

- **Merkle index.** Keys are 160-bit numbers read as 26 slots of six bits and one of
  four (`Slots`; `HashSlots` has the loops over the 20 bytes). A tree is described by
  its key set alone: a node is an index node exactly if more than 64 keys lie below it,
  its count is their number and its hash a function of them (`MerkleSpec`). The tree in
  memory (`MerkleMemory`) and the copy-on-write tree on disk (`MerkleDisk`, over the
  block accounting of `DiskLayout`) are proved to be that tree after every operation,
  and to agree (`MerkleAgreement`). Scans are `KeyList` and `DiskScan`.
- **Synchronisation.** Nodes as they are looked up and put on the wire (`MerkleNodes`),
  the walk over two trees (`MerkleSync`, with its bookkeeping in `SyncSpec` and the
  regions left to the key pager in `SyncPages`), the pager's range (`SyncPager`), its loop
  over pages of 64 keys (`KeyPager`), when its runs are right (`PagerExact`,
  `PagerRight`), and walk and pagers together (`SyncWhole`). SHA-1 is an arbitrary
  function of a node's content; where equal hashes have to mean equal keys, the
  assumption is only that no two of the contents that occur in the two trees collide
  (`MerkleHashes`).
- **Signatures.** Polynomials over GF(2) as vectors of 32-bit words (`PolyBits`,
  `PolyWords`, `PolyProducts`), proved against polynomial algebra (`Poly`,
  `PolyDivides`); and the index over them: names (`SternBrocot`, `SignatureTiling`),
  search (`SignatureQuery`), choices (`SignatureChoice`, `SignatureDivision`), writes,
  splits and insertion (`SignatureSpec`, `SignatureSplits`, `SignatureUpkeep`,
  `SignatureExcess`, `SignatureWrites`, `SignatureInsert`, `SignatureWrongParent`,
  `SignatureDescent`, `SignatureIndex`, `SignatureFailure`).
- **Lookup.** An ideal ring (`Ring`), iterative lookup, also with hops that fail
  (`Lookup`), and the recursive lookup that shaves and splices successor lists
  (`RecRoute`).
- **DHash and transport.** Reassembly of fragments (`Reassembly`), serialised stores and
  the version rule (`Stores`), and the congestion window and queue (`Stp`).

Code that updates state in place is modelled by classes and loops, each proved against
a specification on values; what has to hold over whole runs is proved of those. `Guard`
holds a device that keeps long definitions folded in proofs that only pass them on.

## Findings

Behaviour of the code that a reader might not expect, each with its exact condition.

- *Insertion into the signature index can break it.* The loop at gis_chordID.C:1838-1842
  hands `performSplit` a node that is not the parent whenever the parent of the full leaf
  is full too. Afterwards the index is sound with the same documents if and only if that
  parent was not full (`SignatureWrongParent.SoundExactlyIf`); if the full parent is the
  root, some document is in the index more often than before.
  `SignatureFailure.FailingInsertion` gives an index of 500 leaves of 500 documents on
  which every insertion fails; it is a stored sound index, and that the program's own
  insertions lead to it is not shown.
- *The insertion loop makes few attempts.* Each split under a parent with room takes
  something off the excess of the leaves over their limit, so the loop either inserts the
  document or meets a full parent after at most that excess plus one attempts
  (`SignatureIndex.SignatureTree.InsertLoop`).
- *A root split empties the root first.* Between two of its writes no document can be
  found (`SignatureIndex.SignatureTree.PerformSplitRoot`, `SignatureWrites.NothingFound`).
  A split of another node under its true parent has no such moment.
- *A failed write loses a block.* A replaced block is removed before the new one is
  written, so a write that fails then leaves nothing. No update is lost if and only if no
  write that followed a removal failed, and under the same condition no version goes down
  from one writer to the next (`Stores.NoLossIff`, `Stores.VersionsIff`; a failing run is
  `Stores.LostUpdate`). In between, while a write is outstanding, the key is absent, so a
  fetch that comes then finds nothing (`Stores.ReplicatedSrv.AbsentBeforeWrite`).
- *The key pager looks too far.* Below the root the width at merkle_syncer.C:410 is that of
  one bit per level instead of six, and the range is constrained to the host's by tests
  that do not see every way of wrapping around. The pages cover the host's range inside the
  node if and only if `SyncPager.Fits`, a condition on depth, prefix and the two ends
  (`SyncPager.PagesFitIff`): for a range that does not wrap around, that it ends inside the
  node and not at its first key. Over all key sets for which the walk calls the pager, its
  runs are right up to the next point if and only if that holds
  (`PagerRight.PagerRightIff`). `PagerRight.FalseReport` is a run that reports a key as
  missing that both sides have.
- *The last page is cut.* The last page is compared only up to the last remote key, so local
  keys behind it are not reported, also where the range fits (`PagerRight.MissedKey`). If
  that page is a single key at its own start, it is compared around the whole circle. A run
  over a range that fits is right if and only if neither harms
  (`PagerExact.NothingCut`, `PagerRight.RightIff`), and what one run leaves out or reports
  wrongly no other run makes good (`SyncWhole.Synchronise`).
- *One range never ends.* Over the whole ring, from the root, for a host's range that
  starts and ends at an end of the identifiers, the pager starts again when it is through;
  for all other ranges it stops (`SyncPager.EndsIff`).
- *A failed successor hides all fingers.* `closestpred` takes the node itself for its
  result when the walk along the successors does not leave the node, even if there is a
  good finger. No good finger lies beyond the choice if and only if the node's own
  successor is good or no finger is (`Lookup.FurthestIff`; nodes and a key for which the
  key's predecessor is passed over: `Lookup.GoodFingerIgnored`). So a search gives up with
  an error exactly at a node that is not the key's predecessor and whose own successor is
  among the failed nodes (`Lookup.DoRoute`, `Lookup.RouteChord.Search`).
- *Recursive lookup and short successor lists.* Without failures and with true lists a
  lookup for m successors is answered if and only if a list holds m, or is shaved and holds
  more than half of m (`RecRoute.RecLookup`); otherwise the key's predecessor drops it.
- *Block files are not flushed.* `write_metadata` flushes the index file alone
  (merkle_tree_disk.C:315), so a crash, or another process, can see an index whose blocks
  have not reached their files. The crash safety proved here is about the order in which
  writes are issued, and assumes that blocks reach their files before the index does.
- *A leaf of the memory tree at the bottom.* The question left in merkle_node.C:39 has an
  answer: at most sixteen keys share 26 slots, so no node at depth 26 is ever full
  (`MerkleSpec.DepthBound`).

## Model

| member | source | states |
|---|---|---|
| Ids.IntervalsAreArcs | chord-0.1-vasil/utils/id_utils.C:125-194 | The five circular interval tests are statements about clockwise distance; between a and a the closed ones hold of everything. |
| HashSlots.MerkleHash.ReadSlot | chord-0.1-vasil/merkle/merkle_hash.C:79-87 | The loop over six (or four) bits yields slot `slotno` of the number the bytes stand for, below 64. |
| HashSlots.MerkleHash.WriteSlot | chord-0.1-vasil/merkle/merkle_hash.C:90-98 | The slot takes the value, all other slots and the prefix stay; on a cleared prefix the result is the child's prefix. |
| HashSlots.MerkleHash.ClearFrom | chord-0.1-vasil/merkle/merkle_hash.C:106-111 | Clearing slot after slot leaves the least number with the same prefix. |
| HashSlots.MerkleHash.Cmp | chord-0.1-vasil/merkle/merkle_hash.C:117-128 | The bytewise comparison is the order of the numbers. |
| HashSlots.PrefixMatch | chord-0.1-vasil/merkle/merkle_hash.h:95-102 | True exactly if the two numbers have the same prefix. |
| Slots.OrderIsLexicographic | chord-0.1-vasil/merkle/merkle_hash.C:72-128 | Numeric order of keys is the lexicographic order of their slots. |
| Slots.SharesIsInterval | chord-0.1-vasil/merkle/merkle_tree.C:352-366 | The keys with a given prefix are one contiguous block, so a scan may stop at the first key outside. |
| Slots.ChildPrefixFacts | chord-0.1-vasil/merkle/merkle_syncer.C:174-180 | A child's prefix extends its parent's by the slot and is itself cleared. |
| MerkleSpec.DepthBound | chord-0.1-vasil/merkle/merkle_node.C:36-42 | More than sixteen keys never share 26 slots: no node at the last depth fills up. |
| MerkleSpec.ChildrenCount | chord-0.1-vasil/merkle/merkle_tree.C:45-101 | The counts of the 64 children of a node add up to its own. |
| KeyList.ClosestSucc | chord-0.1-vasil/merkle/merkle_tree.C:6-31 | The least key not below the argument, or the first key if there is none; nothing if the list is empty. |
| KeyList.DatabaseGetKeys | chord-0.1-vasil/merkle/merkle_tree.C:352-366 | One scan that stops early yields all keys below a node, in order. |
| KeyList.GetKeyRange | chord-0.1-vasil/merkle/merkle_tree.C:378-391 | The n least keys, in order, of what a scan of the range comes upon: for min < max the keys of [min, max], otherwise the keys from min on, or, if there are none, those up to max. |
| MerkleMemory.MerkleTree.Insert | chord-0.1-vasil/merkle/merkle_tree.C:215-246 | The key list grows by the key and every node is again the one prescribed for it, hashes included if they were kept. |
| MerkleMemory.MerkleTree.Remove | chord-0.1-vasil/merkle/merkle_tree.C:194-212 | The same for a removed key; a node back at 64 keys is a leaf again. |
| MerkleMemory.MerkleTree.LeafToInternal | chord-0.1-vasil/merkle/merkle_tree.C:170-191 | A full leaf becomes an index node over 64 leaves with the right counts. |
| MerkleMemory.MerkleTree.CountBlocks | chord-0.1-vasil/merkle/merkle_tree.C:150-168 | Per slot, the number of keys below the node that fall into it. |
| MerkleMemory.MerkleTree.HashTree | chord-0.1-vasil/merkle/merkle_tree.C:45-101 | All hashes below are recomputed correctly; the count check never fails, and the hash check not where the old hash was right. |
| MerkleMemory.MerkleTree.BulkLoad | chord-0.1-vasil/merkle/merkle_tree.C:96-119 | Inserting with rehashing switched off and hashing at the end gives the same tree as rehashing all along. |
| MerkleDisk.Distribute | chord-0.1-vasil/merkle/merkle_tree_disk.C:512-558 | The keys of a full leaf are sorted into 64 parts, each in key order. |
| MerkleDisk.MerkleTreeDisk.AllocLeaf | chord-0.1-vasil/merkle/merkle_tree_disk.C:395-421 | The block handed out belongs neither to the committed tree nor to the blocks freed since; no block is lost or doubled, and the counter moves only when no free leaf block is left. |
| MerkleDisk.MerkleTreeDisk.FreeBlock | chord-0.1-vasil/merkle/merkle_tree_disk.C:380-393 | A freed block waits in the future list and is not used again before the next commit. |
| MerkleDisk.MerkleTreeDisk.Relocate | chord-0.1-vasil/merkle/merkle_tree_disk.C:494-501 | A node moves to a fresh block; every write goes to a block the committed tree does not use. |
| MerkleDisk.MerkleTreeDisk.LeafToInternal | chord-0.1-vasil/merkle/merkle_tree_disk.C:512-558 | A full leaf becomes an index node over 64 new leaf blocks holding its keys. |
| MerkleDisk.MerkleTreeDisk.Collapse | chord-0.1-vasil/merkle/merkle_tree_disk.C:466-491 | An index node back at 64 keys absorbs its children, all of them leaves, and frees their blocks. |
| MerkleDisk.MerkleTreeDisk.WriteMetadata | chord-0.1-vasil/merkle/merkle_tree_disk.C:274-316 | After the index file is rewritten the image commits the tree, and the freed blocks are free. |
| MerkleDisk.MerkleTreeDisk.GetRoot | chord-0.1-vasil/merkle/merkle_tree_disk.C:318-360 | Reading the index back restores root and free lists: together with the tree they are all blocks, each once. |
| MerkleDisk.MerkleTreeDisk.Create | chord-0.1-vasil/merkle/merkle_tree_disk.C:318-338 | Opening files without an index commits the empty tree. |
| MerkleDisk.MerkleTreeDisk.Reopen | chord-0.1-vasil/merkle/merkle_tree_disk.C:247-265 | Any committed image can be opened again and holds the same keys. |
| MerkleDisk.MerkleTreeDisk.Insert | chord-0.1-vasil/merkle/merkle_tree_disk.C:560-616 | In the order the writes are issued, every image before the last decodes to the old key set and the last to the new one; blocks in use and free are again all blocks, each once, and the files grow only if every block of the kind that was free has been taken. |
| MerkleDisk.MerkleTreeDisk.Remove | chord-0.1-vasil/merkle/merkle_tree_disk.C:439-510 | The same for a removed key. |
| MerkleDisk.StepIsCrashSafe | chord-0.1-vasil/merkle/merkle_tree_disk.C:274-316 | Whatever an operation writes before its commit, every image in between still decodes to the committed keys. |
| MerkleDisk.StepConserves | chord-0.1-vasil/merkle/merkle_tree_disk.C:380-421 | Blocks in use, free and freed stay exactly the blocks that exist. |
| MerkleDisk.StepRecycles | chord-0.1-vasil/merkle/merkle_tree_disk.C:395-437 | Between two committed images: a counter has grown only if each block of its kind that was free is in the new tree or was taken and freed again. |
| DiskLayout.HalvesConserve | chord-0.1-vasil/merkle/merkle_tree_disk.C:343-356 | Splitting the stored free list by its low bit loses nothing. |
| DiskLayout.LiveSurvives | chord-0.1-vasil/merkle/merkle_tree_disk.C:494-501 | Writes to blocks not in use leave every tree in use readable. |
| MerkleAgreement.Replay | chord-0.1-vasil/merkle/merkle_tree.C:194-246 | After any run of inserts and removes the memory tree and the disk tree are both the ones prescribed for the final key set, whatever the order. |
| MerkleAgreement.CommittedHash | chord-0.1-vasil/merkle/merkle_tree_disk.C:97-122 | The root hash a reader computes from a committed image is the memory tree's. |
| MerkleNodes.LookupExact | chord-0.1-vasil/merkle/merkle_tree.C:302-327 | On a tree in the prescribed shape there is a node at a depth exactly if all nodes above have more than 64 keys, and it is the one of the keys with the prefix. |
| MerkleNodes.FormatRpcNode | chord-0.1-vasil/merkle/merkle_syncer.C:427-459 | The node on the wire, child hashes or keys included, is determined by the keys below it. |
| MerkleNodes.HandleSendNode | chord-0.1-vasil/merkle/merkle_server.C:35-59 | The server reads exactly that off its tree, and the depths agree exactly if it has the node. |
| DiskScan.GetKeyRange | chord-0.1-vasil/merkle/merkle_tree_disk.C:713-793 | For min < max the recursive scan on disk yields the n least keys of [min, max] in order, the same list as in memory. |
| MerkleHashes.HashIdentifies | chord-0.1-vasil/merkle/merkle_tree_disk.C:97-122 | If no two contents that occur collide, equal node hashes mean equal key sets. |
| MerkleSync.CompareKeylists | chord-0.1-vasil/merkle/merkle_syncer.C:347-385 | Exactly the differences of the two lists within the range are reported, each once and with the right side. |
| MerkleSync.HandleSendNode | chord-0.1-vasil/merkle/merkle_server.C:35-59 | The answer describes the node asked for; the depths agree. |
| SyncPages.OverlapIsCommonPoint | chord-0.1-vasil/merkle/merkle_syncer.C:50-57 | The overlap test is true exactly if the two circular ranges share a point. |
| MerkleSync.Syncer.Sync | chord-0.1-vasil/merkle/merkle_syncer.C:81-90 | The walk ends, at the first message that fails or when nothing is left, and reports differences only, each once. If all messages are answered it reports all differences in range outside the regions handed to the pager, and those are exactly the fetched regions with a local leaf and a remote index node. |
| MerkleSync.Syncer.Next | chord-0.1-vasil/merkle/merkle_syncer.C:142-211 | Between messages: what is reported, paged or still on the stack is everything, and what is left gets smaller. |
| MerkleSync.Syncer.SendNodeCb | chord-0.1-vasil/merkle/merkle_syncer.C:255-273 | The same across the arrival of a node, for all four pairs of leaf and index node. |
| MerkleSync.Syncer.Exchange | chord-0.1-vasil/merkle/merkle_syncer.C:218-273 | One message and its answer: a failed one ends the walk with the error set, and what was reported till then are differences, each once. |
| MerkleSync.TrustedFromRoots | chord-0.1-vasil/merkle/merkle_syncer.C:164-196 | It is enough for the walk that the contents below the two roots do not collide. |
| SyncPager.PagesInsideIff | chord-0.1-vasil/merkle/merkle_syncer.C:407-417 | The range as computed and constrained shows no key past the node exactly under the condition given above. |
| SyncPager.PagesFitIff | chord-0.1-vasil/merkle/merkle_syncer.C:407-417 | The computed and constrained range holds exactly the keys of the host's range inside the node if and only if Fits. |
| SyncPager.EndsIff | chord-0.1-vasil/merkle/merkle_syncer.C:280-288 | The key after the end of the range is outside it, so that the pager stops, except for one kind of range at the root. |
| KeyPager.GetKeys | chord-0.1-vasil/merkle/merkle_server.C:18-33 | The first 64 keys found, and whether there are more. |
| KeyPager.KeyRange.GetKeysCb | chord-0.1-vasil/merkle/merkle_syncer.C:301-331 | The differences between the start of the page and the last key sent, or the end of the range if none was sent. |
| KeyPager.KeyRange.Run | chord-0.1-vasil/merkle/merkle_syncer.C:280-331 | What all pages together report: the differences up to the last remote key, each once, or, if the last page is one key at its own start, that page compared around the circle. |
| PagerExact.RanIsWhole | chord-0.1-vasil/merkle/merkle_syncer.C:280-331 | A run reports exactly the differences of its range, each once, if and only if no local key is cut off or compared around the circle. |
| PagerRight.RightIff | chord-0.1-vasil/merkle/merkle_syncer.C:387-423 | For a range that fits, a run reports exactly the differences below the region in the host's range if and only if nothing is cut off. |
| PagerRight.PagerRightIff | chord-0.1-vasil/merkle/merkle_syncer.C:407-417 | Over all key sets whose walk hands the region over, every run with nothing cut off is right if and only if the range fits. |
| PagerRight.FalseReport | chord-0.1-vasil/merkle/merkle_syncer.C:407-417 | A region that the walk hands over and a run on it in which a key both sides have is reported as missing here. |
| PagerRight.MissedKey | chord-0.1-vasil/merkle/merkle_syncer.C:321-328 | A region handed over and a range that fits, where a local key behind the last remote one is never reported. |
| SyncWhole.Synchronise | chord-0.1-vasil/merkle/merkle_syncer.C:81-90 | Walk and pagers together: exactly the differences in range are reported, each once, if for every region handed over the range fits and nothing is cut off; and only if, when all ranges fit and the host's range does not wrap around. |
| PolyWords.Degree | chord-0.1-vasil/tools/utils.C:310-336 | The degree of the polynomial, or -1 for zero. |
| PolyWords.ShiftLeft | chord-0.1-vasil/tools/utils.C:338-385 | Every coefficient moves up by the number of places; a word is added in front exactly if needed. |
| PolyWords.ShiftRight | chord-0.1-vasil/tools/utils.C:387-434 | Seen from the leading end every coefficient moves down; a front word that empties is dropped. By 0 or 32 places nothing happens. |
| PolyWords.LongDivision | chord-0.1-vasil/tools/utils.C:512-666 | The loop of remainder and quotient: f = q * g + r with r zero or of lower degree than g. |
| PolyWords.Remainder | chord-0.1-vasil/tools/utils.C:512-585 | The normalised remainder, also for a dividend of lower degree. |
| PolyWords.Quotient | chord-0.1-vasil/tools/utils.C:587-666 | The normalised quotient. |
| PolyWords.DivisionUnique | chord-0.1-vasil/tools/utils.C:512-666 | Quotient and remainder are determined by the division identity. |
| PolyWords.Gcd | chord-0.1-vasil/tools/utils.C:456-467 | Terminates by degree with the greatest common divisor, a combination of the arguments, in normal form. |
| PolyWords.GcdSpecial | chord-0.1-vasil/tools/utils.C:437-454 | The same whichever operand has the higher degree. |
| PolyProducts.MultiplyWords | chord-0.1-vasil/tools/utils.C:103-128 | One word times one word, added to the carry, fits 64 bits and is the product in GF(2)[x]. |
| PolyProducts.MultiplyWord | chord-0.1-vasil/tools/utils.C:131-163 | A vector times a word is the product. |
| PolyProducts.AddPoly | chord-0.1-vasil/tools/utils.C:494-510 | The sum, for operands of any two lengths. |
| PolyProducts.MultiplyPoly | chord-0.1-vasil/tools/utils.C:469-492 | The product, and in normal form if neither factor is zero. |
| PolyProducts.Lcm | chord-0.1-vasil/tools/utils.C:668-716 | The least common multiple, and in normal form if the first polynomial is not zero. |
| PolyProducts.LcmIsDetermined | chord-0.1-vasil/tools/utils.C:668-716 | As vectors: lcm (t, s) and lcm (s, t) are the same. |
| PolyProducts.LcmOfThree | chord-0.1-vasil/tools/utils.C:668-716 | Both ways of folding three polynomials give the same vector. |
| PolyProducts.LcmOfSame | chord-0.1-vasil/tools/utils.C:668-716 | lcm (t, t) is t. |
| SternBrocot.MediantSplits | chord-0.1-vasil/tools/gis_chordID.C:1571-1594 | The mediant lies strictly inside the interval and both parts satisfy rn * ld - ln * rd = 1. |
| SternBrocot.OneSpan | chord-0.1-vasil/tools/gis_chordID.C:1571-1594 | A fraction lies in no two intervals that are apart. |
| SignatureTiling.SiblingIsNew | chord-0.1-vasil/tools/gis_chordID.C:1571-1594 | The name of the sibling a split creates is not in use. |
| SignatureTiling.TiledAfterSplit | chord-0.1-vasil/tools/gis_chordID.C:1162-1180 | After a split the intervals of each level still tile [0, 1]. |
| SignatureTiling.TiledAfterRootSplit | chord-0.1-vasil/tools/gis_chordID.C:1349-1376 | After a root split too, with one level more. |
| SignatureQuery.TestDivides | chord-0.1-vasil/tools/gis_chordID.C:1947-1962 | The divisibility test with its degree shortcut is exact. |
| SignatureQuery.Prune | chord-0.1-vasil/tools/gis_chordID.C:1941-1967 | The query signatures kept for a subtree are those from the first that divides the link's on; they answer the same below it as all of them. |
| SignatureQuery.QueryProcess | chord-0.1-vasil/tools/gis_chordID.C:1869-1982 | The descent counts exactly the documents on the paths whose links stay divisible, in any tree; in a covered one these are the covered documents divisible by some query signature. |
| SignatureQuery.VerifyProcess | chord-0.1-vasil/tools/gis_chordID.C:660-751 | The scan counts the documents divisible by some query signature. |
| SignatureQuery.QueryAgainstScan | chord-0.1-vasil/tools/gis_chordID.C:660-751 | On a sound index with the documents of the file, the pruned search counts what the scan counts. |
| SignatureSpec.CoveredIsFound | chord-0.1-vasil/tools/gis_chordID.C:1869-1982 | If every inner signature is a multiple of those below, a pruned search can reach every document. |
| SignatureChoice.PickChild | chord-0.1-vasil/tools/gis_chordID.C:775-822 | The first child that none beats in similarity, ties going to the lower degree. |
| SignatureChoice.Seeds | chord-0.1-vasil/tools/gis_chordID.C:861-893 | The two seeds are the first of the least similar pairs, in the order of degree and position. |
| SignatureChoice.SplitNode | chord-0.1-vasil/tools/gis_chordID.C:825-958 | The first least similar pair are the seeds; every other entry, in order, is in the group to whose lcm it was more similar when it was placed, ties going to the smaller group; each group has its least common multiple. |
| SignatureDivision.DivisionUnique | chord-0.1-vasil/tools/gis_chordID.C:825-958 | That determines both groups: the entries and the metric decide how a node is divided. |
| SignatureWrites.AdjustEntries | chord-0.1-vasil/tools/gis_chordID.C:1077-1131 | An update takes the least common multiple into every entry with the key, a replacement the new signature; a key not found is appended, unless only present ones are to be updated. |
| SignatureWrites.AdjustSplit | chord-0.1-vasil/tools/gis_chordID.C:1192-1268 | A full node loses the entries with the listed keys; a node with only a header takes the list; any other node stays. |
| SignatureIndex.SignatureTree.InsertHeader | chord-0.1-vasil/tools/gis_chordID.C:1132-1191 | The first header stays if it is locked; an update can only shrink the right end, and raise the level of the root. |
| SignatureWrites.StepsKeepFound | chord-0.1-vasil/tools/gis_chordID.C:1563-1661 | Under the true parent, at each of the six stored states of a split every document can still be found. |
| SignatureWrites.NothingFound | chord-0.1-vasil/tools/gis_chordID.C:1390-1462 | While the root is empty no document can be found. |
| SignatureUpkeep.SplitIsSound | chord-0.1-vasil/tools/gis_chordID.C:1511-1737 | A split under the true parent keeps the index sound: names, links, levels, single parents and covers. |
| SignatureUpkeep.SplitKeepsDocs | chord-0.1-vasil/tools/gis_chordID.C:1511-1737 | And the documents, counted with repeats. |
| SignatureUpkeep.RootSplitIsSound | chord-0.1-vasil/tools/gis_chordID.C:1288-1508 | A root split keeps the index sound, one level higher. |
| SignatureUpkeep.FirstIndexIsSound | chord-0.1-vasil/tools/gis_chordID.C:304-360 | The index the program starts with is sound and holds no document. |
| SignatureIndex.SignatureTree.constructor | chord-0.1-vasil/tools/gis_chordID.C:304-360 | A root over one empty leaf with signature 1. |
| SignatureIndex.SignatureTree.PerformSplit | chord-0.1-vasil/tools/gis_chordID.C:1511-1737 | The six writes of the division of SplitNode and their outcome, for the true parent and for a wrong one; nothing happens if the header has changed. |
| SignatureIndex.SignatureTree.PerformSplitRoot | chord-0.1-vasil/tools/gis_chordID.C:1288-1508 | The division of SplitNode, one level higher: sound afterwards with the same documents, but one stored state in between has an empty root. |
| SignatureIndex.SignatureTree.SplitFullNodes | chord-0.1-vasil/tools/gis_chordID.C:1836-1842 | Each full node is divided under the one before it, the deepest under the node handed in, where a link to it is left. |
| SignatureIndex.SignatureTree.InsertDocument | chord-0.1-vasil/tools/gis_chordID.C:1740-1867 | Every link followed down is one that no entry of its node beats; with room in the leaf there, the leaf gets the entry, the links followed are raised, and nothing else changes; a full leaf leads to the splits of the full nodes above it, with the outcome of Reinserted. |
| SignatureIndex.SignatureTree.InsertFromRoot | chord-0.1-vasil/tools/gis_chordID.C:1740-1867 | The same from the root: with room in the leaf the index is sound and the document is added, or merged with an entry of the same id; else Reinserted. |
| SignatureDescent.BestIsUnbeaten | chord-0.1-vasil/tools/gis_chordID.C:775-822 | The link picked is the first that no entry of the node beats in similarity, ties going to the lower degree. |
| SignatureIndex.SignatureTree.InsertLoop | chord-0.1-vasil/tools/gis_chordID.C:595-611 | At most one attempt more than the excess of the leaves over their limit; then the document is in a sound index, or a full leaf was split whose parent was full too. |
| SignatureExcess.SplitDrops | chord-0.1-vasil/tools/gis_chordID.C:1511-1737 | A split of a full leaf lowers that excess. |
| SignatureInsert.NewDocAdded | chord-0.1-vasil/tools/gis_chordID.C:1077-1131 | A document whose id is not in the index is simply added. |
| SignatureWrongParent.SoundExactlyIf | chord-0.1-vasil/tools/gis_chordID.C:1838-1842 | After the splits of an insertion the index is sound with the same documents exactly if the parent of the full leaf was not full. |
| SignatureWrongParent.StepsDouble | chord-0.1-vasil/tools/gis_chordID.C:1838-1842 | With the root in place of the true parent, some document is in the index more often than before. |
| SignatureFailure.CombIsSound | chord-0.1-vasil/tools/gis_chordID.C:1838-1842 | The index of the failing example satisfies every invariant of a stored index before the insertion. |
| SignatureFailure.FailingInsertion | chord-0.1-vasil/tools/gis_chordID.C:1838-1842 | On it, whatever is inserted, a node ends up with a link it must not have and a document is in the index more often. |
| Ring.FingersAreTrue | chord-0.1-vasil/chord/finger_table.C:40-46 | On an ideal ring the i-th finger is the successor of the node's id plus 2^i. |
| Ring.PredLeadsToSucc | chord-0.1-vasil/chord/chord.C:383-409 | The successor of the last node before a key is the key's successor. |
| Lookup.FingerClosestPred | chord-0.1-vasil/chord/finger_table.C:53-66 | The longest finger that does not pass the key and has not failed. |
| Lookup.SuccClosestPred | chord-0.1-vasil/chord/succ_list.C:290-301 | As far along the successors as they are good. |
| Lookup.FingerHalves | chord-0.1-vasil/chord/finger_table.C:53-66 | The finger found covers more than half of the way to the key's predecessor. |
| Lookup.ClosestPred | chord-0.1-vasil/chord/fingerroute.C:138-154 | The further of the furthest good finger and the end of the walk along good successors, or the node itself if that walk does not leave it; on an ideal ring without failures a node nearer to the key and not past it, with less than half of the way left. |
| Lookup.FurthestIff | chord-0.1-vasil/chord/fingerroute.C:138-154 | No good finger lies beyond the choice if and only if the node's own successor is good or there is no good finger. |
| Lookup.GoodFingerIgnored | chord-0.1-vasil/chord/fingerroute.C:138-154 | Four nodes, a key and a failed successor: the key's predecessor is a good finger and the node chooses itself. |
| Lookup.DoRoute | chord-0.1-vasil/chord/chord.C:383-431 | If the upcall asks to stop, that is the reply. Otherwise, whatever the node knows and whatever has failed: in range exactly if the key lies between the node and its successor; else the choice of ClosestPred, which is the node itself exactly if its successor has failed. On an ideal ring in range exactly at the key's predecessor. |
| Lookup.RouteChord.MakeHopCb | chord-0.1-vasil/chord/route_chord.C:106-190 | What each reply does to the path, the successors, the failed nodes and the status, the reply to stop included. |
| Lookup.RouteChord.Send | chord-0.1-vasil/chord/route_chord.C:22-58 | Without failures a search ends at the first node whose upcall stops it, or else at the true successor, after at most 160 forwardings; the path never nears 1000. |
| Lookup.RouteChord.Search | chord-0.1-vasil/chord/route_chord.C:22-190 | With any nodes down, any messages lost and any tables: a search that ends well ends with the successor of a node whose own arc holds the key, and one that gives up does so at a node whose successor has failed. |
| Lookup.AnswerIsOwner | chord-0.1-vasil/chord/route_chord.C:106-190 | If the nodes that are up know their true successors, that answer is the key's successor. |
| RecRoute.ListsAreTrue | chord-0.1-vasil/chord/succ_list.C:41-54 | On an ideal ring the list a node computes is the walk along the true successors, as far as the list reaches. |
| RecRoute.DoRecRoute | chord-0.1-vasil/chord/recroute.C:139-225 | For any node: what it sends, by where the key falls in its successor list, and if it shaves, to the first of the nearest entries whose list can hold the rest. On an ideal ring, if the list holds enough: the message completes with the wanted successors, or goes to a node nearer to the key with a true list. Otherwise it goes nearer, until the key's predecessor drops it. |
| RecRoute.Spliced | chord-0.1-vasil/chord/recroute.C:448-505 | The front of one node's list and another's own list join without gap or repeat. |
| RecRoute.DoPenult | chord-0.1-vasil/chord/recroute.C:448-505 | The list up to the node itself and its own successors behind, as many as are wanted and there; on an ideal ring exactly the wanted successors. |
| RecRoute.RecLookup | chord-0.1-vasil/chord/recroute.C:139-225 | From any node and for any number m of successors: the lookup is answered if and only if the list holds m, or may be shaved and holds more than half of m; the answer is exactly the key's first m successors. |
| Reassembly.Join | chord-0.1-vasil/dhash/server.C:451-463 | Joining touching chunks separates the list again and covers the same bytes. |
| Reassembly.StoreState.Gap | chord-0.1-vasil/dhash/server.C:465-486 | No gap exactly if the list is one chunk over the whole block. |
| Reassembly.StoreState.IsComplete | chord-0.1-vasil/dhash/server.C:488-492 | Complete exactly if the block is not empty and every byte has arrived. |
| Reassembly.StoreState.AddChunk | chord-0.1-vasil/dhash/server.C:494-523 | The list stays separated, covers exactly the new bytes too, and the bytes are copied unless all have arrived before. |
| Reassembly.Fragments | chord-0.1-vasil/dhash/dhash_store.C:22-43 | Consecutive pieces that make up the block, all but the last of the given size. |
| Reassembly.Deliver | chord-0.1-vasil/dhash/server.C:494-523 | Pieces of one block in any order, repeated or overlapping: complete exactly if they cover it, and then the buffer is the block. |
| Reassembly.SendAndDeliver | chord-0.1-vasil/dhash/dhash_store.C:22-43 | What one sender sends, in any order and with repeats, is always put together again. |
| Stores.DbKey | chord-0.1-vasil/dhash/dhblock_replicated_srv.C:24-32 | The database key is the key with the low 32 bits cleared. |
| Stores.ReplicatedSrv.Store | chord-0.1-vasil/dhash/dhblock_replicated_srv.C:64-86 | The first writer of a key fetches, the others wait in order of arrival. |
| Stores.ReplicatedSrv.Complete | chord-0.1-vasil/dhash/dhblock_replicated_srv.C:88-128 | Whichever request completes next, well or badly, the records of all keys stay in order, and it leads to the step the code takes: the next request, or the reply, the end of the turn and the next writer's fetch. |
| Stores.RepliesAreTrue | chord-0.1-vasil/dhash/dhblock_keyhash_srv.C:29-65 | A writer is told OK exactly if its data is stored then, STALE or RETRY exactly if a block of a higher version has stayed, STALE for the node's own keys, and of an error exactly if the database failed. |
| Stores.NoLossIff | chord-0.1-vasil/dhash/dhblock_keyhash_srv.C:29-65 | No update is lost after any number of writers exactly if no write that followed a removal failed. |
| Stores.VersionsIff | chord-0.1-vasil/dhash/dhblock_keyhash_srv.C:29-65 | From one writer to the next, over any stretch of writers, the version does not go down exactly under the same condition. |
| Stores.ReplicatedSrv.NothingLost | chord-0.1-vasil/dhash/dhblock_replicated_srv.C:114-128 | When nothing is outstanding for a key, every writer has had its turn, in order of arrival, and the stored block is what they leave. |
| Stores.ReplicatedSrv.OneAtATime | chord-0.1-vasil/dhash/dhblock_replicated_srv.C:64-86 | No key ever has two requests outstanding. |
| Stores.ReplicatedSrv.AbsentBeforeWrite | chord-0.1-vasil/dhash/dhblock_keyhash_srv.C:43-55 | While a write is outstanding its key is absent: a fetch in between finds nothing. |
| Stores.LostUpdate | chord-0.1-vasil/dhash/dhblock_srv.C:50-65 | A run in which a stored block is lost and the writer is told of a database error. |
| Stp.StpManager.DoRPC | chord-0.1-vasil/chord/stp_manager.C:85-126 | Sent at once if fewer than five times the window are counted, so always if none is, and else queued; the counters agree. |
| Stp.StpManager.UpdateCwind | chord-0.1-vasil/chord/stp_manager.C:297-326 | One more on an answer below the threshold, one over the window beyond it, half on a loss; window, threshold and average never fall below one. |
| Stp.StpManager.Timeout | chord-0.1-vasil/chord/stp_manager.C:128-184 | RPCs to the same host leave the window, and the count of those in flight stays exact; the first loss of a remote RPC halves the window. |
| Stp.StpManager.DoRPCcb | chord-0.1-vasil/chord/stp_manager.C:186-238 | An answered RPC is gone and the others are still pending, also when its callback makes calls, and none of those is forgotten; the window grows, and with room in it exactly one queued RPC leaves. While one is queued another is pending. |
| Stp.StpManager.RpcDone | chord-0.1-vasil/chord/stp_manager.C:240-279 | If there is room exactly one queued RPC leaves, the first for the destination of the random pick, and it is not queued again. |
| Stp.TakeFirst | chord-0.1-vasil/chord/stp_manager.C:240-279 | So the RPCs queued for one destination leave in the order they were queued. |

## Left out

Merkle index and synchronisation

- MerkleDisk.MerkleTreeDisk.Insert: takes an absent key, as its callers see to; the code does not check for duplicates, and a second insertion would be counted twice.
- MerkleDisk.MerkleTreeDisk.WriteMetadata: the index file is rewritten as one atomic step, and blocks written before are taken to be in their files (see Findings); the code writes it in two calls and flushes after them.
- Block numbers are unbounded here, 32-bit words with one bit taken for the kind in the code.
- DiskScan.GetKeyRange: takes min < max only. For a range that wraps around the code scans the tree again from the left, so that its answer need not be in ring order and can hold keys of the first leaf twice. In memory all ranges are modelled.
- HashSlots: the conversions between bytes, chordID and the wire format; `Slots` works on the number the bytes stand for.
- The itree of keys is its set of keys; the LRU node cache and the reference counts of lookups.
- MerkleSync.Syncer.Sync: both trees stay as they are during the run. A failed message ends the walk, but the pagers started before it run on; that is not followed.
- MerkleSync.HandleSendNode: is asked only for nodes the tree has, as the assertion in the code demands; MerkleNodes.HandleSendNode covers the others.
- KeyPager.KeyRange.Run: takes a range that ends (SyncPager.EndsIff says which do not) and a server whose tree is in memory, all of whose answers arrive; the code drops a run at its first failed answer.
- SyncWhole.Synchronise: that a complete report needs every run to be right is stated for ranges that fit and do not wrap around; with others a wrong run can by chance report what another leaves out. The pagers run beside the walk in the code, in any order; here their reports follow those of the walk.

Signatures

- PolyWords.Remainder: remainder and quotient are two copies of one loop in the code and one method here. The masks that shiftLeft and shiftRight shift along are folded into the word shifts.
- PolyProducts.Lcm: the second polynomial is not zero. For zero the loop in quotient would run a step past the last word; no signature is zero.
- SignatureChoice.PSim: the quotient of degrees is exact and cut off; the code divides in floating point. With the metric and two constants the code converts 0/0 to an integer, which has no defined result; 0 stands for it here.
- SignatureChoice.PickChild: compares the exact similarities of PSim.
- SignatureChoice.Seeds: compares the exact similarities of PSim.
- SignatureQuery.VerifyProcess: returns the count only, not the list of matches per document.
- SignatureIndex.SignatureTree.PerformSplit: one client at a time, so the answer NOTFIRST and its waiting loop do not arise; database errors (FAIL from a write) and entries of a kind without header are left out.
- SignatureIndex.SignatureTree.PerformSplitRoot: the same as for PerformSplit.
- SignatureIndex.SignatureTree.InsertDocument: the same; and for two constants compared by the metric the code may find no child at all and stop at its assertion, which the contract does not show.
- SignatureIndex.SignatureTree.InsertFromRoot: the same as for InsertDocument.
- SignatureIndex.SignatureTree.InsertLoop: ends where an attempt has split a full leaf under a full parent; the code does not notice and goes on with the index it has broken.
- SignatureFailure.FailingInsertion: starts from a stored index that satisfies every invariant; no run of insertions that leads to it is given.
- The numbers in intervals are unbounded here and machine integers in the code; nodes are named by interval where the code uses the hash of that name.
- Documents are given by id and signature: reading them, the list of matches and the replicas of a node are left out.

Chord

- The location table is the set of known nodes with its cyclic successor; its own code is not modelled. What an upcall does is a parameter, and the warning about the wrong direction is left out.
- Lookup.RouteChord.MakeHopCb: nodes that the location table refuses to insert are left out.
- Lookup.RouteChord.Send: no RPC fails; Search is the search with failures.
- Lookup.RouteChord.Search: how long it takes is left out, as the node itself may fail for ever; it is also not done where the code would stop at its assertion on the length of the path. Retries below one hop, joining, leaving and stabilisation are left out.
- RecRoute.RecLookup: no hop times out; the table of open requests and docomplete are left out. Distances between coordinates are any non-negative numbers.

DHash and transport

- Reassembly.StoreState.AddChunk: the linked list is a sequence, and offset plus size does not wrap around; the table of unfinished blocks and the replies of the sender are left out.
- Stores.VersionsIff: compares the versions that writers leave; what a reader can meet within a turn is AbsentBeforeWrite.
- Stores.ReplicatedSrv.Complete: `if (od)` in real_store is taken to be true exactly if a block was fetched, that is, an empty string tests false and no empty block is stored. The repair side, the database's own bookkeeping and the store of unauthenticated blocks are left out.
- Stp.StpManager.Timeout: the callback of the caller on a timeout, and failing all RPCs to a host after too many retransmissions (stp_manager.C:159-177), are left out.
- Stp.StpManager.UpdateCwind: sequence numbers are unbounded here; in the code they are integers, and a negative one would count as a loss.
- Stp.StpManager.RpcDone: the random pick is below the queue length; at the length itself, which the code's rounding could reach, the code would read past the queue. Real numbers stand for floating point, and statistics and retransmission timers are left out.
- Coordinates, the other routing tables, erasure coding, file system clients and control tools.
