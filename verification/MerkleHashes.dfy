/** When two subtrees with the same hash hold the same keys. */
module MerkleHashes {
  import opened Slots
  import opened MerkleSpec

  /** What one node feeds to SHA-1. */
  datatype Content = Content(leaf: bool, words: seq<Key>)

  ghost function NodeContent(sha: Sha, keys: set<Key>, d: nat): Content {
    if IsIndex(keys, d) then Content(false, ChildHashes(sha, keys, d)) else Content(true, Sorted(keys))
  }

  /** The contents of all non-empty nodes of the tree of `keys` at depth `d`. */
  ghost function Contents(sha: Sha, keys: set<Key>, d: nat): set<Content>
    decreases 27 - d
  {
    if keys == {} then {}
    else if !IsIndex(keys, d) then {NodeContent(sha, keys, d)}
    else
      var below := set i, c {:trigger c in Contents(sha, Sub(keys, d, i), d + 1)} |
                         0 <= i < 64 && c in Contents(sha, Sub(keys, d, i), d + 1) :: c;
      {NodeContent(sha, keys, d)} + below
  }

  /** SHA-1 does not collide on these contents and never yields zero, the hash
      of an empty node.  Only the nodes that occur in the two trees matter. */
  ghost predicate CollisionFree(sha: Sha, cs: set<Content>) {
    && (forall a, b :: a in cs && b in cs && sha(a.words) == sha(b.words) ==> a == b)
    && (forall a :: a in cs ==> sha(a.words) != 0)
  }

  lemma {:induction false} SubsEqual(a: set<Key>, b: set<Key>, d: nat)
    requires d <= 26
    requires forall i :: 0 <= i < 64 ==> Sub(a, d, i) == Sub(b, d, i)
    ensures a == b
  {
    forall k: Key ensures k in a <==> k in b {
      SlotRange(k, d);
      assert k in a <==> k in Sub(a, d, Slot(k, d));
      assert k in b <==> k in Sub(b, d, Slot(k, d));
    }
  }

  lemma {:induction false} ContentsOfChild(sha: Sha, keys: set<Key>, d: nat, i: nat)
    requires IsIndex(keys, d) && i < 64
    ensures Contents(sha, Sub(keys, d, i), d + 1) <= Contents(sha, keys, d)
  {
  }

  lemma {:induction false} ZeroMeansEmpty(sha: Sha, keys: set<Key>, d: nat, cs: set<Content>)
    requires CollisionFree(sha, cs) && Contents(sha, keys, d) <= cs
    ensures TreeHash(sha, keys, d) == 0 <==> keys == {}
    ensures keys != {} ==> NodeContent(sha, keys, d) in cs
  {
    if keys != {} {
      assert NodeContent(sha, keys, d) in Contents(sha, keys, d);
    }
  }

  /** Equal hashes mean equal key sets. */
  lemma {:induction false} HashIdentifies(sha: Sha, a: set<Key>, b: set<Key>, d: nat, cs: set<Content>)
    requires CollisionFree(sha, cs)
    requires Contents(sha, a, d) <= cs && Contents(sha, b, d) <= cs
    requires TreeHash(sha, a, d) == TreeHash(sha, b, d)
    ensures a == b
    decreases 27 - d
  {
    ZeroMeansEmpty(sha, a, d, cs);
    ZeroMeansEmpty(sha, b, d, cs);
    if a != {} {
      assert NodeContent(sha, a, d) == NodeContent(sha, b, d);
      if IsIndex(a, d) {
        forall i | 0 <= i < 64 ensures Sub(a, d, i) == Sub(b, d, i) {
          ContentsOfChild(sha, a, d, i);
          ContentsOfChild(sha, b, d, i);
          assert ChildHashes(sha, a, d)[i] == ChildHashes(sha, b, d)[i];
          HashIdentifies(sha, Sub(a, d, i), Sub(b, d, i), d + 1, cs);
        }
        SubsEqual(a, b, d);
      } else {
        SortedElements(a);
        SortedElements(b);
      }
    }
  }

  /** There is a node of the tree of `keys` at depth `d` on the path of `p`. */
  ghost predicate NodeAt(keys: set<Key>, d: nat, p: Key)
    requires d <= 26
  {
    forall e :: 0 <= e < d ==> IsIndex(Under(keys, e, p), e)
  }

  lemma {:induction false} ContentsBelow(sha: Sha, keys: set<Key>, d: nat, p: Key, top: nat)
    requires d <= 26 && NodeAt(keys, d, p) && top == 0
    ensures Contents(sha, Under(keys, d, p), d) <= Contents(sha, keys, top)
  {
    if d == 0 {
      UnderRoot(keys, p);
    } else {
      ContentsBelow(sha, keys, d - 1, p, top);
      SubUnder(keys, d - 1, p);
      SlotRange(p, d - 1);
      ContentsOfChild(sha, Under(keys, d - 1, p), d - 1, Slot(p, d - 1));
    }
  }
}
