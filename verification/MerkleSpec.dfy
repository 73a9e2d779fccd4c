/** What a Merkle tree over a key set must look like, as a function of the
    key set alone.

    The memory tree (merkle/merkle_tree.C) and the disk tree
    (merkle/merkle_tree_disk.C) are proved against the definitions here: which
    nodes are index nodes, what each node counts, and what each node hashes to.
 */
module MerkleSpec {
  import opened Slots

  /** SHA-1 over a list of 20-byte words: the keys of a leaf, or the 64 child
      hashes of an index node.  As in the code, nothing marks which one it is. */
  type Sha = seq<Key> -> Key

  /** A leaf holds up to 64 keys (merkle_node::leaf_is_full). */
  const LEAF_MAX := 64

  // ---------- sets of keys in ascending order ----------

  lemma {:induction false} SubsetCard<T>(a: set<T>, b: set<T>)
    requires a <= b
    ensures |a| <= |b|
    ensures |a| == |b| ==> a == b
  {
    if a != {} {
      var x :| x in a;
      SubsetCard(a - {x}, b - {x});
      assert a == (a - {x}) + {x} && b == (b - {x}) + {x};
    }
  }

  lemma {:induction false} MinExists(s: set<Key>)
    requires s != {}
    ensures exists m: Key :: m in s && forall x :: x in s ==> m <= x
  {
    var y :| y in s;
    if s != {y} {
      MinExists(s - {y});
      var m: Key :| m in s - {y} && forall x :: x in s - {y} ==> m <= x;
      var m' := if y < m then y else m;
      assert forall x :: x in s ==> x == y || x in s - {y};
      assert m' in s && forall x :: x in s ==> m' <= x;
    }
  }

  function MinKey(s: set<Key>): (m: Key)
    requires s != {}
    ensures m in s && forall x :: x in s ==> m <= x
  {
    MinExists(s);
    var m: Key :| m in s && forall x :: x in s ==> m <= x;
    m
  }

  predicate Ascending(s: seq<Key>) {
    forall i, j :: 0 <= i < j < |s| ==> s[i] < s[j]
  }

  /** The keys of a set in ascending order, as an itree traversal yields them. */
  function Sorted(s: set<Key>): (r: seq<Key>)
    ensures |r| == |s|
    ensures forall k :: k in r <==> k in s
    ensures Ascending(r)
  {
    if s == {} then [] else
    var m := MinKey(s);
    [m] + Sorted(s - {m})
  }

  function Elements(s: seq<Key>): set<Key> {
    set k | k in s
  }

  lemma {:induction false} SortedElements(s: set<Key>)
    ensures Elements(Sorted(s)) == s
  {
  }

  /** An ascending list is determined by its elements. */
  lemma {:induction false} AscendingUnique(a: seq<Key>, b: seq<Key>)
    requires Ascending(a) && Ascending(b)
    requires forall k :: k in a <==> k in b
    ensures a == b
  {
    assert a != [] ==> a[0] in b;
    assert b != [] ==> b[0] in a;
    if a != [] {
      FirstIsLeast(a, b[0]);
      FirstIsLeast(b, a[0]);
      forall k ensures k in a[1..] <==> k in b[1..] {
        TailIs(a, k);
        TailIs(b, k);
      }
      AscendingUnique(a[1..], b[1..]);
      assert a == [a[0]] + a[1..] && b == [b[0]] + b[1..];
    }
  }

  lemma {:induction false} FirstIsLeast(s: seq<Key>, k: Key)
    requires Ascending(s) && k in s
    ensures s[0] <= k
  {
  }

  lemma {:induction false} TailIs(s: seq<Key>, k: Key)
    requires Ascending(s) && s != []
    ensures k in s[1..] <==> k in s && k != s[0]
  {
    assert s == [s[0]] + s[1..];
    if k in s[1..] {
      var j :| 0 <= j < |s[1..]| && s[1..][j] == k;
      assert s[j + 1] == k;
    }
  }

  /** A slice of an ascending list that holds exactly the keys of `sub`. */
  lemma {:induction false} SliceIsSorted(s: seq<Key>, lo: nat, hi: nat, sub: set<Key>)
    requires Ascending(s) && lo <= hi <= |s|
    requires forall k :: k in sub ==> k in s
    requires forall j :: 0 <= j < |s| ==> (s[j] in sub <==> lo <= j < hi)
    ensures s[lo..hi] == Sorted(sub)
  {
    var r := s[lo..hi];
    forall k ensures k in r <==> k in Sorted(sub) {
      if k in sub {
        var j :| 0 <= j < |s| && s[j] == k;
        assert r[j - lo] == k;
      }
    }
    AscendingUnique(r, Sorted(sub));
  }

  // ---------- the keys below a node ----------

  /** The keys that share the first `d` slots of `p`. */
  function Under(keys: set<Key>, d: nat, p: Key): set<Key>
    requires d <= 27
  {
    set k | k in keys && Prefix(k, d) == Prefix(p, d)
  }

  /** The keys of a node at depth `d` that belong to its child `i`. */
  function Sub(keys: set<Key>, d: nat, i: nat): set<Key>
    requires d <= 26
  {
    set k | k in keys && Slot(k, d) == i
  }

  ghost predicate Shares(keys: set<Key>, d: nat)
    requires d <= 27
  {
    forall a, b :: a in keys && b in keys ==> Prefix(a, d) == Prefix(b, d)
  }

  lemma {:induction false} SubShares(keys: set<Key>, d: nat, i: nat)
    requires d <= 26 && Shares(keys, d)
    ensures Shares(Sub(keys, d, i), d + 1)
  {
    forall a, b | a in Sub(keys, d, i) && b in Sub(keys, d, i)
      ensures Prefix(a, d + 1) == Prefix(b, d + 1)
    {
      PrefixStep(a, b, d);
    }
  }

  /** The child of the node of `p` on the branch of `p`. */
  lemma {:induction false} SubUnder(keys: set<Key>, d: nat, p: Key)
    requires d <= 26
    ensures Sub(Under(keys, d, p), d, Slot(p, d)) == Under(keys, d + 1, p)
  {
    forall k | k in keys
      ensures k in Sub(Under(keys, d, p), d, Slot(p, d)) <==> k in Under(keys, d + 1, p)
    {
      PrefixStep(k, p, d);
    }
  }

  lemma {:induction false} SubUnderChild(keys: set<Key>, d: nat, p: Key, i: nat)
    requires d <= 26 && i < Fan(d)
    ensures Sub(Under(keys, d, p), d, i) == Under(keys, d + 1, ChildPrefix(p, d, i))
  {
    var c := ChildPrefix(p, d, i);
    ChildPrefixFacts(p, d, i);
    SubUnder(keys, d, c);
    assert Under(keys, d, c) == Under(keys, d, p);
  }

  lemma {:induction false} UnderShares(keys: set<Key>, d: nat, p: Key)
    requires d <= 27
    ensures Shares(Under(keys, d, p), d)
  {
  }

  lemma {:induction false} UnderRoot(keys: set<Key>, p: Key)
    ensures Under(keys, 0, p) == keys
  {
    WidthAtRoot();
  }

  lemma {:induction false} IntervalCard(s: set<Key>, lo: nat, n: nat)
    requires forall k :: k in s ==> lo <= k < lo + n
    ensures |s| <= n
    decreases n
  {
    if n == 0 {
      assert s == {};
    } else if lo < KEYS {
      var s' := s - {lo};
      IntervalCard(s', lo + 1, n - 1);
      SubsetCard(s, s' + {lo});
    } else {
      assert s == {};
    }
  }

  /** At most sixteen keys share 26 slots: no node at depth 26 ever fills. */
  lemma {:induction false} DepthBound(keys: set<Key>, d: nat)
    requires d <= 26 && Shares(keys, d) && |keys| > 16
    ensures d < 26
  {
    if d == 26 {
      var p :| p in keys;
      forall k | k in keys ensures ClearSuffix(p, 26) <= k < ClearSuffix(p, 26) + 16 {
        SharesIsInterval(p, k, 26);
      }
      IntervalCard(keys, ClearSuffix(p, 26), 16);
    }
  }

  // ---------- canonical shape and hash ----------

  /** A node is an index node exactly when more than 64 keys share its prefix.
      The depth conjunct never decides on the node of a tree: see DepthBound. */
  predicate IsIndex(keys: set<Key>, d: nat) {
    d < 26 && |keys| > LEAF_MAX
  }

  /** The hash of the node at depth `d` over `keys`. */
  function TreeHash(sha: Sha, keys: set<Key>, d: nat): Key
    decreases 27 - d
  {
    if keys == {} then 0
    else if IsIndex(keys, d) then sha(ChildHashes(sha, keys, d))
    else sha(Sorted(keys))
  }

  function ChildHashes(sha: Sha, keys: set<Key>, d: nat): (h: seq<Key>)
    requires d < 26
    ensures |h| == 64
    ensures forall i :: 0 <= i < 64 ==> h[i] == TreeHash(sha, Sub(keys, d, i), d + 1)
    decreases 27 - d, 0
  {
    seq(64, i requires 0 <= i < 64 => TreeHash(sha, Sub(keys, d, i), d + 1))
  }

  // ---------- one key more, one key less ----------

  lemma {:induction false} SubInsert(keys: set<Key>, d: nat, k: Key, i: nat)
    requires d <= 26
    ensures Sub(keys + {k}, d, i) == if i == Slot(k, d) then Sub(keys, d, i) + {k} else Sub(keys, d, i)
    ensures Sub(keys - {k}, d, i) == if i == Slot(k, d) then Sub(keys, d, i) - {k} else Sub(keys, d, i)
  {
  }

  lemma {:induction false} SubCard(keys: set<Key>, d: nat, i: nat)
    requires d <= 26
    ensures |Sub(keys, d, i)| <= |keys|
  {
    SubsetCard(Sub(keys, d, i), keys);
  }

  /** Number of keys in the first `n` children. */
  ghost function CountBelow(keys: set<Key>, d: nat, n: nat): nat
    requires d <= 26
  {
    if n == 0 then 0 else CountBelow(keys, d, n - 1) + |Sub(keys, d, n - 1)|
  }

  ghost function Below(keys: set<Key>, d: nat, n: nat): set<Key>
    requires d <= 26
  {
    set k | k in keys && Slot(k, d) < n
  }

  lemma {:induction false} CountBelowIs(keys: set<Key>, d: nat, n: nat)
    requires d <= 26
    ensures CountBelow(keys, d, n) == |Below(keys, d, n)|
  {
    if n == 0 {
      assert Below(keys, d, n) == {};
    } else {
      CountBelowIs(keys, d, n - 1);
      assert Below(keys, d, n) == Below(keys, d, n - 1) + Sub(keys, d, n - 1);
      assert Below(keys, d, n - 1) !! Sub(keys, d, n - 1);
    }
  }

  lemma {:induction false} BelowStep(keys: set<Key>, d: nat, n: nat)
    requires d <= 26
    ensures Below(keys, d, n + 1) == Below(keys, d, n) + Sub(keys, d, n)
  {
  }

  lemma {:induction false} AllBelow(keys: set<Key>, d: nat)
    requires d <= 26
    ensures Below(keys, d, 64) == keys
  {
    forall k | k in keys ensures Slot(k, d) < 64 {
      SlotRange(k, d);
    }
  }

  /** The counts of the 64 children add up to the count of their parent. */
  lemma {:induction false} ChildrenCount(keys: set<Key>, d: nat)
    requires d <= 26
    ensures CountBelow(keys, d, 64) == |keys|
  {
    CountBelowIs(keys, d, 64);
    AllBelow(keys, d);
  }
}
