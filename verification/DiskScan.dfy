/** Ordered scans of the tree on disk (merkle/merkle_tree_disk.C:
    get_keyrange_recurs, get_all_keys, lookup). */
module DiskScan {
  import opened Ids
  import opened Slots
  import opened MerkleSpec
  import opened DiskLayout
  import opened KeyList

  lemma {:induction false} SortedConcat(a: set<Key>, b: set<Key>)
    requires forall x, y :: x in a && y in b ==> x < y
    ensures Sorted(a + b) == Sorted(a) + Sorted(b)
  {
    var s, t := Sorted(a), Sorted(b);
    forall i, j | 0 <= i < j < |s + t| ensures (s + t)[i] < (s + t)[j] {
      if i < |s| <= j {
        assert s[i] in a && t[j - |s|] in b;
      }
    }
    AscendingUnique(Sorted(a + b), s + t);
  }

  /** Below one node, an earlier branch holds smaller keys. */
  lemma {:induction false} BranchOrder(a: Key, b: Key, d: nat)
    requires d <= 26 && Prefix(a, d) == Prefix(b, d) && Slot(a, d) < Slot(b, d)
    ensures a < b
  {
    OrderIsLexicographic(a, b, d);
  }

  lemma {:induction false} TakeTake(a: seq<Key>, b: seq<Key>, c: seq<Key>, n: nat)
    ensures Take(Take(a + b, n) + c, n) == Take(a + (b + c), n)
  {
    assert (a + b) + c == a + (b + c);
  }

  lemma {:induction false} TakeMore(a: seq<Key>, b: seq<Key>, n: nat)
    requires |Take(a, n)| >= n
    ensures Take(a + b, n) == Take(a, n)
  {
  }

  /** The part of the answer found in the branches below `b`. */
  ghost function Found(keys: set<Key>, d: nat, b: nat, min: Key, max: Key): seq<Key>
    requires d <= 26
  {
    Sorted(InRange(Below(keys, d, b), min, max))
  }

  lemma {:induction false} FoundNext(keys: set<Key>, d: nat, b: nat, min: Key, max: Key)
    requires d <= 26 && Shares(keys, d)
    ensures Found(keys, d, b + 1, min, max)
            == Found(keys, d, b, min, max) + Sorted(InRange(Sub(keys, d, b), min, max))
  {
    var lo, hi := InRange(Below(keys, d, b), min, max), InRange(Sub(keys, d, b), min, max);
    BelowStep(keys, d, b);
    assert InRange(Below(keys, d, b + 1), min, max) == lo + hi;
    forall x, y | x in lo && y in hi ensures x < y {
      BranchOrder(x, y, d);
    }
    SortedConcat(lo, hi);
  }

  ghost predicate Reaches(keys: set<Key>, max: Key) {
    exists k :: k in keys && k >= max
  }

  /** Nothing is left to find once a branch reached max. */
  lemma {:induction false} NothingAbove(keys: set<Key>, d: nat, b: nat, min: Key, max: Key, k: Key)
    requires d <= 26 && Shares(keys, d) && k in Below(keys, d, b) && k >= max
    ensures InRange(Below(keys, d, b), min, max) == InRange(keys, min, max)
  {
    forall x | x in keys && x !in Below(keys, d, b) ensures x > max {
      BranchOrder(k, x, d);
    }
  }

  lemma {:induction false} FoundPrefix(keys: set<Key>, d: nat, b: nat, min: Key, max: Key)
    requires d <= 26 && Shares(keys, d) && b <= 64
    ensures Found(keys, d, b, min, max) <= Sorted(InRange(keys, min, max))
    decreases 64 - b
  {
    if b == 64 {
      AllBelow(keys, d);
    } else {
      FoundPrefix(keys, d, b + 1, min, max);
      FoundNext(keys, d, b, min, max);
    }
  }

  /** Which keys the call may still meet: those on the path of min, or those
      beyond it once some branch to the left has been searched. */
  ghost predicate Ahead(keys: set<Key>, d: nat, min: Key, startLeft: bool)
    requires d <= 27
  {
    && Shares(keys, d)
    && forall k :: k in keys ==> if startLeft then k > min else Prefix(k, d) == Prefix(min, d)
  }

  lemma {:induction false} AheadChild(keys: set<Key>, d: nat, min: Key, startLeft: bool, b: nat, first: bool)
    requires d < 26 && Ahead(keys, d, min, startLeft)
    requires !startLeft ==> if first then b == Slot(min, d) else b > Slot(min, d)
    ensures Ahead(Sub(keys, d, b), d + 1, min, if first then startLeft else true)
  {
    SubShares(keys, d, b);
    forall k | k in Sub(keys, d, b)
      ensures if first && !startLeft then Prefix(k, d + 1) == Prefix(min, d + 1) else k > min
    {
      if !startLeft {
        PrefixStep(k, min, d);
        if !first {
          BranchOrder(min, k, d);
        }
      }
    }
  }

  /** The members of a list that lie in [min, max], in order. */
  function RangeOf(s: seq<Key>, min: Key, max: Key): (r: seq<Key>)
    ensures forall k :: k in r <==> k in s && min <= k <= max
  {
    if s == [] then [] else
    var init, k := s[..|s| - 1], s[|s| - 1];
    assert s == init + [k];
    RangeOf(init, min, max) + (if min <= k <= max then [k] else [])
  }

  lemma {:induction false} RangeOfAscending(s: seq<Key>, min: Key, max: Key)
    requires Ascending(s)
    ensures Ascending(RangeOf(s, min, max))
  {
    if s != [] {
      var init, k := s[..|s| - 1], s[|s| - 1];
      RangeOfAscending(init, min, max);
      var o := RangeOf(init, min, max);
      forall j | 0 <= j < |o| ensures o[j] < k {
        assert o[j] in init;
      }
    }
  }

  lemma {:induction false} RangeOfSorted(keys: set<Key>, min: Key, max: Key)
    ensures RangeOf(Sorted(keys), min, max) == Sorted(InRange(keys, min, max))
  {
    RangeOfAscending(Sorted(keys), min, max);
    AscendingUnique(RangeOf(Sorted(keys), min, max), Sorted(InRange(keys, min, max)));
  }

  lemma {:induction false} RangeOfConcat(s: seq<Key>, t: seq<Key>, min: Key, max: Key)
    ensures RangeOf(s + t, min, max) == RangeOf(s, min, max) + RangeOf(t, min, max)
  {
    if t == [] {
      assert s + t == s;
    } else {
      RangeOfConcat(s, t[..|t| - 1], min, max);
      assert (s + t)[..|s + t| - 1] == s + t[..|t| - 1];
    }
  }

  /** One leaf: the keys in range are appended until the page is full. */
  method ScanLeaf(ks: seq<Key>, min: Key, max: Key, n: nat, found: seq<Key>, startLeft: bool)
    returns (out: seq<Key>, over: bool)
    requires min < max && |found| <= n
    requires startLeft ==> forall k :: k in ks ==> k > min
    ensures out == Take(found + RangeOf(ks, min, max), n)
    ensures over ==> Reaches(Elements(ks), max)
  {
    out := found;
    var j := 0;
    while j < |ks| && |out| < n
      invariant 0 <= j <= |ks| && |out| <= n
      invariant out == found + RangeOf(ks[..j], min, max)
    {
      assert ks[..j + 1][..j] == ks[..j];
      if BetweenBothIncl(min, max, ks[j]) {
        out := out + [ks[j]];
      }
      j := j + 1;
    }
    over := j > 0 && startLeft && BetweenBothIncl(min, ks[j - 1], max);
    if over {
      assert ks[j - 1] in Elements(ks);
    }
    assert ks == ks[..j] + ks[j..];
    RangeOfConcat(ks[..j], ks[j..], min, max);
    TakeMoreOrAll(found, RangeOf(ks[..j], min, max), RangeOf(ks[j..], min, max), n);
  }

  lemma {:induction false} TakeMoreOrAll(a: seq<Key>, b: seq<Key>, c: seq<Key>, n: nat)
    requires |a + b| <= n && (|a + b| < n ==> c == [])
    ensures a + b == Take(a + (b + c), n)
  {
    assert a + (b + c) == (a + b) + c;
  }

  /** get_keyrange_recurs, for a range that does not wrap. */
  method KeyRangeRec(sha: Sha, files: Files, min: Key, max: Key, n: nat, d: nat, found: seq<Key>, ptr: nat,
                     startLeft: bool, ghost lay: Layout, ghost keys: set<Key>)
    returns (out: seq<Key>, over: bool)
    requires d <= 26 && min < max && |found| <= n
    requires Holds(sha, files, lay, keys, d) && ptr == lay.ptr && Ahead(keys, d, min, startLeft)
    ensures out == Take(found + Sorted(InRange(keys, min, max)), n)
    ensures over ==> Reaches(keys, max)
    decreases 27 - d, 2
  {
    if ptr % 2 == 1 {
      out, over := ScanLeaf(files.leafs[ptr / 2].keys, min, max, n, found, startLeft);
      RangeOfSorted(keys, min, max);
      SortedElements(keys);
    } else {
      out, over := ScanIndex(sha, files, min, max, n, d, found, files.internals[ptr / 2].pointers, startLeft,
                             lay.kids, keys);
    }
  }

  ghost function Page(keys: set<Key>, d: nat, b: nat, min: Key, max: Key, n: nat, found: seq<Key>): seq<Key>
    requires d <= 26
  {
    Take(found + Found(keys, d, b, min, max), n)
  }

  ghost predicate Progress(keys: set<Key>, d: nat, b: nat, min: Key, max: Key, n: nat, found: seq<Key>,
                           out: seq<Key>, over: bool)
    requires d <= 26
  {
    && b <= 64
    && out == Page(keys, d, b, min, max, n, found)
    && (over ==> Reaches(Below(keys, d, b), max))
  }

  /** The branches left of the starting one hold nothing in range. */
  lemma {:induction false} Start(keys: set<Key>, d: nat, min: Key, max: Key, n: nat, found: seq<Key>, startLeft: bool)
    requires d <= 26 && Ahead(keys, d, min, startLeft) && |found| <= n
    ensures Progress(keys, d, if startLeft then 0 else Slot(min, d), min, max, n, found, found, false)
  {
    SlotRange(min, d);
    var b := if startLeft then 0 else Slot(min, d);
    forall k | k in Below(keys, d, b) ensures k < min {
      BranchOrder(k, min, d);
    }
    assert InRange(Below(keys, d, b), min, max) == {};
    assert found + [] == found;
  }

  lemma {:induction false} Finished(keys: set<Key>, d: nat, b: nat, min: Key, max: Key, n: nat, found: seq<Key>,
                                    out: seq<Key>, over: bool)
    requires d <= 26 && Shares(keys, d) && Progress(keys, d, b, min, max, n, found, out, over)
    requires |out| >= n || b == 64 || over
    ensures out == Take(found + Sorted(InRange(keys, min, max)), n)
    ensures over ==> Reaches(keys, max)
  {
    if over {
      var k :| k in Below(keys, d, b) && k >= max;
      NothingAbove(keys, d, b, min, max, k);
    } else if b == 64 {
      AllBelow(keys, d);
    } else {
      FoundPrefix(keys, d, b, min, max);
      TakePrefix(found, Found(keys, d, b, min, max), Sorted(InRange(keys, min, max)), n);
    }
  }

  lemma {:induction false} TakePrefix(a: seq<Key>, b: seq<Key>, all: seq<Key>, n: nat)
    requires b <= all && |Take(a + b, n)| >= n
    ensures Take(a + b, n) == Take(a + all, n)
  {
    assert a + all == (a + b) + all[|b|..];
    TakeMore(a + b, all[|b|..], n);
  }

  /** One more branch has been searched. */
  lemma {:induction false} NextBranch(keys: set<Key>, d: nat, b: nat, min: Key, max: Key, n: nat, found: seq<Key>,
                                      out: seq<Key>, out': seq<Key>, over: bool)
    requires d <= 26 && Shares(keys, d) && b < 64 && Progress(keys, d, b, min, max, n, found, out, false)
    requires out' == Take(out + Sorted(InRange(Sub(keys, d, b), min, max)), n)
    requires over ==> Reaches(Sub(keys, d, b), max)
    ensures Progress(keys, d, b + 1, min, max, n, found, out', over)
  {
    FoundNext(keys, d, b, min, max);
    TakeTake(found, Found(keys, d, b, min, max), Sorted(InRange(Sub(keys, d, b), min, max)), n);
    BelowStep(keys, d, b);
  }

  /** One round of the loop over the branches. */
  method ScanBranch(sha: Sha, files: Files, min: Key, max: Key, n: nat, d: nat, branch: nat, out: seq<Key>, ptr: nat,
                    sl: bool, ghost found: seq<Key>, ghost kid: Layout, ghost keys: set<Key>)
    returns (out': seq<Key>, over: bool)
    requires d < 26 && branch < 64 && Shares(keys, d) && min < max && |out| <= n
    requires Holds(sha, files, kid, Sub(keys, d, branch), d + 1) && ptr == kid.ptr
    requires Ahead(Sub(keys, d, branch), d + 1, min, sl)
    requires Progress(keys, d, branch, min, max, n, found, out, false)
    ensures |out'| <= n && Progress(keys, d, branch + 1, min, max, n, found, out', over)
    decreases 27 - d, 0
  {
    out', over := KeyRangeRec(sha, files, min, max, n, d + 1, out, ptr, sl, kid, Sub(keys, d, branch));
    NextBranch(keys, d, branch, min, max, n, found, out, out', over);
  }

  /** The loop over the branches of an index node. */
  method ScanIndex(sha: Sha, files: Files, min: Key, max: Key, n: nat, d: nat, found: seq<Key>, pointers: seq<nat>,
                   startLeft: bool, ghost kids: seq<Layout>, ghost keys: set<Key>)
    returns (out: seq<Key>, over: bool)
    requires d < 26 && min < max && |found| <= n
    requires KidsHold(sha, files, kids, keys, d) && pointers == Roots(kids) && Ahead(keys, d, min, startLeft)
    ensures out == Take(found + Sorted(InRange(keys, min, max)), n)
    ensures over ==> Reaches(keys, max)
    decreases 27 - d, 1
  {
    var branch := if startLeft then 0 else Slot(min, d);
    Start(keys, d, min, max, n, found, startLeft);
    var first := true;
    out, over := found, false;
    while |out| < n && branch < 64 && !over
      invariant 0 <= branch <= 64 && |out| <= n
      invariant Progress(keys, d, branch, min, max, n, found, out, over)
      invariant !startLeft ==> if first then branch == Slot(min, d) else branch > Slot(min, d)
      decreases 64 - branch
    {
      AheadChild(keys, d, min, startLeft, branch, first);
      out, over := ScanBranch(sha, files, min, max, n, d, branch, out, pointers[branch],
                              if first then startLeft else true, found, kids[branch], keys);
      first := false;
      branch := branch + 1;
    }
    Finished(keys, d, branch, min, max, n, found, out, over);
    // The test for continuing past the right edge of the ring never succeeds here.
    assert !BetweenRightIncl(min, max, 0);
  }

  lemma {:induction false} AheadAtRoot(keys: set<Key>, min: Key)
    ensures Ahead(keys, 0, min, false)
  {
    WidthAtRoot();
  }

  /** get_keyrange: the n least keys of [min, max] in ascending order, the same
      list that KeyList.GetKeyRange yields on the key list in memory. */
  method GetKeyRange(sha: Sha, img: Image, min: Key, max: Key, n: nat, ghost lay: Layout, ghost keys: set<Key>)
    returns (found: seq<Key>)
    requires Commits(sha, img, lay, keys) && min < max
    ensures found == Take(Sorted(InRange(keys, min, max)), n)
  {
    found := [];
    var count := RootCount(sha, img, lay, keys);
    if count > 0 {
      AheadAtRoot(keys, min);
      var over;
      found, over := KeyRangeRec(sha, img.files, min, max, n, 0, [], img.index.md.root, false, lay, keys);
      assert [] + Sorted(InRange(keys, min, max)) == Sorted(InRange(keys, min, max));
    } else {
      assert InRange(keys, min, max) == {};
    }
  }

  method RootCount(sha: Sha, img: Image, ghost lay: Layout, ghost keys: set<Key>) returns (count: nat)
    requires Commits(sha, img, lay, keys)
    ensures count == |keys|
  {
    var root := img.index.md.root;
    count := if root % 2 == 1 then img.files.leafs[root / 2].count else img.files.internals[root / 2].count;
  }
}
