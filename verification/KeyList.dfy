/** Scans of the ordered key list shared by all nodes of the memory tree
    (merkle/merkle_tree.C: closestsucc, database_get_keys, get_keyrange). */
module KeyList {
  import opened Ids
  import opened Slots
  import opened MerkleSpec
  import opened Options

  /** The keys of a set that lie in [min, max]. */
  function InRange(keys: set<Key>, min: Key, max: nat): set<Key> {
    set k | k in keys && min <= k <= max
  }

  function AtLeast(keys: set<Key>, min: Key): set<Key> {
    set k | k in keys && min <= k
  }

  function AtMost(keys: set<Key>, max: nat): set<Key> {
    set k | k in keys && k <= max
  }

  function Take(s: seq<Key>, n: nat): seq<Key> {
    if |s| <= n then s else s[..n]
  }

  /** Position of the least key not below `k`, or the first position when there
      is none: the search wraps around.  An empty list has no position. */
  method ClosestSucc(s: seq<Key>, k: Key) returns (found: Option<nat>)
    requires Ascending(s)
    ensures found.None? <==> s == []
    ensures found.Some? ==> found.value < |s| && AtClosest(s, k, found.value)
  {
    if s == [] {
      return None;
    }
    var lo, hi := 0, |s|;
    while lo < hi
      invariant 0 <= lo <= hi <= |s|
      invariant forall j :: 0 <= j < lo ==> s[j] < k
      invariant forall j :: hi <= j < |s| ==> k <= s[j]
    {
      var mid := (lo + hi) / 2;
      if s[mid] < k {
        lo := mid + 1;
      } else {
        hi := mid;
      }
    }
    found := Some(if lo < |s| then lo else 0);
  }

  predicate AtClosest(s: seq<Key>, k: Key, i: nat)
    requires i < |s|
  {
    && (forall j :: 0 <= j < i ==> s[j] < k)
    && (s[i] >= k || (i == 0 && forall j :: 0 <= j < |s| ==> s[j] < k))
  }

  /** All keys below a node are found by one scan that stops at the first key
      outside: they are contiguous in the list. */
  method DatabaseGetKeys(keylist: set<Key>, d: nat, prefix: Key) returns (ret: seq<Key>)
    requires d <= 27 && ClearSuffix(prefix, d) == prefix
    ensures ret == Sorted(Under(keylist, d, prefix))
  {
    var s := Sorted(keylist);
    var start := ClosestSucc(s, prefix);
    if start.None? {
      assert Under(keylist, d, prefix) == {};
      return [];
    }
    var first := start.value;
    var cur := first;
    while cur < |s| && Prefix(s[cur], d) == Prefix(prefix, d)
      invariant first <= cur <= |s|
      invariant forall j :: first <= j < cur ==> Prefix(s[j], d) == Prefix(prefix, d)
    {
      cur := cur + 1;
    }
    ret := s[first..cur];
    forall j | 0 <= j < |s|
      ensures Prefix(s[j], d) == Prefix(prefix, d) <==> first <= j < cur
    {
      SharesIsInterval(prefix, s[j], d);
      if cur < |s| {
        SharesIsInterval(prefix, s[cur], d);
      }
    }
    SliceIsSorted(s, first, cur, Under(keylist, d, prefix));
  }

  /** What a scan of [min, max] comes upon.  A range that is empty or wraps around
      is read from its start to the end of the list, or, when it starts past the last
      key, from the front of the list. */
  ghost function Scanned(keys: set<Key>, min: Key, max: nat): set<Key> {
    if min < max then InRange(keys, min, max)
    else if exists k :: k in keys && min <= k then AtLeast(keys, min)
    else AtMost(keys, max)
  }

  /** The scan yields the n least of those keys, in order. */
  method GetKeyRange(keylist: set<Key>, min: Key, max: nat, n: nat) returns (keys: seq<Key>)
    ensures keys == Take(Sorted(Scanned(keylist, min, max)), n)
  {
    var s := Sorted(keylist);
    var start := ClosestSucc(s, min);
    if start.None? {
      assert keylist == {};
      assert Scanned(keylist, min, max) == {};
      return [];
    }
    var first := start.value;
    ghost var cur;
    keys, cur := ScanRange(s, first, min, max, n);
    ScanIsSlice(s, first, cur, keylist, min, max, n);
  }

  method ScanRange(s: seq<Key>, first: nat, min: Key, max: nat, n: nat) returns (keys: seq<Key>, ghost cur: nat)
    requires first <= |s|
    ensures first <= cur <= |s| && cur - first <= n && keys == s[first..cur]
    ensures AllBetween(s, first, cur, min, max)
    ensures cur < |s| && cur - first < n ==> !BetweenBothIncl(min, max, s[cur])
  {
    keys := [];
    var k := first;
    while k < |s| && k - first < n && BetweenBothIncl(min, max, s[k])
      invariant first <= k <= |s| && k - first <= n
      invariant keys == s[first..k] && AllBetween(s, first, k, min, max)
    {
      SliceNext(s, first, k);
      keys := keys + [s[k]];
      k := k + 1;
    }
    cur := k;
  }

  predicate AllBetween(s: seq<Key>, first: nat, k: nat, min: Key, max: nat)
    requires first <= k <= |s|
  {
    forall j :: first <= j < k ==> BetweenBothIncl(min, max, s[j])
  }

  lemma {:induction false} SliceNext(s: seq<Key>, first: nat, k: nat)
    requires first <= k < |s|
    ensures s[first..k + 1] == s[first..k] + [s[k]]
  {
  }

  lemma {:induction false} EndOfRange(s: seq<Key>, cur: nat, max: nat) returns (e: nat)
    requires Ascending(s) && cur <= |s|
    ensures cur <= e <= |s|
    ensures forall j :: cur <= j < e ==> s[j] <= max
    ensures forall j :: e <= j < |s| ==> s[j] > max
  {
    e := cur;
    while e < |s| && s[e] <= max
      invariant cur <= e <= |s|
      invariant forall j :: cur <= j < e ==> s[j] <= max
    {
      e := e + 1;
    }
  }

  /** A page is the front of the complete answer. */
  lemma {:induction false} ScanIsSlice(s: seq<Key>, first: nat, cur: nat, keylist: set<Key>, min: Key, max: nat,
                                       n: nat)
    requires s == Sorted(keylist) && first <= cur <= |s| && cur - first <= n && first < |s|
    requires AtClosest(s, min, first) && AllBetween(s, first, cur, min, max)
    requires cur < |s| && cur - first < n ==> !BetweenBothIncl(min, max, s[cur])
    ensures s[first..cur] == Take(Sorted(Scanned(keylist, min, max)), n)
  {
    if s[first] >= min {
      ScanFromStart(s, first, cur, keylist, min, max, n);
    } else {
      ScanFromFront(s, cur, keylist, min, max, n);
    }
  }

  lemma {:induction false} ScanFromStart(s: seq<Key>, first: nat, cur: nat, keylist: set<Key>, min: Key, max: nat,
                                         n: nat)
    requires s == Sorted(keylist) && first <= cur <= |s| && cur - first <= n && first < |s|
    requires s[first] >= min && forall j :: 0 <= j < first ==> s[j] < min
    requires AllBetween(s, first, cur, min, max)
    requires cur < |s| && cur - first < n ==> !BetweenBothIncl(min, max, s[cur])
    ensures s[first..cur] == Take(Sorted(Scanned(keylist, min, max)), n)
  {
    assert s[first] in keylist;
    forall j | first <= j < |s| ensures s[j] >= min {
      assert first < j ==> s[first] < s[j];
    }
    var e: nat := |s|;
    if min < max {
      e := EndOfRange(s, cur, max);
    }
    forall j | 0 <= j < |s| ensures s[j] in Scanned(keylist, min, max) <==> first <= j < e {
      assert s[j] in keylist;
    }
    SliceIsSorted(s, first, e, Scanned(keylist, min, max));
    TakeOfSlice(s, first, cur, e, n);
  }

  /** No key is at or after the start of the range. */
  lemma {:induction false} ScanFromFront(s: seq<Key>, cur: nat, keylist: set<Key>, min: Key, max: nat, n: nat)
    requires s == Sorted(keylist) && cur <= |s| && cur <= n && s != []
    requires forall j :: 0 <= j < |s| ==> s[j] < min
    requires AllBetween(s, 0, cur, min, max)
    requires cur < |s| && cur < n ==> !BetweenBothIncl(min, max, s[cur])
    ensures s[0..cur] == Take(Sorted(Scanned(keylist, min, max)), n)
  {
    forall k | k in keylist ensures k < min {
      assert k in s;
    }
    if min < max {
      assert InRange(keylist, min, max) == {};
    } else {
      assert Scanned(keylist, min, max) == AtMost(keylist, max);
      FrontIsSlice(s, cur, keylist, max, n);
    }
  }

  lemma {:induction false} FrontIsSlice(s: seq<Key>, cur: nat, keylist: set<Key>, max: nat, n: nat)
    requires s == Sorted(keylist) && cur <= |s| && cur <= n
    requires forall j :: 0 <= j < cur ==> s[j] <= max
    requires cur < |s| && cur < n ==> s[cur] > max
    ensures s[0..cur] == Take(Sorted(AtMost(keylist, max)), n)
  {
    var e := EndOfRange(s, cur, max);
    forall j | 0 <= j < |s| ensures s[j] in AtMost(keylist, max) <==> 0 <= j < e {
      assert s[j] in keylist;
    }
    SliceIsSorted(s, 0, e, AtMost(keylist, max));
    TakeOfSlice(s, 0, cur, e, n);
  }

  lemma {:induction false} TakeOfSlice(s: seq<Key>, first: nat, cur: nat, e: nat, n: nat)
    requires first <= cur <= e <= |s| && cur - first <= n
    requires cur < e ==> cur - first == n
    ensures s[first..cur] == Take(s[first..e], n)
  {
  }
}
