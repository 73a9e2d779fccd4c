/** merkle_getkeyrange (merkle/merkle_syncer.C) and the server's answer to it
    (merkle/merkle_server.C): the remote keys of a range are fetched 64 at a time and
    compared page by page.  What a whole run reports, and when that is right. */
module KeyPager {
  import opened Ids
  import opened Slots
  import opened MerkleSpec
  import opened SyncSpec
  import KeyList
  import MerkleSync

  const PAGE: nat := 64

  // ---------- what a run reports ----------

  /** The remote keys of the range, in order. */
  ghost function Pages(remote: set<Key>, lo: Key, hi: nat): seq<Key> {
    Sorted(KeyList.InRange(remote, lo, hi))
  }

  /** Where the page after the first n keys starts. */
  function NextStart(ks: seq<Key>, lo: Key, n: nat): nat
    requires n <= |ks|
  {
    if n == 0 then lo else After(ks[n - 1])
  }

  function After(k: nat): nat {
    k + 1
  }

  /** The last page holds one key, and starts there. */
  predicate Alone(ks: seq<Key>, lo: Key) {
    |ks| % PAGE == 1 && ks[|ks| - 1] == NextStart(ks, lo, |ks| - 1)
  }

  /** The last key that is compared. */
  function Top(ks: seq<Key>, hi: nat): nat {
    if |ks| == 0 then hi else ks[|ks| - 1]
  }

  /** The differences at the keys from `from` up to but not including `to`, each once. */
  ghost predicate Reports(log: seq<Report>, local: set<Key>, remote: set<Key>, from: nat, to: nat) {
    Distinct(log) && forall r :: r in log <==> from <= r.key < to && OneSided(local, remote, r)
  }

  /** What the server sends for a page that is the key k alone: when the range ends
      there too, it is asked for [k, k], which for it has no end. */
  ghost function LastPage(remote: set<Key>, k: Key, hi: nat): seq<Key> {
    if k == hi then KeyList.Take(Sorted(KeyList.AtLeast(remote, k)), PAGE) else [k]
  }

  /** The comparison of such a page: [k, k] is the whole circle. */
  ghost predicate LastReports(log: seq<Report>, local: set<Key>, page: seq<Key>, k: Key) {
    page != [] && Distinct(log)
    && forall r :: r in log <==> DiffersIn(local, Elements(page), k, page[|page| - 1], r)
  }

  /** The reports of a whole run over [lo, hi], where `local` are the local keys. */
  ghost predicate Ran(local: set<Key>, remote: set<Key>, lo: Key, hi: nat, log: seq<Report>) {
    var ks := Pages(remote, lo, hi);
    if Alone(ks, lo) then
      var k := ks[|ks| - 1];
      exists m :: RanAlone(local, remote, lo, hi, k, log, m)
    else Reports(log, local, remote, lo, Top(ks, hi) + 1)
  }

  /** The differences before k, in m reports, and then those of a page of k alone. */
  ghost predicate RanAlone(local: set<Key>, remote: set<Key>, lo: Key, hi: nat, k: Key, log: seq<Report>, m: nat) {
    && m <= |log| && Reports(log[..m], local, remote, lo, k)
    && LastReports(log[m..], local, LastPage(remote, k, hi), k)
  }

  /** After n keys, with more to come. */
  ghost predicate Underway(local: set<Key>, remote: set<Key>, lo: Key, hi: nat, n: nat, c: nat, log: seq<Report>) {
    var ks := Pages(remote, lo, hi);
    && n % PAGE == 0 && (n == 0 || n < |ks|) && c == NextStart(ks, lo, n)
    && Reports(log, local, remote, lo, c)
  }

  // ---------- pages of the key list ----------

  lemma {:induction false} PagesFacts(remote: set<Key>, lo: Key, hi: nat)
    ensures var ks := Pages(remote, lo, hi);
      Ascending(ks) && forall k: Key :: k in ks <==> k in remote && lo <= k <= hi
  {
  }

  /** What is left after n keys are the keys of the rest of the range. */
  lemma {:induction false} RestOfPages(remote: set<Key>, lo: Key, hi: nat, n: nat, c: Key)
    requires n <= |Pages(remote, lo, hi)| && c == NextStart(Pages(remote, lo, hi), lo, n)
    ensures Sorted(KeyList.InRange(remote, c, hi)) == Pages(remote, lo, hi)[n..]
  {
    PagesFacts(remote, lo, hi);
    if n > 0 {
      assert Pages(remote, lo, hi)[n - 1] in Pages(remote, lo, hi);
    }
    assert KeyList.InRange(remote, c, hi) == KeyList.AtLeast(KeyList.InRange(remote, lo, hi), c);
    SuffixSorted(KeyList.InRange(remote, lo, hi), lo, n, c);
  }

  lemma {:induction false} SuffixSorted(keys: set<Key>, lo: Key, n: nat, c: Key)
    requires n <= |Sorted(keys)| && c == NextStart(Sorted(keys), lo, n) && forall k :: k in keys ==> lo <= k
    ensures Sorted(KeyList.AtLeast(keys, c)) == Sorted(keys)[n..]
  {
    var ks := Sorted(keys);
    ToTheEnd(ks, n);
    SuffixHas(keys, lo, n, c);
    SliceIsSorted(ks, n, |ks|, KeyList.AtLeast(keys, c));
  }

  lemma {:induction false} ToTheEnd(ks: seq<Key>, n: nat)
    requires n <= |ks|
    ensures ks[n..|ks|] == ks[n..]
  {
  }

  lemma {:induction false} SuffixHas(keys: set<Key>, lo: Key, n: nat, c: Key)
    requires n <= |Sorted(keys)| && c == NextStart(Sorted(keys), lo, n) && forall k :: k in keys ==> lo <= k
    ensures var ks := Sorted(keys);
      forall j :: 0 <= j < |ks| ==> (ks[j] in KeyList.AtLeast(keys, c) <==> n <= j < |ks|)
  {
    var ks := Sorted(keys);
    forall j | 0 <= j < |ks| ensures ks[j] in KeyList.AtLeast(keys, c) <==> n <= j < |ks| {
      assert ks[j] in keys;
      AtOrAfter(ks, lo, n, c, j);
    }
  }

  lemma {:induction false} AtOrAfter(ks: seq<Key>, lo: Key, n: nat, c: Key, j: nat)
    requires Ascending(ks) && n <= |ks| && j < |ks| && c == NextStart(ks, lo, n) && ks[j] >= lo
    ensures c <= ks[j] <==> n <= j
  {
    if n > 0 {
      assert j < n - 1 ==> ks[j] < ks[n - 1];
      assert n - 1 < j ==> ks[n - 1] < ks[j];
    }
  }

  lemma {:induction false} StartInRange(remote: set<Key>, lo: Key, hi: nat, n: nat, c: nat)
    requires lo < hi && (n == 0 || n < |Pages(remote, lo, hi)|) && c == NextStart(Pages(remote, lo, hi), lo, n)
    ensures lo <= c <= hi && c < KEYS
    ensures c == hi ==> n > 0 && |Pages(remote, lo, hi)| == n + 1 && Pages(remote, lo, hi)[n] == c && c in remote
  {
    var ks := Pages(remote, lo, hi);
    PagesFacts(remote, lo, hi);
    if n > 0 {
      assert ks[n - 1] in ks && ks[n] in ks && ks[n - 1] < ks[n];
      if n + 1 < |ks| {
        assert ks[n] < ks[n + 1] && ks[n + 1] in ks;
      }
    }
  }

  // ---------- one page ----------

  lemma {:induction false} Joined(a: seq<Report>, b: seq<Report>, local: set<Key>, remote: set<Key>,
                                  from: nat, mid: nat, to: nat)
    requires from <= mid <= to && Reports(a, local, remote, from, mid) && Reports(b, local, remote, mid, to)
    ensures Reports(a + b, local, remote, from, to)
  {
    var log := a + b;
    forall i, j | 0 <= i < j < |log| ensures log[i] != log[j] {
      if i < |a| <= j {
        assert log[i] in a && log[j] == b[j - |a|] && b[j - |a|] in b;
      }
    }
  }

  /** Between two different keys, a slice of the pages stands for all remote keys. */
  lemma {:induction false} SliceReports(local: set<Key>, remote: set<Key>, lo: Key, hi: nat, n: nat, j: nat, c: nat,
                                        s: nat, page: seq<Key>, log: seq<Report>)
    requires n <= j <= |Pages(remote, lo, hi)| && c == NextStart(Pages(remote, lo, hi), lo, n) && c < s
    requires if n < j then s == Pages(remote, lo, hi)[j - 1] else s == hi && Pages(remote, lo, hi) == []
    requires page == Pages(remote, lo, hi)[n..j] && Distinct(log)
    requires forall r :: r in log <==> DiffersIn(local, Elements(page), c, s, r)
    ensures Reports(log, local, remote, c, s + 1)
  {
    var ks := Pages(remote, lo, hi);
    PagesFacts(remote, lo, hi);
    forall k: Key | c <= k <= s ensures k in Elements(page) <==> k in remote {
      SliceHas(ks, lo, hi, n, j, c, s, k, remote);
    }
  }

  lemma {:induction false} SliceHas(ks: seq<Key>, lo: Key, hi: nat, n: nat, j: nat, c: nat, s: nat, k: Key,
                                    remote: set<Key>)
    requires Ascending(ks) && (forall x: Key :: x in ks <==> x in remote && lo <= x <= hi)
    requires n <= j <= |ks| && c == NextStart(ks, lo, n) && c <= k <= s
    requires if n < j then s == ks[j - 1] else s == hi && ks == []
    ensures k in ks[n..j] <==> k in remote
  {
    if n > 0 {
      assert ks[n - 1] in ks;
    }
    if n < j {
      assert ks[j - 1] in ks;
    }
    if k in remote {
      var i :| 0 <= i < |ks| && ks[i] == k;
      assert ks[n..j][i - n] == k;
    }
  }

  /** What the server answers to a request under way. */
  ghost predicate Answered(remote: set<Key>, c: Key, hi: nat, page: seq<Key>, more: bool) {
    var all := Sorted(KeyList.Scanned(remote, c, hi));
    page == KeyList.Take(all, PAGE) && more == (|all| > PAGE)
  }

  lemma {:induction false} PageIs(remote: set<Key>, lo: Key, hi: nat, n: nat, c: Key, page: seq<Key>, more: bool)
    requires lo < hi && n % PAGE == 0 && (n == 0 || n < |Pages(remote, lo, hi)|)
    requires c == NextStart(Pages(remote, lo, hi), lo, n) && Answered(remote, c, hi, page, more)
    ensures c < hi ==> page == KeyList.Take(Pages(remote, lo, hi)[n..], PAGE)
                       && more == (|Pages(remote, lo, hi)| - n > PAGE)
    ensures c == hi ==> page == LastPage(remote, c, hi) && page != [] && page[0] == c
    ensures more ==> |page| == PAGE && c < page[PAGE - 1] < KEYS - 1
  {
    StartInRange(remote, lo, hi, n, c);
    RestOfPages(remote, lo, hi, n, c);
    var all := Sorted(KeyList.Scanned(remote, c, hi));
    if c == hi {
      assert c in KeyList.AtLeast(remote, c);
      assert KeyList.Scanned(remote, c, hi) == KeyList.AtLeast(remote, c);
      FirstOfAll(KeyList.AtLeast(remote, c), c);
    }
    if more {
      assert all[0] in KeyList.Scanned(remote, c, hi);
      FullPage(all, c, page);
    }
  }

  lemma {:induction false} FullPage(all: seq<Key>, c: Key, page: seq<Key>)
    requires Ascending(all) && |all| > PAGE && all[0] >= c && page == KeyList.Take(all, PAGE)
    ensures |page| == PAGE && c < page[PAGE - 1] < KEYS - 1
  {
    assert all[0] < all[PAGE - 1] < all[PAGE];
  }

  lemma {:induction false} FirstOfAll(keys: set<Key>, k: Key)
    requires k in keys && forall x :: x in keys ==> k <= x
    ensures Sorted(keys) != [] && Sorted(keys)[0] == k
  {
    var s := Sorted(keys);
    var i :| 0 <= i < |s| && s[i] == k;
    assert s[0] in keys;
  }

  /** A page that is not the last. */
  lemma {:induction false} PageInside(local: set<Key>, remote: set<Key>, lo: Key, hi: nat, n: nat, c: Key,
                                      log: seq<Report>, page: seq<Key>, more: seq<Report>)
    requires lo < hi && Underway(local, remote, lo, hi, n, c, log) && c < hi
    requires |Pages(remote, lo, hi)| - n > PAGE && page == KeyList.Take(Pages(remote, lo, hi)[n..], PAGE)
    requires Distinct(more)
    requires forall r :: r in more <==> DiffersIn(local, Elements(page), c, page[|page| - 1], r)
    ensures Underway(local, remote, lo, hi, n + PAGE, After(page[|page| - 1]), log + more)
  {
    var ks := Pages(remote, lo, hi);
    PagesFacts(remote, lo, hi);
    var j := n + PAGE;
    assert page == ks[n..j] && page[|page| - 1] == ks[j - 1];
    assert ks[n] in ks && ks[n] < ks[j - 1];
    LeadsUp(ks, lo, hi, n);
    SliceReports(local, remote, lo, hi, n, j, c, ks[j - 1], page, more);
    Joined(log, more, local, remote, lo, c, After(ks[j - 1]));
  }

  lemma {:induction false} LeadsUp(ks: seq<Key>, lo: Key, hi: nat, n: nat)
    requires Ascending(ks) && n < |ks| && forall x: Key :: x in ks ==> lo <= x <= hi
    ensures lo <= NextStart(ks, lo, n) <= ks[n]
  {
    assert ks[n] in ks;
    if n > 0 {
      assert ks[n - 1] in ks;
    }
  }

  /** The last page, compared over a range of more than one key. */
  lemma {:induction false} PageAtEnd(local: set<Key>, remote: set<Key>, lo: Key, hi: nat, n: nat, c: Key,
                                     log: seq<Report>, page: seq<Key>, s: nat, more: seq<Report>)
    requires lo < hi && Underway(local, remote, lo, hi, n, c, log)
    requires |Pages(remote, lo, hi)| - n <= PAGE && page == Pages(remote, lo, hi)[n..]
    requires s == Top(page, hi) && c < s && Distinct(more)
    requires forall r :: r in more <==> DiffersIn(local, Elements(page), c, s, r)
    ensures Ran(local, remote, lo, hi, log + more)
  {
    var ks := Pages(remote, lo, hi);
    NotAlone(ks, lo, n, c, s, hi);
    EndReports(local, remote, lo, hi, n, c, page, s, more);
    Joined(log, more, local, remote, lo, c, s + 1);
  }

  lemma {:induction false} EndReports(local: set<Key>, remote: set<Key>, lo: Key, hi: nat, n: nat, c: nat,
                                      page: seq<Key>, s: nat, more: seq<Report>)
    requires n <= |Pages(remote, lo, hi)| && (n == 0 || n < |Pages(remote, lo, hi)|)
    requires c == NextStart(Pages(remote, lo, hi), lo, n) && page == Pages(remote, lo, hi)[n..]
    requires s == Top(Pages(remote, lo, hi), hi) && c < s && Distinct(more)
    requires forall r :: r in more <==> DiffersIn(local, Elements(page), c, s, r)
    ensures Reports(more, local, remote, c, s + 1)
  {
    var j := |Pages(remote, lo, hi)|;
    ToTheEnd(Pages(remote, lo, hi), n);
    SliceReports(local, remote, lo, hi, n, j, c, s, page, more);
  }

  lemma {:induction false} NotAlone(ks: seq<Key>, lo: Key, n: nat, c: nat, s: nat, hi: nat)
    requires n <= |ks| && |ks| - n <= PAGE && n % PAGE == 0 && (n == 0 || n < |ks|) && c == NextStart(ks, lo, n)
    requires s == Top(ks[n..], hi) && c < s
    ensures !Alone(ks, lo) && s == Top(ks, hi)
  {
    if |ks| % PAGE == 1 {
      assert |ks| - n == 1;
    }
  }

  /** The last page, compared over the whole circle. */
  lemma {:induction false} PageAlone(local: set<Key>, remote: set<Key>, lo: Key, hi: nat, n: nat, c: Key,
                                     log: seq<Report>, page: seq<Key>, more: seq<Report>)
    requires lo < hi && Underway(local, remote, lo, hi, n, c, log)
    requires |Pages(remote, lo, hi)| == n + 1 && Pages(remote, lo, hi)[n] == c && page == LastPage(remote, c, hi)
    requires LastReports(more, local, page, c)
    ensures Ran(local, remote, lo, hi, log + more)
  {
    CutBetween(log, more);
    assert RanAlone(local, remote, lo, hi, c, log + more, |log|);
    assert Alone(Pages(remote, lo, hi), lo);
  }

  lemma {:induction false} CutBetween(a: seq<Report>, b: seq<Report>)
    ensures (a + b)[..|a|] == a && (a + b)[|a|..] == b
  {
  }

  // ---------- the pager ----------

  /** handle_get_keys: 65 keys are looked for, to tell whether 64 were all. */
  method GetKeys(remote: set<Key>, rngmin: Key, rngmax: nat) returns (keys: seq<Key>, more: bool)
    ensures Answered(remote, rngmin, rngmax, keys, more)
  {
    keys := KeyList.GetKeyRange(remote, rngmin, rngmax, PAGE + 1);
    more := |keys| == PAGE + 1;
    if |keys| > PAGE {
      keys := keys[..PAGE];
    }
  }

  class KeyRange {
    const lkeys: seq<Key>
    const rngmin: Key
    const rngmax: nat
    var current: nat
    /** The calls of missingfnc made so far. */
    var log: seq<Report>

    constructor (rngmin: Key, rngmax: nat, lkeys: seq<Key>)
      ensures this.rngmin == rngmin && this.rngmax == rngmax && this.lkeys == lkeys
      ensures current == rngmin && log == []
    {
      this.rngmin, this.rngmax, this.lkeys := rngmin, rngmax, lkeys;
      current, log := rngmin, [];
    }

    /** getkeys_cb */
    method GetKeysCb(rkeys: seq<Key>, morekeys: bool) returns (ghost more: seq<Report>)
      requires Ascending(lkeys)
      modifies this
      ensures log == old(log) + more && Distinct(more)
      ensures forall r :: r in more
                <==> DiffersIn(Elements(lkeys), Elements(rkeys), old(current), Top(rkeys, rngmax), r)
      ensures current == IncId(if morekeys then Top(rkeys, rngmax) else rngmax)
    {
      var sentmax := rngmax;
      if rkeys != [] {
        sentmax := rkeys[|rkeys| - 1];
      }
      var reports := MerkleSync.CompareKeylists(lkeys, rkeys, current, sentmax);
      log := log + reports;
      current := IncId(sentmax);
      if !morekeys {
        current := IncId(rngmax);
      }
      more := reports;
    }

    /** One page of a run under way; over tells that it was the last. */
    method Page(remote: set<Key>, ghost n: nat) returns (ghost over: bool)
      requires rngmin < rngmax && Ascending(lkeys) && current < KEYS
      requires !BetweenBothIncl(rngmin, rngmax, IncId(rngmax))
      requires Underway(Elements(lkeys), remote, rngmin, rngmax, n, current, log)
      modifies this
      ensures over ==> Ran(Elements(lkeys), remote, rngmin, rngmax, log)
                       && !BetweenBothIncl(rngmin, rngmax, current)
      ensures !over ==> Underway(Elements(lkeys), remote, rngmin, rngmax, n + PAGE, current, log)
    {
      ghost var c, was, local := current, log, Elements(lkeys);
      var rkeys, morekeys := GetKeys(remote, current, rngmax);
      ghost var more := GetKeysCb(rkeys, morekeys);
      over := !(morekeys && c < rngmax);
      PageOver(local, remote, rngmin, rngmax, n, c, was, rkeys, morekeys, more);
      PageMoves(rngmin, rngmax, c, rkeys, morekeys);
    }

    /** The whole run, for a range whose end does not lead back into it. */
    method Run(remote: set<Key>)
      requires rngmin < rngmax && Ascending(lkeys) && current == rngmin && log == []
      requires !BetweenBothIncl(rngmin, rngmax, IncId(rngmax))
      modifies this
      ensures Ran(Elements(lkeys), remote, rngmin, rngmax, log)
    {
      ghost var n, over, ks := 0, false, Pages(remote, rngmin, rngmax);
      while BetweenBothIncl(rngmin, rngmax, current)
        invariant over ==> Ran(Elements(lkeys), remote, rngmin, rngmax, log)
                           && !BetweenBothIncl(rngmin, rngmax, current)
        invariant !over ==> Underway(Elements(lkeys), remote, rngmin, rngmax, n, current, log)
        decreases !over, |ks| - n
      {
        StartInRange(remote, rngmin, rngmax, n, current);
        over := Page(remote, n);
        n := n + PAGE;
      }
      if !over {
        StartInRange(remote, rngmin, rngmax, n, current);
      }
    }
  }

  /** The new position follows the page, or lies outside the range. */
  lemma {:induction false} PageMoves(lo: Key, hi: nat, c: Key, page: seq<Key>, morekeys: bool)
    requires lo <= c <= hi && !BetweenBothIncl(lo, hi, IncId(hi)) && lo < hi
    requires morekeys ==> page != [] && c < page[|page| - 1] < KEYS - 1
    ensures var c' := IncId(if morekeys then Top(page, hi) else hi);
      if morekeys && c < hi then page != [] && c' == After(page[|page| - 1]) else !BetweenBothIncl(lo, hi, c')
  {
  }

  /** A page has been compared: the run goes on or is over. */
  lemma {:induction false} PageOver(local: set<Key>, remote: set<Key>, lo: Key, hi: nat, n: nat, c: Key,
                                    log: seq<Report>, page: seq<Key>, morekeys: bool, more: seq<Report>)
    requires lo < hi && Underway(local, remote, lo, hi, n, c, log) && Answered(remote, c, hi, page, morekeys)
    requires Distinct(more)
    requires forall r :: r in more <==> DiffersIn(local, Elements(page), c, Top(page, hi), r)
    ensures lo <= c <= hi && (morekeys ==> |page| == PAGE && c < page[PAGE - 1] < KEYS - 1)
    ensures morekeys && c < hi ==> |page| == PAGE
                                   && Underway(local, remote, lo, hi, n + PAGE, After(page[|page| - 1]), log + more)
    ensures !(morekeys && c < hi) ==> Ran(local, remote, lo, hi, log + more)
  {
    var ks := Pages(remote, lo, hi);
    PageIs(remote, lo, hi, n, c, page, morekeys);
    StartInRange(remote, lo, hi, n, c);
    if c == hi {
      PageAlone(local, remote, lo, hi, n, c, log, page, more);
    } else if morekeys {
      PageInside(local, remote, lo, hi, n, c, log, page, more);
    } else {
      PageEnds(local, remote, lo, hi, n, c, log, page, more);
    }
  }

  /** The last page of a run, when the rest of the range is more than its end. */
  lemma {:induction false} PageEnds(local: set<Key>, remote: set<Key>, lo: Key, hi: nat, n: nat, c: Key,
                                    log: seq<Report>, page: seq<Key>, more: seq<Report>)
    requires lo < hi && Underway(local, remote, lo, hi, n, c, log) && c < hi
    requires |Pages(remote, lo, hi)| - n <= PAGE && page == Pages(remote, lo, hi)[n..]
    requires Distinct(more)
    requires forall r :: r in more <==> DiffersIn(local, Elements(page), c, Top(page, hi), r)
    ensures Ran(local, remote, lo, hi, log + more)
  {
    if |page| == 1 && page[0] == c {
      assert page == [c];
      PageAlone(local, remote, lo, hi, n, c, log, page, more);
    } else {
      if |page| != 0 {
        PageBeyond(remote, lo, hi, n, c, page);
      }
      PageAtEnd(local, remote, lo, hi, n, c, log, page, Top(page, hi), more);
    }
  }

  lemma {:induction false} PageBeyond(remote: set<Key>, lo: Key, hi: nat, n: nat, c: Key, page: seq<Key>)
    requires n <= |Pages(remote, lo, hi)| && c == NextStart(Pages(remote, lo, hi), lo, n)
    requires page == Pages(remote, lo, hi)[n..] && page != [] && !(|page| == 1 && page[0] == c)
    ensures c < page[|page| - 1]
  {
    var ks := Pages(remote, lo, hi);
    PagesFacts(remote, lo, hi);
    LeadsUp(ks, lo, hi, n);
    assert |page| > 1 ==> page[0] < page[|page| - 1];
  }
}
