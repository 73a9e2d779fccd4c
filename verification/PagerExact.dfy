/** When the key pager of merkle/merkle_syncer.C reports what it should: the
    differences of the host's range inside its node, each once. */
module PagerExact {
  import opened Ids
  import opened Slots
  import opened MerkleSpec
  import opened SyncSpec
  import opened KeyPager
  import KeyList

  // ---------- a run over its own range ----------

  /** The local keys that a run over [lo, hi] would miss, or report wrongly.  The last
      page ends at the last remote key, so no local key may lie behind it.  When the
      last page is one key k at its own start, the comparison goes round the circle:
      then every other local key has to lie behind k, and inside the range; and when
      the range ends at k, the server goes on past it, and both sides have to hold the
      same keys as far as its answer reaches. */
  ghost predicate NothingCut(local: set<Key>, remote: set<Key>, lo: Key, hi: nat) {
    var ks := Pages(remote, lo, hi);
    if !Alone(ks, lo) then forall x :: x in local ==> !(Top(ks, hi) < x <= hi)
    else
      var k := ks[|ks| - 1];
      var page := LastPage(remote, k, hi);
      if |page| > 1 then forall x: Key :: hi < x <= page[|page| - 1] ==> (x in local <==> x in remote)
      else forall x :: x in local && x != k ==> k < x <= hi
  }

  lemma {:induction false} TopIsLast(remote: set<Key>, lo: Key, hi: nat, x: Key)
    requires x in remote && lo <= x <= hi
    ensures Pages(remote, lo, hi) != [] && x <= Top(Pages(remote, lo, hi), hi)
  {
    var ks := Pages(remote, lo, hi);
    PagesFacts(remote, lo, hi);
    var i :| 0 <= i < |ks| && ks[i] == x;
  }

  /** The usual run: it stops at the last remote key. */
  lemma {:induction false} PlainIsWhole(local: set<Key>, remote: set<Key>, lo: Key, hi: nat, log: seq<Report>)
    requires lo < hi && !Alone(Pages(remote, lo, hi), lo)
    requires Reports(log, local, remote, lo, Top(Pages(remote, lo, hi), hi) + 1)
    ensures Reports(log, local, remote, lo, hi + 1) <==> NothingCut(local, remote, lo, hi)
  {
    var ks := Pages(remote, lo, hi);
    var top := Top(ks, hi);
    PagesFacts(remote, lo, hi);
    assert |ks| != 0 ==> ks[|ks| - 1] in ks;
    if Reports(log, local, remote, lo, hi + 1) {
      forall x | x in local ensures !(top < x <= hi) {
        if top < x <= hi {
          MissedAtEnd(local, remote, lo, hi, log, x);
        }
      }
    }
    if NothingCut(local, remote, lo, hi) {
      forall r: Report | lo <= r.key < hi + 1 && OneSided(local, remote, r) ensures r.key < top + 1 {
        if r.localMissing {
          TopIsLast(remote, lo, hi, r.key);
        }
      }
    }
  }

  lemma {:induction false} MissedAtEnd(local: set<Key>, remote: set<Key>, lo: Key, hi: nat, log: seq<Report>, x: Key)
    requires x in local && Top(Pages(remote, lo, hi), hi) < x <= hi && lo <= Top(Pages(remote, lo, hi), hi)
    requires Reports(log, local, remote, lo, Top(Pages(remote, lo, hi), hi) + 1)
    ensures !Reports(log, local, remote, lo, hi + 1)
  {
    if x in remote {
      TopIsLast(remote, lo, hi, x);
    }
    assert OneSided(local, remote, Report(x, false));
    assert Report(x, false) !in log;
  }

  /** A last page compared with itself alone: all local keys but k are reported. */
  lemma {:induction false} SelfReports(log: seq<Report>, local: set<Key>, page: seq<Key>, k: Key)
    requires LastReports(log, local, page, k) && page == [k]
    ensures forall r :: r in log <==> if r.localMissing then r.key == k && k !in local else r.key in local && r.key != k
  {
    forall r: Report ensures r in log <==>
      if r.localMissing then r.key == k && k !in local else r.key in local && r.key != k {
      assert BetweenBothIncl(k, page[|page| - 1], r.key);
      assert r.key in Elements(page) <==> r.key == k;
    }
  }

  /** Both parts of such a run are in the log, each where it is. */
  lemma {:induction false} InParts(log: seq<Report>, m: nat, r: Report)
    requires m <= |log|
    ensures r in log <==> r in log[..m] || r in log[m..]
  {
    assert log == log[..m] + log[m..];
  }

  lemma {:induction false} NotTwice(log: seq<Report>, m: nat, r: Report)
    requires m <= |log| && Distinct(log) && r in log[..m]
    ensures r !in log[m..]
  {
    var i :| 0 <= i < m && log[i] == r;
    forall j | 0 <= j < |log[m..]| ensures log[m..][j] != r {
      assert log[m + j] != log[i];
    }
  }

  lemma {:induction false} PartsDistinct(log: seq<Report>, m: nat)
    requires m <= |log| && Distinct(log[..m]) && Distinct(log[m..])
    requires forall r :: r in log[..m] ==> r !in log[m..]
    ensures Distinct(log)
  {
    forall i, j | 0 <= i < j < |log| ensures log[i] != log[j] {
      if j < m {
        assert log[..m][i] != log[..m][j];
      } else if i < m {
        assert log[..m][i] in log[..m] && log[m..][j - m] in log[m..];
      } else {
        assert log[m..][i - m] != log[m..][j - m];
      }
    }
  }

  lemma {:induction false} LastIsMost(remote: set<Key>, lo: Key, hi: nat, k: Key, x: Key)
    requires Pages(remote, lo, hi) != [] && k == Pages(remote, lo, hi)[|Pages(remote, lo, hi)| - 1]
    ensures k in remote && lo <= k <= hi && (x in remote && lo <= x <= hi ==> x <= k)
  {
    PagesFacts(remote, lo, hi);
    assert k in Pages(remote, lo, hi);
    if x in remote && lo <= x <= hi {
      TopIsLast(remote, lo, hi, x);
    }
  }

  /** The run whose last page is k alone, and nothing more. */
  lemma {:induction false} AloneIsWhole(local: set<Key>, remote: set<Key>, lo: Key, hi: nat, k: Key,
                                        log: seq<Report>, m: nat)
    requires lo < hi && RanAlone(local, remote, lo, hi, k, log, m) && LastPage(remote, k, hi) == [k]
    requires k in remote && lo <= k <= hi && forall x :: x in remote && lo <= x <= hi ==> x <= k
    ensures Reports(log, local, remote, lo, hi + 1) <==> forall x :: x in local && x != k ==> k < x <= hi
  {
    SelfReports(log[m..], local, LastPage(remote, k, hi), k);
    if Reports(log, local, remote, lo, hi + 1) {
      forall x | x in local && x != k ensures k < x <= hi {
        var r := Report(x, false);
        InParts(log, m, r);
        if x < k {
          NotTwice(log, m, r);
        }
      }
    }
    if forall x :: x in local && x != k ==> k < x <= hi {
      forall r: Report ensures r in log <==> lo <= r.key < hi + 1 && OneSided(local, remote, r) {
        InParts(log, m, r);
      }
      PartsDistinct(log, m);
    }
  }

  /** The run that is answered past its end. */
  lemma {:induction false} SpilledIsWhole(local: set<Key>, remote: set<Key>, lo: Key, hi: Key,
                                          log: seq<Report>, m: nat, page: seq<Key>)
    requires lo < hi && RanAlone(local, remote, lo, hi, hi, log, m) && page == LastPage(remote, hi, hi)
    requires |page| > 1 && hi in remote
    ensures Reports(log, local, remote, lo, hi + 1)
            <==> forall x: Key :: hi < x <= page[|page| - 1] ==> (x in local <==> x in remote)
  {
    var s := page[|page| - 1];
    forall r: Report ensures r in log[m..] <==> hi <= r.key <= s && OneSided(local, remote, r) {
      SpillHas(remote, hi, page, r.key);
    }
    if Reports(log, local, remote, lo, hi + 1) {
      forall x: Key | hi < x <= s ensures x in local <==> x in remote {
        InParts(log, m, Report(x, false));
        InParts(log, m, Report(x, true));
      }
    }
    if forall x: Key :: hi < x <= s ==> (x in local <==> x in remote) {
      forall r: Report ensures r in log <==> lo <= r.key < hi + 1 && OneSided(local, remote, r) {
        InParts(log, m, r);
      }
      PartsDistinct(log, m);
    }
  }

  lemma {:induction false} SpillHas(remote: set<Key>, k: Key, page: seq<Key>, x: Key)
    requires page == LastPage(remote, k, k) && |page| > 1 && k in remote
    ensures k < page[|page| - 1]
    ensures k <= x <= page[|page| - 1] ==> (x in Elements(page) <==> x in remote)
  {
    var all := Sorted(KeyList.AtLeast(remote, k));
    assert forall i :: 0 <= i < |page| ==> page[i] == all[i];
    assert all[0] in KeyList.AtLeast(remote, k);
    var last := |page| - 1;
    assert all[0] < all[last] && page[last] == all[last];
    if x in page {
      var i :| 0 <= i < |page| && page[i] == x;
      assert all[i] in KeyList.AtLeast(remote, k);
    }
    if x in remote && k <= x <= page[|page| - 1] {
      assert x in KeyList.AtLeast(remote, k);
      var i :| 0 <= i < |all| && all[i] == x;
      NotAfter(all, i, last);
      assert page[i] == x;
    }
  }

  lemma {:induction false} NotAfter(s: seq<Key>, i: nat, j: nat)
    requires Ascending(s) && i < |s| && j < |s| && s[i] <= s[j]
    ensures i <= j
  {
  }

  /** A run over [lo, hi] reports the differences there, each once, exactly if no
      local key is cut off. */
  lemma {:induction false} RanIsWhole(local: set<Key>, remote: set<Key>, lo: Key, hi: nat, log: seq<Report>)
    requires lo < hi && Ran(local, remote, lo, hi, log)
    ensures Reports(log, local, remote, lo, hi + 1) <==> NothingCut(local, remote, lo, hi)
  {
    var ks := Pages(remote, lo, hi);
    if Alone(ks, lo) {
      var k := ks[|ks| - 1];
      var m :| RanAlone(local, remote, lo, hi, k, log, m);
      AloneRunIsWhole(local, remote, lo, hi, k, log, m);
    } else {
      PlainIsWhole(local, remote, lo, hi, log);
    }
  }

  lemma {:induction false} NothingCutAlone(local: set<Key>, remote: set<Key>, lo: Key, hi: nat, k: Key)
    requires Alone(Pages(remote, lo, hi), lo) && Pages(remote, lo, hi) != []
    requires k == Pages(remote, lo, hi)[|Pages(remote, lo, hi)| - 1]
    ensures var page := LastPage(remote, k, hi);
      NothingCut(local, remote, lo, hi)
      <==> if |page| > 1 then forall x: Key :: hi < x <= page[|page| - 1] ==> (x in local <==> x in remote)
           else forall x :: x in local && x != k ==> k < x <= hi
  {
  }

  lemma {:induction false} AloneRunIsWhole(local: set<Key>, remote: set<Key>, lo: Key, hi: nat, k: Key,
                                           log: seq<Report>, m: nat)
    requires lo < hi && RanAlone(local, remote, lo, hi, k, log, m) && Alone(Pages(remote, lo, hi), lo)
    requires k == Pages(remote, lo, hi)[|Pages(remote, lo, hi)| - 1]
    ensures Reports(log, local, remote, lo, hi + 1) <==> NothingCut(local, remote, lo, hi)
  {
    LastIsMost(remote, lo, hi, k, k);
    NothingCutAlone(local, remote, lo, hi, k);
    if |LastPage(remote, k, hi)| > 1 {
      SpilledIsWhole(local, remote, lo, hi, log, m, LastPage(remote, k, hi));
    } else {
      OneKeyPage(remote, k, hi);
      forall x: Key ensures x in remote && lo <= x <= hi ==> x <= k {
        LastIsMost(remote, lo, hi, k, x);
      }
      AloneIsWhole(local, remote, lo, hi, k, log, m);
    }
  }

  lemma {:induction false} OneKeyPage(remote: set<Key>, k: Key, hi: nat)
    requires k in remote && |LastPage(remote, k, hi)| <= 1
    ensures LastPage(remote, k, hi) == [k]
  {
    if k == hi {
      assert k in KeyList.AtLeast(remote, k);
      FirstOfAll(KeyList.AtLeast(remote, k), k);
    }
  }

  /** What a run reports is a key of the range, a local key, or past the end of it. */
  lemma {:induction false} InRangeOrLocal(local: set<Key>, remote: set<Key>, lo: Key, hi: nat, log: seq<Report>,
                                          r: Report)
    requires lo < hi && Ran(local, remote, lo, hi, log) && r in log
    ensures lo <= r.key <= hi || r.key in local || r.key > hi
  {
    var ks := Pages(remote, lo, hi);
    PagesFacts(remote, lo, hi);
    assert |ks| != 0 ==> ks[|ks| - 1] in ks;
    if Alone(ks, lo) {
      var k := ks[|ks| - 1];
      var m: nat :| RanAlone(local, remote, lo, hi, k, log, m);
      InParts(log, m, r);
      if r in log[m..] {
        LastKeys(local, remote, k, hi, log[m..], r);
      }
    }
  }

  lemma {:induction false} LastKeys(local: set<Key>, remote: set<Key>, k: Key, hi: nat, log: seq<Report>, r: Report)
    requires k in remote && k <= hi && LastReports(log, local, LastPage(remote, k, hi), k) && r in log
    ensures r.key in local || r.key == k || r.key > hi
  {
    if |LastPage(remote, k, hi)| > 1 {
      SpillHas(remote, k, LastPage(remote, k, hi), r.key);
    } else {
      OneKeyPage(remote, k, hi);
      SelfReports(log, local, LastPage(remote, k, hi), k);
    }
  }
}
