/** A whole synchronisation (merkle/merkle_syncer.C): the walk over the two trees and
    the key pagers it starts.  Both trees stay as they are, so it does not matter that
    the pagers run beside the walk: their reports are put behind its own here. */
module SyncWhole {
  import opened Slots
  import opened MerkleSpec
  import opened SyncSpec
  import opened SyncPages
  import opened SyncPager
  import opened MerkleSync
  import opened PagerExact
  import opened PagerRight

  /** Every region that the walk hands over has a range that fits, and no local key
      there is cut off. */
  ghost predicate PagersRight(t: Task) {
    forall g :: Handed(t, g) ==> FitsFor(t, g) && NothingCutFor(t, g)
  }

  /** What is outside the regions, and in the first n of them. */
  ghost predicate Reported(t: Task, paged: seq<Region>, n: nat, log: seq<Report>)
    requires n <= |paged|
  {
    && Distinct(log)
    && forall r :: r in log <==> Differs(t, r) && (!Paged(paged, r.key) || Paged(paged[..n], r.key))
  }

  lemma {:induction false} PagedNext(paged: seq<Region>, n: nat, k: Key)
    requires n < |paged|
    ensures Paged(paged[..n + 1], k) <==> Paged(paged[..n], k) || In(paged[n], k)
    ensures Paged(paged[..n + 1], k) ==> Paged(paged, k)
  {
    if Paged(paged[..n], k) {
      var j :| 0 <= j < n && In(paged[..n][j], k);
      assert In(paged[..n + 1][j], k);
    }
    if In(paged[n], k) {
      assert In(paged[..n + 1][n], k);
    }
    if Paged(paged[..n + 1], k) {
      var j :| 0 <= j < n + 1 && In(paged[..n + 1][j], k);
      assert In(paged[j], k);
      assert j < n ==> In(paged[..n][j], k);
    }
  }

  lemma {:induction false} NotBefore(t: Task, paged: seq<Region>, n: nat, k: Key)
    requires n < |paged| && AllHanded(t, paged) && In(paged[n], k)
    ensures !Paged(paged[..n], k)
  {
    if Paged(paged[..n], k) {
      var j :| 0 <= j < n && In(paged[..n][j], k);
      assert paged[j] in paged && paged[n] in paged && paged[j] != paged[n];
      HandedApart(t, paged[j], paged[n], k);
    }
  }

  /** The next region's differences are new. */
  lemma {:induction false} OneMore(t: Task, paged: seq<Region>, n: nat, log: seq<Report>, more: seq<Report>)
    requires n < |paged| && AllHanded(t, paged) && Reported(t, paged, n, log) && Right(t, paged[n], more)
    ensures Reported(t, paged, n + 1, log + more)
  {
    var all := log + more;
    forall i, j | 0 <= i < j < |all| ensures all[i] != all[j] {
      if i < |log| <= j {
        assert all[i] in log && all[j] == more[j - |log|] && more[j - |log|] in more;
        NotBefore(t, paged, n, all[j].key);
        assert Paged(paged, all[j].key);
      }
    }
    forall r: Report
      ensures r in all <==> Differs(t, r) && (!Paged(paged, r.key) || Paged(paged[..n + 1], r.key))
    {
      PagedNext(paged, n, r.key);
    }
  }

  // ---------- a run that is not right is not made good by another ----------

  /** For a host's range that does not wrap around, what a pager reports rightly lies
      in its own region. */
  lemma {:induction false} OwnKeys(t: Task, g: Region, log: seq<Report>, r: Report)
    requires IsRegion(g) && t.lo < t.hi && FitsFor(t, g) && RanFor(t, g, log) && r in log && Differs(t, r)
    ensures In(g, r.key)
  {
    var lo, hi := PageStart(g.depth, g.prefix, t.lo), PageEnd(g.depth, g.prefix, t.lo, t.hi);
    PagesInsideIff(g.depth, g.prefix, t.lo, t.hi);
    InIsInNode(g, r.key);
    FitsAgrees(g.depth, g.prefix, t.lo, t.hi, r.key);
    InRangeOrLocal(LocalAt(t, g), t.remote, lo, hi, log, r);
  }

  /** Something is reported twice, or wrongly, or left out of one of the first n regions. */
  ghost predicate Spoiled(t: Task, paged: seq<Region>, n: nat, log: seq<Report>)
    requires n <= |paged|
  {
    || !Distinct(log)
    || (exists r :: r in log && !Differs(t, r))
    || exists j, r :: 0 <= j < n && LeftOut(t, paged[j], log, r)
  }

  ghost predicate LeftOut(t: Task, g: Region, log: seq<Report>, r: Report) {
    Differs(t, r) && In(g, r.key) && r !in log
  }

  /** The run of the region is one as the pager makes it. */
  ghost predicate RanInside(t: Task, g: Region, more: seq<Report>) {
    t.lo < t.hi && IsRegion(g) && FitsFor(t, g) && RanFor(t, g, more)
  }

  lemma {:induction false} RepeatStays(log: seq<Report>, more: seq<Report>)
    requires !Distinct(log) || !Distinct(more)
    ensures !Distinct(log + more)
  {
    var all := log + more;
    if Distinct(all) {
      forall i, j | 0 <= i < j < |log| ensures log[i] != log[j] {
        assert all[i] == log[i] && all[j] == log[j];
      }
      forall i, j | 0 <= i < j < |more| ensures more[i] != more[j] {
        ShiftedBy(log, more, i);
        ShiftedBy(log, more, j);
      }
    }
  }

  lemma {:induction false} ShiftedBy(log: seq<Report>, more: seq<Report>, i: nat)
    requires i < |more|
    ensures (log + more)[|log| + i] == more[i]
  {
  }

  /** Later runs do not help, */
  lemma {:induction false} StaysSpoiled(t: Task, paged: seq<Region>, n: nat, log: seq<Report>, more: seq<Report>)
    requires n < |paged| && AllHanded(t, paged) && Spoiled(t, paged, n, log) && RanInside(t, paged[n], more)
    ensures Spoiled(t, paged, n + 1, log + more)
  {
    if !Distinct(log) {
      RepeatStays(log, more);
    } else if r :| r in log && !Differs(t, r) {
      assert r in log + more;
    } else {
      var j, r :| 0 <= j < n && LeftOut(t, paged[j], log, r);
      if r in more {
        OwnKeys(t, paged[n], more, r);
        assert paged[j] in paged && paged[n] in paged && paged[j] != paged[n];
        HandedApart(t, paged[j], paged[n], r.key);
      }
      assert LeftOut(t, paged[j], log + more, r);
    }
  }

  /** and a run that is not right spoils the whole. */
  lemma {:induction false} GetsSpoiled(t: Task, paged: seq<Region>, n: nat, log: seq<Report>, more: seq<Report>)
    requires n < |paged| && AllHanded(t, paged) && Reported(t, paged, n, log) && RanInside(t, paged[n], more)
    requires !Right(t, paged[n], more)
    ensures Spoiled(t, paged, n + 1, log + more)
  {
    if !Distinct(more) {
      RepeatStays(log, more);
    } else if r :| r in more && !(Differs(t, r) && In(paged[n], r.key)) {
      if Differs(t, r) {
        OwnKeys(t, paged[n], more, r);
      }
      assert r in log + more;
    } else {
      var r :| r !in more && Differs(t, r) && In(paged[n], r.key);
      NotBefore(t, paged, n, r.key);
      assert Paged(paged, r.key);
      assert LeftOut(t, paged[n], log + more, r);
    }
  }

  /** The differences in range, each once. */
  ghost predicate Complete(t: Task, log: seq<Report>) {
    Distinct(log) && forall r :: r in log <==> Differs(t, r)
  }

  lemma {:induction false} SpoiledIsNot(t: Task, paged: seq<Region>, n: nat, log: seq<Report>)
    requires n <= |paged| && Spoiled(t, paged, n, log)
    ensures !Complete(t, log)
  {
  }

  /** In all of the first n regions nothing is cut off. */
  ghost predicate UncutTo(t: Task, paged: seq<Region>, n: nat)
    requires n <= |paged|
  {
    forall j :: 0 <= j < n ==> paged[j].depth <= 26 && NothingCutFor(t, paged[j])
  }

  ghost predicate AllFit(t: Task) {
    forall g :: Handed(t, g) ==> FitsFor(t, g)
  }

  /** After n regions: right so far, or spoiled for good. */
  ghost predicate SoFar(t: Task, paged: seq<Region>, n: nat, log: seq<Report>)
    requires n <= |paged|
  {
    if UncutTo(t, paged, n) then Reported(t, paged, n, log) else t.lo < t.hi ==> Spoiled(t, paged, n, log)
  }

  lemma {:induction false} NextRun(t: Task, paged: seq<Region>, n: nat, log: seq<Report>, more: seq<Report>)
    requires n < |paged| && AllHanded(t, paged) && SoFar(t, paged, n, log)
    requires IsRegion(paged[n]) && FitsFor(t, paged[n]) && RanFor(t, paged[n], more)
    ensures SoFar(t, paged, n + 1, log + more)
  {
    RightIff(t, paged[n], more);
    UncutNext(t, paged, n);
    if UncutTo(t, paged, n) {
      if NothingCutFor(t, paged[n]) {
        OneMore(t, paged, n, log, more);
      } else if t.lo < t.hi {
        GetsSpoiled(t, paged, n, log, more);
      }
    } else if t.lo < t.hi {
      StaysSpoiled(t, paged, n, log, more);
    }
  }

  lemma {:induction false} UncutNext(t: Task, paged: seq<Region>, n: nat)
    requires n < |paged| && paged[n].depth <= 26
    ensures UncutTo(t, paged, n + 1) <==> UncutTo(t, paged, n) && NothingCutFor(t, paged[n])
  {
  }

  lemma {:induction false} AtTheEnd(t: Task, paged: seq<Region>, log: seq<Report>)
    requires SoFar(t, paged, |paged|, log) && AllFit(t) && forall g :: g in paged <==> Handed(t, g)
    ensures PagersRight(t) ==> Complete(t, log)
    ensures t.lo < t.hi && Complete(t, log) ==> PagersRight(t)
  {
    assert paged[..|paged|] == paged;
    if t.lo < t.hi && Complete(t, log) {
      if !UncutTo(t, paged, |paged|) {
        SpoiledIsNot(t, paged, |paged|, log);
      }
      forall g | Handed(t, g) ensures FitsFor(t, g) && NothingCutFor(t, g) {
        assert g in paged;
      }
    }
    if PagersRight(t) {
      forall j | 0 <= j < |paged| ensures paged[j].depth <= 26 && NothingCutFor(t, paged[j]) {
        assert paged[j] in paged;
      }
    }
  }

  /** Every answer arrives.  If the pagers are right, the whole run reports exactly the
      differences of the two key sets in the range, each once; and if all ranges fit and
      the host's range does not wrap around, only then. */
  method Synchronise(ghost t: Task, sha: Sha, local: set<Key>, remote: set<Key>,
                     rngmin: Key, rngmax: Key) returns (log: seq<Report>)
    requires t == Task(sha, local, remote, rngmin, rngmax) && Trusted(t)
    requires forall g :: Handed(t, g) ==> !NeverEnds(g.depth, rngmin, rngmax)
    ensures PagersRight(t) ==> Complete(t, log)
    ensures AllFit(t) && rngmin < rngmax && Complete(t, log) ==> PagersRight(t)
  {
    var syncer := new Syncer(sha, local, rngmin, rngmax);
    ghost var n := syncer.Sync(t, remote, i => false);
    NoneYet(t, syncer.paged, syncer.log);
    log := PageAll(t, local, remote, rngmin, rngmax, syncer.paged, syncer.log);
    if AllFit(t) {
      AtTheEnd(t, syncer.paged, log);
    }
  }

  /** The pagers for all regions handed over. */
  method PageAll(ghost t: Task, local: set<Key>, remote: set<Key>, rngmin: Key, rngmax: Key,
                 paged: seq<Region>, first: seq<Report>) returns (log: seq<Report>)
    requires t.local == local && t.remote == remote && t.lo == rngmin && t.hi == rngmax
    requires AllHanded(t, paged) && forall g :: g in paged ==> Handed(t, g) && !NeverEnds(g.depth, rngmin, rngmax)
    requires SoFar(t, paged, 0, first)
    ensures AllFit(t) ==> SoFar(t, paged, |paged|, log)
  {
    log := first;
    for i := 0 to |paged|
      invariant AllFit(t) ==> SoFar(t, paged, i, log)
    {
      assert paged[i] in paged;
      var more := PageRegion(t, paged[i], local, remote, rngmin, rngmax);
      if AllFit(t) {
        NextRun(t, paged, i, log, more);
      }
      log := log + more;
    }
  }

  /** What the walk reports itself. */
  lemma {:induction false} NoneYet(t: Task, paged: seq<Region>, log: seq<Report>)
    requires Distinct(log) && forall r :: r in log <==> Differs(t, r) && !Paged(paged, r.key)
    ensures SoFar(t, paged, 0, log)
  {
    assert forall k: Key :: !Paged(paged[..0], k);
  }
}
