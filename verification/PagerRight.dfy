/** The key pager against the host's range inside its node
    (merkle/merkle_syncer.C): for which ranges its runs are right, and key sets for
    which they are not. */
module PagerRight {
  import opened Slots
  import opened MerkleSpec
  import opened MerkleHashes
  import opened SyncSpec
  import opened SyncPages
  import opened SyncPager
  import opened KeyPager
  import opened PagerExact
  import KeyList

  /** The differences in range below the region, each once. */
  ghost predicate Right(t: Task, g: Region, log: seq<Report>) {
    Distinct(log) && forall r :: r in log <==> Differs(t, r) && In(g, r.key)
  }

  ghost predicate IsRegion(g: Region) {
    g.depth <= 26 && ClearSuffix(g.prefix, g.depth) == g.prefix
  }

  /** What a run for the region reports. */
  ghost predicate RanFor(t: Task, g: Region, log: seq<Report>)
    requires g.depth <= 26
  {
    Ran(LocalAt(t, g), t.remote, PageStart(g.depth, g.prefix, t.lo), PageEnd(g.depth, g.prefix, t.lo, t.hi), log)
  }

  ghost predicate NothingCutFor(t: Task, g: Region)
    requires g.depth <= 26
  {
    NothingCut(LocalAt(t, g), t.remote, PageStart(g.depth, g.prefix, t.lo), PageEnd(g.depth, g.prefix, t.lo, t.hi))
  }

  ghost predicate FitsFor(t: Task, g: Region)
    requires g.depth <= 26
  {
    Fits(g.depth, g.prefix, t.lo, t.hi)
  }

  /** merkle_getkeyrange, as compare_nodes starts it, to its end. */
  method PageRegion(ghost t: Task, g: Region, local: set<Key>, remote: set<Key>, rngmin: Key, rngmax: Key)
    returns (log: seq<Report>)
    requires IsRegion(g) && t.local == local && t.remote == remote && t.lo == rngmin && t.hi == rngmax
    requires !NeverEnds(g.depth, rngmin, rngmax)
    ensures RanFor(t, g, log)
  {
    var lo, hi := PageStart(g.depth, g.prefix, rngmin), PageEnd(g.depth, g.prefix, rngmin, rngmax);
    PagesInsideIff(g.depth, g.prefix, rngmin, rngmax);
    EndsIff(g.depth, g.prefix, rngmin, rngmax, lo, hi);
    var lkeys := KeyList.DatabaseGetKeys(local, g.depth, g.prefix);
    SortedElements(Under(local, g.depth, g.prefix));
    var pager := new KeyRange(lo, hi, lkeys);
    pager.Run(remote);
    log := pager.log;
  }

  lemma {:induction false} InIsInNode(g: Region, x: Key)
    requires IsRegion(g)
    ensures In(g, x) <==> InNode(g.depth, g.prefix, x)
  {
    SharesIsInterval(g.prefix, x, g.depth);
  }

  /** Where the range fits, a difference below the region is one of the pages. */
  lemma {:induction false} FitsReports(t: Task, g: Region, log: seq<Report>)
    requires IsRegion(g) && FitsFor(t, g)
    ensures Right(t, g, log) <==> Reports(log, LocalAt(t, g), t.remote, PageStart(g.depth, g.prefix, t.lo),
                                          PageEnd(g.depth, g.prefix, t.lo, t.hi) + 1)
  {
    var lo, hi := PageStart(g.depth, g.prefix, t.lo), PageEnd(g.depth, g.prefix, t.lo, t.hi);
    forall r: Report
      ensures Differs(t, r) && In(g, r.key) <==> lo <= r.key < hi + 1 && OneSided(LocalAt(t, g), t.remote, r)
    {
      InIsInNode(g, r.key);
      FitsAgrees(g.depth, g.prefix, t.lo, t.hi, r.key);
    }
  }

  /** Where the range fits, a run is right exactly if no local key is cut off. */
  lemma {:induction false} RightIff(t: Task, g: Region, log: seq<Report>)
    requires IsRegion(g) && FitsFor(t, g) && RanFor(t, g, log)
    ensures Right(t, g, log) <==> NothingCutFor(t, g)
  {
    PagesInsideIff(g.depth, g.prefix, t.lo, t.hi);
    FitsReports(t, g, log);
    RanIsWhole(LocalAt(t, g), t.remote, PageStart(g.depth, g.prefix, t.lo),
               PageEnd(g.depth, g.prefix, t.lo, t.hi), log);
  }

  // ---------- a run without neighbouring keys and local keys ----------

  predicate SameParity(x: Key, k: Key) {
    (k - x) % 2 == 0
  }

  ghost predicate Sparse(keys: set<Key>, x: Key) {
    forall k :: k in keys ==> SameParity(x, k)
  }

  /** Only a single key at the very start can stand alone. */
  lemma {:induction false} SparseAlone(remote: set<Key>, lo: Key, hi: nat, x: Key)
    requires Sparse(remote, x) && Alone(Pages(remote, lo, hi), lo)
    ensures Pages(remote, lo, hi) == [lo]
  {
    var ks := Pages(remote, lo, hi);
    PagesFacts(remote, lo, hi);
    if |ks| > 1 {
      assert ks[|ks| - 2] in ks && ks[|ks| - 1] in ks;
      NotNeighbours(x, ks[|ks| - 2], ks[|ks| - 1]);
    }
  }

  lemma {:induction false} NotNeighbours(x: Key, a: Key, b: Key)
    requires SameParity(x, a) && SameParity(x, b)
    ensures b != After(a)
  {
  }

  /** Then nothing is cut off, */
  lemma {:induction false} SparseKeeps(remote: set<Key>, lo: Key, hi: nat, x: Key)
    requires lo < hi && Sparse(remote, x)
    ensures NothingCut({}, remote, lo, hi)
  {
    if Alone(Pages(remote, lo, hi), lo) {
      SparseAlone(remote, lo, hi, x);
    }
  }

  /** and every remote key of the pages is reported. */
  lemma {:induction false} SparseRun(remote: set<Key>, lo: Key, hi: nat, x: Key, log: seq<Report>)
    requires lo < hi && Sparse(remote, x) && Ran({}, remote, lo, hi, log)
    ensures forall r :: r in log <==> r.localMissing && r.key in remote && lo <= r.key <= hi
  {
    var ks := Pages(remote, lo, hi);
    PagesFacts(remote, lo, hi);
    if Alone(ks, lo) {
      SparseAlone(remote, lo, hi, x);
      SparseAloneRun(remote, lo, hi, log);
    } else {
      forall r: Report ensures r in log <==> r.localMissing && r.key in remote && lo <= r.key <= hi {
        if r.key in remote && lo <= r.key <= hi {
          TopIsLast(remote, lo, hi, r.key);
        }
        assert |ks| != 0 ==> ks[|ks| - 1] in ks;
      }
    }
  }

  /** There is such a run. */
  lemma {:induction false} SparseLog(remote: set<Key>, lo: Key, hi: nat, x: Key) returns (log: seq<Report>)
    requires lo < hi && Sparse(remote, x)
    ensures Ran({}, remote, lo, hi, log)
  {
    var ks := Pages(remote, lo, hi);
    PagesFacts(remote, lo, hi);
    log := AllMissing(ks);
    if Alone(ks, lo) {
      SparseAlone(remote, lo, hi, x);
      assert log[..0] == [] && log[0..] == log;
      assert RanAlone({}, remote, lo, hi, lo, log, 0);
    } else {
      forall r: Report | r.localMissing && r.key in remote && lo <= r.key <= hi ensures r.key <= Top(ks, hi) {
        TopIsLast(remote, lo, hi, r.key);
      }
      assert |ks| != 0 ==> ks[|ks| - 1] in ks;
    }
  }

  lemma {:induction false} AllMissing(ks: seq<Key>) returns (log: seq<Report>)
    requires Ascending(ks)
    ensures |log| == |ks| && Distinct(log) && forall r :: r in log <==> r.localMissing && r.key in ks
  {
    log := seq(|ks|, i requires 0 <= i < |ks| => Report(ks[i], true));
    forall r: Report ensures r in log <==> r.localMissing && r.key in ks {
      if r.localMissing && r.key in ks {
        var i :| 0 <= i < |ks| && ks[i] == r.key;
        assert log[i] == r;
      }
    }
  }

  lemma {:induction false} SparseAloneRun(remote: set<Key>, lo: Key, hi: nat, log: seq<Report>)
    requires lo < hi && Ran({}, remote, lo, hi, log) && Pages(remote, lo, hi) == [lo]
    ensures forall r :: r in log <==> r.localMissing && r.key in remote && lo <= r.key <= hi
  {
    var m: nat :| RanAlone({}, remote, lo, hi, lo, log, m);
    SelfReports(log[m..], {}, LastPage(remote, lo, hi), lo);
    forall r: Report ensures r in log <==> r.localMissing && r.key in remote && lo <= r.key <= hi {
      InParts(log, m, r);
      assert r.key in Pages(remote, lo, hi) <==> r.key == lo;
    }
  }

  // ---------- key sets on which a range that does not fit goes wrong ----------

  /** n keys of the parity of x, from b on. */
  function Every(x: Key, b: Key, n: nat): set<Key> {
    set k: Key | b <= k < b + 2 * n && SameParity(x, k)
  }

  lemma {:induction false} EveryCard(x: Key, b: Key, n: nat)
    requires b + 2 * n <= KEYS
    ensures |Every(x, b, n)| == n
  {
    if n == 0 {
      assert Every(x, b, n) == {};
    } else {
      EveryCard(x, b, n - 1);
      var k: Key := if SameParity(x, b + 2 * n - 2) then b + 2 * n - 2 else b + 2 * n - 1;
      EveryNext(x, b, n, k);
    }
  }

  lemma {:induction false} EveryNext(x: Key, b: Key, n: nat, k: Key)
    requires n > 0 && b + 2 * n - 2 <= k < b + 2 * n && SameParity(x, k)
    ensures Every(x, b, n) == Every(x, b, n - 1) + {k} && k !in Every(x, b, n - 1)
  {
    forall j | j in Every(x, b, n) ensures j in Every(x, b, n - 1) + {k} {
      NotNeighbours(x, j, k);
      NotNeighbours(x, k, j);
    }
  }

  lemma {:induction false} EveryHas(x: Key, b: Key, n: nat)
    requires SameParity(x, b) && n > 1 && b + 2 < KEYS
    ensures Sparse(Every(x, b, n), x) && b in Every(x, b, n) && b + 2 in Every(x, b, n)
    ensures forall k :: k in Every(x, b, n) ==> k < b + 2 * n
  {
    assert SameParity(x, b + 2);
  }

  /** A region beside g at the same depth, below the same parent. */
  function Beside(g: Region): Region
    requires 1 <= g.depth <= 25
  {
    var i := if Slot(g.prefix, g.depth - 1) == 0 then 1 else 0;
    Region(g.depth, ChildPrefix(g.prefix, g.depth - 1, i))
  }

  lemma {:induction false} BesideFacts(g: Region, x: Key)
    requires 1 <= g.depth <= 25 && In(Beside(g), x)
    ensures Prefix(x, g.depth - 1) == Prefix(g.prefix, g.depth - 1) && !In(g, x)
  {
    var i := if Slot(g.prefix, g.depth - 1) == 0 then 1 else 0;
    var s := ChildPrefix(g.prefix, g.depth - 1, i);
    ChildPrefixFacts(g.prefix, g.depth - 1, i);
    PrefixWeaken(x, s, g.depth - 1, g.depth);
    PrefixStep(x, g.prefix, g.depth - 1);
    PrefixStep(x, s, g.depth - 1);
  }

  /** Room for 66 keys of one parity. */
  lemma {:induction false} RoomIn(g: Region, x: Key)
    requires IsRegion(g) && g.depth <= 25
    ensures |Every(x, g.prefix, 66)| == 66
    ensures forall k :: k in Every(x, g.prefix, 66) ==> In(g, k) && SameParity(x, k)
  {
    BlockFits(g.prefix, g.depth);
    WidthPositive(g.depth + 1);
    assert Width(g.depth) == 64 * Width(g.depth + 1);
    EveryCard(x, g.prefix, 66);
    forall k | k in Every(x, g.prefix, 66) ensures In(g, k) {
      InIsInNode(g, k);
    }
  }

  /** Keys beside the region, so that both trees have index nodes down to it. */
  function Surroundings(g: Region, x: Key): set<Key>
    requires g.depth <= 25
  {
    if g.depth == 0 then {} else Every(x, Beside(g).prefix, 66)
  }

  /** At the remote side the region is full of keys, locally it is empty; x is on both
      sides unless it lies in the region. */
  function BadTask(sha: Sha, g: Region, rngmin: Key, rngmax: Key, x: Key): Task
    requires g.depth <= 25
  {
    var around := Surroundings(g, x);
    Task(sha, (set k | k in around + {x} && !In(g, k)), around + {x} + Every(x, g.prefix, 66), rngmin, rngmax)
  }

  lemma {:induction false} SurroundingFacts(g: Region, x: Key)
    requires IsRegion(g) && 1 <= g.depth <= 25
    ensures |Surroundings(g, x)| == 66
    ensures forall k :: k in Surroundings(g, x) ==>
              SameParity(x, k) && !In(g, k) && Prefix(k, g.depth - 1) == Prefix(g.prefix, g.depth - 1)
  {
    var i := if Slot(g.prefix, g.depth - 1) == 0 then 1 else 0;
    ChildPrefixFacts(g.prefix, g.depth - 1, i);
    RoomIn(Beside(g), x);
    forall k | k in Surroundings(g, x) ensures !In(g, k) && Prefix(k, g.depth - 1) == Prefix(g.prefix, g.depth - 1) {
      BesideFacts(g, k);
    }
  }

  lemma {:induction false} NodeThere(keys: set<Key>, g: Region, x: Key)
    requires IsRegion(g) && g.depth <= 25 && Surroundings(g, x) <= keys
    ensures NodeAt(keys, g.depth, g.prefix)
  {
    if g.depth > 0 {
      SurroundingFacts(g, x);
      forall e | 0 <= e < g.depth ensures IsIndex(Under(keys, e, g.prefix), e) {
        forall k | k in Surroundings(g, x) ensures k in Under(keys, e, g.prefix) {
          PrefixWeaken(k, g.prefix, e, g.depth - 1);
        }
        SubsetCard(Surroundings(g, x), Under(keys, e, g.prefix));
      }
    }
  }

  /** The sets make the walk hand the region over, whatever the key x. */
  lemma {:induction false} BadIsHanded(sha: Sha, g: Region, rngmin: Key, rngmax: Key, x: Key)
    requires IsRegion(g) && g.depth <= 25 && (g.depth == 0 || Overlap(rngmin, rngmax, g.prefix, Last(g)))
    requires forall words :: sha(words) != 0
    ensures var t := BadTask(sha, g, rngmin, rngmax, x);
      && Handed(t, g) && LocalAt(t, g) == {} && Sparse(t.remote, x)
      && x in t.remote && (x in t.local <==> !In(g, x))
  {
    var t := BadTask(sha, g, rngmin, rngmax, x);
    BadSets(sha, g, rngmin, rngmax, x);
    NodeThere(t.local, g, x);
    NodeThere(t.remote, g, x);
  }

  lemma {:induction false} BadSets(sha: Sha, g: Region, rngmin: Key, rngmax: Key, x: Key)
    requires IsRegion(g) && g.depth <= 25
    ensures var t := BadTask(sha, g, rngmin, rngmax, x);
      && LocalAt(t, g) == {} && |RemoteAt(t, g)| > 64 && Sparse(t.remote, x)
      && x in t.remote && (x in t.local <==> !In(g, x))
      && Surroundings(g, x) <= t.local && Surroundings(g, x) <= t.remote
  {
    var t := BadTask(sha, g, rngmin, rngmax, x);
    RoomIn(g, x);
    AroundIt(g, x);
    EnoughThere(g, x, t.remote);
    assert LocalAt(t, g) == {};
  }

  lemma {:induction false} AroundIt(g: Region, x: Key)
    requires IsRegion(g) && g.depth <= 25
    ensures forall k :: k in Surroundings(g, x) ==> SameParity(x, k) && !In(g, k)
  {
    if g.depth > 0 {
      SurroundingFacts(g, x);
    }
  }

  lemma {:induction false} EnoughThere(g: Region, x: Key, keys: set<Key>)
    requires IsRegion(g) && g.depth <= 25 && Every(x, g.prefix, 66) <= keys
    ensures |Under(keys, g.depth, g.prefix)| > 64
  {
    RoomIn(g, x);
    SubsetCard(Every(x, g.prefix, 66), Under(keys, g.depth, g.prefix));
  }

  /** A key at which the pages and the host's range in the node disagree: no run is
      right, although nothing is cut off. */
  lemma {:induction false} MisfitFails(sha: Sha, g: Region, rngmin: Key, rngmax: Key, x: Key, log: seq<Report>)
    requires IsRegion(g) && g.depth <= 25 && (g.depth == 0 || Overlap(rngmin, rngmax, g.prefix, Last(g)))
    requires (forall words :: sha(words) != 0) && !Agrees(g.depth, g.prefix, rngmin, rngmax, x)
    requires RanFor(BadTask(sha, g, rngmin, rngmax, x), g, log)
    ensures !Right(BadTask(sha, g, rngmin, rngmax, x), g, log)
  {
    var t := BadTask(sha, g, rngmin, rngmax, x);
    var lo, hi := PageStart(g.depth, g.prefix, rngmin), PageEnd(g.depth, g.prefix, rngmin, rngmax);
    BadIsHanded(sha, g, rngmin, rngmax, x);
    PagesInsideIff(g.depth, g.prefix, rngmin, rngmax);
    SparseRun(t.remote, lo, hi, x, log);
    InIsInNode(g, x);
    assert Report(x, true) in log <==> lo <= x <= hi;
  }

  /** A run for these key sets is a run of a handed region with nothing cut off. */
  ghost predicate Handled(t: Task, g: Region, log: seq<Report>) {
    Handed(t, g) && RanFor(t, g, log) && NothingCutFor(t, g)
  }

  /** Over all key sets whose walk hands the region over: every run with nothing cut
      off is right if and only if the range fits. */
  lemma {:induction false} PagerRightIff(sha: Sha, g: Region, rngmin: Key, rngmax: Key)
    requires IsRegion(g) && g.depth <= 25 && (g.depth == 0 || Overlap(rngmin, rngmax, g.prefix, Last(g)))
    requires (forall words :: sha(words) != 0) && !NeverEnds(g.depth, rngmin, rngmax)
    ensures (forall local, remote, log :: Handled(Task(sha, local, remote, rngmin, rngmax), g, log)
                                          ==> Right(Task(sha, local, remote, rngmin, rngmax), g, log))
            <==> Fits(g.depth, g.prefix, rngmin, rngmax)
  {
    if Fits(g.depth, g.prefix, rngmin, rngmax) {
      forall local, remote, log | Handled(Task(sha, local, remote, rngmin, rngmax), g, log)
        ensures Right(Task(sha, local, remote, rngmin, rngmax), g, log)
      {
        RightIff(Task(sha, local, remote, rngmin, rngmax), g, log);
      }
    } else {
      var x := MisfitDisagrees(g.depth, g.prefix, rngmin, rngmax);
      var t := BadTask(sha, g, rngmin, rngmax, x);
      BadIsHanded(sha, g, rngmin, rngmax, x);
      PagesInsideIff(g.depth, g.prefix, rngmin, rngmax);
      var lo, hi := PageStart(g.depth, g.prefix, rngmin), PageEnd(g.depth, g.prefix, rngmin, rngmax);
      SparseKeeps(t.remote, lo, hi, x);
      var log := SparseLog(t.remote, lo, hi, x);
      MisfitFails(sha, g, rngmin, rngmax, x, log);
      assert Handled(Task(sha, t.local, t.remote, rngmin, rngmax), g, log);
    }
  }

  // ---------- two wrong runs ----------

  lemma {:induction false} FirstChild(g: Region)
    requires g.depth == 1 && g.prefix == 0
    ensures IsRegion(g) && Overlap(0, KEYS - 1, g.prefix, Last(g)) && Width(g.depth) < KEYS
    ensures PageStart(g.depth, g.prefix, 0) == 0 < Width(g.depth) <= PageEnd(g.depth, g.prefix, 0, KEYS - 1)
  {
    NodeBounds(g.depth, g.prefix);
  }

  /** Below the root, a host that wants the whole ring: a key that both sides have is
      reported as missing here. */
  method FalseReport(sha: Sha, g: Region) returns (t: Task, x: Key, log: seq<Report>)
    requires g.depth == 1 && g.prefix == 0 && forall words :: sha(words) != 0
    ensures Handed(t, g) && t.lo == 0 && t.hi == KEYS - 1 && RanFor(t, g, log)
    ensures x in t.local && x in t.remote && Report(x, true) in log
  {
    FirstChild(g);
    x := Width(g.depth);
    t := BadTask(sha, g, 0, KEYS - 1, x);
    BadIsHanded(sha, g, 0, KEYS - 1, x);
    InIsInNode(g, x);
    log := PageRegion(t, g, t.local, t.remote, 0, KEYS - 1);
    SparseRun(t.remote, PageStart(g.depth, g.prefix, 0), PageEnd(g.depth, g.prefix, 0, KEYS - 1), x, log);
  }

  /** At the root, for a host that wants [0, 1000]: a local key behind the last remote
      one is never reported, although the range fits. */
  method MissedKey(sha: Sha, g: Region) returns (t: Task, x: Key, log: seq<Report>)
    requires g.depth == 0 && g.prefix == 0
    ensures Handed(t, g) && t.lo == 0 && t.hi == 1000 && FitsFor(t, g) && RanFor(t, g, log)
    ensures Differs(t, Report(x, false)) && In(g, x) && Report(x, false) !in log
  {
    NodeBounds(g.depth, g.prefix);
    x := 200;
    t := Task(sha, {x}, Every(0, 0, 66), 0, 1000);
    EveryCard(0, 0, 66);
    UnderRoot(t.local, g.prefix);
    UnderRoot(t.remote, g.prefix);
    log := PageRegion(t, g, t.local, t.remote, 0, 1000);
    EveryHas(0, 0, 66);
    BehindTheLast(t.remote, 0, 1000, 2, x, log);
  }

  lemma {:induction false} BehindTheLast(remote: set<Key>, lo: Key, hi: nat, y: Key, x: Key, log: seq<Report>)
    requires lo < hi && Sparse(remote, lo) && lo in remote && y in remote && lo < y <= hi
    requires (forall k :: k in remote ==> k < x) && Ran({x}, remote, lo, hi, log)
    ensures Report(x, false) !in log
  {
    var ks := Pages(remote, lo, hi);
    PagesFacts(remote, lo, hi);
    assert y in ks;
    if Alone(ks, lo) {
      SparseAlone(remote, lo, hi, lo);
    }
    assert ks[|ks| - 1] in ks;
  }
}
