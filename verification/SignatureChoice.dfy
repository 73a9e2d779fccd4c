/** The choices of the signature index (tools/gis_chordID.C): how alike two
    signatures are, which child takes a new document, how a full node is divided. */
module SignatureChoice {
  import opened Poly
  import opened PolyDivides
  import opened PolyBits
  import opened PolyWords
  import opened PolyProducts
  import opened SignatureSpec

  const INT_MAX := 0x7fff_ffff

  // ---------- similarity ----------

  /** With the metric, the degree of the gcd in proportion to that of the lcm;
      without it, the degree of the gcd.  The division is exact here, and the
      quotient cut off; the code divides in floating point.  Two constants have
      degrees 0 and 0: there the code converts 0/0 to an integer, which has no
      defined result, and 0 stands for it here. */
  function Similar(g: nat, l: nat, metric: bool): int {
    if !metric then Len(g) - 1
    else if Len(l) <= 1 then 0
    else (INT_MAX - 1) * (Len(g) - 1) / (Len(l) - 1)
  }

  ghost predicate Similarity(s1: Vec, s2: Vec, metric: bool, v: int) {
    exists g, l :: IsGcd(g, Val(s1), Val(s2)) && IsLcm(l, Val(s1), Val(s2)) && v == Similar(g, l, metric)
  }

  lemma {:induction false} SimilarityIsUnique(s1: Vec, s2: Vec, metric: bool, v: int, w: int)
    requires Similarity(s1, s2, metric, v) && Similarity(s1, s2, metric, w)
    ensures v == w
  {
    var g, l :| IsGcd(g, Val(s1), Val(s2)) && IsLcm(l, Val(s1), Val(s2)) && v == Similar(g, l, metric);
    var h, m :| IsGcd(h, Val(s1), Val(s2)) && IsLcm(m, Val(s1), Val(s2)) && w == Similar(h, m, metric);
    GcdUnique(g, h, Val(s1), Val(s2));
    LcmUnique(l, m, Val(s1), Val(s2));
  }

  lemma {:induction false} LcmWithOne(l: nat, a: nat)
    requires IsLcm(l, 1, a)
    ensures l == a
  {
    DividesSelf(a);
    DividesAntisymmetric(l, a);
  }

  method Lcms(s1: Vec, s2: Vec) returns (mylcm: Vec)
    requires IsSig(s1) && IsSig(s2)
    ensures IsSig(mylcm) && IsLcm(Val(mylcm), Val(s1), Val(s2))
  {
    mylcm := [ONE];
    ValOne();
    mylcm := Lcm(mylcm, s1);
    LcmWithOne(Val(mylcm), Val(s1));
    mylcm := Lcm(mylcm, s2);
  }

  /** pSim, given the gcd of its two arguments. */
  method PSim(s1: Vec, s2: Vec, mygcd: Vec, metric: bool) returns (v: int)
    requires IsSig(s1) && IsSig(s2) && IsSig(mygcd) && IsGcd(Val(mygcd), Val(s1), Val(s2))
    ensures Similarity(s1, s2, metric, v) && v >= 0
  {
    var mylcm := Lcms(s1, s2);
    LenZero(Val(mygcd));
    LenZero(Val(mylcm));
    var degg := Degree(mygcd);
    if metric {
      var degl := Degree(mylcm);
      v := if degl == 0 then 0 else (INT_MAX - 1) * degg / degl;
      NotNegative((INT_MAX - 1) * degg, degl);
    } else {
      v := degg;
    }
    assert v == Similar(Val(mygcd), Val(mylcm), metric);
  }

  lemma {:induction false} NotNegative(a: nat, b: int)
    ensures b > 0 ==> a / b >= 0
  {
  }

  method SimilarityOf(s1: Vec, s2: Vec, metric: bool) returns (v: int)
    requires IsSig(s1) && IsSig(s2)
    ensures Similarity(s1, s2, metric, v) && v >= 0
  {
    var gcdPoly := GcdSpecial(s1, s2);
    GcdNonzero(Val(gcdPoly), Val(s1), Val(s2));
    v := PSim(s1, s2, gcdPoly, metric);
  }

  // ---------- the child that takes a document ----------

  /** More alike, or as alike and of lower degree. */
  predicate Beats(sim: int, deg: int, sim': int, deg': int) {
    sim > sim' || (sim == sim' && deg < deg')
  }

  /** The first of the entries that none beats. */
  predicate Best(sims: seq<int>, degs: seq<int>, k: nat)
    requires |sims| == |degs|
  {
    && k < |sims|
    && (forall i :: 0 <= i < |sims| ==> !Beats(sims[i], degs[i], sims[k], degs[k]))
    && (forall i :: 0 <= i < k ==> Beats(sims[k], degs[k], sims[i], degs[i]))
  }

  lemma {:induction false} NextBest(sims: seq<int>, degs: seq<int>, k: nat, v: int, d: int)
    requires |sims| == |degs| && (sims != [] ==> Best(sims, degs, k))
    ensures Best(sims + [v], degs + [d], if sims == [] || Beats(v, d, sims[k], degs[k]) then |sims| else k)
  {
    var s, t := sims + [v], degs + [d];
    assert forall i :: 0 <= i < |sims| ==> s[i] == sims[i] && t[i] == degs[i];
    if sims != [] && Beats(v, d, sims[k], degs[k]) {
      forall i | 0 <= i < |sims| ensures Beats(v, d, s[i], t[i]) {
        assert !Beats(sims[i], degs[i], sims[k], degs[k]);
      }
    }
  }

  ghost predicate Measured(entries: seq<Entry>, sig: Vec, metric: bool, sims: seq<int>, degs: seq<int>) {
    && |sims| == |degs| <= |entries|
    && forall i :: 0 <= i < |sims| ==>
         Similarity(entries[i].sig, sig, metric, sims[i]) && degs[i] == Len(Val(entries[i].sig)) - 1
  }

  lemma {:induction false} NextMeasured(entries: seq<Entry>, sig: Vec, metric: bool, sims: seq<int>, degs: seq<int>,
                                        v: int, d: int)
    requires Measured(entries, sig, metric, sims, degs) && |sims| < |entries|
    requires Similarity(entries[|sims|].sig, sig, metric, v) && d == Len(Val(entries[|sims|].sig)) - 1
    ensures Measured(entries, sig, metric, sims + [v], degs + [d])
  {
  }

  method PickChild(entries: seq<Entry>, sig: Vec, metric: bool)
    returns (k: nat, ghost sims: seq<int>, ghost degs: seq<int>)
    requires IsSig(sig) && entries != [] && forall e :: e in entries ==> IsSig(e.sig)
    ensures |sims| == |entries| && Measured(entries, sig, metric, sims, degs)
    ensures Best(sims, degs, k)
  {
    var maxDegree, bestDegree := -1, -1;
    k, sims, degs := 0, [], [];
    for i := 0 to |entries|
      invariant |sims| == i && Measured(entries, sig, metric, sims, degs)
      invariant i == 0 ==> maxDegree == -1
      invariant i > 0 ==> Best(sims, degs, k) && maxDegree == sims[k] && bestDegree == degs[k]
    {
      var sigDegree, deg := Measure(entries[i].sig, sig, metric);
      NextBest(sims, degs, k, deg, sigDegree);
      NextMeasured(entries, sig, metric, sims, degs, deg, sigDegree);
      if deg > maxDegree {
        maxDegree, k, bestDegree := deg, i, sigDegree;
      } else if deg == maxDegree {
        if sigDegree < bestDegree {
          k, bestDegree := i, sigDegree;
        }
      }
      sims, degs := sims + [deg], degs + [sigDegree];
    }
  }

  method Measure(entrySig: Vec, sig: Vec, metric: bool) returns (sigDegree: int, deg: int)
    requires IsSig(entrySig) && IsSig(sig)
    ensures Similarity(entrySig, sig, metric, deg) && deg >= 0 && sigDegree == Len(Val(entrySig)) - 1
  {
    LenZero(Val(entrySig));
    sigDegree := Degree(entrySig);
    deg := SimilarityOf(entrySig, sig, metric);
  }

  // ---------- index lists ----------

  predicate NoDup(g: seq<nat>) {
    forall i, j :: 0 <= i < j < |g| ==> g[i] != g[j]
  }

  /** g lists exactly the numbers below n, each once. */
  ghost predicate Lists(g: seq<nat>, n: nat) {
    NoDup(g) && forall i: nat :: i in g <==> i < n
  }

  predicate InRange(g: seq<nat>, n: nat) {
    forall k :: 0 <= k < |g| ==> g[k] < n
  }

  /** The entries at the listed positions. */
  function Pick(es: seq<Entry>, g: seq<nat>): (r: seq<Entry>)
    requires InRange(g, |es|)
    ensures |r| == |g| && forall k :: 0 <= k < |g| ==> r[k] == es[g[k]]
  {
    if g == [] then [] else Pick(es, g[..|g| - 1]) + [es[g[|g| - 1]]]
  }

  lemma {:induction false} PickAppend(es: seq<Entry>, g: seq<nat>, h: seq<nat>)
    requires InRange(g, |es|) && InRange(h, |es|)
    ensures InRange(g + h, |es|) && Pick(es, g + h) == Pick(es, g) + Pick(es, h)
  {
    assert InRange(g + h, |es|);
    assert forall k :: 0 <= k < |g + h| ==> Pick(es, g + h)[k] == (Pick(es, g) + Pick(es, h))[k];
  }

  lemma {:induction false} PickPart(es: seq<Entry>, g: seq<nat>)
    requires es != [] && InRange(g, |es| - 1)
    ensures InRange(g, |es|) && Pick(es, g) == Pick(es[..|es| - 1], g)
  {
  }

  /** Picking every position once only reorders. */
  lemma {:induction false} PickAll(es: seq<Entry>, g: seq<nat>)
    requires Lists(g, |es|)
    ensures InRange(g, |es|) && multiset(Pick(es, g)) == multiset(es)
    decreases |es|
  {
    InRangeIfListed(g, |es|);
    if es != [] {
      var n := |es| - 1;
      var a, b := AroundLast(g, n);
      var fs := es[..n];
      PickAll(fs, a + b);
      PickAround(es, a, b);
    }
  }

  lemma {:induction false} AroundLast(g: seq<nat>, n: nat) returns (a: seq<nat>, b: seq<nat>)
    requires Lists(g, n + 1)
    ensures g == a + [n] + b && Lists(a + b, n) && InRange(a, n) && InRange(b, n)
  {
    assert n in g;
    var k :| 0 <= k < |g| && g[k] == n;
    a, b := g[..k], g[k + 1..];
    assert g == a + [n] + b;
    ListsRest(a, b, n);
  }

  lemma {:induction false} InRangeIfListed(g: seq<nat>, n: nat)
    requires Lists(g, n)
    ensures InRange(g, n) && (n == 0 ==> g == [])
  {
    forall k | 0 <= k < |g| ensures g[k] < n {
      assert g[k] in g;
    }
    assert g != [] ==> 0 <= g[0] < n;
  }

  lemma {:induction false} PickAround(es: seq<Entry>, a: seq<nat>, b: seq<nat>)
    requires es != [] && InRange(a, |es| - 1) && InRange(b, |es| - 1)
    ensures InRange(a + b, |es| - 1) && InRange(a + [|es| - 1] + b, |es|)
    ensures multiset(Pick(es, a + [|es| - 1] + b)) == multiset(Pick(es[..|es| - 1], a + b)) + multiset{es[|es| - 1]}
    ensures multiset(es) == multiset(es[..|es| - 1]) + multiset{es[|es| - 1]}
  {
    var n := |es| - 1;
    assert es == es[..n] + [es[n]];
    PickPart(es, a);
    PickPart(es, b);
    PickAppend(es[..n], a, b);
    PickAppend(es, a, [n]);
    PickAppend(es, a + [n], b);
    assert Pick(es, [n]) == [es[n]];
    MultisetAround(Pick(es[..n], a), es[n], Pick(es[..n], b));
  }

  lemma {:induction false} MultisetAround(a: seq<Entry>, e: Entry, b: seq<Entry>)
    ensures multiset(a + [e] + b) == multiset(a + b) + multiset{e}
  {
  }

  lemma {:induction false} ListsRest(a: seq<nat>, b: seq<nat>, n: nat)
    requires Lists(a + [n] + b, n + 1)
    ensures Lists(a + b, n) && InRange(a, n) && InRange(b, n)
  {
    var g, h := a + [n] + b, a + b;
    assert g[|a|] == n;
    forall j | 0 <= j < |h| ensures h[j] < n && h[j] == g[if j < |a| then j else j + 1] {
      assert g[if j < |a| then j else j + 1] in g;
    }
    forall i: nat | i < n ensures i in h {
      assert i in g;
    }
    assert forall j :: 0 <= j < |a| ==> a[j] == h[j];
    assert forall j :: 0 <= j < |b| ==> b[j] == h[|a| + j];
  }

  // ---------- dividing a full node ----------

  /** The order in which the entries are looked at: by degree, then by position. */
  predicate Earlier(degs: seq<int>, x: nat, y: nat)
    requires x < |degs| && y < |degs|
  {
    degs[x] < degs[y] || (degs[x] == degs[y] && x < y)
  }

  /** The degrees of the entries. */
  ghost predicate Degrees(es: seq<Entry>, degs: seq<int>) {
    |degs| == |es| && forall x :: 0 <= x < |es| ==> degs[x] == Len(Val(es[x].sig)) - 1
  }

  predicate InOrder(degs: seq<int>, order: seq<nat>) {
    InRange(order, |degs|) && forall a, b :: 0 <= a < b < |order| ==> Earlier(degs, order[a], order[b])
  }

  /** sortedSigList: the multimap from degrees to positions, in its order. */
  method SortByDegree(es: seq<Entry>) returns (order: seq<nat>, ghost degs: seq<int>)
    requires forall e :: e in es ==> IsSig(e.sig)
    ensures Lists(order, |es|) && Degrees(es, degs) && InOrder(degs, order)
  {
    var all := AllDegrees(es);
    order := [];
    for i := 0 to |es|
      invariant Lists(order, i) && InRange(order, i) && InOrder(all, order)
    {
      var k := |order|;
      while k > 0 && all[order[k - 1]] > all[i]
        invariant 0 <= k <= |order|
        invariant forall a :: k <= a < |order| ==> all[order[a]] > all[i]
      {
        k := k - 1;
      }
      InsertInOrder(all, order, k, i);
      ListsInsert(order, k, i);
      order := order[..k] + [i] + order[k..];
    }
    degs := all;
  }

  method AllDegrees(es: seq<Entry>) returns (degs: seq<int>)
    requires forall e :: e in es ==> IsSig(e.sig)
    ensures Degrees(es, degs)
  {
    degs := [];
    for i := 0 to |es|
      invariant |degs| == i && forall x :: 0 <= x < i ==> degs[x] == Len(Val(es[x].sig)) - 1
    {
      LenZero(Val(es[i].sig));
      var deg := Degree(es[i].sig);
      degs := degs + [deg];
    }
  }

  lemma {:induction false} InsertInOrder(degs: seq<int>, order: seq<nat>, k: nat, n: nat)
    requires InOrder(degs, order) && InRange(order, n) && k <= |order| && n < |degs|
    requires (forall a :: k <= a < |order| ==> degs[order[a]] > degs[n]) && (k > 0 ==> degs[order[k - 1]] <= degs[n])
    ensures InRange(order[..k] + [n] + order[k..], n + 1) && InOrder(degs, order[..k] + [n] + order[k..])
  {
    var o := order[..k] + [n] + order[k..];
    assert forall a :: 0 <= a < |o| ==> o[a] == if a < k then order[a] else if a == k then n else order[a - 1];
    forall a | 0 <= a < k ensures degs[order[a]] <= degs[n] {
      assert a < k - 1 ==> Earlier(degs, order[a], order[k - 1]);
    }
  }

  lemma {:induction false} ListsInsert(order: seq<nat>, k: nat, n: nat)
    requires Lists(order, n) && k <= |order|
    ensures Lists(order[..k] + [n] + order[k..], n + 1)
  {
    var g := order[..k] + [n] + order[k..];
    assert order == order[..k] + order[k..];
    forall i: nat ensures i in g <==> i < n + 1 {
      assert i in g <==> i in order || i == n;
    }
    assert n !in order;
    assert forall j :: 0 <= j < |g| ==> g[j] == (if j < k then order[j] else if j == k then n else order[j - 1]);
  }

  /** How alike two entries are. */
  ghost predicate Alike(es: seq<Entry>, metric: bool, x: nat, y: nat, v: int) {
    x < |es| && y < |es| && Similarity(es[x].sig, es[y].sig, metric, v)
  }

  /** The pair x, y comes before s1, s2 when all pairs are gone through in order. */
  predicate PairBefore(degs: seq<int>, x: nat, y: nat, s1: nat, s2: nat)
    requires x < |degs| && y < |degs| && s1 < |degs| && s2 < |degs|
  {
    Earlier(degs, x, s1) || (x == s1 && Earlier(degs, y, s2))
  }

  /** The first of the least alike pairs. */
  ghost predicate FirstLeast(es: seq<Entry>, degs: seq<int>, metric: bool, s1: nat, s2: nat, v: int) {
    && |degs| == |es| && Alike(es, metric, s1, s2, v) && Earlier(degs, s1, s2)
    && forall x, y, w :: Alike(es, metric, x, y, w) && Earlier(degs, x, y) ==>
                           v <= w && (PairBefore(degs, x, y, s1, s2) ==> v < w)
  }

  /** No pair of the order whose first member is a, and second below n, is less alike than v. */
  ghost predicate NoLess(es: seq<Entry>, order: seq<nat>, metric: bool, a: nat, n: nat, v: int)
    requires a < |order| && n <= |order|
  {
    forall b, w :: a < b < n && Alike(es, metric, order[a], order[b], w) ==> v <= w
  }

  ghost predicate NoPairBelow(es: seq<Entry>, order: seq<nat>, metric: bool, n: nat, v: int)
    requires n <= |order|
  {
    forall a :: 0 <= a < n ==> NoLess(es, order, metric, a, |order|, v)
  }

  /** All pairs before positions i, j are more alike than v. */
  ghost predicate MoreBefore(es: seq<Entry>, order: seq<nat>, metric: bool, i: nat, j: nat, v: int)
    requires i < |order| && j <= |order|
  {
    forall a, b, w :: 0 <= a < b < |order| && (a < i || (a == i && b < j)) && Alike(es, metric, order[a], order[b], w)
                      ==> v < w
  }

  /** The pair at positions a, b of the order, as found so far. */
  ghost predicate Least(es: seq<Entry>, order: seq<nat>, metric: bool, a: nat, b: nat, v: int) {
    && a < b < |order| && Alike(es, metric, order[a], order[b], v)
    && MoreBefore(es, order, metric, a, b, v)
  }

  lemma {:induction false} NoLessNext(es: seq<Entry>, order: seq<nat>, metric: bool, a: nat, b: nat, v: int, w: int)
    requires a < b < |order| && NoLess(es, order, metric, a, b, v) && Alike(es, metric, order[a], order[b], w)
    ensures NoLess(es, order, metric, a, b + 1, if w < v then w else v)
  {
    var v' := if w < v then w else v;
    forall c, w' | a < c < b + 1 && Alike(es, metric, order[a], order[c], w') ensures v' <= w' {
      if c == b {
        SimilarityIsUnique(es[order[a]].sig, es[order[b]].sig, metric, w, w');
      }
    }
  }

  lemma {:induction false} NoPairNext(es: seq<Entry>, order: seq<nat>, metric: bool, n: nat, v: int, v': int)
    requires n < |order| && v' <= v
    requires NoPairBelow(es, order, metric, n, v) && NoLess(es, order, metric, n, |order|, v')
    ensures NoPairBelow(es, order, metric, n + 1, v')
  {
    forall a | 0 <= a < n ensures NoLess(es, order, metric, a, |order|, v') {
      assert NoLess(es, order, metric, a, |order|, v);
    }
  }

  /** A pair less alike than all before it. */
  lemma {:induction false} NewLeast(es: seq<Entry>, order: seq<nat>, metric: bool, i: nat, j: nat, v: int, w: int)
    requires i < j < |order| && NoPairBelow(es, order, metric, i, v) && NoLess(es, order, metric, i, j, v)
    requires Alike(es, metric, order[i], order[j], w) && w < v
    ensures Least(es, order, metric, i, j, w)
  {
    forall a, b, u | 0 <= a < b < |order| && (a < i || (a == i && b < j)) && Alike(es, metric, order[a], order[b], u)
      ensures w < u
    {
      assert a < i ==> NoLess(es, order, metric, a, |order|, v);
    }
  }

  lemma {:induction false} LeastIsFirst(es: seq<Entry>, degs: seq<int>, order: seq<nat>, metric: bool, a: nat, b: nat,
                                        v: int)
    requires |degs| == |es| && Lists(order, |es|) && InOrder(degs, order) && Least(es, order, metric, a, b, v)
    requires NoPairBelow(es, order, metric, |order|, v)
    ensures FirstLeast(es, degs, metric, order[a], order[b], v)
  {
    forall x, y, w | Alike(es, metric, x, y, w) && Earlier(degs, x, y)
      ensures v <= w && (PairBefore(degs, x, y, order[a], order[b]) ==> v < w)
    {
      assert x in order && y in order;
      var c :| 0 <= c < |order| && order[c] == x;
      var d :| 0 <= d < |order| && order[d] == y;
      PositionsAgree(degs, order, c, d);
      PositionsAgree(degs, order, c, a);
      PositionsAgree(degs, order, d, b);
      assert NoLess(es, order, metric, c, |order|, v);
    }
  }

  lemma {:induction false} PositionsAgree(degs: seq<int>, order: seq<nat>, c: nat, d: nat)
    requires InOrder(degs, order) && c < |order| && d < |order|
    ensures Earlier(degs, order[c], order[d]) <==> c < d
    ensures order[c] == order[d] <==> c == d
  {
    assert c < d ==> Earlier(degs, order[c], order[d]);
    assert d < c ==> Earlier(degs, order[d], order[c]);
  }

  /** The two least alike entries, the first such pair in order.  A degree is below
      INT_MAX, so the first pair is always taken. */
  method Seeds(es: seq<Entry>, order: seq<nat>, metric: bool, ghost degs: seq<int>)
    returns (seed1: nat, seed2: nat, minDeg: int)
    requires |degs| == |es| && |es| >= 2 && Lists(order, |es|) && InOrder(degs, order) && |order| == |es|
    requires forall e :: e in es ==> IsSig(e.sig)
    ensures FirstLeast(es, degs, metric, seed1, seed2, minDeg)
  {
    ghost var a: nat, b: nat := 0, 1;
    seed1, seed2 := order[0], order[1];
    minDeg := SimilarityOf(es[seed1].sig, es[seed2].sig, metric);
    for i := 0 to |order| - 1
      invariant Least(es, order, metric, a, b, minDeg) && seed1 == order[a] && seed2 == order[b]
      invariant NoPairBelow(es, order, metric, i, minDeg)
    {
      ghost var least := minDeg;
      seed1, seed2, minDeg, a, b := SeedsFrom(es, order, metric, i, seed1, seed2, minDeg, a, b);
      NoPairNext(es, order, metric, i, least, minDeg);
    }
    NoPairNext(es, order, metric, |order| - 1, minDeg, minDeg);
    LeastIsFirst(es, degs, order, metric, a, b, minDeg);
  }

  method SeedsFrom(es: seq<Entry>, order: seq<nat>, metric: bool, i: nat, s1: nat, s2: nat, least: int,
                   ghost a0: nat, ghost b0: nat)
    returns (seed1: nat, seed2: nat, minDeg: int, ghost a: nat, ghost b: nat)
    requires Lists(order, |es|) && InRange(order, |es|) && i < |order|
    requires forall e :: e in es ==> IsSig(e.sig)
    requires Least(es, order, metric, a0, b0, least) && s1 == order[a0] && s2 == order[b0]
    requires NoPairBelow(es, order, metric, i, least)
    ensures Least(es, order, metric, a, b, minDeg) && seed1 == order[a] && seed2 == order[b] && minDeg <= least
    ensures NoLess(es, order, metric, i, |order|, minDeg)
  {
    seed1, seed2, minDeg, a, b := s1, s2, least, a0, b0;
    for j := i + 1 to |order|
      invariant Least(es, order, metric, a, b, minDeg) && seed1 == order[a] && seed2 == order[b] && minDeg <= least
      invariant NoPairBelow(es, order, metric, i, minDeg) && NoLess(es, order, metric, i, j, minDeg)
    {
      var deg := SimilarityOf(es[order[i]].sig, es[order[j]].sig, metric);
      NoLessNext(es, order, metric, i, j, minDeg, deg);
      if deg < minDeg {
        NewLeast(es, order, metric, i, j, minDeg, deg);
        LowerStill(es, order, metric, i, minDeg, deg);
        seed1, seed2, minDeg, a, b := order[i], order[j], deg, i, j;
      }
    }
  }

  lemma {:induction false} LowerStill(es: seq<Entry>, order: seq<nat>, metric: bool, n: nat, v: int, v': int)
    requires n <= |order| && v' <= v && NoPairBelow(es, order, metric, n, v)
    ensures NoPairBelow(es, order, metric, n, v')
  {
    forall a | 0 <= a < n ensures NoLess(es, order, metric, a, |order|, v') {
      assert NoLess(es, order, metric, a, |order|, v);
    }
  }

  lemma {:induction false} LcmOfSeed(e: Entry)
    ensures IsLcmOf(Val(e.sig), [e])
  {
    DividesSelf(Val(e.sig));
    forall m | AllInto([e], m) ensures Divides(Val(e.sig), m) {
      assert e in [e] && Into(e, m);
    }
  }

  lemma {:induction false} LcmExtends(l: nat, es: seq<Entry>, e: Entry, l': nat)
    requires IsLcmOf(l, es) && IsLcm(l', l, Val(e.sig))
    ensures IsLcmOf(l', es + [e])
  {
    forall f | f in es + [e] ensures Into(f, l') {
      if f in es {
        assert Into(f, l);
        DividesTrans(Val(f.sig), l, l');
      }
    }
    forall m | AllInto(es + [e], m) ensures Divides(l', m) {
      assert forall f :: f in es ==> f in es + [e];
      assert e in es + [e];
      assert Into(e, m);
    }
  }

  /** A group of positions with the lcm of its signatures. */
  ghost predicate Group(es: seq<Entry>, g: seq<nat>, l: Vec) {
    g != [] && InRange(g, |es|) && IsSig(l) && IsLcmOf(Val(l), Pick(es, g))
  }

  method Join(es: seq<Entry>, g: seq<nat>, l: Vec, i: nat) returns (g': seq<nat>, l': Vec)
    requires Group(es, g, l) && i < |es| && IsSig(es[i].sig)
    ensures g' == g + [i] && Group(es, g', l')
  {
    l' := Lcm(l, es[i].sig);
    g' := g + [i];
    LcmExtends(Val(l), Pick(es, g), es[i], Val(l'));
    assert g'[..|g|] == g;
  }

  /** The two groups hold the seeds and the first k of the order, each once. */
  ghost predicate Grouping(order: seq<nat>, k: nat, s1: nat, s2: nat, g1: seq<nat>, g2: seq<nat>)
    requires k <= |order|
  {
    NoDup(g1 + g2) && forall i :: i in g1 + g2 <==> i == s1 || i == s2 || i in order[..k]
  }

  lemma {:induction false} NextGrouping(order: seq<nat>, k: nat, s1: nat, s2: nat, g1: seq<nat>, g2: seq<nat>)
    requires k < |order| && Grouping(order, k, s1, s2, g1, g2) && NoDup(order)
    ensures order[k] == s1 || order[k] == s2 ==> Grouping(order, k + 1, s1, s2, g1, g2)
    ensures order[k] != s1 && order[k] != s2 ==>
              Grouping(order, k + 1, s1, s2, g1 + [order[k]], g2) && Grouping(order, k + 1, s1, s2, g1, g2 + [order[k]])
  {
    var x := order[k];
    forall i ensures i in order[..k + 1] <==> i in order[..k] || i == x {
      assert order[..k + 1] == order[..k] + [x];
    }
    if x != s1 && x != s2 {
      assert x !in g1 + g2;
      InsertedOnce(g1, x, g2);
      InsertedOnce(g1 + g2, x, []);
      assert g1 + g2 + [x] + [] == g1 + (g2 + [x]);
      assert g1 + g2 + [] == g1 + g2;
      assert (g1 + [x]) + g2 == g1 + [x] + g2;
    }
  }

  lemma {:induction false} InsertedOnce(a: seq<nat>, x: nat, b: seq<nat>)
    requires NoDup(a + b) && x !in a + b
    ensures NoDup(a + [x] + b) && forall i :: i in a + [x] + b <==> i in a + b || i == x
  {
    var g, h := a + [x] + b, a + b;
    assert forall j :: 0 <= j < |g| && j != |a| ==> g[j] == h[if j < |a| then j else j - 1];
    assert g[|a|] == x;
    assert forall j :: 0 <= j < |h| ==> h[j] == g[if j < |a| then j else j + 1];
  }

  /** Entry i is more alike to the lcm of the group `own` than to that of `other`, or
      as alike and the first group has to have no more members, the second fewer. */
  ghost predicate Prefers(es: seq<Entry>, metric: bool, own: seq<nat>, other: seq<nat>, i: nat, first: bool) {
    exists l, m, v, w :: Drawn(es, metric, own, other, i, first, l, m, v, w)
  }

  ghost predicate Drawn(es: seq<Entry>, metric: bool, own: seq<nat>, other: seq<nat>, i: nat, first: bool,
                        l: Vec, m: Vec, v: int, w: int) {
    && Group(es, own, l) && Group(es, other, m) && i < |es|
    && Similarity(l, es[i].sig, metric, v) && Similarity(m, es[i].sig, metric, w)
    && (v > w || (v == w && if first then |own| <= |other| else |own| < |other|))
  }

  /** Whether an entry prefers a group to another one. */
  type Rule = (seq<nat>, seq<nat>, nat, bool) -> bool

  ghost function ByLikeness(es: seq<Entry>, metric: bool): Rule {
    (own: seq<nat>, other: seq<nat>, i: nat, first: bool) => Prefers(es, metric, own, other, i, first)
  }

  /** Member k of the group `own`, not its seed, was looked at when the other group had
      n members, and preferred its own group then. */
  ghost predicate JoinedAt(rule: Rule, degs: seq<int>, own: seq<nat>, k: nat, other: seq<nat>, n: nat, first: bool)
    requires InRange(own, |degs|) && InRange(other, |degs|) && k < |own|
  {
    && 1 <= n <= |other|
    && (forall m :: 1 <= m < n ==> Earlier(degs, other[m], own[k]))
    && (forall m :: n <= m < |other| ==> Earlier(degs, own[k], other[m]))
    && rule(own[..k], other[..n], own[k], first)
  }

  ghost predicate JoinedWell(rule: Rule, degs: seq<int>, own: seq<nat>, k: nat, other: seq<nat>, first: bool)
    requires InRange(own, |degs|) && InRange(other, |degs|) && k < |own|
  {
    exists n: nat :: JoinedAt(rule, degs, own, k, other, n, first)
  }

  /** All members but the seeds, in order, and each in the group that it preferred. */
  ghost predicate Fair(rule: Rule, degs: seq<int>, g1: seq<nat>, g2: seq<nat>) {
    && InRange(g1, |degs|) && InRange(g2, |degs|) && g1 != [] && g2 != []
    && TailInOrder(degs, g1) && TailInOrder(degs, g2)
    && (forall k :: 1 <= k < |g1| ==> JoinedWell(rule, degs, g1, k, g2, true))
    && (forall k :: 1 <= k < |g2| ==> JoinedWell(rule, degs, g2, k, g1, false))
  }

  /** The division that the code makes. */
  ghost predicate Division(es: seq<Entry>, metric: bool, g1: seq<nat>, g2: seq<nat>) {
    && Lists(g1 + g2, |es|) && g1 != [] && g2 != []
    && exists degs, v ::
         && Degrees(es, degs) && FirstLeast(es, degs, metric, g1[0], g2[0], v)
         && Fair(ByLikeness(es, metric), degs, g1, g2)
  }

  predicate TailInOrder(degs: seq<int>, g: seq<nat>)
    requires InRange(g, |degs|)
  {
    forall a, b :: 1 <= a < b < |g| ==> Earlier(degs, g[a], g[b])
  }

  /** Everything in the group but its seed comes before x. */
  predicate Before(degs: seq<int>, g: seq<nat>, x: nat)
    requires InRange(g, |degs|) && x < |degs|
  {
    forall m :: 1 <= m < |g| ==> Earlier(degs, g[m], x)
  }

  lemma {:induction false} StaysJoined(rule: Rule, degs: seq<int>, own: seq<nat>, k: nat, other: seq<nat>, x: nat,
                                       first: bool)
    requires InRange(own, |degs|) && InRange(other, |degs|) && x < |degs| && 1 <= k < |own|
    requires JoinedWell(rule, degs, own, k, other, first) && Before(degs, own, x)
    ensures InRange(other + [x], |degs|) && JoinedWell(rule, degs, own, k, other + [x], first)
  {
    var n: nat :| JoinedAt(rule, degs, own, k, other, n, first);
    assert (other + [x])[..n] == other[..n];
    assert JoinedAt(rule, degs, own, k, other + [x], n, first);
  }

  lemma {:induction false} GoesOnJoined(rule: Rule, degs: seq<int>, own: seq<nat>, k: nat, other: seq<nat>, x: nat,
                                        first: bool)
    requires InRange(own, |degs|) && InRange(other, |degs|) && x < |degs| && 1 <= k < |own|
    requires JoinedWell(rule, degs, own, k, other, first)
    ensures InRange(own + [x], |degs|) && JoinedWell(rule, degs, own + [x], k, other, first)
  {
    var n: nat :| JoinedAt(rule, degs, own, k, other, n, first);
    assert (own + [x])[..k] == own[..k];
    assert JoinedAt(rule, degs, own + [x], k, other, n, first);
  }

  lemma {:induction false} NowJoined(rule: Rule, degs: seq<int>, own: seq<nat>, other: seq<nat>, x: nat, first: bool)
    requires InRange(own, |degs|) && InRange(other, |degs|) && x < |degs| && other != []
    requires Before(degs, other, x) && rule(own, other, x, first)
    ensures InRange(own + [x], |degs|) && JoinedWell(rule, degs, own + [x], |own|, other, first)
  {
    assert (own + [x])[..|own|] == own && other[..|other|] == other;
    var n := |other|;
    assert JoinedAt(rule, degs, own + [x], |own|, other, n, first);
  }

  lemma {:induction false} OrderGoesOn(degs: seq<int>, g: seq<nat>, x: nat)
    requires InRange(g, |degs|) && x < |degs| && TailInOrder(degs, g) && Before(degs, g, x)
    ensures InRange(g + [x], |degs|) && TailInOrder(degs, g + [x])
  {
  }

  /** x joins the group that it prefers. */
  lemma {:induction false} FairNext(rule: Rule, degs: seq<int>, own: seq<nat>, other: seq<nat>, x: nat, first: bool)
    requires if first then Fair(rule, degs, own, other) else Fair(rule, degs, other, own)
    requires x < |degs| && Before(degs, own, x) && Before(degs, other, x) && rule(own, other, x, first)
    ensures if first then Fair(rule, degs, own + [x], other) else Fair(rule, degs, other, own + [x])
  {
    OrderGoesOn(degs, own, x);
    NowJoined(rule, degs, own, other, x, first);
    forall k | 1 <= k < |own| ensures JoinedWell(rule, degs, own + [x], k, other, first) {
      GoesOnJoined(rule, degs, own, k, other, x, first);
    }
    var turned := !first;
    forall k | 1 <= k < |other| ensures JoinedWell(rule, degs, other, k, own + [x], turned) {
      StaysJoined(rule, degs, other, k, own, x, turned);
    }
  }

  /** What has been placed comes before what is still to be placed. */
  lemma {:induction false} PlacedBefore(degs: seq<int>, order: seq<nat>, k: nat, s1: nat, s2: nat, g1: seq<nat>,
                                        g2: seq<nat>)
    requires InOrder(degs, order) && k < |order| && Grouping(order, k, s1, s2, g1, g2)
    requires InRange(g1, |degs|) && InRange(g2, |degs|) && g1 != [] && g2 != [] && g1[0] == s1 && g2[0] == s2
    ensures Before(degs, g1, order[k]) && Before(degs, g2, order[k])
  {
    var g := g1 + g2;
    assert g[0] == s1 && g[|g1|] == s2;
    forall m | 0 < m < |g| && m != |g1| ensures g[m] < |degs| && Earlier(degs, g[m], order[k]) {
      assert g[m] in g && g[m] != s1 && g[m] != s2;
      var a :| 0 <= a < k && order[..k][a] == g[m];
      assert order[a] == g[m];
    }
    forall m | 1 <= m < |g1| ensures Earlier(degs, g1[m], order[k]) {
      assert g1[m] == g[m];
    }
    forall m | 1 <= m < |g2| ensures Earlier(degs, g2[m], order[k]) {
      assert g2[m] == g[|g1| + m];
    }
  }

  /** splitNode: the first least alike pair of entries are the seeds of two groups, every
      other entry joins the group it prefers, and each group has its lcm. */
  method SplitNode(es: seq<Entry>, metric: bool) returns (group1: seq<nat>, group2: seq<nat>, lcm1: Vec, lcm2: Vec)
    requires |es| >= 2 && forall e :: e in es ==> IsSig(e.sig)
    ensures Division(es, metric, group1, group2)
    ensures Group(es, group1, lcm1) && Group(es, group2, lcm2)
  {
    var order, degs := SortByDegree(es);
    ListsLength(order, |es|);
    var seed1, seed2, minDeg := Seeds(es, order, metric, degs);
    group1, group2, lcm1, lcm2 := [seed1], [seed2], es[seed1].sig, es[seed2].sig;
    LcmOfSeed(es[seed1]);
    LcmOfSeed(es[seed2]);
    SeedsPlaced(ByLikeness(es, metric), degs, order, seed1, seed2);
    for k := 0 to |order|
      invariant Grouping(order, k, seed1, seed2, group1, group2)
      invariant Group(es, group1, lcm1) && Group(es, group2, lcm2) && Fair(ByLikeness(es, metric), degs, group1, group2)
      invariant group1[0] == seed1 && group2[0] == seed2
    {
      NextGrouping(order, k, seed1, seed2, group1, group2);
      PlacedBefore(degs, order, k, seed1, seed2, group1, group2);
      if order[k] != seed1 && order[k] != seed2 {
        group1, group2, lcm1, lcm2 := Place(es, metric, group1, group2, lcm1, lcm2, order[k], degs);
      }
    }
    AllPlaced(order, |es|, seed1, seed2, group1, group2);
  }

  lemma {:induction false} SeedsPlaced(rule: Rule, degs: seq<int>, order: seq<nat>, s1: nat, s2: nat)
    requires s1 < |degs| && s2 < |degs| && s1 != s2
    ensures Grouping(order, 0, s1, s2, [s1], [s2]) && Fair(rule, degs, [s1], [s2])
  {
  }

  lemma {:induction false} AllPlaced(order: seq<nat>, n: nat, s1: nat, s2: nat, g1: seq<nat>, g2: seq<nat>)
    requires Lists(order, n) && s1 < n && s2 < n && Grouping(order, |order|, s1, s2, g1, g2)
    ensures Lists(g1 + g2, n)
  {
    assert order[..|order|] == order;
  }

  /** One entry joins a group. */
  method Place(es: seq<Entry>, metric: bool, g1: seq<nat>, g2: seq<nat>, l1: Vec, l2: Vec, i: nat,
               ghost degs: seq<int>)
    returns (group1: seq<nat>, group2: seq<nat>, lcm1: Vec, lcm2: Vec)
    requires i < |es| == |degs| && (forall e :: e in es ==> IsSig(e.sig)) && Fair(ByLikeness(es, metric), degs, g1, g2)
    requires Group(es, g1, l1) && Group(es, g2, l2) && Before(degs, g1, i) && Before(degs, g2, i)
    ensures (group1 == g1 + [i] && group2 == g2) || (group1 == g1 && group2 == g2 + [i])
    ensures Group(es, group1, lcm1) && Group(es, group2, lcm2) && Fair(ByLikeness(es, metric), degs, group1, group2)
  {
    group1, group2, lcm1, lcm2 := g1, g2, l1, l2;
    var deg1 := SimilarityOf(lcm1, es[i].sig, metric);
    var deg2 := SimilarityOf(lcm2, es[i].sig, metric);
    if deg1 > deg2 || (deg1 == deg2 && |group1| <= |group2|) {
      assert Drawn(es, metric, g1, g2, i, true, l1, l2, deg1, deg2);
      FairNext(ByLikeness(es, metric), degs, g1, g2, i, true);
      group1, lcm1 := Join(es, group1, lcm1, i);
    } else {
      assert Drawn(es, metric, g2, g1, i, false, l2, l1, deg2, deg1);
      FairNext(ByLikeness(es, metric), degs, g2, g1, i, false);
      group2, lcm2 := Join(es, group2, lcm2, i);
    }
  }

  lemma {:induction false} ListsLength(g: seq<nat>, n: nat)
    requires Lists(g, n)
    ensures |g| == n
    decreases n
  {
    if n == 0 {
      InRangeIfListed(g, n);
    } else {
      var a, b := AroundLast(g, n - 1);
      ListsLength(a + b, n - 1);
    }
  }
}
