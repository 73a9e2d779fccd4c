/** A full node of the signature index can be divided in one way only
    (tools/gis_chordID.C): what SignatureChoice says of the two groups determines them. */
module SignatureDivision {
  import opened PolyDivides
  import opened PolyBits
  import opened SignatureSpec
  import opened SignatureChoice

  // ---------- the seeds ----------

  lemma {:induction false} SeedsUnique(es: seq<Entry>, degs: seq<int>, metric: bool, s1: nat, s2: nat, v: int,
                                       t1: nat, t2: nat, w: int)
    requires FirstLeast(es, degs, metric, s1, s2, v) && FirstLeast(es, degs, metric, t1, t2, w)
    ensures s1 == t1 && s2 == t2
  {
    assert Alike(es, metric, s1, s2, v) && Alike(es, metric, t1, t2, w);
    assert PairBefore(degs, s1, s2, t1, t2) || PairBefore(degs, t1, t2, s1, s2) || (s1 == t1 && s2 == t2);
  }

  // ---------- the group an entry joins ----------

  lemma {:induction false} LcmOfUnique(l: nat, m: nat, es: seq<Entry>)
    requires IsLcmOf(l, es) && IsLcmOf(m, es)
    ensures l == m
  {
    DividesAntisymmetric(l, m);
  }

  /** Likeness does not depend on the vectors but on the polynomials. */
  lemma {:induction false} SameLikeness(l: Vec, m: Vec, s: Vec, metric: bool, v: int, w: int)
    requires Val(l) == Val(m) && Similarity(l, s, metric, v) && Similarity(m, s, metric, w)
    ensures v == w
  {
    assert Similarity(l, s, metric, w);
    SimilarityIsUnique(l, s, metric, v, w);
  }

  /** No entry prefers both groups. */
  lemma {:induction false} OneGroup(es: seq<Entry>, metric: bool, a: seq<nat>, b: seq<nat>, x: nat)
    requires Prefers(es, metric, a, b, x, true)
    ensures !Prefers(es, metric, b, a, x, false)
  {
    var l, m, v, w :| Drawn(es, metric, a, b, x, true, l, m, v, w);
    forall m', l', w', v' ensures !Drawn(es, metric, b, a, x, false, m', l', w', v') {
      NotDrawnBack(es, metric, a, b, x, l, m, v, w, m', l', w', v');
    }
  }

  lemma {:induction false} NotDrawnBack(es: seq<Entry>, metric: bool, a: seq<nat>, b: seq<nat>, x: nat, l: Vec, m: Vec,
                                        v: int, w: int, m': Vec, l': Vec, w': int, v': int)
    requires Drawn(es, metric, a, b, x, true, l, m, v, w)
    ensures !Drawn(es, metric, b, a, x, false, m', l', w', v')
  {
    if Group(es, a, l') && Group(es, b, m') && Similarity(l', es[x].sig, metric, v')
       && Similarity(m', es[x].sig, metric, w') {
      SameGroup(es, metric, a, x, l, v, l', v');
      SameGroup(es, metric, b, x, m, w, m', w');
    }
  }

  lemma {:induction false} SameGroup(es: seq<Entry>, metric: bool, g: seq<nat>, x: nat, l: Vec, v: int, l': Vec,
                                     v': int)
    requires x < |es| && Group(es, g, l) && Group(es, g, l')
    requires Similarity(l, es[x].sig, metric, v) && Similarity(l', es[x].sig, metric, v')
    ensures v == v'
  {
    LcmOfUnique(Val(l), Val(l'), Pick(es, g));
    SameLikeness(l, l', es[x].sig, metric, v, v');
  }

  // ---------- the groups ----------

  /** A rule by which nothing prefers both groups. */
  ghost predicate Decisive(rule: Rule) {
    forall a, b, x :: rule(a, b, x, true) ==> !rule(b, a, x, false)
  }

  /** The first a and b members come before the others, the seeds apart. */
  predicate CutAt(degs: seq<int>, g1: seq<nat>, g2: seq<nat>, a: nat, b: nat)
    requires InRange(g1, |degs|) && InRange(g2, |degs|)
  {
    && 1 <= a <= |g1| && 1 <= b <= |g2|
    && (forall i, j :: 1 <= i < a && b <= j < |g2| ==> Earlier(degs, g1[i], g2[j]))
    && (forall i, j :: a <= i < |g1| && 1 <= j < b ==> Earlier(degs, g2[j], g1[i]))
  }

  /** The next member of the first group comes before everything left of the second. */
  predicate FirstNext(degs: seq<int>, g1: seq<nat>, g2: seq<nat>, a: nat, b: nat)
    requires InRange(g1, |degs|) && InRange(g2, |degs|)
  {
    a < |g1| && forall j :: b <= j < |g2| ==> Earlier(degs, g1[a], g2[j])
  }

  lemma {:induction false} NextIsPreferred(rule: Rule, degs: seq<int>, own: seq<nat>, other: seq<nat>, a: nat, b: nat,
                                           first: bool)
    requires InRange(own, |degs|) && InRange(other, |degs|) && 1 <= a < |own| && 1 <= b <= |other|
    requires JoinedWell(rule, degs, own, a, other, first) && FirstNext(degs, own, other, a, b)
    requires forall j :: 1 <= j < b ==> Earlier(degs, other[j], own[a])
    ensures rule(own[..a], other[..b], own[a], first)
  {
    var n: nat :| JoinedAt(rule, degs, own, a, other, n, first);
    SamePlace(degs, other, own[a], n, b, if n < |other| then other[n] else 0, if b < |other| then other[b] else 0);
  }

  /** What comes before x and what after it meet in one place; y and z are what comes
      next there. */
  lemma {:induction false} SamePlace(degs: seq<int>, g: seq<nat>, x: nat, n: nat, b: nat, y: nat, z: nat)
    requires InRange(g, |degs|) && x < |degs| && 1 <= n <= |g| && 1 <= b <= |g|
    requires forall j :: 1 <= j < n ==> Earlier(degs, g[j], x)
    requires forall j :: n <= j < |g| ==> Earlier(degs, x, g[j])
    requires forall j :: 1 <= j < b ==> Earlier(degs, g[j], x)
    requires forall j :: b <= j < |g| ==> Earlier(degs, x, g[j])
    requires (n < |g| ==> g[n] == y) && (b < |g| ==> g[b] == z)
    ensures n == b
  {
  }

  /** One of the two next members comes first. */
  lemma {:induction false} SomeNext(degs: seq<int>, g1: seq<nat>, g2: seq<nat>, a: nat, b: nat)
    requires InRange(g1, |degs|) && InRange(g2, |degs|) && TailInOrder(degs, g1) && TailInOrder(degs, g2)
    requires NoDup(g1 + g2) && 1 <= a <= |g1| && 1 <= b <= |g2| && a + b < |g1| + |g2|
    ensures FirstNext(degs, g1, g2, a, b) || FirstNext(degs, g2, g1, b, a)
  {
    if a < |g1| && b < |g2| {
      assert (g1 + g2)[a] == g1[a] && (g1 + g2)[|g1| + b] == g2[b];
      assert forall j :: b < j < |g2| ==> Earlier(degs, g2[b], g2[j]);
      assert forall j :: a < j < |g1| ==> Earlier(degs, g1[a], g1[j]);
    }
  }

  /** What is left in both divisions is the same. */
  ghost predicate SameRest(g1: seq<nat>, g2: seq<nat>, h1: seq<nat>, h2: seq<nat>, a: nat, b: nat)
    requires a <= |g1| && b <= |g2| && a <= |h1| && b <= |h2|
  {
    forall x :: x in g1[a..] || x in g2[b..] <==> x in h1[a..] || x in h2[b..]
  }

  lemma {:induction false} RestIsSame(g1: seq<nat>, g2: seq<nat>, h1: seq<nat>, h2: seq<nat>, a: nat, b: nat, n: nat)
    requires Lists(g1 + g2, n) && Lists(h1 + h2, n)
    requires a <= |g1| && b <= |g2| && a <= |h1| && b <= |h2| && g1[..a] == h1[..a] && g2[..b] == h2[..b]
    ensures SameRest(g1, g2, h1, h2, a, b)
  {
    forall x ensures x in g1[a..] || x in g2[b..] <==> x in h1[a..] || x in h2[b..] {
      RestOf(g1, g2, a, b, n, x);
      RestOf(h1, h2, a, b, n, x);
    }
  }

  lemma {:induction false} RestOf(g1: seq<nat>, g2: seq<nat>, a: nat, b: nat, n: nat, x: nat)
    requires Lists(g1 + g2, n) && a <= |g1| && b <= |g2|
    ensures x in g1[a..] || x in g2[b..] <==> x < n && x !in g1[..a] && x !in g2[..b]
  {
    Sides(g1, g2, x);
    Parts(g1, a, x);
    Parts(g2, b, x);
  }

  /** No entry is in both groups, nor twice in one. */
  lemma {:induction false} Sides(g1: seq<nat>, g2: seq<nat>, x: nat)
    requires NoDup(g1 + g2)
    ensures NoDup(g1) && NoDup(g2) && !(x in g1 && x in g2) && (x in g1 + g2 <==> x in g1 || x in g2)
  {
    var g := g1 + g2;
    forall i, j | 0 <= i < j < |g1| ensures g1[i] != g1[j] {
      assert g[i] == g1[i] && g[j] == g1[j];
    }
    forall i, j | 0 <= i < j < |g2| ensures g2[i] != g2[j] {
      var k, l := |g1| + i, |g1| + j;
      assert g[k] == g2[i] && g[l] == g2[j];
    }
    forall i, j | 0 <= i < |g1| && 0 <= j < |g2| ensures g1[i] != g2[j] {
      var l := |g1| + j;
      assert g[i] == g1[i] && g[l] == g2[j];
    }
  }

  lemma {:induction false} Parts(g: seq<nat>, a: nat, x: nat)
    requires NoDup(g) && a <= |g|
    ensures x in g <==> x in g[..a] || x in g[a..]
    ensures !(x in g[..a] && x in g[a..])
  {
    assert g == g[..a] + g[a..];
    forall i, j | 0 <= i < a && 0 <= j < |g| - a ensures g[..a][i] != g[a..][j] {
      var l := a + j;
      assert g[i] != g[l];
    }
  }

  /** The next member of one division is the next one of the other. */
  lemma {:induction false} NextAgrees(degs: seq<int>, g1: seq<nat>, g2: seq<nat>, h1: seq<nat>, h2: seq<nat>,
                                      a: nat, b: nat)
    requires InRange(g1, |degs|) && InRange(g2, |degs|) && InRange(h1, |degs|) && InRange(h2, |degs|)
    requires TailInOrder(degs, g1) && TailInOrder(degs, h1) && TailInOrder(degs, h2) && NoDup(h1 + h2)
    requires 1 <= a <= |g1| && 1 <= b <= |g2| && a <= |h1| && b <= |h2| && a + b < |h1| + |h2|
    requires SameRest(g1, g2, h1, h2, a, b) && FirstNext(degs, g1, g2, a, b)
    ensures (FirstNext(degs, h1, h2, a, b) && h1[a] == g1[a]) || (FirstNext(degs, h2, h1, b, a) && h2[b] == g1[a])
  {
    SomeNext(degs, h1, h2, a, b);
    var x := g1[a];
    assert x in g1[a..];
    assert x in h1[a..] || x in h2[b..];
    forall y | y in g1[a..] || y in g2[b..] ensures y == x || Earlier(degs, x, y) {
    }
    if FirstNext(degs, h1, h2, a, b) {
      LeastOfRest(degs, h1, h2, a, b, x);
      assert h1[a] in h1[a..];
    } else {
      LeastOfRest(degs, h2, h1, b, a, x);
      assert h2[b] in h2[b..];
    }
  }

  lemma {:induction false} LeastOfRest(degs: seq<int>, own: seq<nat>, other: seq<nat>, a: nat, b: nat, x: nat)
    requires InRange(own, |degs|) && InRange(other, |degs|) && TailInOrder(degs, own) && x < |degs|
    requires 1 <= a && FirstNext(degs, own, other, a, b) && b <= |other| && (x in own[a..] || x in other[b..])
    ensures x == own[a] || Earlier(degs, own[a], x)
  {
  }

  /** So it has joined the same group in both. */
  lemma {:induction false} SameNext(rule: Rule, degs: seq<int>, g1: seq<nat>, g2: seq<nat>, h1: seq<nat>, h2: seq<nat>,
                                    a: nat, b: nat, first: bool)
    requires Decisive(rule) && InRange(g1, |degs|) && InRange(g2, |degs|) && InRange(h1, |degs|) && InRange(h2, |degs|)
    requires TailInOrder(degs, g1) && TailInOrder(degs, h1) && TailInOrder(degs, h2) && NoDup(h1 + h2)
    requires CutAt(degs, g1, g2, a, b) && CutAt(degs, h1, h2, a, b) && a + b < |h1| + |h2|
    requires g1[..a] == h1[..a] && g2[..b] == h2[..b] && SameRest(g1, g2, h1, h2, a, b) && FirstNext(degs, g1, g2, a, b)
    requires JoinedWell(rule, degs, g1, a, g2, first)
    requires b < |h2| ==> JoinedWell(rule, degs, h2, b, h1, !first)
    ensures FirstNext(degs, h1, h2, a, b) && h1[a] == g1[a]
  {
    NextAgrees(degs, g1, g2, h1, h2, a, b);
    NextIsPreferred(rule, degs, g1, g2, a, b, first);
    if FirstNext(degs, h2, h1, b, a) && h2[b] == g1[a] {
      NextIsPreferred(rule, degs, h2, h1, b, a, !first);
      if first {
        assert false;
      } else {
        assert false;
      }
    }
  }

  lemma {:induction false} CutGrows(degs: seq<int>, g1: seq<nat>, g2: seq<nat>, a: nat, b: nat)
    requires InRange(g1, |degs|) && InRange(g2, |degs|) && CutAt(degs, g1, g2, a, b) && FirstNext(degs, g1, g2, a, b)
    ensures CutAt(degs, g1, g2, a + 1, b)
  {
  }

  lemma {:induction false} NoDupTurned(h1: seq<nat>, h2: seq<nat>)
    requires NoDup(h1 + h2)
    ensures NoDup(h2 + h1)
  {
    var g, t := h1 + h2, h2 + h1;
    assert forall i :: 0 <= i < |t| ==> t[i] == g[if i < |h2| then |h1| + i else i - |h2|];
  }

  lemma {:induction false} OneMore(g: seq<nat>, h: seq<nat>, a: nat)
    requires a < |g| && a < |h| && g[..a] == h[..a] && g[a] == h[a]
    ensures g[..a + 1] == h[..a + 1]
  {
    assert g[..a + 1] == g[..a] + [g[a]] && h[..a + 1] == h[..a] + [h[a]];
  }

  /** Two fair divisions that agree on their first members agree on all. */
  lemma {:induction false} AgreeOn(rule: Rule, degs: seq<int>, g1: seq<nat>, g2: seq<nat>, h1: seq<nat>, h2: seq<nat>,
                                   a: nat, b: nat)
    requires Decisive(rule) && Fair(rule, degs, g1, g2) && Fair(rule, degs, h1, h2)
    requires Lists(g1 + g2, |degs|) && Lists(h1 + h2, |degs|)
    requires CutAt(degs, g1, g2, a, b) && CutAt(degs, h1, h2, a, b) && g1[..a] == h1[..a] && g2[..b] == h2[..b]
    ensures g1 == h1 && g2 == h2
    decreases |g1| + |g2| - a - b
  {
    ListsLength(g1 + g2, |degs|);
    ListsLength(h1 + h2, |degs|);
    if a + b == |g1| + |g2| {
      assert g1[..a] == g1 && h1[..a] == h1 && g2[..b] == g2 && h2[..b] == h2;
    } else {
      RestIsSame(g1, g2, h1, h2, a, b, |degs|);
      SomeNext(degs, g1, g2, a, b);
      if FirstNext(degs, g1, g2, a, b) {
        SameNext(rule, degs, g1, g2, h1, h2, a, b, true);
        OneMore(g1, h1, a);
        CutGrows(degs, g1, g2, a, b);
        CutGrows(degs, h1, h2, a, b);
        AgreeOn(rule, degs, g1, g2, h1, h2, a + 1, b);
      } else {
        NoDupTurned(h1, h2);
        SameNext(rule, degs, g2, g1, h2, h1, b, a, false);
        OneMore(g2, h2, b);
        CutGrows(degs, g2, g1, b, a);
        CutGrows(degs, h2, h1, b, a);
        AgreeOn(rule, degs, g1, g2, h1, h2, a, b + 1);
      }
    }
  }

  lemma {:induction false} LikenessDecides(es: seq<Entry>, metric: bool)
    ensures Decisive(ByLikeness(es, metric))
  {
    var rule := ByLikeness(es, metric);
    forall a, b, x | rule(a, b, x, true) ensures !rule(b, a, x, false) {
      OneGroup(es, metric, a, b, x);
    }
  }

  lemma {:induction false} DegreesUnique(es: seq<Entry>, a: seq<int>, b: seq<int>)
    requires Degrees(es, a) && Degrees(es, b)
    ensures a == b
  {
  }

  /** So the entries and the metric alone decide how a full node is divided. */
  lemma {:induction false} DivisionUnique(es: seq<Entry>, metric: bool, g1: seq<nat>, g2: seq<nat>, h1: seq<nat>,
                                          h2: seq<nat>)
    requires Division(es, metric, g1, g2) && Division(es, metric, h1, h2)
    ensures g1 == h1 && g2 == h2
  {
    var rule := ByLikeness(es, metric);
    var degs, v :| Degrees(es, degs) && FirstLeast(es, degs, metric, g1[0], g2[0], v) && Fair(rule, degs, g1, g2);
    var degs', w :| Degrees(es, degs') && FirstLeast(es, degs', metric, h1[0], h2[0], w) && Fair(rule, degs', h1, h2);
    DegreesUnique(es, degs, degs');
    SeedsUnique(es, degs, metric, g1[0], g2[0], v, h1[0], h2[0], w);
    LikenessDecides(es, metric);
    AgreeFromSeeds(rule, degs, g1, g2, h1, h2);
  }

  lemma {:induction false} AgreeFromSeeds(rule: Rule, degs: seq<int>, g1: seq<nat>, g2: seq<nat>, h1: seq<nat>,
                                          h2: seq<nat>)
    requires Decisive(rule) && Fair(rule, degs, g1, g2) && Fair(rule, degs, h1, h2)
    requires Lists(g1 + g2, |degs|) && Lists(h1 + h2, |degs|) && g1[0] == h1[0] && g2[0] == h2[0]
    ensures g1 == h1 && g2 == h2
  {
    var one := 1;
    AgreeOn(rule, degs, g1, g2, h1, h2, one, one);
  }
}
