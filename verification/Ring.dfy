/** A set of nodes on the identifier circle: successors, the predecessor of a key,
    and what a node of an ideal ring knows (chord/finger_table.C,
    chord/succ_list.C). */
module Ring {
  import opened Ids

  lemma {:induction false} ArcUnique(x: Id, m: Id, n: Id)
    ensures Arc(x, m) == Arc(x, n) ==> m == n
  {
  }

  lemma {:induction false} NearestExists(K: set<Id>, x: Id)
    requires K != {}
    ensures exists n :: n in K && forall k :: k in K ==> Arc(x, n) <= Arc(x, k)
  {
    var m :| m in K;
    var K' := K - {m};
    assert forall k :: k in K ==> k == m || k in K';
    if K' == {} {
      assert m in K && forall k :: k in K ==> Arc(x, m) <= Arc(x, k);
    } else {
      NearestExists(K', x);
      var n :| n in K' && forall k :: k in K' ==> Arc(x, n) <= Arc(x, k);
      var best := if Arc(x, n) <= Arc(x, m) then n else m;
      assert best in K && forall k :: k in K ==> Arc(x, best) <= Arc(x, k);
    }
  }

  /** closestsuccloc of the location table: the first known node at or after x. */
  function ClosestSucc(K: set<Id>, x: Id): (r: Id)
    requires K != {}
    ensures r in K && forall k :: k in K ==> Arc(x, r) <= Arc(x, k)
  {
    NearestExists(K, x);
    var n :| n in K && forall k :: k in K ==> Arc(x, n) <= Arc(x, k);
    n
  }

  /** A smaller table that holds the true successor finds it. */
  lemma {:induction false} Narrow(K: set<Id>, N: set<Id>, x: Id)
    requires K <= N && K != {} && ClosestSucc(N, x) in K
    ensures ClosestSucc(K, x) == ClosestSucc(N, x)
  {
    ArcUnique(x, ClosestSucc(K, x), ClosestSucc(N, x));
  }

  // ---------- the node before a key ----------

  /** p is the last node before x, going round. */
  ghost predicate IsPred(N: set<Id>, x: Id, p: Id) {
    p in N && forall n :: n in N ==> Distance(p, x) <= Distance(n, x)
  }

  lemma {:induction false} PredExists(N: set<Id>, x: Id) returns (p: Id)
    requires N != {}
    ensures IsPred(N, x, p)
  {
    var m :| m in N;
    p := m;
    var rest := N - {m};
    assert forall n :: n in N ==> n == m || n in rest;
    if rest != {} {
      var q := PredExists(rest, x);
      if Distance(q, x) < Distance(p, x) {
        p := q;
      }
    }
  }

  lemma {:induction false} PredUnique(N: set<Id>, x: Id, p: Id, q: Id)
    requires IsPred(N, x, p) && IsPred(N, x, q)
    ensures p == q
  {
  }

  /** The successor of a node is the next node round; itself if it is alone. */
  lemma {:induction false} NextNode(N: set<Id>, m: Id)
    requires m in N
    ensures var s := ClosestSucc(N, IncId(m));
            && (s == m <==> N == {m})
            && (s != m ==> forall n :: n in N && n != m ==> 0 < Arc(m, s) <= Arc(m, n))
  {
    var s := ClosestSucc(N, IncId(m));
    forall n | n in N && n != m ensures Arc(IncId(m), n) == Arc(m, n) - 1 && Arc(IncId(m), m) == RING - 1 {
    }
    if s == m {
      forall n | n in N ensures n == m {
        assert Arc(IncId(m), s) <= Arc(IncId(m), n);
      }
    }
  }

  /** The range test of a node succeeds exactly at the key's predecessor. */
  lemma {:induction false} InRangeIffPred(N: set<Id>, x: Id, m: Id)
    requires m in N
    ensures BetweenRightIncl(m, ClosestSucc(N, IncId(m)), x) <==> IsPred(N, x, m)
  {
    var s := ClosestSucc(N, IncId(m));
    NextNode(N, m);
    IntervalsAreArcs(m, s, x);
    if s != m {
      if IsPred(N, x, m) {
        assert Distance(m, x) <= Distance(s, x);
      }
      if 0 < Arc(m, x) <= Arc(m, s) {
        forall n | n in N ensures Distance(m, x) <= Distance(n, x) {
          assert n != m ==> Arc(m, s) <= Arc(m, n);
        }
      }
    }
  }

  /** There the successor of the node is the successor of the key. */
  lemma {:induction false} PredLeadsToSucc(N: set<Id>, x: Id, p: Id)
    requires IsPred(N, x, p)
    ensures ClosestSucc(N, IncId(p)) == ClosestSucc(N, x)
  {
    var s, t := ClosestSucc(N, IncId(p)), ClosestSucc(N, x);
    NextNode(N, p);
    assert Distance(p, x) <= Distance(t, x) && Arc(x, t) <= Arc(x, s) && Arc(IncId(p), s) <= Arc(IncId(p), t);
    ArcUnique(x, s, t);
  }

  // ---------- what a node of an ideal ring knows ----------

  /** A node with its location table and its configured successor count. */
  datatype VNode = VNode(id: Id, known: set<Id>, nsucc: nat)

  /** The table holds only live nodes, among them the node itself and the true
      successor of every finger start. */
  ghost predicate Ideal(N: set<Id>, v: VNode) {
    && v.id in v.known && v.known <= N && v.nsucc >= 1
    && forall i :: 0 <= i < NBIT ==> ClosestSuccOf(N, SuccessorId(v.id, i)) in v.known
  }

  function ClosestSuccOf(N: set<Id>, x: Id): Id {
    if N == {} then x else ClosestSucc(N, x)
  }

  /** finger (i) adjusts to the table. */
  function Finger(v: VNode, i: nat): Id
    requires v.known != {}
  {
    ClosestSucc(v.known, SuccessorId(v.id, i))
  }

  /** succ () of the successor list. */
  function Succ(v: VNode): Id
    requires v.known != {}
  {
    ClosestSucc(v.known, IncId(v.id))
  }

  lemma {:induction false} FingersAreTrue(N: set<Id>, v: VNode, i: nat)
    requires Ideal(N, v) && i < NBIT
    ensures Finger(v, i) == ClosestSucc(N, SuccessorId(v.id, i))
  {
    assert ClosestSuccOf(N, SuccessorId(v.id, i)) in v.known;
    Narrow(v.known, N, SuccessorId(v.id, i));
  }

  lemma {:induction false} FirstFinger(n: Id, i: nat)
    requires i == 0
    ensures SuccessorId(n, i) == IncId(n)
  {
  }

  lemma {:induction false} SuccIsTrue(N: set<Id>, v: VNode)
    requires Ideal(N, v)
    ensures Succ(v) == ClosestSucc(N, IncId(v.id))
  {
    var i := 0;
    FirstFinger(v.id, i);
    FingersAreTrue(N, v, i);
  }

  /** A finger lies at least 2^i away, and no node lies between. */
  lemma {:induction false} FingerReach(N: set<Id>, m: Id, i: nat, n: Id)
    requires m in N && n in N && i < NBIT && Arc(m, n) >= Pow2(i)
    ensures Pow2(i) <= Arc(m, ClosestSucc(N, SuccessorId(m, i))) <= Arc(m, n)
  {
    var f := ClosestSucc(N, SuccessorId(m, i));
    Pow2Below(i);
    StartArc(m, Pow2(i), f);
    StartArc(m, Pow2(i), n);
  }

  lemma {:induction false} Pow2Below(i: nat)
    requires i < NBIT
    ensures 0 < Pow2(i) < RING
  {
    var n := NBIT;
    RingIsPow2(n);
    Pow2Grows(i, n);
  }

  /** Arcs measured from a start that is w further on. */
  lemma {:induction false} StartArc(m: Id, w: nat, n: Id)
    requires 0 < w < RING
    ensures Arc((m + w) % RING, n) == if Arc(m, n) >= w then Arc(m, n) - w else Arc(m, n) + RING - w
  {
    assert (m + w) % RING == if m + w >= RING then m + w - RING else m + w;
  }
}
