/** Iterative lookup (chord/finger_table.C, chord/succ_list.C, chord/fingerroute.C,
    chord/chord.C, chord/route_chord.C): which node is asked next, and where and
    how soon the search ends on an ideal ring. */
module Lookup {
  import opened Ids
  import opened Ring
  import opened Guard

  // ---------- the candidates of one node ----------

  predicate Good(v: VNode, x: Id, failed: seq<Id>, n: Id) {
    Between(v.id, x, n) && n !in failed
  }

  /** finger_table::closestpred: the longest finger that does not pass x. */
  method FingerClosestPred(v: VNode, x: Id, failed: seq<Id>) returns (n: Id, ghost at: int)
    requires v.known != {}
    ensures -1 <= at < NBIT && (at < 0 ==> n == v.id)
    ensures at >= 0 ==> n == Finger(v, at) && Good(v, x, failed, n)
    ensures forall j :: at < j < NBIT ==> !Good(v, x, failed, Finger(v, j))
  {
    for i := NBIT downto 0
      invariant forall j :: i <= j < NBIT ==> !Good(v, x, failed, Finger(v, j))
    {
      n := Finger(v, i);
      if Between(v.id, x, n) && n !in failed {
        return n, i;
      }
    }
    return v.id, -1;
  }

  /** Each node of the list is the next known node after the one before. */
  predicate Consecutive(K: set<Id>, s: seq<Id>)
    requires K != {}
  {
    forall i :: 0 <= i < |s| - 1 ==> s[i + 1] == ClosestSucc(K, IncId(s[i]))
  }

  /** num_succ: no more successors than there are other nodes. */
  function NumSucc(v: VNode): nat {
    if v.nsucc > |v.known| - 1 then (if |v.known| == 0 then 0 else |v.known| - 1) else v.nsucc
  }

  /** succs: at least one entry, even in a ring of one. */
  method Succs(v: VNode) returns (ret: seq<Id>)
    requires v.known != {}
    ensures |ret| == if NumSucc(v) > 1 then NumSucc(v) else 1
    ensures ret[0] == Succ(v) && Consecutive(v.known, ret) && forall s :: s in ret ==> s in v.known
  {
    var cur := Succ(v);
    ret := [cur];
    var i := 1;
    while i < NumSucc(v)
      invariant 1 <= i && |ret| == i && (i > 1 ==> i <= NumSucc(v))
      invariant ret[0] == Succ(v) && cur == ret[i - 1] && Consecutive(v.known, ret)
      invariant forall s :: s in ret ==> s in v.known
      decreases NumSucc(v) - i
    {
      cur := ClosestSucc(v.known, IncId(cur));
      ret := ret + [cur];
      i := i + 1;
    }
  }

  /** succ_list::closestpred: as far along the successors as they are good. */
  method SuccClosestPred(v: VNode, x: Id, failed: seq<Id>) returns (best: Id, ghost trail: seq<Id>)
    requires v.known != {}
    ensures trail != [] && trail[0] == v.id && best == trail[|trail| - 1] && |trail| - 1 <= NumSucc(v)
    ensures Consecutive(v.known, trail) && forall k :: 1 <= k < |trail| ==> Good(v, x, failed, trail[k])
    ensures |trail| - 1 < NumSucc(v) ==> !Good(v, x, failed, ClosestSucc(v.known, IncId(best)))
  {
    best, trail := v.id, [v.id];
    for i := 0 to NumSucc(v)
      invariant trail != [] && trail[0] == v.id && best == trail[|trail| - 1] && |trail| - 1 <= i
      invariant Consecutive(v.known, trail) && forall k :: 1 <= k < |trail| ==> Good(v, x, failed, trail[k])
      invariant |trail| - 1 < i ==> !Good(v, x, failed, ClosestSucc(v.known, IncId(best)))
    {
      var n := ClosestSucc(v.known, IncId(best));
      if Between(v.id, x, n) && n !in failed {
        best, trail := n, trail + [n];
      }
    }
  }

  // ---------- one hop on an ideal ring ----------

  /** From any node but the key's predecessor p, r is closer to p by more than half;
      from p itself there is nowhere to go. */
  ghost predicate Hop(N: set<Id>, x: Id, m: Id, r: Id) {
    forall p :: IsPred(N, x, p) ==>
      if m == p then r == m else r in N && Between(m, x, r) && 2 * Arc(r, p) < Arc(m, p)
  }

  /** The nodes strictly between m and the key are those up to the predecessor. */
  lemma {:induction false} BetweenIsUpTo(N: set<Id>, x: Id, p: Id, m: Id, n: Id)
    requires IsPred(N, x, p) && m in N && n in N
    ensures Between(m, x, n) <==> 0 < Arc(m, n) <= Arc(m, p)
    ensures Arc(m, n) <= Arc(m, p) ==> Arc(n, p) == Arc(m, p) - Arc(m, n)
  {
    IntervalsAreArcs(m, x, n);
    assert Distance(p, x) <= Distance(m, x) && Distance(p, x) <= Distance(n, x);
  }

  lemma {:induction false} TopPower(d: nat) returns (i: nat)
    requires 0 < d < RING
    ensures i < NBIT && Pow2(i) <= d < 2 * Pow2(i)
  {
    var n := NBIT;
    RingIsPow2(n);
    i := n - 1;
    while Pow2(i) > d
      invariant 0 <= i < NBIT && d < 2 * Pow2(i)
    {
      i := i - 1;
    }
  }

  /** The finger found covers more than half of the way to the predecessor. */
  lemma {:induction false} FingerHalves(N: set<Id>, v: VNode, x: Id, p: Id, n: Id, at: int)
    requires Ideal(N, v) && IsPred(N, x, p) && v.id != p
    requires -1 <= at < NBIT && (at < 0 ==> n == v.id) && (at >= 0 ==> n == Finger(v, at) && Good(v, x, [], n))
    requires forall j :: at < j < NBIT ==> !Good(v, x, [], Finger(v, j))
    ensures at >= 0 && n in N && 0 < Arc(v.id, n) <= Arc(v.id, p) && 2 * Arc(n, p) < Arc(v.id, p)
  {
    var d := Arc(v.id, p);
    var i := TopPower(d);
    FingerReach(N, v.id, i, p);
    FingersAreTrue(N, v, i);
    BetweenIsUpTo(N, x, p, v.id, Finger(v, i));
    Pow2Positive(i);
    assert at >= i;
    BetweenIsUpTo(N, x, p, v.id, n);
    FingersAreTrue(N, v, at);
    if at > i {
      FingerTooFar(N, v, p, i, at);
    }
  }

  lemma {:induction false} FingerTooFar(N: set<Id>, v: VNode, p: Id, i: nat, at: nat)
    requires Ideal(N, v) && i < at < NBIT && p in N && Arc(v.id, p) < 2 * Pow2(i)
    ensures Arc(v.id, Finger(v, at)) == 0 || Arc(v.id, Finger(v, at)) > Arc(v.id, p)
  {
    var f := Finger(v, at);
    FingersAreTrue(N, v, at);
    Pow2Grows(i, at);
    Pow2Below(at);
    StartArc(v.id, Pow2(at), f);
    StartArc(v.id, Pow2(at), v.id);
  }

  /** Where the successor list leads: to p and no further, and off the node. */
  lemma {:induction false} SuccAdvances(N: set<Id>, v: VNode, x: Id, p: Id, best: Id, trail: seq<Id>)
    requires Ideal(N, v) && IsPred(N, x, p) && v.id != p
    requires trail != [] && trail[0] == v.id && best == trail[|trail| - 1] && |trail| - 1 <= NumSucc(v)
    requires forall k :: 1 <= k < |trail| ==> Good(v, x, [], trail[k])
    requires Consecutive(v.known, trail)
    requires |trail| - 1 < NumSucc(v) ==> !Good(v, x, [], ClosestSucc(v.known, IncId(best)))
    ensures best in N && 0 < Arc(v.id, best) <= Arc(v.id, p)
  {
    SuccIsTrue(N, v);
    NextNode(N, v.id);
    BetweenIsUpTo(N, x, p, v.id, Succ(v));
    OthersKnown(N, v, p);
    assert Good(v, x, [], Succ(v));
    if |trail| > 1 {
      assert best == ClosestSucc(v.known, IncId(trail[|trail| - 2]));
      BetweenIsUpTo(N, x, p, v.id, best);
    }
  }

  lemma {:induction false} OthersKnown(N: set<Id>, v: VNode, p: Id)
    requires Ideal(N, v) && p in N && p != v.id
    ensures NumSucc(v) >= 1
  {
    SuccIsTrue(N, v);
    NextNode(N, v.id);
    assert p in N && p !in {v.id};
    assert {v.id, Succ(v)} <= v.known;
    SizeOfSubset({v.id, Succ(v)}, v.known);
  }

  lemma {:induction false} SizeOfSubset(a: set<Id>, b: set<Id>)
    requires a <= b
    ensures |a| <= |b|
  {
    assert b == a + (b - a);
  }

  // ---------- the choice of any node ----------

  ghost predicate GoodFinger(v: VNode, x: Id, failed: seq<Id>, g: Id)
    requires v.known != {}
  {
    Good(v, x, failed, g) && exists j :: 0 <= j < NBIT && Finger(v, j) == g
  }

  /** The good finger that lies furthest, or the node itself if there is none. */
  ghost predicate FarFinger(v: VNode, x: Id, failed: seq<Id>, f: Id)
    requires v.known != {}
  {
    && (f == v.id || GoodFinger(v, x, failed, f))
    && forall g :: GoodFinger(v, x, failed, g) ==> 0 < Arc(v.id, g) <= Arc(v.id, f)
  }

  /** A walk along the known nodes that has gone on as long as they are good. */
  ghost predicate Run(v: VNode, x: Id, failed: seq<Id>, trail: seq<Id>, u: Id)
    requires v.known != {}
  {
    && trail != [] && trail[0] == v.id && u == trail[|trail| - 1] && |trail| - 1 <= NumSucc(v)
    && Consecutive(v.known, trail) && (forall k :: 1 <= k < |trail| ==> Good(v, x, failed, trail[k]))
    && (|trail| - 1 < NumSucc(v) ==> !Good(v, x, failed, ClosestSucc(v.known, IncId(u))))
  }

  ghost predicate RunEnd(v: VNode, x: Id, failed: seq<Id>, u: Id)
    requires v.known != {}
  {
    exists trail :: Run(v, x, failed, trail, u)
  }

  /** The further of the finger and the end of the walk; but if the walk has not left
      the node, the node itself, whatever the finger. */
  function Further(m: Id, f: Id, u: Id): Id {
    if u == m then m else if Arc(m, f) > Arc(m, u) then f else u
  }

  ghost predicate FurtherOfBoth(v: VNode, x: Id, failed: seq<Id>, s: Id)
    requires v.known != {}
  {
    exists f, u :: FarFinger(v, x, failed, f) && RunEnd(v, x, failed, u) && s == Further(v.id, f, u)
  }

  ghost predicate Chosen(v: VNode, x: Id, failed: seq<Id>, s: Id)
    requires v.known != {}
  {
    forall n: nat {:trigger Look(n)} :: Look(n) ==> FurtherOfBoth(v, x, failed, s)
  }

  lemma {:induction false} ChosenIs(v: VNode, x: Id, failed: seq<Id>, s: Id)
    requires v.known != {}
    ensures Chosen(v, x, failed, s) <==> FurtherOfBoth(v, x, failed, s)
  {
    assert Look(0);
  }

  /** The walk leaves the node. */
  predicate GoodSucc(v: VNode, x: Id, failed: seq<Id>)
    requires v.known != {}
  {
    NumSucc(v) > 0 && Good(v, x, failed, Succ(v))
  }

  /** A finger of a node that knows itself does not go round past the node. */
  lemma {:induction false} LongerIsFurther(v: VNode, x: Id, failed: seq<Id>, j: nat, at: nat)
    requires v.id in v.known && j <= at < NBIT && Good(v, x, failed, Finger(v, at))
    ensures Arc(v.id, Finger(v, j)) <= Arc(v.id, Finger(v, at))
  {
    var f := Finger(v, at);
    Pow2Below(at);
    Pow2Below(j);
    if j < at {
      Pow2Grows(j, at);
    }
    IntervalsAreArcs(v.id, x, f);
    FingerBound(v, at);
    NearerFinger(v, j, f);
  }

  lemma {:induction false} FingerBound(v: VNode, at: nat)
    requires v.id in v.known && at < NBIT && Pow2(at) < RING && Finger(v, at) != v.id
    ensures Arc(v.id, Finger(v, at)) >= Pow2(at)
  {
    StartArc(v.id, Pow2(at), Finger(v, at));
    StartArc(v.id, Pow2(at), v.id);
  }

  lemma {:induction false} NearerFinger(v: VNode, j: nat, f: Id)
    requires v.id in v.known && f in v.known && j < NBIT && Arc(v.id, f) >= Pow2(j)
    ensures Arc(v.id, Finger(v, j)) <= Arc(v.id, f)
  {
    Pow2Below(j);
    StartArc(v.id, Pow2(j), Finger(v, j));
    StartArc(v.id, Pow2(j), f);
  }

  lemma {:induction false} LastIsFar(v: VNode, x: Id, failed: seq<Id>, f: Id, at: int)
    requires v.id in v.known && -1 <= at < NBIT && (at < 0 ==> f == v.id)
    requires at >= 0 ==> f == Finger(v, at) && Good(v, x, failed, f)
    requires forall j :: at < j < NBIT ==> !Good(v, x, failed, Finger(v, j))
    ensures FarFinger(v, x, failed, f)
  {
    forall g | GoodFinger(v, x, failed, g) ensures 0 < Arc(v.id, g) <= Arc(v.id, f) {
      IntervalsAreArcs(v.id, x, g);
      var j :| 0 <= j < NBIT && Finger(v, j) == g;
      LongerIsFurther(v, x, failed, j, at);
    }
  }

  lemma {:induction false} RunLeaves(v: VNode, x: Id, failed: seq<Id>, trail: seq<Id>, u: Id)
    requires v.known != {} && Run(v, x, failed, trail, u)
    ensures u != v.id <==> GoodSucc(v, x, failed)
    ensures u != v.id ==> Good(v, x, failed, u) && u in v.known
  {
    IntervalsAreArcs(v.id, x, v.id);
    if |trail| > 1 {
      assert trail[1] == ClosestSucc(v.known, IncId(trail[0]));
      WalkStays(v.known, trail);
    }
  }

  /** The node answers itself exactly if the walk does not leave it. */
  lemma {:induction false} SelfIff(v: VNode, x: Id, failed: seq<Id>, s: Id)
    requires v.known != {} && Chosen(v, x, failed, s)
    ensures s == v.id <==> !GoodSucc(v, x, failed)
    ensures s != v.id ==> Good(v, x, failed, s) && s in v.known
  {
    ChosenIs(v, x, failed, s);
    var f, u :| FarFinger(v, x, failed, f) && RunEnd(v, x, failed, u) && s == Further(v.id, f, u);
    var trail :| Run(v, x, failed, trail, u);
    RunLeaves(v, x, failed, trail, u);
  }

  /** No good finger lies beyond the choice if and only if the node's own successor is
      good, or there is no good finger at all. */
  lemma {:induction false} FurthestIff(v: VNode, x: Id, failed: seq<Id>, s: Id)
    requires v.known != {} && Chosen(v, x, failed, s)
    ensures (forall g :: GoodFinger(v, x, failed, g) ==> Arc(v.id, g) <= Arc(v.id, s))
            <==> GoodSucc(v, x, failed) || forall g :: !GoodFinger(v, x, failed, g)
  {
    ChosenIs(v, x, failed, s);
    var f, u :| FarFinger(v, x, failed, f) && RunEnd(v, x, failed, u) && s == Further(v.id, f, u);
    var trail :| Run(v, x, failed, trail, u);
    RunLeaves(v, x, failed, trail, u);
    if u == v.id && exists g :: GoodFinger(v, x, failed, g) {
      var g :| GoodFinger(v, x, failed, g);
      assert Arc(v.id, g) > 0 == Arc(v.id, s);
    }
  }

  /** Nodes 0 to 3 and key 3 at node 0, after its successor 1 has failed: node 2, the
      key's predecessor, is a good finger, and yet the node chooses itself. */
  lemma {:induction false} GoodFingerIgnored(v: VNode, x: Id, failed: seq<Id>, s: Id)
    requires v.id == 0 && v.known == {0, 1, 2, 3} && v.nsucc == 4 && x == 3 && failed == [1]
    requires Chosen(v, x, failed, s)
    ensures s == v.id && GoodFinger(v, x, failed, 2) && IsPred(v.known, x, 2)
  {
    assert Arc(1, 1) == 0 && Succ(v) == 1;
    SelfIff(v, x, failed, s);
    assert Pow2(1) == 2 && SuccessorId(0, 1) == 2 && Arc(2, 2) == 0;
    assert Finger(v, 1) == 2;
    IntervalsAreArcs(v.id, x, 2);
  }

  lemma {:induction false} IsChosen(v: VNode, x: Id, failed: seq<Id>, f: Id, at: int, trail: seq<Id>, u: Id, s: Id)
    requires v.id in v.known && -1 <= at < NBIT && (at < 0 ==> f == v.id)
    requires at >= 0 ==> f == Finger(v, at) && Good(v, x, failed, f)
    requires forall j :: at < j < NBIT ==> !Good(v, x, failed, Finger(v, j))
    requires Run(v, x, failed, trail, u) && s == if f != v.id && Between(v.id, f, u) then f else u
    ensures Chosen(v, x, failed, s)
  {
    LastIsFar(v, x, failed, f, at);
    IntervalsAreArcs(v.id, f, u);
    assert RunEnd(v, x, failed, u) && s == Further(v.id, f, u);
    ChosenIs(v, x, failed, s);
  }

  /** fingerroute::closestpred */
  method ClosestPred(v: VNode, x: Id, failed: seq<Id>, ghost N: set<Id>) returns (s: Id)
    requires v.known != {}
    ensures v.id in v.known ==> Chosen(v, x, failed, s)
    ensures s == v.id || (Good(v, x, failed, s) && s in v.known)
    ensures Ideal(N, v) && failed == [] ==> Hop(N, x, v.id, s)
  {
    var f, at := FingerClosestPred(v, x, failed);
    var u, trail := SuccClosestPred(v, x, failed);
    RunLeaves(v, x, failed, trail, u);
    if f == v.id {
      s := u;
    } else if Between(v.id, f, u) {
      s := f;
    } else {
      s := u;
    }
    if v.id in v.known {
      IsChosen(v, x, failed, f, at, trail, u, s);
    }
    if Ideal(N, v) && failed == [] {
      forall p | IsPred(N, x, p)
        ensures if v.id == p then s == v.id else s in N && Between(v.id, x, s) && 2 * Arc(s, p) < Arc(v.id, p)
      {
        FurtherOne(N, v, x, p, f, at, u, trail, s);
      }
    }
  }

  lemma {:induction false} FurtherOne(N: set<Id>, v: VNode, x: Id, p: Id, f: Id, at: int, u: Id, trail: seq<Id>, s: Id)
    requires Ideal(N, v) && IsPred(N, x, p) && s == (if f != v.id && Between(v.id, f, u) then f else u)
    requires -1 <= at < NBIT && (at < 0 ==> f == v.id) && (at >= 0 ==> f == Finger(v, at) && Good(v, x, [], f))
    requires forall j :: at < j < NBIT ==> !Good(v, x, [], Finger(v, j))
    requires trail != [] && trail[0] == v.id && u == trail[|trail| - 1] && |trail| - 1 <= NumSucc(v)
    requires Consecutive(v.known, trail) && forall k :: 1 <= k < |trail| ==> Good(v, x, [], trail[k])
    requires |trail| - 1 < NumSucc(v) ==> !Good(v, x, [], ClosestSucc(v.known, IncId(u)))
    ensures if v.id == p then s == v.id else s in N && Between(v.id, x, s) && 2 * Arc(s, p) < Arc(v.id, p)
  {
    if v.id == p {
      NothingBetween(N, v, x, f, at, u, trail);
    } else {
      FingerHalves(N, v, x, p, f, at);
      SuccAdvances(N, v, x, p, u, trail);
      IntervalsAreArcs(v.id, f, u);
      BetweenIsUpTo(N, x, p, v.id, u);
      BetweenIsUpTo(N, x, p, v.id, f);
    }
  }

  lemma {:induction false} NothingBetween(N: set<Id>, v: VNode, x: Id, f: Id, at: int, u: Id, trail: seq<Id>)
    requires Ideal(N, v) && IsPred(N, x, v.id)
    requires -1 <= at < NBIT && (at < 0 ==> f == v.id) && (at >= 0 ==> f == Finger(v, at) && Good(v, x, [], f))
    requires trail != [] && trail[0] == v.id && u == trail[|trail| - 1]
    requires Consecutive(v.known, trail) && forall k :: 1 <= k < |trail| ==> Good(v, x, [], trail[k])
    ensures f == v.id && u == v.id
  {
    if at >= 0 {
      BetweenIsUpTo(N, x, v.id, v.id, f);
    }
    if |trail| > 1 {
      WalkStays(v.known, trail);
      BetweenIsUpTo(N, x, v.id, v.id, u);
    }
  }

  lemma {:induction false} WalkStays(K: set<Id>, s: seq<Id>)
    requires K != {} && Consecutive(K, s) && |s| > 1
    ensures s[|s| - 1] in K
  {
    assert s[|s| - 1] == ClosestSucc(K, IncId(s[|s| - 2]));
  }

  // ---------- the query a node answers ----------

  datatype Reply = Stop | InRange(n: seq<Id>) | NotInRange(next: Id, succs: seq<Id>)

  /** Out of range: the node's successor is good unless it has failed. */
  lemma {:induction false} SuccGoodIff(v: VNode, x: Id, failed: seq<Id>)
    requires v.id in v.known && !BetweenRightIncl(v.id, Succ(v), x)
    ensures !GoodSucc(v, x, failed) <==> v.nsucc == 0 || Succ(v) in failed
  {
    var n := Succ(v);
    IntervalsAreArcs(v.id, n, x);
    IntervalsAreArcs(v.id, x, n);
    assert {v.id, n} <= v.known;
    SizeOfSubset({v.id, n}, v.known);
  }

  /** doroute; stop is what the upcall answers, if the query carries one. */
  method DoRoute(v: VNode, x: Id, failed: seq<Id>, stop: bool, ghost N: set<Id>) returns (res: Reply)
    requires v.known != {}
    ensures res.Stop? <==> stop
    ensures !stop ==> (res.InRange? <==> Succ(v) == v.id || 0 < Arc(v.id, x) <= Arc(v.id, Succ(v)))
    ensures match res {
              case Stop => true
              case InRange(n) => n != [] && n[0] == Succ(v) && Consecutive(v.known, n)
              case NotInRange(next, succs) => next == v.id || (Good(v, x, failed, next) && next in v.known)
            }
    ensures res.NotInRange? && v.id in v.known ==> Chosen(v, x, failed, res.next)
    ensures res.NotInRange? && v.id in v.known ==> (res.next == v.id <==> v.nsucc == 0 || Succ(v) in failed)
    ensures Ideal(N, v) && failed == [] ==>
              match res {
                case Stop => true
                case InRange(n) => IsPred(N, x, v.id) && n[0] == ClosestSucc(N, x)
                case NotInRange(next, succs) => !IsPred(N, x, v.id) && next != v.id && Hop(N, x, v.id, next)
              }
  {
    var succ := Succ(v);
    var succs := Succs(v);
    IntervalsAreArcs(v.id, succ, x);
    if BetweenRightIncl(v.id, succ, x) {
      res := InRange(succs);
    } else {
      var p := ClosestPred(v, x, failed, N);
      res := NotInRange(p, succs);
      if v.id in v.known {
        SelfIff(v, x, failed, p);
        SuccGoodIff(v, x, failed);
      }
    }
    if Ideal(N, v) {
      SuccIsTrue(N, v);
      InRangeIffPred(N, x, v.id);
      ghost var p := PredExists(N, x);
      PredLeadsToSucc(N, x, p);
      if p != v.id {
        IntervalsAreArcs(v.id, x, v.id);
        NotAlsoPred(N, x, p, v.id);
      } else {
        PredLeadsToSucc(N, x, v.id);
      }
    }
    if stop {
      res := Stop;
    }
  }

  lemma {:induction false} NotAlsoPred(N: set<Id>, x: Id, p: Id, m: Id)
    requires IsPred(N, x, p) && p != m
    ensures !IsPred(N, x, m)
  {
    if IsPred(N, x, m) {
      PredUnique(N, x, p, m);
    }
  }

  // ---------- the search ----------

  /** Every node knows itself. */
  ghost predicate Net(net: map<Id, VNode>) {
    forall id :: id in net ==> net[id].id == id && id in net[id].known
  }

  ghost predicate IdealNet(net: map<Id, VNode>) {
    net.Keys != {} && forall id :: id in net ==> net[id].id == id && Ideal(net.Keys, net[id])
  }

  /** After h hops the way left is below 2^160 / 2^h. */
  lemma {:induction false} Halved(h: nat, a: nat, a': nat)
    requires a * Pow2(h) < RING && 2 * a' < a
    ensures a' * Pow2(h + 1) < RING && h < NBIT
  {
    Pow2Positive(h);
    assert a' * Pow2(h + 1) == (2 * a') * Pow2(h);
    Scaled(2 * a', a, Pow2(h));
    if h >= NBIT {
      var n := NBIT;
      RingIsPow2(n);
      if h > n {
        Pow2Grows(n, h);
      }
      Scaled(1, a, Pow2(h));
    }
  }

  lemma {:induction false} Scaled(a: nat, b: nat, c: nat)
    requires a <= b
    ensures a * c <= b * c
  {
  }

  datatype LookupStatus = OK | NoEntry

  class RouteChord {
    const net: map<Id, VNode>
    const me: Id
    const x: Id
    var searchPath: seq<Id>
    var successors: seq<Id>
    var failedNodes: seq<Id>
    var r: LookupStatus

    constructor (net: map<Id, VNode>, me: Id, x: Id)
      ensures this.net == net && this.me == me && this.x == x
      ensures searchPath == [] && successors == [] && failedNodes == [] && r == OK
    {
      this.net, this.me, this.x := net, me, x;
      searchPath, successors, failedNodes, r := [], [], [], OK;
    }

    /** first_hop up to its call of next_hop: the guess if it is known, or else the
        caller's own best choice. */
    method FirstHop(guess: Id)
      requires Net(net) && me in net && searchPath == []
      modifies this`searchPath
      ensures |searchPath| == 1 && (guess in net[me].known ==> searchPath[0] == guess)
      ensures guess !in net[me].known ==> Chosen(net[me], x, [], searchPath[0])
      ensures searchPath[0] in net[me].known
    {
      var l := guess;
      if guess !in net[me].known {
        l := ClosestPred(net[me], x, [], net.Keys);
      }
      searchPath := searchPath + [l];
    }

    /** make_hop_cb; done tells whether the search is over. */
    method MakeHopCb(err: bool, res: Reply) returns (done: bool)
      requires searchPath != [] && (!err && res.InRange? ==> res.n != [])
      requires !err && res.NotInRange? && res.next != searchPath[|searchPath| - 1] ==> |searchPath| < 1000
      modifies this
      ensures err ==> !done && failedNodes == old(failedNodes) + [old(searchPath)[|old(searchPath)| - 1]] && r == old(r)
      ensures err ==> searchPath == (if |old(searchPath)| == 1 then [me] else old(searchPath)[..|old(searchPath)| - 1])
      ensures !err ==> failedNodes == old(failedNodes)
      ensures !err && res.InRange? ==>
                done && searchPath == old(searchPath) + [res.n[0]] && successors == res.n && r == old(r)
      ensures !err && res.NotInRange? && res.next == old(searchPath)[|old(searchPath)| - 1] ==>
                done && searchPath == old(searchPath) && r == NoEntry
      ensures !err && res.NotInRange? && res.next != old(searchPath)[|old(searchPath)| - 1] ==>
                !done && searchPath == old(searchPath) + [res.next] && successors == res.succs && r == old(r)
      ensures !err && res.Stop? ==> done && searchPath == old(searchPath) && successors == old(successors) && r == OK
    {
      if err {
        var last := searchPath[|searchPath| - 1];
        searchPath := searchPath[..|searchPath| - 1];
        if |searchPath| == 0 {
          searchPath := [me];
        }
        failedNodes := failedNodes + [last];
        return false;
      }
      match res
      case Stop =>
        r := OK;
        done := true;
      case InRange(n) =>
        searchPath := searchPath + [n[0]];
        successors := n;
        done := true;
      case NotInRange(next, succs) =>
        if searchPath[|searchPath| - 1] == next {
          r := NoEntry;
          done := true;
        } else {
          searchPath := searchPath + [next];
          successors := succs;
          assert |searchPath| <= 1000;
          done := false;
        }
    }

    /** A whole search without failures.  It ends at the first node whose upcall asks
        it to, or else at the successor of the key, after at most 160 forwardings. */
    method Send(guess: Id, stops: Id -> bool) returns (stopped: bool)
      requires IdealNet(net) && me in net && searchPath == [] && failedNodes == [] && r == OK
      modifies this
      ensures r == OK && failedNodes == []
      ensures stopped ==> 1 <= |searchPath| <= NBIT + 1 && Hops(net.Keys, x, searchPath)
                          && stops(searchPath[|searchPath| - 1])
      ensures !stopped ==> Arrived(net.Keys, x, searchPath, successors)
                           && Hops(net.Keys, x, searchPath[..|searchPath| - 1])
      ensures searchPath != [] && forall n :: n in searchPath[..|searchPath| - 1] ==> !stops(n)
    {
      FirstHop(guess);
      ghost var p := PredExists(net.Keys, x);
      NearingAtFirst(p, searchPath);
      var done := false;
      stopped := false;
      while !done
        invariant failedNodes == [] && r == OK && searchPath != []
        invariant stopped ==> done
        invariant !done ==> searchPath[|searchPath| - 1] in net
        invariant !done || stopped ==> Nearing(p, searchPath) && Hops(net.Keys, x, searchPath)
        invariant done && !stopped ==> Arrived(net.Keys, x, searchPath, successors)
        invariant done && !stopped ==> Hops(net.Keys, x, searchPath[..|searchPath| - 1])
        invariant stopped ==> stops(searchPath[|searchPath| - 1])
        invariant forall n :: n in searchPath[..|searchPath| - 1] ==> !stops(n)
        decreases if done then 0 else 1 + Arc(searchPath[|searchPath| - 1], p)
      {
        ghost var path := searchPath;
        done, stopped := Round(stops, p);
        assert !stopped ==> searchPath[..|searchPath| - 1] == path;
        assert path == path[..|path| - 1] + [path[|path| - 1]];
      }
    }

    /** A search in which the i-th message goes unanswered if fails(i), or if the node it
        is sent to is down, that is, not in the net; for any number of messages.  The
        nodes' tables may be incomplete and hold dead nodes.  It may also end with the
        assertion on the length of the path, and is not done then. */
    method Search(guess: Id, stops: Id -> bool, fails: nat -> bool, rounds: nat) returns (done: bool, stopped: bool)
      requires Net(net) && me in net && searchPath == [] && failedNodes == [] && r == OK
      modifies this
      ensures searchPath != []
      ensures Forwards(net, x, if done && !stopped && r == OK then searchPath[..|searchPath| - 1] else searchPath)
      ensures done && !stopped && r == OK ==> Answered(net, x, searchPath, successors)
      ensures r == NoEntry ==> done && !stopped && GivesUp(net, x, searchPath, failedNodes)
      ensures stopped ==> done && r == OK && stops(searchPath[|searchPath| - 1])
    {
      FirstHop(guess);
      done, stopped := false, false;
      var i := 0;
      while i < rounds && !done
        invariant searchPath != [] && (!done ==> r == OK) && (stopped ==> done && r == OK)
        invariant !done || stopped || r == NoEntry ==> Forwards(net, x, searchPath)
        invariant done && !stopped && r == OK ==> Forwards(net, x, searchPath[..|searchPath| - 1])
        invariant done && !stopped && r == OK ==> Answered(net, x, searchPath, successors)
        invariant r == NoEntry ==> done && !stopped && GivesUp(net, x, searchPath, failedNodes)
        invariant stopped ==> stops(searchPath[|searchPath| - 1])
      {
        var n := searchPath[|searchPath| - 1];
        if n !in net || fails(i) {
          done := MakeHopCb(true, Stop);
        } else {
          var far := false;
          done, stopped, far := Ask(n, stops);
          if far {
            return;
          }
        }
        i := i + 1;
      }
    }

    /** One query that is answered; far tells that the path has grown too long. */
    method Ask(n: Id, stops: Id -> bool) returns (done: bool, stopped: bool, far: bool)
      requires Net(net) && n in net && r == OK && searchPath != [] && n == searchPath[|searchPath| - 1]
      requires Forwards(net, x, searchPath)
      modifies this
      ensures searchPath != [] && failedNodes == old(failedNodes) && stopped == stops(n)
      ensures far ==> !done && !stopped && r == OK && searchPath == old(searchPath)
      ensures !done && !far ==> !stopped && r == OK
      ensures !done || stopped || r == NoEntry ==> Forwards(net, x, searchPath)
      ensures stopped ==> done && r == OK && searchPath == old(searchPath)
      ensures done && !stopped && r == OK ==> searchPath[..|searchPath| - 1] == old(searchPath)
      ensures done && !stopped && r == OK ==> Answered(net, x, searchPath, successors)
      ensures done && r == NoEntry ==> !stopped && GivesUp(net, x, searchPath, failedNodes)
      ensures r == NoEntry ==> done
    {
      stopped, far := stops(n), false;
      var res := DoRoute(net[n], x, failedNodes, stopped, net.Keys);
      if res.NotInRange? && res.next != n && |searchPath| >= 1000 {
        return false, stopped, true;
      }
      ghost var path := searchPath;
      done := MakeHopCb(false, res);
      if !stopped {
        if res.InRange? {
          LastButOne(path, searchPath[|searchPath| - 1]);
        } else if res.next != n {
          ForwardsOn(net, x, path, res.next);
        }
      }
    }

    /** One query and its answer. */
    method Round(stops: Id -> bool, ghost p: Id) returns (done: bool, stopped: bool)
      requires IdealNet(net) && IsPred(net.Keys, x, p) && failedNodes == [] && r == OK && searchPath != []
      requires searchPath[|searchPath| - 1] in net && Nearing(p, searchPath) && Hops(net.Keys, x, searchPath)
      modifies this
      ensures failedNodes == [] && r == OK
      ensures stopped == stops(old(searchPath)[|old(searchPath)| - 1])
      ensures stopped ==> done && searchPath == old(searchPath)
      ensures !stopped ==> searchPath != [] && searchPath == old(searchPath) + [searchPath[|searchPath| - 1]]
      ensures !done ==> searchPath[|searchPath| - 1] in net
      ensures !done ==> Nearing(p, searchPath) && Hops(net.Keys, x, searchPath)
      ensures !done ==> Arc(searchPath[|searchPath| - 1], p) < Arc(old(searchPath)[|old(searchPath)| - 1], p)
      ensures done && !stopped ==> Arrived(net.Keys, x, searchPath, successors)
    {
      var n := searchPath[|searchPath| - 1];
      stopped := stops(n);
      var res := DoRoute(net[n], x, failedNodes, stopped, net.Keys);
      ghost var path := searchPath;
      if !stopped && res.NotInRange? {
        Nearer(net.Keys, x, p, path, res.next);
      }
      done := MakeHopCb(false, res);
    }
  }

  // ---------- what a search with failures ends with ----------

  /** The key lies between the node and its successor. */
  predicate InOwnArc(v: VNode, x: Id)
    requires v.known != {}
  {
    Succ(v) == v.id || 0 < Arc(v.id, x) <= Arc(v.id, Succ(v))
  }

  /** A node on the way knows the next one, which is nearer to the key. */
  ghost predicate Forwarded(net: map<Id, VNode>, x: Id, m: Id, n: Id) {
    m in net && n in net[m].known && Between(m, x, n)
  }

  ghost predicate Forwards(net: map<Id, VNode>, x: Id, path: seq<Id>) {
    forall i :: 0 <= i < |path| - 1 ==> Forwarded(net, x, path[i], path[i + 1])
  }

  lemma {:induction false} ForwardsOn(net: map<Id, VNode>, x: Id, path: seq<Id>, n: Id)
    requires path != [] && Forwards(net, x, path) && Forwarded(net, x, path[|path| - 1], n)
    ensures Forwards(net, x, path + [n])
  {
    var on := path + [n];
    forall i | 0 <= i < |on| - 1 ensures Forwarded(net, x, on[i], on[i + 1]) {
      if i < |path| - 1 {
        assert on[i] == path[i] && on[i + 1] == path[i + 1];
      }
    }
  }

  lemma {:induction false} LastButOne(path: seq<Id>, n: Id)
    requires path != []
    ensures (path + [n])[..|path|] == path && (path + [n])[|path| - 1] == path[|path| - 1]
  {
  }

  /** The answer is the successor of the last node asked, and the key lies between. */
  ghost predicate Answered(net: map<Id, VNode>, x: Id, path: seq<Id>, successors: seq<Id>) {
    && |path| >= 2 && path[|path| - 2] in net
    && var v := net[path[|path| - 2]];
    && v.known != {} && InOwnArc(v, x) && path[|path| - 1] == Succ(v)
    && successors != [] && successors[0] == Succ(v) && Consecutive(v.known, successors)
  }

  /** The last node asked is not the key's predecessor, and its successor has failed. */
  ghost predicate GivesUp(net: map<Id, VNode>, x: Id, path: seq<Id>, failed: seq<Id>) {
    && path != [] && path[|path| - 1] in net
    && var v := net[path[|path| - 1]];
    && v.known != {} && !InOwnArc(v, x) && (v.nsucc == 0 || Succ(v) in failed)
  }

  /** Where the nodes that are up know their true successors, the answer of a search is
      the key's successor, whatever else the tables hold and whatever has failed. */
  lemma {:induction false} AnswerIsOwner(net: map<Id, VNode>, x: Id, path: seq<Id>, successors: seq<Id>)
    requires Net(net) && Answered(net, x, path, successors)
    requires forall id :: id in net ==> Succ(net[id]) == ClosestSucc(net.Keys, IncId(id))
    ensures IsPred(net.Keys, x, path[|path| - 2]) && path[|path| - 1] == ClosestSucc(net.Keys, x)
    ensures successors[0] == ClosestSucc(net.Keys, x)
  {
    OwnArcIsPred(net.Keys, net[path[|path| - 2]], x);
  }

  lemma {:induction false} OwnArcIsPred(N: set<Id>, v: VNode, x: Id)
    requires v.known != {} && v.id in N && Succ(v) == ClosestSucc(N, IncId(v.id)) && InOwnArc(v, x)
    ensures IsPred(N, x, v.id) && Succ(v) == ClosestSucc(N, x)
  {
    IntervalsAreArcs(v.id, Succ(v), x);
    InRangeIffPred(N, x, v.id);
    PredLeadsToSucc(N, x, v.id);
  }

  lemma {:induction false} NearingAtFirst(p: Id, path: seq<Id>)
    requires |path| == 1
    ensures Nearing(p, path)
  {
  }

  /** The way left is below 2^160 / 2^h after h hops. */
  ghost predicate Nearing(p: Id, path: seq<Id>) {
    path != [] && |path| <= NBIT + 1 && Arc(path[|path| - 1], p) * Pow2(|path| - 1) < RING
  }

  lemma {:induction false} Nearer(N: set<Id>, x: Id, p: Id, path: seq<Id>, next: Id)
    requires IsPred(N, x, p) && Nearing(p, path) && !IsPred(N, x, path[|path| - 1])
    requires Hop(N, x, path[|path| - 1], next)
    ensures Nearing(p, path + [next]) && Arc(next, p) < Arc(path[|path| - 1], p)
  {
    NotAtPred(N, x, p, path[|path| - 1]);
    Halved(|path| - 1, Arc(path[|path| - 1], p), Arc(next, p));
  }

  lemma {:induction false} NotAtPred(N: set<Id>, x: Id, p: Id, n: Id)
    requires IsPred(N, x, p) && !IsPred(N, x, n)
    ensures n != p
  {
  }

  ghost predicate Hops(N: set<Id>, x: Id, path: seq<Id>) {
    forall i :: 0 <= i < |path| - 1 ==> Hop(N, x, path[i], path[i + 1])
  }

  ghost predicate Arrived(N: set<Id>, x: Id, path: seq<Id>, successors: seq<Id>) {
    && N != {} && 2 <= |path| <= NBIT + 2 && path[|path| - 1] == ClosestSucc(N, x)
    && IsPred(N, x, path[|path| - 2])
    && successors != [] && successors[0] == ClosestSucc(N, x)
  }
}
