/** Recursive lookup with shaving (chord/recroute.C): a node finishes a lookup from
    its own successor list, hands it to a node whose list completes its own, or
    forwards it. */
module RecRoute {
  import opened Ids
  import opened Options
  import opened Ring
  import opened Lookup

  // ---------- walking from successor to successor ----------

  /** From z the next node as seen from id: the nearest further on, if there is one. */
  lemma {:induction false} NextArc(N: set<Id>, id: Id, z: Id, w: Id)
    requires id in N && z in N && w in N && Arc(id, w) > Arc(id, z)
    ensures Arc(id, z) < Arc(id, ClosestSucc(N, IncId(z))) <= Arc(id, w)
  {
    NextNode(N, z);
    var s := ClosestSucc(N, IncId(z));
    assert Arc(z, s) <= Arc(z, w);
    assert s != z;
  }

  /** Strictly further with every step, and passing no node by. */
  ghost predicate Winding(N: set<Id>, s: seq<Id>)
    requires s != []
  {
    && (forall i :: 0 <= i < |s| ==> s[i] in N)
    && (forall i, j :: 0 <= i < j < |s| ==> Arc(s[0], s[i]) < Arc(s[0], s[j]))
    && (forall z :: z in N && Arc(s[0], z) <= Arc(s[0], s[|s| - 1]) ==> z in s)
  }

  function Elements(s: seq<Id>): set<Id> {
    set i | 0 <= i < |s| :: s[i]
  }

  lemma {:induction false} FewElements(s: seq<Id>)
    ensures |Elements(s)| <= |s|
  {
    if s != [] {
      var n := |s| - 1;
      FewElements(s[..n]);
      assert Elements(s) == Elements(s[..n]) + {s[n]};
    }
  }

  /** As long as the walk is shorter than the ring there is a node further on. */
  lemma {:induction false} FurtherNode(N: set<Id>, s: seq<Id>) returns (w: Id)
    requires s != [] && |s| < |N| && Winding(N, s)
    ensures w in N && Arc(s[0], w) > Arc(s[0], s[|s| - 1])
  {
    FewElements(s);
    if N <= Elements(s) {
      SizeOfSubset(N, Elements(s));
    }
    w :| w in N && w !in Elements(s);
    assert w !in s;
  }

  lemma {:induction false} Front(K: set<Id>, s: seq<Id>, n: nat)
    requires K != {} && n <= |s| && Consecutive(K, s)
    ensures Consecutive(K, s[..n])
  {
    var t := s[..n];
    forall i | 0 <= i < n - 1 ensures t[i + 1] == ClosestSucc(K, IncId(t[i])) {
      assert s[i + 1] == ClosestSucc(K, IncId(s[i]));
    }
  }

  lemma {:induction false} Snoc(K: set<Id>, t: seq<Id>, y: Id)
    requires K != {} && t != [] && Consecutive(K, t) && y == ClosestSucc(K, IncId(t[|t| - 1]))
    ensures Consecutive(K, t + [y])
  {
    var u := t + [y];
    forall i | 0 <= i < |u| - 1 ensures u[i + 1] == ClosestSucc(K, IncId(u[i])) {
      if i < |t| - 1 {
        assert t[i + 1] == ClosestSucc(K, IncId(t[i]));
      }
    }
  }

  /** A walk is a shorter walk and one step. */
  lemma {:induction false} LastStep(K: set<Id>, s: seq<Id>) returns (t: seq<Id>, y: Id)
    requires K != {} && |s| > 1 && Consecutive(K, s)
    ensures |t| == |s| - 1 && t[0] == s[0] && s == t + [y] && Consecutive(K, t)
            && y == ClosestSucc(K, IncId(t[|t| - 1]))
  {
    var n := |s| - 1;
    t, y := s[..n], s[n];
    Front(K, s, n);
    var i := n - 1;
    assert s[i + 1] == ClosestSucc(K, IncId(s[i]));
  }

  lemma {:induction false} WindOn(N: set<Id>, t: seq<Id>, y: Id)
    requires t != [] && |t| < |N| && Winding(N, t) && y == ClosestSucc(N, IncId(t[|t| - 1]))
    ensures Winding(N, t + [y])
  {
    var w := FurtherNode(N, t);
    var s, last := t + [y], t[|t| - 1];
    NextArc(N, t[0], last, w);
    assert s[0] == t[0] && s[|s| - 1] == y && forall i :: 0 <= i < |t| ==> s[i] == t[i];
    forall i, j | 0 <= i < j < |s| ensures Arc(s[0], s[i]) < Arc(s[0], s[j]) {
      if j == |t| {
        assert i < |t| - 1 ==> Arc(t[0], t[i]) < Arc(t[0], last);
      }
    }
    forall z | z in N && Arc(t[0], z) <= Arc(t[0], y) ensures z in t + [y] {
      if Arc(t[0], z) > Arc(t[0], last) {
        NextArc(N, t[0], last, z);
        ArcUnique(t[0], z, y);
      }
    }
  }

  /** The first successors of a node, fewer than there are nodes, are all different. */
  lemma {:induction false} WalkWinds(N: set<Id>, s: seq<Id>)
    requires N != {} && s != [] && |s| <= |N| && s[0] in N && Consecutive(N, s)
    ensures Winding(N, s)
    decreases |s|
  {
    if |s| == 1 {
      forall z | z in N && Arc(s[0], z) <= Arc(s[0], s[0]) ensures z in s {
        assert z == s[0];
      }
    } else {
      var t, y := LastStep(N, s);
      WalkWinds(N, t);
      WindOn(N, t, y);
    }
  }

  // ---------- ideal successor lists ----------

  /** The node knows its first nsucc successors. */
  ghost predicate KnowsSuccessors(N: set<Id>, v: VNode) {
    N != {} && forall s: seq<Id> ::
      (s != [] && s[0] == v.id && |s| <= v.nsucc + 1 && Consecutive(N, s)) ==> s[|s| - 1] in v.known
  }

  /** A ring whose nodes have correct fingers and k correct successors each. */
  ghost predicate IdealRing(net: map<Id, VNode>, k: nat) {
    IdealNet(net) && forall id :: id in net ==> net[id].nsucc == k && KnowsSuccessors(net.Keys, net[id])
  }

  /** How long every successor list is. */
  function ListLength(N: set<Id>, k: nat): nat {
    var l := if k > |N| - 1 then |N| - 1 else k;
    if l > 1 then l else 1
  }

  /** What is consecutive in the table is consecutive on the ring. */
  lemma {:induction false} KnownWalk(N: set<Id>, v: VNode, s: seq<Id>)
    requires Ideal(N, v) && KnowsSuccessors(N, v)
    requires s != [] && s[0] == v.id && |s| <= v.nsucc + 1 && Consecutive(v.known, s)
    ensures Consecutive(N, s)
    decreases |s|
  {
    if |s| > 1 {
      var t, y := LastStep(v.known, s);
      KnownWalk(N, v, t);
      NextIsKnown(N, v, t);
      Narrow(v.known, N, IncId(t[|t| - 1]));
      Snoc(N, t, y);
    }
  }

  lemma {:induction false} NextIsKnown(N: set<Id>, v: VNode, t: seq<Id>)
    requires KnowsSuccessors(N, v) && t != [] && t[0] == v.id && |t| <= v.nsucc && Consecutive(N, t)
    ensures ClosestSucc(N, IncId(t[|t| - 1])) in v.known
  {
    var y := ClosestSucc(N, IncId(t[|t| - 1]));
    Snoc(N, t, y);
    assert (t + [y])[|t + [y]| - 1] in v.known;
  }

  lemma {:induction false} ManyElements(s: seq<Id>)
    requires forall i, j :: 0 <= i < j < |s| ==> s[i] != s[j]
    ensures |Elements(s)| == |s|
  {
    if s != [] {
      var n := |s| - 1;
      ManyElements(s[..n]);
      assert Elements(s) == Elements(s[..n]) + {s[n]};
    }
  }

  lemma {:induction false} ElementsSnoc(t: seq<Id>, y: Id)
    ensures Elements(t + [y]) == Elements(t) + {y}
  {
    var s := t + [y];
    assert s[|t|] == y;
    forall i | 0 <= i < |t| ensures t[i] in Elements(s) {
      assert s[i] == t[i];
    }
  }

  /** A walk the node knows all of. */
  lemma {:induction false} KnownSuccessors(N: set<Id>, v: VNode, l: nat) returns (s: seq<Id>)
    requires KnowsSuccessors(N, v) && v.id in v.known && l <= v.nsucc
    ensures |s| == l + 1 && s[0] == v.id && Consecutive(N, s) && Elements(s) <= v.known
  {
    if l == 0 {
      s := [v.id];
    } else {
      var t := KnownSuccessors(N, v, l - 1);
      var y := ClosestSucc(N, IncId(t[|t| - 1]));
      NextIsKnown(N, v, t);
      Snoc(N, t, y);
      s := t + [y];
      ElementsSnoc(t, y);
    }
  }

  /** So every list has the same length. */
  lemma {:induction false} CountKnown(N: set<Id>, v: VNode)
    requires Ideal(N, v) && KnowsSuccessors(N, v)
    ensures (if NumSucc(v) > 1 then NumSucc(v) else 1) == ListLength(N, v.nsucc)
  {
    SizeOfSubset(v.known, N);
    SizeOfSubset({v.id}, v.known);
    var l := if v.nsucc > |N| - 1 then |N| - 1 else v.nsucc;
    var s := KnownSuccessors(N, v, l);
    WalkWinds(N, s);
    ManyElements(s);
    SizeOfSubset(Elements(s), v.known);
  }

  /** The successor list of a node of an ideal ring. */
  ghost predicate TrueList(N: set<Id>, k: nat, id: Id, cs: seq<Id>) {
    && id in N && |cs| == ListLength(N, k) && Consecutive(N, [id] + cs)
    && (if |N| == 1 then cs == [id] else |cs| < |N| && Winding(N, [id] + cs))
  }

  lemma {:induction false} ListsAreTrue(N: set<Id>, v: VNode, cs: seq<Id>)
    requires Ideal(N, v) && KnowsSuccessors(N, v)
    requires |cs| == (if NumSucc(v) > 1 then NumSucc(v) else 1) && cs[0] == Succ(v) && Consecutive(v.known, cs)
    ensures TrueList(N, v.nsucc, v.id, cs)
  {
    CountKnown(N, v);
    Prepend(v.known, v.id, cs);
    KnownWalk(N, v, [v.id] + cs);
    SizeOfSubset({v.id}, N);
    if |N| == 1 {
      assert N == {v.id} by {
        SizeOfRest(N, v.id);
      }
      assert cs[0] in N;
      assert cs == [cs[0]];
    } else {
      WalkWinds(N, [v.id] + cs);
    }
  }

  lemma {:induction false} SizeOfRest(N: set<Id>, id: Id)
    requires id in N && |N| == 1
    ensures N == {id}
  {
    assert |N - {id}| == 0;
    assert N == (N - {id}) + {id};
  }

  lemma {:induction false} Prepend(K: set<Id>, id: Id, cs: seq<Id>)
    requires K != {} && cs != [] && cs[0] == ClosestSucc(K, IncId(id)) && Consecutive(K, cs)
    ensures Consecutive(K, [id] + cs)
  {
    var s := [id] + cs;
    forall i | 0 <= i < |s| - 1 ensures s[i + 1] == ClosestSucc(K, IncId(s[i])) {
      if i > 0 {
        var j := i - 1;
        assert cs[j + 1] == ClosestSucc(K, IncId(cs[j]));
      }
    }
  }

  /** m nodes in a row, from the successor of x. */
  ghost predicate SuccessorsOf(N: set<Id>, x: Id, m: nat, r: seq<Id>) {
    N != {} && |r| == m && (m > 0 ==> r[0] == ClosestSucc(N, x)) && Consecutive(N, r)
  }

  // ---------- where the key falls in a successor list ----------

  /** The first entry that reaches x is the successor of x. */
  lemma {:induction false} KeyInList(N: set<Id>, k: nat, id: Id, cs: seq<Id>, x: Id, i: nat)
    requires TrueList(N, k, id, cs) && i < |cs| && BetweenRightIncl(id, cs[i], x)
    requires i > 0 ==> !BetweenRightIncl(id, cs[i - 1], x)
    ensures cs[i] == ClosestSucc(N, x) && IsPred(N, x, ([id] + cs)[i])
  {
    var s := [id] + cs;
    assert s[i + 1] == ClosestSucc(N, IncId(s[i]));
    IntervalsAreArcs(id, cs[i], x);
    if |N| == 1 {
      assert cs[i] in N;
      SizeOfRest(N, id);
    } else {
      assert Arc(s[0], s[i]) < Arc(s[0], s[i + 1]);
      if i > 0 {
        IntervalsAreArcs(id, cs[i - 1], x);
        assert Arc(s[0], s[0]) < Arc(s[0], s[i]);
      }
      IntervalsAreArcs(s[i], s[i + 1], x);
      assert BetweenRightIncl(s[i], s[i + 1], x);
    }
    InRangeIffPred(N, x, s[i]);
    PredLeadsToSucc(N, x, s[i]);
  }

  // ---------- messages ----------

  /** The lookup of x carries how many successors are wanted and the path so far. */
  datatype RouteArg = RouteArg(x: Id, desired: nat, path: seq<Id>)

  datatype Message =
    | Route(to: Id, arg: RouteArg)
    | Penult(to: Id, arg: RouteArg, successors: seq<Id>)
    | Complete(path: seq<Id>, successors: seq<Id>)
    | Failed(path: seq<Id>)
    | Dropped

  /** dorecroute_sendcomplete: at most the wanted number of successors. */
  method SendComplete(v: VNode, ra: RouteArg, cs: seq<Id>) returns (msg: Message)
    ensures msg == Complete(ra.path + [v.id], if |cs| < ra.desired then cs else cs[..ra.desired])
  {
    var tofill := if |cs| < ra.desired then |cs| else ra.desired;
    var successors: seq<Id> := [];
    for i := 0 to tofill
      invariant successors == cs[..i]
    {
      successors := successors + [cs[i]];
    }
    assert |cs| < ra.desired ==> cs[..tofill] == cs;
    msg := Complete(ra.path + [v.id], successors);
  }

  /** dorecroute_sendroute: a message to the node itself is dropped. */
  method SendRoute(v: VNode, ra: RouteArg, p: Id) returns (msg: Message)
    ensures msg == if p == v.id then Dropped else Route(p, ra.(path := ra.path + [v.id]))
  {
    if p != v.id {
      msg := Route(p, ra.(path := ra.path + [v.id]));
    } else {
      msg := Dropped;
    }
  }

  /** The overlap of the list with what is wanted: the first entry that reaches x. */
  method FindKey(v: VNode, cs: seq<Id>, x: Id) returns (succind: nat)
    requires cs != [] && BetweenRightIncl(v.id, cs[|cs| - 1], x)
    ensures succind < |cs| && BetweenRightIncl(v.id, cs[succind], x)
    ensures forall j :: 0 <= j < succind ==> !BetweenRightIncl(v.id, cs[j], x)
  {
    for i := 0 to |cs|
      invariant forall j :: 0 <= j < i ==> !BetweenRightIncl(v.id, cs[j], x)
    {
      if BetweenRightIncl(v.id, cs[i], x) {
        return i;
      }
    }
    assert false;
  }

  /** The first of the nearest entries from start on. */
  ghost predicate FirstNearest(cs: seq<Id>, start: nat, dist: Id -> real, j: nat) {
    && start <= j < |cs|
    && (forall i :: start <= i < |cs| ==> dist(cs[j]) <= dist(cs[i]))
    && forall i :: start <= i < j ==> dist(cs[j]) < dist(cs[i])
  }

  method Nearest(cs: seq<Id>, start: nat, dist: Id -> real) returns (minind: nat)
    requires start < |cs| && forall c :: c in cs ==> dist(c) >= 0.0
    ensures FirstNearest(cs, start, dist, minind)
  {
    var mindist := -1.0;
    minind := start;
    for i := start to |cs|
      invariant start <= minind < |cs| && (i == start ==> mindist < 0.0)
      invariant i > start ==> mindist == dist(cs[minind]) && mindist >= 0.0
      invariant i > start ==> forall j :: start <= j < i ==> mindist <= dist(cs[j])
      invariant forall j :: start <= j < minind ==> mindist < dist(cs[j])
      invariant i > start ==> minind < i
    {
      if mindist < 0.0 || dist(cs[i]) < mindist {
        mindist, minind := dist(cs[i]), i;
      }
    }
  }

  // ---------- what any node sends ----------

  /** Entry i of the list is the first that reaches the key. */
  ghost predicate KeyAt(v: VNode, cs: seq<Id>, x: Id, i: nat) {
    && i < |cs| && BetweenRightIncl(v.id, cs[i], x)
    && forall j :: 0 <= j < i ==> !BetweenRightIncl(v.id, cs[j], x)
  }

  /** The lookup goes on to s, or is dropped if that is the node itself. */
  predicate OnTo(v: VNode, ra: RouteArg, s: Id, msg: Message) {
    msg == if s == v.id then Dropped else Route(s, ra.(path := ra.path + [v.id]))
  }

  ghost predicate OnToChosen(v: VNode, ra: RouteArg, msg: Message)
    requires v.known != {}
  {
    exists s :: Chosen(v, ra.x, [], s) && OnTo(v, ra, s, msg)
  }

  /** With the key's successor at entry i: the answer if the list holds enough; if two
      lists may do, the first of the nearest entries whose own list can hold the rest,
      asked to route if it lies before the key and to complete the list if behind; or
      else the best next hop. */
  ghost predicate FromEntry(v: VNode, ra: RouteArg, cs: seq<Id>, i: nat, shave: bool, dist: Id -> real, msg: Message)
    requires v.known != {} && i < |cs|
  {
    var overlap := |cs| - i;
    if overlap >= ra.desired then msg == Complete(ra.path + [v.id], cs[i..][..ra.desired])
    else if shave && ra.desired - overlap < |cs| then
      exists j: nat :: FirstNearest(cs, ra.desired - overlap, dist, j) && ByNearest(v, ra, cs, i, j, msg)
    else OnToChosen(v, ra, msg)
  }

  predicate ByNearest(v: VNode, ra: RouteArg, cs: seq<Id>, i: nat, j: nat, msg: Message)
    requires i < |cs| && j < |cs|
  {
    if j < i then OnTo(v, ra, cs[j], msg) else msg == Penult(cs[j], ra.(path := ra.path + [v.id]), cs[i..])
  }

  /** What a node with successor list cs sends. */
  ghost predicate Sends(v: VNode, ra: RouteArg, cs: seq<Id>, shave: bool, dist: Id -> real, msg: Message)
    requires v.known != {} && cs != []
  {
    if BetweenRightIncl(v.id, cs[|cs| - 1], ra.x)
    then exists i: nat :: KeyAt(v, cs, ra.x, i) && FromEntry(v, ra, cs, i, shave, dist, msg)
    else OnToChosen(v, ra, msg)
  }

  /** The node's successor list. */
  ghost predicate IsSuccList(v: VNode, cs: seq<Id>)
    requires v.known != {}
  {
    |cs| == (if NumSucc(v) > 1 then NumSucc(v) else 1) && cs[0] == Succ(v) && Consecutive(v.known, cs)
  }

  // ---------- one node's part on an ideal ring ----------

  /** to is one of the listed successors of x, and the list is shorter than wanted. */
  ghost predicate Splices(N: set<Id>, x: Id, m: nat, to: Id, list: seq<Id>) {
    && SuccessorsOf(N, x, |list|, list) && |list| < m && to in list
    && forall i, j :: 0 <= i < j < |list| ==> list[i] != list[j]
  }

  /** With a successor list of length l, the listed node can supply the rest. */
  ghost predicate Supplies(l: nat, m: nat, to: Id, list: seq<Id>) {
    forall j :: 0 <= j < |list| && list[j] == to ==> m - (j + 1) <= l
  }

  /** What a node may send on an ideal ring with lists of length l: the answer, a
      request that can be answered in one step, or one to a node closer to the key. */
  ghost predicate Progress(N: set<Id>, l: nat, id: Id, ra: RouteArg, msg: Message) {
    match msg
    case Complete(path, successors) =>
      path == ra.path + [id] && SuccessorsOf(N, ra.x, ra.desired, successors)
    case Penult(to, arg, successors) =>
      && arg == ra.(path := ra.path + [id]) && to in N
      && Splices(N, ra.x, ra.desired, to, successors) && Supplies(l, ra.desired, to, successors)
    case Route(to, arg) =>
      arg == ra.(path := ra.path + [id]) && to in N && Closer(N, ra.x, id, to)
    case Failed(path) => false
    case Dropped => false
  }

  /** The lookups that are answered: one list holds enough successors, or, when lists
      may be spliced, two do. */
  predicate Served(l: nat, m: nat, shave: bool) {
    m <= l || (shave && m < 2 * l)
  }

  /** The others go to the predecessor of the key, which has no one to send them to. */
  ghost predicate Lost(N: set<Id>, id: Id, ra: RouteArg, msg: Message) {
    if IsPred(N, ra.x, id) then msg == Dropped
    else msg.Route? && msg.arg == ra.(path := ra.path + [id]) && msg.to in N && Closer(N, ra.x, id, msg.to)
  }

  ghost predicate Outcome(N: set<Id>, l: nat, shave: bool, id: Id, ra: RouteArg, msg: Message) {
    if Served(l, ra.desired, shave) then Progress(N, l, id, ra, msg) else Lost(N, id, ra, msg)
  }

  ghost predicate Closer(N: set<Id>, x: Id, id: Id, to: Id) {
    forall p :: IsPred(N, x, p) ==> Arc(to, p) < Arc(id, p)
  }

  /** The rest of a list from the key's successor on. */
  lemma {:induction false} RestOfList(N: set<Id>, k: nat, id: Id, cs: seq<Id>, x: Id, i: nat, n: nat)
    requires TrueList(N, k, id, cs) && i < |cs| && cs[i] == ClosestSucc(N, x) && n <= |cs| - i
    ensures SuccessorsOf(N, x, n, cs[i..][..n])
  {
    var s, r := [id] + cs, cs[i..][..n];
    forall j | 0 <= j < |r| - 1 ensures r[j + 1] == ClosestSucc(N, IncId(r[j])) {
      var l := i + 1 + j;
      assert s[l + 1] == ClosestSucc(N, IncId(s[l]));
    }
  }

  /** Different entries of one list are different nodes, and none is the node itself. */
  lemma {:induction false} ListDistinct(N: set<Id>, k: nat, id: Id, cs: seq<Id>, i: nat, j: nat)
    requires TrueList(N, k, id, cs) && |N| > 1 && i < j < |cs|
    ensures cs[i] != cs[j] && cs[i] != id && cs[j] != id
  {
    var s := [id] + cs;
    assert Arc(s[0], s[0]) < Arc(s[0], s[i + 1]) < Arc(s[0], s[j + 1]);
  }

  lemma {:induction false} HopIsCloser(N: set<Id>, x: Id, id: Id, p: Id)
    requires Hop(N, x, id, p) && !IsPred(N, x, id)
    ensures N != {} ==> p in N && p != id && Closer(N, x, id, p)
  {
    if N != {} {
      var q := PredExists(N, x);
      assert Between(id, x, p);
      IntervalsAreArcs(id, x, p);
    }
  }

  /** A key beyond the list is not the node's own to answer. */
  lemma {:induction false} BeyondList(N: set<Id>, k: nat, id: Id, cs: seq<Id>, x: Id)
    requires TrueList(N, k, id, cs) && !BetweenRightIncl(id, cs[|cs| - 1], x)
    ensures !IsPred(N, x, id)
  {
    var s := [id] + cs;
    assert s[0 + 1] == ClosestSucc(N, IncId(s[0]));
    InRangeIffPred(N, x, id);
    IntervalsAreArcs(id, cs[|cs| - 1], x);
    IntervalsAreArcs(id, cs[0], x);
    if |N| > 1 {
      assert Arc(s[0], s[0]) < Arc(s[0], s[1]);
      assert |cs| > 1 ==> Arc(s[0], s[1]) < Arc(s[0], s[|cs|]);
    }
  }

  /** If the key's successor is further down the list, another node precedes it. */
  lemma {:induction false} LaterInList(N: set<Id>, k: nat, id: Id, cs: seq<Id>, x: Id, i: nat)
    requires TrueList(N, k, id, cs) && 0 < i < |cs| && IsPred(N, x, ([id] + cs)[i])
    ensures !IsPred(N, x, id)
    ensures forall j :: 0 <= j < i ==> cs[j] in N && cs[j] != id && Closer(N, x, id, cs[j])
  {
    var s := [id] + cs;
    SizeOfSubset({id}, N);
    assert |N| > 1;
    assert Arc(s[0], s[0]) < Arc(s[0], s[i]);
    NotAlsoPred(N, x, s[i], id);
    forall j | 0 <= j < i ensures cs[j] in N && cs[j] != id && Closer(N, x, id, cs[j]) {
      assert s[j + 1] in N && Arc(s[0], s[0]) < Arc(s[0], s[j + 1]) <= Arc(s[0], s[i]);
      forall p | IsPred(N, x, p) ensures Arc(cs[j], p) < Arc(id, p) {
        PredUnique(N, x, p, s[i]);
        BetweenIsUpTo(N, x, p, id, cs[j]);
      }
    }
  }

  lemma {:induction false} RestSplices(N: set<Id>, k: nat, id: Id, cs: seq<Id>, x: Id, m: nat, i: nat, minind: nat)
    requires TrueList(N, k, id, cs) && |N| > 1 && i <= minind < |cs| && cs[i] == ClosestSucc(N, x) && |cs| - i < m
    ensures Splices(N, x, m, cs[minind], cs[i..]) && cs[minind] in N
  {
    var list, s := cs[i..], [id] + cs;
    RestOfList(N, k, id, cs, x, i, |list|);
    assert cs[i..][..|list|] == list;
    assert list[minind - i] == cs[minind] && s[minind + 1] in N;
    forall a, b | 0 <= a < b < |list| ensures list[a] != list[b] {
      ListDistinct(N, k, id, cs, i + a, i + b);
    }
  }

  /** At the predecessor of the key there is nothing closer. */
  lemma {:induction false} NoHopAtPred(N: set<Id>, x: Id, id: Id, p: Id)
    requires IsPred(N, x, id) && Hop(N, x, id, p)
    ensures p == id
  {
  }

  /** dorecroute. */
  method DoRecRoute(v: VNode, ra: RouteArg, shave: bool, dist: Id -> real, ghost N: set<Id>) returns (msg: Message)
    requires v.known != {} && forall c :: c in v.known ==> dist(c) >= 0.0
    ensures v.id in v.known ==> exists cs :: IsSuccList(v, cs) && Sends(v, ra, cs, shave, dist, msg)
    ensures Ideal(N, v) && KnowsSuccessors(N, v) ==> Outcome(N, ListLength(N, v.nsucc), shave, v.id, ra, msg)
  {
    var cs := Succs(v);
    assert IsSuccList(v, cs);
    var p := ClosestPred(v, ra.x, [], N);
    ghost var ideal := Ideal(N, v) && KnowsSuccessors(N, v);
    if ideal {
      ListsAreTrue(N, v, cs);
    }
    if BetweenRightIncl(v.id, cs[|cs| - 1], ra.x) {
      msg := FromList(v, ra, cs, p, shave, dist, N, ideal);
    } else {
      msg := SendRoute(v, ra, p);
      if ideal {
        BeyondList(N, v.nsucc, v.id, cs, ra.x);
        HopIsCloser(N, ra.x, v.id, p);
      }
    }
  }

  /** The key's successor is in the node's own list. */
  method FromList(v: VNode, ra: RouteArg, cs: seq<Id>, best: Id, shave: bool, dist: Id -> real, ghost N: set<Id>,
                  ghost ideal: bool)
    returns (msg: Message)
    requires v.known != {} && forall c :: c in v.known ==> dist(c) >= 0.0
    requires cs != [] && BetweenRightIncl(v.id, cs[|cs| - 1], ra.x) && forall c :: c in cs ==> c in v.known
    requires ideal ==> TrueList(N, v.nsucc, v.id, cs) && Hop(N, ra.x, v.id, best)
    requires v.id in v.known ==> Chosen(v, ra.x, [], best)
    ensures v.id in v.known ==> Sends(v, ra, cs, shave, dist, msg)
    ensures ideal ==> Outcome(N, |cs|, shave, v.id, ra, msg)
  {
    var p, m := best, ra.desired;
    var succind := FindKey(v, cs, ra.x);
    var overlap := |cs| - succind;
    assert KeyAt(v, cs, ra.x, succind);
    if ideal {
      KeyInList(N, v.nsucc, v.id, cs, ra.x, succind);
    }
    if overlap >= m {
      if ideal {
        RestOfList(N, v.nsucc, v.id, cs, ra.x, succind, m);
      }
      msg := SendComplete(v, ra, cs[succind..]);
      return;
    }
    msg := ShortOf(v, ra, cs, succind, best, shave, dist, N, ideal);
  }

  /** The list holds too few successors of the key: shave, or forward. */
  method ShortOf(v: VNode, ra: RouteArg, cs: seq<Id>, succind: nat, best: Id, shave: bool, dist: Id -> real,
                 ghost N: set<Id>, ghost ideal: bool) returns (msg: Message)
    requires forall c :: c in cs ==> dist(c) >= 0.0
    requires succind < |cs| && |cs| - succind < ra.desired
    requires ideal ==> TrueList(N, v.nsucc, v.id, cs) && Hop(N, ra.x, v.id, best)
    requires ideal ==> cs[succind] == ClosestSucc(N, ra.x) && IsPred(N, ra.x, ([v.id] + cs)[succind])
    requires v.known != {} && (v.id in v.known ==> Chosen(v, ra.x, [], best))
    ensures v.id in v.known ==> FromEntry(v, ra, cs, succind, shave, dist, msg)
    ensures ideal ==> Outcome(N, |cs|, shave, v.id, ra, msg)
  {
    var m, overlap := ra.desired, |cs| - succind;
    if shave && m - overlap < |cs| {
      var minind := Nearest(cs, m - overlap, dist);
      msg := Shaved(v, ra, cs, succind, minind, N, ideal);
    } else {
      if ideal {
        Forwarded(N, v.nsucc, v.id, cs, ra, succind, best, shave);
      }
      msg := SendRoute(v, ra, best);
    }
  }

  /** No shaving: on to the best next hop, which the predecessor does not have. */
  lemma {:induction false} Forwarded(N: set<Id>, k: nat, id: Id, cs: seq<Id>, ra: RouteArg, succind: nat, best: Id,
                                     shave: bool)
    requires TrueList(N, k, id, cs) && Hop(N, ra.x, id, best) && succind < |cs|
    requires IsPred(N, ra.x, ([id] + cs)[succind]) && |cs| - succind < ra.desired
    requires !shave || ra.desired - (|cs| - succind) >= |cs|
    ensures best == id ==> IsPred(N, ra.x, id) && !Served(|cs|, ra.desired, shave)
    ensures best != id ==> !IsPred(N, ra.x, id) && best in N && Closer(N, ra.x, id, best)
  {
    if succind > 0 {
      LaterInList(N, k, id, cs, ra.x, succind);
      HopIsCloser(N, ra.x, id, best);
    } else {
      assert ([id] + cs)[succind] == id;
      NoHopAtPred(N, ra.x, id, best);
    }
  }

  /** The entry chosen from the list: on the way to the key, or behind it. */
  method Shaved(v: VNode, ra: RouteArg, cs: seq<Id>, succind: nat, minind: nat, ghost N: set<Id>, ghost ideal: bool)
    returns (msg: Message)
    requires succind < |cs| && ra.desired - (|cs| - succind) <= minind < |cs| && |cs| - succind < ra.desired < 2 * |cs|
    requires ideal ==> TrueList(N, v.nsucc, v.id, cs)
    requires ideal ==> cs[succind] == ClosestSucc(N, ra.x) && IsPred(N, ra.x, ([v.id] + cs)[succind])
    ensures ByNearest(v, ra, cs, succind, minind, msg)
    ensures ideal ==> Progress(N, |cs|, v.id, ra, msg)
  {
    if minind < succind {
      if ideal {
        LaterInList(N, v.nsucc, v.id, cs, ra.x, succind);
      }
      msg := SendRoute(v, ra, cs[minind]);
    } else {
      msg := Penult(cs[minind], ra.(path := ra.path + [v.id]), cs[succind..]);
      if ideal {
        ManyNodes(N, v.nsucc, v.id, cs, succind, ra.desired);
        RestSplices(N, v.nsucc, v.id, cs, ra.x, ra.desired, succind, minind);
        RestSupplies(N, v.nsucc, v.id, cs, ra.desired, succind, minind);
      }
    }
  }

  lemma {:induction false} ManyNodes(N: set<Id>, k: nat, id: Id, cs: seq<Id>, succind: nat, m: nat)
    requires TrueList(N, k, id, cs) && succind < |cs| && |cs| - succind < m < 2 * |cs|
    ensures |N| > 1
  {
    SizeOfSubset({id}, N);
  }

  lemma {:induction false} RestSupplies(N: set<Id>, k: nat, id: Id, cs: seq<Id>, m: nat, i: nat, minind: nat)
    requires TrueList(N, k, id, cs) && |N| > 1 && i <= minind < |cs| && m - (|cs| - i) <= minind
    ensures Supplies(|cs|, m, cs[minind], cs[i..])
  {
    forall j | 0 <= j < |cs[i..]| && cs[i..][j] == cs[minind] ensures m - (j + 1) <= |cs| {
      if i + j < minind {
        ListDistinct(N, k, id, cs, i + j, minind);
      }
    }
  }

  // ---------- the splice ----------

  /** The first loop of dopenult: copies the list up to this node's own entry; its
      place stays 0 when there is none. */
  method CopyUpTo(v: VNode, list: seq<Id>, blank: seq<Id>) returns (successors: seq<Id>, lastind: nat)
    requires |list| <= |blank| || v.id in list[..|blank|]
    ensures |successors| == |blank|
    ensures v.id in list ==> lastind < |list| && lastind < |blank| && list[lastind] == v.id && v.id !in list[..lastind]
    ensures v.id in list ==> successors == list[..lastind + 1] + blank[lastind + 1..]
    ensures v.id !in list ==> lastind == 0 && successors[..|list|] == list
  {
    successors, lastind := blank, 0;
    for i := 0 to |list|
      invariant i <= |blank| == |successors| && v.id !in list[..i] && lastind == 0
      invariant successors == list[..i] + blank[i..]
    {
      assert i < |blank|;
      successors := successors[i := list[i]];
      assert successors == list[..i + 1] + blank[i + 1..];
      if list[i] == v.id {
        lastind := i;
        return;
      }
    }
    assert list[..|list|] == list;
  }

  /** The second loop: this node's own successors behind it. */
  method FillIn(successors: seq<Id>, from: nat, cs: seq<Id>, tofill: nat) returns (r: seq<Id>)
    requires from + tofill <= |successors| && tofill <= |cs|
    ensures r == successors[..from] + cs[..tofill] + successors[from + tofill..]
  {
    r := successors;
    for i := 0 to tofill
      invariant r == successors[..from] + cs[..i] + successors[from + i..]
    {
      r := r[i + from := cs[i]];
      assert r == successors[..from] + cs[..i + 1] + successors[from + (i + 1)..];
    }
  }

  /** Up to this node from the list, behind it from its own: no gap, no repeat. */
  lemma {:induction false} Spliced(N: set<Id>, k: nat, id: Id, cs: seq<Id>, x: Id, m: nat, list: seq<Id>, j: nat)
    requires TrueList(N, k, id, cs) && Splices(N, x, m, id, list) && j < |list| && list[j] == id && m - (j + 1) <= |cs|
    ensures SuccessorsOf(N, x, m, list[..j + 1] + cs[..m - (j + 1)])
  {
    var s, r := [id] + cs, list[..j + 1] + cs[..m - (j + 1)];
    forall i | 0 <= i < |r| - 1 ensures r[i + 1] == ClosestSucc(N, IncId(r[i])) {
      if i < j {
        assert list[i + 1] == ClosestSucc(N, IncId(list[i]));
      } else {
        var l := i - j;
        assert s[l + 1] == ClosestSucc(N, IncId(s[l])) && r[i] == s[l] && r[i + 1] == s[l + 1];
      }
    }
  }

  /** The list up to entry j, then as many of cs as are wanted and there, then blanks. */
  function Filled(list: seq<Id>, j: nat, cs: seq<Id>, m: nat): (r: seq<Id>)
    requires j < |list| && j < m
    ensures |r| == m
  {
    var t := if m - (j + 1) > |cs| then |cs| else m - (j + 1);
    list[..j + 1] + cs[..t] + seq(m - (j + 1) - t, i => 0)
  }

  lemma {:induction false} FilledIs(list: seq<Id>, j: nat, cs: seq<Id>, m: nat, copied: seq<Id>, all: seq<Id>)
    requires j < |list| && j < m && copied == list[..j + 1] + seq(m, i => 0)[j + 1..]
    requires var t := if m - (j + 1) > |cs| then |cs| else m - (j + 1);
      all == copied[..j + 1] + cs[..t] + copied[j + 1 + t..]
    ensures all == Filled(list, j, cs, m)
  {
  }

  /** The answer of a node with successor list cs that finds itself in the list. */
  ghost predicate Completes(v: VNode, ra: RouteArg, list: seq<Id>, cs: seq<Id>, msg: Message) {
    if |list| + |cs| < ra.desired then msg == Failed(ra.path + [v.id])
    else v.id in list ==> exists j: nat :: CompletesAt(v, ra, list, cs, j, msg)
  }

  predicate CompletesAt(v: VNode, ra: RouteArg, list: seq<Id>, cs: seq<Id>, j: nat, msg: Message) {
    && j < |list| && j < ra.desired && list[j] == v.id && v.id !in list[..j]
    && msg == Complete(ra.path + [v.id], Filled(list, j, cs, ra.desired))
  }

  /** dopenult: the listed successors up to this node, then this node's own. */
  method DoPenult(v: VNode, ra: RouteArg, list: seq<Id>, ghost N: set<Id>) returns (msg: Message)
    requires v.known != {} && ra.desired > 0 && (|list| <= ra.desired || v.id in list[..ra.desired])
    ensures exists cs :: IsSuccList(v, cs) && Completes(v, ra, list, cs, msg)
    ensures (Ideal(N, v) && KnowsSuccessors(N, v) && Splices(N, ra.x, ra.desired, v.id, list)
             && Supplies(ListLength(N, v.nsucc), ra.desired, v.id, list))
            ==> msg.Complete? && SuccessorsOf(N, ra.x, ra.desired, msg.successors)
  {
    var cs := Succs(v);
    assert IsSuccList(v, cs);
    if |list| + |cs| < ra.desired {
      msg := Failed(ra.path + [v.id]);
    } else {
      msg := CompleteWith(v, ra, list, cs);
    }
    if Ideal(N, v) && KnowsSuccessors(N, v) && Splices(N, ra.x, ra.desired, v.id, list)
       && Supplies(ListLength(N, v.nsucc), ra.desired, v.id, list) {
      ListsAreTrue(N, v, cs);
      CompletesRight(N, v, ra, list, cs, msg);
    }
  }

  lemma {:induction false} CompletesRight(N: set<Id>, v: VNode, ra: RouteArg, list: seq<Id>, cs: seq<Id>, msg: Message)
    requires TrueList(N, v.nsucc, v.id, cs) && Splices(N, ra.x, ra.desired, v.id, list)
    requires Supplies(|cs|, ra.desired, v.id, list) && Completes(v, ra, list, cs, msg)
    ensures msg.Complete? && SuccessorsOf(N, ra.x, ra.desired, msg.successors)
  {
    var i :| 0 <= i < |list| && list[i] == v.id;
    var j: nat :| CompletesAt(v, ra, list, cs, j, msg);
    Spliced(N, v.nsucc, v.id, cs, ra.x, ra.desired, list, j);
    assert msg.successors == list[..j + 1] + cs[..ra.desired - (j + 1)];
  }

  method CompleteWith(v: VNode, ra: RouteArg, list: seq<Id>, cs: seq<Id>) returns (msg: Message)
    requires ra.desired > 0 && (|list| <= ra.desired || v.id in list[..ra.desired])
    requires |list| + |cs| >= ra.desired
    ensures Completes(v, ra, list, cs, msg)
  {
    var m := ra.desired;
    var successors, lastind := CopyUpTo(v, list, seq(m, i => 0));
    var tofill := m - (lastind + 1);
    if tofill > |cs| {
      tofill := |cs|;
    }
    var all := FillIn(successors, lastind + 1, cs, tofill);
    msg := Complete(ra.path + [v.id], all);
    if v.id in list {
      FilledIs(list, lastind, cs, m, successors, all);
      assert CompletesAt(v, ra, list, cs, lastind, msg);
    }
  }

  // ---------- a whole lookup ----------

  /** A recursive lookup from any node.  It is answered, and then with exactly the
      wanted successors of the key, if and only if so many can be had: as many as one
      successor list holds, or, when lists may be spliced, fewer than two hold. */
  method RecLookup(net: map<Id, VNode>, k: nat, start: Id, x: Id, m: nat, shave: bool, dist: Id -> real)
    returns (answer: Option<seq<Id>>)
    requires IdealRing(net, k) && start in net
    requires forall c :: c in net ==> dist(c) >= 0.0
    ensures answer.Some? <==> Served(ListLength(net.Keys, k), m, shave)
    ensures answer.Some? ==> SuccessorsOf(net.Keys, x, m, answer.value)
  {
    ghost var N, l := net.Keys, ListLength(net.Keys, k);
    ghost var p := PredExists(N, x);
    var at, ra := start, RouteArg(x, m, []);
    while true
      invariant at in net && ra.x == x && ra.desired == m
      decreases Arc(at, p)
    {
      var msg := DoRecRoute(net[at], ra, shave, dist, N);
      assert Outcome(N, l, shave, at, ra, msg);
      match msg
      case Complete(path, s) =>
        return Some(s);
      case Penult(to, arg, list) =>
        msg := DoPenult(net[to], arg, list, N);
        return Some(msg.successors);
      case Dropped =>
        return None;
      case Route(to, arg) =>
        at, ra := to, arg;
    }
  }
}
