/** The congestion window and the queue of the datagram transport
    (chord/stp_manager.C).  The window is computed over the reals. */
module Stp {
  import opened Ids

  const CWIND_MULT := 5

  /** An RPC that waits for room. */
  datatype Delayed = Delayed(from: Id, to: Id, tag: nat)

  /** An RPC that was sent; it counts against the window while inWindow holds. */
  datatype Rpc = Rpc(seqno: nat, from: Id, to: Id, tag: nat, inWindow: bool, rexmits: nat)

  function Counted(pending: seq<Rpc>): nat {
    if pending == [] then 0
    else Counted(pending[..|pending| - 1]) + if pending[|pending| - 1].inWindow then 1 else 0
  }

  lemma {:induction false} CountAppend(a: seq<Rpc>, b: seq<Rpc>)
    ensures Counted(a + b) == Counted(a) + Counted(b)
    decreases |b|
  {
    if b == [] {
      assert a + b == a;
    } else {
      var n := |b| - 1;
      CountAppend(a, b[..n]);
      assert (a + b)[..|a + b| - 1] == a + b[..n];
    }
  }

  lemma {:induction false} CountOne(r: Rpc)
    ensures Counted([r]) == if r.inWindow then 1 else 0
  {
    assert [r][..0] == [];
  }

  lemma {:induction false} CountAt(pending: seq<Rpc>, i: nat)
    requires i < |pending|
    ensures Counted(pending) == Counted(pending[..i] + pending[i + 1..]) + if pending[i].inWindow then 1 else 0
  {
    var a, b := pending[..i], pending[i + 1..];
    assert pending == a + [pending[i]] + b;
    CountAppend(a, b);
    CountAppend(a, [pending[i]]);
    CountAppend(a + [pending[i]], b);
    CountOne(pending[i]);
  }

  lemma {:induction false} CountSet(pending: seq<Rpc>, i: nat, r: Rpc)
    requires i < |pending|
    ensures Counted(pending[i := r]) + (if pending[i].inWindow then 1 else 0)
            == Counted(pending) + if r.inWindow then 1 else 0
  {
    CountAt(pending, i);
    CountAt(pending[i := r], i);
    assert pending[i := r][..i] + pending[i := r][i + 1..] == pending[..i] + pending[i + 1..];
  }

  // ---------- queued RPCs of one destination ----------

  function Bound(q: seq<Delayed>, to: Id): seq<Delayed> {
    if q == [] then []
    else Bound(q[..|q| - 1], to) + if q[|q| - 1].to == to then [q[|q| - 1]] else []
  }

  lemma {:induction false} BoundAppend(a: seq<Delayed>, b: seq<Delayed>, to: Id)
    ensures Bound(a + b, to) == Bound(a, to) + Bound(b, to)
    decreases |b|
  {
    if b == [] {
      assert a + b == a;
    } else {
      var n := |b| - 1;
      BoundAppend(a, b[..n], to);
      assert (a + b)[..|a + b| - 1] == a + b[..n];
    }
  }

  lemma {:induction false} BoundOne(d: Delayed, to: Id)
    ensures Bound([d], to) == if d.to == to then [d] else []
  {
    assert [d][..0] == [];
  }

  lemma {:induction false} BoundNone(q: seq<Delayed>, to: Id)
    requires forall i :: 0 <= i < |q| ==> q[i].to != to
    ensures Bound(q, to) == []
  {
    if q != [] {
      BoundNone(q[..|q| - 1], to);
    }
  }

  /** Taking the first entry of its destination takes the head of that
      destination's queue and leaves all other queues alone. */
  lemma {:induction false} TakeFirst(q: seq<Delayed>, j: nat, to: Id)
    requires j < |q| && forall i :: 0 <= i < j ==> q[i].to != q[j].to
    ensures Bound(q, to) == (if to == q[j].to then [q[j]] else []) + Bound(q[..j] + q[j + 1..], to)
  {
    var a, d, b := q[..j], q[j], q[j + 1..];
    assert q == a + [d] + b;
    BoundAround(a, d, b, to);
    BoundAppend(a, b, to);
    if to == d.to {
      BoundNone(a, to);
    }
  }

  lemma {:induction false} BoundAround(a: seq<Delayed>, d: Delayed, b: seq<Delayed>, to: Id)
    ensures Bound(a + [d] + b, to) == Bound(a, to) + (if to == d.to then [d] else []) + Bound(b, to)
  {
    BoundAppend(a + [d], b, to);
    BoundAppend(a, [d], to);
    BoundOne(d, to);
  }

  /** What was queued for a destination is what has left followed by what waits. */
  ghost predicate InOrder(queued: seq<Delayed>, left: seq<Delayed>, q: seq<Delayed>) {
    forall to :: Bound(queued, to) == Bound(left, to) + Bound(q, to)
  }

  lemma {:induction false} QueueOne(queued: seq<Delayed>, left: seq<Delayed>, q: seq<Delayed>, d: Delayed)
    requires InOrder(queued, left, q)
    ensures InOrder(queued + [d], left, q + [d])
  {
    forall to ensures Bound(queued + [d], to) == Bound(left, to) + Bound(q + [d], to) {
      BoundAppend(queued, [d], to);
      BoundAppend(q, [d], to);
    }
  }

  lemma {:induction false} LeaveOne(queued: seq<Delayed>, left: seq<Delayed>, q: seq<Delayed>, j: nat)
    requires InOrder(queued, left, q) && j < |q| && forall i :: 0 <= i < j ==> q[i].to != q[j].to
    ensures InOrder(queued, left + [q[j]], q[..j] + q[j + 1..])
  {
    forall to ensures Bound(queued, to) == Bound(left + [q[j]], to) + Bound(q[..j] + q[j + 1..], to) {
      BoundAppend(left, [q[j]], to);
      BoundOne(q[j], to);
      TakeFirst(q, j, to);
    }
  }

  /** Sequence numbers ascend along the list of pending RPCs. */
  predicate Numbered(pending: seq<Rpc>, next: nat) {
    && (forall i :: 0 <= i < |pending| ==> pending[i].seqno < next)
    && (forall i, j :: 0 <= i < j < |pending| ==> pending[i].seqno < pending[j].seqno)
  }

  lemma {:induction false} CountedPending(pending: seq<Rpc>)
    ensures Counted(pending) <= |pending|
  {
    if pending != [] {
      CountedPending(pending[..|pending| - 1]);
    }
  }

  // ---------- the window ----------

  /** There is room for one more RPC beside n: five for each unit of the window. */
  predicate Open(n: nat, cwind: real) {
    n as real < 5.0 * cwind
  }

  /** The window after an answer: slow start below the threshold, beyond it one unit
      more for a whole window of answers. */
  function Grown(cwind: real, ssthresh: real): (w: real)
    requires cwind >= 1.0
    ensures cwind < w <= cwind + 1.0
    ensures cwind >= ssthresh ==> (w - cwind) * cwind == 1.0
  {
    if cwind < ssthresh then cwind + 1.0 else Inverse(cwind); cwind + 1.0 / cwind
  }

  /** Half, but not below one. */
  function Halved(w: real): (h: real)
    requires w >= 1.0
    ensures h >= 1.0 && (w >= 2.0 ==> 2.0 * h == w) && h <= w
  {
    if w < 2.0 then 1.0 else w / 2.0
  }

  // ---------- the manager ----------

  class StpManager {
    var seqno: nat
    var cwind: real
    var cwindEwma: real
    var ssthresh: real
    var numQed: int
    var inflight: int
    var Q: seq<Delayed>
    var pending: seq<Rpc>
    ghost var queued: seq<Delayed>
    ghost var left: seq<Delayed>

    ghost predicate WindowOk()
      reads this
    {
      cwind >= 1.0 && cwindEwma >= 1.0 && ssthresh >= 1.0
    }

    /** Inside a handler, extra RPCs may still be counted in flight although they are
        done, and one as queued although it has left the queue. */
    ghost predicate Consistent(extra: nat, leaving: nat)
      reads this
    {
      && inflight == Counted(pending) + extra && numQed == |Q| + leaving && WindowOk()
      && InOrder(queued, left, Q) && Numbered(pending, seqno)
    }

    /** Between handlers.  While an RPC waits in the queue another one is pending, whose
        answer or failure lets it go. */
    ghost predicate Valid()
      reads this
    {
      Consistent(0, 0) && (Q != [] ==> pending != [])
    }

    constructor ()
      ensures Valid() && Q == [] && pending == [] && seqno == 0 && cwind == 1.0 && cwindEwma == 1.0 && ssthresh == 6.0
    {
      seqno, cwind, cwindEwma, ssthresh := 0, 1.0, 1.0, 6.0;
      numQed, inflight := 0, 0;
      Q, pending, queued, left := [], [], [], [];
    }

    predicate RoomInWindow()
      reads this
      ensures inflight >= 0 ==> (RoomInWindow() <==> Open(inflight, cwind))
    {
      inflight as real < cwind * (CWIND_MULT as real)
    }

    /** doRPC: sent at once if there is room, or else queued. */
    method DoRPC(from: Id, to: Id, tag: nat, ghost extra: nat, ghost leaving: nat)
      requires Consistent(extra, leaving)
      modifies this`Q, this`numQed, this`queued, this`pending, this`inflight, this`seqno
      ensures Consistent(extra, leaving)
      ensures Counted(old(pending)) + extra == 0 ==> |pending| == |old(pending)| + 1
      ensures Open(Counted(old(pending)) + extra, cwind) ==>
                && pending == old(pending) + [Rpc(old(seqno), from, to, tag, true, 0)] && seqno == old(seqno) + 1
                && Q == old(Q) && queued == old(queued) && numQed == old(numQed) && inflight == old(inflight) + 1
      ensures !Open(Counted(old(pending)) + extra, cwind) ==>
                && pending == old(pending) && seqno == old(seqno) && inflight == old(inflight)
                && Q == old(Q) + [Delayed(from, to, tag)] && queued == old(queued) + [Delayed(from, to, tag)]
    {
      if !RoomInWindow() {
        QueueOne(queued, left, Q, Delayed(from, to, tag));
        numQed := numQed + 1;
        Q := Q + [Delayed(from, to, tag)];
        queued := queued + [Delayed(from, to, tag)];
      } else {
        var C := Rpc(seqno, from, to, tag, true, 0);
        CountAppend(pending, [C]);
        CountOne(C);
        pending := pending + [C];
        inflight := inflight + 1;
        seqno := seqno + 1;
      }
    }

    /** update_cwind: slow start or additive increase on an answer, halving on the
        first loss.  The window never closes below one. */
    method UpdateCwind(acked: int)
      requires WindowOk()
      modifies this`cwind, this`cwindEwma, this`ssthresh
      ensures WindowOk()
      ensures cwind == if acked >= 0 then Grown(old(cwind), old(ssthresh)) else Halved(old(cwind))
      ensures ssthresh == if acked >= 0 then old(ssthresh) else Halved(old(cwindEwma))
      ensures 50.0 * cwindEwma == 49.0 * old(cwindEwma) + cwind
    {
      if acked >= 0 {
        if cwind < ssthresh {
          cwind := cwind + 1.0;
        } else {
          Inverse(cwind);
          cwind := cwind + 1.0 / cwind;
        }
      } else {
        ssthresh := cwindEwma / 2.0;
        if ssthresh < 1.0 {
          ssthresh := 1.0;
        }
        cwind := cwind / 2.0;
        if cwind < 1.0 {
          cwind := 1.0;
        }
      }
      cwindEwma := (cwindEwma * 49.0 + cwind) / 50.0;
    }

    /** idle: five seconds without a call. */
    method Idle()
      requires Valid()
      modifies this`cwind, this`cwindEwma, this`ssthresh
      ensures Valid() && cwind == 1.0 && cwindEwma == 1.0 && ssthresh == 6.0
    {
      cwind, cwindEwma, ssthresh := 1.0, 1.0, 6.0;
    }

    /** timeout: RPCs to the same host stop counting, and this one too from its third
        transmission on; the first timeout of a remote RPC halves the window. */
    method Timeout(c: nat)
      requires Valid() && c < |pending|
      modifies this`pending, this`inflight, this`cwind, this`cwindEwma, this`ssthresh
      ensures Valid() && |pending| == |old(pending)|
      ensures forall i :: 0 <= i < |pending| ==> pending[i] == TimedOut(old(pending)[i], i == c, old(pending)[c])
      ensures old(pending)[c].rexmits > 0 || old(pending)[c].from == old(pending)[c].to ==>
                cwind == old(cwind) && ssthresh == old(ssthresh) && cwindEwma == old(cwindEwma)
      ensures old(pending)[c].rexmits == 0 && old(pending)[c].from != old(pending)[c].to ==>
                cwind == Halved(old(cwind)) && ssthresh == Halved(old(cwindEwma))
    {
      var C := pending[c];
      DropOthers(c);
      CountRexmit(c);
      if C.from != C.to && C.rexmits + 1 == 1 {
        UpdateCwind(-1);
      }
    }

    /** One more transmission of RPC c, which leaves the window with its third. */
    method CountRexmit(c: nat)
      requires c < |pending| && inflight == Counted(pending)
      modifies this`pending, this`inflight
      ensures pending == old(pending)[c := TimedOut(old(pending)[c], true, old(pending)[c])]
      ensures inflight == Counted(pending)
    {
      var C := pending[c];
      var stays := C.inWindow && C.rexmits <= 1;
      CountSet(pending, c, C.(inWindow := stays, rexmits := C.rexmits + 1));
      if C.rexmits > 1 && C.inWindow {
        inflight := inflight - 1;
      }
      pending := pending[c := C.(inWindow := stays, rexmits := C.rexmits + 1)];
    }

    /** Other RPCs to the host of RPC c leave the window. */
    method DropOthers(c: nat)
      requires c < |pending| && inflight == Counted(pending)
      modifies this`pending, this`inflight
      ensures |pending| == |old(pending)| && pending[c] == old(pending)[c] && inflight == Counted(pending)
      ensures forall j ::
                0 <= j < |pending| && j != c ==> pending[j] == TimedOut(old(pending)[j], false, old(pending)[c])
    {
      var C := pending[c];
      for i := 0 to |pending|
        invariant |pending| == |old(pending)| && pending[c] == C && inflight == Counted(pending)
        invariant forall j :: 0 <= j < i && j != c ==> pending[j] == TimedOut(old(pending)[j], false, C)
        invariant forall j :: i <= j < |pending| ==> pending[j] == old(pending)[j]
      {
        if pending[i].to == C.to && i != c && pending[i].inWindow {
          CountSet(pending, i, pending[i].(inWindow := false));
          pending := pending[i := pending[i].(inWindow := false)];
          inflight := inflight - 1;
        }
      }
    }

    /** doRPCcb: the RPC is done; its callback may make further calls.  p and q are the
        pending and the queued RPCs after these: then the window grows, and with room
        one queued RPC leaves. */
    method DoRPCcb(c: nat, calls: seq<Delayed>, pick: nat)
      returns (again: bool, ghost p: seq<Rpc>, ghost q: seq<Delayed>)
      requires Valid() && c < |pending|
      modifies this
      ensures Valid() && old(queued) <= queued && old(left) <= left
      ensures old(pending)[..c] + old(pending)[c + 1..] <= p && old(Q) <= q
      ensures |p| + |q| == |old(pending)| - 1 + |old(Q)| + |calls|
      ensures forall r :: r in pending ==> r.seqno != old(pending)[c].seqno
      ensures forall d :: d in calls ==> Made(d, pending, queued)
      ensures cwind == Grown(old(cwind), old(ssthresh)) && ssthresh == old(ssthresh)
      ensures LeavesIfOpen(p, q, pending, Q, cwind, Picked(pick, |q|))
    {
      var C := pending[c];
      TakeOut(c);
      MakeCalls(calls, if C.inWindow then 1 else 0);
      p, q := pending, Q;
      again := Settle(C, pick);
    }

    /** The RPC leaves the window, which grows, and a queued RPC may be sent. */
    method Settle(C: Rpc, pick: nat) returns (again: bool)
      requires Consistent(if C.inWindow then 1 else 0, 0) && C.seqno < seqno
      modifies this
      ensures Valid() && queued == old(queued) && old(left) <= left && old(pending) <= pending
      ensures forall r :: r in pending ==> r in old(pending) || r.seqno >= old(seqno)
      ensures cwind == Grown(old(cwind), old(ssthresh)) && ssthresh == old(ssthresh)
      ensures LeavesIfOpen(old(pending), old(Q), pending, Q, cwind, Picked(pick, |old(Q)|))
    {
      if C.inWindow {
        inflight := inflight - 1;
      }
      UpdateCwind(C.seqno);
      ghost var p, q, was := pending, Q, left;
      again := RpcDone(Picked(pick, numQed));
    }

    method TakeOut(c: nat)
      requires Valid() && c < |pending|
      modifies this`pending
      ensures pending == old(pending)[..c] + old(pending)[c + 1..]
      ensures Consistent(if old(pending)[c].inWindow then 1 else 0, 0)
      ensures old(pending)[c].seqno < seqno && forall r :: r in pending ==> r.seqno != old(pending)[c].seqno
    {
      CountAt(pending, c);
      pending := pending[..c] + pending[c + 1..];
    }

    method MakeCalls(calls: seq<Delayed>, ghost extra: nat)
      requires Consistent(extra, 0)
      modifies this`Q, this`numQed, this`queued, this`pending, this`inflight, this`seqno
      ensures Consistent(extra, 0) && old(queued) <= queued && old(seqno) <= seqno
      ensures old(Q) <= Q && |pending| + |Q| == |old(pending)| + |old(Q)| + |calls|
      ensures old(pending) <= pending && forall r :: r in pending ==> r in old(pending) || r.seqno >= old(seqno)
      ensures forall d :: d in calls ==> Made(d, pending, queued)
    {
      for i := 0 to |calls|
        invariant Consistent(extra, 0) && old(queued) <= queued && old(seqno) <= seqno
        invariant old(Q) <= Q && |pending| + |Q| == |old(pending)| + |old(Q)| + i
        invariant old(pending) <= pending && forall r :: r in pending ==> r in old(pending) || r.seqno >= old(seqno)
        invariant forall j :: 0 <= j < i ==> Made(calls[j], pending, queued)
      {
        ghost var p, q := pending, queued;
        DoRPC(calls[i].from, calls[i].to, calls[i].tag, extra, 0);
        forall j | 0 <= j <= i ensures Made(calls[j], pending, queued) {
          if j < i {
            MadeStays(calls[j], p, q, pending, queued);
          } else if pending != p {
            assert Sends(pending[|p|], calls[i]);
          }
        }
      }
    }

    /** rpc_done: one queued RPC leaves if there is room, the first one bound for the
        destination of a random pick.  again tells whether another turn is due. */
    method RpcDone(pick: nat) returns (again: bool)
      requires Consistent(0, 0) && (Q != [] ==> pick < (if numQed > 100 then 100 else numQed))
      modifies this`Q, this`numQed, this`left, this`pending, this`inflight, this`seqno, this`queued
      ensures Valid() && again == (Q != [] && Open(Counted(pending), cwind)) && queued == old(queued)
      ensures old(pending) <= pending && old(left) <= left && forall r :: r in pending ==>
                r in old(pending) || r.seqno >= old(seqno)
      ensures LeavesIfOpen(old(pending), old(Q), pending, Q, cwind, pick)
      ensures old(Q) == [] || !Open(Counted(old(pending)), cwind) ==> left == old(left)
      ensures old(Q) != [] && Open(Counted(old(pending)), cwind) ==>
                exists j :: 0 <= j <= pick && Left(old(Q), j, Q) && old(Q)[j].to == old(Q)[pick].to
                            && left == old(left) + [old(Q)[j]] && |pending| == |old(pending)| + 1
                            && Sends(pending[|old(pending)|], old(Q)[j])
    {
      CountedPending(pending);
      if Q != [] && RoomInWindow() {
        var j := FirstBound(Q, pick);
        ghost var p, q := pending, Q;
        SendQueued(j);
        assert LeavesAt(p, q, pending, Q, j);
      }
      again := Q != [] && RoomInWindow();
    }

    /** Entry j leaves the queue.  There is room, so it is sent and not queued again. */
    method SendQueued(j: nat)
      requires Consistent(0, 0) && j < |Q| && RoomInWindow() && forall i :: 0 <= i < j ==> Q[i].to != Q[j].to
      modifies this`Q, this`numQed, this`left, this`pending, this`inflight, this`seqno, this`queued
      ensures Consistent(0, 0) && queued == old(queued) && left == old(left) + [old(Q)[j]] && Left(old(Q), j, Q)
      ensures LeavesAt(old(pending), old(Q), pending, Q, j) && pending[|old(pending)|].seqno == old(seqno)
    {
      ghost var p, q, s := pending, Q, seqno;
      var args := Dequeue(j);
      DoRPC(args.from, args.to, args.tag, 0, 1);
      LeftAndSent(p, q, pending, Q, j, s);
      numQed := numQed - 1;
    }

    method Dequeue(j: nat) returns (args: Delayed)
      requires Consistent(0, 0) && j < |Q| && forall i :: 0 <= i < j ==> Q[i].to != Q[j].to
      modifies this`Q, this`left
      ensures Consistent(0, 1) && args == old(Q)[j] && left == old(left) + [args] && Left(old(Q), j, Q)
    {
      args := Q[j];
      LeaveOne(queued, left, Q, j);
      Q := Q[..j] + Q[j + 1..];
      left := left + [args];
    }
  }

  /** The first entry with the destination of entry pick. */
  method FirstBound(q: seq<Delayed>, pick: nat) returns (j: nat)
    requires pick < |q|
    ensures j <= pick && q[j].to == q[pick].to && forall i :: 0 <= i < j ==> q[i].to != q[j].to
  {
    j := 0;
    while j != pick && q[j].to != q[pick].to
      invariant 0 <= j <= pick && forall i :: 0 <= i < j ==> q[i].to != q[pick].to
      decreases pick - j
    {
      j := j + 1;
    }
  }

  lemma {:induction false} Inverse(x: real)
    requires x >= 1.0
    ensures 0.0 < 1.0 / x <= 1.0
  {
  }

  /** The call was sent, or has gone to the queue. */
  ghost predicate Made(d: Delayed, pending: seq<Rpc>, queued: seq<Delayed>) {
    d in queued || exists i :: 0 <= i < |pending| && Sends(pending[i], d)
  }

  lemma {:induction false} MadeStays(d: Delayed, p: seq<Rpc>, q: seq<Delayed>, p': seq<Rpc>, q': seq<Delayed>)
    requires Made(d, p, q) && p <= p' && q <= q'
    ensures Made(d, p', q')
  {
    if d !in q {
      var i :| 0 <= i < |p| && Sends(p[i], d);
      assert p'[i] == p[i];
    }
  }

  /** An RPC after a timeout of C; isC tells whether it is C itself. */
  function TimedOut(o: Rpc, isC: bool, C: Rpc): Rpc {
    if isC then o.(inWindow := o.inWindow && o.rexmits <= 1, rexmits := o.rexmits + 1)
    else o.(inWindow := o.inWindow && o.to != C.to)
  }

  /** r is q without entry j, and j was the first of its destination. */
  ghost predicate Left(q: seq<Delayed>, j: nat, r: seq<Delayed>) {
    j < |q| && r == q[..j] + q[j + 1..] && forall i :: 0 <= i < j ==> q[i].to != q[j].to
  }

  /** Entry j leaves the queue q and is sent, behind the pending p. */
  ghost predicate LeavesAt(p: seq<Rpc>, q: seq<Delayed>, p': seq<Rpc>, q': seq<Delayed>, j: nat) {
    && Left(q, j, q') && |p'| == |p| + 1 && p <= p' && Sends(p'[|p|], q[j])
  }

  lemma {:induction false} LeftAndSent(p: seq<Rpc>, q: seq<Delayed>, p': seq<Rpc>, q': seq<Delayed>, j: nat, seqno: nat)
    requires Left(q, j, q') && p' == p + [Rpc(seqno, q[j].from, q[j].to, q[j].tag, true, 0)]
    ensures LeavesAt(p, q, p', q', j) && p'[|p|].seqno == seqno
  {
  }

  /** The random pick among the first hundred of n queued RPCs. */
  function Picked(pick: nat, n: int): nat {
    if pick < n && pick < 100 then pick else 0
  }

  /** With an RPC in the queue and room in the window exactly one leaves, the first for
      the destination of the pick; otherwise none does. */
  ghost predicate LeavesIfOpen(p: seq<Rpc>, q: seq<Delayed>, p': seq<Rpc>, q': seq<Delayed>, cwind: real, pick: nat) {
    if q != [] && Open(Counted(p), cwind)
    then pick < |q| && exists j: nat :: LeavesAt(p, q, p', q', j) && q[j].to == q[pick].to
    else p' == p && q' == q
  }

  predicate Sends(r: Rpc, d: Delayed) {
    r.from == d.from && r.to == d.to && r.tag == d.tag && r.inWindow && r.rexmits == 0
  }
}
