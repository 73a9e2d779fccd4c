/** Serialised read-modify-write stores (dhash/dhblock_replicated_srv.C) and the
    version rule of keyhash blocks (dhash/dhblock_keyhash_srv.C).  Database
    requests are asynchronous: any outstanding one may complete next. */
module Stores {
  import opened Ids
  import opened Options

  const LOW32: nat := 0x1_0000_0000

  /** id_to_dbkey: the low 32 bits are cleared. */
  function DbKey(key: Id): (k: Id)
    ensures k % LOW32 == 0 && k <= key < k + LOW32
  {
    key / LOW32 * LOW32
  }

  type Data = seq<bv8>

  datatype Stat = OK | STALE | RETRY | DBERR

  /** An outstanding database request made on behalf of a writer. */
  datatype Callback =
    | Fetch(key: Id, data: Data)
    | Remove(key: Id, data: Data)
    | Write(key: Id, data: Data)

  /** How a writer's turn ended: its data was compared and perhaps stored, or the
      fetch failed, or the final write failed. */
  datatype End = Finished | NotFetched | NotWritten

  datatype Done = Done(data: Data, end: End)

  /** The version rule: a newer stored block stays. */
  function Apply(ver: Data -> nat, od: Option<Data>, nd: Data): Option<Data> {
    if od.Some? && ver(od.value) > ver(nd) then od else Some(nd)
  }

  /** What the writers leave behind, one after the other.  The old block is removed
      before the new one is written, so a failed write leaves nothing. */
  function Fold(ver: Data -> nat, start: Option<Data>, ws: seq<Done>): Option<Data> {
    if ws == [] then start
    else
      var w := ws[|ws| - 1];
      var before := Fold(ver, start, ws[..|ws| - 1]);
      match w.end
      case Finished => Apply(ver, before, w.data)
      case NotFetched => before
      case NotWritten => None
  }

  /** What they should leave behind: writers that met an error count for nothing. */
  function Wanted(ver: Data -> nat, start: Option<Data>, ws: seq<Done>): Option<Data> {
    if ws == [] then start
    else
      var w := ws[|ws| - 1];
      var before := Wanted(ver, start, ws[..|ws| - 1]);
      if w.end == Finished then Apply(ver, before, w.data) else before
  }

  lemma {:induction false} FoldNext(ver: Data -> nat, start: Option<Data>, ws: seq<Done>, w: Done)
    ensures Fold(ver, start, ws + [w]) == match w.end
              case Finished => Apply(ver, Fold(ver, start, ws), w.data)
              case NotFetched => Fold(ver, start, ws)
              case NotWritten => None
    ensures Wanted(ver, start, ws + [w]) ==
            if w.end == Finished then Apply(ver, Wanted(ver, start, ws), w.data) else Wanted(ver, start, ws)
  {
    assert (ws + [w])[..|ws|] == ws;
  }

  /** The write of writer i failed when there was a block to lose. */
  predicate Lost(ver: Data -> nat, start: Option<Data>, ws: seq<Done>, i: nat)
    requires i < |ws|
  {
    ws[i].end == NotWritten && Fold(ver, start, ws[..i]).Some?
  }

  lemma {:induction false} FoldStep(ver: Data -> nat, start: Option<Data>, ws: seq<Done>, i: nat)
    requires i < |ws|
    ensures Fold(ver, start, ws[..i + 1]) == match ws[i].end
              case Finished => Apply(ver, Fold(ver, start, ws[..i]), ws[i].data)
              case NotFetched => Fold(ver, start, ws[..i])
              case NotWritten => None
    ensures Wanted(ver, start, ws[..i + 1]) ==
            if ws[i].end == Finished then Apply(ver, Wanted(ver, start, ws[..i]), ws[i].data)
            else Wanted(ver, start, ws[..i])
  {
    assert ws[..i + 1] == ws[..i] + [ws[i]];
    FoldNext(ver, start, ws[..i], ws[i]);
  }

  /** No update is lost, after any number of writers, exactly when no write that
      followed a removal failed. */
  lemma {:induction false} NoLossIff(ver: Data -> nat, start: Option<Data>, ws: seq<Done>)
    ensures (forall n :: 0 <= n <= |ws| ==> Fold(ver, start, ws[..n]) == Wanted(ver, start, ws[..n]))
            <==> (forall i :: 0 <= i < |ws| ==> !Lost(ver, start, ws, i))
  {
    if forall n :: 0 <= n <= |ws| ==> Fold(ver, start, ws[..n]) == Wanted(ver, start, ws[..n]) {
      forall i | 0 <= i < |ws| ensures !Lost(ver, start, ws, i) {
        FoldStep(ver, start, ws, i);
        assert Fold(ver, start, ws[..i + 1]) == Wanted(ver, start, ws[..i + 1]);
      }
    }
    if forall i :: 0 <= i < |ws| ==> !Lost(ver, start, ws, i) {
      forall n | 0 <= n <= |ws| ensures Fold(ver, start, ws[..n]) == Wanted(ver, start, ws[..n]) {
        NoLoss(ver, start, ws, n);
      }
    }
  }

  lemma {:induction false} NoLoss(ver: Data -> nat, start: Option<Data>, ws: seq<Done>, n: nat)
    requires n <= |ws| && forall i :: 0 <= i < |ws| ==> !Lost(ver, start, ws, i)
    ensures Fold(ver, start, ws[..n]) == Wanted(ver, start, ws[..n])
  {
    if n > 0 {
      NoLoss(ver, start, ws, n - 1);
      FoldStep(ver, start, ws, n - 1);
      assert !Lost(ver, start, ws, n - 1);
    }
  }

  function Version(ver: Data -> nat, d: Option<Data>): int {
    if d.None? then -1 else ver(d.value)
  }

  /** The version that one writer after the other leaves behind never goes down, over any
      stretch of writers, exactly when no write that followed a removal failed.  What a
      reader sees in the middle of a turn is another matter: see AbsentBeforeWrite. */
  lemma {:induction false} VersionsIff(ver: Data -> nat, start: Option<Data>, ws: seq<Done>)
    ensures (forall m, n :: 0 <= m <= n <= |ws| ==>
               Version(ver, Fold(ver, start, ws[..m])) <= Version(ver, Fold(ver, start, ws[..n])))
            <==> (forall i :: 0 <= i < |ws| ==> !Lost(ver, start, ws, i))
  {
    if forall m, n :: 0 <= m <= n <= |ws| ==>
         Version(ver, Fold(ver, start, ws[..m])) <= Version(ver, Fold(ver, start, ws[..n])) {
      forall i | 0 <= i < |ws| ensures !Lost(ver, start, ws, i) {
        FoldStep(ver, start, ws, i);
        var j := i + 1;
        assert Version(ver, Fold(ver, start, ws[..i])) <= Version(ver, Fold(ver, start, ws[..j]));
      }
    }
    if forall i :: 0 <= i < |ws| ==> !Lost(ver, start, ws, i) {
      forall m, n | 0 <= m <= n <= |ws|
        ensures Version(ver, Fold(ver, start, ws[..m])) <= Version(ver, Fold(ver, start, ws[..n]))
      {
        VersionsRise(ver, start, ws, m, n);
      }
    }
  }

  lemma {:induction false} VersionsRise(ver: Data -> nat, start: Option<Data>, ws: seq<Done>, m: nat, n: nat)
    requires m <= n <= |ws| && forall i :: 0 <= i < |ws| ==> !Lost(ver, start, ws, i)
    ensures Version(ver, Fold(ver, start, ws[..m])) <= Version(ver, Fold(ver, start, ws[..n]))
    decreases n
  {
    if m < n {
      VersionsRise(ver, start, ws, m, n - 1);
      FoldStep(ver, start, ws, n - 1);
      assert !Lost(ver, start, ws, n - 1);
    }
  }

  // ---------- what is known of one key ----------

  function DataOf(ws: seq<Done>): seq<Data> {
    seq(|ws|, i requires 0 <= i < |ws| => ws[i].data)
  }

  /** Between requests nothing is outstanding and the database holds the fold. */
  ghost predicate Idle(ver: Data -> nat, start: Option<Data>, arrived: seq<Data>, ws: seq<Done>, stored: Option<Data>) {
    arrived == DataOf(ws) && stored == Fold(ver, start, ws)
  }

  /** One writer has its request outstanding; the others wait behind it. */
  ghost predicate Busy(ver: Data -> nat, start: Option<Data>, arrived: seq<Data>, ws: seq<Done>, stored: Option<Data>,
                       waiters: seq<Data>, cb: Callback) {
    && arrived == DataOf(ws) + [cb.data] + waiters
    && var before := Fold(ver, start, ws);
       match cb
       case Fetch(_, d) => stored == before
       case Remove(_, d) => stored == before && Apply(ver, before, d) == Some(d)
       case Write(_, d) => stored == None && Apply(ver, before, d) == Some(d)
  }

  function Lookup<V>(m: map<Id, V>, k: Id): Option<V> {
    if k in m then Some(m[k]) else None
  }

  function Queue<V>(m: map<Id, seq<V>>, k: Id): seq<V> {
    if k in m then m[k] else []
  }

  /** The outstanding requests for one key. */
  function For(pending: seq<Callback>, k: Id): seq<Callback> {
    if pending == [] then []
    else
      var n := |pending| - 1;
      For(pending[..n], k) + if pending[n].key == k then [pending[n]] else []
  }

  lemma {:induction false} ForAdd(pending: seq<Callback>, c: Callback, k: Id)
    ensures For(pending + [c], k) == For(pending, k) + if c.key == k then [c] else []
  {
    assert (pending + [c])[..|pending|] == pending;
  }

  lemma {:induction false} ForRemove(pending: seq<Callback>, i: nat, k: Id)
    requires i < |pending|
    ensures pending[i].key != k ==> For(pending[..i] + pending[i + 1..], k) == For(pending, k)
    ensures pending[i].key == k && |For(pending, k)| <= 1 ==>
              For(pending, k) == [pending[i]] && For(pending[..i] + pending[i + 1..], k) == []
    decreases |pending|
  {
    var n := |pending| - 1;
    var p := pending[..n];
    if i == n {
      assert pending[..i] + pending[i + 1..] == p;
    } else {
      ForRemove(p, i, k);
      assert pending[..i] + pending[i + 1..] == (p[..i] + p[i + 1..]) + [pending[n]];
      ForAdd(p[..i] + p[i + 1..], pending[n], k);
      if p[i].key == k {
        ForHas(p, i, k);
      }
    }
  }

  lemma {:induction false} ForHas(pending: seq<Callback>, i: nat, k: Id)
    requires i < |pending| && pending[i].key == k
    ensures |For(pending, k)| >= 1
  {
    var n := |pending| - 1;
    if i < n {
      ForHas(pending[..n], i, k);
    }
  }

  lemma {:induction false} ForHolds(pending: seq<Callback>, i: nat)
    requires i < |pending|
    ensures pending[i] in For(pending, pending[i].key)
  {
    var n := |pending| - 1;
    if i < n {
      ForHolds(pending[..n], i);
    }
  }

  /** All that concerns one key. */
  datatype KeyState = KeyState(start: Option<Data>, arrived: seq<Data>, ws: seq<Done>, stored: Option<Data>,
                               paused: Option<seq<Data>>, out: seq<Callback>)

  /** No request and no waiting list, or one request and a list. */
  ghost predicate Ledger(ver: Data -> nat, s: KeyState) {
    match s.paused
    case None => s.out == [] && Idle(ver, s.start, s.arrived, s.ws, s.stored)
    case Some(waiters) => |s.out| == 1 && Busy(ver, s.start, s.arrived, s.ws, s.stored, waiters, s.out[0])
  }

  // ---------- one step of one key ----------

  /** A writer arrives: it fetches, or it waits. */
  function Arrived(s: KeyState, k: Id, d: Data): KeyState {
    match s.paused
    case None => s.(arrived := s.arrived + [d], paused := Some([]), out := [Fetch(k, d)])
    case Some(waiters) => s.(arrived := s.arrived + [d], paused := Some(waiters + [d]))
  }

  lemma {:induction false} LedgerArrive(ver: Data -> nat, s: KeyState, k: Id, d: Data)
    requires Ledger(ver, s)
    ensures Ledger(ver, Arrived(s, k, d))
  {
  }

  /** The current writer is through, and the next one, if any, starts its fetch. */
  function Concluded(s: KeyState, k: Id, w: Done): KeyState
    requires s.paused.Some?
  {
    var waiters := s.paused.value;
    s.(ws := s.ws + [w],
       paused := if waiters == [] then None else Some(waiters[1..]),
       out := if waiters == [] then [] else [Fetch(k, waiters[0])])
  }

  lemma {:induction false} LedgerFinish(ver: Data -> nat, s: KeyState, k: Id, w: Done)
    requires s.paused.Some? && s.arrived == DataOf(s.ws) + [w.data] + s.paused.value
    requires s.stored == Fold(ver, s.start, s.ws + [w])
    ensures Ledger(ver, Concluded(s, k, w))
  {
    var waiters := s.paused.value;
    assert DataOf(s.ws + [w]) == DataOf(s.ws) + [w.data];
    if waiters != [] {
      assert waiters == [waiters[0]] + waiters[1..];
    }
  }

  /** One more writer of k is through. */
  function Through(m: map<Id, seq<Done>>, k: Id, w: Done): map<Id, seq<Done>> {
    m[k := Queue(m, k) + [w]]
  }

  /** The next request of the same writer is issued behind all others. */
  ghost predicate Next(before: seq<Callback>, after: seq<Callback>, cb: Callback) {
    after == before + [cb] && For(after, cb.key) == [cb]
  }

  /** What can be seen of the server. */
  datatype View = View(db: map<Id, Data>, paused: map<Id, seq<Data>>, pending: seq<Callback>, replies: seq<Reply>,
                       through: map<Id, seq<Done>>)

  /** The next request of the same writer, and nothing else. */
  ghost predicate Goes(v: View, v': View, db: map<Id, Data>, cb: Callback) {
    && v'.db == db && v'.through == v.through && v'.replies == v.replies && v'.paused == v.paused
    && Next(v.pending, v'.pending, cb)
  }

  /** The writer of data d is through and is told stat; the next one, if any, fetches. */
  ghost predicate Ends(v: View, v': View, db: map<Id, Data>, k: Id, d: Data, end: End, stat: Stat) {
    && v'.db == db && v'.through == Through(v.through, k, Done(d, end))
    && v'.replies == v.replies + [Reply(k, d, stat)] && k in v.paused
    && v'.paused == (if v.paused[k] == [] then v.paused - {k} else v.paused[k := v.paused[k][1..]])
    && v'.pending == v.pending + if v.paused[k] == [] then [] else [Fetch(k, v.paused[k][0])]
  }

  /** A request completes: a fetch leads to the version test, a removal to the write,
      and a write, whether it fails or not, to the next writer.  mine tells whether the
      key is in the node's own range. */
  ghost predicate Fired(ver: Data -> nat, err: bool, mine: bool, cb: Callback, v: View, v': View) {
    match cb
    case Fetch(k, d) =>
      if err then Ends(v, v', v.db, k, d, NotFetched, DBERR)
      else if k !in v.db then Goes(v, v', v.db, Write(k, d))
      else if ver(v.db[k]) > ver(d) then Ends(v, v', v.db, k, d, Finished, if mine then STALE else RETRY)
      else Goes(v, v', v.db, Remove(k, d))
    case Remove(k, d) => Goes(v, v', v.db - {k}, Write(k, d))
    case Write(k, d) =>
      k !in v.db && if err then Ends(v, v', v.db, k, d, NotWritten, DBERR)
                    else Ends(v, v', v.db[k := d], k, d, Finished, OK)
  }

  /** What the reply tells the writer of d: OK exactly if its data is stored now, STALE or
      RETRY exactly if a block of a higher version has stayed, STALE for the node's own
      keys, and an error exactly if the database has failed. */
  ghost predicate TellsTruth(ver: Data -> nat, mine: bool, v: View, v': View, reply: Reply, end: End) {
    && (reply.stat == OK <==> end == Finished && reply.key in v'.db && v'.db[reply.key] == reply.data)
    && (reply.stat == STALE || reply.stat == RETRY
        <==> end == Finished && reply.key in v.db && reply.key in v'.db && v'.db[reply.key] == v.db[reply.key]
             && ver(v.db[reply.key]) > ver(reply.data))
    && (reply.stat == STALE ==> mine) && (reply.stat == RETRY ==> !mine)
    && (reply.stat == DBERR <==> end != Finished)
  }

  lemma {:induction false} RepliesAreTrue(ver: Data -> nat, err: bool, mine: bool, cb: Callback, v: View, v': View)
    requires Fired(ver, err, mine, cb, v, v')
    ensures v'.replies == v.replies ==> v'.through == v.through
    ensures v'.replies != v.replies ==>
              && |v'.replies| == |v.replies| + 1 && v'.replies[..|v.replies|] == v.replies
              && Queue(v'.through, cb.key) != []
              && TellsTruth(ver, mine, v, v', v'.replies[|v.replies|],
                            Queue(v'.through, cb.key)[|Queue(v.through, cb.key)|].end)
  {
    if v'.replies == v.replies {
      assert |v'.replies| == |v.replies|;
    }
  }

  function Without(pending: seq<Callback>, i: nat): seq<Callback>
    requires i < |pending|
  {
    pending[..i] + pending[i + 1..]
  }

  datatype Reply = Reply(key: Id, data: Data, stat: Stat)

  class ReplicatedSrv {
    const ver: Data -> nat
    var db: map<Id, Data>
    var paused: map<Id, seq<Data>>
    var pending: seq<Callback>
    var replies: seq<Reply>
    ghost const initial: map<Id, Data>
    /** Per key: the writers in the order they arrived, and those that are through. */
    ghost var arrived: map<Id, seq<Data>>
    ghost var through: map<Id, seq<Done>>

    ghost function StateOf(k: Id): KeyState
      reads this
    {
      KeyState(Lookup(initial, k), Queue(arrived, k), Queue(through, k), Lookup(db, k), Lookup(paused, k),
               For(pending, k))
    }

    ghost predicate KeyOk(k: Id)
      reads this
    {
      Ledger(ver, StateOf(k))
    }

    ghost predicate Valid()
      reads this
    {
      forall k :: KeyOk(k)
    }

    constructor (ver: Data -> nat, db: map<Id, Data>)
      ensures Valid() && this.ver == ver && this.db == db && initial == db && pending == [] && paused == map[]
      ensures arrived == map[] && through == map[] && replies == []
    {
      this.ver, this.db, initial := ver, db, db;
      paused, pending, replies := map[], [], [];
      arrived, through := map[], map[];
    }

    /** store: the first writer of a key fetches, the others wait behind it. */
    method Store(key: Id, data: Data)
      requires Valid() && DbKey(key) > 0
      modifies this
      ensures Valid() && db == old(db) && through == old(through) && replies == old(replies)
      ensures arrived == old(arrived)[DbKey(key) := Queue(old(arrived), DbKey(key)) + [data]]
      ensures pending == old(pending) + if DbKey(key) in old(paused) then [] else [Fetch(DbKey(key), data)]
    {
      Arrive(DbKey(key), data);
    }

    method Arrive(k: Id, data: Data)
      requires Valid()
      modifies this`arrived, this`paused, this`pending
      ensures Valid()
      ensures arrived == old(arrived)[k := Queue(old(arrived), k) + [data]]
      ensures pending == old(pending) + if k in old(paused) then [] else [Fetch(k, data)]
    {
      assert KeyOk(k);
      LedgerArrive(ver, StateOf(k), k, data);
      if k in paused {
        Wait(k, data);
      } else {
        Begin(k, data);
      }
      forall j | j != k ensures KeyOk(j) {
        assert old(KeyOk(j));
      }
    }

    /** Another writer of the key is at work. */
    method Wait(k: Id, data: Data)
      requires k in paused
      modifies this`arrived, this`paused
      ensures StateOf(k) == Arrived(old(StateOf(k)), k, data) && forall j :: j != k ==> StateOf(j) == old(StateOf(j))
      ensures arrived == old(arrived)[k := Queue(old(arrived), k) + [data]]
    {
      arrived := arrived[k := Queue(arrived, k) + [data]];
      paused := paused[k := paused[k] + [data]];
    }

    /** The first writer of the key. */
    method Begin(k: Id, data: Data)
      requires k !in paused && For(pending, k) == []
      modifies this`arrived, this`paused, this`pending
      ensures StateOf(k) == Arrived(old(StateOf(k)), k, data) && forall j :: j != k ==> StateOf(j) == old(StateOf(j))
      ensures arrived == old(arrived)[k := Queue(old(arrived), k) + [data]]
              && pending == old(pending) + [Fetch(k, data)]
    {
      arrived := arrived[k := Queue(arrived, k) + [data]];
      paused := paused[k := []];
      Request(Fetch(k, data));
    }

    /** One more request is outstanding. */
    method Request(cb: Callback)
      modifies this`pending
      ensures pending == old(pending) + [cb]
      ensures forall j :: For(pending, j) == For(old(pending), j) + if j == cb.key then [cb] else []
    {
      ghost var was := pending;
      pending := pending + [cb];
      forall j ensures For(pending, j) == For(was, j) + if j == cb.key then [cb] else [] {
        ForAdd(was, cb, j);
      }
    }

    /** finish_store: the next writer's fetch, or no more waiting list. */
    method FinishStore(k: Id)
      requires k in paused && For(pending, k) == []
      modifies this`paused, this`pending
      ensures forall j :: j != k ==> StateOf(j) == old(StateOf(j))
      ensures var w := old(paused)[k];
              StateOf(k) == old(StateOf(k)).(paused := if w == [] then None else Some(w[1..]),
                                             out := if w == [] then [] else [Fetch(k, w[0])])
      ensures paused == (if old(paused)[k] == [] then old(paused) - {k} else old(paused)[k := old(paused)[k][1..]])
      ensures pending == old(pending) + if old(paused)[k] == [] then [] else [Fetch(k, old(paused)[k][0])]
    {
      if |paused[k]| > 0 {
        StartNext(k);
      } else {
        paused := paused - {k};
      }
    }

    /** The first of the waiting writers fetches. */
    method StartNext(k: Id)
      requires k in paused && paused[k] != [] && For(pending, k) == []
      modifies this`paused, this`pending
      ensures forall j :: j != k ==> StateOf(j) == old(StateOf(j))
      ensures StateOf(k) == old(StateOf(k)).(paused := Some(old(paused)[k][1..]), out := [Fetch(k, old(paused)[k][0])])
      ensures paused == old(paused)[k := old(paused)[k][1..]]
      ensures pending == old(pending) + [Fetch(k, old(paused)[k][0])]
    {
      var waiters := paused[k];
      paused := paused[k := waiters[1..]];
      Request(Fetch(k, waiters[0]));
    }

    ghost function Now(): View
      reads this
    {
      View(db, paused, pending, replies, through)
    }

    /** While the request of k is being handled: all other keys are in order, and k
        has no request outstanding. */
    ghost predicate Handling(k: Id)
      reads this
    {
      k in paused && For(pending, k) == [] && forall j :: j != k ==> KeyOk(j)
    }

    ghost predicate Current(k: Id, cb: Callback)
      requires k in paused
      reads this
    {
      Busy(ver, Lookup(initial, k), Queue(arrived, k), Queue(through, k), Lookup(db, k), paused[k], cb)
    }

    /** The next database request of the same writer. */
    method Issue(cb: Callback)
      requires Handling(cb.key) && Current(cb.key, cb)
      modifies this`pending
      ensures Valid() && For(pending, cb.key) == [cb] && pending == old(pending) + [cb]
    {
      Request(cb);
      forall j ensures KeyOk(j) {
        assert j != cb.key ==> old(KeyOk(j)) && StateOf(j) == old(StateOf(j));
      }
    }

    /** store_after_rstore_cb: this writer is through. */
    method Conclude(k: Id, ghost end: End, d: Data, stat: Stat)
      requires Handling(k)
      requires Queue(arrived, k) == DataOf(Queue(through, k)) + [d] + paused[k]
      requires Lookup(db, k) == Fold(ver, Lookup(initial, k), Queue(through, k) + [Done(d, end)])
      modifies this`paused, this`pending, this`replies, this`through
      ensures Valid() && Ends(old(Now()), Now(), db, k, d, end, stat)
    {
      LedgerFinish(ver, StateOf(k), k, Done(d, end));
      Note(k, Done(d, end));
      FinishStore(k);
      replies := replies + [Reply(k, d, stat)];
      forall j | j != k ensures KeyOk(j) {
        assert old(KeyOk(j)) && StateOf(j) == old(StateOf(j));
      }
      assert StateOf(k) == Concluded(old(StateOf(k)), k, Done(d, end));
    }

    ghost method Note(k: Id, w: Done)
      modifies this`through
      ensures through == Through(old(through), k, w)
      ensures StateOf(k) == old(StateOf(k)).(ws := old(Queue(through, k)) + [w])
      ensures forall j :: j != k ==> StateOf(j) == old(StateOf(j))
    {
      through := Through(through, k, w);
    }

    method FetchFailed(k: Id, d: Data, ghost mine: bool)
      requires Handling(k) && Current(k, Fetch(k, d))
      modifies this`paused, this`pending, this`replies, this`through
      ensures Valid() && Fired(ver, true, mine, Fetch(k, d), old(Now()), Now())
    {
      FoldNext(ver, Lookup(initial, k), Queue(through, k), Done(d, NotFetched));
      Conclude(k, NotFetched, d, DBERR);
    }

    /** store_after_fetch_cb and real_store of keyhash blocks. */
    method AfterFetch(k: Id, d: Data, err: bool, mine: bool)
      requires Handling(k) && Current(k, Fetch(k, d))
      modifies this`paused, this`pending, this`replies, this`through
      ensures Valid() && Fired(ver, err, mine, Fetch(k, d), old(Now()), Now())
    {
      if err {
        FetchFailed(k, d, mine);
      } else if k in db {
        Compare(k, d, mine);
      } else {
        Issue(Write(k, d));
      }
    }

    /** A block is stored: a newer one stays, another makes way. */
    method Compare(k: Id, d: Data, mine: bool)
      requires Handling(k) && Current(k, Fetch(k, d)) && k in db
      modifies this`paused, this`pending, this`replies, this`through
      ensures Valid() && Fired(ver, false, mine, Fetch(k, d), old(Now()), Now())
    {
      if ver(db[k]) > ver(d) {
        FoldNext(ver, Lookup(initial, k), Queue(through, k), Done(d, Finished));
        Conclude(k, Finished, d, if mine then STALE else RETRY);
      } else {
        Issue(Remove(k, d));
      }
    }

    /** delete_cb: the old block is gone, the new one is written. */
    method AfterRemove(k: Id, d: Data, ghost mine: bool)
      requires Handling(k) && Current(k, Remove(k, d))
      modifies this`db, this`pending
      ensures Valid() && Fired(ver, false, mine, Remove(k, d), old(Now()), Now())
    {
      db := db - {k};
      assert forall j :: j != k ==> StateOf(j) == old(StateOf(j));
      forall j | j != k ensures KeyOk(j) {
        assert old(KeyOk(j));
      }
      Issue(Write(k, d));
    }

    /** adbcb: a failed write is reported; the old block is gone by then. */
    method AfterWrite(k: Id, d: Data, err: bool, ghost mine: bool)
      requires Handling(k) && Current(k, Write(k, d))
      modifies this`db, this`paused, this`pending, this`replies, this`through
      ensures Valid() && Fired(ver, err, mine, Write(k, d), old(Now()), Now())
    {
      FoldNext(ver, Lookup(initial, k), Queue(through, k), Done(d, if err then NotWritten else Finished));
      if err {
        Conclude(k, NotWritten, d, DBERR);
      } else {
        db := db[k := d];
        assert forall j :: j != k ==> StateOf(j) == old(StateOf(j));
        forall j | j != k ensures KeyOk(j) {
          assert old(KeyOk(j));
        }
        Conclude(k, Finished, d, OK);
      }
    }

    /** A database request completes, whichever one it is.  A removal that fails
        aborts the server. */
    method Complete(i: nat, err: bool, mine: bool)
      requires Valid() && i < |pending| && (err ==> !pending[i].Remove?)
      modifies this
      ensures Valid() && arrived == old(arrived)
      ensures Fired(ver, err, mine, old(pending)[i], old(Now()).(pending := Without(old(pending), i)), Now())
    {
      var cb := TakeOut(i);
      Resume(cb, err, mine);
    }

    method Resume(cb: Callback, err: bool, mine: bool)
      requires Handling(cb.key) && Current(cb.key, cb) && (err ==> !cb.Remove?)
      modifies this`db, this`paused, this`pending, this`replies, this`through
      ensures Valid() && Fired(ver, err, mine, cb, old(Now()), Now())
    {
      match cb
      case Fetch(k, d) => AfterFetch(k, d, err, mine);
      case Remove(k, d) => AfterRemove(k, d, mine);
      case Write(k, d) => AfterWrite(k, d, err, mine);
    }

    method TakeOut(i: nat) returns (cb: Callback)
      requires Valid() && i < |pending|
      modifies this`pending
      ensures cb == old(pending)[i] && Now() == old(Now()).(pending := Without(old(pending), i))
              && Handling(cb.key) && Current(cb.key, cb)
    {
      cb := pending[i];
      assert KeyOk(cb.key);
      ForHas(pending, i, cb.key);
      pending := pending[..i] + pending[i + 1..];
      forall j | j != cb.key ensures StateOf(j) == old(StateOf(j)) {
        ForRemove(old(pending), i, j);
      }
      forall j | j != cb.key ensures KeyOk(j) {
        assert old(KeyOk(j));
      }
      ForRemove(old(pending), i, cb.key);
    }

    /** When nothing is outstanding for a key, every writer that arrived has had its
        turn, in order, and the stored block is what they leave behind. */
    lemma {:induction false} NothingLost(k: Id)
      requires Valid() && For(pending, k) == []
      ensures k !in paused && Queue(arrived, k) == DataOf(Queue(through, k))
      ensures Lookup(db, k) == Fold(ver, Lookup(initial, k), Queue(through, k))
    {
      assert KeyOk(k);
    }

    /** Between the removal of a block and the write of the next one the key is absent:
        a fetch then, which does not wait for the writers, finds nothing. */
    lemma {:induction false} AbsentBeforeWrite(i: nat)
      requires Valid() && i < |pending| && pending[i].Write?
      ensures pending[i].key !in db
    {
      assert KeyOk(pending[i].key);
      ForHolds(pending, i);
    }

    lemma {:induction false} AtMostOne(k: Id)
      requires Valid()
      ensures |For(pending, k)| <= 1
    {
      assert KeyOk(k);
    }

    /** And no key ever has two requests outstanding. */
    lemma {:induction false} OneAtATime(i: nat, j: nat)
      requires Valid() && i < j < |pending|
      ensures pending[i].key != pending[j].key
    {
      AtMostOne(pending[i].key);
      ForRemove(pending, i, pending[i].key);
      if pending[i].key == pending[j].key {
        var rest := pending[..i] + pending[i + 1..];
        assert rest[j - 1] == pending[j];
        ForHas(rest, j - 1, pending[i].key);
      }
    }
  }

  /** An update whose write fails after the old block has been removed: the block is
      gone and its version with it, although the writer is told of an error. */
  method LostUpdate(ver: Data -> nat, key: Id, stored: Data, update: Data)
    returns (before: map<Id, Data>, after: map<Id, Data>, stat: Stat)
    requires DbKey(key) > 0 && ver(stored) <= ver(update)
    ensures Lookup(before, DbKey(key)) == Some(stored) && Lookup(after, DbKey(key)) == None && stat == DBERR
  {
    var k := DbKey(key);
    before := map[k := stored];
    var srv := new ReplicatedSrv(ver, before);
    srv.Store(key, update);
    srv.Complete(0, false, true);
    srv.Complete(0, false, true);
    srv.Complete(0, true, true);
    after := srv.db;
    stat := srv.replies[0].stat;
  }
}
