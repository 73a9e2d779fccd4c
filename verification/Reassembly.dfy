/** Fragments of a block and their reassembly (dhash/dhash_store.C,
    dhash/server.C). */
module Reassembly {
  type Byte = bv8

  /** Bytes start to end, end excluded, have arrived. */
  datatype Chunk = Chunk(start: nat, end: nat)

  predicate Holds(c: Chunk, i: nat) {
    c.start <= i < c.end
  }

  ghost predicate Covers(have: seq<Chunk>, i: nat) {
    exists j :: 0 <= j < |have| && Holds(have[j], i)
  }

  /** In order, none empty, and at least one missing byte between neighbours. */
  predicate Separated(have: seq<Chunk>, size: nat) {
    && (forall k :: 0 <= k < |have| ==> have[k].start < have[k].end <= size)
    && (forall k, l :: 0 <= k < l < |have| ==> have[k].end < have[l].start)
  }

  /** The same from position k on only touching or overlapping at k: what join repairs. */
  predicate Joinable(have: seq<Chunk>, k: nat, size: nat) {
    && k < |have| && (forall j :: 0 <= j < |have| ==> have[j].start < have[j].end <= size)
    && (forall i, j :: 0 <= i < j < |have| && i != k ==> have[i].end < have[j].start)
    && (forall j :: k < j < |have| ==> have[k].start <= have[j].start)
  }

  /** Two neighbours that touch become one. */
  function Merged(have: seq<Chunk>, k: nat): seq<Chunk>
    requires k + 1 < |have|
  {
    var a, b := have[k], have[k + 1];
    have[..k] + [Chunk(a.start, if a.end < b.end then b.end else a.end)] + have[k + 2..]
  }

  lemma {:induction false} MergeKeeps(have: seq<Chunk>, k: nat, size: nat)
    requires Joinable(have, k, size) && k + 1 < |have| && have[k].end >= have[k + 1].start
    ensures Joinable(Merged(have, k), k, size)
  {
    var m := Merged(have, k);
    assert forall j :: 0 <= j < |m| ==> m[j] == if j < k then have[j] else if j == k then m[k] else have[j + 1];
  }

  lemma {:induction false} MergedAt(have: seq<Chunk>, k: nat, j: nat)
    requires k + 1 < |have| && j < |have| - 1
    ensures |Merged(have, k)| == |have| - 1
    ensures j < k ==> Merged(have, k)[j] == have[j]
    ensures j > k ==> Merged(have, k)[j] == have[j + 1]
    ensures j == k ==> Merged(have, k)[k].start == have[k].start
    ensures j == k ==> Merged(have, k)[k].end == if have[k].end < have[k + 1].end then have[k + 1].end else have[k].end
  {
  }

  lemma {:induction false} MergeCovers(have: seq<Chunk>, k: nat, size: nat, i: nat)
    requires Joinable(have, k, size) && k + 1 < |have| && have[k].end >= have[k + 1].start
    ensures Covers(Merged(have, k), i) <==> Covers(have, i)
  {
    if Covers(have, i) {
      var j :| 0 <= j < |have| && Holds(have[j], i);
      CoveredAfterMerge(have, k, size, i, j);
    }
    if Covers(Merged(have, k), i) {
      var j :| 0 <= j < |Merged(have, k)| && Holds(Merged(have, k)[j], i);
      MergedAt(have, k, j);
      var l := if j < k then j else if j > k then j + 1 else if i < have[k].end then k else k + 1;
      assert Holds(have[l], i);
    }
  }

  lemma {:induction false} CoveredAfterMerge(have: seq<Chunk>, k: nat, size: nat, i: nat, j: nat)
    requires Joinable(have, k, size) && k + 1 < |have| && have[k].end >= have[k + 1].start
    requires j < |have| && Holds(have[j], i)
    ensures Covers(Merged(have, k), i)
  {
    var l := if j <= k then j else j - 1;
    MergedAt(have, k, l);
    assert Holds(Merged(have, k)[l], i);
  }

  method Join(have: seq<Chunk>, k: nat, ghost size: nat) returns (r: seq<Chunk>)
    requires Joinable(have, k, size)
    ensures Separated(r, size) && forall i: nat :: Covers(r, i) <==> Covers(have, i)
  {
    r := have;
    while k + 1 < |r| && r[k].end >= r[k + 1].start
      invariant Joinable(r, k, size) && forall i: nat :: Covers(r, i) <==> Covers(have, i)
      decreases |r|
    {
      MergeKeeps(r, k, size);
      forall i: nat ensures Covers(Merged(r, k), i) <==> Covers(r, i) {
        MergeCovers(r, k, size, i);
      }
      r := Merged(r, k);
    }
  }

  class StoreState {
    const size: nat
    var have: seq<Chunk>
    const buf: array<Byte>

    ghost predicate Valid()
      reads this
    {
      buf.Length == size && Separated(have, size)
    }

    constructor (size: nat)
      ensures Valid() && this.size == size && have == [] && fresh(buf)
    {
      this.size := size;
      have := [];
      buf := new Byte[size];
    }

    /** A list with a gap, or that does not reach from 0 to the end. */
    method Gap() returns (g: bool)
      requires Valid()
      ensures g <==> have != [Chunk(0, size)]
    {
      if have == [] {
        return true;
      }
      if have[0].start != 0 {
        return true;
      }
      for c := 0 to |have|
        invariant c <= 1
      {
        if c > 0 && have[c - 1].end != have[c].start {
          return true;
        }
      }
      g := have[|have| - 1].end != size;
    }

    /** Complete exactly when the block is not empty and every byte has arrived. */
    method IsComplete() returns (complete: bool)
      requires Valid()
      ensures complete <==> size > 0 && forall i :: 0 <= i < size ==> Covers(have, i)
    {
      complete := false;
      if have != [] && have[0].start == 0 && have[0].end == size {
        var g := Gap();
        complete := !g;
      }
      CoversAll(have, size);
    }

    /** The bytes of data become bytes start to start + |data|, unless they have
        all arrived before. */
    method AddChunk(start: nat, data: seq<Byte>) returns (ok: bool)
      requires Valid()
      modifies this`have, buf
      ensures Valid() && ok == (data != [] && start + |data| <= size)
      ensures !ok ==> have == old(have) && buf[..] == old(buf[..])
      ensures ok ==> forall i: nat :: Covers(have, i) <==> Covers(old(have), i) || start <= i < start + |data|
      ensures ok ==> buf[..] == Written(old(buf[..]), start, data)
                     || (buf[..] == old(buf[..]) && Within(old(have), start, start + |data|))
    {
      var end := start + |data|;
      if start >= end || end > size {
        return false;
      }
      var l := 0;
      while l < |have|
        invariant 0 <= l <= |have| && (l > 0 ==> have[l - 1].end < start)
      {
        var c := have[l];
        if c.start <= start && start <= c.end {
          if end > c.end {
            CopyIn(start, data);
            Extended(have, l, start, end, size);
            have := Join(have[l := Chunk(c.start, end)], l, size);
          } else {
            assert Holds(c, start);
          }
          return true;
        }
        if start < c.start {
          break;
        }
        l := l + 1;
      }
      InsertedJoinable(have, l, start, end, size);
      forall i: nat ensures Covers(With(have, l, Chunk(start, end)), i) <==> Covers(have, i) || start <= i < end {
        InsertedCovers(have, l, Chunk(start, end), i);
      }
      CopyIn(start, data);
      have := Join(With(have, l, Chunk(start, end)), l, size);
      ok := true;
    }

    /** memmove. */
    method CopyIn(start: nat, data: seq<Byte>)
      requires start + |data| <= buf.Length
      modifies buf
      ensures buf[..] == Written(old(buf[..]), start, data)
    {
      for i := 0 to |data|
        invariant forall j :: 0 <= j < buf.Length ==>
                    buf[j] == if start <= j < start + i then data[j - start] else old(buf[j])
      {
        buf[start + i] := data[i];
      }
    }
  }

  function Written(buf: seq<Byte>, start: nat, data: seq<Byte>): (r: seq<Byte>)
    requires start + |data| <= |buf|
    ensures |r| == |buf|
    ensures forall j :: 0 <= j < |buf| ==> r[j] == if start <= j < start + |data| then data[j - start] else buf[j]
  {
    buf[..start] + data + buf[start + |data|..]
  }

  ghost predicate Within(have: seq<Chunk>, start: nat, end: nat) {
    forall i :: start <= i < end ==> Covers(have, i)
  }

  lemma {:induction false} CoversAll(have: seq<Chunk>, size: nat)
    requires Separated(have, size)
    ensures have == [Chunk(0, size)] ==> size > 0 && forall i :: 0 <= i < size ==> Covers(have, i)
    ensures size > 0 && (forall i :: 0 <= i < size ==> Covers(have, i)) ==> have == [Chunk(0, size)]
  {
    if have == [Chunk(0, size)] {
      forall i | 0 <= i < size ensures Covers(have, i) {
        assert Holds(have[0], i);
      }
    }
    if size > 0 && forall i :: 0 <= i < size ==> Covers(have, i) {
      assert Covers(have, 0);
      assert have[0].start == 0;
      if have[0].end < size {
        assert Covers(have, have[0].end);
        var j :| 0 <= j < |have| && Holds(have[j], have[0].end);
        assert false;
      }
      FirstIsShort(have, size);
    }
  }

  lemma {:induction false} FirstIsShort(have: seq<Chunk>, size: nat)
    requires Separated(have, size)
    ensures |have| > 1 ==> have[0].end < size
  {
    if |have| > 1 {
      assert have[0].end < have[1].start < have[1].end <= size;
    }
  }

  /** Lengthening a chunk. */
  lemma {:induction false} Extended(have: seq<Chunk>, l: nat, start: nat, end: nat, size: nat)
    requires Separated(have, size) && l < |have| && have[l].start <= start <= have[l].end < end <= size
    ensures Joinable(have[l := Chunk(have[l].start, end)], l, size)
    ensures forall i: nat :: Covers(have[l := Chunk(have[l].start, end)], i) <==> Covers(have, i) || start <= i < end
  {
    var h := have[l := Chunk(have[l].start, end)];
    forall i: nat ensures Covers(h, i) <==> Covers(have, i) || start <= i < end {
      if Covers(have, i) {
        var j :| 0 <= j < |have| && Holds(have[j], i);
        assert Holds(h[j], i);
      } else if start <= i < end {
        assert Holds(h[l], i);
      }
      if Covers(h, i) {
        var j :| 0 <= j < |h| && Holds(h[j], i);
        assert j != l ==> Holds(have[j], i);
        assert j == l && i < start ==> Holds(have[l], i);
      }
    }
  }

  /** A new chunk in its place. */
  function With(have: seq<Chunk>, l: nat, c: Chunk): (h: seq<Chunk>)
    requires l <= |have|
    ensures |h| == |have| + 1 && h[l] == c
    ensures forall j :: 0 <= j < l ==> h[j] == have[j]
    ensures forall j :: l < j < |h| ==> h[j] == have[j - 1]
  {
    have[..l] + [c] + have[l..]
  }

  lemma {:induction false} InsertedCovers(have: seq<Chunk>, l: nat, c: Chunk, i: nat)
    requires l <= |have|
    ensures Covers(With(have, l, c), i) <==> Covers(have, i) || Holds(c, i)
  {
    var h := With(have, l, c);
    if Covers(have, i) {
      var j :| 0 <= j < |have| && Holds(have[j], i);
      var k := if j < l then j else j + 1;
      assert Holds(h[k], i);
    } else if Holds(c, i) {
      assert Holds(h[l], i);
    }
    if Covers(h, i) {
      var j :| 0 <= j < |h| && Holds(h[j], i);
      if j != l {
        var k := if j < l then j else j - 1;
        assert Holds(have[k], i);
      }
    }
  }

  lemma {:induction false} InsertedJoinable(have: seq<Chunk>, l: nat, start: nat, end: nat, size: nat)
    requires Separated(have, size) && l <= |have| && start < end <= size
    requires (l > 0 ==> have[l - 1].end < start) && (l < |have| ==> start < have[l].start)
    ensures Joinable(With(have, l, Chunk(start, end)), l, size)
  {
    var h := With(have, l, Chunk(start, end));
    forall i, j | 0 <= i < j < |h| && i != l ensures h[i].end < h[j].start {
      if j == l {
        assert i < l - 1 ==> have[i].end < have[l - 1].start;
      }
    }
    forall j | l < j < |h| ensures h[l].start <= h[j].start {
      assert j - 1 > l ==> have[l].end < have[j - 1].start;
    }
  }

  // ---------- a block in fragments ----------

  datatype Fragment = Fragment(offset: nat, data: seq<Byte>)

  /** The fragment carries the block's own bytes. */
  predicate PieceOf(block: seq<Byte>, f: Fragment) {
    f.offset + |f.data| <= |block| && f.data == block[f.offset..f.offset + |f.data|]
  }

  /** Some fragment that is not empty holds byte i. */
  ghost predicate Arrives(fs: seq<Fragment>, i: nat) {
    exists k :: 0 <= k < |fs| && fs[k].offset <= i < fs[k].offset + |fs[k].data|
  }

  /** How many pieces of at most mtu bytes n bytes take. */
  function FragmentCount(n: nat, mtu: nat): nat
    requires mtu > 0
  {
    if n == 0 then 0 else 1 + FragmentCount(if n < mtu then 0 else n - mtu, mtu)
  }

  /** dhash_store::start: consecutive pieces of at most mtu bytes. */
  method Fragments(block: seq<Byte>, mtu: nat) returns (fs: seq<Fragment>)
    requires mtu > 0
    ensures |fs| == FragmentCount(|block|, mtu)
    ensures forall k :: 0 <= k < |fs| ==> PieceOf(block, fs[k]) && 0 < |fs[k].data| <= mtu
    ensures forall k :: 0 <= k < |fs| - 1 ==> |fs[k].data| == mtu
    ensures forall k :: 0 <= k < |fs| ==> fs[k].offset == if k == 0 then 0 else fs[k - 1].offset + |fs[k - 1].data|
    ensures forall i :: 0 <= i < |block| ==> Arrives(fs, i)
  {
    fs := [];
    var nstored := 0;
    while nstored < |block|
      invariant nstored <= |block| && |fs| + FragmentCount(|block| - nstored, mtu) == FragmentCount(|block|, mtu)
      invariant CutUpTo(block, mtu, fs, nstored)
    {
      var chunklen := if mtu < |block| - nstored then mtu else |block| - nstored;
      var f := Fragment(nstored, block[nstored..nstored + chunklen]);
      CutFurther(block, mtu, fs, nstored, f);
      fs := fs + [f];
      nstored := nstored + chunklen;
    }
    AllButLast(block, mtu, fs, nstored);
  }

  /** A piece that another one follows is as long as possible. */
  lemma {:induction false} AllButLast(block: seq<Byte>, mtu: nat, fs: seq<Fragment>, n: nat)
    requires CutUpTo(block, mtu, fs, n)
    ensures forall k :: 0 <= k < |fs| - 1 ==> |fs[k].data| == mtu
    ensures forall k :: 0 <= k < |fs| ==> fs[k].offset == if k == 0 then 0 else fs[k - 1].offset + |fs[k - 1].data|
  {
    forall k | 0 <= k < |fs| - 1 ensures |fs[k].data| == mtu {
      var l := k + 1;
      assert PieceOf(block, fs[l]) && fs[l].offset == fs[l - 1].offset + |fs[l - 1].data|;
    }
  }

  /** The fragments are the first n bytes, piece after piece. */
  ghost predicate CutUpTo(block: seq<Byte>, mtu: nat, fs: seq<Fragment>, n: nat) {
    && n == (if fs == [] then 0 else fs[|fs| - 1].offset + |fs[|fs| - 1].data|)
    && (forall k :: 0 <= k < |fs| ==> PieceOf(block, fs[k]) && 0 < |fs[k].data| <= mtu)
    && (forall k :: 0 <= k < |fs| ==> |fs[k].data| == mtu || fs[k].offset + |fs[k].data| == |block|)
    && (forall k :: 0 <= k < |fs| ==> fs[k].offset == if k == 0 then 0 else fs[k - 1].offset + |fs[k - 1].data|)
    && forall i :: 0 <= i < n ==> Arrives(fs, i)
  }

  lemma {:induction false} CutFurther(block: seq<Byte>, mtu: nat, fs: seq<Fragment>, n: nat, f: Fragment)
    requires CutUpTo(block, mtu, fs, n) && f.offset == n && PieceOf(block, f) && 0 < |f.data| <= mtu
    requires |f.data| == mtu || n + |f.data| == |block|
    ensures CutUpTo(block, mtu, fs + [f], n + |f.data|)
  {
    forall i | 0 <= i < n + |f.data| ensures Arrives(fs + [f], i) {
      ArrivesLater(fs, f, i);
    }
  }

  lemma {:induction false} ArrivesLater(fs: seq<Fragment>, f: Fragment, i: nat)
    ensures Arrives(fs + [f], i) <==> Arrives(fs, i) || f.offset <= i < f.offset + |f.data|
  {
    var gs := fs + [f];
    if Arrives(fs, i) {
      var k :| 0 <= k < |fs| && fs[k].offset <= i < fs[k].offset + |fs[k].data|;
      assert gs[k] == fs[k];
    }
    assert gs[|fs|] == f;
    if Arrives(gs, i) {
      var k :| 0 <= k < |gs| && gs[k].offset <= i < gs[k].offset + |gs[k].data|;
      assert k < |fs| ==> fs[k] == gs[k];
    }
  }

  /** Every byte that has arrived is the block's. */
  ghost predicate Faithful(buf: seq<Byte>, have: seq<Chunk>, block: seq<Byte>)
    requires |buf| == |block|
  {
    forall i :: 0 <= i < |block| && Covers(have, i) ==> buf[i] == block[i]
  }

  /** Pieces of one block in any order, repeated or overlapping, from any number of
      senders: the state is complete exactly when the pieces cover the block, and
      its buffer then is the block. */
  method Deliver(block: seq<Byte>, fs: seq<Fragment>) returns (complete: bool, out: seq<Byte>)
    requires forall k :: 0 <= k < |fs| ==> PieceOf(block, fs[k])
    ensures complete <==> block != [] && forall i :: 0 <= i < |block| ==> Arrives(fs, i)
    ensures complete ==> out == block
  {
    var st := new StoreState(|block|);
    for k := 0 to |fs|
      invariant st.Valid() && st.size == |block| && fresh(st) && fresh(st.buf)
      invariant forall i: nat :: Covers(st.have, i) <==> Arrives(fs[..k], i)
      invariant Faithful(st.buf[..], st.have, block)
    {
      ghost var have, buf := st.have, st.buf[..];
      var ok := st.AddChunk(fs[k].offset, fs[k].data);
      forall i: nat ensures Arrives(fs[..k + 1], i) <==>
        Arrives(fs[..k], i) || fs[k].offset <= i < fs[k].offset + |fs[k].data| {
        assert fs[..k + 1] == fs[..k] + [fs[k]];
        ArrivesLater(fs[..k], fs[k], i);
      }
      if ok {
        StillFaithful(block, fs[k], have, buf, st.have, st.buf[..]);
      }
    }
    assert fs[..|fs|] == fs;
    complete := st.IsComplete();
    out := st.buf[..];
  }

  lemma {:induction false} StillFaithful(block: seq<Byte>, f: Fragment, have: seq<Chunk>, buf: seq<Byte>,
                                         have': seq<Chunk>, buf': seq<Byte>)
    requires PieceOf(block, f) && |buf| == |buf'| == |block| && Faithful(buf, have, block)
    requires forall i: nat :: Covers(have', i) <==> Covers(have, i) || f.offset <= i < f.offset + |f.data|
    requires buf' == Written(buf, f.offset, f.data) || (buf' == buf && Within(have, f.offset, f.offset + |f.data|))
    ensures Faithful(buf', have', block)
  {
  }

  /** What one sender sends, in any order and with repeats but nothing left out. */
  method SendAndDeliver(block: seq<Byte>, mtu: nat, order: seq<nat>) returns (complete: bool, out: seq<Byte>)
    requires mtu > 0 && block != []
    requires forall k :: 0 <= k < FragmentCount(|block|, mtu) ==> k in order
    ensures complete && out == block
  {
    var fs := Fragments(block, mtu);
    var sent: seq<Fragment> := [];
    for i := 0 to |order|
      invariant forall k :: 0 <= k < |sent| ==> PieceOf(block, sent[k])
      invariant forall j :: 0 <= j < i && order[j] < |fs| ==> fs[order[j]] in sent
    {
      if order[i] < |fs| {
        sent := sent + [fs[order[i]]];
      }
    }
    forall i | 0 <= i < |block| ensures Arrives(sent, i) {
      assert Arrives(fs, i);
      var k :| 0 <= k < |fs| && fs[k].offset <= i < fs[k].offset + |fs[k].data|;
      assert k in order;
      assert fs[k] in sent;
    }
    complete, out := Deliver(block, sent);
  }
}
