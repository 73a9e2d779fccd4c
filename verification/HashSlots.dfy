/** The 20 bytes of a merkle_hash (merkle/merkle_hash.C, merkle/merkle_hash.h) and
    the loops over them: they compute the slots, prefixes and the order of the
    number the bytes stand for, least significant byte first. */
module HashSlots {
  import opened Ids
  import opened Slots

  const SIZE: nat := 20
  const BITS: nat := 160

  // ---------- numbers as bits, least significant first ----------

  function Unit(on: bool): nat {
    if on then 1 else 0
  }

  function Num(bits: seq<bool>): nat {
    if bits == [] then 0 else Unit(bits[0]) + 2 * Num(bits[1..])
  }

  lemma {:induction false} NumSplit(bits: seq<bool>, n: nat)
    requires n <= |bits|
    ensures Num(bits) == Num(bits[..n]) + Pow2(n) * Num(bits[n..]) && Num(bits[..n]) < Pow2(n)
  {
    if n == 0 {
      assert bits[n..] == bits;
    } else {
      var rest, front, back := bits[1..], bits[..n], bits[n..];
      NumSplit(rest, n - 1);
      assert rest[n - 1..] == back && rest[..n - 1] == front[1..];
      Doubled(Unit(bits[0]), Num(front[1..]), Pow2(n - 1), Num(back));
    }
  }

  lemma {:induction false} Doubled(u: nat, low: nat, p: nat, x: nat)
    requires u <= 1 && low < p
    ensures u + 2 * (low + p * x) == u + 2 * low + (2 * p) * x && u + 2 * low < 2 * p
  {
  }

  lemma {:induction false} NumPush(on: bool, bits: seq<bool>)
    ensures Num([on] + bits) == Unit(on) + 2 * Num(bits)
  {
    assert ([on] + bits)[1..] == bits;
  }

  /** The bit position below slot `d - 1`, where the prefix of length `d` starts. */
  function Cut(d: nat): nat
    requires d <= 27
  {
    if d == 27 then 0 else BITS - 6 * d
  }

  lemma {:induction false} FanIsPow2(d: nat)
    requires d <= 26
    ensures Cut(d + 1) < Cut(d) && Fan(d) == Pow2(Cut(d) - Cut(d + 1))
  {
    var w := Cut(d) - Cut(d + 1);
    Pow2Nibble(w - 4);
    assert Pow2(w - 4) == if d < 26 then 4 else 1;
  }

  lemma {:induction false} DivMod(x: nat, low: nat, f: nat, top: nat)
    requires low < f && x == low + f * top
    ensures x / f == top && x % f == low
  {
    assert x / f == top by {
      assert (x - low) == f * top;
      Quotient(top, low, f);
    }
  }

  lemma {:induction false} Quotient(top: nat, low: nat, f: nat)
    requires low < f
    ensures (low + f * top) / f == top
  {
    var q := (low + f * top) / f;
    var r := (low + f * top) % f;
    assert f * q + r == low + f * top;
    if q < top {
      NextBlock(q, top, f);
    } else if top < q {
      NextBlock(top, q, f);
    }
  }

  /** A prefix is the number of the bits above the cut, a slot that of the bits
      between two cuts. */
  lemma {:induction false} PrefixIsTop(bits: seq<bool>, d: nat)
    requires |bits| == BITS && d <= 27
    ensures Prefix(Num(bits), d) == Num(bits[Cut(d)..])
    decreases 27 - d
  {
    if d == 27 {
      assert bits[Cut(d)..] == bits;
    } else {
      PrefixIsTop(bits, d + 1);
      SlotSplit(bits, d);
    }
  }

  lemma {:induction false} SlotSplit(bits: seq<bool>, d: nat)
    requires |bits| == BITS && d <= 26
    ensures Cut(d + 1) <= Cut(d)
    ensures Num(bits[Cut(d + 1)..]) / Fan(d) == Num(bits[Cut(d)..])
    ensures Num(bits[Cut(d + 1)..]) % Fan(d) == Num(bits[Cut(d + 1)..Cut(d)])
  {
    FanIsPow2(d);
    var upper, w := bits[Cut(d + 1)..], Cut(d) - Cut(d + 1);
    NumSplit(upper, w);
    assert upper[..w] == bits[Cut(d + 1)..Cut(d)] && upper[w..] == bits[Cut(d)..];
    DivMod(Num(upper), Num(upper[..w]), Fan(d), Num(upper[w..]));
  }

  lemma {:induction false} SlotIsBits(bits: seq<bool>, d: nat)
    requires |bits| == BITS && d <= 26
    ensures Cut(d + 1) <= Cut(d)
    ensures Slot(Num(bits), d) == Num(bits[Cut(d + 1)..Cut(d)])
  {
    PrefixIsTop(bits, d + 1);
    SlotSplit(bits, d);
  }

  lemma {:induction false} NumIsKey(bits: seq<bool>)
    requires |bits| == BITS
    ensures Num(bits) < KEYS
  {
    NumSplit(bits, BITS);
    assert bits[..BITS] == bits;
    var n := BITS;
    RingIsPow2(n);
  }

  /** A number whose slots from `d` on are zero is its prefix, shifted up. */
  lemma {:induction false} ZeroSlots(k: Key, d: nat)
    requires d <= 27 && forall e :: d <= e < 27 ==> Slot(k, e) == 0
    ensures k == Prefix(k, d) * Width(d)
    decreases 27 - d
  {
    if d < 27 {
      ZeroSlots(k, d + 1);
      SlotRange(k, d);
      assert Prefix(k, d + 1) == Fan(d) * Prefix(k, d);
      Grouped(Prefix(k, d), Fan(d), Width(d + 1));
    }
  }

  // ---------- bytes ----------

  function Mask(j: nat): bv8
    requires j < 8
  {
    if j == 0 then 0x01 else if j == 1 then 0x02 else if j == 2 then 0x04 else if j == 3 then 0x08
    else if j == 4 then 0x10 else if j == 5 then 0x20 else if j == 6 then 0x40 else 0x80
  }

  predicate Has(b: bv8, j: nat)
    requires j < 8
  {
    b & Mask(j) != 0
  }

  predicate BitIn(bytes: seq<bv8>, i: nat)
    requires i < 8 * |bytes|
  {
    Has(bytes[i / 8], i % 8)
  }

  function Eight(b: bv8): seq<bool> {
    [Has(b, 0), Has(b, 1), Has(b, 2), Has(b, 3), Has(b, 4), Has(b, 5), Has(b, 6), Has(b, 7)]
  }

  function BitsOf(bytes: seq<bv8>): (bits: seq<bool>)
    ensures |bits| == 8 * |bytes|
  {
    if bytes == [] then [] else Eight(bytes[0]) + BitsOf(bytes[1..])
  }

  lemma {:induction false} BitAt(bytes: seq<bv8>, i: nat)
    requires i < 8 * |bytes|
    ensures BitsOf(bytes)[i] == BitIn(bytes, i)
  {
    if i < 8 {
      EightAt(bytes[0], i);
    } else {
      BitAt(bytes[1..], i - 8);
      assert bytes[1..][(i - 8) / 8] == bytes[i / 8];
    }
  }

  lemma {:induction false} EightAt(b: bv8, i: nat)
    requires i < 8
    ensures Eight(b)[i] == Has(b, i)
  {
  }

  function WithBit(b: bv8, j: nat, on: bool): bv8
    requires j < 8
  {
    if on then b | Mask(j) else b & !Mask(j)
  }

  lemma {:induction false} OneBitChanges(b: bv8, j: nat, on: bool, m: nat)
    requires j < 8 && m < 8
    ensures Has(WithBit(b, j, on), m) == if m == j then on else Has(b, m)
  {
  }

  lemma {:induction false} BitChangesAt(bytes: seq<bv8>, i: nat, on: bool, b: bv8, m: nat)
    requires i < 8 * |bytes| && m < 8 * |bytes| && b == WithBit(bytes[i / 8], i % 8, on)
    ensures BitIn(bytes[i / 8 := b], m) == if m == i then on else BitIn(bytes, m)
  {
    OneBitChanges(bytes[i / 8], i % 8, on, m % 8);
  }

  lemma {:induction false} BitChanges(bytes: seq<bv8>, i: nat, on: bool, b: bv8)
    requires i < 8 * |bytes| && b == WithBit(bytes[i / 8], i % 8, on)
    ensures BitsOf(bytes[i / 8 := b]) == BitsOf(bytes)[i := on]
  {
    var after, wanted := BitsOf(bytes[i / 8 := b]), BitsOf(bytes)[i := on];
    forall m: nat | m < 8 * |bytes| ensures after[m] == wanted[m] {
      BitChangesAt(bytes, i, on, b, m);
      BitAt(bytes, m);
      BitAt(bytes[i / 8 := b], m);
    }
  }

  /** The value of one byte. */
  function ByteNum(b: bv8): nat {
    Unit(Has(b, 0)) + 2 * Unit(Has(b, 1)) + 4 * Unit(Has(b, 2)) + 8 * Unit(Has(b, 3))
    + 16 * Unit(Has(b, 4)) + 32 * Unit(Has(b, 5)) + 64 * Unit(Has(b, 6)) + 128 * Unit(Has(b, 7))
  }

  lemma {:induction false} BytesInOrder(a: bv8, b: bv8)
    requires a < b
    ensures ByteNum(a) < ByteNum(b)
  {
  }

  lemma {:induction false} NumOfEight(s: seq<bool>)
    requires |s| == 8
    ensures Num(s) == Unit(s[0]) + 2 * Unit(s[1]) + 4 * Unit(s[2]) + 8 * Unit(s[3])
                      + 16 * Unit(s[4]) + 32 * Unit(s[5]) + 64 * Unit(s[6]) + 128 * Unit(s[7])
  {
    var s1, s2, s3, s4, s5, s6, s7 := s[1..], s[2..], s[3..], s[4..], s[5..], s[6..], s[7..];
    assert s1[1..] == s2 && s2[1..] == s3 && s3[1..] == s4 && s4[1..] == s5 && s5[1..] == s6 && s6[1..] == s7;
    assert s7 == [s[7]];
    assert Num(s7) == Unit(s[7]);
    assert Num(s6) == Unit(s[6]) + 2 * Num(s7);
    assert Num(s5) == Unit(s[5]) + 2 * Num(s6);
    assert Num(s4) == Unit(s[4]) + 2 * Num(s5);
    assert Num(s3) == Unit(s[3]) + 2 * Num(s4);
    assert Num(s2) == Unit(s[2]) + 2 * Num(s3);
    assert Num(s1) == Unit(s[1]) + 2 * Num(s2);
  }

  lemma {:induction false} ByteIsBits(bytes: seq<bv8>, i: nat)
    requires i < |bytes|
    ensures Num(BitsOf(bytes)[8 * i..8 * i + 8]) == ByteNum(bytes[i])
  {
    ByteAt(bytes, i);
    NumOfEight(Eight(bytes[i]));
  }

  lemma {:induction false} ByteAt(bytes: seq<bv8>, i: nat)
    requires i < |bytes|
    ensures BitsOf(bytes)[8 * i..8 * i + 8] == Eight(bytes[i])
  {
    if i > 0 {
      ByteAt(bytes[1..], i - 1);
    }
  }

  /** What the bytes from `i` on stand for. */
  function From(bytes: seq<bv8>, i: nat): nat
    requires i <= |bytes|
  {
    Num(BitsOf(bytes)[8 * i..])
  }

  lemma {:induction false} FromStep(bytes: seq<bv8>, i: nat)
    requires i < |bytes|
    ensures From(bytes, i) == ByteNum(bytes[i]) + 256 * From(bytes, i + 1) && ByteNum(bytes[i]) < 256
  {
    var bits := BitsOf(bytes);
    var upper, w := bits[8 * i..], 8;
    NumSplit(upper, w);
    assert upper[..w] == bits[8 * i..8 * i + 8] && upper[w..] == bits[8 * (i + 1)..];
    ByteIsBits(bytes, i);
    Pow2Nibble(w - 4);
    Pow2Nibble(w - 8);
  }

  lemma {:induction false} FromDecides(a: seq<bv8>, b: seq<bv8>, i: nat)
    requires |a| == |b| && i <= |a| && From(a, i) < From(b, i)
    ensures Num(BitsOf(a)) < Num(BitsOf(b))
  {
    var x, y := BitsOf(a), BitsOf(b);
    NumSplit(x, 8 * i);
    NumSplit(y, 8 * i);
    Carry(Num(x[..8 * i]), Pow2(8 * i), From(a, i), From(b, i));
  }

  lemma {:induction false} Carry(low: nat, p: nat, m: nat, n: nat)
    requires low < p && m < n
    ensures low + p * m < p * n
  {
    NextBlock(m, n, p);
  }

  /** The most significant byte that differs decides. */
  lemma {:induction false} BytesDecide(a: seq<bv8>, b: seq<bv8>, i: nat)
    requires |a| == |b| && i < |a| && From(a, i + 1) == From(b, i + 1)
    ensures a[i] < b[i] ==> Num(BitsOf(a)) < Num(BitsOf(b))
    ensures a[i] == b[i] ==> From(a, i) == From(b, i)
  {
    FromStep(a, i);
    FromStep(b, i);
    if a[i] < b[i] {
      BytesInOrder(a[i], b[i]);
      FromDecides(a, b, i);
    }
  }

  // ---------- writing a slot ----------

  ghost predicate ReadDown(bits: seq<bool>, low: nat, top: nat, val: nat) {
    low <= top <= |bits| && val == Num(bits[low..top])
  }

  lemma {:induction false} NothingRead(bits: seq<bool>, top: nat)
    requires top <= |bits|
    ensures ReadDown(bits, top, top, 0)
  {
  }

  lemma {:induction false} NextBit(bits: seq<bool>, high: nat, top: nat, val: nat)
    requires ReadDown(bits, high + 1, top, val)
    ensures ReadDown(bits, high, top, 2 * val + Unit(bits[high]))
  {
    assert bits[high..top][1..] == bits[high + 1..top];
  }

  /** The lowest of up to six bits below and at `high`. */
  function Lowest(high: nat): nat {
    if high < 5 then 0 else high - 5
  }

  /** val >> m */
  function Shifted(val: nat, m: nat): nat {
    if m == 0 then val else Shifted(val / 2, m - 1)
  }

  function ToBits(val: nat, w: nat): (bits: seq<bool>)
    ensures |bits| == w
  {
    if w == 0 then [] else [val % 2 == 1] + ToBits(val / 2, w - 1)
  }

  lemma {:induction false} BitOfShifted(val: nat, w: nat, m: nat)
    requires m < w
    ensures ToBits(val, w)[m] == (Shifted(val, m) % 2 == 1)
  {
    if m > 0 {
      BitOfShifted(val / 2, w - 1, m - 1);
    }
  }

  lemma {:induction false} NumOfBits(val: nat, w: nat)
    requires val < Pow2(w)
    ensures Num(ToBits(val, w)) == val
  {
    if w > 0 {
      NumOfBits(val / 2, w - 1);
      NumPush(val % 2 == 1, ToBits(val / 2, w - 1));
    }
  }

  /** The bits of slot `d` are replaced by those of `val`. */
  ghost predicate Overwritten(bits: seq<bool>, bits': seq<bool>, d: nat, val: nat)
    requires d <= 26 && |bits| == BITS
  {
    && Cut(d + 1) < Cut(d)
    && bits' == bits[..Cut(d + 1)] + ToBits(val, Cut(d) - Cut(d + 1)) + bits[Cut(d)..]
  }

  /** Slot `d` of `k'` is `val`; everything else is as in `k`. */
  ghost predicate SlotSet(k: Key, k': Key, d: nat, val: nat)
    requires d <= 26
  {
    && Prefix(k', d) == Prefix(k, d) && Slot(k', d) == val
    && forall e :: d < e < 27 ==> Slot(k', e) == Slot(k, e)
  }

  lemma {:induction false} OverwrittenSlot(bits: seq<bool>, bits': seq<bool>, d: nat, val: nat)
    requires d <= 26 && |bits| == BITS && val < Fan(d) && Overwritten(bits, bits', d, val)
    ensures Num(bits) < KEYS && Num(bits') < KEYS && SlotSet(Num(bits), Num(bits'), d, val)
  {
    NumIsKey(bits);
    NumIsKey(bits');
    PrefixIsTop(bits, d);
    PrefixIsTop(bits', d);
    assert bits'[Cut(d)..] == bits[Cut(d)..];
    FanIsPow2(d);
    SlotIsBits(bits', d);
    assert bits'[Cut(d + 1)..Cut(d)] == ToBits(val, Cut(d) - Cut(d + 1));
    NumOfBits(val, Cut(d) - Cut(d + 1));
    forall e | d < e < 27 ensures Slot(Num(bits'), e) == Slot(Num(bits), e) {
      SlotIsBits(bits, e);
      SlotIsBits(bits', e);
      assert bits'[Cut(e + 1)..Cut(e)] == bits[Cut(e + 1)..Cut(e)];
    }
  }

  // ---------- cleared suffixes and children ----------

  lemma {:induction false} ClearedStep(k: Key, d: nat)
    requires d <= 26 && ClearSuffix(k, d) == k
    ensures Slot(k, d) == 0 && ClearSuffix(k, d + 1) == k
  {
    var q := Fan(d) * Prefix(k, d);
    Grouped(Prefix(k, d), Fan(d), Width(d + 1));
    WidthPositive(d + 1);
    BlockPrefix(q, k, d + 1);
    SlotRange(k, d);
  }

  lemma {:induction false} ClearedSlots(k: Key, d: nat, e: nat)
    requires d <= e <= 26 && ClearSuffix(k, d) == k
    ensures Slot(k, e) == 0
    decreases e - d
  {
    ClearedStep(k, d);
    if d < e {
      ClearedSlots(k, d + 1, e);
    }
  }

  /** Writing slot `d` of a cleared prefix yields the child's prefix. */
  lemma {:induction false} WrittenIsChild(k: Key, k': Key, d: nat, val: nat)
    requires d <= 26 && val < Fan(d) && SlotSet(k, k', d, val)
    ensures ClearSuffix(k, d) == k ==> k' == ChildPrefix(k, d, val)
  {
    if ClearSuffix(k, d) == k {
      SlotRange(k', d);
      forall e | d + 1 <= e < 27 ensures Slot(k', e) == 0 {
        ClearedSlots(k, d, e);
      }
      ZeroSlots(k', d + 1);
    }
  }

  /** The slots from `d` up to `i` have been cleared. */
  ghost predicate Cleared(k: Key, k': Key, d: nat, i: nat)
    requires d <= i <= 27
  {
    Prefix(k', d) == Prefix(k, d) && forall e :: d <= e < i ==> Slot(k', e) == 0
  }

  lemma {:induction false} ClearNext(k: Key, v: Key, v': Key, d: nat, i: nat)
    requires d <= i <= 26 && Cleared(k, v, d, i) && SlotSet(v, v', i, 0)
    ensures Cleared(k, v', d, i + 1)
  {
    PrefixWeaken(v', v, d, i);
    forall e | d <= e < i ensures Slot(v', e) == 0 {
      PrefixWeaken(v', v, e + 1, i);
      assert Slot(v, e) == 0;
    }
  }

  /** Whether two numbers are in order, as cmp answers it. */
  function Compared(a: int, b: int): int {
    if a < b then -1 else if a == b then 0 else 1
  }

  class MerkleHash {
    const bytes: array<bv8>

    ghost predicate Valid() {
      bytes.Length == SIZE
    }

    ghost function Bits(): (bits: seq<bool>)
      requires Valid()
      reads bytes
      ensures |bits| == BITS
    {
      BitsOf(bytes[..])
    }

    ghost function Value(): Key
      requires Valid()
      reads bytes
    {
      NumIsKey(Bits());
      Num(Bits())
    }

    /** The zero hash. */
    constructor ()
      ensures Valid() && fresh(bytes) && Value() == 0
    {
      bytes := new bv8[SIZE](_ => 0);
      new;
      ZeroBytes(bytes[..]);
    }

    function GetBit(i: nat): bool
      requires Valid() && i < BITS
      reads bytes
      ensures GetBit(i) == Bits()[i]
    {
      BitAt(bytes[..], i);
      Has(bytes[i / 8], i % 8)
    }

    method SetBit(i: nat, on: bool)
      requires Valid() && i < BITS
      modifies bytes
      ensures Bits() == old(Bits())[i := on]
    {
      ghost var before := bytes[..];
      BitChanges(before, i, on, WithBit(bytes[i / 8], i % 8, on));
      bytes[i / 8] := WithBit(bytes[i / 8], i % 8, on);
      assert bytes[..] == before[i / 8 := WithBit(before[i / 8], i % 8, on)];
    }

    /** read_slot */
    method ReadSlot(slotno: nat) returns (val: nat)
      requires Valid() && slotno <= 26
      ensures val == Slot(Value(), slotno) && val < 64
    {
      val := ReadBits(BITS - 6 * slotno - 1);
      SlotIsBits(Bits(), slotno);
      SlotRange(Value(), slotno);
    }

    /** Its loop: up to six bits from `top` down. */
    method ReadBits(top: nat) returns (val: nat)
      requires Valid() && top < BITS
      ensures ReadDown(Bits(), Lowest(top), top + 1, val)
    {
      val := 0;
      ghost var bits := Bits();
      var i, high := 0, top as int;
      NothingRead(bits, top + 1);
      while i < 6 && high >= 0
        invariant 0 <= i <= 6 && high == top - i && high >= -1
        invariant ReadDown(bits, high + 1, top + 1, val)
      {
        NextBit(bits, high, top + 1, val);
        val := 2 * val + Unit(GetBit(high));
        i := i + 1;
        high := high - 1;
      }
    }

    /** write_slot; the value has to fit the slot. */
    method WriteSlot(slotno: nat, val: nat)
      requires Valid() && slotno <= 26 && val < Fan(slotno)
      modifies bytes
      ensures SlotSet(old(Value()), Value(), slotno, val)
      ensures ClearSuffix(old(Value()), slotno) == old(Value()) ==> Value() == ChildPrefix(old(Value()), slotno, val)
    {
      ghost var bits := Bits();
      WriteBits(BITS - 6 * slotno - 1, val);
      AllWritten(bits, Bits(), Cut(slotno + 1), ToBits(val, Cut(slotno) - Cut(slotno + 1)), Cut(slotno));
      OverwrittenSlot(bits, Bits(), slotno, val);
      WrittenIsChild(Num(bits), Value(), slotno, val);
    }

    /** Its loop: the bits of `val` from the lowest of the slot up. */
    method WriteBits(high: nat, val: nat)
      requires Valid() && high < BITS && (high == 3 || high >= 5)
      modifies bytes
      ensures WrittenUp(old(Bits()), Bits(), Lowest(high), ToBits(val, high + 1 - Lowest(high)), high + 1)
    {
      ghost var bits := Bits();
      var low := if high == 3 then 0 else high - 5;
      ghost var mid := ToBits(val, high + 1 - low);
      var i := low;
      while i <= high
        invariant low <= i <= high + 1
        invariant WrittenUp(bits, Bits(), low, mid, i)
      {
        BitOfShifted(val, high + 1 - low, i - low);
        Replaced(bits, Bits(), low, mid, i);
        SetBit(i, Shifted(val, i - low) % 2 == 1);
        i := i + 1;
      }
    }

    /** clear_suffix */
    method ClearFrom(slotno: nat)
      requires Valid() && slotno <= 27
      modifies bytes
      ensures Value() == ClearSuffix(old(Value()), slotno)
    {
      ghost var k := Value();
      var i := slotno;
      while i < 27
        invariant slotno <= i <= 27
        invariant Cleared(k, Value(), slotno, i)
      {
        ghost var before := Value();
        WriteSlot(i, 0);
        ClearNext(k, before, Value(), slotno, i);
        i := i + 1;
      }
      ZeroSlots(Value(), slotno);
    }

    /** cmp: from the most significant byte down. */
    method Cmp(b: MerkleHash) returns (r: int)
      requires Valid() && b.Valid()
      ensures r == Compared(Value(), b.Value())
    {
      ghost var x, y := bytes[..], b.bytes[..];
      assert From(x, SIZE) == 0 == From(y, SIZE);
      var i: nat := SIZE;
      while i > 0
        invariant i <= SIZE && From(x, i) == From(y, i)
      {
        i := i - 1;
        BytesDecide(x, y, i);
        BytesDecide(y, x, i);
        if bytes[i] > b.bytes[i] {
          return 1;
        } else if bytes[i] < b.bytes[i] {
          return -1;
        }
      }
      assert BitsOf(x)[8 * i..] == BitsOf(x) && BitsOf(y)[8 * i..] == BitsOf(y);
      r := 0;
    }
  }

  lemma {:induction false} ZeroBytes(s: seq<bv8>)
    requires forall i :: 0 <= i < |s| ==> s[i] == 0
    ensures Num(BitsOf(s)) == 0
  {
    if s != [] {
      ZeroBytes(s[1..]);
      var bits, n := BitsOf(s), 8;
      assert bits[..n] == Eight(s[0]) && bits[n..] == BitsOf(s[1..]);
      NumSplit(bits, n);
      NumOfEight(Eight(s[0]));
      assert !Has(0, 0) && !Has(0, 1) && !Has(0, 2) && !Has(0, 3);
      assert !Has(0, 4) && !Has(0, 5) && !Has(0, 6) && !Has(0, 7);
    }
  }

  /** The bits from `low` up to `i` have been replaced by those of `mid`. */
  ghost predicate WrittenUp(bits: seq<bool>, bits': seq<bool>, low: nat, mid: seq<bool>, i: nat) {
    low <= i <= low + |mid| <= |bits| && bits' == bits[..low] + mid[..i - low] + bits[i..]
  }

  lemma {:induction false} Replaced(bits: seq<bool>, bits': seq<bool>, low: nat, mid: seq<bool>, i: nat)
    requires WrittenUp(bits, bits', low, mid, i) && i < low + |mid|
    ensures i < |bits'| && WrittenUp(bits, bits'[i := mid[i - low]], low, mid, i + 1)
  {
  }

  lemma {:induction false} AllWritten(bits: seq<bool>, bits': seq<bool>, low: nat, mid: seq<bool>, i: nat)
    requires WrittenUp(bits, bits', low, mid, i) && i == low + |mid|
    ensures bits' == bits[..low] + mid + bits[i..]
  {
    assert mid[..i - low] == mid;
  }

  /** prefix_match */
  method PrefixMatch(nslots: nat, a: MerkleHash, b: MerkleHash) returns (same: bool)
    requires a.Valid() && b.Valid() && nslots <= 27
    ensures same <==> Prefix(a.Value(), nslots) == Prefix(b.Value(), nslots)
  {
    WidthAtRoot();
    for i := 0 to nslots
      invariant Prefix(a.Value(), i) == Prefix(b.Value(), i)
    {
      var x := a.ReadSlot(i);
      var y := b.ReadSlot(i);
      PrefixStep(a.Value(), b.Value(), i);
      if x != y {
        MismatchStays(a.Value(), b.Value(), i + 1, nslots);
        return false;
      }
    }
    same := true;
  }

  lemma {:induction false} MismatchStays(a: Key, b: Key, d: nat, e: nat)
    requires d <= e <= 27 && Prefix(a, d) != Prefix(b, d)
    ensures Prefix(a, e) != Prefix(b, e)
  {
    if Prefix(a, e) == Prefix(b, e) {
      PrefixWeaken(a, b, d, e);
    }
  }
}
