/** Polynomials bit by bit, and the 32-bit words of tools/utils.C.

    A machine word is modelled as its 32 bits, bit 0 first, so that the shifts,
    masks and exclusive ors of the code are pointwise.  A word vector holds its
    most significant word first. */
module PolyBits {
  import opened Poly

  // ---------- bits of a number ----------

  function BitOf(a: nat, e: nat): bool {
    if e == 0 then a % 2 == 1 else BitOf(a / 2, e - 1)
  }

  function Shl(a: nat, n: nat): nat {
    if n == 0 then a else 2 * Shl(a, n - 1)
  }

  /** The number with the given bits, bit 0 first. */
  function ToNat(bits: seq<bool>): nat {
    if bits == [] then 0 else (if bits[0] then 1 else 0) + 2 * ToNat(bits[1..])
  }

  lemma {:induction false} BitZero(e: nat)
    ensures !BitOf(0, e)
  {
    if e > 0 {
      BitZero(e - 1);
    }
  }

  lemma {:induction false} BitToNat(bits: seq<bool>, e: nat)
    ensures BitOf(ToNat(bits), e) <==> e < |bits| && bits[e]
  {
    if bits == [] {
      BitZero(e);
    } else {
      HalfOf(ToNat(bits[1..]), if bits[0] then 1 else 0);
      if e > 0 {
        BitToNat(bits[1..], e - 1);
      }
    }
  }

  /** A number is its bits. */
  lemma {:induction false} SameBits(a: nat, b: nat)
    requires forall e: nat :: BitOf(a, e) == BitOf(b, e)
    ensures a == b
    decreases a + b
  {
    if a + b > 0 {
      assert BitOf(a, 0) == BitOf(b, 0);
      forall e: nat ensures BitOf(a / 2, e) == BitOf(b / 2, e) {
        assert BitOf(a, e + 1) == BitOf(b, e + 1);
      }
      SameBits(a / 2, b / 2);
      SameParts(a, b);
    }
  }

  lemma {:induction false} BitXor(a: nat, b: nat, e: nat)
    ensures BitOf(Xor(a, b), e) <==> BitOf(a, e) != BitOf(b, e)
  {
    XorParts(a, b);
    if e == 0 {
      OddSum(a, b);
    } else {
      BitXor(a / 2, b / 2, e - 1);
    }
  }

  lemma {:induction false} BitShl(a: nat, n: nat, e: nat)
    ensures BitOf(Shl(a, n), e) <==> e >= n && BitOf(a, e - n)
  {
    if n > 0 {
      HalfOf(Shl(a, n - 1), 0);
      if e > 0 {
        BitShl(a, n - 1, e - 1);
      }
    }
  }

  lemma {:induction false} BitAboveLen(a: nat, e: nat)
    requires e >= Len(a)
    ensures !BitOf(a, e)
  {
    if a == 0 {
      BitZero(e);
    } else {
      BitAboveLen(a / 2, e - 1);
    }
  }

  lemma {:induction false} TopBit(a: nat)
    requires a > 0
    ensures BitOf(a, Len(a) - 1)
  {
    if a / 2 > 0 {
      TopBit(a / 2);
      LenZero(a / 2);
    }
  }

  /** The length is read off the bits. */
  lemma {:induction false} LenFromBits(a: nat, n: nat)
    requires forall e: nat :: e >= n ==> !BitOf(a, e)
    ensures Len(a) <= n
  {
    if a > 0 {
      TopBit(a);
      LenZero(a);
    }
  }

  lemma {:induction false} LenAtLeast(a: nat, e: nat)
    requires BitOf(a, e)
    ensures Len(a) > e
  {
    if Len(a) <= e {
      BitAboveLen(a, e);
    }
  }

  lemma {:induction false} ShlAdd(a: nat, m: nat, n: nat)
    ensures Shl(Shl(a, m), n) == Shl(a, m + n)
  {
    if n > 0 {
      ShlAdd(a, m, n - 1);
    }
  }

  lemma {:induction false} ShlXor(a: nat, b: nat, n: nat)
    ensures Shl(Xor(a, b), n) == Xor(Shl(a, n), Shl(b, n))
  {
    if n > 0 {
      ShlXor(a, b, n - 1);
      XorDouble(Shl(a, n - 1), Shl(b, n - 1));
    }
  }

  lemma {:induction false} ShlMul(a: nat, b: nat, n: nat)
    ensures Mul(Shl(a, n), b) == Shl(Mul(a, b), n) && Mul(a, Shl(b, n)) == Shl(Mul(a, b), n)
  {
    if n > 0 {
      ShlMul(a, b, n - 1);
      MulDouble(Shl(a, n - 1), b);
      MulDouble(a, Shl(b, n - 1));
    }
  }

  lemma {:induction false} LenShl(a: nat, n: nat)
    requires a > 0
    ensures Shl(a, n) > 0 && Len(Shl(a, n)) == Len(a) + n
  {
    if n > 0 {
      LenShl(a, n - 1);
      LenDouble(Shl(a, n - 1));
    }
  }

  // ---------- words ----------

  function Clear(n: nat): (r: seq<bool>)
    ensures |r| == n && forall i :: 0 <= i < n ==> !r[i]
  {
    if n == 0 then [] else Clear(n - 1) + [false]
  }

  type Word = w: seq<bool> | |w| == 32 witness Clear(32)

  const ZERO: Word := Clear(32)

  function OneBit(b: nat): Word {
    seq(32, i => i == b)
  }

  function WXor(a: Word, b: Word): Word {
    seq(32, i requires 0 <= i < 32 => a[i] != b[i])
  }

  function WOr(a: Word, b: Word): Word {
    seq(32, i requires 0 <= i < 32 => a[i] || b[i])
  }

  /** w << n, the bits beyond 31 dropped. */
  function WShl(w: Word, n: nat): Word {
    seq(32, i requires 0 <= i < 32 => i >= n && w[i - n])
  }

  /** w >> n */
  function WShr(w: Word, n: nat): Word {
    seq(32, i requires 0 <= i < 32 => i + n < 32 && w[i + n])
  }

  // ---------- word vectors ----------

  type Vec = seq<Word>

  /** The coefficient of x^e; zero outside the vector. */
  function Coef(v: Vec, e: int): bool {
    0 <= e < 32 * |v| && v[|v| - 1 - e / 32][e % 32]
  }

  /** Bit j counted from the most significant end; zero beyond the last word. */
  function Lead(v: Vec, j: int): bool {
    0 <= j < 32 * |v| && v[j / 32][31 - j % 32]
  }

  lemma {:induction false} LeadIsCoef(v: Vec, j: int)
    ensures Lead(v, j) == Coef(v, 32 * |v| - 1 - j)
  {
  }

  function Flat(v: Vec): (r: seq<bool>)
    ensures |r| == 32 * |v|
    ensures forall e :: 0 <= e < |r| ==> r[e] == Coef(v, e)
  {
    seq(32 * |v|, e requires 0 <= e < 32 * |v| => Coef(v, e))
  }

  /** The polynomial a word vector stands for. */
  function Val(v: Vec): nat {
    ToNat(Flat(v))
  }

  lemma {:induction false} BitVal(v: Vec, e: nat)
    ensures BitOf(Val(v), e) == Coef(v, e)
  {
    BitToNat(Flat(v), e);
  }

  lemma {:induction false} ValFromBits(v: Vec, a: nat)
    requires forall e: nat :: Coef(v, e) == BitOf(a, e)
    ensures Val(v) == a
  {
    forall e: nat ensures BitOf(Val(v), e) == BitOf(a, e) {
      BitVal(v, e);
    }
    SameBits(Val(v), a);
  }

  lemma {:induction false} ValSame(v: Vec, w: Vec)
    requires forall e: nat :: Coef(v, e) == Coef(w, e)
    ensures Val(v) == Val(w)
  {
    forall e: nat ensures Coef(v, e) == BitOf(Val(w), e) {
      BitVal(w, e);
    }
    ValFromBits(v, Val(w));
  }

  /** No leading zero word, except that zero is one zero word. */
  predicate Normal(v: Vec) {
    |v| >= 1 && (|v| > 1 ==> v[0] != ZERO)
  }

  lemma {:induction false} LenVec(v: Vec)
    ensures Len(Val(v)) <= 32 * |v|
  {
    forall e: nat | e >= 32 * |v| ensures !BitOf(Val(v), e) {
      BitVal(v, e);
    }
    LenFromBits(Val(v), 32 * |v|);
  }

  lemma {:induction false} ClearIsZero(w: Word)
    ensures (forall i :: 0 <= i < 32 ==> !w[i]) ==> w == ZERO
  {
  }

  lemma {:induction false} NonzeroBit(w: Word) returns (b: nat)
    requires w != ZERO
    ensures b < 32 && w[b]
  {
    ClearIsZero(w);
    b :| 0 <= b < 32 && w[b];
  }

  /** In normal form the number of words follows from the degree. */
  lemma {:induction false} NormalLen(v: Vec)
    requires v != [] && v[0] != ZERO
    ensures Len(Val(v)) > 32 * (|v| - 1)
  {
    var b := NonzeroBit(v[0]);
    var e := 32 * (|v| - 1) + b;
    assert Coef(v, e);
    BitVal(v, e);
    LenAtLeast(Val(v), e);
  }

  lemma {:induction false} LenNormal(v: Vec)
    requires v != [] && Len(Val(v)) > 32 * (|v| - 1)
    ensures v[0] != ZERO
  {
    if v[0] == ZERO {
      forall e: nat | e >= 32 * (|v| - 1) ensures !BitOf(Val(v), e) {
        BitVal(v, e);
      }
      LenFromBits(Val(v), 32 * (|v| - 1));
    }
  }

  lemma {:induction false} ValZero(v: Vec)
    requires Normal(v)
    ensures Val(v) == 0 <==> v == [ZERO]
  {
    if v == [ZERO] {
      forall e: nat ensures Coef(v, e) == BitOf(0, e) {
        BitZero(e);
      }
      ValFromBits(v, 0);
    } else {
      NormalLen(v);
    }
  }

  /** A polynomial has one normal form. */
  lemma {:induction false} NormalUnique(v: Vec, w: Vec)
    requires Normal(v) && Normal(w) && Val(v) == Val(w)
    ensures v == w
  {
    ValZero(v);
    ValZero(w);
    if v != [ZERO] {
      NormalLen(v);
      NormalLen(w);
      LenVec(v);
      LenVec(w);
      forall i | 0 <= i < |v| ensures v[i] == w[i] {
        SameWord(v, w, i);
      }
    }
  }

  lemma {:induction false} SameWord(v: Vec, w: Vec, i: nat)
    requires |v| == |w| && i < |v| && Val(v) == Val(w)
    ensures v[i] == w[i]
  {
    forall b | 0 <= b < 32 ensures v[i][b] == w[i][b] {
      var e := 32 * (|v| - 1 - i) + b;
      BitVal(v, e);
      BitVal(w, e);
    }
  }
}
