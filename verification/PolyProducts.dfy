/** Products, sums and least common multiples of word vectors (tools/utils.C). */
module PolyProducts {
  import opened Poly
  import opened PolyDivides
  import opened PolyBits
  import opened PolyWords

  // ---------- 64-bit accumulators ----------

  function Shr(a: nat, n: nat): nat {
    if n == 0 then a else Shr(a / 2, n - 1)
  }

  /** Truncation to an unsigned long long. */
  function Low64(a: nat): nat {
    a % 0x1_0000_0000_0000_0000
  }

  /** The low 32 bits, `a & lowerBitsMask`. */
  function WordOf(a: nat): Word {
    seq(32, b requires 0 <= b < 32 => BitOf(a, b))
  }

  function WVal(w: Word): nat {
    ToNat(w)
  }

  lemma {:induction false} BitShr(a: nat, n: nat, e: nat)
    ensures BitOf(Shr(a, n), e) == BitOf(a, e + n)
  {
    if n > 0 {
      BitShr(a / 2, n - 1, e);
    }
  }

  lemma {:induction false} LenShr(a: nat, n: nat)
    ensures Len(Shr(a, n)) == if Len(a) <= n then 0 else Len(a) - n
  {
    if n > 0 {
      LenShr(a / 2, n - 1);
    }
  }

  lemma {:induction false} LenBound(a: nat, n: nat)
    requires Len(a) <= n
    ensures a < Shl(1, n)
  {
    if n > 0 && a > 0 {
      LenBound(a / 2, n - 1);
    } else if a == 0 {
      LenShl(1, n);
    } else {
      LenZero(a);
    }
  }

  lemma {:induction false} FitsIn64(a: nat)
    requires Len(a) <= 64
    ensures Low64(a) == a
  {
    LenBound(a, 64);
    Shl16(1);
    Shl16(0x1_0000);
    Shl16(0x1_0000_0000);
    Shl16(0x1_0000_0000_0000);
    ShlAdd(1, 16, 16);
    ShlAdd(1, 32, 16);
    ShlAdd(1, 48, 16);
  }

  lemma {:induction false} Shl16(a: nat)
    ensures Shl(a, 16) == 0x1_0000 * a
  {
    Shl4(a);
    Shl4(16 * a);
    Shl4(256 * a);
    Shl4(4096 * a);
    ShlAdd(a, 4, 4);
    ShlAdd(a, 8, 4);
    ShlAdd(a, 12, 4);
  }

  lemma {:induction false} Shl4(a: nat)
    ensures Shl(a, 4) == 16 * a
  {
    assert Shl(a, 1) == 2 * Shl(a, 0);
    assert Shl(a, 2) == 2 * Shl(a, 1);
    assert Shl(a, 3) == 2 * Shl(a, 2);
    assert Shl(a, 4) == 2 * Shl(a, 3);
  }

  lemma {:induction false} LenWord(w: Word)
    ensures Len(WVal(w)) <= 32
  {
    forall e: nat | e >= 32 ensures !BitOf(WVal(w), e) {
      BitToNat(w, e);
    }
    LenFromBits(WVal(w), 32);
  }

  /** An accumulator is its low word and the rest. */
  lemma {:induction false} SplitLow(a: nat)
    ensures a == Xor(Shl(Shr(a, 32), 32), WVal(WordOf(a)))
  {
    var b := Xor(Shl(Shr(a, 32), 32), WVal(WordOf(a)));
    forall e: nat ensures BitOf(b, e) == BitOf(a, e) {
      BitXor(Shl(Shr(a, 32), 32), WVal(WordOf(a)), e);
      BitShl(Shr(a, 32), 32, e);
      BitToNat(WordOf(a), e);
      if e >= 32 {
        BitShr(a, 32, e - 32);
      }
    }
    SameBits(a, b);
  }

  lemma {:induction false} ValCons(w: Word, v: Vec)
    ensures Val([w] + v) == Xor(Shl(WVal(w), 32 * |v|), Val(v))
  {
    var b := Xor(Shl(WVal(w), 32 * |v|), Val(v));
    forall e: nat ensures Coef([w] + v, e) == BitOf(b, e) {
      BitXor(Shl(WVal(w), 32 * |v|), Val(v), e);
      BitShl(WVal(w), 32 * |v|, e);
      BitVal(v, e);
      if e >= 32 * |v| {
        BitToNat(w, e - 32 * |v|);
        if e < 32 * |v| + 32 {
          assert e / 32 == |v| && e % 32 == e - 32 * |v|;
        }
      }
    }
    ValFromBits([w] + v, b);
  }

  lemma {:induction false} ValSnoc(v: Vec, w: Word)
    ensures Val(v + [w]) == Xor(Shl(Val(v), 32), WVal(w))
  {
    var b := Xor(Shl(Val(v), 32), WVal(w));
    forall e: nat ensures Coef(v + [w], e) == BitOf(b, e) {
      BitXor(Shl(Val(v), 32), WVal(w), e);
      BitShl(Val(v), 32, e);
      BitToNat(w, e);
      if e >= 32 {
        BitVal(v, e - 32);
        assert (e - 32) / 32 == e / 32 - 1 && (e - 32) % 32 == e % 32;
      }
    }
    ValFromBits(v + [w], b);
  }

  /** One word times one word, added to the accumulator; no bit leaves 64 bits. */
  method MultiplyWords(multiplier: Word, w: Word, acc: nat) returns (product: nat)
    requires Len(acc) <= 32
    ensures product == Xor(acc, Mul(WVal(multiplier), WVal(w))) && Len(product) <= 64
  {
    product := acc;
    var x, y := WVal(multiplier), WVal(w);
    LenWord(multiplier);
    LenWord(w);
    while x > 0
      invariant Xor(product, Mul(x, y)) == Xor(acc, Mul(WVal(multiplier), WVal(w)))
      invariant Len(product) <= 64 && Len(x) + Len(y) <= 64
    {
      MulHalf(x, y, product);
      if x % 2 == 1 {
        LenXor(product, y);
        LenXor(y, product);
        XorComm(product, y);
        product := Xor(product, y);
      }
      LenDoubleOrZero(y);
      FitsIn64(2 * y);
      x := x / 2;
      y := Low64(2 * y);
    }
    assert Mul(0, y) == 0;
    XorZero(product);
  }

  lemma {:induction false} LenDoubleOrZero(y: nat)
    ensures Len(2 * y) <= Len(y) + 1
  {
    if y > 0 {
      LenDouble(y);
    }
  }

  lemma {:induction false} MulHalf(x: nat, y: nat, p: nat)
    requires x > 0
    ensures Xor(p, Mul(x, y)) == Xor(if x % 2 == 1 then Xor(p, y) else p, Mul(x / 2, 2 * y))
  {
    MulDouble(x / 2, y);
    XorAssoc(p, y, 2 * Mul(x / 2, y));
    XorZero(2 * Mul(x / 2, y));
  }

  /** multiplyPoly with a single word: from the last word up, with carry. */
  method MultiplyWord(f: Vec, multiplier: Word) returns (res: Vec)
    ensures Val(res) == Mul(WVal(multiplier), Val(f))
    ensures |f| <= |res| <= |f| + 1 && (|res| > |f| ==> res[0] != ZERO)
  {
    var product, i := 0, |f|;
    res := [];
    MulZero(WVal(multiplier));
    ValEmpty();
    XorZero(0);
    while i > 0
      invariant 0 <= i <= |f| && |res| == |f| - i && Len(product) <= 32
      invariant Xor(Shl(product, 32 * |res|), Val(res)) == Mul(WVal(multiplier), Val(f[i..]))
    {
      i := i - 1;
      ghost var carry, old_res := product, res;
      product := MultiplyWords(multiplier, f[i], product);
      MultiplyStep(WVal(multiplier), f, i, old_res, carry, product);
      res := [WordOf(product)] + res;
      LenShr(product, 32);
      product := Shr(product, 32);
    }
    assert f[0..] == f;
    if product > 0 {
      LowWord(product);
      WordNonzero(WordOf(product));
      ValCons(WordOf(product), res);
      res := [WordOf(product)] + res;
    } else {
      ShlZero(32 * |res|);
      XorZero(Val(res));
    }
  }

  lemma {:induction false} ValEmpty()
    ensures Val([]) == 0
  {
  }

  lemma {:induction false} WordNonzero(w: Word)
    ensures w == ZERO <==> WVal(w) == 0
  {
    if w == ZERO {
      forall e: nat ensures BitOf(WVal(w), e) == BitOf(0, e) {
        BitToNat(w, e);
        BitZero(e);
      }
      SameBits(WVal(w), 0);
    } else {
      var b := NonzeroBit(w);
      BitToNat(w, b);
      BitZero(b);
    }
  }

  lemma {:induction false} LowWord(a: nat)
    requires Len(a) <= 32
    ensures WVal(WordOf(a)) == a
  {
    forall e: nat ensures BitOf(WVal(WordOf(a)), e) == BitOf(a, e) {
      BitToNat(WordOf(a), e);
      if e >= 32 {
        BitAboveLen(a, e);
      }
    }
    SameBits(WVal(WordOf(a)), a);
  }

  /** Storing the low word and carrying the rest keeps the value. */
  lemma {:induction false} StoreLow(product: nat, res: Vec)
    ensures Xor(Shl(Shr(product, 32), 32 * (|res| + 1)), Val([WordOf(product)] + res))
            == Xor(Shl(product, 32 * |res|), Val(res))
  {
    var n := 32 * |res|;
    var hi, lo := Shr(product, 32), WVal(WordOf(product));
    ValCons(WordOf(product), res);
    SplitLow(product);
    ShlXor(Shl(hi, 32), lo, n);
    ShlAdd(hi, 32, n);
    XorAssoc(Shl(hi, n + 32), Shl(lo, n), Val(res));
  }

  lemma {:induction false} MulCons(W: nat, w: Word, v: Vec)
    ensures Mul(W, Val([w] + v)) == Xor(Shl(Mul(W, WVal(w)), 32 * |v|), Mul(W, Val(v)))
  {
    ValCons(w, v);
    MulDistRight(W, Shl(WVal(w), 32 * |v|), Val(v));
    ShlMul(W, WVal(w), 32 * |v|);
  }

  /** One word of the product is settled and the carry moves on. */
  lemma {:induction false} MultiplyStep(W: nat, f: Vec, i: nat, res: Vec, carry: nat, product: nat)
    requires i < |f| && |res| == |f| - i - 1
    requires Xor(Shl(carry, 32 * |res|), Val(res)) == Mul(W, Val(f[i + 1..]))
    requires product == Xor(carry, Mul(W, WVal(f[i])))
    ensures Xor(Shl(Shr(product, 32), 32 * (|res| + 1)), Val([WordOf(product)] + res)) == Mul(W, Val(f[i..]))
  {
    var n := 32 * |res|;
    var c, m, v := Shl(carry, n), Shl(Mul(W, WVal(f[i])), n), Val(res);
    StoreLow(product, res);
    ShlXor(carry, Mul(W, WVal(f[i])), n);
    assert f[i..] == [f[i]] + f[i + 1..];
    MulCons(W, f[i], f[i + 1..]);
    XorComm(c, m);
    XorAssoc(m, c, v);
  }

  // ---------- sums ----------

  /** Word w of a vector padded at the front to n words. */
  function Padded(v: Vec, n: nat, w: nat): Word
    requires |v| <= n && w < n
  {
    if w < n - |v| then ZERO else v[w - (n - |v|)]
  }

  ghost predicate Summed(x: Vec, y: Vec, r: Vec) {
    && |x| <= |r| && |y| <= |r|
    && forall w :: 0 <= w < |r| ==> r[w] == WXor(Padded(x, |r|, w), Padded(y, |r|, w))
  }

  /** addPoly: aligned at the low end; the longer operand keeps its front. */
  method AddPoly(x: Vec, y: Vec) returns (r: Vec)
    ensures Val(r) == Xor(Val(x), Val(y))
    ensures |r| == if |x| >= |y| then |x| else |y|
  {
    r := x;
    var i, j := |x| - 1, |y| - 1;
    while i >= 0 && j >= 0
      invariant -1 <= i < |x| && -1 <= j < |y| && j - i == |y| - |x| && |r| == |x|
      invariant forall w :: 0 <= w <= i ==> r[w] == x[w]
      invariant forall w :: i < w < |x| ==> r[w] == WXor(x[w], y[w + |y| - |x|])
    {
      r := r[i := WXor(r[i], y[j])];
      i, j := i - 1, j - 1;
    }
    if j >= 0 {
      r := y[..j + 1] + r;
    }
    XorClear(x, y, r);
    SumVal(x, y, r);
  }

  lemma {:induction false} XorClear(x: Vec, y: Vec, r: Vec)
    requires |r| == if |x| >= |y| then |x| else |y|
    requires forall w :: 0 <= w < |r| ==>
               r[w] == if w < |r| - |x| then y[w] else if w < |r| - |y| then x[w]
                       else WXor(x[w - (|r| - |x|)], y[w - (|r| - |y|)])
    ensures Summed(x, y, r)
  {
    forall w | 0 <= w < |r| ensures r[w] == WXor(Padded(x, |r|, w), Padded(y, |r|, w)) {
      if w < |r| - |x| {
        XorWithZero(y[w]);
      } else if w < |r| - |y| {
        XorWithZero(x[w]);
      }
    }
  }

  lemma {:induction false} XorWithZero(w: Word)
    ensures WXor(ZERO, w) == w && WXor(w, ZERO) == w
  {
    forall i | 0 <= i < 32 ensures WXor(ZERO, w)[i] == w[i] && WXor(w, ZERO)[i] == w[i] {
    }
  }

  lemma {:induction false} SumCoef(x: Vec, y: Vec, r: Vec, e: nat)
    requires Summed(x, y, r)
    ensures Coef(r, e) == (Coef(x, e) != Coef(y, e))
  {
    if e < 32 * |r| {
      var w := |r| - 1 - e / 32;
      assert Padded(x, |r|, w)[e % 32] == Coef(x, e);
      assert Padded(y, |r|, w)[e % 32] == Coef(y, e);
    }
  }

  lemma {:induction false} SumVal(x: Vec, y: Vec, r: Vec)
    requires Summed(x, y, r)
    ensures Val(r) == Xor(Val(x), Val(y))
  {
    forall e: nat ensures Coef(r, e) == BitOf(Xor(Val(x), Val(y)), e) {
      BitXor(Val(x), Val(y), e);
      BitVal(x, e);
      BitVal(y, e);
      SumCoef(x, y, r, e);
    }
    ValFromBits(r, Xor(Val(x), Val(y)));
  }

  // ---------- product of two vectors ----------

  /** multiplyPoly: one word of g at a time, from the most significant. */
  method MultiplyPoly(f: Vec, g: Vec) returns (res: Vec)
    ensures Val(res) == Mul(Val(f), Val(g))
    ensures Nonzero(f) && Nonzero(g) ==> Normal(res)
  {
    res := [];
    EmptyProduct(f);
    var i := 0;
    while i < |g|
      invariant 0 <= i <= |g|
      invariant i == 0 ==> res == []
      invariant i < |g| ==> Val(res) == Shl(Mul(Val(f), Val(g[..i])), 32)
      invariant i == |g| ==> Val(res) == Mul(Val(f), Val(g))
      invariant Nonzero(f) && Nonzero(g) && 0 < i < |g| ==> Shifted(f, g, i, res)
      invariant Nonzero(f) && Nonzero(g) && i == |g| ==> Normal(res)
    {
      var partialProd := MultiplyWord(f, g[i]);
      ghost var before := res;
      res := AddPoly(res, partialProd);
      ProductVal(f, g, i, before, partialProd, res);
      if Nonzero(f) && Nonzero(g) {
        ProductStep(f, g, i, before, partialProd, res);
      }
      if i < |g| - 1 {
        ghost var sum := res;
        res := ShiftLeft(res, 32);
        ShiftWord(sum, res);
      } else {
        assert g[..i + 1] == g;
      }
      i := i + 1;
    }
  }

  ghost predicate Nonzero(v: Vec) {
    Normal(v) && Val(v) > 0
  }

  lemma {:induction false} EmptyProduct(f: Vec)
    ensures Val([]) == 0 && Mul(Val(f), 0) == 0 && Shl(0, 32) == 0
  {
    ValEmpty();
    MulZero(Val(f));
    ShlZero(32);
  }

  /** After i words: the product so far, with a zero word appended. */
  ghost predicate Shifted(f: Vec, g: Vec, i: nat, res: Vec) {
    && i <= |g| && |res| > |f|
    && Val(res) == Shl(Mul(Val(f), Val(g[..i])), 32)
    && Len(Mul(Val(f), Val(g[..i]))) > 32 * (|res| - 2)
  }

  lemma {:induction false} ShiftWord(sum: Vec, res: Vec)
    requires res == sum + [ZERO]
    ensures Val(res) == Shl(Val(sum), 32)
  {
    ValSnoc(sum, ZERO);
    forall e: nat ensures BitOf(WVal(ZERO), e) == BitOf(0, e) {
      BitToNat(ZERO, e);
      BitZero(e);
    }
    SameBits(WVal(ZERO), 0);
    XorZero(Shl(Val(sum), 32));
  }

  lemma {:induction false} PrefixNonzero(g: Vec, i: nat)
    requires Normal(g) && Val(g) > 0 && 0 < i <= |g|
    ensures Val(g[..i]) > 0 && g[..i][0] != ZERO
  {
    ValZero(g);
    NormalLen(g[..i]);
    LenZero(Val(g[..i]));
  }

  /** Adding the product with word i of g. */
  lemma {:induction false} ProductStep(f: Vec, g: Vec, i: nat, before: Vec, part: Vec, res: Vec)
    requires Normal(f) && Normal(g) && Val(f) > 0 && Val(g) > 0 && i < |g|
    requires if i == 0 then before == [] else Shifted(f, g, i, before)
    requires Val(part) == Mul(WVal(g[i]), Val(f)) && |f| <= |part| <= |f| + 1
    requires |part| > |f| ==> part[0] != ZERO
    requires Val(res) == Xor(Val(before), Val(part))
    requires |res| == if |before| >= |part| then |before| else |part|
    ensures Val(res) == Mul(Val(f), Val(g[..i + 1]))
    ensures |res| >= |f| && Normal(res) && Len(Val(res)) > 32 * (|res| - 1)
  {
    ProductVal(f, g, i, before, part, res);
    if i == 0 {
      PrefixNonzero(g, 1);
      ValEmpty();
      XorZero(Val(part));
      FirstProduct(f, g[0], part);
    } else {
      PrefixNonzero(g, i);
      LenWord(g[i]);
      NextProduct(f, Val(g[..i]), WVal(g[i]), |before|, |part|, |res|);
    }
    LenNormal(res);
  }

  /** The product with the first word: as long as f, or one word more. */
  lemma {:induction false} FirstProduct(f: Vec, g0: Word, part: Vec)
    requires Normal(f) && Val(f) > 0 && g0 != ZERO
    requires Val(part) == Mul(WVal(g0), Val(f)) && |f| <= |part| <= |f| + 1
    requires |part| > |f| ==> part[0] != ZERO
    ensures Len(Val(part)) > 32 * (|part| - 1)
  {
    WordNonzero(g0);
    if |part| > |f| {
      NormalLen(part);
    } else {
      ValZero(f);
      NormalLen(f);
      LenMul(WVal(g0), Val(f));
      LenZero(WVal(g0));
    }
  }

  lemma {:induction false} NextProduct(f: Vec, G: nat, w: nat, before: nat, part: nat, res: nat)
    requires Val(f) > 0 && G > 0 && Len(w) <= 32
    requires before > |f| && Len(Mul(Val(f), G)) > 32 * (before - 2)
    requires part <= |f| + 1 && res == if before >= part then before else part
    ensures Len(Mul(Val(f), Xor(Shl(G, 32), w))) > 32 * (res - 1)
  {
    ProductLen(Val(f), G, w);
  }

  lemma {:induction false} ProductVal(f: Vec, g: Vec, i: nat, before: Vec, part: Vec, res: Vec)
    requires i < |g| && (i == 0 ==> before == [])
    requires i > 0 ==> Val(before) == Shl(Mul(Val(f), Val(g[..i])), 32)
    requires Val(part) == Mul(WVal(g[i]), Val(f)) && Val(res) == Xor(Val(before), Val(part))
    ensures Val(res) == Mul(Val(f), Val(g[..i + 1]))
    ensures Val(g[..i + 1]) == Xor(Shl(Val(g[..i]), 32), WVal(g[i]))
  {
    var F := Val(f);
    assert g[..i + 1] == g[..i] + [g[i]];
    ValSnoc(g[..i], g[i]);
    MulDistRight(F, Shl(Val(g[..i]), 32), WVal(g[i]));
    ShlMul(F, Val(g[..i]), 32);
    MulComm(F, WVal(g[i]));
    if i == 0 {
      ValEmpty();
      MulZero(F);
      ShlZero(32);
    }
  }

  /** A word more makes the product exactly 32 bits longer. */
  lemma {:induction false} ProductLen(F: nat, G: nat, w: nat)
    requires F > 0 && G > 0 && Len(w) <= 32
    ensures Len(Mul(F, Xor(Shl(G, 32), w))) == Len(Mul(F, G)) + 32
  {
    LenMul(F, G);
    LenShl(G, 32);
    LenZero(G);
    LenXor(w, Shl(G, 32));
    XorComm(w, Shl(G, 32));
    LenZero(Xor(Shl(G, 32), w));
    LenMul(F, Xor(Shl(G, 32), w));
  }

  // ---------- least common multiple ----------

  const ONE: Word := OneBit(0)

  lemma {:induction false} ValOne()
    ensures Val([ONE]) == 1 && Normal([ONE])
  {
    forall e: nat ensures Coef([ONE], e) == BitOf(1, e) {
      if e > 0 {
        BitZero(e - 1);
      }
    }
    ValFromBits([ONE], 1);
  }

  /** lcm (t, s): t times the quotient of s by the greatest common divisor. */
  method Lcm(t: Vec, s: Vec) returns (res: Vec)
    requires Normal(t) && Normal(s) && Val(s) > 0
    ensures IsLcm(Val(res), Val(t), Val(s))
    ensures Val(t) > 0 ==> Normal(res) && Val(res) > 0
  {
    if |t| == 1 && |s| == 1 && t[0] == ONE && s[0] == ONE {
      assert t == s;
      LcmIdempotent(Val(t));
      return t;
    }
    var g := GcdSpecial(t, s);
    GcdNonzero(Val(g), Val(t), Val(s));
    LenZero(Val(g));
    var degs := Degree(s);
    var degg := Degree(g);
    assert degs >= degg;
    var q := Quotient(s, g);
    ghost var r :| Divided(Val(s), Val(g), Val(q), r);
    ExactQuotient(Val(s), Val(g), Val(q), r);
    MulNonzero(Val(q), Val(g));
    res := MultiplyPoly(t, q);
    if Val(t) > 0 {
      MulNonzero(Val(t), Val(q));
    }
    LcmFromGcd(Val(t), Val(s), Val(g), Val(q));
  }

  /** Dividing by a divisor leaves no remainder. */
  lemma {:induction false} ExactQuotient(s: nat, g: nat, q: nat, r: nat)
    requires Divided(s, g, q, r) && Divides(g, s)
    ensures Mul(q, g) == s && r == 0
  {
    var p :| Mul(p, g) == s;
    XorZero(s);
    LenZero(g);
    LenZero(0);
    DivisionUnique(s, g, q, r, p, 0);
  }

  /** As vectors, not only as polynomials: lcm commutes and is associative, and
      lcm (t, t) is t.  Each argument is the result of one call of Lcm. */
  lemma {:induction false} LcmIsDetermined(l: Vec, m: Vec, t: Vec, s: Vec)
    requires Normal(l) && Normal(m)
    requires IsLcm(Val(l), Val(t), Val(s)) && IsLcm(Val(m), Val(s), Val(t))
    ensures l == m
  {
    LcmCommutes(Val(m), Val(s), Val(t));
    LcmUnique(Val(l), Val(m), Val(t), Val(s));
    NormalUnique(l, m);
  }

  lemma {:induction false} LcmOfThree(ab: Vec, l: Vec, bc: Vec, m: Vec, a: Vec, b: Vec, c: Vec)
    requires Normal(l) && Normal(m)
    requires IsLcm(Val(ab), Val(a), Val(b)) && IsLcm(Val(l), Val(ab), Val(c))
    requires IsLcm(Val(bc), Val(b), Val(c)) && IsLcm(Val(m), Val(a), Val(bc))
    ensures l == m
  {
    LcmAssociates(Val(ab), Val(l), Val(bc), Val(m), Val(a), Val(b), Val(c));
    NormalUnique(l, m);
  }

  lemma {:induction false} LcmOfSame(l: Vec, t: Vec)
    requires Normal(l) && Normal(t) && IsLcm(Val(l), Val(t), Val(t))
    ensures l == t
  {
    LcmIdempotent(Val(t));
    LcmUnique(Val(l), Val(t), Val(t), Val(t));
    NormalUnique(l, t);
  }
}
