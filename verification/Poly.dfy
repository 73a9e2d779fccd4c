/** Polynomials over GF(2), coded as natural numbers: bit e of the number is the
    coefficient of x^e.  Sum is bitwise exclusive or and product is the
    carry-less product.  This is the algebra that the word vectors of
    tools/utils.C are proved against. */
module Poly {

  function Xor(a: nat, b: nat): nat
    decreases a + b
  {
    if a == 0 && b == 0 then 0 else 2 * Xor(a / 2, b / 2) + (a + b) % 2
  }

  function Mul(a: nat, b: nat): nat {
    if a == 0 then 0 else Xor(if a % 2 == 1 then b else 0, 2 * Mul(a / 2, b))
  }

  /** Number of bits: the degree plus one, and 0 for the zero polynomial. */
  function Len(a: nat): nat {
    if a == 0 then 0 else 1 + Len(a / 2)
  }

  // ---------- sum ----------

  lemma {:induction false} HalfOf(x: nat, m: nat)
    requires m < 2
    ensures (2 * x + m) % 2 == m && (2 * x + m) / 2 == x
  {
  }

  lemma {:induction false} SameParts(x: nat, y: nat)
    requires x % 2 == y % 2 && x / 2 == y / 2
    ensures x == y
  {
  }

  predicate Odd(a: nat) {
    a % 2 == 1
  }

  lemma {:induction false} OddSum(a: nat, b: nat)
    ensures (a + b) % 2 == 1 <==> Odd(a) != Odd(b)
  {
  }

  lemma {:induction false} XorParts(a: nat, b: nat)
    ensures Xor(a, b) % 2 == (a + b) % 2 && Xor(a, b) / 2 == Xor(a / 2, b / 2)
  {
    if a + b > 0 {
      HalfOf(Xor(a / 2, b / 2), (a + b) % 2);
    }
  }

  lemma {:induction false} XorZero(a: nat)
    ensures Xor(a, 0) == a && Xor(0, a) == a
  {
    if a > 0 {
      XorZero(a / 2);
    }
  }

  lemma {:induction false} XorSelf(a: nat)
    ensures Xor(a, a) == 0
  {
    if a > 0 {
      XorSelf(a / 2);
    }
  }

  lemma {:induction false} XorComm(a: nat, b: nat)
    ensures Xor(a, b) == Xor(b, a)
    decreases a + b
  {
    if a + b > 0 {
      XorComm(a / 2, b / 2);
    }
  }

  lemma {:induction false} XorOdd(a: nat, b: nat)
    ensures Odd(Xor(a, b)) <==> Odd(a) != Odd(b)
  {
    XorParts(a, b);
    OddSum(a, b);
  }

  lemma {:induction false} XorAssocOdd(a: nat, b: nat, c: nat)
    ensures Odd(Xor(Xor(a, b), c)) <==> Odd(Xor(a, Xor(b, c)))
  {
    XorOdd(a, b);
    XorOdd(b, c);
    XorOdd(Xor(a, b), c);
    XorOdd(a, Xor(b, c));
  }

  lemma {:induction false} XorAssoc(a: nat, b: nat, c: nat)
    ensures Xor(Xor(a, b), c) == Xor(a, Xor(b, c))
    decreases a + b + c
  {
    if a + b + c > 0 {
      XorAssoc(a / 2, b / 2, c / 2);
      XorAssocOdd(a, b, c);
      XorParts(a, b);
      XorParts(b, c);
      XorParts(Xor(a, b), c);
      XorParts(a, Xor(b, c));
      SameParts(Xor(Xor(a, b), c), Xor(a, Xor(b, c)));
    }
  }

  /** (a + b) + (c + d) == (a + c) + (b + d) */
  lemma {:induction false} XorSwap(a: nat, b: nat, c: nat, d: nat)
    ensures Xor(Xor(a, b), Xor(c, d)) == Xor(Xor(a, c), Xor(b, d))
  {
    XorAssoc(a, b, Xor(c, d));
    XorAssoc(b, c, d);
    XorComm(b, c);
    XorAssoc(c, b, d);
    XorAssoc(a, c, Xor(b, d));
  }

  lemma {:induction false} XorDouble(a: nat, b: nat)
    ensures Xor(2 * a, 2 * b) == 2 * Xor(a, b)
  {
    HalfOf(a, 0);
    HalfOf(b, 0);
  }

  /** Adding the same polynomial twice changes nothing. */
  lemma {:induction false} XorCancel(a: nat, b: nat)
    ensures Xor(Xor(a, b), b) == a && Xor(b, Xor(b, a)) == a
  {
    XorAssoc(a, b, b);
    XorAssoc(b, b, a);
    XorSelf(b);
    XorZero(a);
  }

  // ---------- product ----------

  lemma {:induction false} MulZero(a: nat)
    ensures Mul(a, 0) == 0 && Mul(0, a) == 0
  {
    if a > 0 {
      MulZero(a / 2);
    }
  }

  lemma {:induction false} MulOne(a: nat)
    ensures Mul(1, a) == a && Mul(a, 1) == a
  {
    XorZero(a);
    assert Mul(0, a) == 0;
    if a > 0 {
      MulOne(a / 2);
      XorParts(a % 2, 2 * (a / 2));
      XorZero(a / 2);
    }
  }

  lemma {:induction false} MulDouble(a: nat, b: nat)
    ensures Mul(2 * a, b) == 2 * Mul(a, b) && Mul(a, 2 * b) == 2 * Mul(a, b)
  {
    XorZero(2 * Mul(a, b));
    if a > 0 {
      MulDouble(a / 2, b);
      XorDouble(if a % 2 == 1 then b else 0, 2 * Mul(a / 2, b));
    }
  }

  lemma {:induction false} MulDistRight(a: nat, b: nat, c: nat)
    ensures Mul(a, Xor(b, c)) == Xor(Mul(a, b), Mul(a, c))
  {
    if a > 0 {
      var h := a / 2;
      MulDistRight(h, b, c);
      XorDouble(Mul(h, b), Mul(h, c));
      if a % 2 == 1 {
        XorSwap(b, c, 2 * Mul(h, b), 2 * Mul(h, c));
      } else {
        XorZero(2 * Mul(h, b));
        XorZero(2 * Mul(h, c));
        XorZero(Xor(2 * Mul(h, b), 2 * Mul(h, c)));
      }
    }
  }

  lemma {:induction false} MulComm(a: nat, b: nat)
    ensures Mul(a, b) == Mul(b, a)
  {
    if a == 0 {
      MulZero(b);
    } else {
      var h, low := a / 2, a % 2;
      MulComm(h, b);
      XorLow(h, low);
      MulDistRight(b, low, 2 * h);
      MulDouble(b, h);
      MulZero(b);
      MulOne(b);
    }
  }

  lemma {:induction false} XorLow(h: nat, low: nat)
    requires low < 2
    ensures Xor(low, 2 * h) == 2 * h + low
  {
    XorZero(h);
  }

  lemma {:induction false} MulDistLeft(a: nat, b: nat, c: nat)
    ensures Mul(Xor(a, b), c) == Xor(Mul(a, c), Mul(b, c))
  {
    MulComm(Xor(a, b), c);
    MulDistRight(c, a, b);
    MulComm(a, c);
    MulComm(b, c);
  }

  lemma {:induction false} MulAssoc(a: nat, b: nat, c: nat)
    ensures Mul(Mul(a, b), c) == Mul(a, Mul(b, c))
  {
    if a > 0 {
      var h := a / 2;
      MulAssoc(h, b, c);
      MulDistLeft(if a % 2 == 1 then b else 0, 2 * Mul(h, b), c);
      MulDouble(Mul(h, b), c);
      assert Mul(0, c) == 0;
    }
  }

  // ---------- degree ----------

  lemma {:induction false} LenZero(a: nat)
    ensures Len(a) == 0 <==> a == 0
  {
  }

  lemma {:induction false} LenXor(a: nat, b: nat)
    ensures Len(a) <= Len(b) ==> Len(Xor(a, b)) <= Len(b)
    ensures Len(a) < Len(b) ==> Len(Xor(a, b)) == Len(b)
    decreases a + b
  {
    if a + b > 0 {
      LenXor(a / 2, b / 2);
      XorParts(a, b);
    }
  }

  lemma {:induction false} LenDouble(a: nat)
    requires a > 0
    ensures Len(2 * a) == Len(a) + 1
  {
    HalfOf(a, 0);
  }

  lemma {:induction false} LenMul(a: nat, b: nat)
    requires a > 0 && b > 0
    ensures Mul(a, b) > 0 && Len(Mul(a, b)) == Len(a) + Len(b) - 1
  {
    var h := a / 2;
    if h == 0 {
      MulOne(b);
    } else {
      LenMul(h, b);
      var top := 2 * Mul(h, b);
      LenDouble(Mul(h, b));
      LenXor(if a % 2 == 1 then b else 0, top);
      LenZero(h);
    }
  }

  lemma {:induction false} MulNonzero(a: nat, b: nat)
    ensures Mul(a, b) == 0 <==> a == 0 || b == 0
  {
    MulZero(a);
    MulZero(b);
    if a > 0 && b > 0 {
      LenMul(a, b);
    }
  }

  /** A nonzero factor can be cancelled. */
  lemma {:induction false} MulCancel(a: nat, b: nat, c: nat)
    requires c > 0 && Mul(a, c) == Mul(b, c)
    ensures a == b
  {
    MulDistLeft(a, b, c);
    XorSelf(Mul(a, c));
    MulNonzero(Xor(a, b), c);
    XorCancel(a, b);
    XorZero(b);
  }

  lemma {:induction false} LenOne(a: nat)
    requires Len(a) == 1
    ensures a == 1
  {
    LenZero(a / 2);
  }
}
