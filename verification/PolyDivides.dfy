/** Divisibility over GF(2)[x]: greatest common divisors and least common
    multiples, and why the Euclidean steps of tools/utils.C compute them. */
module PolyDivides {
  import opened Poly

  ghost predicate Divides(d: nat, a: nat) {
    exists q :: Mul(q, d) == a
  }

  ghost predicate IsGcd(d: nat, a: nat, b: nat) {
    && Divides(d, a) && Divides(d, b)
    && forall c :: Divides(c, a) && Divides(c, b) ==> Divides(c, d)
  }

  ghost predicate IsLcm(l: nat, a: nat, b: nat) {
    && Divides(a, l) && Divides(b, l)
    && forall m :: Divides(a, m) && Divides(b, m) ==> Divides(l, m)
  }

  /** d is a combination of a and b. */
  ghost predicate Combination(d: nat, a: nat, b: nat) {
    exists u, v :: Xor(Mul(u, a), Mul(v, b)) == d
  }

  lemma {:induction false} DividesSelf(a: nat)
    ensures Divides(a, a) && Divides(a, 0) && Divides(1, a)
  {
    MulOne(a);
    MulZero(a);
    assert Mul(1, a) == a && Mul(0, a) == 0 && Mul(a, 1) == a;
  }

  lemma {:induction false} DividesMul(d: nat, a: nat, c: nat)
    requires Divides(d, a)
    ensures Divides(d, Mul(c, a)) && Divides(d, Mul(a, c))
  {
    var q :| Mul(q, d) == a;
    MulAssoc(c, q, d);
    assert Mul(Mul(c, q), d) == Mul(c, a);
    MulComm(a, c);
  }

  lemma {:induction false} DividesXor(d: nat, a: nat, b: nat)
    requires Divides(d, a) && Divides(d, b)
    ensures Divides(d, Xor(a, b))
  {
    var p :| Mul(p, d) == a;
    var q :| Mul(q, d) == b;
    MulDistLeft(p, q, d);
    assert Mul(Xor(p, q), d) == Xor(a, b);
  }

  lemma {:induction false} DividesTrans(a: nat, b: nat, c: nat)
    requires Divides(a, b) && Divides(b, c)
    ensures Divides(a, c)
  {
    var q :| Mul(q, b) == c;
    DividesMul(a, b, q);
  }

  lemma {:induction false} DividesLen(d: nat, a: nat)
    requires Divides(d, a) && a > 0
    ensures d > 0 && Len(d) <= Len(a)
  {
    var q :| Mul(q, d) == a;
    MulNonzero(q, d);
    LenMul(q, d);
    LenZero(q);
  }

  /** The only unit is 1, so divisors of each other are equal. */
  lemma {:induction false} DividesAntisymmetric(a: nat, b: nat)
    requires Divides(a, b) && Divides(b, a)
    ensures a == b
  {
    if a == 0 {
      var q :| Mul(q, a) == b;
      MulZero(q);
    } else {
      DividesLen(b, a);
      DividesLen(a, b);
      var q :| Mul(q, a) == b;
      MulNonzero(q, a);
      LenMul(q, a);
      LenOne(q);
      MulOne(a);
    }
  }

  lemma {:induction false} GcdUnique(d: nat, e: nat, a: nat, b: nat)
    requires IsGcd(d, a, b) && IsGcd(e, a, b)
    ensures d == e
  {
    DividesAntisymmetric(d, e);
  }

  lemma {:induction false} LcmUnique(l: nat, m: nat, a: nat, b: nat)
    requires IsLcm(l, a, b) && IsLcm(m, a, b)
    ensures l == m
  {
    DividesAntisymmetric(l, m);
  }

  // ---------- Euclid ----------

  lemma {:induction false} GcdBase(f: nat)
    ensures IsGcd(f, f, 0) && Combination(f, f, 0)
  {
    DividesSelf(f);
    MulOne(f);
    MulZero(0);
    XorZero(f);
    assert Xor(Mul(1, f), Mul(0, 0)) == f;
  }

  /** Dividing with remainder keeps the common divisors. */
  lemma {:induction false} GcdStep(d: nat, f: nat, g: nat, q: nat, r: nat)
    requires Xor(Mul(q, g), r) == f
    requires IsGcd(d, g, r)
    ensures IsGcd(d, f, g)
  {
    DividesMul(d, g, q);
    DividesXor(d, Mul(q, g), r);
    forall c | Divides(c, f) && Divides(c, g) ensures Divides(c, d) {
      DividesMul(c, g, q);
      DividesXor(c, Mul(q, g), f);
      XorCancel(r, Mul(q, g));
      assert Xor(Mul(q, g), f) == r;
    }
  }

  lemma {:induction false} CombinationStep(d: nat, f: nat, g: nat, q: nat, r: nat)
    requires Xor(Mul(q, g), r) == f
    requires Combination(d, g, r)
    ensures Combination(d, f, g)
  {
    var u, v :| Xor(Mul(u, g), Mul(v, r)) == d;
    var w := Xor(u, Mul(v, q));
    // v * f + (u + v * q) * g == v * q * g + v * r + u * g + v * q * g
    MulDistRight(v, Mul(q, g), r);
    MulAssoc(v, q, g);
    MulDistLeft(u, Mul(v, q), g);
    var t := Mul(v, Mul(q, g));
    assert Mul(v, f) == Xor(t, Mul(v, r));
    assert Mul(w, g) == Xor(Mul(u, g), t);
    XorComm(t, Mul(v, r));
    XorComm(Mul(u, g), t);
    XorAssoc(Mul(v, r), t, Xor(t, Mul(u, g)));
    XorCancel(Mul(u, g), t);
    XorComm(Mul(v, r), Mul(u, g));
    assert Xor(Mul(v, f), Mul(w, g)) == d;
  }

  lemma {:induction false} GcdSymmetric(d: nat, a: nat, b: nat)
    requires IsGcd(d, a, b)
    ensures IsGcd(d, b, a)
  {
  }

  lemma {:induction false} CombinationSymmetric(d: nat, a: nat, b: nat)
    requires Combination(d, a, b)
    ensures Combination(d, b, a)
  {
    var u, v :| Xor(Mul(u, a), Mul(v, b)) == d;
    XorComm(Mul(u, a), Mul(v, b));
    assert Xor(Mul(v, b), Mul(u, a)) == d;
  }

  /** A greatest common divisor of nonzero polynomials is nonzero. */
  lemma {:induction false} GcdNonzero(d: nat, a: nat, b: nat)
    requires IsGcd(d, a, b) && b > 0
    ensures d > 0 && Len(d) <= Len(b)
  {
    DividesLen(d, b);
  }

  // ---------- least common multiple ----------

  /** m * g == t * q * g * k when g is a combination of t and s == q * g. */
  lemma {:induction false} CommonMultiple(t: nat, s: nat, g: nat, q: nat, u: nat, v: nat, a: nat, b: nat, m: nat)
    requires g > 0 && Mul(q, g) == s && Xor(Mul(u, t), Mul(v, s)) == g
    requires Mul(a, t) == m && Mul(b, s) == m
    ensures Mul(Xor(Mul(u, b), Mul(v, a)), Mul(t, q)) == m
  {
    var k := Xor(Mul(u, b), Mul(v, a));
    var ts := Mul(t, s);
    // m * g == (u * t + v * s) * m
    calc {
      Mul(g, m);
      { MulDistLeft(Mul(u, t), Mul(v, s), m); }
      Xor(Mul(Mul(u, t), m), Mul(Mul(v, s), m));
      { Regroup(u, t, b, s); Regroup(v, s, a, t); MulComm(s, t); }
      Xor(Mul(Mul(u, b), ts), Mul(Mul(v, a), ts));
      { MulDistLeft(Mul(u, b), Mul(v, a), ts); }
      Mul(k, ts);
      { MulAssoc(t, q, g); }
      Mul(k, Mul(Mul(t, q), g));
      { MulAssoc(k, Mul(t, q), g); }
      Mul(Mul(k, Mul(t, q)), g);
    }
    MulComm(g, m);
    MulCancel(Mul(k, Mul(t, q)), m, g);
  }

  /** (u * t) * (b * s) == (u * b) * (t * s) */
  lemma {:induction false} Regroup(u: nat, t: nat, b: nat, s: nat)
    ensures Mul(Mul(u, t), Mul(b, s)) == Mul(Mul(u, b), Mul(t, s))
  {
    MulAssoc(u, t, Mul(b, s));
    MulAssoc(t, b, s);
    MulComm(t, b);
    MulAssoc(b, t, s);
    MulAssoc(u, b, Mul(t, s));
  }

  /** t * (s / gcd(t, s)) is the least common multiple of t and s. */
  lemma {:induction false} LcmFromGcd(t: nat, s: nat, g: nat, q: nat)
    requires IsGcd(g, t, s) && Combination(g, t, s) && g > 0 && Mul(q, g) == s
    ensures IsLcm(Mul(t, q), t, s)
  {
    var l := Mul(t, q);
    MulComm(t, q);
    assert Divides(t, l);
    assert Divides(s, l) by {
      var p :| Mul(p, g) == t;
      MulAssoc(p, g, q);
      MulComm(g, q);
      assert Mul(p, s) == l;
    }
    var u, v :| Xor(Mul(u, t), Mul(v, s)) == g;
    forall m | Divides(t, m) && Divides(s, m) ensures Divides(l, m) {
      var a :| Mul(a, t) == m;
      var b :| Mul(b, s) == m;
      CommonMultiple(t, s, g, q, u, v, a, b, m);
    }
  }

  lemma {:induction false} LcmCommutes(l: nat, a: nat, b: nat)
    requires IsLcm(l, a, b)
    ensures IsLcm(l, b, a)
  {
  }

  lemma {:induction false} LcmIdempotent(a: nat)
    ensures IsLcm(a, a, a)
  {
    DividesSelf(a);
  }

  /** Both ways of folding three polynomials give the same least common multiple. */
  lemma {:induction false} LcmAssociates(ab: nat, l: nat, bc: nat, m: nat, a: nat, b: nat, c: nat)
    requires IsLcm(ab, a, b) && IsLcm(l, ab, c)
    requires IsLcm(bc, b, c) && IsLcm(m, a, bc)
    ensures l == m
  {
    DividesTrans(a, ab, l);
    DividesTrans(b, ab, l);
    DividesTrans(b, bc, m);
    DividesTrans(c, bc, m);
    assert Divides(bc, l) && Divides(ab, m);
    DividesAntisymmetric(l, m);
  }
}
