/** Word-vector arithmetic over GF(2)[x] (tools/utils.C): shifts, sums, products,
    long division, gcd and lcm, each proved against the algebra of Poly. */
module PolyWords {
  import opened Poly
  import opened PolyDivides
  import opened PolyBits

  // ---------- degree ----------

  /** getDegree of one word: -1 for zero. */
  method WordDegree(z: Word) returns (i: int)
    ensures -1 <= i <= 31
    ensures i == -1 <==> z == ZERO
    ensures i >= 0 ==> z[i]
    ensures forall b :: i < b < 32 ==> !z[b]
  {
    i := 31;
    while i >= 0 && !z[i]
      invariant -1 <= i <= 31
      invariant forall b :: i < b < 32 ==> !z[b]
    {
      i := i - 1;
    }
    ClearIsZero(z);
  }

  /** getDegree of a vector, for a normal one: its degree, or -1 for zero. */
  method Degree(v: Vec) returns (d: int)
    requires Normal(v)
    ensures d == Len(Val(v)) - 1
    ensures d >= 0 ==> |v| == 1 + d / 32 && v[0][d % 32] && forall b :: d % 32 < b < 32 ==> !v[0][b]
  {
    var deg := WordDegree(v[0]);
    d := (|v| - 1) * 32 + deg;
    ValZero(v);
    if deg >= 0 {
      assert Coef(v, d);
      BitVal(v, d);
      LenAtLeast(Val(v), d);
      forall e: nat | e >= d + 1 ensures !BitOf(Val(v), e) {
        BitVal(v, e);
      }
      LenFromBits(Val(v), d + 1);
    }
  }

  // ---------- shifts ----------

  /** What shiftLeft leaves in word i: its own low bits and the high bits of the
      next word. */
  function LeftWord(v: Vec, n: nat, i: nat): Word
    requires i < |v| && n < 32
  {
    WOr(WShl(v[i], n), if i + 1 < |v| then WShr(v[i + 1], 32 - n) else ZERO)
  }

  /** Position 32 * q + b moved down by n. */
  lemma {:induction false} Position(q: int, b: int, n: int)
    requires 0 <= b < 32 && 0 <= n < 32
    ensures b >= n ==> (32 * q + b - n) / 32 == q && (32 * q + b - n) % 32 == b - n
    ensures b < n ==> (32 * q + b - n) / 32 == q - 1 && (32 * q + b - n) % 32 == b - n + 32
  {
  }

  lemma {:induction false} LeftCoef(v: Vec, n: nat, i: nat, b: nat)
    requires 0 < n < 32 && i < |v| && b < 32
    ensures LeftWord(v, n, i)[b] == Coef(v, 32 * (|v| - 1 - i) + b - n)
  {
    Position(|v| - 1 - i, b, n);
  }

  lemma {:induction false} CarryCoef(v: Vec, n: nat, b: nat)
    requires 0 < n < 32 && v != [] && b < 32
    ensures WShr(v[0], 32 - n)[b] == Coef(v, 32 * |v| + b - n)
  {
    Position(|v|, b, n);
  }

  /** The vector with every bit moved up by n places. */
  lemma {:induction false} LeftShifted(v: Vec, n: nat, r: Vec, e: int)
    requires 0 < n < 32 && v != [] && |r| == |v| + 1
    requires r[0] == WShr(v[0], 32 - n)
    requires forall i :: 0 <= i < |v| ==> r[i + 1] == LeftWord(v, n, i)
    ensures Coef(r, e) == Coef(v, e - n)
  {
    if 0 <= e < 32 * |v| {
      var q, b := e / 32, e % 32;
      var i := |v| - 1 - q;
      assert e == 32 * q + b && r[i + 1] == LeftWord(v, n, i);
      LeftCoef(v, n, i, b);
    } else if 32 * |v| <= e < 32 * |r| {
      CarryCoef(v, n, e - 32 * |v|);
    }
  }

  lemma {:induction false} DropZero(r: Vec, e: int)
    requires r != [] && r[0] == ZERO
    ensures Coef(r[1..], e) == Coef(r, e)
  {
  }

  method ShiftLeft(v: Vec, n: nat) returns (r: Vec)
    requires n <= 32
    ensures forall e: int :: Coef(r, e) == Coef(v, e - n)
    ensures |v| <= |r| <= |v| + 1
    ensures |r| > |v| && n < 32 ==> r[0] != ZERO
    ensures n == 32 ==> r == v + [ZERO]
  {
    if n == 0 {
      return v;
    }
    if n == 32 {
      return v + [ZERO];
    }
    var prevmsb;
    r, prevmsb := ShiftWordsUp(v, n);
    if v != [] {
      ghost var full := [prevmsb] + r;
      forall e: int ensures Coef(full, e) == Coef(v, e - n) {
        LeftShifted(v, n, full, e);
      }
      if prevmsb != ZERO {
        r := [prevmsb] + r;
      } else {
        assert full[1..] == r;
        forall e: int ensures Coef(r, e) == Coef(full, e) {
          DropZero(full, e);
        }
      }
    }
  }

  /** The loop of shiftLeft, from the last word to the first. */
  method ShiftWordsUp(v: Vec, n: nat) returns (r: Vec, prevmsb: Word)
    requires 0 < n < 32
    ensures |r| == |v| && forall j :: 0 <= j < |v| ==> r[j] == LeftWord(v, n, j)
    ensures prevmsb == if v == [] then ZERO else WShr(v[0], 32 - n)
  {
    r, prevmsb := v, ZERO;
    var i := |v|;
    while i > 0
      invariant 0 <= i <= |v| && |r| == |v|
      invariant forall j :: 0 <= j < i ==> r[j] == v[j]
      invariant forall j :: i <= j < |v| ==> r[j] == LeftWord(v, n, j)
      invariant prevmsb == if i < |v| then WShr(v[i], 32 - n) else ZERO
    {
      i := i - 1;
      var msb := WShr(r[i], 32 - n);
      var low := WShl(r[i], n);
      if i < |v| - 1 {
        low := WOr(low, prevmsb);
      } else {
        assert low == LeftWord(v, n, i);
      }
      r := r[i := low];
      prevmsb := msb;
    }
  }

  /** What shiftRight leaves in word i: its own high bits and the low bits of the
      previous word. */
  function RightWord(v: Vec, n: nat, i: nat): Word
    requires i < |v| && n < 32
  {
    WOr(WShr(v[i], n), if i > 0 then WShl(v[i - 1], 32 - n) else ZERO)
  }

  lemma {:induction false} RightLead(v: Vec, n: nat, i: nat, c: nat)
    requires 0 < n < 32 && i < |v| && c < 32
    ensures RightWord(v, n, i)[31 - c] == Lead(v, 32 * i + c - n)
  {
    Position(i, c, n);
  }

  lemma {:induction false} TailLead(v: Vec, n: nat, c: nat)
    requires 0 < n < 32 && v != [] && c < 32
    ensures WShl(v[|v| - 1], 32 - n)[31 - c] == Lead(v, 32 * |v| + c - n)
  {
    Position(|v|, c, n);
  }

  lemma {:induction false} RightShifted(v: Vec, n: nat, r: Vec, j: nat)
    requires 0 < n < 32 && v != [] && |r| == |v| + 1
    requires r[|v|] == WShl(v[|v| - 1], 32 - n)
    requires forall i :: 0 <= i < |v| ==> r[i] == RightWord(v, n, i)
    ensures Lead(r, j) == Lead(v, j - n)
  {
    if j < 32 * |v| {
      var i, c := j / 32, j % 32;
      assert j == 32 * i + c && r[i] == RightWord(v, n, i);
      RightLead(v, n, i, c);
    } else if j < 32 * |r| {
      TailLead(v, n, j - 32 * |v|);
    }
  }

  lemma {:induction false} DropLast(r: Vec, j: nat)
    requires r != [] && r[|r| - 1] == ZERO
    ensures Lead(r[..|r| - 1], j) == Lead(r, j)
  {
  }

  lemma {:induction false} DropFirst(r: Vec, j: nat)
    requires r != []
    ensures Lead(r[1..], j) == Lead(r, j + 32)
  {
    assert (j + 32) / 32 == j / 32 + 1 && (j + 32) % 32 == j % 32;
  }

  /** The first n bits are zero. */
  ghost predicate EmptyFront(v: Vec, n: nat) {
    forall j :: 0 <= j < n ==> !Lead(v, j)
  }

  lemma {:induction false} FirstWordZero(r: Vec)
    requires r != []
    ensures r[0] == ZERO <==> EmptyFront(r, 32)
  {
    if EmptyFront(r, 32) {
      forall b | 0 <= b < 32 ensures !r[0][b] {
        assert !Lead(r, 31 - b);
      }
      ClearIsZero(r[0]);
    }
  }

  lemma {:induction false} FrontMoves(v: Vec, r: Vec, n: nat)
    requires n <= 32 && forall j: nat :: Lead(r, j) == Lead(v, j - n)
    ensures EmptyFront(r, 32) <==> EmptyFront(v, 32 - n)
  {
    if EmptyFront(r, 32) {
      forall j | 0 <= j < 32 - n ensures !Lead(v, j) {
        assert Lead(r, j + n) == Lead(v, j);
      }
    }
  }

  /** shiftRight keeps the vector aligned at its leading end: bits move n places
      away from it, zero words at the far end are left out, and a zero first word
      is dropped. */
  method ShiftRight(v: Vec, n: nat) returns (r: Vec, ghost dropped: bool)
    requires n <= 32
    ensures n == 0 || n == 32 ==> r == v
    ensures dropped <==> 0 < n < 32 && v != [] && EmptyFront(v, 32 - n)
    ensures n < 32 ==> forall j: nat :: Lead(r, j) == Lead(v, j - n + if dropped then 32 else 0)
  {
    dropped := false;
    if n == 0 || n == 32 || v == [] {
      return v, false;
    }
    r := ShiftWords(v, n);
    FrontMoves(v, r, n);
    FirstWordZero(r);
    if r[0] == ZERO {
      dropped := true;
      forall j: nat ensures Lead(r[1..], j) == Lead(v, j - n + 32) {
        DropFirst(r, j);
        assert Lead(r, j + 32) == Lead(v, j + 32 - n);
      }
      r := r[1..];
    }
  }

  method ShiftWords(v: Vec, n: nat) returns (r: Vec)
    requires 0 < n < 32 && v != []
    ensures r != [] && forall j: nat :: Lead(r, j) == Lead(v, j - n)
  {
    r := v;
    var prevlsb := ZERO;
    var i := 0;
    while i < |v|
      invariant 0 <= i <= |v| && |r| == |v|
      invariant forall j :: 0 <= j < i ==> r[j] == RightWord(v, n, j)
      invariant forall j :: i <= j < |v| ==> r[j] == v[j]
      invariant prevlsb == if i > 0 then WShl(v[i - 1], 32 - n) else ZERO
    {
      var lsb := WShl(r[i], 32 - n);
      var high := WShr(r[i], n);
      if i > 0 {
        high := WOr(high, prevlsb);
      } else {
        assert high == RightWord(v, n, i);
      }
      r := r[i := high];
      prevlsb := lsb;
      i := i + 1;
    }
    ghost var full := r + [prevlsb];
    forall j: nat ensures Lead(full, j) == Lead(v, j - n) {
      RightShifted(v, n, full, j);
    }
    if prevlsb != ZERO {
      r := r + [prevlsb];
    } else {
      assert full[..|full| - 1] == r;
      forall j: nat ensures Lead(r, j) == Lead(full, j) {
        DropLast(full, j);
      }
    }
  }

  // ---------- long division ----------

  /** The divisor aligned so that its leading bit, of degree gd, stands at bit b
      of the first word. */
  ghost predicate Aligned(gt: Vec, g: Vec, gd: nat, b: nat) {
    forall j: nat :: Lead(gt, j) == Coef(g, gd + 31 - b - j)
  }

  /** The degree of g is gd. */
  ghost predicate HasDegree(g: Vec, gd: nat) {
    Coef(g, gd) && forall e: int :: e > gd ==> !Coef(g, e)
  }

  lemma {:induction false} DegreeOf(g: Vec, gd: nat)
    requires gd == Len(Val(g)) - 1
    ensures HasDegree(g, gd)
  {
    LenZero(Val(g));
    TopBit(Val(g));
    BitVal(g, gd);
    forall e: int | e > gd ensures !Coef(g, e) {
      BitVal(g, e);
      BitAboveLen(Val(g), e);
    }
  }

  /** The first alignment of the divisor. */
  method Align(g: Vec, ghost gd: nat, gdeg: nat, fdeg: nat) returns (gt: Vec)
    requires Normal(g) && HasDegree(g, gd) && gdeg < 32 && fdeg < 32
    requires gd == 32 * (|g| - 1) + gdeg
    ensures Aligned(gt, g, gd, fdeg)
  {
    if fdeg > gdeg {
      gt := ShiftLeft(g, fdeg - gdeg);
      ghost var n := fdeg - gdeg;
      if |gt| > |g| {
        NoOverflow(gt, g, gd, n);
      }
      forall j: nat ensures Lead(gt, j) == Coef(g, gd + 31 - fdeg - j) {
        LeadIsCoef(gt, j);
      }
    } else {
      ghost var dropped;
      gt, dropped := ShiftRight(g, gdeg - fdeg);
      LeadIsCoef(g, 31 - gdeg);
      assert Lead(g, 31 - gdeg);
      forall j: nat ensures Lead(gt, j) == Coef(g, gd + 31 - fdeg - j) {
        LeadIsCoef(g, j - (gdeg - fdeg));
      }
    }
  }

  lemma {:induction false} NoOverflow(gt: Vec, g: Vec, gd: nat, n: nat)
    requires HasDegree(g, gd) && gd + n < 32 * |g| && |gt| == |g| + 1
    requires forall e: int :: Coef(gt, e) == Coef(g, e - n)
    ensures gt[0] == ZERO
  {
    forall b | 0 <= b < 32 ensures !gt[0][b] {
      assert gt[0][b] == Coef(gt, 32 * |g| + b);
    }
    ClearIsZero(gt[0]);
  }

  /** Moving the divisor one place on, across a word boundary when b is 0. */
  lemma {:induction false} NextAligned(gt: Vec, gt': Vec, g: Vec, gd: nat, b: nat, dropped: bool)
    requires HasDegree(g, gd) && b < 32 && Aligned(gt, g, gd, b)
    requires dropped <==> gt != [] && EmptyFront(gt, 31)
    requires forall j: nat :: Lead(gt', j) == Lead(gt, j - 1 + if dropped then 32 else 0)
    ensures Aligned(gt', g, gd, if b == 0 then 31 else b - 1)
  {
    assert Lead(gt, 31 - b);
    if b == 0 {
      assert EmptyFront(gt, 31);
    }
    forall j: nat ensures Lead(gt', j) == Coef(g, gd + 31 - (if b == 0 then 31 else b - 1) - j) {
      if b > 0 && j > 0 {
        assert Lead(gt, j - 1) == Coef(g, gd + 31 - b - (j - 1));
      }
    }
  }

  /** r' is r with the words of gt added from word i on. */
  ghost predicate Added(r: Vec, i: int, gt: Vec, r': Vec) {
    && |r'| == |r|
    && forall w :: 0 <= w < |r| ==> r'[w] == if i <= w < i + |gt| then WXor(r[w], gt[w - i]) else r[w]
  }

  /** The inner loop of the division: gt is added to r from word i on. */
  method XorAt(r: Vec, i: nat, gt: Vec) returns (r': Vec)
    requires i <= |r|
    ensures Added(r, i, gt, r')
  {
    r' := r;
    var j := 0;
    while i + j < |r| && j < |gt|
      invariant 0 <= j <= |gt| && i + j <= |r| && |r'| == |r|
      invariant forall w :: 0 <= w < |r| ==>
                  r'[w] == if i <= w < i + j then WXor(r[w], gt[w - i]) else r[w]
    {
      r' := r'[i + j := WXor(r'[i + j], gt[j])];
      j := j + 1;
    }
  }

  lemma {:induction false} AddedCoef(r: Vec, i: nat, gt: Vec, r': Vec, e: nat, j: int)
    requires i <= |r| && e < 32 * |r| && Added(r, i, gt, r') && j == 32 * |r| - 1 - 32 * i - e
    ensures Coef(r', e) == (Coef(r, e) != Lead(gt, j))
  {
    var w, b := |r| - 1 - e / 32, e % 32;
    assert j == 32 * (w - i) + (31 - b);
    if w >= i {
      assert j / 32 == w - i && j % 32 == 31 - b;
    }
  }

  /** Adding the aligned divisor adds its multiple of degree k. */
  lemma {:induction false} SubtractedCoef(r: Vec, r': Vec, gt: Vec, g: Vec, gd: nat, k: nat, e: int)
    requires gd <= k < 32 * |r| && HasDegree(g, gd) && Aligned(gt, g, gd, k % 32)
    requires Added(r, |r| - 1 - k / 32, gt, r')
    ensures Coef(r', e) == (Coef(r, e) != Coef(g, e - (k - gd)))
  {
    if 0 <= e < 32 * |r| {
      var i := |r| - 1 - k / 32;
      var j := 32 * |r| - 1 - 32 * i - e;
      AddedCoef(r, i, gt, r', e, j);
      AlignedAt(gt, g, gd, |r|, k, e, j);
    } else {
      NoTermAt(r, e);
      NoTermAt(r', e);
      NoTermAbove(g, gd, e - (k - gd));
    }
  }

  lemma {:induction false} NoTermAt(r: Vec, e: int)
    requires e < 0 || e >= 32 * |r|
    ensures !Coef(r, e)
  {
  }

  lemma {:induction false} NoTermAbove(g: Vec, gd: nat, e: int)
    requires HasDegree(g, gd) && (e < 0 || e > gd)
    ensures !Coef(g, e)
  {
  }

  lemma {:induction false} AlignedAt(gt: Vec, g: Vec, gd: nat, n: nat, k: nat, e: nat, j: int)
    requires gd <= k && HasDegree(g, gd) && Aligned(gt, g, gd, k % 32)
    requires j == 32 * n - 1 - 32 * (n - 1 - k / 32) - e
    ensures Lead(gt, j) == Coef(g, e - (k - gd))
  {
    PlaceOf(n, k, e, gd, n - 1 - k / 32, j);
  }

  lemma {:induction false} PlaceOf(n: nat, k: nat, e: int, gd: nat, i: int, j: int)
    requires i == n - 1 - k / 32 && j == 32 * n - 1 - 32 * i - e
    ensures gd + 31 - k % 32 - j == e - (k - gd) && (j < 0 ==> e - (k - gd) > gd)
  {
  }

  lemma {:induction false} SubtractedVal(r: Vec, r': Vec, g: Vec, n: nat)
    requires forall e: int :: Coef(r', e) == (Coef(r, e) != Coef(g, e - n))
    ensures Val(r') == Xor(Val(r), Shl(Val(g), n))
  {
    var sum := Xor(Val(r), Shl(Val(g), n));
    forall e: nat ensures Coef(r', e) == BitOf(sum, e) {
      BitXor(Val(r), Shl(Val(g), n), e);
      BitShl(Val(g), n, e);
      BitVal(r, e);
      if e >= n {
        BitVal(g, e - n);
      }
    }
    ValFromBits(r', sum);
  }

  function WAnd(a: Word, b: Word): Word {
    seq(32, i requires 0 <= i < 32 => a[i] && b[i])
  }

  lemma {:induction false} TestBit(w: Word, b: nat)
    requires b < 32
    ensures WAnd(w, OneBit(b)) != ZERO <==> w[b]
  {
    if w[b] {
      assert WAnd(w, OneBit(b))[b];
    } else {
      ClearIsZero(WAnd(w, OneBit(b)));
    }
  }

  lemma {:induction false} NextMask(b: nat)
    requires 0 < b < 32
    ensures WShr(OneBit(b), 1) == OneBit(b - 1)
  {
  }

  /** Appending a bit to a quotient: shift left by one, then set the last bit. */
  method PushBit(q: Vec, bit: bool) returns (q': Vec)
    requires Normal(q)
    ensures Normal(q') && Val(q') == Xor(Shl(Val(q), 1), if bit then 1 else 0)
  {
    q' := ShiftLeft(q, 1);
    Doubled(q, q');
    XorZero(Shl(Val(q), 1));
    if bit {
      ghost var even := q';
      q' := q'[|q'| - 1 := WOr(q'[|q'| - 1], OneBit(0))];
      SetLow(even, q');
    }
  }

  lemma {:induction false} Doubled(q: Vec, r: Vec)
    requires Normal(q) && forall e: int :: Coef(r, e) == Coef(q, e - 1)
    requires |q| <= |r| <= |q| + 1 && (|r| > |q| ==> r[0] != ZERO)
    ensures Normal(r) && Val(r) == Shl(Val(q), 1) && !Coef(r, 0)
  {
    forall e: nat ensures Coef(r, e) == BitOf(Shl(Val(q), 1), e) {
      BitShl(Val(q), 1, e);
      if e >= 1 {
        BitVal(q, e - 1);
      }
    }
    ValFromBits(r, Shl(Val(q), 1));
    if |q| > 1 && |r| == |q| {
      NormalLen(q);
      LenZero(Val(q));
      LenShl(Val(q), 1);
      LenNormal(r);
    }
  }

  lemma {:induction false} SetLow(q: Vec, r: Vec)
    requires Normal(q) && !Coef(q, 0) && r == q[|q| - 1 := WOr(q[|q| - 1], OneBit(0))]
    ensures Normal(r) && Val(r) == Xor(Val(q), 1)
  {
    forall e: nat ensures Coef(r, e) == BitOf(Xor(Val(q), 1), e) {
      BitXor(Val(q), 1, e);
      BitVal(q, e);
      if e > 0 {
        BitZero(e - 1);
      }
    }
    ValFromBits(r, Xor(Val(q), 1));
  }

  /** The identity kept by the loop: f == q * g * x^n + r. */
  lemma {:induction false} DivisionStep(F: nat, Q: nat, G: nat, R: nat, n: nat)
    requires F == Xor(Shl(Mul(Q, G), n + 1), R)
    ensures F == Xor(Shl(Mul(Shl(Q, 1), G), n), R)
    ensures F == Xor(Shl(Mul(Xor(Shl(Q, 1), 1), G), n), Xor(R, Shl(G, n)))
  {
    ShlMul(Q, G, 1);
    ShlAdd(Mul(Q, G), 1, n);
    MulDistLeft(Shl(Q, 1), 1, G);
    MulOne(G);
    var M := Mul(Shl(Q, 1), G);
    ShlXor(M, G, n);
    XorComm(R, Shl(G, n));
    XorAssoc(Shl(M, n), Shl(G, n), Xor(Shl(G, n), R));
    XorCancel(R, Shl(G, n));
  }

  /** What holds after the degrees above k have been dealt with. */
  ghost predicate Dividing(F: nat, g: Vec, gd: nat, q: Vec, r: Vec, k: int) {
    && Normal(q) && k + 1 >= gd
    && F == Xor(Shl(Mul(Val(q), Val(g)), k + 1 - gd), Val(r))
    && forall e: int :: e > k ==> !Coef(r, e)
  }

  lemma {:induction false} SkipBit(F: nat, g: Vec, gd: nat, q: Vec, q': Vec, r: Vec, k: nat)
    requires k >= gd && Dividing(F, g, gd, q, r, k) && !Coef(r, k)
    requires Normal(q') && Val(q') == Shl(Val(q), 1)
    ensures Dividing(F, g, gd, q', r, k - 1)
  {
    DivisionStep(F, Val(q), Val(g), Val(r), k - gd);
  }

  lemma {:induction false} TakeBit(F: nat, g: Vec, gd: nat, q: Vec, q': Vec, r: Vec, r': Vec, k: nat)
    requires k >= gd && Dividing(F, g, gd, q, r, k) && Coef(r, k) && HasDegree(g, gd)
    requires Normal(q') && Val(q') == Xor(Shl(Val(q), 1), 1)
    requires forall e: int :: Coef(r', e) == (Coef(r, e) != Coef(g, e - (k - gd)))
    ensures Dividing(F, g, gd, q', r', k - 1)
  {
    SubtractedVal(r, r', g, k - gd);
    DivisionStep(F, Val(q), Val(g), Val(r), k - gd);
    TopCleared(g, gd, r, r', k);
  }

  /** Both have their highest term at k: the sum has it below. */
  lemma {:induction false} TopCleared(g: Vec, gd: nat, r: Vec, r': Vec, k: nat)
    requires k >= gd && HasDegree(g, gd) && Coef(r, k) && forall e: int :: e > k ==> !Coef(r, e)
    requires forall e: int :: Coef(r', e) == (Coef(r, e) != Coef(g, e - (k - gd)))
    ensures forall e: int :: e > k - 1 ==> !Coef(r', e)
  {
    forall e: int | e > k - 1 ensures !Coef(r', e) {
      assert Coef(g, e - (k - gd)) == (e == k);
    }
  }

  /** One round of the division loop, without the moving of the divisor. */
  method DivideBit(q: Vec, r: Vec, i: nat, bitMask: Word, gt: Vec, ghost F: nat, ghost g: Vec, ghost gd: nat,
                   ghost k: nat)
    returns (q': Vec, r': Vec)
    requires gd <= k < 32 * |r| && i == |r| - 1 - k / 32 && bitMask == OneBit(k % 32)
    requires HasDegree(g, gd) && Aligned(gt, g, gd, k % 32) && Dividing(F, g, gd, q, r, k)
    ensures |r'| == |r| && Dividing(F, g, gd, q', r', k - 1)
  {
    TestBit(r[i], k % 32);
    if WAnd(r[i], bitMask) != ZERO {
      q' := PushBit(q, true);
      r' := XorAt(r, i, gt);
      forall e: int ensures Coef(r', e) == (Coef(r, e) != Coef(g, e - (k - gd))) {
        SubtractedCoef(r, r', gt, g, gd, k, e);
      }
      TakeBit(F, g, gd, q, q', r, r', k);
    } else {
      q' := PushBit(q, false);
      XorZero(Shl(Val(q), 1));
      r' := r;
      SkipBit(F, g, gd, q, q', r, k);
    }
  }

  /** The loop of quotient; that of remainder is the same without q.  The divisor
      is kept aligned at word i and moved one place per degree. */
  method DivideLoop(f: Vec, g: Vec, gt0: Vec, fFull: nat, gFull: nat) returns (q: Vec, r: Vec)
    requires f != [] && |f| == 1 + fFull / 32 && gFull <= fFull
    requires HasDegree(f, fFull) && HasDegree(g, gFull) && Aligned(gt0, g, gFull, fFull % 32)
    ensures |r| == |f| && Dividing(Val(f), g, gFull, q, r, gFull - 1)
  {
    var gt, bitMask, i := gt0, OneBit(fFull % 32), 0;
    q, r := [ZERO], f;
    StartDividing(f, g, gFull, fFull);
    var k: int := fFull;
    while k >= gFull
      invariant gFull - 1 <= k <= fFull && |r| == |f|
      invariant Dividing(Val(f), g, gFull, q, r, k)
      invariant k >= gFull ==> i == |r| - 1 - k / 32 && bitMask == OneBit(k % 32) && Aligned(gt, g, gFull, k % 32)
    {
      q, r := DivideBit(q, r, i, bitMask, gt, Val(f), g, gFull, k);
      gt, bitMask, i := NextPlace(gt, bitMask, i, k, g, gFull);
      PlaceBelow(k);
      k := k - 1;
    }
  }

  lemma {:induction false} PlaceBelow(k: nat)
    ensures k > 0 ==> (k - 1) % 32 == if k % 32 == 0 then 31 else k % 32 - 1
    ensures k > 0 ==> (k - 1) / 32 == if k % 32 == 0 then k / 32 - 1 else k / 32
  {
  }

  /** The end of a round: divisor, mask and word index move on by one place. */
  method NextPlace(gt: Vec, bitMask: Word, i: nat, k: nat, ghost g: Vec, ghost gd: nat)
    returns (gt': Vec, mask: Word, i': nat)
    requires HasDegree(g, gd) && Aligned(gt, g, gd, k % 32) && bitMask == OneBit(k % 32)
    ensures Aligned(gt', g, gd, if k % 32 == 0 then 31 else k % 32 - 1)
    ensures mask == OneBit(if k % 32 == 0 then 31 else k % 32 - 1)
    ensures i' == if k % 32 == 0 then i + 1 else i
  {
    ghost var dropped;
    gt', dropped := ShiftRight(gt, 1);
    NextAligned(gt, gt', g, gd, k % 32, dropped);
    mask := WShr(bitMask, 1);
    i' := i;
    if k % 32 == 0 {
      i' := i + 1;
      mask := OneBit(31);
    } else {
      NextMask(k % 32);
    }
  }

  lemma {:induction false} StartDividing(f: Vec, g: Vec, gd: nat, k: nat)
    requires k >= gd && HasDegree(f, k)
    ensures Dividing(Val(f), g, gd, [ZERO], f, k)
  {
    ValZero([ZERO]);
    MulZero(Val(g));
    ShlZero(k + 1 - gd);
    XorZero(Val(f));
  }

  lemma {:induction false} ShlZero(n: nat)
    ensures Shl(0, n) == 0
  {
    if n > 0 {
      ShlZero(n - 1);
    }
  }

  /** The result of a division: f == q * g + r with r of lower degree than g. */
  ghost predicate Divided(f: nat, g: nat, q: nat, r: nat) {
    f == Xor(Mul(q, g), r) && Len(r) < Len(g)
  }

  lemma {:induction false} DividingEnds(f: Vec, g: Vec, gd: nat, q: Vec, r: Vec)
    requires Dividing(Val(f), g, gd, q, r, gd - 1) && gd == Len(Val(g)) - 1
    ensures Divided(Val(f), Val(g), Val(q), Val(r))
  {
    forall e: nat | e >= gd ensures !BitOf(Val(r), e) {
      BitVal(r, e);
    }
    LenFromBits(Val(r), gd);
  }

  /** The shared part of remainder and quotient for a dividend of no lower degree. */
  method LongDivision(f: Vec, g: Vec) returns (q: Vec, r: Vec)
    requires Normal(f) && Normal(g) && 0 < Len(Val(g)) <= Len(Val(f))
    ensures Normal(q) && |r| == |f| && Divided(Val(f), Val(g), Val(q), Val(r))
  {
    var fdeg := WordDegree(f[0]);
    var gdeg := WordDegree(g[0]);
    var fFull := Degree(f);
    var gFull := Degree(g);
    assert fdeg == fFull % 32 && gdeg == gFull % 32;
    DegreeOf(f, fFull);
    DegreeOf(g, gFull);
    var gt := Align(g, gFull, gdeg, fdeg);
    q, r := DivideLoop(f, g, gt, fFull, gFull);
    DividingEnds(f, g, gFull, q, r);
  }

  /** Leading zero words are removed, all but the last word. */
  method StripZeros(v: Vec) returns (r: Vec)
    requires v != []
    ensures Normal(r) && Val(r) == Val(v)
  {
    r := v;
    while |r| > 1 && r[0] == ZERO
      invariant r != [] && Val(r) == Val(v)
      decreases |r|
    {
      forall e: nat ensures Coef(r[1..], e) == Coef(r, e) {
        DropZero(r, e);
      }
      ValSame(r[1..], r);
      r := r[1..];
    }
  }

  method Remainder(f: Vec, g: Vec) returns (r: Vec)
    requires Normal(f) && Normal(g) && Val(g) > 0
    ensures Normal(r) && exists q :: Divided(Val(f), Val(g), q, Val(r))
  {
    LenZero(Val(g));
    var fFull := Degree(f);
    var gFull := Degree(g);
    if fFull < gFull {
      MulZero(Val(g));
      XorZero(Val(f));
      assert Divided(Val(f), Val(g), 0, Val(f));
      return f;
    }
    var q;
    q, r := LongDivision(f, g);
    ghost var rest := r;
    r := StripZeros(r);
    assert Divided(Val(f), Val(g), Val(q), Val(r));
  }

  /** quotient, whose callers see to it that f has no lower degree than g. */
  method Quotient(f: Vec, g: Vec) returns (q: Vec)
    requires Normal(f) && Normal(g) && 0 < Len(Val(g)) <= Len(Val(f))
    ensures Normal(q) && exists r :: Divided(Val(f), Val(g), Val(q), r)
  {
    var r;
    q, r := LongDivision(f, g);
  }

  /** Quotient and remainder are determined by the division identity. */
  lemma {:induction false} DivisionUnique(f: nat, g: nat, q1: nat, r1: nat, q2: nat, r2: nat)
    requires Divided(f, g, q1, r1) && Divided(f, g, q2, r2)
    ensures q1 == q2 && r1 == r2
  {
    var q, r := Xor(q1, q2), Xor(r1, r2);
    XorSwap(Mul(q1, g), r1, Mul(q2, g), r2);
    XorSelf(f);
    MulDistLeft(q1, q2, g);
    assert Xor(Mul(q, g), r) == 0;
    XorEqual(Mul(q, g), r);
    LenXor(r1, r2);
    LenXor(r2, r1);
    XorComm(r1, r2);
    LenZero(g);
    if q > 0 {
      LenMul(q, g);
      LenZero(q);
    } else {
      assert Mul(0, g) == 0;
    }
    XorEqual(q1, q2);
    XorEqual(r1, r2);
  }

  lemma {:induction false} XorEqual(a: nat, b: nat)
    ensures Xor(a, b) == 0 <==> a == b
  {
    XorSelf(a);
    XorCancel(a, b);
    XorZero(b);
  }

  // ---------- gcd ----------

  method Gcd(f: Vec, g: Vec) returns (d: Vec)
    requires Normal(f) && Normal(g)
    ensures Normal(d) && IsGcd(Val(d), Val(f), Val(g)) && Combination(Val(d), Val(f), Val(g))
    decreases Len(Val(g))
  {
    ValZero(g);
    if |g| == 1 && g[0] == ZERO {
      GcdBase(Val(f));
      return f;
    }
    var r := Remainder(f, g);
    ghost var q :| Divided(Val(f), Val(g), q, Val(r));
    d := Gcd(g, r);
    GcdStep(Val(d), Val(f), Val(g), q, Val(r));
    CombinationStep(Val(d), Val(f), Val(g), q, Val(r));
  }

  /** gcdSpecial: the operand of higher degree goes first. */
  method GcdSpecial(f: Vec, g: Vec) returns (d: Vec)
    requires Normal(f) && Normal(g)
    ensures Normal(d) && IsGcd(Val(d), Val(f), Val(g)) && Combination(Val(d), Val(f), Val(g))
  {
    var degf := Degree(f);
    var degg := Degree(g);
    if degf >= degg {
      d := Gcd(f, g);
    } else {
      d := Gcd(g, f);
      GcdSymmetric(Val(d), Val(g), Val(f));
      CombinationSymmetric(Val(d), Val(g), Val(f));
    }
  }
}
