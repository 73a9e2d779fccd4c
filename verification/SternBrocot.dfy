/** The names of index nodes (tools/gis_chordID.C): each node owns an interval
    between two fractions, a split divides it at the mediant, and the left end
    names the node. */
module SternBrocot {
  /** From ln/ld, included, to rn/rd, excluded, at one level of the tree. */
  datatype Interval = Interval(ln: nat, ld: nat, rn: nat, rd: nat, level: nat)

  const WHOLE := Interval(0, 1, 1, 1, 0)

  predicate Unimodular(s: Interval) {
    s.ld > 0 && s.rd > 0 && s.rn * s.ld == s.ln * s.rd + 1
  }

  /** What the split node keeps. */
  function KeptPart(s: Interval): Interval {
    Interval(s.ln, s.ld, s.ln + s.rn, s.ld + s.rd, s.level)
  }

  /** What the new sibling gets. */
  function SiblingPart(s: Interval): Interval {
    Interval(s.ln + s.rn, s.ld + s.rd, s.rn, s.rd, s.level)
  }

  predicate Before(a: nat, b: nat, c: nat, d: nat) {
    a * d <= c * b
  }

  /** One interval ends before the other begins. */
  predicate Apart(s: Interval, t: Interval) {
    Before(s.rn, s.rd, t.ln, t.ld) || Before(t.rn, t.rd, s.ln, s.ld)
  }

  /** The fraction x/y lies in the interval. */
  predicate InSpan(x: nat, y: nat, s: Interval) {
    s.ln * y <= x * s.ld && x * s.rd < s.rn * y
  }

  lemma {:induction false} Scale(a: nat, b: nat, c: nat)
    requires c > 0 && a * c <= b * c
    ensures a <= b
  {
    assert b * c < a * c <==> (a - b) * c > 0;
    assert b < a ==> (a - b) * c > 0;
  }

  lemma {:induction false} BeforeTrans(a: nat, b: nat, c: nat, d: nat, e: nat, f: nat)
    requires d > 0 && Before(a, b, c, d) && Before(c, d, e, f)
    ensures Before(a, b, e, f)
  {
    assert (a * f) * d == (a * d) * f;
    assert (a * d) * f <= (c * b) * f;
    assert (c * b) * f == (c * f) * b;
    assert (c * f) * b <= (e * d) * b;
    assert (e * d) * b == (e * b) * d;
    Scale(a * f, e * b, d);
  }

  /** The mediant lies strictly inside, and both parts are unimodular again. */
  lemma {:induction false} MediantSplits(s: Interval)
    requires Unimodular(s)
    ensures Unimodular(KeptPart(s)) && Unimodular(SiblingPart(s))
    ensures Before(s.ln, s.ld, s.ln + s.rn, s.ld + s.rd) && Before(s.ln + s.rn, s.ld + s.rd, s.rn, s.rd)
    ensures !Before(s.ln + s.rn, s.ld + s.rd, s.ln, s.ld)
    ensures (s.ln + s.rn) * s.rd < s.rn * (s.ld + s.rd)
  {
    assert (s.ln + s.rn) * s.ld == s.ln * s.ld + s.rn * s.ld;
    assert s.ln * (s.ld + s.rd) == s.ln * s.ld + s.ln * s.rd;
    assert (s.ln + s.rn) * s.rd == s.ln * s.rd + s.rn * s.rd;
    assert s.rn * (s.ld + s.rd) == s.rn * s.ld + s.rn * s.rd;
  }

  /** The parts of a split stay apart from everything the whole was apart from. */
  lemma {:induction false} PartsApart(s: Interval, t: Interval)
    requires Unimodular(s) && Unimodular(t) && Apart(s, t)
    ensures Apart(KeptPart(s), t) && Apart(SiblingPart(s), t)
    ensures Apart(t, KeptPart(s)) && Apart(t, SiblingPart(s))
  {
    MediantSplits(s);
    if Before(s.rn, s.rd, t.ln, t.ld) {
      BeforeTrans(s.ln + s.rn, s.ld + s.rd, s.rn, s.rd, t.ln, t.ld);
    } else {
      BeforeTrans(t.rn, t.rd, s.ln, s.ld, s.ln + s.rn, s.ld + s.rd);
    }
  }

  /** The name of the new sibling is not the name of anything apart from the node. */
  lemma {:induction false} SiblingNameIsFresh(s: Interval, t: Interval)
    requires Unimodular(s) && Unimodular(t) && (s == t || Apart(s, t))
    ensures !(t.ln == SiblingPart(s).ln && t.ld == SiblingPart(s).ld)
  {
    MediantSplits(s);
    var m := SiblingPart(s);
    if t.ln == m.ln && t.ld == m.ld {
      if s != t && Before(t.rn, t.rd, s.ln, s.ld) {
        BeforeTrans(t.ln, t.ld, t.rn, t.rd, s.ln, s.ld);
      }
    }
  }

  /** Nothing falls between the two parts. */
  lemma {:induction false} PartsCover(x: nat, y: nat, s: Interval)
    requires Unimodular(s) && InSpan(x, y, s)
    ensures InSpan(x, y, KeptPart(s)) || InSpan(x, y, SiblingPart(s))
  {
  }

  /** A fraction lies in no two intervals that are apart. */
  lemma {:induction false} OneSpan(x: nat, y: nat, s: Interval, t: Interval)
    requires Unimodular(s) && Unimodular(t) && Apart(s, t) && InSpan(x, y, s)
    ensures !InSpan(x, y, t)
  {
    if InSpan(x, y, t) {
      if Before(s.rn, s.rd, t.ln, t.ld) {
        Squeeze(x, y, s.rn, s.rd, t.ln, t.ld);
      } else {
        Squeeze(x, y, t.rn, t.rd, s.ln, s.ld);
      }
    }
  }

  /** x/y cannot be below a/b and at or above c/d when a/b comes first. */
  lemma {:induction false} Squeeze(x: nat, y: nat, a: nat, b: nat, c: nat, d: nat)
    requires x * b < a * y && c * y <= x * d && b > 0 && d > 0
    ensures !Before(a, b, c, d)
  {
    if a * d <= c * b {
      if y > 0 {
        BeforeTrans(c, d, x, y, x, y);
        assert (a * d) * y <= (c * b) * y;
        assert (c * b) * y == (c * y) * b <= (x * d) * b;
        assert (x * d) * b == (x * b) * d;
        assert (a * d) * y == (a * y) * d;
        Scale(a * y, x * b, d);
      }
    }
  }
}
