/** Polynomials over GF(2), written as the set of exponents whose coefficient is 1.
    Addition is symmetric difference; G is the generator x^16 + x^12 + x^5 + 1. */
module Gf2 {

  type Poly = set<nat>

  function Add(p: Poly, q: Poly): Poly {
    (p - q) + (q - p)
  }

  /** p times x^k. */
  function Shift(p: Poly, k: nat): (r: Poly)
    ensures forall e: nat {:trigger e in r} :: e in r <==> e >= k && (e - k) in p
  {
    var r := set e | e in p :: e + k;
    assert forall f :: f in p ==> f + k in r;
    r
  }

  /** q times the generator. */
  function MulG(q: Poly): Poly {
    Add(Add(Shift(q, 16), Shift(q, 12)), Add(Shift(q, 5), q))
  }

  /** p has degree below n (the zero polynomial has degree below every n). */
  ghost predicate Below(p: Poly, n: nat) {
    forall e :: e in p ==> e < n
  }

  /** The two defining facts of a division by the generator: p = q * G + r with deg r < 16. */
  ghost predicate DividesInto(p: Poly, q: Poly, r: Poly) {
    Below(r, 16) && p == Add(MulG(q), r)
  }

  lemma AddCancel(p: Poly, q: Poly, r: Poly)
    ensures Add(p, q) == Add(p, r) <==> q == r
  {
  }

  lemma ShiftAdd(p: Poly, q: Poly, k: nat)
    ensures Shift(Add(p, q), k) == Add(Shift(p, k), Shift(q, k))
  {
  }

  lemma ShiftShift(p: Poly, j: nat, k: nat)
    ensures Shift(Shift(p, j), k) == Shift(p, j + k)
  {
  }

  lemma MulGAdd(p: Poly, q: Poly)
    ensures MulG(Add(p, q)) == Add(MulG(p), MulG(q))
  {
    hide Shift;
    ShiftAdd(p, q, 16);
    ShiftAdd(p, q, 12);
    ShiftAdd(p, q, 5);
  }

  lemma MulGShift(q: Poly, k: nat)
    ensures MulG(Shift(q, k)) == Shift(MulG(q), k)
  {
    ShiftShift(q, k, 16); ShiftShift(q, 16, k);
    ShiftShift(q, k, 12); ShiftShift(q, 12, k);
    ShiftShift(q, k, 5); ShiftShift(q, 5, k);
    ShiftAdd(Add(Shift(q, 16), Shift(q, 12)), Add(Shift(q, 5), q), k);
    ShiftAdd(Shift(q, 16), Shift(q, 12), k);
    ShiftAdd(Shift(q, 5), q, k);
  }

  /** One stage of long division: if p leaves s, and s x^k + e leaves t, then p x^k + e leaves t. */
  lemma DivisionStage(p: Poly, q0: Poly, s: Poly, k: nat, e: Poly, q1: Poly, t: Poly)
    requires p == Add(MulG(q0), s)
    requires Add(Shift(s, k), e) == Add(MulG(q1), t)
    ensures Add(Shift(p, k), e) == Add(MulG(Add(Shift(q0, k), q1)), t)
  {
    MulGAdd(Shift(q0, k), q1);
    MulGShift(q0, k);
    ShiftAdd(MulG(q0), s, k);
    AddSwap(Shift(MulG(q0), k), Shift(s, k), e, MulG(q1), t);
  }

  lemma AddSwap(a: Poly, b: Poly, e: Poly, c: Poly, t: Poly)
    requires Add(b, e) == Add(c, t)
    ensures Add(Add(a, b), e) == Add(Add(a, c), t)
  {
  }

  lemma {:induction false} Extremes(p: Poly) returns (lo: nat, hi: nat)
    requires p != {}
    ensures lo in p && hi in p
    ensures forall e :: e in p ==> lo <= e <= hi
    decreases |p|
  {
    var x: nat :| x in p;
    var rest := p - {x};
    lo, hi := x, x;
    if rest != {} {
      assert |rest| < |p|;
      var l, h := Extremes(rest);
      lo, hi := if l < x then l else x, if h > x then h else x;
      forall e | e in p ensures lo <= e <= hi {
        assert e == x || e in rest;
      }
    }
  }

  /** A nonzero multiple of the generator spans at least 17 consecutive exponents: its lowest term
      is that of the cofactor, its highest is 16 above the cofactor's. */
  lemma MultipleSpan(q: Poly) returns (lo: nat, hi: nat)
    requires q != {}
    ensures lo in MulG(q) && hi in MulG(q) && hi >= lo + 16
    ensures lo in q && forall e :: e in MulG(q) ==> lo <= e <= hi
  {
    var top;
    lo, top := Extremes(q);
    hi := top + 16;
  }

  /** Quotient and remainder of a division by the generator are unique. */
  lemma DivisionUnique(p: Poly, q: Poly, r: Poly, q': Poly, r': Poly)
    requires DividesInto(p, q, r) && DividesInto(p, q', r')
    ensures q == q' && r == r'
  {
    var d := Add(q, q');
    MulGAdd(q, q');
    assert MulG(d) == Add(r, r') by {
      forall e: nat ensures e in MulG(d) <==> e in Add(r, r') {
        assert e in Add(MulG(q), r) <==> e in Add(MulG(q'), r');
      }
    }
    if d != {} {
      var lo, hi := MultipleSpan(d);
      assert false;
    }
    assert q == q' by {
      forall e: nat ensures e in q <==> e in q' {
        assert e !in d;
      }
    }
    AddCancel(MulG(q), r, r');
  }

  lemma ShiftCancel(p: Poly, q: Poly, k: nat)
    requires Shift(p, k) == Shift(q, k)
    ensures p == q
  {
    forall e: nat ensures e in p <==> e in q {
      assert e + k in Shift(p, k) <==> e + k in Shift(q, k);
    }
  }

  /** p divided by x^k, for p with no term below x^k. */
  function Unshift(p: Poly, k: nat): (r: Poly)
    requires forall e :: e in p ==> e >= k
    ensures Shift(r, k) == p
  {
    var r := set e | e in p :: e - k;
    assert forall e :: e in p ==> e - k in r;
    r
  }

  /** The generator is coprime to x: a multiple of G that x^k divides is x^k times a multiple of G. */
  lemma DivideOutX(p: Poly, k: nat, q: Poly) returns (q': Poly)
    requires MulG(q) == Shift(p, k)
    ensures MulG(q') == p
  {
    if q == {} {
      q' := {};
      ShiftCancel(MulG(q'), p, k);
      return;
    }
    var lo, hi := MultipleSpan(q);
    assert lo >= k && forall e :: e in q ==> e >= lo by {
      assert lo in Shift(p, k);
      var l, h := Extremes(q);
      assert l in MulG(q);
    }
    q' := Unshift(q, k);
    MulGShift(q', k);
    ShiftCancel(MulG(q'), p, k);
  }

  lemma {:induction false} ParityAdd(p: Poly, q: Poly)
    ensures |Add(p, q)| % 2 == 0 <==> |p| % 2 == |q| % 2
  {
  }

  lemma {:induction false} ShiftCard(p: Poly, k: nat)
    ensures |Shift(p, k)| == |p|
    decreases |p|
  {
    if p != {} {
      var x :| x in p;
      var rest := p - {x};
      ShiftCard(rest, k);
      assert Shift(p, k) == Shift(rest, k) + {x + k};
    } else {
      assert Shift(p, k) == {};
    }
  }

  /** G has an even number of terms, so every multiple of it has too. */
  lemma MultipleHasEvenWeight(q: Poly)
    ensures |MulG(q)| % 2 == 0
  {
    var a, b := Add(Shift(q, 16), Shift(q, 12)), Add(Shift(q, 5), q);
    assert |a| % 2 == 0 by { ShiftCard(q, 16); ShiftCard(q, 12); ParityAdd(Shift(q, 16), Shift(q, 12)); }
    assert |b| % 2 == 0 by { ShiftCard(q, 5); ParityAdd(Shift(q, 5), q); }
    ParityAdd(a, b);
  }
}
