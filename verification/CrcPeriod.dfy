/** Two wrong bits: the powers of x modulo the generator repeat after 32767 and no sooner, so the CRC tells
    every pair of wrong bits apart that is closer than that. */
module CrcPeriod {
  import opened Gf2
  import opened Crc
  import opened CrcDetection

  /** 2^15 - 1 = 7 * 31 * 151 */
  const PERIOD := 32767

  // ---- Steps are linear ----

  lemma MulOfAdd(a: Poly, b: Poly, qa: Poly, ra: Poly, qb: Poly, rb: Poly)
    requires a == Add(MulG(qa), ra) && b == Add(MulG(qb), rb)
    ensures Add(a, b) == Add(MulG(Add(qa, qb)), Add(ra, rb))
  {
    hide MulG;
    MulGAdd(qa, qb);
  }

  lemma StepsXor(a: bv16, b: bv16, n: nat)
    ensures Steps(a ^ b, n) == Steps(a, n) ^ Steps(b, n)
  {
    hide Steps, RegPoly, MulG, Add, Shift;
    var qa := StepsDivide(a, n);
    var qb := StepsDivide(b, n);
    var q := StepsDivide(a ^ b, n);
    XorPoly(a, b);
    ShiftAdd(RegPoly(a), RegPoly(b), n);
    XorPoly(Steps(a, n), Steps(b, n));
    MulOfAdd(Shift(RegPoly(a), n), Shift(RegPoly(b), n), qa, RegPoly(Steps(a, n)), qb, RegPoly(Steps(b, n)));
    var r, r' := RegPoly(Steps(a ^ b, n)), RegPoly(Steps(a, n) ^ Steps(b, n));
    DivisionUnique(Shift(RegPoly(a ^ b), n), q, r, Add(qa, qb), r');
    RegPolyInjective(Steps(a ^ b, n), Steps(a, n) ^ Steps(b, n));
  }

  lemma {:induction false} StepsAdd(r: bv16, m: nat, n: nat)
    ensures Steps(r, m + n) == Steps(Steps(r, m), n)
  {
    hide Step;
    if n > 0 {
      StepsAdd(r, m, n - 1);
    }
  }

  lemma {:induction false} StepsZero(n: nat)
    ensures Steps(0, n) == 0
  {
    if n > 0 {
      StepsZero(n - 1);
    }
  }

  // ---- Multiplying powers of x ----

  /** x^n modulo the generator. */
  function Power(n: nat): bv16 {
    Steps(1, n)
  }

  function Pick(a: bv16, m: bv16, b: bv16): bv16 {
    if a & m != 0 then b else 0
  }

  function Turn(h: bv16, a: bv16, m: bv16, b: bv16): bv16 {
    Step(h) ^ Pick(a, m, b)
  }

  /** Four bits of a, multiplied by b and added to h x^4. */
  function Quad(h: bv16, a: bv16, m3: bv16, m2: bv16, m1: bv16, m0: bv16, b: bv16): bv16 {
    Turn(Turn(Turn(Turn(h, a, m3, b), a, m2, b), a, m1, b), a, m0, b)
  }

  /** The product of a and b modulo the generator, by Horner's rule. */
  function Times(a: bv16, b: bv16): bv16 {
    Quad(Quad(Quad(Quad(0, a, 0x8000, 0x4000, 0x2000, 0x1000, b),
                   a, 0x0800, 0x0400, 0x0200, 0x0100, b),
              a, 0x0080, 0x0040, 0x0020, 0x0010, b),
         a, 0x0008, 0x0004, 0x0002, 0x0001, b)
  }

  lemma PickSteps(a: bv16, m: bv16, n: nat)
    ensures Steps(Pick(a, m, 1), n) == Pick(a, m, Power(n))
  {
  }

  /** One step first or last. */
  lemma StepCommutes(r: bv16, n: nat)
    ensures Steps(Step(r), n) == Step(Steps(r, n))
  {
  }

  lemma TurnOf(h: bv16, a: bv16, m: bv16, b: bv16, x: bv16, p: bv16)
    requires Step(h) == x && Pick(a, m, b) == p
    ensures Turn(h, a, m, b) == x ^ p
  {
    hide Step, Pick;
  }

  lemma XorSteps(x: bv16, p: bv16, n: nat, t: bv16, xs: bv16, ps: bv16)
    requires t == x ^ p && xs == Steps(x, n) && ps == Steps(p, n)
    ensures Steps(t, n) == xs ^ ps
  {
    StepsXor(x, p, n);
  }

  lemma TurnIs(r: bv16, a: bv16, m: bv16, n: nat)
    ensures Turn(Steps(r, n), a, m, Power(n)) == Steps(Turn(r, a, m, 1), n)
  {
    hide *;
    var x, p, xs, ps := Step(r), Pick(a, m, 1), Step(Steps(r, n)), Pick(a, m, Power(n));
    TurnOf(Steps(r, n), a, m, Power(n), xs, ps);
    TurnOf(r, a, m, 1, x, p);
    StepCommutes(r, n);
    PickSteps(a, m, n);
    XorSteps(x, p, n, Turn(r, a, m, 1), xs, ps);
  }

  lemma QuadIs(r: bv16, a: bv16, m3: bv16, m2: bv16, m1: bv16, m0: bv16, n: nat)
    ensures Quad(Steps(r, n), a, m3, m2, m1, m0, Power(n)) == Steps(Quad(r, a, m3, m2, m1, m0, 1), n)
  {
    hide Turn, Power;
    var r3 := Turn(r, a, m3, 1);
    var r2 := Turn(r3, a, m2, 1);
    TurnIs(r, a, m3, n);
    TurnIs(r3, a, m2, n);
    TurnIs(r2, a, m1, n);
    TurnIs(Turn(r2, a, m1, 1), a, m0, n);
  }

  lemma QuadOne(a: bv16)
    ensures Quad(0, a, 0x8000, 0x4000, 0x2000, 0x1000, 1) == a >> 12
  {
  }

  lemma QuadTwo(a: bv16)
    ensures Quad(a >> 12, a, 0x0800, 0x0400, 0x0200, 0x0100, 1) == a >> 8
  {
  }

  lemma QuadThree(a: bv16)
    ensures Quad(a >> 8, a, 0x0080, 0x0040, 0x0020, 0x0010, 1) == a >> 4
  {
  }

  lemma QuadFour(a: bv16)
    ensures Quad(a >> 4, a, 0x0008, 0x0004, 0x0002, 0x0001, 1) == a
  {
  }

  lemma TimesOne(a: bv16)
    ensures Times(a, 1) == a
  {
    hide Quad;
    QuadOne(a);
    QuadTwo(a);
    QuadThree(a);
    QuadFour(a);
  }

  /** Multiplying by x^n takes n steps. */
  lemma TimesPower(a: bv16, n: nat)
    ensures Times(a, Power(n)) == Steps(a, n)
  {
    hide Quad, Power;
    StepsZero(n);
    var q3 := Quad(0, a, 0x8000, 0x4000, 0x2000, 0x1000, 1);
    var q2 := Quad(q3, a, 0x0800, 0x0400, 0x0200, 0x0100, 1);
    var q1 := Quad(q2, a, 0x0080, 0x0040, 0x0020, 0x0010, 1);
    QuadIs(0, a, 0x8000, 0x4000, 0x2000, 0x1000, n);
    QuadIs(q3, a, 0x0800, 0x0400, 0x0200, 0x0100, n);
    QuadIs(q2, a, 0x0080, 0x0040, 0x0020, 0x0010, n);
    QuadIs(q1, a, 0x0008, 0x0004, 0x0002, 0x0001, n);
    TimesOne(a);
  }

  lemma PowerAdd(m: nat, n: nat)
    ensures Power(m + n) == Times(Power(m), Power(n))
  {
    hide Times;
    StepsAdd(1, m, n);
    TimesPower(Power(m), n);
  }

  lemma Product(m: nat, a: bv16, n: nat, b: bv16, c: bv16)
    requires Power(m) == a && Power(n) == b && Times(a, b) == c
    ensures Power(m + n) == c
  {
    hide Times, Power;
    PowerAdd(m, n);
  }

  lemma PowersTo8()
    ensures Power(1) == 0x0002 && Power(8) == 0x0100
  {
    assert Steps(1, 1) == Step(Steps(1, 0)) == 2;
    hide Power;
    Product(1, 0x0002, 1, 0x0002, 0x0004);
    Product(2, 0x0004, 2, 0x0004, 0x0010);
    Product(4, 0x0010, 4, 0x0010, 0x0100);
  }

  lemma PowersTo64()
    ensures Power(16) == 0x1021 && Power(32) == 0x3730 && Power(64) == 0xb861
  {
    hide Power;
    PowersTo8();
    Product(8, 0x0100, 8, 0x0100, 0x1021);
    Product(16, 0x1021, 16, 0x1021, 0x3730);
    Product(32, 0x3730, 32, 0x3730, 0xb861);
  }

  lemma PowersTo512()
    ensures Power(128) == 0xaefc && Power(256) == 0x8e29 && Power(512) == 0x13fc
  {
    hide Power;
    PowersTo64();
    Product(64, 0xb861, 64, 0xb861, 0xaefc);
    Product(128, 0xaefc, 128, 0xaefc, 0x8e29);
    Product(256, 0x8e29, 256, 0x8e29, 0x13fc);
  }

  lemma PowersTo4096()
    ensures Power(1024) == 0x36c4 && Power(2048) == 0xfd50 && Power(4096) == 0xaa9e
  {
    hide Power;
    PowersTo512();
    Product(512, 0x13fc, 512, 0x13fc, 0x36c4);
    Product(1024, 0x36c4, 1024, 0x36c4, 0xfd50);
    Product(2048, 0xfd50, 2048, 0xfd50, 0xaa9e);
  }

  lemma PowersTo32768()
    ensures Power(8192) == 0x881c && Power(16384) == 0x4458 && Power(32768) == 0x0002
  {
    hide Power;
    PowersTo4096();
    Product(4096, 0xaa9e, 4096, 0xaa9e, 0x881c);
    Product(8192, 0x881c, 8192, 0x881c, 0x4458);
    Product(16384, 0x4458, 16384, 0x4458, 0x0002);
  }

  /** The exponents PERIOD / 151, PERIOD / 31 and PERIOD / 7 do not lead back to 1 ... */
  lemma NotAfter217()
    ensures Power(217) != 1
  {
    hide Power;
    PowersTo8();
    PowersTo64();
    PowersTo512();
    Product(128, 0xaefc, 64, 0xb861, 0x650b);
    Product(192, 0x650b, 16, 0x1021, 0x45b4);
    Product(208, 0x45b4, 8, 0x0100, 0xac61);
    Product(216, 0xac61, 1, 0x0002, 0x48e3);
  }

  lemma NotAfter1057()
    ensures Power(1057) != 1
  {
    hide Power;
    PowersTo8();
    PowersTo64();
    PowersTo4096();
    Product(1024, 0x36c4, 32, 0x3730, 0xf147);
    Product(1056, 0xf147, 1, 0x0002, 0xf2af);
  }

  lemma NotAfter4681()
    ensures Power(4681) != 1
  {
    hide Power;
    PowersTo8();
    PowersTo64();
    PowersTo512();
    PowersTo4096();
    Product(4096, 0xaa9e, 512, 0x13fc, 0x54a0);
    Product(4608, 0x54a0, 64, 0xb861, 0x0106);
    Product(4672, 0x0106, 8, 0x0100, 0x1621);
    Product(4680, 0x1621, 1, 0x0002, 0x2c42);
  }

  lemma OnlyOneStepsToTwo(r: bv16)
    requires Step(r) == 2
    ensures r == 1
  {
  }

  /** ... but PERIOD does. */
  lemma BackToOne()
    ensures Power(PERIOD) == 1
  {
    hide Step;
    PowersTo32768();
    assert Power(PERIOD + 1) == Step(Power(PERIOD));
    OnlyOneStepsToTwo(Power(PERIOD));
  }

  // ---- The period ----

  lemma {:induction false} BackAgain(d: nat, k: nat)
    requires Power(d) == 1
    ensures Power(k * d) == 1
  {
    if k == 0 {
      assert Steps(1, 0) == 1;
    } else {
      BackAgain(d, k - 1);
      assert k * d == (k - 1) * d + d;
      StepsAdd(1, (k - 1) * d, d);
    }
  }

  lemma BackAfter(m: nat, n: nat)
    requires Power(m) == 1 && Power(m + n) == 1
    ensures Power(n) == 1
  {
    StepsAdd(1, m, n);
  }

  /** What is left over of one return after another, shorter one is a return. */
  lemma BackRemainder(n: nat, d: nat, k: nat, r: nat)
    requires Power(n) == 1 && Power(d) == 1 && n == k * d + r
    ensures Power(r) == 1
  {
    BackAgain(d, k);
    BackAfter(k * d, r);
  }

  lemma {:induction false} FirstReturn(d: nat) returns (g: nat)
    requires d > 0 && Power(d) == 1
    ensures 0 < g <= d && Power(g) == 1 && forall e: nat :: 0 < e < g ==> Power(e) != 1
  {
    hide Power;
    if e: nat :| 0 < e < d && Power(e) == 1 {
      g := FirstReturn(e);
    } else {
      g := d;
    }
  }

  // ---- PERIOD has no other large divisors ----

  lemma ByInverse(p: nat, x: nat, y: nat, c: nat, s: nat, t: nat) returns (m: int)
    requires p > 0 && x * y == p * c && x % p * s == p * t + 1
    ensures y == p * m
  {
    var a, r := x / p, x % p;
    assert x == p * a + r;
    m := c * s - a * y * s - t * y;
    calc {
      y;
      (r * s - p * t) * y;
      (x - p * a) * y * s - p * t * y;
      p * c * s - p * a * y * s - p * t * y;
      p * m;
    }
  }

  const INVERSES7 := [0, 1, 4, 5, 2, 3, 6]
  const INVERSES31 := [0, 1, 16, 21, 8, 25, 26, 9, 4, 7, 28, 17, 13, 12, 20, 29]

  lemma Inverse7(r: nat) returns (s: nat, t: nat)
    requires 0 < r < 7
    ensures r * s == 7 * t + 1
  {
    s := INVERSES7[r];
    t := r * s / 7;
  }

  lemma Inverse31Low(r: nat) returns (s: nat, t: nat)
    requires 0 < r < 16
    ensures r * s == 31 * t + 1 && s < 31
  {
    s := INVERSES31[r];
    t := r * s / 31;
  }

  /** The inverse of 31 - r is 31 minus that of r. */
  lemma Inverse31(r: nat) returns (s: nat, t: nat)
    requires 0 < r < 31
    ensures r * s == 31 * t + 1
  {
    if r < 16 {
      s, t := Inverse31Low(r);
    } else {
      var s0, t0 := Inverse31Low(31 - r);
      Mirrored(31 - r, s0, t0);
      s, t := 31 - s0, 31 - (31 - r) - s0 + t0;
    }
  }

  lemma Mirrored(r: nat, s: nat, t: nat)
    requires r * s == 31 * t + 1 && r < 31 && s < 31
    ensures (31 - r) * (31 - s) == 31 * (31 - r - s + t) + 1 && 31 - r - s + t >= 0
  {
  }

  lemma Prime151(x: nat, y: nat)
    requires x * y == 151
    ensures x == 1 || y == 1
  {
  }

  lemma SevenDivides(g: nat, k: nat) returns (m: int)
    requires g * k == 7 * 4681 && k % 7 != 0
    ensures g == 7 * m && m * k == 4681
  {
    var s, t := Inverse7(k % 7);
    m := ByInverse(7, k, g, 4681, s, t);
    assert 7 * (m * k) == g * k;
  }

  lemma ThirtyOneDivides(g: nat, k: nat) returns (m: int)
    requires g * k == 31 * 151 && k % 31 != 0
    ensures g == 31 * m && m * k == 151
  {
    var s, t := Inverse31(k % 31);
    m := ByInverse(31, k, g, 151, s, t);
    assert 31 * (m * k) == g * k;
  }

  lemma Cancel(p: nat, g: int, k: int, c: int)
    requires p > 0 && g * (p * k) == p * c
    ensures g * k == c
  {
  }

  /** A proper divisor of PERIOD divides one of the three exponents. */
  lemma ProperDivisor(g: nat, k: nat) returns (m: int)
    requires g * k == PERIOD && k > 1
    ensures g * m == 217 || g * m == 1057 || g * m == 4681
  {
    if k % 7 == 0 {
      m := k / 7;
      assert k == 7 * m;
      Cancel(7, g, m, 4681);
    } else {
      var g1 := SevenDivides(g, k);
      if k % 31 == 0 {
        m := k / 31;
        assert k == 31 * m;
        Cancel(31, g1, m, 151);
        assert g * m == 7 * (g1 * m);
      } else {
        var g2 := ThirtyOneDivides(g1, k);
        Prime151(g2, k);
        m := 1;
      }
    }
  }

  /** The powers of x return to 1 exactly at the multiples of PERIOD. */
  lemma PeriodIs(n: nat)
    ensures Power(n) == 1 <==> n % PERIOD == 0
  {
    hide Power;
    BackToOne();
    var k, r := n / PERIOD, n % PERIOD;
    if r == 0 {
      BackAgain(PERIOD, k);
    } else if Power(n) == 1 {
      BackRemainder(n, PERIOD, k, r);
      NoShortReturn(r);
    }
  }

  lemma NoShortReturn(d: nat)
    requires 0 < d < PERIOD
    ensures Power(d) != 1
  {
    hide Power;
    if Power(d) == 1 {
      BackToOne();
      var g := FirstReturn(d);
      var k, r := PERIOD / g, PERIOD % g;
      assert PERIOD == k * g + r;
      BackRemainder(PERIOD, g, k, r);
      assert r == 0;
      var m := ProperDivisor(g, k);
      BackAgain(g, m);
      NotAfter217();
      NotAfter1057();
      NotAfter4681();
    }
  }

  // ---- Two wrong bits ----

  lemma PairIsMultipleIff(d: nat)
    requires d > 0
    ensures (exists q :: MulG(q) == {0, d}) <==> d % PERIOD == 0
  {
    hide MulG, Steps;
    var q0 := StepsDivide(1, d);
    UnitPoly();
    PeriodIs(d);
    var one: Poly, top: Poly := {0}, {d};
    assert Shift(one, d) == top;
    if Power(d) == 1 {
      AddMove(MulG(q0), one, top);
      assert Add(top, one) == {0, d};
    }
    if q :| MulG(q) == {0, d} {
      assert top == Add(MulG(q), one);
      DivisionUnique(top, q0, RegPoly(Power(d)), q, one);
      RegPolyInjective(Power(d), 1);
    }
  }

  lemma UnitPoly()
    ensures RegPoly(1) == {0}
  {
  }

  /** Two wrong bits go unnoticed exactly when their distance is a multiple of PERIOD. */
  lemma TwoErrorsIff(init: bv16, a: seq<bv8>, b: seq<bv8>, i: nat, j: nat)
    requires |a| == |b| && i < j && Errors(a, b) == {i, j}
    ensures Message(init, a) == Message(init, b) <==> (j - i) % PERIOD == 0
  {
    hide MulG, Message, Difference, Errors;
    var low, d := 8 * |a| - 1 - j, j - i;
    assert i in Errors(a, b) && j in Errors(a, b);
    forall e: nat ensures e in Difference(a, b) <==> e in Shift({0, d}, low) {
      ErrorsAreDifference(a, b, e);
    }
    CollisionIff(init, a, b);
    PairIsMultipleIff(d);
    if q :| MulG(q) == {0, d} {
      MulGShift(q, low);
    }
    if q :| MulG(q) == Difference(a, b) {
      var q' := DivideOutX({0, d}, low, q);
    }
  }

  /** In a message of at most 4095 bytes, its CRC included, up to three wrong bits are always detected. */
  lemma ThreeErrorsDetected(init: bv16, a: seq<bv8>, b: seq<bv8>)
    requires |a| == |b| <= 4095 && 1 <= |Errors(a, b)| <= 3
    ensures Message(init, a) != Message(init, b)
  {
    hide Message, Errors;
    if |Errors(a, b)| == 2 {
      var i :| i in Errors(a, b);
      var rest := Errors(a, b) - {i};
      assert |rest| == 1;
      var j :| j in rest;
      assert |rest - {j}| == 0;
      assert Errors(a, b) == {i, j};
      if i < j {
        TwoErrorsIff(init, a, b, i, j);
      } else {
        TwoErrorsIff(init, a, b, j, i);
      }
    } else {
      OddErrorDetected(init, a, b);
    }
  }
}
