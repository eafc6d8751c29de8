/** The CRC-16 of the radio stack: the bit-at-a-time form, its meaning as polynomial division and
    the errors it detects. */
module Crc {
  import opened Gf2

  /** One turn of the loop: shift out the top bit and fold in the generator when it was set. */
  function Step(crc: bv16): bv16 {
    if crc & 0x8000 != 0 then (crc << 1) ^ 0x1021 else crc << 1
  }

  function Steps(crc: bv16, n: nat): bv16 {
    if n == 0 then crc else Step(Steps(crc, n - 1))
  }

  /** What crcByte computes. */
  function Byte(crc: bv16, b: bv8): bv16 {
    Steps(crc ^ ((b as bv16) << 8), 8)
  }

  /** Folding crcByte over a message from an initial register value. */
  function Message(init: bv16, msg: seq<bv8>): bv16 {
    if msg == [] then init
    else Byte(Message(init, msg[..|msg| - 1]), msg[|msg| - 1])
  }

  /** crcByte as written: a do-while loop on an 8-bit counter. */
  method CrcByte(crc0: bv16, b: bv8) returns (crc: bv16)
    ensures crc == Byte(crc0, b)
  {
    crc := crc0 ^ ((b as bv16) << 8);
    ghost var start := crc;
    NoStep(start);
    hide *;
    var i := 8;
    while true
      invariant 0 < i <= 8
      invariant crc == Steps(start, 8 - i)
      decreases i
    {
      OneStep(start, 8 - i);
      StepIs(crc);
      if crc & 0x8000 != 0 {
        crc := crc << 1;
        crc := crc ^ 0x1021;
      } else {
        crc := crc << 1;
      }
      i := i - 1;
      if i == 0 {
        break;
      }
    }
  }

  lemma NoStep(start: bv16)
    ensures Steps(start, 0) == start
  {
  }

  lemma StepIs(crc: bv16)
    ensures crc & 0x8000 != 0 ==> Step(crc) == (crc << 1) ^ 0x1021
    ensures crc & 0x8000 == 0 ==> Step(crc) == crc << 1
  {
  }

  lemma OneStep(start: bv16, n: nat)
    ensures Steps(start, n + 1) == Step(Steps(start, n))
  {
    hide Step;
  }

  // ---- Registers and messages as polynomials ----

  function Mask(e: nat): bv16
    requires e < 16
  {
    if e == 0 then 0x0001 else if e == 1 then 0x0002 else if e == 2 then 0x0004 else if e == 3 then 0x0008
    else if e == 4 then 0x0010 else if e == 5 then 0x0020 else if e == 6 then 0x0040 else if e == 7 then 0x0080
    else if e == 8 then 0x0100 else if e == 9 then 0x0200 else if e == 10 then 0x0400 else if e == 11 then 0x0800
    else if e == 12 then 0x1000 else if e == 13 then 0x2000 else if e == 14 then 0x4000 else 0x8000
  }

  predicate Has(r: bv16, m: bv16) {
    r & m != 0
  }

  predicate Bit(r: bv16, e: nat)
    requires e < 16
  {
    Has(r, Mask(e))
  }

  function RegPoly(r: bv16): (p: Poly)
    ensures Below(p, 16)
  {
    set e: nat | e < 16 && Bit(r, e)
  }

  function BytePoly(b: bv8): Poly {
    RegPoly(b as bv16)
  }

  /** The message as a polynomial: the first byte is the most significant, each byte high bit first. */
  function MsgPoly(msg: seq<bv8>): Poly {
    if msg == [] then {}
    else Add(Shift(MsgPoly(msg[..|msg| - 1]), 8), BytePoly(msg[|msg| - 1]))
  }

  lemma BitXor(a: bv16, b: bv16, e: nat)
    requires e < 16
    ensures Bit(a ^ b, e) <==> Bit(a, e) != Bit(b, e)
  {
    MaskSingle(e);
    XorHas(a, b, Mask(e));
  }

  predicate Single(m: bv16) {
    m != 0 && m & (m - 1) == 0
  }

  lemma MaskSingle(e: nat)
    requires e < 16
    ensures Single(Mask(e))
  {
  }

  lemma XorHas(a: bv16, b: bv16, m: bv16)
    requires Single(m)
    ensures Has(a ^ b, m) <==> Has(a, m) != Has(b, m)
  {
  }

  lemma BitShl1(a: bv16, e: nat)
    requires e < 16
    ensures Bit(a << 1, e) <==> e > 0 && Bit(a, e - 1)
  {
  }

  lemma BitShl8(b: bv8, e: nat)
    requires e < 16
    ensures Bit((b as bv16) << 8, e) <==> e >= 8 && Bit(b as bv16, e - 8)
  {
  }

  lemma ByteBelow8(b: bv8)
    ensures Below(BytePoly(b), 8)
  {
  }

  // ---- One step, one byte, one message of long division ----

  lemma XorPoly(a: bv16, b: bv16)
    ensures RegPoly(a ^ b) == Add(RegPoly(a), RegPoly(b))
  {
    forall e: nat | e < 16 ensures e in RegPoly(a ^ b) <==> e in Add(RegPoly(a), RegPoly(b)) {
      BitXor(a, b, e);
    }
  }

  lemma Shl1Poly(a: bv16)
    ensures Add(RegPoly(a << 1), if Bit(a, 15) then {16} else {}) == Shift(RegPoly(a), 1)
  {
    var l, r := Add(RegPoly(a << 1), if Bit(a, 15) then {16} else {}), Shift(RegPoly(a), 1);
    forall e: nat ensures e in l <==> e in r {
      if e < 16 {
        BitShl1(a, e);
      }
    }
  }

  lemma GeneratorPoly()
    ensures Add(RegPoly(0x1021), {16}) == MulG({0})
  {
  }

  lemma TopStep(r: bv16)
    requires Bit(r, 15)
    ensures RegPoly(Step(r)) == Add(RegPoly(r << 1), RegPoly(0x1021))
  {
    XorPoly(r << 1, 0x1021);
  }

  lemma PlainStep(r: bv16)
    requires !Bit(r, 15)
    ensures Step(r) == r << 1
  {
  }

  lemma AddInsert(p: Poly, q: Poly, t: Poly, g: Poly, u: Poly)
    requires Add(p, t) == q && Add(u, t) == g
    ensures q == Add(g, Add(p, u))
  {
  }

  /** One step multiplies by x and subtracts the generator when the degree reached 16. */
  lemma StepDivides(r: bv16)
    ensures Shift(RegPoly(r), 1) == Add(MulG(if Bit(r, 15) then {0} else {}), RegPoly(Step(r)))
  {
    hide *;
    Shl1Poly(r);
    if Bit(r, 15) {
      TopStep(r);
      GeneratorPoly();
      AddInsert(RegPoly(r << 1), Shift(RegPoly(r), 1), {16}, MulG({0}), RegPoly(0x1021));
    } else {
      PlainStep(r);
      AddZero(RegPoly(r << 1));
    }
  }

  lemma AddZero(p: Poly)
    ensures MulG({}) == {}
    ensures Add(p, {}) == p && Add(MulG({}), p) == p
  {
  }

  /** n steps multiply by x^n and subtract a multiple of the generator. */
  lemma {:induction false} StepsDivide(r: bv16, n: nat) returns (q: Poly)
    ensures Shift(RegPoly(r), n) == Add(MulG(q), RegPoly(Steps(r, n)))
  {
    if n == 0 {
      q := {};
    } else {
      var q0 := StepsDivide(r, n - 1);
      q := StepAfter(RegPoly(r), q0, n - 1, Steps(r, n - 1));
    }
  }

  lemma StepAfter(p: Poly, q0: Poly, n: nat, s: bv16) returns (q: Poly)
    requires Shift(p, n) == Add(MulG(q0), RegPoly(s))
    ensures Shift(p, n + 1) == Add(MulG(q), RegPoly(Step(s)))
  {
    var top: Poly := if Bit(s, 15) then {0} else {};
    StepDivides(s);
    DivisionStage(Shift(p, n), q0, RegPoly(s), 1, {}, top, RegPoly(Step(s)));
    ShiftShift(p, n, 1);
    q := Add(Shift(q0, 1), top);
  }

  lemma InjectPoly(r: bv16, b: bv8)
    ensures RegPoly(r ^ ((b as bv16) << 8)) == Add(RegPoly(r), Shift(BytePoly(b), 8))
  {
    XorPoly(r, (b as bv16) << 8);
    Shl8Poly(b);
  }

  lemma Shl8Poly(b: bv8)
    ensures RegPoly((b as bv16) << 8) == Shift(BytePoly(b), 8)
  {
    var l, r := RegPoly((b as bv16) << 8), Shift(BytePoly(b), 8);
    ByteBelow8(b);
    forall e: nat ensures e in l <==> e in r {
      if e < 16 {
        BitShl8(b, e);
      }
    }
  }

  /** crcByte is one byte of long division: (reg + b x^8) x^8 = new reg + a multiple of G. */
  lemma ByteDivides(r: bv16, b: bv8) returns (q: Poly)
    ensures Add(Shift(RegPoly(r), 8), Shift(BytePoly(b), 16)) == Add(MulG(q), RegPoly(Byte(r, b)))
  {
    var s := r ^ ((b as bv16) << 8);
    q := StepsDivide(s, 8);
    InjectPoly(r, b);
    ShiftAdd(RegPoly(r), Shift(BytePoly(b), 8), 8);
    ShiftShift(BytePoly(b), 8, 8);
  }

  /** The dividend of a message: M(x) x^16, with the initial register added to its first 16 bits. */
  function Dividend(init: bv16, msg: seq<bv8>): Poly {
    Add(Shift(MsgPoly(msg), 16), Shift(RegPoly(init), 8 * |msg|))
  }

  /** The register after a message is the remainder of the dividend by the generator. */
  lemma {:induction false} MessageDivides(init: bv16, msg: seq<bv8>) returns (q: Poly)
    ensures DividesInto(Dividend(init, msg), q, RegPoly(Message(init, msg)))
  {
    if msg == [] {
      q := {};
    } else {
      var front, b := msg[..|msg| - 1], msg[|msg| - 1];
      var q0 := MessageDivides(init, front);
      var q1 := ByteDivides(Message(init, front), b);
      q := Add(Shift(q0, 8), q1);
      DivisionStage(Dividend(init, front), q0, RegPoly(Message(init, front)), 8,
                    Shift(BytePoly(b), 16), q1, RegPoly(Message(init, msg)));
      DividendStep(init, front, b, msg);
    }
  }

  lemma DividendStep(init: bv16, front: seq<bv8>, b: bv8, msg: seq<bv8>)
    requires msg == front + [b]
    ensures Dividend(init, msg) == Add(Shift(Dividend(init, front), 8), Shift(BytePoly(b), 16))
  {
    assert msg[..|msg| - 1] == front;
    DividendShift(MsgPoly(front), BytePoly(b), RegPoly(init), 8 * |front|);
  }

  lemma DividendShift(m: Poly, b: Poly, r: Poly, k: nat)
    ensures Add(Shift(Add(Shift(m, 8), b), 16), Shift(r, k + 8))
         == Add(Shift(Add(Shift(m, 16), Shift(r, k)), 8), Shift(b, 16))
  {
    ShiftAdd(Shift(m, 8), b, 16);
    ShiftShift(m, 8, 16);
    ShiftShift(m, 16, 8);
    ShiftAdd(Shift(m, 16), Shift(r, k), 8);
    ShiftShift(r, k, 8);
  }
}
