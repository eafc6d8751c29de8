/** What the CRC of tos/system/crc.h means and which transmission errors it catches. */
module CrcDetection {
  import opened Gf2
  import opened Crc

  // ---- The register is the remainder ----

  /** ITU-T V.41, section 2: the check bits are the remainder of M(x) x^16 by the generator. */
  lemma CrcIsRemainder(msg: seq<bv8>)
    ensures exists q :: DividesInto(Shift(MsgPoly(msg), 16), q, RegPoly(Message(0, msg)))
    ensures forall q, r :: DividesInto(Shift(MsgPoly(msg), 16), q, r) ==> r == RegPoly(Message(0, msg))
  {
    var q0 := MessageDivides(0, msg);
    assert RegPoly(0) == {};
    assert Dividend(0, msg) == Shift(MsgPoly(msg), 16);
    forall q, r | DividesInto(Shift(MsgPoly(msg), 16), q, r) ensures r == RegPoly(Message(0, msg)) {
      DivisionUnique(Shift(MsgPoly(msg), 16), q0, RegPoly(Message(0, msg)), q, r);
    }
  }

  lemma NoBits(x: bv16)
    requires forall e: nat :: e < 16 ==> !Bit(x, e)
    ensures x == 0
  {
    assert !Bit(x, 0) && !Bit(x, 1) && !Bit(x, 2) && !Bit(x, 3);
    assert !Bit(x, 4) && !Bit(x, 5) && !Bit(x, 6) && !Bit(x, 7);
    assert !Bit(x, 8) && !Bit(x, 9) && !Bit(x, 10) && !Bit(x, 11);
    assert !Bit(x, 12) && !Bit(x, 13) && !Bit(x, 14) && !Bit(x, 15);
  }

  lemma XorZero(a: bv16, b: bv16)
    requires a ^ b == 0
    ensures a == b
  {
  }

  lemma RegPolyInjective(a: bv16, b: bv16)
    requires RegPoly(a) == RegPoly(b)
    ensures a == b
  {
    XorPoly(a, b);
    var x := a ^ b;
    forall e: nat | e < 16 ensures !Bit(x, e) {
      assert e !in RegPoly(x);
    }
    NoBits(x);
    XorZero(a, b);
  }

  // ---- When two messages collide ----

  /** Where two messages differ, as a polynomial. */
  function Difference(a: seq<bv8>, b: seq<bv8>): Poly {
    Add(MsgPoly(a), MsgPoly(b))
  }

  lemma DividendDifference(init: bv16, a: seq<bv8>, b: seq<bv8>)
    requires |a| == |b|
    ensures Add(Dividend(init, a), Dividend(init, b)) == Shift(Difference(a, b), 16)
  {
  }

  lemma AddCommon(p: Poly, q: Poly, r: Poly)
    ensures Add(Add(p, r), Add(q, r)) == Add(p, q)
  {
  }

  lemma AddMove(p: Poly, q: Poly, r: Poly)
    ensures Add(p, q) == r <==> p == Add(r, q)
  {
  }

  /** Two equally long messages have the same CRC, whatever the initial value, exactly when their
      difference is a multiple of the generator. */
  lemma CollisionIff(init: bv16, a: seq<bv8>, b: seq<bv8>)
    requires |a| == |b|
    ensures Message(init, a) == Message(init, b) <==> exists q :: MulG(q) == Difference(a, b)
  {
    var qa := MessageDivides(init, a);
    var qb := MessageDivides(init, b);
    var ra, rb := RegPoly(Message(init, a)), RegPoly(Message(init, b));
    DividendDifference(init, a, b);
    if Message(init, a) == Message(init, b) {
      AddCommon(MulG(qa), MulG(qb), ra);
      MulGAdd(qa, qb);
      var q := DivideOutX(Difference(a, b), 16, Add(qa, qb));
    }
    if q :| MulG(q) == Difference(a, b) {
      MulGShift(q, 16);
      AddMove(Dividend(init, a), Dividend(init, b), MulG(Shift(q, 16)));
      MulGAdd(Shift(q, 16), qb);
      AddAssoc(MulG(Shift(q, 16)), MulG(qb), rb);
      DivisionUnique(Dividend(init, a), qa, ra, Add(Shift(q, 16), qb), rb);
      RegPolyInjective(Message(init, a), Message(init, b));
    }
  }

  lemma AddAssoc(p: Poly, q: Poly, r: Poly)
    ensures Add(p, Add(q, r)) == Add(Add(p, q), r)
  {
  }

  // ---- Errors as bit positions in transmission order ----

  /** Bit i of a message as it is sent: first byte first, high bit first. */
  predicate SentBit(msg: seq<bv8>, i: nat)
    requires i < 8 * |msg|
  {
    Bit(msg[i / 8] as bv16, 7 - i % 8)
  }

  /** The bit of a message that stands for x^e. */
  predicate MsgBit(msg: seq<bv8>, e: nat) {
    e < 8 * |msg| && SentBit(msg, 8 * |msg| - 1 - e)
  }

  lemma {:induction false} MsgPolyBits(msg: seq<bv8>, e: nat)
    ensures e in MsgPoly(msg) <==> MsgBit(msg, e)
  {
    if msg != [] {
      var front, b := msg[..|msg| - 1], msg[|msg| - 1];
      assert MsgPoly(msg) == Add(Shift(MsgPoly(front), 8), BytePoly(b));
      hide *;
      ByteBelow8(b);
      ByteBehind(MsgPoly(front), BytePoly(b), e);
      if e >= 8 {
        MsgPolyBits(front, e - 8);
        MsgBitPrefix(front, b, msg, e);
      } else {
        MsgBitLast(msg, e);
      }
    }
  }

  lemma ByteBehind(p: Poly, b: Poly, e: nat)
    requires Below(b, 8)
    ensures e in Add(Shift(p, 8), b) <==> if e >= 8 then (e - 8) in p else e in b
  {
  }

  lemma MsgBitPrefix(front: seq<bv8>, b: bv8, msg: seq<bv8>, e: nat)
    requires msg == front + [b] && e >= 8
    ensures MsgBit(msg, e) <==> MsgBit(front, e - 8)
  {
    hide Bit;
    if e < 8 * |msg| {
      var i := 8 * |msg| - 1 - e;
      assert i / 8 < |front| && msg[i / 8] == front[i / 8];
    }
  }

  lemma MsgBitLast(msg: seq<bv8>, e: nat)
    requires msg != [] && e < 8
    ensures MsgBit(msg, e) <==> e in BytePoly(msg[|msg| - 1])
  {
    hide Bit;
    var i := 8 * |msg| - 1 - e;
    assert i / 8 == |msg| - 1 && i % 8 == 7 - e;
  }

  /** The bit positions at which b, received in place of a, is wrong. */
  function Errors(a: seq<bv8>, b: seq<bv8>): (s: set<nat>)
    requires |a| == |b|
    ensures forall i :: i in s ==> i < 8 * |a|
  {
    set i: nat | i < 8 * |a| && SentBit(a, i) != SentBit(b, i)
  }

  lemma ErrorsAreDifference(a: seq<bv8>, b: seq<bv8>, e: nat)
    requires |a| == |b|
    ensures e in Difference(a, b) <==> e < 8 * |a| && (8 * |a| - 1 - e) in Errors(a, b)
  {
    hide MsgPoly, SentBit;
    MsgPolyBits(a, e);
    MsgPolyBits(b, e);
  }

  /** Every burst of at most 16 consecutive bits is detected, wherever it starts and whatever the
      initial register. */
  lemma BurstDetected(init: bv16, a: seq<bv8>, b: seq<bv8>, first: nat)
    requires |a| == |b|
    requires Errors(a, b) != {}
    requires forall i :: i in Errors(a, b) ==> first <= i < first + 16
    ensures Message(init, a) != Message(init, b)
  {
    if Message(init, a) == Message(init, b) {
      CollisionIff(init, a, b);
      BurstIsNoMultiple(a, b, first);
    }
  }

  lemma BurstIsNoMultiple(a: seq<bv8>, b: seq<bv8>, first: nat)
    requires |a| == |b|
    requires Errors(a, b) != {}
    requires forall i :: i in Errors(a, b) ==> first <= i < first + 16
    ensures !exists q :: MulG(q) == Difference(a, b)
  {
    hide *;
    if q :| MulG(q) == Difference(a, b) {
      var i :| i in Errors(a, b);
      ErrorsAreDifference(a, b, 8 * |a| - 1 - i);
      AddZero({});
      var lo, hi := MultipleSpan(q);
      ErrorsAreDifference(a, b, lo);
      ErrorsAreDifference(a, b, hi);
      assert false;
    }
  }

  lemma {:induction false} MirrorCard(s: set<nat>, n: nat, t: set<nat>)
    requires forall i :: i in s ==> i < n
    requires forall e: nat {:trigger e in t} :: e in t <==> e < n && (n - 1 - e) in s
    ensures |s| == |t|
    decreases |s|
  {
    if s == {} {
      assert t == {};
    } else {
      var i: nat :| i in s;
      assert (n - 1 - i) in t;
      MirrorCard(s - {i}, n, t - {n - 1 - i});
    }
  }

  /** Every error that flips an odd number of bits is detected. */
  lemma OddErrorDetected(init: bv16, a: seq<bv8>, b: seq<bv8>)
    requires |a| == |b|
    requires |Errors(a, b)| % 2 == 1
    ensures Message(init, a) != Message(init, b)
  {
    if Message(init, a) == Message(init, b) {
      CollisionIff(init, a, b);
      var q :| MulG(q) == Difference(a, b);
      MultipleHasEvenWeight(q);
      ErrorCount(a, b);
    }
  }

  lemma ErrorCount(a: seq<bv8>, b: seq<bv8>)
    requires |a| == |b|
    ensures |Errors(a, b)| == |Difference(a, b)|
  {
    hide MsgPoly, SentBit, Difference, Errors;
    var s, t, n := Errors(a, b), Difference(a, b), 8 * |a|;
    forall e: nat ensures e in t <==> e < n && (n - 1 - e) in s {
      ErrorsAreDifference(a, b, e);
    }
    MirrorCard(s, n, t);
  }

  // ---- A message followed by its own CRC ----

  function High(c: bv16): bv8 {
    (c >> 8) as bv8
  }

  function Low(c: bv16): bv8 {
    (c & 0xFF) as bv8
  }

  lemma SplitReg(c: bv16)
    ensures c == ((High(c) as bv16) << 8) ^ (Low(c) as bv16)
  {
  }

  lemma RegBytes(c: bv16)
    ensures RegPoly(c) == Add(Shift(BytePoly(High(c)), 8), BytePoly(Low(c)))
  {
    SplitReg(c);
    JoinBytes(High(c), Low(c));
  }

  lemma JoinBytes(h: bv8, l: bv8)
    ensures RegPoly(((h as bv16) << 8) ^ (l as bv16)) == Add(Shift(BytePoly(h), 8), BytePoly(l))
  {
    XorPoly((h as bv16) << 8, l as bv16);
    Shl8Poly(h);
  }

  lemma ZeroRemainder(init: bv16, msg: seq<bv8>, q: Poly)
    requires Dividend(init, msg) == MulG(q)
    ensures Message(init, msg) == 0
  {
    var q' := MessageDivides(init, msg);
    DivisionUnique(Dividend(init, msg), q, {}, q', RegPoly(Message(init, msg)));
    assert RegPoly(0) == {};
    RegPolyInjective(Message(init, msg), 0);
  }

  lemma DividendTwoMore(init: bv16, msg: seq<bv8>, h: bv8, l: bv8)
    ensures Dividend(init, msg + [h, l]) == Shift(Add(Dividend(init, msg), Add(Shift(BytePoly(h), 8), BytePoly(l))), 16)
  {
    var m1, m2 := msg + [h], msg + [h] + [l];
    assert m2 == msg + [h, l];
    DividendStep(init, msg, h, m1);
    DividendStep(init, m1, l, m2);
    TwoBytes(Dividend(init, msg), BytePoly(h), BytePoly(l));
  }

  lemma OwnCrcFoldsToZero(init: bv16, msg: seq<bv8>)
    ensures Message(init, msg + [High(Message(init, msg)), Low(Message(init, msg))]) == 0
  {
    var c := Message(init, msg);
    var q := MessageDivides(init, msg);
    DividendTwoMore(init, msg, High(c), Low(c));
    RegBytes(c);
    AddMove(MulG(q), RegPoly(c), Dividend(init, msg));
    MulGShift(q, 16);
    ZeroRemainder(init, msg + [High(c), Low(c)], Shift(q, 16));
  }

  lemma TwoBytes(d: Poly, h: Poly, l: Poly)
    ensures Add(Shift(Add(Shift(d, 8), Shift(h, 16)), 8), Shift(l, 16)) == Shift(Add(d, Add(Shift(h, 8), l)), 16)
  {
    hide *;
    ShiftAdd(Shift(d, 8), Shift(h, 16), 8);
    ShiftShift(d, 8, 8);
    ShiftShift(h, 16, 8);
    ShiftShift(h, 8, 16);
    ShiftAdd(d, Add(Shift(h, 8), l), 16);
    ShiftAdd(Shift(h, 8), l, 16);
    AddAssoc(Shift(d, 16), Shift(h, 24), Shift(l, 16));
  }

  /** The receiver's test: a message and two more bytes fold to 0 exactly when the two bytes are the
      message's CRC, high byte first. */
  lemma CheckIff(init: bv16, msg: seq<bv8>, hi: bv8, lo: bv8)
    ensures Message(init, msg + [hi, lo]) == 0
        <==> hi == High(Message(init, msg)) && lo == Low(Message(init, msg))
  {
    var c := Message(init, msg);
    var good, sent := msg + [High(c), Low(c)], msg + [hi, lo];
    OwnCrcFoldsToZero(init, msg);
    if Message(init, sent) == 0 && sent != good {
      forall i | i in Errors(sent, good) ensures 8 * |msg| <= i < 8 * |msg| + 16 {
        if i < 8 * |msg| {
          assert false;
        }
      }
      if Errors(sent, good) == {} {
        NoErrors(sent, good);
        assert false;
      }
      BurstDetected(init, sent, good, 8 * |msg|);
    }
    if sent == good {
      assert sent[|msg|] == good[|msg|] && sent[|msg| + 1] == good[|msg| + 1];
    }
  }

  /** Bit e of byte k, and where it is sent. */
  lemma SentBitOf(msg: seq<bv8>, k: nat, e: nat)
    requires k < |msg| && e < 8
    ensures 8 * k + (7 - e) < 8 * |msg|
    ensures SentBit(msg, 8 * k + (7 - e)) <==> e in BytePoly(msg[k])
  {
    hide Bit;
    var i := 8 * k + (7 - e);
    assert i / 8 == k && i % 8 == 7 - e;
  }

  lemma NoErrors(a: seq<bv8>, b: seq<bv8>)
    requires |a| == |b| && Errors(a, b) == {}
    ensures a == b
  {
    hide SentBit, BytePoly, RegPoly, Bit;
    forall k | 0 <= k < |a| ensures a[k] == b[k] {
      ByteBelow8(a[k]);
      ByteBelow8(b[k]);
      forall e: nat ensures e in BytePoly(a[k]) <==> e in BytePoly(b[k]) {
        if e < 8 {
          SentBitOf(a, k, e);
          SentBitOf(b, k, e);
          assert 8 * k + (7 - e) !in Errors(a, b);
        }
      }
      BytePolyInjective(a[k], b[k]);
    }
  }

  lemma BytePolyInjective(x: bv8, y: bv8)
    requires BytePoly(x) == BytePoly(y)
    ensures x == y
  {
    hide RegPoly;
    RegPolyInjective(x as bv16, y as bv16);
  }
}
