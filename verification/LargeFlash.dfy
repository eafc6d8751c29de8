/** Flash with more bytes than a 16-bit word address can select (REACH), such as the ATmega2561's. An access
    that sends its address reaches the byte that the low bits select; the address that a fresh host never sends
    is a word of such a part. What runs on it do, exactly. */
module LargeFlash {
  import opened HexText
  import opened Chip
  import opened Pavr
  import opened Pages
  import opened AvrAtmel
  import opened AtmelRuns
  import opened PagedRuns
  import opened MixedRuns

  /** Twice the reach, as on the ATmega2561. */
  const LARGE := 0x4_0000

  /** A fresh host takes the programmer to be at word 0x10000. A read there sends no address, and returns the
      byte of whatever word the programmer is at. */
  lemma FreshReadGoesAstray(w: WordAddr) returns (s: Sys)
    ensures |s.prog.chip.flash| == LARGE && Inv(s) && Plain(s) && Synced(s) && !s.cached
    ensures s.apc == 0x1_0000 && s.prog.addr == w
    ensures ReadFlash(s, REACH).1 == FlashAt(s.prog.chip, 2 * w) == 0xFF && FlashAt(s.prog.chip, REACH) == 0
  {
    hide Selected;
    var flash := Erased(LARGE)[REACH := 0];
    var chip := Chip(flash, [], []);
    s := Sys(true, 0, 0x1_0000, false, 0, 0, 0, false, Prog(w, chip));
    assert Target(s, REACH) == 2 * w;
    ReadFlashReaches(s, REACH);
  }

  /** And a byte written to address 0x20002 by such a host is programmed at address 2. */
  lemma WriteAliases(w: WordAddr) returns (s: Sys)
    ensures s.prog.chip.flash == Erased(LARGE) && Inv(s) && Plain(s) && Synced(s) && !s.cached
    ensures s.apc == 0x1_0000 && s.prog.addr == w
    ensures var t := WriteFlash(s, REACH + 2, 0, false);
            t.prog.chip.flash == Erased(LARGE)[2 := 0] && FlashAt(t.prog.chip, REACH + 2) == 0xFF
  {
    hide And;
    var chip := Chip(Erased(LARGE), [], []);
    s := Sys(true, 0, 0x1_0000, false, 0, 0, 0, false, Prog(w, chip));
    assert Target(s, REACH + 2) == 2;
    WriteFlashReaches(s, REACH + 2, 0, false);
    AndOnes(0);
  }

  /** While the host tracks the programmer, an access gives what a plain memory gives exactly when its address is
      within reach, or what it reaches instead makes no difference. */
  lemma AccessRightIff(s: Sys, op: Op)
    requires Inv(s) && Plain(s) && Tracks(s) && op.segment == FlashSegment && op.addr < |s.prog.chip.flash|
    ensures (Memories(Step(s, op).0), Step(s, op).1) == PlainStep(Memories(s), op)
       <==> op.addr < REACH || var f, a := s.prog.chip.flash, Selected(op.addr);
                               if op.OpRead? then f[a] == f[op.addr]
                               else op.byte == 0xFF || (And(f[op.addr], op.byte) == f[op.addr]
                                                        && And(f[a], op.byte) == f[a])
  {
    hide Step, PlainStep, Inv, And, Selected, Tracks;
    StepRightIff(s, op);
    TracksLands(s, op.addr);
    assert Reached(s, op) == Selected(op.addr);
  }

  /** The access with its address replaced by the one it selects. */
  function Selecting(op: Op, size: nat): Op {
    if op.segment == EepromSegment || op.addr >= size then op else op.(addr := Selected(op.addr))
  }

  function AllSelecting(ops: seq<Op>, size: nat): (sel: seq<Op>)
    ensures |sel| == |ops| && forall i :: 0 <= i < |ops| ==> sel[i] == Selecting(ops[i], size)
  {
    seq(|ops|, i requires 0 <= i < |ops| => Selecting(ops[i], size))
  }

  lemma StepSelects(s: Sys, op: Op)
    requires Inv(s) && Plain(s) && Tracks(s) && op.segment == FlashSegment
    ensures var t := Step(s, op).0;
            && (Memories(t), Step(s, op).1) == PlainStep(Memories(s), Selecting(op, |s.prog.chip.flash|))
            && Inv(t) && Plain(t) && Tracks(t) && |t.prog.chip.flash| == |s.prog.chip.flash|
  {
    hide Inv, Tracks, Programs, FlashAt, ReadFlash, WriteFlash, And;
    if op.addr < |s.prog.chip.flash| {
      hide Step, PlainStep, Selected, Target;
      TracksLands(s, op.addr);
      FlashStep(s, op);
      PlainFlashStep(s, Selecting(op, |s.prog.chip.flash|));
    }
  }

  /** From then on every run of flash accesses, on a part of any size, is the run of a plain memory in which each
      address stands for the one it selects. */
  lemma {:induction false} RunSelects(s: Sys, ops: seq<Op>)
    requires Inv(s) && Plain(s) && Tracks(s)
    requires forall i :: 0 <= i < |ops| ==> ops[i].segment == FlashSegment
    ensures (Memories(Run(s, ops).0), Run(s, ops).1)
         == PlainRun(Memories(s), AllSelecting(ops, |s.prog.chip.flash|))
    ensures Tracks(Run(s, ops).0)
    decreases |ops|
  {
    hide Step, PlainStep, Inv, Tracks, Selecting;
    if ops != [] {
      StepSelects(s, ops[0]);
      assert AllSelecting(ops, |s.prog.chip.flash|)[1..] == AllSelecting(ops[1..], |s.prog.chip.flash|);
      RunSelects(Step(s, ops[0]).0, ops[1..]);
    }
  }

  // ---- Page mode ----

  /** Committing the buffer to the page of a would clear a bit. */
  ghost predicate Clears(c: Chip, a: nat)
    requires c.buffer != []
  {
    exists i :: 0 <= i < |c.flash| && PageOf(i, |c.buffer|) == a
                && And(c.flash[i], c.buffer[i % |c.buffer|]) != c.flash[i]
  }

  /** The open page is committed to its own place exactly when it starts within reach, or no bit is cleared
      either there or in the page that its address selects. */
  lemma CommitRightIff(s: Sys)
    requires PageInv(s) && s.fetched
    ensures CommitPage(s).prog.chip == WritePage(s.prog.chip, s.pageAddr)
       <==> || s.pageAddr < REACH
            || (!Clears(s.prog.chip, s.pageAddr) && !Clears(s.prog.chip, Selected(s.pageAddr)))
  {
    hide CommitPage, WritePage, Selected, Clears, PageOf, Pending, And;
    CommitIsRight(s);
    if s.pageAddr >= REACH {
      PageEffect(s.prog.chip, s.pageAddr, Selected(s.pageAddr));
    }
  }

  lemma PageEffect(c: Chip, p: nat, q: nat)
    requires c.buffer != [] && p != q && PageOf(p, |c.buffer|) == p && PageOf(q, |c.buffer|) == q
    ensures WritePage(c, p) == WritePage(c, q) <==> !Clears(c, p) && !Clears(c, q)
  {
    hide PageOf, And;
    var f, g := WritePage(c, p).flash, WritePage(c, q).flash;
    if !Clears(c, p) && !Clears(c, q) {
      assert f == g;
    } else if f == g {
      forall i | 0 <= i < |c.flash| && PageOf(i, |c.buffer|) in {p, q}
        ensures And(c.flash[i], c.buffer[i % |c.buffer|]) == c.flash[i]
      {
        assert f[i] == g[i];
      }
    }
  }
}
