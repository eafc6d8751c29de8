/** Runs that mix flash and EEPROM, on a part without page mode. EEPROM commands advance the programmer's
    address but not the host's shadow of it: what a flash access right after one does, which runs go astray,
    decided from the calls alone, and when a call that goes astray is right all the same. */
module MixedRuns {
  import opened HexText
  import opened Chip
  import opened Pavr
  import opened AvrAtmel
  import opened AtmelRuns

  // ---- A call that goes astray ----

  /** Flash programmed at a may be compared with flash programmed at its own address. */
  lemma ProgrammedElsewhere(f: seq<Byte>, addr: nat, stray: nat, b: Byte)
    requires addr < |f| && addr != stray
    ensures Programs(f, stray, b) == Programs(f, addr, b)
       <==> And(f[addr], b) == f[addr] && (stray < |f| ==> And(f[stray], b) == f[stray])
  {
    var g, h := Programs(f, stray, b), Programs(f, addr, b);
    assert g[addr] == f[addr] && h[addr] == And(f[addr], b);
    if stray < |f| {
      assert g[stray] == And(f[stray], b) && h[stray] == f[stray];
    }
    if And(f[addr], b) == f[addr] && (stray < |f| ==> And(f[stray], b) == f[stray]) {
      assert g == f == h;
    }
  }

  /** One call in any state gives what the plain memories give exactly when it does not go astray, or goes
      astray without harm: a read finds the same byte elsewhere, a write changes nothing here or there. */
  lemma StepRightIff(s: Sys, op: Op)
    requires Inv(s) && Plain(s)
    ensures (Memories(Step(s, op).0), Step(s, op).1) == PlainStep(Memories(s), op)
       <==> !Astray(s, op) || var f, stray := s.prog.chip.flash, Reached(s, op);
                              if op.OpRead? then FlashAt(s.prog.chip, stray) == f[op.addr]
                              else && And(f[op.addr], op.byte) == f[op.addr]
                                   && (stray < |f| ==> And(f[stray], op.byte) == f[stray])
  {
    hide Step, PlainStep, Reached, Inv, And, Programs;
    if !Astray(s, op) {
      hide Astray;
      StepIsPlain(s, op);
    } else {
      FlashStep(s, op);
      PlainFlashStep(s, op);
      InFlash(s.prog.chip, op.addr);
      if op.OpWrite? {
        ProgrammedElsewhere(s.prog.chip.flash, op.addr, Reached(s, op), op.byte);
      }
    }
  }

  // ---- A write right after an EEPROM access ----

  /** A flash byte written right after an EEPROM access goes to the next word if its word is the EEPROM address
      and the host counts on auto-increment, and otherwise to where its address selects. It is programmed where
      it belongs, and nowhere else, exactly when that is its place, or the byte is 0xFF, or neither its own
      cell nor that one would change. */
  lemma FlashWriteAfterEeprom(s: Sys, op: Op, addr: nat, b: Byte, flush: bool)
    requires Inv(s) && Plain(s) && op.segment == EepromSegment && op.addr < |s.prog.chip.eeprom|
    requires addr < |s.prog.chip.flash|
    ensures var t, next := Step(s, op).0, s.autoinc && addr / 2 == op.addr;
            var f, away := t.prog.chip.flash, if next then 2 * Next(op.addr) + addr % 2 else Selected(addr);
            && (away == addr <==> !next && addr < REACH)
            && (WriteFlash(t, addr, b, flush).prog.chip.flash == f[addr := And(f[addr], b)]
                <==> away == addr || b == 0xFF
                     || (And(f[addr], b) == f[addr] && (away < |f| ==> And(f[away], b) == f[away])))
  {
    hide Step, Inv, And, Programs, Selected, WriteFlash;
    var t := Step(s, op).0;
    AfterEeprom(s, op);
    WriteFlashReaches(t, addr, b, flush);
    OwnCell(t.prog.chip.flash, addr, b);
    var away := Target(t, addr);
    if away != addr {
      ProgrammedElsewhere(t.prog.chip.flash, addr, away, b);
    }
    if b == 0xFF {
      OnesChangeNothing(t.prog.chip.flash, addr);
      OnesChangeNothing(t.prog.chip.flash, away);
    }
  }

  lemma OwnCell(f: seq<Byte>, addr: nat, b: Byte)
    requires addr < |f|
    ensures Programs(f, addr, b) == f[addr := And(f[addr], b)]
  {
  }

  lemma AfterEeprom(s: Sys, op: Op)
    requires Inv(s) && Plain(s) && op.segment == EepromSegment && op.addr < |s.prog.chip.eeprom|
    ensures op.addr < 0x1_0000
    ensures var t := Step(s, op).0;
            && t.apc == op.addr && t.prog.addr == Next(op.addr) && t.autoinc == s.autoinc
            && t.cached == s.cached && t.bufAddr == s.bufAddr && t.bufByte == s.bufByte
            && t.prog.chip.flash == s.prog.chip.flash && Inv(t) && Plain(t)
            && |t.prog.chip.eeprom| == |s.prog.chip.eeprom|
  {
    hide Selected;
  }

  /** A concrete case: an EEPROM byte read at 0, then 0 written to flash byte 0 of an erased part. The byte
      stays erased, and the first byte of the next word is programmed. */
  lemma EepromReadSpoilsFlashWrite() returns (s: Sys)
    ensures Inv(s) && Plain(s) && Synced(s) && s.prog.chip.flash == Erased(4)
    ensures WriteFlash(Read(s, EepromSegment, 0).0, 0, 0, false).prog.chip.flash == [0xFF, 0xFF, 0, 0xFF]
  {
    hide Selected;
    var chip := Chip(Erased(4), [0], []);
    s := Sys(true, 0, 0x1_0000, false, 0, 0, 0, false, Prog(0, chip));
    assert |chip.flash| == 4;
    var t := Read(s, EepromSegment, 0).0;
    assert t.apc == 0 && t.prog.addr == 1;
    AndOnes(0);
    assert WriteFlash(t, 0, 0, false).prog.chip.flash == chip.flash[2 := 0];
  }

  // ---- Whole runs, from what the host itself knows ----

  /** What can be told from the calls so far: the shadow address, whether an EEPROM access left the
      programmer one word beyond it, and which byte is cached. */
  datatype Host = Host(apc: nat, stale: bool, cached: bool, bufAddr: nat)

  /** The sizes of the two segments. */
  datatype Sizes = Sizes(flash: nat, eeprom: nat)

  function SizesOf(s: Sys): Sizes {
    Sizes(|s.prog.chip.flash|, |s.prog.chip.eeprom|)
  }

  function HostStep(h: Host, sizes: Sizes, op: Op): Host {
    var word := op.addr / 2;
    if op.segment == EepromSegment then
      (if op.addr < sizes.eeprom then h.(apc := op.addr, stale := true) else h)
    else if op.addr >= sizes.flash then h
    else if op.OpRead? then
      (if h.cached && h.bufAddr == op.addr then h else Host(word + 1, false, true, word * 2 + 1))
    else if op.byte == 0xFF then h.(cached := false)
    else Host(if op.addr % 2 == 1 then word + 1 else word, false, false, h.bufAddr)
  }

  /** The access is beyond what a 16-bit word address selects, or counts on the shadow address, and the shadow
      is stale. */
  predicate HostAstray(h: Host, autoinc: bool, sizes: Sizes, op: Op) {
    && op.segment == FlashSegment && op.addr < sizes.flash
    && (|| op.addr >= REACH
        || (autoinc && h.stale && h.apc == op.addr / 2 && !(op.OpRead? && h.cached && h.bufAddr == op.addr)))
    && (op.OpWrite? ==> op.byte != 0xFF)
  }

  /** No call of the run does. This needs the calls and the segment sizes only. */
  predicate KeepsClear(h: Host, autoinc: bool, sizes: Sizes, ops: seq<Op>)
    decreases |ops|
  {
    ops != [] ==> !HostAstray(h, autoinc, sizes, ops[0])
                  && KeepsClear(HostStep(h, sizes, ops[0]), autoinc, sizes, ops[1..])
  }

  /** The host's knowledge fits the system. */
  predicate Fits(h: Host, s: Sys) {
    && h.apc == s.apc && h.cached == s.cached && (h.cached ==> h.bufAddr == s.bufAddr)
    && (h.stale ==> s.apc < 0x1_0000 && s.prog.addr == Next(s.apc))
    && (!h.stale ==> Synced(s))
  }

  lemma AstrayIsTold(h: Host, s: Sys, op: Op)
    requires Fits(h, s)
    ensures Astray(s, op) <==> HostAstray(h, s.autoinc, SizesOf(s), op)
  {
    hide Selected;
    if op.segment == FlashSegment && op.addr < |s.prog.chip.flash| {
      if op.addr < REACH {
        ReachedIff(h, s, op);
      } else {
        assert Reached(s, op) != op.addr;
      }
    }
  }

  lemma ReachedIff(h: Host, s: Sys, op: Op)
    requires Fits(h, s) && op.addr < REACH
    ensures Reached(s, op) != op.addr
       <==> s.autoinc && h.stale && h.apc == op.addr / 2 && !(op.OpRead? && h.cached && h.bufAddr == op.addr)
  {
    hide Selected;
  }

  lemma StepFits(h: Host, s: Sys, op: Op)
    requires Inv(s) && Plain(s) && Fits(h, s) && !Astray(s, op)
    ensures var t := Step(s, op).0;
            && Fits(HostStep(h, SizesOf(s), op), t) && SizesOf(t) == SizesOf(s)
            && Inv(t) && Plain(t) && t.autoinc == s.autoinc
  {
    hide Inv, And, Selected, Target, Astray, ReadFlash, WriteFlash, ReadEeprom, WriteEepromByte, Synced;
    StepIsPlain(s, op);
    if op.segment == EepromSegment && op.addr < |s.prog.chip.eeprom| {
      AfterEeprom(s, op);
    } else if op.segment == FlashSegment && op.addr < |s.prog.chip.flash| {
      match op {
        case OpRead(_, addr) =>
          ReadFits(h, s, addr);
        case OpWrite(_, addr, b, flush) =>
          WriteFits(h, s, addr, b, flush);
      }
    }
  }

  lemma ReadFits(h: Host, s: Sys, addr: nat)
    requires Inv(s) && Fits(h, s) && addr < |s.prog.chip.flash| && !Astray(s, OpRead(FlashSegment, addr))
    ensures var t := ReadFlash(s, addr).0;
            && Fits(HostStep(h, SizesOf(s), OpRead(FlashSegment, addr)), t) && t.prog.chip == s.prog.chip
  {
    hide Selected, ReadFlash, Synced, Tracks, Inv, FlashAt;
    NotAstray(s, OpRead(FlashSegment, addr));
    if Hit(s, addr) {
      CachedByte(s, addr);
    } else {
      ReadFlashReaches(s, addr);
      TracksLands(ReadFlash(s, addr).0, addr);
    }
  }

  lemma WriteFits(h: Host, s: Sys, addr: nat, b: Byte, flush: bool)
    requires Inv(s) && Plain(s) && Fits(h, s) && addr < |s.prog.chip.flash|
    requires !Astray(s, OpWrite(FlashSegment, addr, b, flush))
    ensures var t := WriteFlash(s, addr, b, flush);
            && Fits(HostStep(h, SizesOf(s), OpWrite(FlashSegment, addr, b, flush)), t)
            && |t.prog.chip.flash| == |s.prog.chip.flash| && |t.prog.chip.eeprom| == |s.prog.chip.eeprom|
  {
    hide Selected, WriteFlash, Synced, Tracks, Inv, Programs, And;
    WriteFlashReaches(s, addr, b, flush);
    WriteShadow(s, addr, b, flush);
    if b != 0xFF {
      NotAstray(s, OpWrite(FlashSegment, addr, b, flush));
      TracksLands(WriteFlash(s, addr, b, flush), addr);
    }
  }

  /** The host's fields after a write. */
  lemma WriteShadow(s: Sys, addr: nat, b: Byte, flush: bool)
    requires s.pageSize == 0
    ensures var t := WriteFlash(s, addr, b, flush);
            && !t.cached
            && if b == 0xFF then t == s.(cached := false)
               else t.apc == if addr % 2 == 1 then addr / 2 + 1 else addr / 2
  {
    hide Load;
  }

  /** Whether a run goes astray can be told from its calls. */
  lemma {:induction false} NeverAstrayIff(h: Host, s: Sys, ops: seq<Op>)
    requires Inv(s) && Plain(s) && Fits(h, s)
    ensures NeverAstray(s, ops) <==> KeepsClear(h, s.autoinc, SizesOf(s), ops)
    decreases |ops|
  {
    hide Step, HostStep, Astray, HostAstray, Inv, Plain, Fits, SizesOf;
    if ops != [] {
      AstrayIsTold(h, s, ops[0]);
      if !Astray(s, ops[0]) {
        StepFits(h, s, ops[0]);
        NeverAstrayIff(HostStep(h, SizesOf(s), ops[0]), Step(s, ops[0]).0, ops[1..]);
      }
    }
  }

  /** What the host knows when its shadow is right. */
  function HostOf(s: Sys): Host {
    Host(s.apc, false, s.cached, s.bufAddr)
  }

  /** Every mixed run whose calls keep clear of a stale shadow, and within reach, gives the answers and the
      memories of two plain memories. */
  lemma MixedRunRefinesMemory(s: Sys, ops: seq<Op>)
    requires Inv(s) && Plain(s) && Synced(s) && KeepsClear(HostOf(s), s.autoinc, SizesOf(s), ops)
    ensures (Memories(Run(s, ops).0), Run(s, ops).1) == PlainRun(Memories(s), ops)
  {
    hide KeepsClear, NeverAstray, Run, PlainRun, Memories, Inv;
    NeverAstrayIff(HostOf(s), s, ops);
    RunIsPlain(s, ops);
  }

  /** No flash access uses a word whose number was the address of an earlier EEPROM access. */
  predicate WordsApart(ops: seq<Op>) {
    forall i, j :: 0 <= i < j < |ops| && ops[i].segment == EepromSegment && ops[j].segment == FlashSegment ==>
      ops[j].addr / 2 != ops[i].addr
  }

  lemma {:induction false} ApartKeepsClear(h: Host, autoinc: bool, sizes: Sizes, ops: seq<Op>, seen: set<nat>)
    requires WordsApart(ops) && WithinReach(ops) && (h.stale ==> h.apc in seen)
    requires forall j :: 0 <= j < |ops| && ops[j].segment == FlashSegment ==> ops[j].addr / 2 !in seen
    ensures KeepsClear(h, autoinc, sizes, ops)
    decreases |ops|
  {
    if ops != [] {
      var op, rest := ops[0], ops[1..];
      assert forall j :: 0 <= j < |rest| ==> rest[j] == ops[j + 1];
      ApartKeepsClear(HostStep(h, sizes, op), autoinc, sizes, rest,
                      if op.segment == EepromSegment then seen + {op.addr} else seen);
    }
  }

  /** In particular every run within reach in which flash and EEPROM are kept apart in this way. */
  lemma ApartRunRefinesMemory(s: Sys, ops: seq<Op>)
    requires Inv(s) && Plain(s) && Synced(s) && WordsApart(ops) && WithinReach(ops)
    ensures NeverAstray(s, ops)
    ensures (Memories(Run(s, ops).0), Run(s, ops).1) == PlainRun(Memories(s), ops)
  {
    hide KeepsClear, NeverAstray, Run, PlainRun, Memories, Inv, WordsApart, WithinReach;
    ApartKeepsClear(HostOf(s), s.autoinc, SizesOf(s), ops, {});
    NeverAstrayIff(HostOf(s), s, ops);
    RunIsPlain(s, ops);
  }
}
