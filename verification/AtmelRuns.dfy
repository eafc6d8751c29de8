/** Host and firmware together, over whole runs: what they do is what a plain memory would. */
module AtmelRuns {
  import opened HexText
  import opened Chip
  import opened Pavr
  import opened AvrAtmel

  // ---- Agreement between host and programmer ----

  /** Where the host relies on its shadow of the programmer's address, the shadow is right, unless no 16-bit
      word has the address: the shadow starts as 0x10000, and is that after word 0xFFFF. */
  predicate Synced(s: Sys) {
    s.autoinc && s.apc < 0x1_0000 ==> s.apc == s.prog.addr
  }

  /** The programmer is where the shadow says, as far as its 16 bits can tell. */
  predicate Tracks(s: Sys) {
    s.autoinc ==> s.prog.addr == s.apc % 0x1_0000
  }

  /** The cached odd byte is the one that flash holds where the address selects it. */
  predicate CacheOk(s: Sys) {
    s.cached ==> s.bufAddr < |s.prog.chip.flash| && s.bufByte == s.prog.chip.flash[Selected(s.bufAddr)]
  }

  predicate Inv(s: Sys) {
    Valid(s.prog.chip) && CacheOk(s)
  }

  /** The flash byte that an access to addr reaches when it goes to the part: the one its address selects,
      or the one where the programmer is by now if the host believes it to be there. */
  function Target(s: Sys, addr: nat): (a: nat)
    ensures a < REACH
  {
    if s.autoinc && s.apc == addr / 2 then 2 * s.prog.addr + addr % 2 else Selected(addr)
  }

  /** An access to addr reaches the byte that its address selects. */
  predicate Lands(s: Sys, addr: nat) {
    Target(s, addr) == Selected(addr)
  }

  predicate Hit(s: Sys, addr: nat) {
    s.cached && s.bufAddr == addr
  }

  lemma TracksLands(s: Sys, addr: nat)
    requires Tracks(s)
    ensures Lands(s, addr) && Synced(s)
  {
  }

  lemma SyncedLands(s: Sys, addr: nat)
    requires Synced(s) && addr < REACH
    ensures Lands(s, addr) && Target(s, addr) == addr
  {
  }

  /** The address command that is sent, or left out: Target is where the programmer is after it. */
  lemma SeekReaches(s: Sys, addr: nat)
    ensures var t := Seek(s, addr / 2);
            && 2 * t.prog.addr + addr % 2 == Target(s, addr) && t.apc == addr / 2
            && t == s.(apc := t.apc, prog := s.prog.(addr := t.prog.addr))
            && (Lands(s, addr) ==> Tracks(t)) && (Synced(s) ==> Synced(t))
  {
  }

  /** The programmer moves on to the next word, and so does the shadow. */
  lemma NextTracks(s: Sys, t: Sys)
    requires t.apc == s.apc + 1 && t.prog.addr == Next(s.prog.addr) && t.autoinc == s.autoinc
    ensures (Tracks(s) ==> Tracks(t)) && (Synced(s) ==> Synced(t))
  {
  }

  /** A read that misses the cache delivers the byte it reaches, and caches the odd byte of that word. */
  lemma ReadFlashReaches(s: Sys, addr: nat)
    requires !Hit(s, addr)
    ensures var (t, b) := ReadFlash(s, addr);
            && b == FlashAt(s.prog.chip, Target(s, addr))
            && t == s.(apc := addr / 2 + 1, cached := true, bufAddr := addr / 2 * 2 + 1, bufByte := t.bufByte,
                       prog := s.prog.(addr := t.prog.addr))
            && t.bufByte == FlashAt(s.prog.chip, Target(s, addr) - addr % 2 + 1)
            && 2 * t.prog.addr == (Target(s, addr) - addr % 2 + 2) % REACH
            && (Lands(s, addr) ==> Tracks(t)) && (Synced(s) ==> Synced(t))
  {
    hide FlashAt, Target, Selected, Tracks, Synced, Lands;
    SeekReaches(s, addr);
    var u := Seek(s, addr / 2);
    NextTracks(u, ReadFlash(s, addr).0);
  }

  lemma OddOf(addr: nat)
    ensures Selected(addr / 2 * 2 + 1) == Selected(addr) - addr % 2 + 1
  {
  }

  lemma ReadFlashIsRight(s: Sys, addr: nat)
    requires Inv(s) && addr < |s.prog.chip.flash|
    requires Lands(s, addr) || Hit(s, addr)
    ensures var (t, b) := ReadFlash(s, addr);
            && b == s.prog.chip.flash[Selected(addr)] && Inv(t) && t.prog.chip == s.prog.chip
            && (Synced(s) ==> Synced(t)) && (Tracks(s) || !Hit(s, addr) ==> Tracks(t))
            && t.autoinc == s.autoinc && t.pageSize == s.pageSize
            && t.pageAddr == s.pageAddr && t.fetched == s.fetched
  {
    if !Hit(s, addr) {
      hide ReadFlash, Target, Selected;
      ReadFlashReaches(s, addr);
      OddOf(addr);
    }
  }

  lemma LoadByteReaches(s: Sys, addr: nat, b: Byte)
    ensures var t := LoadByte(s, addr, b);
            && t.prog.chip == Load(s.prog.chip, Target(s, addr), b)
            && t == s.(apc := t.apc, prog := t.prog)
            && (Lands(s, addr) ==> Tracks(t)) && (Synced(s) ==> Synced(t))
  {
    hide Load, Target, Selected, Tracks, Synced, Lands;
    SeekReaches(s, addr);
    var u, t := Seek(s, addr / 2), LoadByte(s, addr, b);
    if addr % 2 == 1 {
      NextTracks(u, t);
    } else {
      SameShadow(u, t);
    }
  }

  lemma SameShadow(s: Sys, t: Sys)
    requires t.apc == s.apc && t.prog.addr == s.prog.addr && t.autoinc == s.autoinc
    ensures (Tracks(s) ==> Tracks(t)) && (Synced(s) ==> Synced(t))
  {
  }

  /** A part without page mode, behind a host that knows it. */
  predicate Plain(s: Sys) {
    s.prog.chip.buffer == [] && s.pageSize == 0
  }

  /** A write programs its byte where it goes. */
  lemma WriteFlashReaches(s: Sys, addr: nat, b: Byte, flush: bool)
    requires Inv(s) && Plain(s)
    ensures var t := WriteFlash(s, addr, b, flush);
            && t.prog.chip == s.prog.chip.(flash := Programs(s.prog.chip.flash, Target(s, addr), b))
            && Inv(t) && Plain(t) && t.autoinc == s.autoinc && !t.cached
            && (Synced(s) ==> Synced(t))
            && (Tracks(s) ==> Tracks(t)) && (Lands(s, addr) && b != 0xFF ==> Tracks(t))
  {
    hide Target, Selected, And;
    OnesChangeNothing(s.prog.chip.flash, Target(s, addr));
    if b != 0xFF {
      hide Tracks, Synced, Lands;
      assert WriteFlash(s, addr, b, flush) == LoadByte(s.(cached := false), addr, b);
      UncachedSame(s, addr);
      LoadByteReaches(s.(cached := false), addr, b);
    }
  }

  lemma UncachedSame(s: Sys, addr: nat)
    ensures var t := s.(cached := false);
            && Target(t, addr) == Target(s, addr) && Lands(t, addr) == Lands(s, addr)
            && Tracks(t) == Tracks(s) && Synced(t) == Synced(s) && (Tracks(s) ==> Lands(s, addr))
  {
  }

  // ---- Runs on a part without page mode refine two plain memories ----

  datatype Op = OpRead(segment: Segment, addr: nat) | OpWrite(segment: Segment, addr: nat, byte: Byte, flush: bool)

  function Step(s: Sys, op: Op): (Sys, Result) {
    match op
    case OpRead(segment, addr) => Read(s, segment, addr)
    case OpWrite(segment, addr, byte, flush) => Write(s, segment, addr, byte, flush)
  }

  function Run(s: Sys, ops: seq<Op>): (Sys, seq<Result>)
    decreases |ops|
  {
    if ops == [] then (s, [])
    else
      var (t, r) := Step(s, ops[0]);
      var (u, rs) := Run(t, ops[1..]);
      (u, [r] + rs)
  }

  /** The memory the user has in mind: bytes, range-checked; flash is programmed by AND. */
  datatype Plainly = Plainly(flash: seq<Byte>, eeprom: seq<Byte>)

  function PlainStep(m: Plainly, op: Op): (Plainly, Result) {
    var mem := if op.segment == FlashSegment then m.flash else m.eeprom;
    if op.addr >= |mem| then (m, MemoryRange)
    else if op.OpRead? then (m, Value(mem[op.addr]))
    else if op.segment == FlashSegment then (m.(flash := mem[op.addr := And(mem[op.addr], op.byte)]), Done)
    else (m.(eeprom := mem[op.addr := op.byte]), Done)
  }

  function PlainRun(m: Plainly, ops: seq<Op>): (Plainly, seq<Result>)
    decreases |ops|
  {
    if ops == [] then (m, [])
    else
      var (n, r) := PlainStep(m, ops[0]);
      var (o, rs) := PlainRun(n, ops[1..]);
      (o, [r] + rs)
  }

  function Memories(s: Sys): Plainly {
    Plainly(s.prog.chip.flash, s.prog.chip.eeprom)
  }

  /** The flash byte that a call reaches, the cached one included. */
  function Reached(s: Sys, op: Op): nat {
    if op.OpRead? && Hit(s, op.addr) then Selected(op.addr) else Target(s, op.addr)
  }

  /** The one way a call can go astray: another flash byte is reached than the one that is meant. */
  predicate Astray(s: Sys, op: Op) {
    && op.segment == FlashSegment && op.addr < |s.prog.chip.flash|
    && Reached(s, op) != op.addr
    && (op.OpWrite? ==> op.byte != 0xFF)
  }

  /** What a flash access does, wherever it goes. */
  lemma FlashStep(s: Sys, op: Op)
    requires Inv(s) && Plain(s) && op.segment == FlashSegment && op.addr < |s.prog.chip.flash|
    ensures var (t, r) := Step(s, op);
            var f, a := s.prog.chip.flash, Reached(s, op);
            && t.prog.chip == s.prog.chip.(flash := if op.OpRead? then f else Programs(f, a, op.byte))
            && r == (if op.OpRead? then Value(FlashAt(s.prog.chip, a)) else Done)
            && Plain(t) && t.autoinc == s.autoinc && (Synced(s) ==> Synced(t)) && (Tracks(s) ==> Tracks(t))
            && ((op.OpRead? ==> Hit(s, op.addr) || Lands(s, op.addr)) ==> Inv(t))
  {
    hide ReadFlash, WriteFlash, Target, Selected, Inv, And, Programs, Tracks, Synced;
    match op {
      case OpRead(_, addr) =>
        CachedByte(s, addr);
        if Hit(s, addr) || Lands(s, addr) {
          ReadFlashIsRight(s, addr);
        }
        if !Hit(s, addr) {
          ReadFlashReaches(s, addr);
          if Tracks(s) {
            TracksLands(s, addr);
          }
        }
      case OpWrite(_, addr, byte, flush) =>
        WriteFlashReaches(s, addr, byte, flush);
    }
  }

  lemma CachedByte(s: Sys, addr: nat)
    requires Inv(s) && addr < |s.prog.chip.flash|
    ensures Hit(s, addr) ==> ReadFlash(s, addr) == (s, FlashAt(s.prog.chip, Selected(addr)))
  {
  }

  /** A call that does not go astray reaches what its address selects, which is what it means. */
  lemma NotAstray(s: Sys, op: Op)
    requires op.segment == FlashSegment && op.addr < |s.prog.chip.flash| && !Astray(s, op)
    ensures op.OpRead? ==> (Hit(s, op.addr) || Lands(s, op.addr)) && op.addr < REACH
    ensures Reached(s, op) == op.addr || (op.OpWrite? && op.byte == 0xFF)
  {
  }

  lemma StepIsPlain(s: Sys, op: Op)
    requires Inv(s) && Plain(s) && !Astray(s, op)
    ensures var (t, r) := Step(s, op);
            && (Memories(t), r) == PlainStep(Memories(s), op) && Inv(t) && Plain(t) && t.autoinc == s.autoinc
    ensures op.segment == FlashSegment && Synced(s) ==> Synced(Step(s, op).0)
  {
    if op.segment == FlashSegment && op.addr < |s.prog.chip.flash| {
      hide Step, PlainStep, Reached, Inv, Astray, Programs, Target, Selected, And, FlashAt, Synced, Tracks, Lands, Hit;
      FlashStep(s, op);
      NotAstray(s, op);
      PlainFlashStep(s, op);
      OnesChangeNothing(s.prog.chip.flash, op.addr);
      OnesChangeNothing(s.prog.chip.flash, Reached(s, op));
    } else {
      hide ReadFlash, WriteFlash, Selected, Target;
    }
  }

  /** The plain memory's side of it. */
  lemma PlainFlashStep(s: Sys, op: Op)
    requires op.segment == FlashSegment && op.addr < |s.prog.chip.flash|
    ensures PlainStep(Memories(s), op)
         == (Plainly(if op.OpRead? then s.prog.chip.flash else Programs(s.prog.chip.flash, op.addr, op.byte),
                     s.prog.chip.eeprom),
             if op.OpRead? then Value(FlashAt(s.prog.chip, op.addr)) else Done)
  {
  }

  /** No call of the run goes astray. */
  predicate NeverAstray(s: Sys, ops: seq<Op>)
    decreases |ops|
  {
    ops != [] ==> !Astray(s, ops[0]) && NeverAstray(Step(s, ops[0]).0, ops[1..])
  }

  lemma {:induction false} RunIsPlain(s: Sys, ops: seq<Op>)
    requires Inv(s) && Plain(s) && NeverAstray(s, ops)
    ensures (Memories(Run(s, ops).0), Run(s, ops).1) == PlainRun(Memories(s), ops)
    decreases |ops|
  {
    hide Step, PlainStep, Astray, Inv;
    if ops != [] {
      StepIsPlain(s, ops[0]);
      RunIsPlain(Step(s, ops[0]).0, ops[1..]);
    }
  }

  /** The flash accesses of the run keep to what a 16-bit word address can select. */
  predicate WithinReach(ops: seq<Op>) {
    forall i :: 0 <= i < |ops| && ops[i].segment == FlashSegment ==> ops[i].addr < REACH
  }

  /** While host and programmer agree, no access within reach goes astray, and every other one does. */
  lemma AstrayIff(s: Sys, op: Op)
    requires Synced(s) && op.segment == FlashSegment && op.addr < |s.prog.chip.flash|
    ensures Astray(s, op) <==> op.addr >= REACH && (op.OpWrite? ==> op.byte != 0xFF)
  {
    hide Synced;
    if op.addr < REACH {
      SyncedLands(s, op.addr);
    }
  }

  /** Every run of flash reads and writes within reach returns what a plain AND-programmed memory would hold,
      in spite of the cached byte, the address commands left out and the 0xFF writes left out. */
  lemma {:induction false} FlashRunRefinesMemory(s: Sys, ops: seq<Op>)
    requires Inv(s) && Plain(s) && Synced(s) && WithinReach(ops)
    requires forall i :: 0 <= i < |ops| ==> ops[i].segment == FlashSegment
    ensures NeverAstray(s, ops) && Synced(Run(s, ops).0)
    ensures (Memories(Run(s, ops).0), Run(s, ops).1) == PlainRun(Memories(s), ops)
    decreases |ops|
  {
    hide Step, PlainStep, Inv, Synced, Reached;
    if ops != [] {
      if ops[0].addr < |s.prog.chip.flash| {
        AstrayIff(s, ops[0]);
      }
      StepIsPlain(s, ops[0]);
      FlashRunRefinesMemory(Step(s, ops[0]).0, ops[1..]);
    }
  }

  /** In particular from the state the host starts in, whatever address the programmer has and whatever the
      unused fields hold. */
  lemma FreshRunRefinesMemory(s: Sys, ops: seq<Op>)
    requires s.apc == 0x1_0000 && !s.cached && Plain(s) && Valid(s.prog.chip) && WithinReach(ops)
    requires forall i :: 0 <= i < |ops| ==> ops[i].segment == FlashSegment
    ensures Synced(Run(s, ops).0)
    ensures (Memories(Run(s, ops).0), Run(s, ops).1) == PlainRun(Memories(s), ops)
  {
    FlashRunRefinesMemory(s, ops);
  }

  /** Against firmware without auto-increment every run within reach is right, EEPROM accesses included. */
  lemma {:induction false} SlowRunRefinesMemory(s: Sys, ops: seq<Op>)
    requires Inv(s) && Plain(s) && !s.autoinc && WithinReach(ops)
    ensures (Memories(Run(s, ops).0), Run(s, ops).1) == PlainRun(Memories(s), ops)
    decreases |ops|
  {
    hide Step, PlainStep, Inv, Reached;
    if ops != [] {
      if ops[0].segment == FlashSegment && ops[0].addr < |s.prog.chip.flash| {
        AstrayIff(s, ops[0]);
      }
      StepIsPlain(s, ops[0]);
      SlowRunRefinesMemory(Step(s, ops[0]).0, ops[1..]);
    }
  }

  /** EEPROM commands advance the programmer's address, but not the host's shadow: a flash byte read
      right after one comes from the cache, or from the next word if its word is the EEPROM address and the
      host counts on auto-increment, and otherwise from where its address selects it; so it is the right byte
      exactly when that is its place or holds the same. */
  lemma FlashReadAfterEeprom(s: Sys, op: Op, addr: nat)
    requires Inv(s) && op.segment == EepromSegment && op.addr < |s.prog.chip.eeprom|
    requires addr < |s.prog.chip.flash|
    ensures var t, next := Step(s, op).0, s.autoinc && addr / 2 == op.addr && !Hit(s, addr);
            var away := if next then 2 * Next(op.addr) + addr % 2 else Selected(addr);
            && (away == addr <==> !next && addr < REACH)
            && (ReadFlash(t, addr).1 == t.prog.chip.flash[addr]
                <==> away == addr || FlashAt(t.prog.chip, away) == t.prog.chip.flash[addr])
  {
    hide Selected, FlashAt;
    var t := Step(s, op).0;
    assert t.prog.addr == Next(op.addr) && t.apc == op.addr && t.prog.chip.flash == s.prog.chip.flash;
    assert Hit(t, addr) <==> Hit(s, addr);
    CachedByte(t, addr);
    if !Hit(t, addr) {
      ReadFlashReaches(t, addr);
    }
    InFlash(t.prog.chip, addr);
  }

  lemma InFlash(c: Chip, addr: nat)
    requires addr < |c.flash|
    ensures FlashAt(c, addr) == c.flash[addr]
  {
  }

  /** A concrete case: an EEPROM byte read at 0, then flash byte 0 of a part whose first word is 0 and
      whose second is erased. */
  lemma EepromReadSpoilsFlashRead() returns (s: Sys)
    ensures Inv(s) && Plain(s) && Synced(s) && s.prog.chip.flash == [0, 0, 0xFF, 0xFF]
    ensures ReadFlash(Read(s, EepromSegment, 0).0, 0).1 == 0xFF
  {
    hide Selected;
    var chip := Chip([0, 0, 0xFF, 0xFF], [0], []);
    s := Sys(true, 0, 0x1_0000, false, 0, 0, 0, false, Prog(0, chip));
    assert |chip.flash| == 4;
    var t := Read(s, EepromSegment, 0).0;
    assert t.apc == 0 && t.prog.addr == 1;
    assert ReadFlash(t, 0).1 == chip.flash[2];
  }

  /** Erasing does not drop the cached byte: a read right after it is right exactly when it misses the
      cache or the cached byte was 0xFF already. */
  lemma FlashReadAfterErase(s: Sys, addr: nat)
    requires Inv(s) && addr < |s.prog.chip.flash|
    ensures ReadFlash(EraseChip(s), addr).1 == 0xFF
       <==> !Hit(s, addr) || s.prog.chip.flash[Selected(addr)] == 0xFF
  {
    hide Selected;
    var t := EraseChip(s);
    assert Hit(t, addr) <==> Hit(s, addr);
    if !Hit(s, addr) {
      hide ReadFlash;
      ReadFlashReaches(t, addr);
    }
  }

  /** Erasing leaves 0xFF in every byte of both memories, and nothing in the page buffer; so every EEPROM read after
      it gives 0xFF. */
  lemma EraseIs(s: Sys, a: nat)
    requires Valid(s.prog.chip)
    ensures var t, c := EraseChip(s), s.prog.chip;
            && t.prog.chip == Chip(Erased(|c.flash|), Erased(|c.eeprom|), Erased(|c.buffer|))
            && Read(t, EepromSegment, a).1 == if a < |c.eeprom| then Value(0xFF) else MemoryRange
  {
  }
}
