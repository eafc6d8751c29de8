/** TAvrDummy and TAvrStargate: the host programs the part directly, with the same page discipline as
    AvrAtmel and with data polling. The functions say what host and part together do. */
module AvrDummy {
  import opened DivMod
  import opened HexText
  import opened Chip
  import opened Pages

  datatype Result = Value(byte: Byte) | Done | MemoryRange | PollError

  /** The host's fields and the part. bytePoll and pagePoll say whether data polling is in use for single
      bytes and for pages. */
  datatype Dummy = Dummy(
    pageSize: nat, pageAddr: nat, fetched: bool,
    pollAddr: nat, pollByte: Byte, bytePoll: bool, pagePoll: bool,
    chip: Chip)

  /** WriteProgramMemoryPage: afterwards no page is open and there is no byte to poll for. */
  function CommitPage(d: Dummy): Dummy {
    d.(chip := WritePage(d.chip, Selected(d.pageAddr / 2 * 2)), fetched := false, pollByte := 0xFF)
  }

  function OpenPage(d: Dummy, addr: nat, flush: bool): Dummy
    requires d.pageSize > 0
  {
    var page := PageOf(addr, d.pageSize);
    var e := if d.fetched && d.pageAddr != page then CommitPage(d) else d;
    var f := if e.fetched then e else e.(pageAddr := page, fetched := true);
    if flush then CommitPage(f) else f
  }

  function LoadByte(d: Dummy, addr: nat, b: Byte): Dummy {
    var e := d.(chip := Load(d.chip, Selected(addr), b));
    if b != 0xFF then e.(pollAddr := addr, pollByte := b) else e
  }

  /** Flash in page mode. */
  function WritePaged(d: Dummy, addr: nat, b: Byte, flush: bool): Dummy
    requires d.pageSize > 0
  {
    LoadByte(OpenPage(d, addr, flush), addr, b)
  }

  /** Flash without page mode: with polling, a byte already there is not programmed, and one that does not
      read back right is an error. */
  function WritePlain(d: Dummy, addr: nat, b: Byte): (Dummy, Result)
    requires addr < |d.chip.flash|
  {
    if d.bytePoll && FlashAt(d.chip, Selected(addr)) == b then (d, Done)
    else
      var e := LoadByte(d, addr, b);
      (e, if d.bytePoll && FlashAt(e.chip, Selected(addr)) != b then PollError else Done)
  }

  function Write(d: Dummy, addr: nat, b: Byte, flush: bool): (Dummy, Result) {
    if addr >= |d.chip.flash| then (d, MemoryRange)
    else if d.pageSize > 0 then (WritePaged(d, addr, b, flush), Done)
    else WritePlain(d, addr, b)
  }

  function FlushPage(d: Dummy): Dummy {
    if d.fetched then CommitPage(d) else d
  }

  /** The host object, programming flash. */
  class TAvrDummy {
    var chip: Chip
    var page_size: nat
    var page_addr: nat
    var page_addr_fetched: bool
    var page_poll_addr: nat
    var page_poll_byte: Byte
    var byte_poll: bool
    var page_poll: bool

    ghost function View(): Dummy
      reads this
    {
      Dummy(page_size, page_addr, page_addr_fetched, page_poll_addr, page_poll_byte, byte_poll, page_poll, chip)
    }

    method Send(i0: Byte, i1: Byte, i2: Byte, i3: Byte) returns (out: Byte)
      modifies this`chip
      ensures (chip, out) == Instruction(old(chip), i0, i1, i2, i3)
    {
      var r := Instruction(chip, i0, i1, i2, i3);
      chip := r.0;
      out := r.1;
    }

    /** addr >> 9 and addr >> 1 */
    method ReadByte(addr: nat) returns (r: Result)
      modifies this`chip
      ensures chip == old(chip)
      ensures r == if addr >= |chip.flash| then MemoryRange else Value(FlashAt(chip, Selected(addr)))
    {
      if addr >= |chip.flash| {
        return MemoryRange;
      }
      AddressBytes(addr);
      var out := Send(if addr % 2 == 1 then 0x28 else 0x20, addr / 0x200 % 0x100, addr / 2 % 0x100, 0);
      return Value(out);
    }

    /** confirmed says whether polling saw the page programmed before the time was up. */
    method WriteProgramMemoryPage(turns: nat) returns (confirmed: bool)
      requires turns > 0 && (page_poll_byte != 0xFF ==> page_poll_addr < |chip.flash|)
      modifies this`chip, this`page_addr_fetched, this`page_poll_byte
      ensures View() == CommitPage(old(View()))
      ensures confirmed <==> && page_poll && old(page_poll_byte) != 0xFF
                             && FlashAt(chip, Selected(page_poll_addr)) == old(page_poll_byte)
    {
      hide Instruction, FlashAt, Word;
      var poll_data := page_poll && page_poll_byte != 0xFF;
      PageInstruction(chip, page_addr);
      var out := Send(0x4C, page_addr / 0x200 % 0x100, page_addr / 2 % 0x100, 0);
      confirmed := PollPage(poll_data, turns);
      page_addr_fetched := false;
      page_poll_byte := 0xFF;
    }

    /** Polls for the last non-0xFF byte of the page, as often as the clock allows. */
    method PollPage(poll_data: bool, turns: nat) returns (confirmed: bool)
      requires turns > 0 && (poll_data ==> page_poll_addr < |chip.flash|)
      modifies this`chip
      ensures chip == old(chip)
      ensures confirmed <==> poll_data && FlashAt(chip, Selected(page_poll_addr)) == page_poll_byte
    {
      confirmed := false;
      for t := 0 to turns
        invariant chip == old(chip)
        invariant confirmed <==> t > 0 && poll_data && FlashAt(chip, Selected(page_poll_addr)) == page_poll_byte
      {
        if poll_data {
          var rbyte := ReadByte(page_poll_addr);
          if rbyte == Value(page_poll_byte) {
            confirmed := true;
            break;
          }
        }
      }
    }

    /** WriteByte for the flash segment. */
    method WriteByte(addr: nat, byte: Byte, flush_buffer: bool, turns: nat) returns (r: Result)
      requires turns > 0 && (page_poll_byte != 0xFF ==> page_poll_addr < |chip.flash|)
      modifies this`chip, this`page_addr, this`page_addr_fetched, this`page_poll_addr, this`page_poll_byte
      ensures (View(), r) == Write(old(View()), addr, byte, flush_buffer)
    {
      hide WritePage, Load, Instruction, FlashAt, Word;
      var poll_data := page_size == 0 && byte_poll;
      if addr >= |chip.flash| {
        return MemoryRange;
      }
      if poll_data {
        var rbyte := ReadByte(addr);
        if rbyte == Value(byte) {
          return Done;
        }
      }
      if page_size > 0 {
        PreparePage(addr, flush_buffer, turns);
      }
      LoadInstruction(chip, addr, byte);
      var out := Send(if addr % 2 == 1 then 0x48 else 0x40, addr / 0x200 % 0x100, addr / 2 % 0x100, byte);
      if byte != 0xFF {
        page_poll_addr := addr;
        page_poll_byte := byte;
      }
      if page_size > 0 {
        return Done;
      }
      r := PollByte(addr, byte, poll_data, turns);
    }

    method PreparePage(addr: nat, flush_buffer: bool, turns: nat)
      requires page_size > 0 && turns > 0
      requires page_poll_byte != 0xFF ==> page_poll_addr < |chip.flash|
      modifies this`chip, this`page_addr, this`page_addr_fetched, this`page_poll_byte
      ensures View() == OpenPage(old(View()), addr, flush_buffer)
    {
      hide WritePage;
      var confirmed;
      if page_addr_fetched && page_addr != PageOf(addr, page_size) {
        confirmed := WriteProgramMemoryPage(turns);
      }
      if !page_addr_fetched {
        page_addr := PageOf(addr, page_size);
        page_addr_fetched := true;
      }
      if flush_buffer {
        confirmed := WriteProgramMemoryPage(turns);
      }
    }

    /** Data polling of one byte: it stops early unless the value is one a busy part may return. */
    method PollByte(addr: nat, byte: Byte, poll_data: bool, turns: nat) returns (r: Result)
      requires addr < |chip.flash| && turns > 0
      modifies this`chip
      ensures chip == old(chip)
      ensures r == if poll_data && FlashAt(chip, Selected(addr)) != byte then PollError else Done
    {
      var rbyte := Value(0);
      for t := 0 to turns
        invariant chip == old(chip)
        invariant t > 0 && poll_data ==> rbyte == Value(FlashAt(chip, Selected(addr)))
      {
        if poll_data {
          rbyte := ReadByte(addr);
          if rbyte == Value(byte) && byte != 0 && byte != 0x7F && byte != 0x80 && byte != 0xFF {
            break;
          }
        }
      }
      if poll_data && rbyte != Value(byte) {
        return PollError;
      }
      return Done;
    }

    method FlushWriteBuffer(turns: nat) returns (confirmed: bool)
      requires turns > 0 && (page_poll_byte != 0xFF ==> page_poll_addr < |chip.flash|)
      modifies this`chip, this`page_addr_fetched, this`page_poll_byte
      ensures View() == FlushPage(old(View()))
      ensures confirmed <==> && old(page_addr_fetched) && page_poll && old(page_poll_byte) != 0xFF
                             && FlashAt(chip, Selected(page_poll_addr)) == old(page_poll_byte)
    {
      confirmed := false;
      if page_addr_fetched {
        confirmed := WriteProgramMemoryPage(turns);
      }
    }
  }

  lemma PageInstruction(c: Chip, page_addr: nat)
    ensures Instruction(c, 0x4C, page_addr / 0x200 % 0x100, page_addr / 2 % 0x100, 0).0
         == WritePage(c, Selected(page_addr / 2 * 2))
  {
    hide WritePage, Word, Instruction, Selected;
    AddressBytes(page_addr);
    PageWord(c, page_addr / 0x200 % 0x100, page_addr / 2 % 0x100, page_addr / 2 % 0x1_0000);
    SelectedEven(page_addr);
  }

  lemma SelectedEven(addr: nat)
    ensures Selected(addr / 2 * 2) == 2 * (addr / 2 % 0x1_0000)
  {
    DivisionIs(addr / 2 * 2, addr / 2, 2, 0);
  }

  lemma PageWord(c: Chip, high: Byte, low: Byte, w: nat)
    requires Word(high, low) == w
    ensures Instruction(c, 0x4C, high, low, 0).0 == WritePage(c, 2 * w)
  {
    hide WritePage, Word;
  }

  /** The load instruction's own definition, for a word address in its two bytes. */
  lemma LoadWord(c: Chip, high: Byte, low: Byte, b: Byte, w: nat)
    requires Word(high, low) == w
    ensures Instruction(c, 0x40, high, low, b).0 == Load(c, 2 * w, b)
    ensures Instruction(c, 0x48, high, low, b).0 == Load(c, 2 * w + 1, b)
  {
    hide Load, Word;
  }

  lemma LoadInstruction(c: Chip, addr: nat, b: Byte)
    ensures Instruction(c, if addr % 2 == 1 then 0x48 else 0x40, addr / 0x200 % 0x100, addr / 2 % 0x100, b).0
         == Load(c, Selected(addr), b)
  {
    hide Load, Word, Instruction;
    AddressBytes(addr);
    LoadWord(c, addr / 0x200 % 0x100, addr / 2 % 0x100, b, addr / 2 % 0x1_0000);
  }

  lemma AddressBytes(addr: nat)
    ensures Word(addr / 0x200 % 0x100, addr / 2 % 0x100) == addr / 2 % 0x1_0000
  {
    var w := addr / 2;
    Fundamental(addr, 2);
    Fundamental(w, 0x100);
    DivisionIs(addr, w / 0x100, 0x200, 2 * (w % 0x100) + addr % 2);
    var q, high, low := ByBytes(w);
  }
}
