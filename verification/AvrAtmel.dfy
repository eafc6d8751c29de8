/** TAvrAtmel: the host's side of the serial programmer, which saves traffic by remembering the
    programmer's address, the odd byte of the last word read, and the open page. The functions say what
    host and firmware together do; AtmelRuns proves what that amounts to. */
module AvrAtmel {
  import opened DivMod
  import opened HexText
  import opened Chip
  import opened Pavr

  datatype Segment = FlashSegment | EepromSegment

  /** What a call delivers: a byte, nothing, or Error_MemoryRange. */
  datatype Result = Value(byte: Byte) | Done | MemoryRange

  /** The host's fields (apc is apc_address, cached is cache_lowbyte, fetched is page_addr_fetched) and the
      programmer it talks to. */
  datatype Sys = Sys(
    autoinc: bool, pageSize: nat, apc: nat,
    cached: bool, bufAddr: nat, bufByte: Byte,
    pageAddr: nat, fetched: bool,
    prog: Prog)

  /** SetAddress: the low 16 bits go to the programmer, the whole address is remembered. */
  function ToAddress(s: Sys, addr: nat): Sys {
    s.(apc := addr, prog := s.prog.(addr := addr % 0x1_0000))
  }

  /** SetAddress unless the programmer is believed to be there. */
  function Seek(s: Sys, word: nat): Sys {
    if s.apc != word || !s.autoinc then ToAddress(s, word) else s
  }

  function ReadFlash(s: Sys, addr: nat): (Sys, Byte) {
    if s.bufAddr == addr && s.cached then (s, s.bufByte)
    else
      var t := Seek(s, addr / 2);
      var even, odd := FlashAt(t.prog.chip, 2 * t.prog.addr), FlashAt(t.prog.chip, 2 * t.prog.addr + 1);
      (t.(apc := t.apc + 1, cached := true, bufAddr := addr / 2 * 2 + 1, bufByte := odd,
          prog := t.prog.(addr := Next(t.prog.addr))),
       if addr % 2 == 1 then odd else even)
  }

  function CommitPage(s: Sys): Sys {
    var t := ToAddress(s, s.pageAddr / 2);
    t.(prog := t.prog.(chip := WritePage(t.prog.chip, 2 * t.prog.addr)))
  }

  /** Page bookkeeping before a byte of page-mode flash is loaded. */
  function OpenPage(s: Sys, addr: nat, flush: bool): Sys {
    if s.pageSize == 0 then s
    else
      var page := PageOf(addr, s.pageSize);
      var t := if s.fetched && s.pageAddr != page then CommitPage(s).(fetched := false) else s;
      var u := if t.fetched then t else t.(pageAddr := page, fetched := true);
      if flush then CommitPage(u) else u
  }

  function LoadByte(s: Sys, addr: nat, b: Byte): Sys {
    var t := Seek(s, addr / 2);
    var p := t.prog;
    if addr % 2 == 1 then
      t.(apc := t.apc + 1, prog := Prog(Next(p.addr), Load(p.chip, 2 * p.addr + 1, b)))
    else
      t.(prog := p.(chip := Load(p.chip, 2 * p.addr, b)))
  }

  function WriteFlash(s: Sys, addr: nat, b: Byte, flush: bool): Sys {
    var t := s.(cached := false);
    if s.pageSize == 0 && b == 0xFF then t else LoadByte(OpenPage(t, addr, flush), addr, b)
  }

  function FlushPage(s: Sys): Sys {
    if s.fetched then CommitPage(s) else s
  }

  function ReadEeprom(s: Sys, addr: nat): (Sys, Byte) {
    var t := ToAddress(s, addr);
    (t.(prog := t.prog.(addr := Next(t.prog.addr))), EepromAt(t.prog.chip, t.prog.addr))
  }

  function WriteEepromByte(s: Sys, addr: nat, b: Byte): Sys {
    var t := ToAddress(s, addr);
    t.(prog := Prog(Next(t.prog.addr), WriteEeprom(t.prog.chip, t.prog.addr, b)))
  }

  function EraseChip(s: Sys): Sys {
    s.(prog := s.prog.(chip := Erase(s.prog.chip)))
  }

  function SegmentSize(s: Sys, segment: Segment): nat {
    if segment == FlashSegment then |s.prog.chip.flash| else |s.prog.chip.eeprom|
  }

  /** ReadByte and WriteByte, with their range check. */
  function Read(s: Sys, segment: Segment, addr: nat): (Sys, Result) {
    if addr >= SegmentSize(s, segment) then (s, MemoryRange)
    else
      var r := if segment == FlashSegment then ReadFlash(s, addr) else ReadEeprom(s, addr);
      (r.0, Value(r.1))
  }

  function Write(s: Sys, segment: Segment, addr: nat, b: Byte, flush: bool): (Sys, Result) {
    if addr >= SegmentSize(s, segment) then (s, MemoryRange)
    else if segment == FlashSegment then (WriteFlash(s, addr, b, flush), Done)
    else (WriteEepromByte(s, addr, b), Done)
  }

  class TAvrAtmel {
    const link: TPavr
    var segment: Segment
    var page_size: nat
    var page_addr: nat
    var page_addr_fetched: bool
    var cache_lowbyte: bool
    var buf_lowbyte: Byte
    var buf_addr: nat
    var apc_address: nat
    var apc_autoinc: bool

    /** The initial apc_address is one that no word within the programmer's reach has. */
    constructor (programmer: TPavr, autoinc: bool, pageSize: nat)
      ensures link == programmer && segment == FlashSegment
      ensures View() == Sys(autoinc, pageSize, 0x1_0000, false, buf_addr, buf_lowbyte,
                            page_addr, false, programmer.View())
    {
      link := programmer;
      segment := FlashSegment;
      page_size, page_addr_fetched := pageSize, false;
      cache_lowbyte, apc_address, apc_autoinc := false, 0x1_0000, autoinc;
    }

    ghost function View(): Sys
      reads this, link
    {
      Sys(apc_autoinc, page_size, apc_address, cache_lowbyte, buf_addr, buf_lowbyte,
          page_addr, page_addr_fetched, link.View())
    }

    /** Every command is sent whole, and its answer awaited. */
    method Send(cmd: seq<Byte>) returns (reply: seq<Byte>)
      requires IsCommand(cmd)
      modifies link
      ensures (link.View(), reply) == Respond(old(link.View()), cmd)
    {
      reply := link.Command(cmd);
    }

    method SetAddress(addr: nat)
      modifies this`apc_address, link
      ensures View() == ToAddress(old(View()), addr)
    {
      apc_address := addr;
      var reply := Send(['A' as int, addr / 0x100 % 0x100, addr % 0x100]);
      assert reply[0] == CR;  // CheckResponse does not throw
      AddressBytes(addr);
    }

    method WriteProgramMemoryPage()
      modifies this`apc_address, link
      ensures View() == CommitPage(old(View()))
    {
      SetAddress(page_addr / 2);
      var reply := Send(['m' as int]);
    }

    method ReadByte(addr: nat) returns (r: Result)
      modifies this`apc_address, this`cache_lowbyte, this`buf_addr, this`buf_lowbyte, link
      ensures (View(), r) == Read(old(View()), segment, addr)
    {
      hide FlashAt, EepromAt, Seek;
      var size := GetSegmentSize();
      if addr >= size {
        return MemoryRange;
      }
      if segment == FlashSegment {
        if buf_addr == addr && cache_lowbyte {
          return Value(buf_lowbyte);
        }
        var byte := FetchWord(addr);
        return Value(byte);
      } else {
        SetAddress(addr);
        var readEE := Send(['d' as int]);
        return Value(readEE[0]);
      }
    }

    /** The part of ReadByte behind the cache: a whole word is read, its odd byte kept. */
    method FetchWord(addr: nat) returns (byte: Byte)
      requires !(buf_addr == addr && cache_lowbyte)
      modifies this`apc_address, this`cache_lowbyte, this`buf_addr, this`buf_lowbyte, link
      ensures (View(), byte) == ReadFlash(old(View()), addr)
    {
      hide FlashAt;
      var saddr := addr / 2;
      if apc_address != saddr || !apc_autoinc {
        SetAddress(saddr);
      }
      apc_address := apc_address + 1;
      var rdF := Send(['R' as int]);
      cache_lowbyte := true;
      buf_addr := saddr * 2 + 1;
      buf_lowbyte := rdF[0];
      byte := rdF[if addr % 2 == 1 then 0 else 1];
    }

    method WriteByte(addr: nat, byte: Byte, flush_buffer: bool) returns (r: Result)
      modifies this`apc_address, this`cache_lowbyte, this`page_addr, this`page_addr_fetched, link
      ensures (View(), r) == Write(old(View()), segment, addr, byte, flush_buffer)
    {
      hide LoadByte, OpenPage;
      var size := GetSegmentSize();
      if addr >= size {
        return MemoryRange;
      }
      if segment == FlashSegment {
        cache_lowbyte := false;
        if page_size == 0 && byte == 0xFF {
          return Done;
        }
        PreparePage(addr, flush_buffer);
        LoadFlash(addr, byte);
      } else {
        SetAddress(addr);
        var reply := Send(['D' as int, byte]);
        assert reply[0] == CR;  // CheckResponse does not throw
      }
      return Done;
    }

    /** The page-mode part of WriteByte: a byte outside the open page commits that page first. */
    method PreparePage(addr: nat, flush_buffer: bool)
      modifies this`apc_address, this`page_addr, this`page_addr_fetched, link
      ensures View() == OpenPage(old(View()), addr, flush_buffer)
    {
      hide WritePage;
      if page_size != 0 {
        if page_addr_fetched && page_addr != PageOf(addr, page_size) {
          WriteProgramMemoryPage();
          page_addr_fetched := false;
        }
        if !page_addr_fetched {
          page_addr := PageOf(addr, page_size);
          page_addr_fetched := true;
        }
        if flush_buffer {
          WriteProgramMemoryPage();
        }
      }
    }

    /** The command part of WriteByte for flash. */
    method LoadFlash(addr: nat, byte: Byte)
      modifies this`apc_address, link
      ensures View() == LoadByte(old(View()), addr, byte)
    {
      hide Load;
      var wrF := [if addr % 2 == 1 then 'C' as int else 'c' as int, byte];
      if apc_address != addr / 2 || !apc_autoinc {
        SetAddress(addr / 2);
      }
      if addr % 2 == 1 {
        apc_address := apc_address + 1;
      }
      var reply := Send(wrF);
      assert reply[0] == CR;  // CheckResponse does not throw
    }

    method FlushWriteBuffer()
      modifies this`apc_address, link
      ensures View() == FlushPage(old(View()))
    {
      if page_addr_fetched {
        WriteProgramMemoryPage();
      }
    }

    method ChipErase()
      modifies link
      ensures View() == EraseChip(old(View()))
    {
      var reply := Send(['e' as int]);
      assert reply[0] == CR;  // CheckResponse does not throw
    }

    method GetSegmentSize() returns (size: nat)
      ensures size == SegmentSize(View(), segment)
    {
      size := if segment == FlashSegment then |link.chip.flash| else |link.chip.eeprom|;
    }
  }

  lemma AddressBytes(addr: nat)
    ensures Word(addr / 0x100 % 0x100, addr % 0x100) == addr % 0x1_0000
  {
    var q, high, low := ByBytes(addr);
  }
}
