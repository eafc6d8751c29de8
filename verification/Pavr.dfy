/** The programmer firmware: its command loop, one command at a time, driving the part over SPI. */
module Pavr {
  import opened HexText
  import opened Chip

  const CR: Byte := 13

  type WordAddr = x: int | 0 <= x < 0x1_0000

  /** The firmware's address register (a 16-bit word address) and the part on its SPI bus. */
  datatype Prog = Prog(addr: WordAddr, chip: Chip)

  /** The commands of a programming session, as the bytes the host sends. */
  predicate IsCommand(cmd: seq<Byte>) {
    && cmd != []
    && var ch := cmd[0] as char;
       || (ch == 'A' && |cmd| == 3)
       || (ch in ['c', 'C', 'D'] && |cmd| == 2)
       || (ch in ['R', 'm', 'd', 'e'] && |cmd| == 1)
  }

  /** addr.word++ */
  function Next(addr: WordAddr): WordAddr {
    if addr == 0xFFFF then 0 else addr + 1
  }

  /** What a command does, in terms of the part's memories, and the bytes it answers. */
  function Respond(p: Prog, cmd: seq<Byte>): (Prog, seq<Byte>)
    requires IsCommand(cmd)
  {
    var ch, low := cmd[0] as char, 2 * p.addr;
    if ch == 'A' then (p.(addr := Word(cmd[1], cmd[2])), [CR])
    else if ch == 'R' then (p.(addr := Next(p.addr)), [FlashAt(p.chip, low + 1), FlashAt(p.chip, low)])
    else if ch == 'c' then (p.(chip := Load(p.chip, low, cmd[1])), [CR])
    else if ch == 'C' then (Prog(Next(p.addr), Load(p.chip, low + 1, cmd[1])), [CR])
    else if ch == 'm' then (p.(chip := WritePage(p.chip, low)), [CR])
    else if ch == 'd' then (p.(addr := Next(p.addr)), [EepromAt(p.chip, p.addr)])
    else if ch == 'D' then (Prog(Next(p.addr), WriteEeprom(p.chip, p.addr, cmd[1])), [CR])
    else (p.(chip := Erase(p.chip)), [CR])
  }

  class TPavr {
    var addr: WordAddr
    var chip: Chip

    ghost function View(): Prog
      reads this
    {
      Prog(addr, chip)
    }

    /** Four SPI transfers: spi_wr three times, then spi_wr or spi_rd. */
    method Spi(i0: Byte, i1: Byte, i2: Byte, i3: Byte) returns (out: Byte)
      modifies this`chip
      ensures (chip, out) == Instruction(old(chip), i0, i1, i2, i3)
    {
      var r := Instruction(chip, i0, i1, i2, i3);
      chip := r.0;
      out := r.1;
    }

    /** One turn of the command loop, for a part that is not an AT89: addr.byte[1] and addr.byte[0] are
        the high and the low byte of addr.word. */
    method Command(cmd: seq<Byte>) returns (reply: seq<Byte>)
      requires IsCommand(cmd)
      modifies this
      ensures (View(), reply) == Respond(old(View()), cmd)
    {
      hide Load, WritePage, WriteEeprom, Erase, FlashAt, EepromAt;
      var ch := cmd[0] as char;
      var high, low := addr / 0x100, addr % 0x100;
      var out;
      match ch
      case 'A' =>
        addr := Word(cmd[1], cmd[2]);
        reply := [CR];
      case 'R' =>
        var first := Spi(0x28, high, low, 0);
        var second := Spi(0x20, high, low, 0);
        addr := Next(addr);
        reply := [first, second];
      case 'C' =>
        out := Spi(0x48, high, low, cmd[1]);
        addr := Next(addr);
        reply := [CR];
      case 'c' =>
        out := Spi(0x40, high, low, cmd[1]);
        reply := [CR];
      case 'm' =>
        out := Spi(0x4C, high, low, 0);
        reply := [CR];
      case 'D' =>
        out := Spi(0xC0, high, low, cmd[1]);
        addr := Next(addr);
        reply := [CR];
      case 'd' =>
        out := Spi(0xA0, high, low, 0);
        addr := Next(addr);
        reply := [out];
      case _ =>
        out := Spi(0xAC, 0x80, 0x04, 0x00);
        reply := [CR];
    }
  }
}
