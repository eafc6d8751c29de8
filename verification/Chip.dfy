/** The AVR part being programmed, as the serial programming instructions show it. Programming can only
    clear bits; a part with page mode collects bytes in a page buffer first. */
module Chip {
  import opened HexText
  import opened DivMod

  /** The bitwise AND, bit by bit from the lowest. */
  function And(x: Byte, y: Byte): (r: Byte)
    ensures r <= x && r <= y
  {
    if x == 0 || y == 0 then 0
    else
      var high: int := And(x / 2, y / 2);
      2 * high + if x % 2 == 1 && y % 2 == 1 then 1 else 0
  }

  /** All the bits of m up to its highest are set. */
  predicate IsOnes(m: Byte) {
    m == 0 || (m % 2 == 1 && IsOnes(m / 2))
  }

  lemma {:induction false} AndMask(x: Byte, m: Byte)
    requires IsOnes(m) && x <= m
    ensures And(x, m) == x && And(m, x) == x
  {
    if x != 0 {
      AndMask(x / 2, m / 2);
    }
  }

  lemma AndOnes(x: Byte)
    ensures And(x, 0xFF) == x && And(0xFF, x) == x
  {
    assert IsOnes(0xF) && IsOnes(0xFF);
    AndMask(x, 0xFF);
  }

  lemma {:induction false} AndSwap(x: Byte, y: Byte, z: Byte)
    ensures And(And(x, y), z) == And(And(x, z), y)
  {
    if x != 0 && y != 0 && z != 0 {
      AndSwap(x / 2, y / 2, z / 2);
      AndHalves(x, y);
      AndHalves(x, z);
      AndHalves(And(x, y), z);
      AndHalves(And(x, z), y);
    }
  }

  lemma AndHalves(x: Byte, y: Byte)
    ensures And(x, y) / 2 == And(x / 2, y / 2)
    ensures And(x, y) % 2 == if x % 2 == 1 && y % 2 == 1 then 1 else 0
  {
  }

  /** buffer is empty for a part without page mode; otherwise its length is the page size. */
  datatype Chip = Chip(flash: seq<Byte>, eeprom: seq<Byte>, buffer: seq<Byte>)

  /** Flash of any size, in words and in pages; and EEPROM that a 16-bit address can select. */
  predicate Valid(c: Chip) {
    && |c.flash| % 2 == 0
    && |c.eeprom| <= 0x1_0000
    && (c.buffer != [] ==> |c.buffer| % 2 == 0 && |c.flash| % |c.buffer| == 0)
  }

  /** How many bytes of flash a 16-bit word address can select. */
  const REACH := 0x2_0000

  /** The flash byte that is selected for an address by the low 16 bits of its word address, and by the
      instruction for the low or the high byte. */
  function Selected(addr: nat): (a: nat)
    ensures a == addr % REACH && a <= addr
    ensures a == addr <==> addr < REACH
  {
    SelectedRest(addr);
    2 * (addr / 2 % 0x1_0000) + addr % 2
  }

  lemma SelectedRest(addr: nat)
    ensures 2 * (addr / 2 % 0x1_0000) + addr % 2 == addr % REACH <= addr
    ensures addr % REACH == addr <==> addr < REACH
  {
    var w := addr / 2;
    var q, r := w / 0x1_0000, w % 0x1_0000;
    Fundamental(addr, 2);
    Fundamental(w, 0x1_0000);
    DivisionIs(addr, q, REACH, 2 * r + addr % 2);
  }

  /** Selection keeps pages together, for the page sizes there are. */
  lemma SelectedPage(addr: nat, size: nat)
    requires size > 0 && REACH % size == 0
    ensures PageOf(Selected(addr), size) == Selected(PageOf(addr, size)) && Selected(addr) % size == addr % size
  {
    var k, r, m := addr / REACH, addr % REACH, REACH / size;
    var j, o := r / size, r % size;
    Fundamental(addr, REACH);
    Fundamental(REACH, size);
    Fundamental(r, size);
    assert addr == (k * m + j) * size + o by { Turns(k, m, j, size, o); }
    DivisionIs(addr, k * m + j, size, o);
    var page := j * size;
    assert (k * m + j) * size == k * REACH + page by { Turns(k, m, j, size, 0); }
    DivisionIs(k * REACH + page, k, REACH, page);
  }

  lemma Turns(k: nat, m: nat, j: nat, size: nat, o: nat)
    ensures (k * m + j) * size + o == k * (m * size) + (j * size + o)
  {
  }

  function FlashAt(c: Chip, a: nat): Byte {
    if a < |c.flash| then c.flash[a] else 0xFF
  }

  function EepromAt(c: Chip, a: nat): Byte {
    if a < |c.eeprom| then c.eeprom[a] else 0xFF
  }

  /** Program a byte: at once, or into the page buffer. */
  function Load(c: Chip, a: nat, b: Byte): (d: Chip)
    ensures Valid(c) ==> Valid(d)
    ensures |d.flash| == |c.flash| && |d.buffer| == |c.buffer| && d.eeprom == c.eeprom
  {
    if c.buffer != [] then c.(buffer := c.buffer[a % |c.buffer| := b])
    else if a < |c.flash| then c.(flash := c.flash[a := And(c.flash[a], b)])
    else c
  }

  /** The start of the page that byte address a lies in; for the page sizes there are, all powers of
      two, this is a & ~(size - 1). */
  function PageOf(a: nat, size: nat): (p: nat)
    requires size > 0
    ensures p <= a < p + size
  {
    Fundamental(a, size);
    a / size * size
  }

  lemma PageFacts(a: nat, size: nat)
    requires size > 0
    ensures PageOf(PageOf(a, size), size) == PageOf(a, size)
    ensures size % 2 == 0 ==> PageOf(a, size) % 2 == 0
  {
    DivisionIs(PageOf(a, size), a / size, size, 0);
    if size % 2 == 0 {
      EvenMultiple(a / size, size, size / 2);
    }
  }

  lemma EvenMultiple(q: nat, size: nat, half: nat)
    requires size == 2 * half
    ensures q * size % 2 == 0
  {
    var m := q * half;
    assert q * size == 2 * m;
    DivisionIs(q * size, m, 2, 0);
  }

  /** Two addresses in one page at the same offset are the same. */
  lemma SameCell(a: nat, i: nat, size: nat)
    requires size > 0 && PageOf(a, size) == PageOf(i, size) && a % size == i % size
    ensures a == i
  {
  }

  /** Every offset into a page leads back to that page ... */
  lemma OffsetInPage(a: nat, k: nat, size: nat)
    requires k < size
    ensures PageOf(PageOf(a, size) + k, size) == PageOf(a, size) && (PageOf(a, size) + k) % size == k
  {
    DivisionIs(PageOf(a, size) + k, a / size, size, k);
  }

  /** ... and pages do not stick out of a flash made of whole pages. */
  lemma PageFits(a: nat, n: nat, size: nat)
    requires size > 0 && a < n && n % size == 0
    ensures PageOf(a, size) + size <= n
  {
    Fundamental(n, size);
    Fundamental(a, size);
    var q, p := n / size, a / size;
    if p >= q {
      Distribute(p, q, size);
    } else {
      Distribute(q, p, size);
      MulBig(size, q - p);
    }
  }

  function Erased(n: nat): (s: seq<Byte>)
    ensures |s| == n
    ensures forall i :: 0 <= i < n ==> s[i] == 0xFF
  {
    seq(n, _ => 0xFF)
  }

  /** Program the page that a lies in from the buffer, and empty the buffer. */
  function WritePage(c: Chip, a: nat): (d: Chip)
    ensures Valid(c) ==> Valid(d)
    ensures |d.flash| == |c.flash| && |d.buffer| == |c.buffer| && d.eeprom == c.eeprom
  {
    if c.buffer == [] then c
    else
      var size := |c.buffer|;
      c.(flash := seq(|c.flash|, i requires 0 <= i < |c.flash| =>
                    if PageOf(i, size) == PageOf(a, size) then And(c.flash[i], c.buffer[i % size]) else c.flash[i]),
         buffer := Erased(size))
  }

  /** Program the byte at a, if flash goes that far. */
  function Programs(flash: seq<Byte>, a: nat, b: Byte): (f: seq<Byte>)
    ensures |f| == |flash|
  {
    if a < |flash| then flash[a := And(flash[a], b)] else flash
  }

  lemma OnesChangeNothing(flash: seq<Byte>, a: nat)
    ensures Programs(flash, a, 0xFF) == flash
  {
    if a < |flash| {
      AndOnes(flash[a]);
      assert flash[a := flash[a]] == flash;
    }
  }

  function WriteEeprom(c: Chip, a: nat, b: Byte): Chip {
    if a < |c.eeprom| then c.(eeprom := c.eeprom[a := b]) else c
  }

  function Erase(c: Chip): Chip {
    c.(flash := Erased(|c.flash|), eeprom := Erased(|c.eeprom|), buffer := Erased(|c.buffer|))
  }

  /** One four-byte serial programming instruction, and the byte that comes back with its last byte. */
  function Instruction(c: Chip, i0: Byte, i1: Byte, i2: Byte, i3: Byte): (Chip, Byte) {
    var w := Word(i1, i2);
    if i0 == 0x20 then (c, FlashAt(c, 2 * w))
    else if i0 == 0x28 then (c, FlashAt(c, 2 * w + 1))
    else if i0 == 0x40 then (Load(c, 2 * w, i3), 0)
    else if i0 == 0x48 then (Load(c, 2 * w + 1, i3), 0)
    else if i0 == 0x4C then (WritePage(c, 2 * w), 0)
    else if i0 == 0xA0 then (c, EepromAt(c, w))
    else if i0 == 0xC0 then (WriteEeprom(c, w, i3), 0)
    else if i0 == 0xAC && i1 == 0x80 then (Erase(c), 0)
    else (c, 0)
  }
}
