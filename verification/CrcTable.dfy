/** The table form of crcByte (tos/platform/atm128/crc.h and tos/platform/atm1281/crc.h). */
module CrcTable {
  import opened Gf2
  import opened Crc
  import opened CrcDetection

  /** crcTable, eight entries a row. */
  function Entry(i: bv8): bv16 {
    var col := i & 7;
    if i < 0x08 then Pick(col, 0x0000, 0x1021, 0x2042, 0x3063, 0x4084, 0x50a5, 0x60c6, 0x70e7)
    else if i < 0x10 then Pick(col, 0x8108, 0x9129, 0xa14a, 0xb16b, 0xc18c, 0xd1ad, 0xe1ce, 0xf1ef)
    else if i < 0x18 then Pick(col, 0x1231, 0x0210, 0x3273, 0x2252, 0x52b5, 0x4294, 0x72f7, 0x62d6)
    else if i < 0x20 then Pick(col, 0x9339, 0x8318, 0xb37b, 0xa35a, 0xd3bd, 0xc39c, 0xf3ff, 0xe3de)
    else if i < 0x28 then Pick(col, 0x2462, 0x3443, 0x0420, 0x1401, 0x64e6, 0x74c7, 0x44a4, 0x5485)
    else if i < 0x30 then Pick(col, 0xa56a, 0xb54b, 0x8528, 0x9509, 0xe5ee, 0xf5cf, 0xc5ac, 0xd58d)
    else if i < 0x38 then Pick(col, 0x3653, 0x2672, 0x1611, 0x0630, 0x76d7, 0x66f6, 0x5695, 0x46b4)
    else if i < 0x40 then Pick(col, 0xb75b, 0xa77a, 0x9719, 0x8738, 0xf7df, 0xe7fe, 0xd79d, 0xc7bc)
    else if i < 0x48 then Pick(col, 0x48c4, 0x58e5, 0x6886, 0x78a7, 0x0840, 0x1861, 0x2802, 0x3823)
    else if i < 0x50 then Pick(col, 0xc9cc, 0xd9ed, 0xe98e, 0xf9af, 0x8948, 0x9969, 0xa90a, 0xb92b)
    else if i < 0x58 then Pick(col, 0x5af5, 0x4ad4, 0x7ab7, 0x6a96, 0x1a71, 0x0a50, 0x3a33, 0x2a12)
    else if i < 0x60 then Pick(col, 0xdbfd, 0xcbdc, 0xfbbf, 0xeb9e, 0x9b79, 0x8b58, 0xbb3b, 0xab1a)
    else if i < 0x68 then Pick(col, 0x6ca6, 0x7c87, 0x4ce4, 0x5cc5, 0x2c22, 0x3c03, 0x0c60, 0x1c41)
    else if i < 0x70 then Pick(col, 0xedae, 0xfd8f, 0xcdec, 0xddcd, 0xad2a, 0xbd0b, 0x8d68, 0x9d49)
    else if i < 0x78 then Pick(col, 0x7e97, 0x6eb6, 0x5ed5, 0x4ef4, 0x3e13, 0x2e32, 0x1e51, 0x0e70)
    else if i < 0x80 then Pick(col, 0xff9f, 0xefbe, 0xdfdd, 0xcffc, 0xbf1b, 0xaf3a, 0x9f59, 0x8f78)
    else if i < 0x88 then Pick(col, 0x9188, 0x81a9, 0xb1ca, 0xa1eb, 0xd10c, 0xc12d, 0xf14e, 0xe16f)
    else if i < 0x90 then Pick(col, 0x1080, 0x00a1, 0x30c2, 0x20e3, 0x5004, 0x4025, 0x7046, 0x6067)
    else if i < 0x98 then Pick(col, 0x83b9, 0x9398, 0xa3fb, 0xb3da, 0xc33d, 0xd31c, 0xe37f, 0xf35e)
    else if i < 0xa0 then Pick(col, 0x02b1, 0x1290, 0x22f3, 0x32d2, 0x4235, 0x5214, 0x6277, 0x7256)
    else if i < 0xa8 then Pick(col, 0xb5ea, 0xa5cb, 0x95a8, 0x8589, 0xf56e, 0xe54f, 0xd52c, 0xc50d)
    else if i < 0xb0 then Pick(col, 0x34e2, 0x24c3, 0x14a0, 0x0481, 0x7466, 0x6447, 0x5424, 0x4405)
    else if i < 0xb8 then Pick(col, 0xa7db, 0xb7fa, 0x8799, 0x97b8, 0xe75f, 0xf77e, 0xc71d, 0xd73c)
    else if i < 0xc0 then Pick(col, 0x26d3, 0x36f2, 0x0691, 0x16b0, 0x6657, 0x7676, 0x4615, 0x5634)
    else if i < 0xc8 then Pick(col, 0xd94c, 0xc96d, 0xf90e, 0xe92f, 0x99c8, 0x89e9, 0xb98a, 0xa9ab)
    else if i < 0xd0 then Pick(col, 0x5844, 0x4865, 0x7806, 0x6827, 0x18c0, 0x08e1, 0x3882, 0x28a3)
    else if i < 0xd8 then Pick(col, 0xcb7d, 0xdb5c, 0xeb3f, 0xfb1e, 0x8bf9, 0x9bd8, 0xabbb, 0xbb9a)
    else if i < 0xe0 then Pick(col, 0x4a75, 0x5a54, 0x6a37, 0x7a16, 0x0af1, 0x1ad0, 0x2ab3, 0x3a92)
    else if i < 0xe8 then Pick(col, 0xfd2e, 0xed0f, 0xdd6c, 0xcd4d, 0xbdaa, 0xad8b, 0x9de8, 0x8dc9)
    else if i < 0xf0 then Pick(col, 0x7c26, 0x6c07, 0x5c64, 0x4c45, 0x3ca2, 0x2c83, 0x1ce0, 0x0cc1)
    else if i < 0xf8 then Pick(col, 0xef1f, 0xff3e, 0xcf5d, 0xdf7c, 0xaf9b, 0xbfba, 0x8fd9, 0x9ff8)
    else Pick(col, 0x6e17, 0x7e36, 0x4e55, 0x5e74, 0x2e93, 0x3eb2, 0x0ed1, 0x1ef0)
  }

  function Pick(col: bv8, e0: bv16, e1: bv16, e2: bv16, e3: bv16, e4: bv16, e5: bv16, e6: bv16, e7: bv16): bv16 {
    if col == 0 then e0 else if col == 1 then e1 else if col == 2 then e2 else if col == 3 then e3
    else if col == 4 then e4 else if col == 5 then e5 else if col == 6 then e6 else e7
  }

  function Index(crc: bv16, b: bv8): bv8 {
    ((crc >> 8) as bv8) ^ b
  }

  /** crcByte in its table form: the entry's two bytes are read from program memory, low byte first. */
  function TableByte(crc: bv16, b: bv8): bv16 {
    var entry := Entry(Index(crc, b));
    var low, high := (entry & 0xFF) as bv8, (entry >> 8) as bv8;
    (low as bv16) | (((((crc & 0xFF) as bv8) ^ high) as bv16) << 8)
  }

  function TableMessage(init: bv16, msg: seq<bv8>): bv16 {
    if msg == [] then init
    else TableByte(TableMessage(init, msg[..|msg| - 1]), msg[|msg| - 1])
  }

  lemma Steps8(r: bv16)
    ensures Steps(r, 8) == Step8(r)
  {
    hide Step;
    assert Steps(r, 0) == r;
    assert Steps(r, 1) == Step(Steps(r, 0));
    assert Steps(r, 2) == Step(Steps(r, 1));
    assert Steps(r, 3) == Step(Steps(r, 2));
    assert Steps(r, 4) == Step(Steps(r, 3));
    assert Steps(r, 5) == Step(Steps(r, 4));
    assert Steps(r, 6) == Step(Steps(r, 5));
    assert Steps(r, 7) == Step(Steps(r, 6));
  }

  function Step8(r: bv16): bv16 {
    Step(Step(Step(Step(Step(Step(Step(Step(r))))))))
  }

  /** Eight steps of a high byte in closed form: with t the byte folded onto itself, t (1 + x^5 + x^12). */
  function Closed(t: bv16): bv16 {
    t ^ (t << 5) ^ (t << 12)
  }

  function Folded(i: bv8): bv16 {
    (i ^ (i >> 4)) as bv16
  }

  lemma StepsClosed(i: bv8)
    ensures Step8((i as bv16) << 8) == Closed(Folded(i))
  {
  }

  lemma EntryClosed(i: bv8)
    ensures Entry(i) == Closed(Folded(i))
  {
  }

  /** Every table entry is the bitwise CRC of its index. */
  lemma EntryIsBitwise(i: bv8)
    ensures Entry(i) == Byte(0, i)
  {
    hide *;
    ByteIs(0, i, 0 ^ ((i as bv16) << 8));
    Inject0(i);
    Steps8((i as bv16) << 8);
    StepsClosed(i);
    EntryClosed(i);
  }

  lemma Inject0(i: bv8)
    ensures 0 ^ ((i as bv16) << 8) == (i as bv16) << 8
  {
  }

  lemma SplitInput(c: bv16, b: bv8)
    ensures c ^ ((b as bv16) << 8) == (((((c >> 8) as bv8) ^ b) as bv16) << 8) ^ (((c & 0xFF) as bv8) as bv16)
  {
  }

  lemma LowToHigh(c: bv16)
    ensures (((c & 0xFF) as bv8) as bv16) << 8 == c << 8
  {
  }

  /** Dividing (hi x^8 + lo) x^8: the high byte goes through the table, the low byte is already
      below the generator. */
  lemma DivideHighByte(start: bv16, h: bv16, lo: Poly)
    requires RegPoly(start) == Add(RegPoly(h), lo) && Below(lo, 8)
    ensures RegPoly(Steps(start, 8)) == Add(RegPoly(Steps(h, 8)), Shift(lo, 8))
  {
    var q := StepsDivide(start, 8);
    var qh := StepsDivide(h, 8);
    ShiftAdd(RegPoly(h), lo, 8);
    AddAssoc(MulG(qh), RegPoly(Steps(h, 8)), Shift(lo, 8));
    DivisionUnique(Shift(RegPoly(start), 8), q, RegPoly(Steps(start, 8)),
                   qh, Add(RegPoly(Steps(h, 8)), Shift(lo, 8)));
  }

  lemma SumOfRegs(s: bv16, t: bv16, u: bv16)
    requires RegPoly(s) == Add(RegPoly(t), RegPoly(u))
    ensures s == t ^ u
  {
    XorPoly(t, u);
    RegPolyInjective(s, t ^ u);
  }

  lemma ByteByIndex(crc: bv16, b: bv8, start: bv16, h: bv16, low: bv16)
    requires start == crc ^ ((b as bv16) << 8)
    requires h == 0 ^ ((Index(crc, b) as bv16) << 8)
    requires low == crc << 8
    ensures Byte(crc, b) == Byte(0, Index(crc, b)) ^ low
  {
    hide *;
    var lo := BytePoly((crc & 0xFF) as bv8);
    StartPoly(crc, b, start, h);
    LowPoly(crc, low);
    ByteBelow8((crc & 0xFF) as bv8);
    HighByteOnly(start, h, lo, low);
    ByteIs(crc, b, start);
    ByteIs(0, Index(crc, b), h);
  }

  lemma ByteIs(crc: bv16, b: bv8, start: bv16)
    requires start == crc ^ ((b as bv16) << 8)
    ensures Byte(crc, b) == Steps(start, 8)
  {
  }

  lemma HighByteOnly(start: bv16, h: bv16, lo: Poly, low: bv16)
    requires RegPoly(start) == Add(RegPoly(h), lo) && Below(lo, 8)
    requires RegPoly(low) == Shift(lo, 8)
    ensures Steps(start, 8) == Steps(h, 8) ^ low
  {
    DivideHighByte(start, h, lo);
    SumOfRegs(Steps(start, 8), Steps(h, 8), low);
  }

  lemma StartPoly(crc: bv16, b: bv8, start: bv16, h: bv16)
    requires start == crc ^ ((b as bv16) << 8)
    requires h == 0 ^ ((Index(crc, b) as bv16) << 8)
    ensures RegPoly(start) == Add(RegPoly(h), BytePoly((crc & 0xFF) as bv8))
  {
    Inject0(Index(crc, b));
    SplitInput(crc, b);
    XorPoly(h, ((crc & 0xFF) as bv8) as bv16);
  }

  lemma LowPoly(crc: bv16, low: bv16)
    requires low == crc << 8
    ensures RegPoly(low) == Shift(BytePoly((crc & 0xFF) as bv8), 8)
  {
    LowToHigh(crc);
    Shl8Poly((crc & 0xFF) as bv8);
  }

  lemma TableByteByIndex(crc: bv16, b: bv8)
    ensures TableByte(crc, b) == Entry(Index(crc, b)) ^ (crc << 8)
  {
  }

  /** The table form computes the same function as the bit loop ... */
  lemma TableByteRefines(crc: bv16, b: bv8)
    ensures TableByte(crc, b) == Byte(crc, b)
  {
    hide *;
    TableByteByIndex(crc, b);
    EntryIsBitwise(Index(crc, b));
    ByteByIndex(crc, b, crc ^ ((b as bv16) << 8), 0 ^ ((Index(crc, b) as bv16) << 8), crc << 8);
  }

  /** ... hence over every message and from every initial value. */
  lemma {:induction false} TableMessageRefines(init: bv16, msg: seq<bv8>)
    ensures TableMessage(init, msg) == Message(init, msg)
  {
    if msg != [] {
      TableMessageRefines(init, msg[..|msg| - 1]);
      TableByteRefines(Message(init, msg[..|msg| - 1]), msg[|msg| - 1]);
    }
  }
}
