/** Motorola S-records: what one record and one file mean to the reader, what the writer prints, and
    the round trip between the two. */
module SRecord {
  import opened Wrappers
  import opened HexText
  import opened Device

  // ---- Reading ----

  /** How many address bytes beyond two a record of this type carries. */
  function ExtraAddress(kind: char): nat {
    if kind == '3' then 2 else if kind == '2' then 1 else 0
  }

  /** An address of two to four bytes, accumulated most significant byte first. */
  function Value(s: seq<Byte>): (a: Addr)
    requires 2 <= |s| <= 4
    ensures |s| == 2 ==> a < 0x1_0000
    ensures |s| == 3 ==> a < 0x100_0000
  {
    if |s| == 2 then
      var hi: int := s[0];
      hi * 0x100 + s[1]
    else Value(s[..|s| - 1]) * 0x100 + s[|s| - 1]
  }

  /** One more address byte, as the reader shifts it in. */
  lemma ValueNext(d: seq<Byte>, i: nat)
    requires 4 <= i <= 5 && i <= |d|
    ensures Value(d[1..i]) == (Value(d[1..i - 1]) * 0x100 + d[i - 1]) % 0x1_0000_0000
  {
    assert d[1..i][..i - 2] == d[1..i - 1];
  }

  /** A C string ends at its first NUL. */
  function CString(s: seq<Byte>): seq<Byte> {
    if s == [] || s[0] == 0 then [] else [s[0]] + CString(s[1..])
  }

  /** The bytes a record of count byte c carries after the two address bytes: the count covers the
      address (2) and the checksum (1), and the subtraction wraps in an unsigned char. */
  function PayloadCount(c: Byte): Byte {
    (c - 3) % 0x100
  }

  function KnownKind(kind: char): bool {
    kind in ['0', '1', '2', '3', '5', '7', '8', '9']
  }

  /** The running checksum of everything read ends at 0xFF. */
  predicate ChecksOut(d: seq<Byte>) {
    Sum(d) % 0x100 == 0xFF
  }

  /** The effect of one line, given its upper-case form: d is what Htoi can read of it. */
  function ReadLine(mode: Mode, line: string): Outcome {
    var kind, d := At(line, 1), Decode(line, 2);
    if At(line, 0) != 'S' || |d| < 1 then Outcome([], Some(BadFormat))
    else
      var n := PayloadCount(d[0]);
      if (n + 5) * 2 > LINEBUF_SIZE then Outcome([], Some(LineTooLong))
      else if |d| < 3 then Outcome([], Some(BadFormat))
      else if !KnownKind(kind) then Outcome([], Some(BadRecord))
      else ReadPayload(mode, kind, n, d)
  }

  /** The payload starts after the extra address bytes, whose number is subtracted from the count, again
      in an unsigned char; bytes go to the device as they are read, before the checksum is seen. */
  function ReadPayload(mode: Mode, kind: char, n: Byte, d: seq<Byte>): Outcome
    requires |d| >= 3 && KnownKind(kind)
  {
    var extra := ExtraAddress(kind);
    if |d| < 3 + extra then Outcome([], Some(BadFormat))
    else
      var count: Byte := (n - extra) % 0x100;
      var have := if |d| - 3 - extra < count then |d| - 3 - extra else count;
      var data := d[3 + extra..3 + extra + have];
      var calls :=
        if kind == '0' then (if have == count then [SetSegment(CString(data))] else [])
        else if kind in ['1', '2', '3'] then ByteCalls(mode, Value(d[1..3 + extra]), data)
        else if kind == '5' then []
        else FlushCalls(mode);
      var total := 3 + extra + count + 1;
      Outcome(calls, Closing(d, total))
  }

  /** How a record of total bytes ends: the checksum byte must be there and must fit. */
  function Closing(d: seq<Byte>, total: nat): Option<Error> {
    if |d| < total then Some(BadFormat)
    else if !ChecksOut(d[..total]) then Some(BadCheckSum)
    else None
  }

  /** A whole file: lines in order until one throws. */
  function ReadLines(mode: Mode, lines: seq<string>): Outcome {
    if lines == [] then Outcome([], None)
    else
      var first := ReadLine(mode, UpperLine(lines[0]));
      if first.error.Some? then first
      else
        var rest := ReadLines(mode, lines[1..]);
        Outcome(first.calls + rest.calls, rest.error)
  }

  // ---- Writing ----

  /** One printed record: type, count (payload and checksum), payload, checksum, CR LF. */
  function Record(kind: char, buf: seq<Byte>): string
    requires |buf| < 0xFF
  {
    ['S', kind] + Hex([|buf| + 1] + buf + [CheckByte(buf)]) + "\r\n"
  }

  /** The complement of the low byte of a sum. */
  function Complement(x: nat): (c: Byte)
    ensures (x + c) % 0x100 == 0xFF
  {
    0xFF - x % 0x100
  }

  function CheckByte(buf: seq<Byte>): Byte {
    Complement(|buf| + 1 + Sum(buf))
  }

  /** The low n bytes of an address, most significant first. */
  function BigEndian(a: Addr, n: nat): seq<Byte>
    requires 2 <= n <= 4
  {
    (if n == 4 then [a / 0x100_0000] else []) +
    (if n >= 3 then [a / 0x1_0000 % 0x100] else []) +
    [a / 0x100 % 0x100, a % 0x100]
  }

  /** The address width the writer picks. */
  function Width(a: Addr): (n: nat)
    ensures 2 <= n <= 4
  {
    if a < 0x1_0000 then 2 else if a < 0x100_0000 then 3 else 4
  }

  function DataKind(width: nat): char {
    if width == 2 then '1' else if width == 3 then '2' else '3'
  }

  function EndKind(width: nat): char {
    if width == 2 then '9' else if width == 3 then '8' else '7'
  }

  function Min(a: nat, b: nat): nat {
    if a < b then a else b
  }

  /** The name in the header record: at most 16 bytes of it are copied. */
  function HeaderName(name: seq<Byte>): seq<Byte> {
    name[..Min(16, |name|)]
  }

  function DataRecord(image: seq<Byte>, addr: Addr): string
    requires addr < |image|
  {
    Record(DataKind(Width(addr)), BigEndian(addr, Width(addr)) + image[addr..Min(addr + 16, |image|)])
  }

  /** Conversion of an unsigned 32-bit value to int. */
  function ToInt(x: nat): (i: int)
    requires x < 0x1_0000_0000
    ensures -0x8000_0000 <= i < 0x8000_0000
  {
    if x < 0x8000_0000 then x else x - 0x1_0000_0000
  }

  /** How many bytes the writer means to put into the record at an address of a segment: an int, capped. */
  function RecordLength(size: nat, addr: nat): int
    requires addr < size < 0x1_0000_0000
  {
    var len := ToInt(size - addr);
    if len > 16 then 16 else len
  }

  /** The segments whose every record gets the bytes it is to have. */
  predicate Writable(image: seq<Byte>) {
    |image| < 0x8000_0000
  }

  /** For a larger segment the first length is negative already, which nothing caps: all record lengths are
      right if and only if the segment is writable. */
  lemma LengthsRightIff(image: seq<Byte>)
    requires |image| < 0x1_0000_0000
    ensures (forall addr: nat {:trigger RecordLength(|image|, addr)} :: addr < |image| && addr % 16 == 0 ==>
               RecordLength(|image|, addr) == Min(16, |image| - addr))
       <==> Writable(image)
  {
    if !Writable(image) {
      assert RecordLength(|image|, 0) < 0;
    }
  }

  /** The smallest such segment: the length of its first record is the least int there is. */
  lemma FirstLengthOverflows()
    ensures RecordLength(0x8000_0000, 0) == -0x8000_0000
  {
  }

  function DataRecords(image: seq<Byte>, addr: nat): seq<string>
    requires Writable(image)
    decreases |image| - addr
  {
    if addr >= |image| then [] else [DataRecord(image, addr)] + DataRecords(image, addr + 16)
  }

  /** Where the writer's address stops. */
  function EndAddress(image: seq<Byte>): Addr
    requires Writable(image)
  {
    (|image| + 15) / 16 * 16
  }

  function Trailer(image: seq<Byte>): seq<string>
    requires Writable(image)
  {
    var w := Width(EndAddress(image));
    [Record('5', BigEndian(EndAddress(image) / 16 % 0x1_0000, 2)), Record(EndKind(w), BigEndian(0, w))]
  }

  function Lines(name: seq<Byte>, image: seq<Byte>): seq<string>
    requires Writable(image)
  {
    [Record('0', [0, 0] + HeaderName(name))] + DataRecords(image, 0) + Trailer(image)
  }

  // ---- The round trip ----

  lemma RecordIsLine(kind: char, buf: seq<Byte>)
    requires |buf| <= 20 && KnownKind(kind)
    ensures IsLine(Record(kind, buf)) && UpperLine(Record(kind, buf)) == Record(kind, buf)
  {
    var bytes := [|buf| + 1] + buf + [CheckByte(buf)];
    var line := Record(kind, buf);
    forall i | 0 <= i < |line| ensures Upper(line[i]) == line[i] && (i < |line| - 1 ==> line[i] != '\n') {
      if 2 <= i < |line| - 2 {
        HexIsUpper(bytes, i - 2);
        assert line[i] == Hex(bytes)[i - 2];
      }
    }
    assert UpperLine(line) == line;
  }

  /** What the reader decodes of a printed record, and that its checksum is right. */
  lemma RecordDecodes(kind: char, buf: seq<Byte>)
    requires |buf| <= 20
    ensures Decode(Record(kind, buf), 2) == [|buf| + 1] + buf + [CheckByte(buf)]
  {
    var bytes, line := [|buf| + 1] + buf + [CheckByte(buf)], Record(kind, buf);
    assert line[2..2 + 2 * |bytes|] == Hex(bytes);
    DecodeHex(line, 2, bytes);
  }

  lemma RecordSums(buf: seq<Byte>)
    requires |buf| <= 20
    ensures ChecksOut([|buf| + 1] + buf + [CheckByte(buf)])
  {
    hide Complement, Sum, ChecksOut;
    SumRecord(|buf| + 1, buf, CheckByte(buf));
    Complemented(|buf| + 1 + Sum(buf), [|buf| + 1] + buf + [CheckByte(buf)]);
  }

  lemma Complemented(x: nat, d: seq<Byte>)
    requires Sum(d) == x + Complement(x)
    ensures ChecksOut(d)
  {
  }

  lemma SumRecord(n: Byte, buf: seq<Byte>, c: Byte)
    ensures Sum([n] + buf + [c]) == n + Sum(buf) + c
  {
    SumAppend([n] + buf, [c]);
    SumAppend([n], buf);
    SumOne(n);
    SumOne(c);
  }

  lemma SumOne(b: Byte)
    ensures Sum([b]) == b
  {
  }

  /** What a record does that carries address bytes of its type's width and then some data. */
  function Effect(mode: Mode, kind: char, addr: seq<Byte>, data: seq<Byte>): seq<Call>
    requires 2 <= |addr| <= 4
  {
    if kind == '0' then [SetSegment(CString(data))]
    else if kind in ['1', '2', '3'] then ByteCalls(mode, Value(addr), data)
    else if kind == '5' then []
    else FlushCalls(mode)
  }

  /** A record whose bytes are all there, whatever stands behind its checksum. */
  lemma ReadWholePayload(mode: Mode, kind: char, addr: seq<Byte>, data: seq<Byte>, d: seq<Byte>)
    requires KnownKind(kind) && |addr| == 2 + ExtraAddress(kind) && |addr| + |data| + 1 <= 0xFF
    requires |d| >= |addr| + |data| + 2 && d[0] == |addr| + |data| + 1
    requires d[1..1 + |addr|] == addr && d[1 + |addr|..1 + |addr| + |data|] == data
    ensures ReadPayload(mode, kind, PayloadCount(d[0]), d)
         == Outcome(Effect(mode, kind, addr, data), if ChecksOut(d[..d[0] + 1]) then None else Some(BadCheckSum))
  {
    hide ByteCalls, Value, CString, ChecksOut;
    var extra := ExtraAddress(kind);
    assert PayloadCount(d[0]) == extra + |data|;
    assert d[3 + extra..3 + extra + |data|] == data;
  }

  /** Reading back a printed record. */
  lemma ReadRecord(mode: Mode, kind: char, addr: seq<Byte>, data: seq<Byte>)
    requires KnownKind(kind) && |data| <= 16 && |addr| == 2 + ExtraAddress(kind)
    ensures ReadLine(mode, UpperLine(Record(kind, addr + data))) == Outcome(Effect(mode, kind, addr, data), None)
  {
    hide Decode, ChecksOut, ReadPayload, Effect, CheckByte, Hex;
    var buf := addr + data;
    var d := [|buf| + 1] + buf + [CheckByte(buf)];
    RecordIsLine(kind, buf);
    RecordDecodes(kind, buf);
    RecordSums(buf);
    assert d[..d[0] + 1] == d;
    ReadWholePayload(mode, kind, addr, data, d);
  }

  lemma ValueOfBigEndian(a: Addr, n: nat)
    requires 2 <= n <= 4 && (n == 2 ==> a < 0x1_0000) && (n == 3 ==> a < 0x100_0000)
    ensures Value(BigEndian(a, n)) == a
  {
    if n > 2 {
      ShiftDown(a, n);
      ValueOfBigEndian(a / 0x100, n - 1);
    }
  }

  /** Dropping the last byte shifts the address right by eight. */
  lemma ShiftDown(a: Addr, n: nat)
    requires 3 <= n <= 4
    ensures BigEndian(a, n) == BigEndian(a / 0x100, n - 1) + [a % 0x100]
    ensures BigEndian(a, n)[..|BigEndian(a, n)| - 1] == BigEndian(a / 0x100, n - 1)
  {
    assert a / 0x100 / 0x100 == a / 0x1_0000;
    assert a / 0x100 / 0x1_0000 == a / 0x100_0000;
  }

  lemma ReadDataRecord(mode: Mode, image: seq<Byte>, addr: Addr)
    requires addr < |image|
    ensures ReadLine(mode, UpperLine(DataRecord(image, addr)))
         == Outcome(ByteCalls(mode, addr, image[addr..Min(addr + 16, |image|)]), None)
  {
    hide ReadLine, Record, ByteCalls, Value, BigEndian;
    var w, data := Width(addr), image[addr..Min(addr + 16, |image|)];
    BigEndianLength(addr, w);
    ReadRecord(mode, DataKind(w), BigEndian(addr, w), data);
    ValueOfBigEndian(addr, w);
  }

  lemma BigEndianLength(a: Addr, n: nat)
    requires 2 <= n <= 4
    ensures |BigEndian(a, n)| == n
  {
  }

  lemma {:induction false} ReadDataRecords(mode: Mode, image: seq<Byte>, addr: nat, tail: seq<string>)
    requires Writable(image) && addr % 16 == 0 && addr <= EndAddress(image)
    ensures ReadLines(mode, DataRecords(image, addr) + tail)
         == var rest := ReadLines(mode, tail);
            Outcome((if addr < |image| then ByteCalls(mode, addr, image[addr..]) else []) + rest.calls, rest.error)
    decreases |image| - addr
  {
    hide *;
    if addr >= |image| {
      NoDataRecords(mode, image, addr, tail);
    } else {
      ReadDataRecord(mode, image, addr);
      FirstDataRecord(mode, image, addr, tail);
      NextBeforeEnd(image, addr);
      ReadDataRecords(mode, image, addr + 16, tail);
      NextBytes(mode, image, addr, ReadLines(mode, tail).calls);
    }
  }

  lemma NoDataRecords(mode: Mode, image: seq<Byte>, addr: nat, tail: seq<string>)
    requires Writable(image) && addr >= |image|
    ensures DataRecords(image, addr) + tail == tail
    ensures var rest := ReadLines(mode, tail); rest == Outcome([] + rest.calls, rest.error)
  {
    var rest := ReadLines(mode, tail);
    assert [] + rest.calls == rest.calls;
    assert [] + tail == tail;
  }

  lemma NextBeforeEnd(image: seq<Byte>, addr: nat)
    requires Writable(image) && addr % 16 == 0 && addr < |image|
    ensures (addr + 16) % 16 == 0 && addr + 16 <= EndAddress(image)
  {
  }

  lemma FirstDataRecord(mode: Mode, image: seq<Byte>, addr: nat, tail: seq<string>)
    requires Writable(image) && addr < |image|
    requires ReadLine(mode, UpperLine(DataRecord(image, addr))).error.None?
    ensures var first := ReadLine(mode, UpperLine(DataRecord(image, addr)));
            var rest := ReadLines(mode, DataRecords(image, addr + 16) + tail);
            ReadLines(mode, DataRecords(image, addr) + tail) == Outcome(first.calls + rest.calls, rest.error)
  {
    hide ReadLine, DataRecord, UpperLine;
    var lines := DataRecords(image, addr) + tail;
    assert lines[0] == DataRecord(image, addr) && lines[1..] == DataRecords(image, addr + 16) + tail;
  }

  /** The bytes of one record and those of the records after it are the bytes from its address on. */
  lemma NextBytes(mode: Mode, image: seq<Byte>, addr: nat, rest: seq<Call>)
    requires Writable(image) && addr < |image|
    ensures ByteCalls(mode, addr, image[addr..Min(addr + 16, |image|)])
              + ((if addr + 16 < |image| then ByteCalls(mode, addr + 16, image[addr + 16..]) else []) + rest)
         == ByteCalls(mode, addr, image[addr..]) + rest
  {
    hide ByteCalls;
    var here := image[addr..Min(addr + 16, |image|)];
    var calls := ByteCalls(mode, addr, here);
    if addr + 16 < |image| {
      assert image[addr..] == here + image[addr + 16..];
      ByteCallsAppend(mode, addr, here, image[addr + 16..]);
      assert Advance(addr, 16) == addr + 16;
      var more := ByteCalls(mode, addr + 16, image[addr + 16..]);
      assert calls + (more + rest) == calls + more + rest;
    } else {
      assert image[addr..] == here && [] + rest == rest;
    }
  }

  lemma ReadTrailer(mode: Mode, image: seq<Byte>)
    requires Writable(image)
    ensures ReadLines(mode, Trailer(image)) == Outcome(FlushCalls(mode), None)
  {
    hide ReadLine, Record, BigEndian;
    var t, w := Trailer(image), Width(EndAddress(image));
    var count := BigEndian(EndAddress(image) / 16 % 0x1_0000, 2);
    BigEndianLength(EndAddress(image) / 16 % 0x1_0000, 2);
    assert count + [] == count;
    ReadRecord(mode, '5', count, []);
    ZeroAddress(w);
    ReadRecord(mode, EndKind(w), BigEndian(0, 2), seq(w - 2, _ => 0));
    assert t[1..] == [Record(EndKind(w), BigEndian(0, w))] && t[1..][1..] == [];
    assert ReadLines(mode, t[1..]) == Outcome(FlushCalls(mode) + [], None);
    assert [] + FlushCalls(mode) == FlushCalls(mode) == FlushCalls(mode) + [];
  }

  lemma ZeroAddress(w: nat)
    requires 2 <= w <= 4
    ensures |BigEndian(0, 2)| == 2 && BigEndian(0, w) == BigEndian(0, 2) + seq(w - 2, _ => 0)
  {
  }

  lemma HeaderNameIsCString(name: seq<Byte>)
    requires forall i :: 0 <= i < |name| ==> name[i] != 0
    ensures CString(name) == name
  {
  }

  /** Uploading what was downloaded: the same segment is selected, every byte of the image is written
      at its own address, in order and once, across the changes of address width, and the buffer is
      flushed once at the end; nothing throws. */
  lemma RoundTrip(mode: Mode, name: seq<Byte>, image: seq<Byte>)
    requires Writable(image)
    requires forall i :: 0 <= i < |name| ==> name[i] != 0
    ensures ReadLines(mode, Fgets(Concat(Lines(name, image))))
         == Outcome([SetSegment(HeaderName(name))] + ByteCalls(mode, 0, image) + FlushCalls(mode), None)
  {
    hide ReadLine, Record, DataRecords, ByteCalls, Fgets, Concat, Trailer;
    var lines := Lines(name, image);
    LinesAreLines(name, image);
    FgetsConcat(lines);
    ReadRecord(mode, '0', [0, 0], HeaderName(name));
    HeaderNameIsCString(HeaderName(name));
    assert lines[1..] == DataRecords(image, 0) + Trailer(image);
    ReadTrailer(mode, image);
    ReadDataRecords(mode, image, 0, Trailer(image));
    EmptyCalls(mode);
    assert image[0..] == image;
    var s, c, f := [SetSegment(HeaderName(name))], ByteCalls(mode, 0, image), FlushCalls(mode);
    assert s + (c + f) == s + c + f;
  }

  lemma EmptyCalls(mode: Mode)
    ensures ByteCalls(mode, 0, []) == []
  {
  }

  lemma {:induction false} DataRecordsAreLines(image: seq<Byte>, addr: nat, i: nat)
    requires Writable(image) && i < |DataRecords(image, addr)|
    ensures IsLine(DataRecords(image, addr)[i])
    decreases |image| - addr
  {
    if i == 0 {
      var w := Width(addr);
      RecordIsLine(DataKind(w), BigEndian(addr, w) + image[addr..Min(addr + 16, |image|)]);
    } else {
      DataRecordsAreLines(image, addr + 16, i - 1);
    }
  }

  lemma LinesAreLines(name: seq<Byte>, image: seq<Byte>)
    requires Writable(image)
    ensures forall i :: 0 <= i < |Lines(name, image)| ==> IsLine(Lines(name, image)[i])
  {
    var lines, w := Lines(name, image), Width(EndAddress(image));
    RecordIsLine('0', [0, 0] + HeaderName(name));
    RecordIsLine('5', BigEndian(EndAddress(image) / 16 % 0x1_0000, 2));
    RecordIsLine(EndKind(w), BigEndian(0, w));
    forall i | 0 <= i < |lines| ensures IsLine(lines[i]) {
      if 0 < i <= |DataRecords(image, 0)| {
        DataRecordsAreLines(image, 0, i - 1);
      }
    }
  }

  // ---- What the printed lines say ----

  /** The bytes between the count and the checksum of a printed line. */
  function Payload(line: string): seq<Byte> {
    var d := Decode(line, 2);
    if |d| < 2 then [] else d[1..|d| - 1]
  }

  /** A well-formed record of a type: nothing but upper-case digits between the mark and CR LF, the count of the
      bytes behind it first, and a checksum that fits. */
  predicate IsRecord(line: string, kind: char, payload: seq<Byte>) {
    var d := Decode(line, 2);
    && |line| == 2 + 2 * |d| + 2 && line[..2] == ['S', kind] && line[|line| - 2..] == "\r\n"
    && UpperLine(line) == line
    && |d| == |payload| + 2 && d[0] == |payload| + 1 && Payload(line) == payload && ChecksOut(d)
  }

  lemma RecordSays(kind: char, buf: seq<Byte>)
    requires |buf| <= 20 && KnownKind(kind)
    ensures IsRecord(Record(kind, buf), kind, buf)
  {
    hide Decode, ChecksOut, CheckByte, Hex, Sum;
    var bytes, line := [|buf| + 1] + buf + [CheckByte(buf)], Record(kind, buf);
    RecordDecodes(kind, buf);
    RecordIsLine(kind, buf);
    RecordSums(buf);
    assert bytes[1..|bytes| - 1] == buf;
    assert line == ['S', kind] + Hex(bytes) + "\r\n";
  }

  /** Two to four bytes as a number, the most significant first. */
  function Combined(s: seq<int>): int
    requires 2 <= |s| <= 4
  {
    if |s| == 2 then 0x100 * s[0] + s[1]
    else if |s| == 3 then 0x1_0000 * s[0] + 0x100 * s[1] + s[2]
    else 0x100_0000 * s[0] + 0x1_0000 * s[1] + 0x100 * s[2] + s[3]
  }

  /** How the reader adds up address bytes. */
  lemma ValueIs(s: seq<Byte>)
    requires 2 <= |s| <= 4
    ensures Value(s) == Combined(s)
  {
    if |s| == 3 {
      ValueIs(s[..2]);
    } else if |s| == 4 {
      ValueIs(s[..3]);
    }
  }

  /** An address in the least number of bytes from two on that holds it. */
  predicate IsAddress(s: seq<Byte>, a: nat) {
    && 2 <= |s| <= 4 && a == Combined(s)
    && (|s| > 2 ==> a >= 0x1_0000) && (|s| > 3 ==> a >= 0x100_0000)
  }

  lemma AddressSays(a: Addr)
    ensures IsAddress(BigEndian(a, Width(a)), a) && |BigEndian(a, Width(a))| == Width(a)
  {
    hide BigEndian, Value;
    BigEndianLength(a, Width(a));
    ValueOfBigEndian(a, Width(a));
    ValueIs(BigEndian(a, Width(a)));
  }

  /** The header names the segment, by at most 16 bytes of its name. */
  lemma HeaderSays(name: seq<Byte>, image: seq<Byte>)
    requires Writable(image)
    ensures IsRecord(Lines(name, image)[0], '0', [0, 0] + HeaderName(name))
    ensures HeaderName(name) <= name && (if |name| <= 16 then HeaderName(name) == name else |HeaderName(name)| == 16)
  {
    hide IsRecord, Record, DataRecords, Trailer;
    RecordSays('0', [0, 0] + HeaderName(name));
  }

  /** How many data records there are, and which. */
  lemma {:induction false} DataRecordAt(image: seq<Byte>, addr: nat, i: nat)
    requires Writable(image) && addr % 16 == 0
    ensures var records := DataRecords(image, addr);
            && (i < |records| <==> addr + 16 * i < |image|)
            && (i < |records| ==> records[i] == DataRecord(image, addr + 16 * i))
    decreases i
  {
    hide DataRecord;
    if i > 0 && addr < |image| {
      DataRecordAt(image, addr + 16, i - 1);
    }
  }

  lemma NumberOfRecords(image: seq<Byte>)
    requires Writable(image)
    ensures |DataRecords(image, 0)| == (|image| + 15) / 16 && EndAddress(image) == 16 * |DataRecords(image, 0)|
  {
    hide DataRecords, DataRecord;
    var n := (|image| + 15) / 16;
    DataRecordAt(image, 0, n);
    if n > 0 {
      DataRecordAt(image, 0, n - 1);
    }
  }

  /** Data record i has the 16 bytes of the segment from 16 i on, the last one what is left of them, behind that
      address; it is of type S1, S2 or S3 when its address takes two, three or four bytes. */
  lemma DataSays(name: seq<Byte>, image: seq<Byte>, i: nat)
    requires Writable(image) && 16 * i < |image|
    ensures i < |DataRecords(image, 0)| && |Lines(name, image)| == |DataRecords(image, 0)| + 3
    ensures var line, a := Lines(name, image)[1 + i], 16 * i;
            var p := Payload(line);
            exists w: nat ::
              && 2 <= w <= 4 && w <= |p| && IsAddress(p[..w], a) && p[w..] == image[a..Min(a + 16, |image|)]
              && IsRecord(line, if w == 2 then '1' else if w == 3 then '2' else '3', p)
  {
    hide IsRecord, Record, DataRecords, BigEndian, Decode, IsAddress;
    DataRecordAt(image, 0, i);
    var lines, a := Lines(name, image), 16 * i;
    assert lines[1 + i] == DataRecord(image, a);
    var w, data := Width(a), image[a..Min(a + 16, |image|)];
    var buf := BigEndian(a, w) + data;
    AddressSays(a);
    RecordSays(DataKind(w), buf);
    RecordPayload(lines[1 + i], DataKind(w), buf);
    assert buf[..w] == BigEndian(a, w) && buf[w..] == data;
  }

  lemma RecordPayload(line: string, kind: char, payload: seq<Byte>)
    requires IsRecord(line, kind, payload)
    ensures Payload(line) == payload
  {
  }

  /** The last line but one is an S5 record with the low 16 bits of the number of data records; the last is an S9,
      S8 or S7 record, when the address behind the data takes two, three or four bytes, of that many zeros. */
  lemma TrailerSays(name: seq<Byte>, image: seq<Byte>)
    requires Writable(image)
    ensures var lines, n := Lines(name, image), (|image| + 15) / 16;
            && |lines| == n + 3 && |DataRecords(image, 0)| == n
            && IsRecord(lines[n + 1], '5', Payload(lines[n + 1]))
            && |Payload(lines[n + 1])| == 2 && IsAddress(Payload(lines[n + 1]), n % 0x1_0000)
            && IsRecord(lines[n + 2], if 16 * n < 0x1_0000 then '9' else if 16 * n < 0x100_0000 then '8' else '7',
                        if 16 * n < 0x1_0000 then [0, 0] else if 16 * n < 0x100_0000 then [0, 0, 0] else [0, 0, 0, 0])
  {
    hide IsRecord, Record, DataRecords, BigEndian, Decode, Payload, IsAddress;
    var lines, n, w := Lines(name, image), (|image| + 15) / 16, Width(EndAddress(image));
    NumberOfRecords(image);
    CountIs(n);
    var count := BigEndian(n % 0x1_0000, 2);
    RecordSays('5', count);
    RecordPayload(Record('5', count), '5', count);
    ZeroBytes(w);
    RecordSays(EndKind(w), BigEndian(0, w));
    assert lines[n + 1] == Trailer(image)[0] && lines[n + 2] == Trailer(image)[1];
  }

  lemma CountIs(n: nat)
    ensures |BigEndian(n % 0x1_0000, 2)| == 2 && IsAddress(BigEndian(n % 0x1_0000, 2), n % 0x1_0000)
  {
    AddressSays(n % 0x1_0000);
  }

  lemma ZeroBytes(w: nat)
    requires 2 <= w <= 4
    ensures BigEndian(0, w) == if w == 2 then [0, 0] else if w == 3 then [0, 0, 0] else [0, 0, 0, 0]
  {
  }

  // ---- Which records are taken ----

  /** A record that its line holds whole: of a known type, its count covering at least the address and the
      checksum and at most what the line buffer has room for, and its checksum right. The room is for a count of
      61; the length check would admit one more, whose last byte no line can hold. */
  predicate Complete(kind: char, d: seq<Byte>) {
    && KnownKind(kind) && d != []
    && 3 + ExtraAddress(kind) <= d[0] <= 61
    && d[0] + 1 <= |d| && ChecksOut(d[..d[0] + 1])
  }

  /** A line as fgets delivers it is taken exactly when it holds a complete record, and then it has the
      record's effect; what stands behind the checksum is ignored. */
  lemma AcceptedIff(mode: Mode, line: string)
    requires |line| < LINEBUF_SIZE
    ensures var kind, d, r := At(line, 1), Decode(line, 2), ReadLine(mode, line);
            && (r.error.None? <==> At(line, 0) == 'S' && Complete(kind, d))
            && (r.error.None? ==>
                  var extra := ExtraAddress(kind);
                  r.calls == Effect(mode, kind, d[1..3 + extra], d[3 + extra..d[0]]))
  {
    hide ByteCalls, Value, CString, Decode, ChecksOut, Effect, ReadPayload;
    var kind, d := At(line, 1), Decode(line, 2);
    if |line| >= 2 {
      DecodeLength(line, 2);
    } else {
      EmptyDecode(line);
    }
    if |d| >= 3 && KnownKind(kind) {
      PayloadAccepted(mode, kind, d);
    }
  }

  lemma PayloadAccepted(mode: Mode, kind: char, d: seq<Byte>)
    requires 3 <= |d| <= 62 && KnownKind(kind)
    ensures var r := ReadPayload(mode, kind, PayloadCount(d[0]), d);
            && (d[0] <= 62 && r.error.None? ==> Complete(kind, d))
            && (Complete(kind, d) ==>
                  var extra := ExtraAddress(kind);
                  r == Outcome(Effect(mode, kind, d[1..3 + extra], d[3 + extra..d[0]]), None))
  {
    hide ByteCalls, Value, CString, ChecksOut;
  }

  lemma EmptyDecode(line: string)
    requires |line| < 2
    ensures Decode(line, 2) == []
  {
  }

  /** Why a line is not taken: its count is below 3 or too large for the line buffer; or the count is not, but its
      type is unknown; or all its bytes are there, and the sum is wrong; and for everything else that is missing,
      the format. */
  lemma ErrorIs(mode: Mode, line: string)
    requires |line| < LINEBUF_SIZE
    ensures var kind, d, error := At(line, 1), Decode(line, 2), ReadLine(mode, line).error;
            var counted := At(line, 0) == 'S' && d != [] && 3 <= d[0] <= 62;
            && (error == Some(LineTooLong) <==> At(line, 0) == 'S' && d != [] && !(3 <= d[0] <= 62))
            && (error == Some(BadRecord) <==> counted && |d| >= 3 && !KnownKind(kind))
            && (error == Some(BadCheckSum) <==>
                  && counted && KnownKind(kind) && 3 + ExtraAddress(kind) <= d[0] < |d|
                  && !ChecksOut(d[..d[0] + 1]))
            && error != Some(UnknownFormat)
  {
    hide ByteCalls, Value, CString, Decode, ChecksOut, ReadPayload;
    var kind, d := At(line, 1), Decode(line, 2);
    if |line| >= 2 {
      DecodeLength(line, 2);
    } else {
      EmptyDecode(line);
    }
    if |d| >= 3 && KnownKind(kind) && 3 <= d[0] <= 62 {
      PayloadError(mode, kind, d);
    }
  }

  lemma PayloadError(mode: Mode, kind: char, d: seq<Byte>)
    requires 3 <= |d| <= 62 && KnownKind(kind) && 3 <= d[0] <= 62
    ensures var error := ReadPayload(mode, kind, PayloadCount(d[0]), d).error;
            && (error == Some(BadCheckSum)
                <==> 3 + ExtraAddress(kind) <= d[0] < |d| && !ChecksOut(d[..d[0] + 1]))
            && error in {None, Some(BadFormat), Some(BadCheckSum)}
  {
    hide ByteCalls, Value, CString, ChecksOut;
  }

  /** A name ends at its first NUL. */
  lemma {:induction false} CStringIs(s: seq<Byte>)
    ensures CString(s) <= s && 0 !in CString(s) && (|CString(s)| < |s| ==> s[|CString(s)|] == 0)
  {
    if s != [] && s[0] != 0 {
      CStringIs(s[1..]);
    }
  }

  /** A record whose line ends too soon: a data record has written the bytes that are there, an end record has
      flushed, and a header has named its segment only if nothing but the checksum is missing. */
  lemma TornRecord(mode: Mode, kind: char, d: seq<Byte>)
    requires KnownKind(kind) && 3 + ExtraAddress(kind) <= |d| && 3 + ExtraAddress(kind) <= d[0] && |d| <= d[0]
    ensures var r, start := ReadPayload(mode, kind, PayloadCount(d[0]), d), 3 + ExtraAddress(kind);
            && r.error == Some(BadFormat)
            && r.calls == if kind in "123" then ByteCalls(mode, Value(d[1..start]), d[start..])
                          else if kind in "789" then FlushCalls(mode)
                          else if kind == '0' && |d| == d[0] then [SetSegment(CString(d[3..]))]
                          else []
  {
    hide ByteCalls, Value, CString, ChecksOut;
    var start := 3 + ExtraAddress(kind);
    assert d[start..start + (|d| - start)] == d[start..];
  }

  /** Reading stops at the first line that is not taken; the lines before it, and that one, have had their
      effect. */
  lemma {:induction false} StopsAt(mode: Mode, good: seq<string>, bad: string, more: seq<string>)
    requires ReadLines(mode, good).error.None? && ReadLine(mode, UpperLine(bad)).error.Some?
    ensures var r := ReadLine(mode, UpperLine(bad));
            ReadLines(mode, good + [bad] + more) == Outcome(ReadLines(mode, good).calls + r.calls, r.error)
    decreases |good|
  {
    hide ReadLine;
    var lines, r := good + [bad] + more, ReadLine(mode, UpperLine(bad));
    if good == [] {
      assert lines[0] == bad && [] + r.calls == r.calls;
    } else {
      assert lines[0] == good[0] && lines[1..] == good[1..] + [bad] + more;
      StopsAt(mode, good[1..], bad, more);
      var first, rest := ReadLine(mode, UpperLine(good[0])), ReadLines(mode, good[1..]);
      assert first.calls + (rest.calls + r.calls) == first.calls + rest.calls + r.calls;
    }
  }

  // ---- Corrupted records ----

  lemma {:induction false} SumUpdate(d: seq<Byte>, j: nat, b: Byte)
    requires j < |d|
    ensures Sum(d[j := b]) == Sum(d) - d[j] + b
  {
    var last := |d| - 1;
    if j < last {
      assert d[j := b][..last] == d[..last][j := b];
      SumUpdate(d[..last], j, b);
    } else {
      assert d[j := b][..last] == d[..last];
    }
  }

  lemma NearMiss(s: int, t: int)
    requires s % 0x100 == 0xFF && s != t && -0x100 < t - s < 0x100
    ensures t % 0x100 != 0xFF
  {
  }

  /** Any one byte of an accepted record changed on the way, other than its count, is detected; but by then
      the record has had its effect, with the changed address or data. */
  lemma ChangedByteDetected(mode: Mode, line: string, changed: string, j: nat, b: Byte)
    requires |line| < LINEBUF_SIZE && ReadLine(mode, line).error.None?
    requires var d := Decode(line, 2); d != [] && 1 <= j <= d[0] && j < |d| && b != d[j]
    requires At(changed, 0) == 'S' && At(changed, 1) == At(line, 1) && Decode(changed, 2) == Decode(line, 2)[j := b]
    ensures var kind, e := At(line, 1), Decode(changed, 2);
            var extra := ExtraAddress(kind);
            && 3 + extra <= e[0] < |e|
            && ReadLine(mode, changed)
            == Outcome(Effect(mode, kind, e[1..3 + extra], e[3 + extra..e[0]]), Some(BadCheckSum))
  {
    hide Decode, ReadPayload, ChecksOut, Effect, Value;
    AcceptedIff(mode, line);
    var kind, d, e := At(line, 1), Decode(line, 2), Decode(changed, 2);
    var extra, n := ExtraAddress(kind), d[0] + 1;
    assert e[..n] == d[..n][j := b];
    WrongSum(d[..n], j, b);
    ReadWholePayload(mode, kind, e[1..3 + extra], e[3 + extra..e[0]], e);
  }

  lemma WrongSum(d: seq<Byte>, j: nat, b: Byte)
    requires j < |d| && ChecksOut(d) && b != d[j]
    ensures !ChecksOut(d[j := b])
  {
    SumUpdate(d, j, b);
    NearMiss(Sum(d), Sum(d[j := b]));
  }
}
