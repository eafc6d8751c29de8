/** TMotIntl: the reader and writer of program images. The output file and the device's calls are fields;
    the functions of SRecord and IntelHex say what each method adds to them. */
module MotIntl {
  import opened DivMod
  import opened Wrappers
  import opened HexText
  import opened Device
  import SRecord
  import IntelHex

  class TMotIntl {
    var ccSum: Byte
    var mode: Mode
    var calls: seq<Call>
    var out: string

    /** Two hexadecimal digits; the value is added to the running checksum, an unsigned char. */
    method Htoi(line: string, p: nat) returns (r: Option<Byte>)
      modifies this`ccSum
      ensures r == ByteAt(line, p)
      ensures ccSum == if r.Some? then (old(ccSum) + r.value) % 0x100 else old(ccSum)
    {
      var high := Nibble(At(line, p));
      if high.None? {
        return None;
      }
      var val := high.value * 16;
      var low := Nibble(At(line, p + 1));
      if low.None? {
        return None;
      }
      val := val + low.value;
      ccSum := (ccSum + val) % 0x100;
      return Some(val);
    }

    /** Htoi at the i-th byte of a record, whose bytes start behind the record mark. */
    method Next(line: string, p: nat, ghost start: nat, ghost i: nat) returns (r: Option<Byte>)
      requires p == start + 2 * i && i <= |Decode(line, start)|
      requires ccSum == Sum(Decode(line, start)[..i]) % 0x100
      modifies this`ccSum
      ensures r == if i < |Decode(line, start)| then Some(Decode(line, start)[i]) else None
      ensures r.Some? ==> ccSum == Sum(Decode(line, start)[..i + 1]) % 0x100
    {
      hide *;
      DecodeNext(line, start, i);
      r := Htoi(line, p);
    }

    /** The data loop, the same in UploadMotorola and UploadIntel. */
    method UploadBytes(line: string, p0: nat, addr0: Addr, count: Byte, ghost start: nat, ghost i: nat)
      returns (ok: bool, p: nat)
      requires p0 == start + 2 * i && i <= |Decode(line, start)|
      requires ccSum == Sum(Decode(line, start)[..i]) % 0x100
      modifies this`ccSum, this`calls
      ensures var d := Decode(line, start);
              var have := if |d| - i < count then |d| - i else count;
              && ok == (have == count)
              && calls == old(calls) + ByteCalls(mode, addr0, d[i..i + have])
      ensures ok ==> p == p0 + 2 * count && ccSum == Sum(Decode(line, start)[..i + count]) % 0x100
    {
      hide Decode, Sum, ByteCalls;
      ghost var d := Decode(line, start);
      var srecLen: int, addr: int := count, addr0;
      p := p0;
      assert d[i..i] == [];
      NoBytes(mode, addr0);
      while srecLen > 0
        invariant 0 <= srecLen <= count && i + count - srecLen <= |d|
        invariant p == p0 + 2 * (count - srecLen)
        invariant addr == Advance(addr0, count - srecLen)
        invariant calls == old(calls) + ByteCalls(mode, addr0, d[i..i + count - srecLen])
        invariant ccSum == Sum(d[..i + count - srecLen]) % 0x100
      {
        ghost var k := count - srecLen;
        var byte := Next(line, p, start, i + k);
        if byte.None? {
          return false, p;
        }
        DataStep(mode, addr0, d, i, k);
        if mode.upload {
          calls := calls + [WriteByte(addr, byte.value)];
        }
        if mode.verify {
          calls := calls + [Verify(addr, byte.value)];
        }
        p, addr := p + 2, (addr + 1) % 0x1_0000_0000;
        srecLen := srecLen - 1;
      }
      return true, p;
    }

    /** The loops that only read bytes, for the checksum; S0 keeps what it reads. */
    method ReadBytes(line: string, p0: nat, count: Byte, ghost start: nat, ghost i: nat)
      returns (ok: bool, data: seq<Byte>, p: nat)
      requires p0 == start + 2 * i && i <= |Decode(line, start)|
      requires ccSum == Sum(Decode(line, start)[..i]) % 0x100
      modifies this`ccSum
      ensures ok == (|Decode(line, start)| - i >= count)
      ensures ok ==> data == Decode(line, start)[i..i + count]
      ensures ok ==> p == p0 + 2 * count && ccSum == Sum(Decode(line, start)[..i + count]) % 0x100
    {
      hide Decode, Sum;
      p, data := p0, [];
      for n := 0 to count
        invariant i + n <= |Decode(line, start)| && p == p0 + 2 * n
        invariant data == Decode(line, start)[i..i + n]
        invariant ccSum == Sum(Decode(line, start)[..i + n]) % 0x100
      {
        var byte := Next(line, p, start, i + n);
        if byte.None? {
          return false, data, p;
        }
        data := data + [byte.value];
        p := p + 2;
      }
      return true, data, p;
    }

    /** The body of the do-while of UploadMotorola, on an upper-case line. */
    method MotorolaLine(line: string) returns (error: Option<Error>)
      modifies this`ccSum, this`calls
      ensures var r := SRecord.ReadLine(mode, line);
              calls == old(calls) + r.calls && error == r.error
    {
      hide Decode, Sum, ByteCalls, SRecord.CString;
      if At(line, 0) != 'S' {
        return Some(BadFormat);
      }
      ghost var d := Decode(line, 2);
      ccSum := 0;
      NoSum();
      assert d[..0] == [];
      var c := Next(line, 2, 2, 0);
      if c.None? {
        return Some(BadFormat);
      }
      var srecLen: Byte := SRecord.PayloadCount(c.value);
      var p := 4;
      if (srecLen + 1 + 1 + 3) * 2 > LINEBUF_SIZE {
        return Some(LineTooLong);
      }
      var high := Next(line, p, 2, 1);
      if high.None? {
        return Some(BadFormat);
      }
      p := p + 2;
      var low := Next(line, p, 2, 2);
      if low.None? {
        return Some(BadFormat);
      }
      p := p + 2;
      var kind := At(line, 1);
      if !SRecord.KnownKind(kind) {
        return Some(BadRecord);
      }
      ValueOfTwo(d);
      error := MotorolaSwitch(line, kind, p, high.value * 0x100 + low.value, srecLen);
    }

    /** The switch on the record type, and the checksum test behind it. */
    method MotorolaSwitch(line: string, kind: char, p0: nat, addr: Addr, srecLen: Byte) returns (error: Option<Error>)
      requires SRecord.KnownKind(kind) && |Decode(line, 2)| >= 3 && p0 == 8
      requires addr == SRecord.Value(Decode(line, 2)[1..3])
      requires ccSum == Sum(Decode(line, 2)[..3]) % 0x100
      modifies this`ccSum, this`calls
      ensures var r := SRecord.ReadPayload(mode, kind, srecLen, Decode(line, 2));
              calls == old(calls) + r.calls && error == r.error
    {
      hide Decode, Sum, ByteCalls, SRecord.CString, SRecord.Closing, SRecord.Value;
      var ok, p;
      var count := srecLen;
      ghost var i := 3;
      if kind in ['1', '2', '3'] {
        ok, p, count, i := MotorolaDataRecord(line, kind, p0, addr, srecLen);
      } else if kind == '0' {
        var name;
        ok, name, p := ReadBytes(line, p0, srecLen, 2, 3);
        if ok {
          calls := calls + [SetSegment(SRecord.CString(name))];
        }
      } else {
        if kind != '5' && mode.upload {
          calls := calls + [Flush];
        }
        var ignored;
        ok, ignored, p := ReadBytes(line, p0, srecLen, 2, 3);
      }
      if !ok {
        TooShort(Decode(line, 2), i + count + 1);
        return Some(BadFormat);
      }
      error := CheckSum(line, p, i + count);
    }

    /** S1, S2 and S3: the cases fall through, each reading one more address byte. */
    method MotorolaDataRecord(line: string, kind: char, p0: nat, addr0: Addr, srecLen0: Byte)
      returns (ok: bool, p: nat, srecLen: Byte, ghost i: nat)
      requires kind in ['1', '2', '3'] && |Decode(line, 2)| >= 3 && p0 == 8
      requires addr0 == SRecord.Value(Decode(line, 2)[1..3])
      requires ccSum == Sum(Decode(line, 2)[..3]) % 0x100
      modifies this`ccSum, this`calls
      ensures i == 3 + SRecord.ExtraAddress(kind) && srecLen == (srecLen0 - SRecord.ExtraAddress(kind)) % 0x100
      ensures var r := SRecord.ReadPayload(mode, kind, srecLen0, Decode(line, 2));
              calls == old(calls) + r.calls
      ensures ok == (i + srecLen <= |Decode(line, 2)|)
      ensures ok ==> p == 2 + 2 * (i + srecLen) && ccSum == Sum(Decode(line, 2)[..i + srecLen]) % 0x100
    {
      hide Decode, Sum, ByteCalls, SRecord.Closing, SRecord.Value;
      ghost var d := Decode(line, 2);
      var addr: Addr := addr0;
      var more := true;
      p, i, srecLen := p0, 3, (srecLen0 - SRecord.ExtraAddress(kind)) % 0x100;
      if kind == '3' {
        more, addr, p := AddressByte(line, p, addr, 3);
        if !more {
          i := 5;
          return false, p, srecLen, i;
        }
        i := 4;
      }
      if kind == '3' || kind == '2' {
        more, addr, p := AddressByte(line, p, addr, i);
        i := i + 1;
        if !more {
          return false, p, srecLen, i;
        }
      }
      ok, p := UploadBytes(line, p, addr, srecLen, 2, i);
    }

    method AddressByte(line: string, p0: nat, addr0: Addr, ghost i: nat) returns (ok: bool, addr: Addr, p: nat)
      requires p0 == 2 + 2 * i && 3 <= i <= 4 && i <= |Decode(line, 2)|
      requires addr0 == SRecord.Value(Decode(line, 2)[1..i])
      requires ccSum == Sum(Decode(line, 2)[..i]) % 0x100
      modifies this`ccSum
      ensures ok == (i < |Decode(line, 2)|)
      ensures ok ==> addr == SRecord.Value(Decode(line, 2)[1..i + 1]) && p == p0 + 2
      ensures ok ==> ccSum == Sum(Decode(line, 2)[..i + 1]) % 0x100
    {
      hide Decode, Sum;
      var b := Next(line, p0, 2, i);
      if b.None? {
        return false, addr0, p0;
      }
      SRecord.ValueNext(Decode(line, 2), i + 1);
      return true, (addr0 * 0x100 + b.value) % 0x1_0000_0000, p0 + 2;
    }

    method CheckSum(line: string, p: nat, ghost i: nat) returns (error: Option<Error>)
      requires p == 2 + 2 * i && i <= |Decode(line, 2)|
      requires ccSum == Sum(Decode(line, 2)[..i]) % 0x100
      modifies this`ccSum
      ensures error == SRecord.Closing(Decode(line, 2), i + 1)
    {
      var b := Next(line, p, 2, i);
      if b.None? {
        return Some(BadFormat);
      }
      if ccSum != 0xFF {
        return Some(BadCheckSum);
      }
      return None;
    }

    /** UploadMotorola: every line until one throws or the file ends. */
    method UploadMotorola(lines: seq<string>) returns (error: Option<Error>)
      modifies this`ccSum, this`calls
      ensures var r := SRecord.ReadLines(mode, lines);
              calls == old(calls) + r.calls && error == r.error
    {
      hide SRecord.ReadLine;
      ghost var before := calls;
      ghost var all := SRecord.ReadLines(mode, lines);
      error := None;
      for n := 0 to |lines|
        invariant error.None?
        invariant var rest := SRecord.ReadLines(mode, lines[n..]);
                  before + all.calls == calls + rest.calls && all.error == rest.error
      {
        assert lines[n..][0] == lines[n] && lines[n..][1..] == lines[n + 1..];
        error := MotorolaLine(UpperLine(lines[n]));
        if error.Some? {
          return;
        }
      }
    }

    /** The body of the do-while of UploadIntel, on an upper-case line. */
    method IntelLine(line: string, segOffset0: Addr) returns (segOffset: Addr, error: Option<Error>)
      modifies this`ccSum, this`calls
      ensures var r := IntelHex.ReadLine(mode, segOffset0, line);
              calls == old(calls) + r.calls && error == r.error && segOffset == r.base
    {
      hide Decode, Sum, ByteCalls, IntelHex.ReadPayload, Word;
      segOffset := segOffset0;
      if At(line, 0) != ':' {
        return segOffset, Some(BadFormat);
      }
      ghost var d := Decode(line, 1);
      ccSum := 0;
      NoSum();
      assert d[..0] == [];
      var ihexLen := Next(line, 1, 1, 0);
      if ihexLen.None? {
        return segOffset, Some(BadFormat);
      }
      if 1 + (ihexLen.value + 1 + 2 + 1 + 1) * 2 > LINEBUF_SIZE {
        return segOffset, Some(LineTooLong);
      }
      var high := Next(line, 3, 1, 1);
      if high.None? {
        return segOffset, Some(BadFormat);
      }
      var low := Next(line, 5, 1, 2);
      if low.None? {
        return segOffset, Some(BadFormat);
      }
      var recType := Next(line, 7, 1, 3);
      if recType.None? {
        return segOffset, Some(BadFormat);
      }
      var addr := Advance(segOffset, Word(high.value, low.value));
      segOffset, error := IntelSwitch(line, recType.value, addr, ihexLen.value, segOffset);
    }

    /** The switch on the record type, and the checksum test behind it. */
    method IntelSwitch(line: string, recType: Byte, addr: Addr, ihexLen: Byte, segOffset0: Addr)
      returns (segOffset: Addr, error: Option<Error>)
      requires var d := Decode(line, 1);
               && |d| >= 4 && ihexLen == d[0] && recType == d[3]
               && addr == Advance(segOffset0, Word(d[1], d[2]))
      requires ccSum == Sum(Decode(line, 1)[..4]) % 0x100
      modifies this`ccSum, this`calls
      ensures var r := IntelHex.ReadPayload(mode, segOffset0, Decode(line, 1));
              calls == old(calls) + r.calls && error == r.error && segOffset == r.base
    {
      hide Decode, Sum, ByteCalls, IntelHex.ChecksOut, Word;
      segOffset := segOffset0;
      var ok, p;
      ghost var i: int := ihexLen;
      if recType == 0 {
        ok, p := UploadBytes(line, 9, addr, ihexLen, 1, 4);
      } else if recType == 1 || recType == 3 || recType == 5 {
        var ignored;
        ok, ignored, p := ReadBytes(line, 9, ihexLen, 1, 4);
      } else if recType == 2 || recType == 4 {
        var high := Next(line, 9, 1, 4);
        if high.None? {
          return segOffset, Some(BadFormat);
        }
        var low := Next(line, 11, 1, 5);
        if low.None? {
          return segOffset, Some(BadFormat);
        }
        ok, p, i := true, 13, 2;
        segOffset := Word(high.value, low.value) * (if recType == 2 then 0x10 else 0x1_0000);
      } else {
        return segOffset, Some(BadRecord);
      }
      if !ok {
        return segOffset, Some(BadFormat);
      }
      error := IntelCheckSum(line, p, 4 + i);
    }

    method IntelCheckSum(line: string, p: nat, ghost i: nat) returns (error: Option<Error>)
      requires p == 1 + 2 * i && i <= |Decode(line, 1)|
      requires ccSum == Sum(Decode(line, 1)[..i]) % 0x100
      modifies this`ccSum
      ensures error == IntelHex.Closing(Decode(line, 1), i + 1)
    {
      var b := Next(line, p, 1, i);
      if b.None? {
        return Some(BadFormat);
      }
      if ccSum != 0 {
        return Some(BadCheckSum);
      }
      return None;
    }

    /** UploadIntel: every line until one throws; then the flush. */
    method UploadIntel(lines: seq<string>) returns (error: Option<Error>)
      modifies this`ccSum, this`calls
      ensures var r := IntelHex.ReadLines(mode, 0, lines);
              calls == old(calls) + r.calls && error == r.error
    {
      hide IntelHex.ReadLine;
      ghost var before := calls;
      ghost var all := IntelHex.ReadLines(mode, 0, lines);
      var segOffset: Addr := 0;
      error := None;
      for n := 0 to |lines|
        invariant error.None?
        invariant var rest := IntelHex.ReadLines(mode, segOffset, lines[n..]);
                  before + all.calls == calls + rest.calls && all.error == rest.error
      {
        assert lines[n..][0] == lines[n] && lines[n..][1..] == lines[n + 1..];
        segOffset, error := IntelLine(UpperLine(lines[n]), segOffset);
        if error.Some? {
          return;
        }
      }
      if mode.upload {
        calls := calls + [Flush];
      }
    }

    /** Read: the format is recognised by the start of the first line. */
    method Read(file: string) returns (error: Option<Error>)
      modifies this`ccSum, this`calls
      ensures var r := ReadFile(mode, file);
              calls == old(calls) + r.calls && error == r.error
    {
      var lines := Fgets(file);
      if lines == [] {
        return Some(UnknownFormat);
      }
      if Upper(At(lines[0], 0)) == 'S' && At(lines[0], 1) == '0' {
        error := UploadMotorola(lines);
      } else if At(lines[0], 0) == ':' {
        error := UploadIntel(lines);
      } else {
        error := Some(UnknownFormat);
      }
    }

    /** SrecWrite: one record printed to the output. */
    method SrecWrite(type_: int, buf: array<Byte>, off: nat, len: nat, ghost record: seq<Byte>)
      requires 0 <= type_ <= 9 && off + len <= buf.Length && len < 0xFF
      requires record == buf[off..off + len]
      modifies this`out
      ensures out == old(out) + SRecord.Record(Digit(type_), record)
    {
      hide Hex, Hex2, Sum, SRecord.Complement;
      ghost var count: Byte := len + 1;
      var sum := len + 1;
      out := out + ['S', Digit(type_)] + Hex2(len + 1);
      NoSum();
      assert buf[off..off] == [] && [count] + [] == [count];
      HexSnoc([], count);
      assert [] + [count] == [count];
      for i := 0 to len
        invariant sum == len + 1 + Sum(buf[off..off + i])
        invariant out == old(out) + ['S', Digit(type_)] + Hex([count] + buf[off..off + i])
      {
        sum := sum + buf[off + i];
        out := out + Hex2(buf[off + i]);
        SliceSnoc(buf[..], off, i);
        HexSnoc([count] + buf[off..off + i], buf[off + i]);
        assert [count] + buf[off..off + i + 1] == [count] + buf[off..off + i] + [buf[off + i]];
      }
      var check := SRecord.Complement(sum);
      out := out + Hex2(check) + "\r\n";
      HexSnoc([count] + buf[off..off + len], check);
    }

    /** DownloadMotorola: the device's segment, of this name and content, as an S-record file. */
    method DownloadMotorola(seg: seq<Byte>, image: seq<Byte>)
      requires SRecord.Writable(image)
      requires forall i :: 0 <= i < |seg| ==> seg[i] != 0
      modifies this`out
      ensures out == old(out) + Concat(SRecord.Lines(seg, image))
    {
      hide *;
      var buf := new Byte[40];
      var nameLength := CopyName(buf, seg);
      ghost var header: seq<Byte> := [0, 0] + SRecord.HeaderName(seg);
      SrecWrite(0, buf, 0, 2 + nameLength, header);
      ZeroDigit();
      var addr, s5count := WriteDataRecords(buf, image);
      WriteTrailer(buf, image, addr, s5count);
      LinesOf(seg, image, header);
    }

    /** The loop over the segment; it ends behind the last record. */
    method WriteDataRecords(buf: array<Byte>, image: seq<Byte>) returns (addr: nat, s5count: nat)
      requires SRecord.Writable(image) && buf.Length == 40
      modifies this`out, buf
      ensures out == old(out) + Concat(SRecord.DataRecords(image, 0))
      ensures addr == SRecord.EndAddress(image) && addr == 16 * s5count
    {
      hide Concat, SRecord.DataRecord, SRecord.DataRecords;
      addr, s5count := 0, 0;
      while addr < |image|
        invariant addr == 16 * s5count && addr <= SRecord.EndAddress(image)
        invariant out + Concat(SRecord.DataRecords(image, addr)) == old(out) + Concat(SRecord.DataRecords(image, 0))
        decreases |image| - addr
      {
        DataRecord(buf, image, addr);
        NextDataRecord(image, addr);
        addr := addr + 16;
        s5count := s5count + 1;
      }
      NoDataRecords(image, addr);
      assert out + "" == out;
    }

    /** The S5 record with the number of data records, and the end record. */
    method WriteTrailer(buf: array<Byte>, image: seq<Byte>, addr: Addr, s5count: nat)
      requires SRecord.Writable(image) && buf.Length == 40
      requires addr == SRecord.EndAddress(image) && addr == 16 * s5count
      modifies this`out, buf
      ensures out == old(out) + SRecord.Trailer(image)[0] + SRecord.Trailer(image)[1]
    {
      hide SRecord.Record, SRecord.BigEndian;
      buf[0], buf[1] := s5count / 0x100 % 0x100, s5count % 0x100;
      WordBigEndian(s5count);
      assert buf[0..2] == SRecord.BigEndian(s5count % 0x1_0000, 2);
      SrecWrite(5, buf, 0, 2, buf[0..2]);
      buf[0], buf[1], buf[2], buf[3] := 0, 0, 0, 0;
      if addr < 0x1_0000 {
        ZeroBigEndian(buf[2..4], 2);
        SrecWrite(9, buf, 2, 2, buf[2..4]);
      } else if addr < 0x100_0000 {
        ZeroBigEndian(buf[1..4], 3);
        SrecWrite(8, buf, 1, 3, buf[1..4]);
      } else {
        ZeroBigEndian(buf[0..4], 4);
        SrecWrite(7, buf, 0, 4, buf[0..4]);
      }
    }

    /** strncpy of at most 16 bytes behind the two zero address bytes, then strlen. */
    method CopyName(buf: array<Byte>, seg: seq<Byte>) returns (length: nat)
      requires buf.Length == 40
      requires forall i :: 0 <= i < |seg| ==> seg[i] != 0
      modifies buf
      ensures length <= 16 && buf[0..2 + length] == [0, 0] + SRecord.HeaderName(seg)
    {
      buf[0], buf[1] := 0, 0;
      for i := 0 to 16
        invariant buf[0] == 0 && buf[1] == 0
        invariant forall k :: 2 <= k < 2 + i ==> buf[k] == if k - 2 < |seg| then seg[k - 2] else 0
      {
        buf[2 + i] := if i < |seg| then seg[i] else 0;
      }
      buf[18] := 0;
      length := 0;
      while buf[2 + length] != 0
        invariant length <= 16 && (length <= |seg|)
        decreases 16 - length
      {
        length := length + 1;
      }
      assert length == SRecord.Min(16, |seg|);
      assert buf[2..2 + length] == SRecord.HeaderName(seg);
    }

    /** One turn of the download loop. */
    method DataRecord(buf: array<Byte>, image: seq<Byte>, addr: Addr)
      requires buf.Length == 40 && addr < |image| && SRecord.Writable(image)
      modifies this`out, buf
      ensures out == old(out) + SRecord.DataRecord(image, addr)
    {
      assert |image| < 0x8000_0000;
      hide *;
      var len := SRecord.ToInt(|image| - addr);
      if len > 16 {
        len := 16;
      }
      LengthIs(image, addr, len);
      FillBuffer(buf, image, addr, len);
      ghost var data := image[addr..addr + len];
      ghost var record := SRecord.BigEndian(addr, SRecord.Width(addr)) + data;
      FilledBuffer(addr, buf[..], data);
      DataRecordOf(image, addr, data, record);
      PrintFilled(buf, addr, len, record);
    }

    /** The filled buffer is printed from the address byte on that the width asks for. */
    method PrintFilled(buf: array<Byte>, addr: Addr, len: nat, ghost record: seq<Byte>)
      requires buf.Length == 40 && len <= 16
      requires record == buf[..][4 - SRecord.Width(addr)..4 + len]
      modifies this`out
      ensures out == old(out) + SRecord.Record(SRecord.DataKind(SRecord.Width(addr)), record)
    {
      hide *;
      KindOfWidth(addr);
      if addr < 0x1_0000 {
        assert buf[2..4 + len] == buf[..][2..4 + len];
        SrecWrite(1, buf, 2, 2 + len, record);
      } else if addr < 0x100_0000 {
        assert buf[1..4 + len] == buf[..][1..4 + len];
        SrecWrite(2, buf, 1, 3 + len, record);
      } else {
        assert buf[0..4 + len] == buf[..][0..4 + len];
        SrecWrite(3, buf, 0, 4 + len, record);
      }
    }

    method FillBuffer(buf: array<Byte>, image: seq<Byte>, addr: Addr, len: nat)
      requires buf.Length == 40 && addr + len <= |image| && len <= 16
      modifies buf
      ensures buf[0..4] == [addr / 0x100_0000, addr / 0x1_0000 % 0x100, addr / 0x100 % 0x100, addr % 0x100]
      ensures buf[4..4 + len] == image[addr..addr + len]
    {
      buf[0] := addr / 0x100_0000 % 0x100;
      buf[1] := addr / 0x1_0000 % 0x100;
      buf[2] := addr / 0x100 % 0x100;
      buf[3] := addr % 0x100;
      ghost var address := buf[0..4];
      for i := 0 to len
        invariant buf[0..4] == address
        invariant buf[4..4 + i] == image[addr..addr + i]
      {
        var rbyte := image[addr + i];
        buf[4 + i] := rbyte;
        assert buf[4..4 + i + 1] == buf[4..4 + i] + [rbyte];
      }
    }
  }

  lemma WordBigEndian(n: nat)
    ensures SRecord.BigEndian(n % 0x1_0000, 2) == [n / 0x100 % 0x100, n % 0x100]
  {
    var q, high, low := ByBytes(n);
    var r := n % 0x1_0000;
    DivisionIs(r, high, 0x100, low);
    DivisionIs(high, 0, 0x100, high);
  }

  /** The filled buffer holds address and data next to each other, for every address width. */
  lemma FilledBuffer(addr: Addr, buf: seq<Byte>, data: seq<Byte>)
    requires |buf| == 40 && |data| <= 16
    requires buf[0..4] == [addr / 0x100_0000, addr / 0x1_0000 % 0x100, addr / 0x100 % 0x100, addr % 0x100]
    requires buf[4..4 + |data|] == data
    ensures buf[4 - SRecord.Width(addr)..4 + |data|] == SRecord.BigEndian(addr, SRecord.Width(addr)) + data
  {
  }

  lemma ZeroDigit()
    ensures Digit(0) == '0'
  {
  }

  lemma NextDataRecord(image: seq<Byte>, addr: Addr)
    requires SRecord.Writable(image) && addr < |image|
    ensures Concat(SRecord.DataRecords(image, addr))
         == SRecord.DataRecord(image, addr) + Concat(SRecord.DataRecords(image, addr + 16))
  {
    hide SRecord.DataRecord;
  }

  lemma NoDataRecords(image: seq<Byte>, addr: nat)
    requires SRecord.Writable(image) && addr >= |image|
    ensures Concat(SRecord.DataRecords(image, addr)) == ""
  {
  }

  /** The whole file, from its parts. */
  lemma LinesOf(seg: seq<Byte>, image: seq<Byte>, header: seq<Byte>)
    requires SRecord.Writable(image) && header == [0, 0] + SRecord.HeaderName(seg)
    ensures |SRecord.Trailer(image)| == 2
    ensures Concat(SRecord.Lines(seg, image))
         == SRecord.Record('0', header) + Concat(SRecord.DataRecords(image, 0))
            + SRecord.Trailer(image)[0] + SRecord.Trailer(image)[1]
  {
    hide Concat, SRecord.Record, SRecord.DataRecords;
    ConcatLines(SRecord.Record('0', header), SRecord.DataRecords(image, 0), SRecord.Trailer(image));
  }

  lemma LengthIs(image: seq<Byte>, addr: Addr, len: int)
    requires addr < |image| && SRecord.Writable(image)
    requires len == if SRecord.ToInt(|image| - addr) > 16 then 16 else SRecord.ToInt(|image| - addr)
    ensures 0 < len <= 16 && addr + len == SRecord.Min(addr + 16, |image|) <= |image|
  {
  }

  lemma KindOfWidth(addr: Addr)
    ensures var w := SRecord.Width(addr);
            && w == (if addr < 0x1_0000 then 2 else if addr < 0x100_0000 then 3 else 4)
            && SRecord.DataKind(w) == Digit(w - 1)
  {
  }

  lemma DataRecordOf(image: seq<Byte>, addr: Addr, data: seq<Byte>, record: seq<Byte>)
    requires addr < |image| && data == image[addr..SRecord.Min(addr + 16, |image|)]
    requires record == SRecord.BigEndian(addr, SRecord.Width(addr)) + data
    ensures SRecord.DataRecord(image, addr) == SRecord.Record(SRecord.DataKind(SRecord.Width(addr)), record)
  {
    hide SRecord.Record, SRecord.BigEndian;
  }

  lemma ZeroBigEndian(zeros: seq<Byte>, w: nat)
    requires 2 <= w <= 4 && |zeros| == w && forall i :: 0 <= i < w ==> zeros[i] == 0
    ensures SRecord.BigEndian(0, w) == zeros
  {
  }

  lemma {:induction false} ConcatAppend(a: seq<string>, b: seq<string>)
    ensures Concat(a + b) == Concat(a) + Concat(b)
  {
    if a == [] {
      assert a + b == b;
    } else {
      assert (a + b)[1..] == a[1..] + b;
      ConcatAppend(a[1..], b);
    }
  }

  lemma ConcatLines(header: string, data: seq<string>, trailer: seq<string>)
    requires |trailer| == 2
    ensures Concat([header] + data + trailer) == header + Concat(data) + trailer[0] + trailer[1]
  {
    ConcatAppend([header] + data, trailer);
    ConcatAppend([header], data);
    assert Concat([header]) == header + "";
    assert trailer[1..] == [trailer[1]] && trailer[1..][1..] == [];
    assert Concat(trailer[1..]) == trailer[1] + "";
    assert Concat(trailer) == trailer[0] + (trailer[1] + "");
  }

  lemma SliceSnoc(a: seq<Byte>, off: nat, i: nat)
    requires off + i < |a|
    ensures a[off..off + i + 1] == a[off..off + i] + [a[off + i]]
    ensures Sum(a[off..off + i + 1]) == Sum(a[off..off + i]) + a[off + i]
  {
  }

  /** What reading a file does: S-records, Intel HEX, or nothing. */
  function ReadFile(mode: Mode, file: string): Outcome {
    var lines := Fgets(file);
    if lines == [] then Outcome([], Some(UnknownFormat))
    else if Upper(At(lines[0], 0)) == 'S' && At(lines[0], 1) == '0' then SRecord.ReadLines(mode, lines)
    else if At(lines[0], 0) == ':' then IntelHex.ReadLines(mode, 0, lines)
    else Outcome([], Some(UnknownFormat))
  }

  lemma TooShort(d: seq<Byte>, total: nat)
    requires |d| < total
    ensures SRecord.Closing(d, total) == Some(BadFormat)
  {
  }

  lemma ValueOfTwo(d: seq<Byte>)
    requires |d| >= 3
    ensures var high: int := d[1];
            high * 0x100 + d[2] == SRecord.Value(d[1..3])
  {
  }

  lemma NoSum()
    ensures Sum([]) == 0
  {
  }

  lemma DataStep(mode: Mode, addr: Addr, d: seq<Byte>, i: nat, k: nat)
    requires i + k < |d|
    ensures ByteCalls(mode, addr, d[i..i + k + 1])
         == ByteCalls(mode, addr, d[i..i + k]) + OneByte(mode, Advance(addr, k), d[i + k])
    ensures (Advance(addr, k) + 1) % 0x1_0000_0000 == Advance(addr, k + 1)
  {
    assert d[i..i + k + 1] == d[i..i + k] + [d[i + k]];
    ByteCallsSnoc(mode, addr, d[i..i + k], d[i + k]);
    AdvanceTwice(addr, k, 1);
  }

  /** A dump written and read back: the reader recognises the format, selects the segment, writes every
      byte of the image at its own address, once and in order, and flushes once. */
  lemma FileRoundTrip(mode: Mode, name: seq<Byte>, image: seq<Byte>)
    requires SRecord.Writable(image)
    requires forall i :: 0 <= i < |name| ==> name[i] != 0
    ensures ReadFile(mode, Concat(SRecord.Lines(name, image)))
         == Outcome([SetSegment(SRecord.HeaderName(name))] + ByteCalls(mode, 0, image) + FlushCalls(mode), None)
  {
    hide SRecord.ReadLines, ByteCalls, Fgets, Concat, SRecord.DataRecords, SRecord.Trailer;
    var lines := SRecord.Lines(name, image);
    SRecord.RoundTrip(mode, name, image);
    SRecord.LinesAreLines(name, image);
    FgetsConcat(lines);
    assert At(lines[0], 0) == 'S' && At(lines[0], 1) == '0';
  }

  // ---- Formats, and the case of letters ----

  /** Which files are read: by the first character, and the second of an S-record file. */
  lemma FormatIs(mode: Mode, file: string)
    ensures var motorola, intel := |file| >= 2 && file[0] in "sS" && file[1] == '0', file != "" && file[0] == ':';
            ReadFile(mode, file) == if motorola then SRecord.ReadLines(mode, Fgets(file))
                                    else if intel then IntelHex.ReadLines(mode, 0, Fgets(file))
                                    else Outcome([], Some(UnknownFormat))
  {
    hide SRecord.ReadLines, IntelHex.ReadLines, Upper, Fgets, At;
    if file != "" {
      FirstLine(file);
      Mark(file[0]);
    } else {
      NoLines();
    }
  }

  lemma NoLines()
    ensures Fgets("") == []
  {
  }

  lemma Mark(c: char)
    ensures Upper(c) == 'S' <==> c in "sS"
  {
    UpperIff(c, 'S');
    UpperIff('S', 'S');
  }

  lemma FirstLine(file: string)
    requires file != ""
    ensures Fgets(file) != [] && At(Fgets(file)[0], 0) == file[0]
    ensures file[0] in "sS" ==> (At(Fgets(file)[0], 1) == '0' <==> |file| >= 2 && file[1] == '0')
  {
    hide LineLength;
    TwoInLine(file, LINEBUF_SIZE - 1);
    assert Fgets(file)[0] == file[..LineLength(file, LINEBUF_SIZE - 1)];
  }

  lemma TwoInLine(file: string, limit: nat)
    requires limit >= 2 && file != ""
    ensures 1 <= LineLength(file, limit) <= |file|
    ensures file[0] != '\n' && |file| >= 2 ==> LineLength(file, limit) >= 2
  {
  }

  lemma {:induction false} AlikeMotorola(mode: Mode, a: seq<string>, b: seq<string>)
    requires |a| == |b| && forall i :: 0 <= i < |a| ==> AlikeButCase(a[i], b[i])
    ensures SRecord.ReadLines(mode, a) == SRecord.ReadLines(mode, b)
    decreases |a|
  {
    hide AlikeButCase, SRecord.ReadLine;
    if a != [] {
      AlikeUpper(a[0], b[0]);
      AlikeMotorola(mode, a[1..], b[1..]);
    }
  }

  lemma {:induction false} AlikeIntel(mode: Mode, base: Addr, a: seq<string>, b: seq<string>)
    requires |a| == |b| && forall i :: 0 <= i < |a| ==> AlikeButCase(a[i], b[i])
    ensures IntelHex.ReadLines(mode, base, a) == IntelHex.ReadLines(mode, base, b)
    decreases |a|
  {
    hide AlikeButCase, IntelHex.ReadLine;
    if a != [] {
      AlikeUpper(a[0], b[0]);
      AlikeIntel(mode, IntelHex.ReadLine(mode, base, UpperLine(a[0])).base, a[1..], b[1..]);
    }
  }

  /** A file may be written in letters of either case: what it does is the same. */
  lemma CaseDoesNotMatter(mode: Mode, f: string, g: string)
    requires AlikeButCase(f, g)
    ensures ReadFile(mode, f) == ReadFile(mode, g)
  {
    hide SRecord.ReadLines, IntelHex.ReadLines, Fgets, SameButCase;
    FormatIs(mode, f);
    FormatIs(mode, g);
    AlikeLines(f, g);
    AlikeMotorola(mode, Fgets(f), Fgets(g));
    AlikeIntel(mode, 0, Fgets(f), Fgets(g));
    if f != "" {
      AlikeMarks(f[0], g[0]);
      if |f| > 1 {
        AlikeMarks(f[1], g[1]);
      }
    }
  }

  lemma AlikeMarks(c: char, d: char)
    requires SameButCase(c, d)
    ensures (c in "sS" <==> d in "sS") && (c == ':' <==> d == ':') && (c == '0' <==> d == '0')
  {
  }

  /** So a dump in any spelling is read back ... */
  lemma AnySpellingRoundTrip(mode: Mode, name: seq<Byte>, image: seq<Byte>, file: string)
    requires SRecord.Writable(image) && AlikeButCase(file, Concat(SRecord.Lines(name, image)))
    requires forall i :: 0 <= i < |name| ==> name[i] != 0
    ensures ReadFile(mode, file)
         == Outcome([SetSegment(SRecord.HeaderName(name))] + ByteCalls(mode, 0, image) + FlushCalls(mode), None)
  {
    hide ReadFile, ByteCalls, Concat, SRecord.Lines, AlikeButCase;
    FileRoundTrip(mode, name, image);
    CaseDoesNotMatter(mode, file, Concat(SRecord.Lines(name, image)));
  }

  /** ... and so is a file of well-formed Intel HEX records. */
  lemma AnySpellingUpload(mode: Mode, rs: seq<IntelHex.Record>, file: string)
    requires rs != [] && IntelHex.AllWellFormed(rs) && AlikeButCase(file, Concat(IntelHex.Lines(rs)))
    ensures ReadFile(mode, file) == Outcome(IntelHex.CallsFrom(mode, rs, 0) + FlushCalls(mode), None)
  {
    hide ReadFile, IntelHex.ReadLines, IntelHex.CallsFrom, AlikeButCase, Fgets;
    IntelHex.UploadMeaning(mode, rs);
    var g := Concat(IntelHex.Lines(rs));
    CaseDoesNotMatter(mode, file, g);
    FormatIs(mode, g);
    assert g[0] == ':';
  }
}
