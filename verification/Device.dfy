/** The programmer as the file readers see it: a sequence of calls. */
module Device {
  import opened Wrappers
  import opened HexText

  datatype Call =
    | SetSegment(name: seq<Byte>)
    | WriteByte(addr: Addr, byte: Byte)
    | Verify(addr: Addr, byte: Byte)  // ReadByte(addr), compared with byte
    | Flush

  datatype Error =
    | UnknownFormat
    | BadFormat
    | LineTooLong
    | BadRecord
    | BadCheckSum

  /** What a reader did to the device, and the exception that stopped it, if any. */
  datatype Outcome = Outcome(calls: seq<Call>, error: Option<Error>)

  /** What the file says is to happen to each byte. */
  datatype Mode = Mode(upload: bool, verify: bool)

  function OneByte(mode: Mode, addr: Addr, b: Byte): seq<Call> {
    (if mode.upload then [WriteByte(addr, b)] else []) + (if mode.verify then [Verify(addr, b)] else [])
  }

  /** Consecutive bytes from addr on, the address wrapping at 32 bits. */
  function ByteCalls(mode: Mode, addr: Addr, data: seq<Byte>): seq<Call>
    decreases |data|
  {
    if data == [] then []
    else OneByte(mode, addr, data[0]) + ByteCalls(mode, Advance(addr, 1), data[1..])
  }

  function FlushCalls(mode: Mode): seq<Call> {
    if mode.upload then [Flush] else []
  }

  function Advance(addr: Addr, n: nat): Addr {
    (addr + n) % 0x1_0000_0000
  }

  lemma NoBytes(mode: Mode, addr: Addr)
    ensures ByteCalls(mode, addr, []) == [] && Advance(addr, 0) == addr
  {
  }

  lemma AdvanceTwice(addr: Addr, m: nat, n: nat)
    ensures Advance(Advance(addr, m), n) == Advance(addr, m + n)
  {
  }

  lemma {:induction false} ByteCallsAppend(mode: Mode, addr: Addr, a: seq<Byte>, b: seq<Byte>)
    ensures ByteCalls(mode, addr, a + b) == ByteCalls(mode, addr, a) + ByteCalls(mode, Advance(addr, |a|), b)
    decreases |a|
  {
    if a == [] {
      assert a + b == b;
    } else {
      assert (a + b)[1..] == a[1..] + b;
      AdvanceTwice(addr, 1, |a| - 1);
      ByteCallsAppend(mode, Advance(addr, 1), a[1..], b);
    }
  }

  lemma ByteCallsSnoc(mode: Mode, addr: Addr, data: seq<Byte>, b: Byte)
    ensures ByteCalls(mode, addr, data + [b]) == ByteCalls(mode, addr, data) + OneByte(mode, Advance(addr, |data|), b)
  {
    ByteCallsAppend(mode, addr, data, [b]);
    assert ByteCalls(mode, Advance(addr, |data|), [b]) == OneByte(mode, Advance(addr, |data|), b) + [];
  }

  lemma FirstByte(mode: Mode, addr: Addr, data: seq<Byte>)
    requires data != []
    ensures ByteCalls(mode, addr, data) == OneByte(mode, addr, data[0]) + ByteCalls(mode, Advance(addr, 1), data[1..])
  {
  }

  /** In a plain upload, call i writes byte i at its own address, modulo 2^32, and nothing else happens. */
  lemma {:induction false} UploadWritesEachByte(addr: Addr, data: seq<Byte>, i: nat)
    requires i < |data|
    ensures |ByteCalls(Mode(true, false), addr, data)| == |data|
    ensures ByteCalls(Mode(true, false), addr, data)[i] == WriteByte((addr + i) % 0x1_0000_0000, data[i])
    decreases |data|
  {
    hide ByteCalls;
    FirstByte(Mode(true, false), addr, data);
    assert OneByte(Mode(true, false), addr, data[0]) == [WriteByte(addr, data[0])];
    if data[1..] == [] {
      NoBytes(Mode(true, false), Advance(addr, 1));
    } else {
      UploadWritesEachByte(Advance(addr, 1), data[1..], if i == 0 then 0 else i - 1);
    }
    if i > 0 {
      NextAddress(addr, i);
    }
  }

  lemma NextAddress(addr: Addr, i: nat)
    requires i > 0
    ensures (Advance(addr, 1) + (i - 1)) % 0x1_0000_0000 == (addr + i) % 0x1_0000_0000
  {
  }

  /** When a file is verified as it is uploaded, each byte is compared right after it is written. */
  lemma {:induction false} VerifiesEachByte(addr: Addr, data: seq<Byte>, i: nat)
    requires i < |data|
    ensures var calls, a := ByteCalls(Mode(true, true), addr, data), (addr + i) % 0x1_0000_0000;
            |calls| == 2 * |data| && calls[2 * i] == WriteByte(a, data[i]) && calls[2 * i + 1] == Verify(a, data[i])
    decreases |data|
  {
    hide ByteCalls;
    FirstByte(Mode(true, true), addr, data);
    assert OneByte(Mode(true, true), addr, data[0]) == [WriteByte(addr, data[0]), Verify(addr, data[0])];
    if data[1..] == [] {
      NoBytes(Mode(true, true), Advance(addr, 1));
    } else {
      VerifiesEachByte(Advance(addr, 1), data[1..], if i == 0 then 0 else i - 1);
    }
    if i > 0 {
      NextAddress(addr, i);
    }
  }
}
