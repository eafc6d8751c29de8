/** The whole way of a program image: out of one part, through an S-record file, into another part. The
    calls that the file readers make are carried out by the TAvrAtmel programmer. */
module Images {
  import opened HexText
  import opened Device
  import opened Chip
  import opened Pages
  import opened AvrAtmel
  import opened AtmelRuns
  import opened PagedRuns
  import SRecord
  import MotIntl

  /** TAvr::segment_names, as the bytes of an S0 record. */
  const FLASH: seq<Byte> := ['f' as int, 'l' as int, 'a' as int, 's' as int, 'h' as int]
  const EEPROM: seq<Byte> := ['e' as int, 'e' as int, 'p' as int, 'r' as int, 'o' as int, 'm' as int]

  function NameOf(segment: Segment): seq<Byte> {
    if segment == FlashSegment then FLASH else EEPROM
  }

  const UPLOAD := Mode(true, false)
  const VERIFY := Mode(false, true)

  /** A session: the programmer, its active segment, the addresses at which a verify pass reported an error,
      and whether Error_MemoryRange was thrown. */
  datatype Session = Session(sys: Sys, segment: Segment, mismatches: seq<Addr>, thrown: bool)

  /** SetSegment keeps the active segment if it does not know the name. */
  function Select(segment: Segment, name: seq<Byte>): Segment {
    if name == FLASH then FlashSegment else if name == EEPROM then EepromSegment else segment
  }

  function PerformOne(x: Session, call: Call): Session {
    match call
    case SetSegment(name) => x.(segment := Select(x.segment, name))
    case Flush => x.(sys := FlushPage(x.sys))
    case WriteByte(addr, byte) =>
      var (t, r) := Write(x.sys, x.segment, addr, byte, false);
      x.(sys := t, thrown := r == MemoryRange)
    case Verify(addr, byte) =>
      var (t, r) := Read(x.sys, x.segment, addr);
      x.(sys := t, thrown := r == MemoryRange,
         mismatches := if r.Value? && r.byte != byte then x.mismatches + [addr] else x.mismatches)
  }

  /** Calls in order, until one throws. */
  function Perform(x: Session, calls: seq<Call>): Session
    decreases |calls|
  {
    if x.thrown || calls == [] then x else Perform(PerformOne(x, calls[0]), calls[1..])
  }

  /** The calls carried out on the programmer object. */
  method Deliver(dev: TAvrAtmel, calls: seq<Call>) returns (mismatches: seq<Addr>, thrown: bool)
    modifies dev, dev.link
    ensures Session(dev.View(), dev.segment, mismatches, thrown)
         == Perform(Session(old(dev.View()), old(dev.segment), [], false), calls)
  {
    hide Read, Write, FlushPage;
    ghost var start := Session(dev.View(), dev.segment, [], false);
    mismatches, thrown := [], false;
    assert calls[0..] == calls;
    for n := 0 to |calls|
      invariant !thrown
      invariant Perform(Session(dev.View(), dev.segment, mismatches, thrown), calls[n..]) == Perform(start, calls)
    {
      assert calls[n..][0] == calls[n] && calls[n..][1..] == calls[n + 1..];
      match calls[n] {
      case SetSegment(name) =>
        dev.segment := Select(dev.segment, name);
      case Flush =>
        dev.FlushWriteBuffer();
      case WriteByte(addr, byte) =>
        var r := dev.WriteByte(addr, byte, false);
        thrown := r == MemoryRange;
      case Verify(addr, byte) =>
        var r := dev.ReadByte(addr);
        thrown := r == MemoryRange;
        if r.Value? && r.byte != byte {
          mismatches := mismatches + [addr];
        }
      }
      if thrown {
        return;
      }
    }
  }

  lemma {:induction false} PerformAppend(x: Session, a: seq<Call>, b: seq<Call>)
    ensures Perform(x, a + b) == Perform(Perform(x, a), b)
    decreases |a|
  {
    hide PerformOne;
    if a == [] {
      assert a + b == b;
    } else if !x.thrown {
      assert (a + b)[1..] == a[1..] + b;
      PerformAppend(PerformOne(x, a[0]), a[1..], b);
    }
  }

  function Contents(s: Sys, segment: Segment): seq<Byte> {
    if segment == FlashSegment then s.prog.chip.flash else s.prog.chip.eeprom
  }

  /** The two passes over a file, from whatever segment was active. */
  function Pass(s: Sys, active: Segment, mode: Mode, file: string): Session {
    Perform(Session(s, active, [], false), MotIntl.ReadFile(mode, file).calls)
  }

  function Dump(segment: Segment, image: seq<Byte>): string
    requires SRecord.Writable(image)
  {
    Concat(SRecord.Lines(NameOf(segment), image))
  }

  /** A pass over a printed file selects the segment that its header names, or keeps the active one if it names
      none; then it performs the byte calls, and flushes. */
  lemma PassOfFile(s: Sys, active: Segment, mode: Mode, name: seq<Byte>, image: seq<Byte>)
    requires SRecord.Writable(image) && forall i :: 0 <= i < |name| ==> name[i] != 0
    ensures var head := if |name| <= 16 then name else name[..16];
            var segment := if head == FLASH then FlashSegment else if head == EEPROM then EepromSegment else active;
            Pass(s, active, mode, Concat(SRecord.Lines(name, image)))
            == Perform(Perform(Session(s, segment, [], false), ByteCalls(mode, 0, image)), FlushCalls(mode))
  {
    hide MotIntl.ReadFile, ByteCalls, SRecord.Lines, Concat, Read, Write, FlushPage;
    MotIntl.FileRoundTrip(mode, name, image);
    var x, c, f := Session(s, active, [], false), ByteCalls(mode, 0, image), FlushCalls(mode);
    var select := [SetSegment(SRecord.HeaderName(name))];
    PerformAppend(x, select + c, f);
    PerformAppend(x, select, c);
    assert select[1..] == [];
    assert Perform(x, select) == Session(s, Select(active, SRecord.HeaderName(name)), [], false);
  }

  /** In particular a dump selects its own segment. */
  lemma PassOfDump(s: Sys, active: Segment, mode: Mode, segment: Segment, image: seq<Byte>)
    requires SRecord.Writable(image)
    ensures Pass(s, active, mode, Dump(segment, image))
         == Perform(Perform(Session(s, segment, [], false), ByteCalls(mode, 0, image)), FlushCalls(mode))
  {
    hide Pass, Perform, ByteCalls, SRecord.Lines, Concat;
    PassOfFile(s, active, mode, NameOf(segment), image);
  }

  // ---- Uploading ----

  function Bytes(a: nat, data: seq<Byte>): (bytes: seq<(nat, Byte)>)
    ensures |bytes| == |data| && forall i :: 0 <= i < |data| ==> bytes[i] == (a + i, data[i])
  {
    seq(|data|, i requires 0 <= i < |data| => (a + i, data[i]))
  }

  lemma SizesKept(s: Sys, segment: Segment, a: nat, b: Byte)
    ensures var t := Write(s, segment, a, b, false).0;
            && |Contents(t, FlashSegment)| == |Contents(s, FlashSegment)|
            && |Contents(t, EepromSegment)| == |Contents(s, EepromSegment)|
  {
  }

  function UploadTo(s: Sys, segment: Segment, bytes: seq<(nat, Byte)>): Sys
    decreases |bytes|
  {
    if bytes == [] then s else UploadTo(Write(s, segment, bytes[0].0, bytes[0].1, false).0, segment, bytes[1..])
  }

  lemma {:induction false} FlashUpload(s: Sys, bytes: seq<(nat, Byte)>)
    ensures UploadTo(s, FlashSegment, bytes) == Upload(s, bytes)
    decreases |bytes|
  {
    hide Write;
    if bytes != [] {
      FlashUpload(Write(s, FlashSegment, bytes[0].0, bytes[0].1, false).0, bytes[1..]);
    }
  }

  /** Byte calls within the segment are an upload; the first one beyond its end throws. */
  lemma {:induction false} PerformWrites(s: Sys, segment: Segment, a: nat, data: seq<Byte>)
    requires a + |data| < 0x1_0000_0000 && a <= |Contents(s, segment)|
    ensures var x := Perform(Session(s, segment, [], false), ByteCalls(UPLOAD, a, data));
            if a + |data| > |Contents(s, segment)| then x.thrown
            else x == Session(UploadTo(s, segment, Bytes(a, data)), segment, [], false)
    decreases |data|
  {
    hide *;
    if data == [] {
      NoWrites(s, segment, a);
    } else {
      FirstWrite(s, segment, a, data);
      if a < |Contents(s, segment)| {
        var t := Write(s, segment, a, data[0], false).0;
        SizesKept(s, segment, a, data[0]);
        PerformWrites(t, segment, a + 1, data[1..]);
      }
    }
  }

  lemma NoWrites(s: Sys, segment: Segment, a: Addr)
    ensures Perform(Session(s, segment, [], false), ByteCalls(UPLOAD, a, [])) == Session(s, segment, [], false)
    ensures UploadTo(s, segment, Bytes(a, [])) == s
  {
    NoUpload(s, segment, a);
    NoBytes(UPLOAD, a);
  }

  /** The first byte call: it throws beyond the end, and otherwise leaves the other calls to be performed. */
  lemma FirstWrite(s: Sys, segment: Segment, a: nat, data: seq<Byte>)
    requires a + |data| < 0x1_0000_0000 && data != []
    ensures var x := Perform(Session(s, segment, [], false), ByteCalls(UPLOAD, a, data));
            var t := Write(s, segment, a, data[0], false).0;
            if a >= |Contents(s, segment)| then x.thrown
            else && x == Perform(Session(t, segment, [], false), ByteCalls(UPLOAD, a + 1, data[1..]))
                 && UploadTo(s, segment, Bytes(a, data)) == UploadTo(t, segment, Bytes(a + 1, data[1..]))
  {
    hide UploadTo, Perform;
    var rest := ByteCalls(UPLOAD, a + 1, data[1..]);
    FirstWriteCall(a, data);
    PerformFirst(Session(s, segment, [], false), WriteByte(a, data[0]), rest);
    WriteInRange(s, segment, a, data[0]);
    if a < |Contents(s, segment)| {
      FirstUpload(s, segment, a, data);
    }
  }

  lemma FirstWriteCall(a: Addr, data: seq<Byte>)
    requires data != [] && a + 1 < 0x1_0000_0000
    ensures ByteCalls(UPLOAD, a, data) == [WriteByte(a, data[0])] + ByteCalls(UPLOAD, a + 1, data[1..])
  {
  }

  lemma PerformFirst(x: Session, call: Call, rest: seq<Call>)
    requires !x.thrown
    ensures Perform(x, [call] + rest) == Perform(PerformOne(x, call), rest)
    ensures PerformOne(x, call).thrown ==> Perform(x, [call] + rest).thrown
  {
    hide PerformOne;
    assert ([call] + rest)[1..] == rest;
  }

  lemma WriteInRange(s: Sys, segment: Segment, a: Addr, b: Byte)
    ensures PerformOne(Session(s, segment, [], false), WriteByte(a, b))
         == Session(Write(s, segment, a, b, false).0, segment, [], a >= |Contents(s, segment)|)
  {
    hide WriteFlash, WriteEepromByte;
  }

  lemma FirstUpload(s: Sys, segment: Segment, a: nat, data: seq<Byte>)
    requires data != []
    ensures UploadTo(s, segment, Bytes(a, data))
         == UploadTo(Write(s, segment, a, data[0], false).0, segment, Bytes(a + 1, data[1..]))
  {
    hide Write;
    assert Bytes(a, data)[1..] == Bytes(a + 1, data[1..]);
  }

  /** Before the first byte at or above reach that the host does not leave out, there is one below that it does
      not leave out either. */
  predicate Led(bytes: seq<(nat, Byte)>) {
    forall i :: 0 <= i < |bytes| && bytes[i].0 >= REACH && bytes[i].1 != 0xFF ==>
      exists j :: 0 <= j < i && bytes[j].1 != 0xFF
  }

  lemma LedRest(bytes: seq<(nat, Byte)>)
    requires bytes != [] && Led(bytes) && bytes[0].1 == 0xFF
    ensures Led(bytes[1..])
  {
    var rest := bytes[1..];
    forall i | 0 <= i < |rest| && rest[i].0 >= REACH && rest[i].1 != 0xFF
      ensures exists j :: 0 <= j < i && rest[j].1 != 0xFF
    {
      assert rest[i] == bytes[i + 1];
      var j :| 0 <= j < i + 1 && bytes[j].1 != 0xFF;
      assert rest[j - 1] == bytes[j];
    }
  }

  /** Without page mode, an upload leaves what is out of reach alone; and when the host tracks the programmer by
      the first byte out of reach that it writes, the bytes are programmed one by one where they select. */
  lemma {:induction false} PlainUpload(s: Sys, bytes: seq<(nat, Byte)>)
    requires Inv(s) && Plain(s) && Synced(s)
    requires forall i :: 0 <= i < |bytes| ==> bytes[i].0 < |s.prog.chip.flash|
    ensures var t := Upload(s, bytes);
            && Inv(t) && Plain(t) && Synced(t) && |t.prog.chip.flash| == |s.prog.chip.flash|
            && (forall a :: REACH <= a < |s.prog.chip.flash| ==> t.prog.chip.flash[a] == s.prog.chip.flash[a])
            && (Tracks(s) || Led(bytes) ==>
                  t.prog.chip.flash == Programmed(s.prog.chip.flash, Selections(bytes)))
    decreases |bytes|
  {
    hide WriteFlash, Inv, Synced, Tracks, Lands, Selected, Target, Programmed, Programs, Led, And;
    var f, sel := s.prog.chip.flash, Selections(bytes);
    if bytes == [] {
      NoneProgrammed(f, sel);
    } else {
      var (addr, b) := bytes[0];
      var t := WriteFlash(s, addr, b, false);
      WriteFlashReaches(s, addr, b, false);
      assert sel[1..] == Selections(bytes[1..]);
      FirstUploaded(s, bytes);
      PlainUpload(t, bytes[1..]);
      FirstProgrammed(f, sel);
      HighCells(f, Target(s, addr), b);
      if Tracks(s) || Led(bytes) {
        FirstLands(s, bytes);
        if b == 0xFF {
          OnesChangeNothing(f, Target(s, addr));
          OnesChangeNothing(f, Selected(addr));
          if !Tracks(s) {
            LedRest(bytes);
          }
        } else {
          assert Target(s, addr) == Selected(addr) by { LandsThere(s, addr); }
        }
      }
    }
  }

  lemma HighCells(f: seq<Byte>, a: nat, b: Byte)
    requires a < REACH
    ensures forall i :: REACH <= i < |f| ==> Programs(f, a, b)[i] == f[i]
  {
  }

  lemma LandsThere(s: Sys, addr: nat)
    requires Lands(s, addr)
    ensures Target(s, addr) == Selected(addr)
  {
  }

  lemma FirstLands(s: Sys, bytes: seq<(nat, Byte)>)
    requires bytes != [] && Synced(s) && (Tracks(s) || Led(bytes))
    ensures bytes[0].1 != 0xFF ==> Lands(s, bytes[0].0)
  {
    hide Selected, Target, Synced, Tracks;
    if Tracks(s) {
      TracksLands(s, bytes[0].0);
    } else if bytes[0].1 != 0xFF {
      SyncedLands(s, bytes[0].0);
    }
  }

  /** A flash to be programmed: erased, nothing cached that is no longer so, and on a part with page mode
      nothing waiting to be committed. */
  ghost predicate Ready(s: Sys) {
    && s.prog.chip.flash == Erased(|s.prog.chip.flash|)
    && Inv(s) && Synced(s) && (Plain(s) || (PageInv(s) && NothingWaits(s)))
    && (Plain(s) ==> !s.fetched)
  }

  /** An erased flash programmed from its start on. */
  lemma ProgrammedImage(n: nat, image: seq<Byte>)
    requires |image| <= n
    ensures Programmed(Erased(n), Bytes(0, image)) == image + Erased(n - |image|)
  {
    hide Programmed;
    var f, bytes := Programmed(Erased(n), Bytes(0, image)), Bytes(0, image);
    forall a | 0 <= a < n ensures f[a] == (image + Erased(n - |image|))[a] {
      ProgrammedBytes(Erased(n), bytes, a);
      if a < |image| {
        assert bytes[a] == (a, image[a]);
        AndOnes(image[a]);
      }
    }
  }

  /** Where only 0xFF goes beyond reach, it makes no difference that it selects something else. */
  lemma {:induction false} SelectionsOfOnes(flash: seq<Byte>, bytes: seq<(nat, Byte)>)
    requires forall i :: 0 <= i < |bytes| ==> bytes[i].0 < REACH || bytes[i].1 == 0xFF
    ensures Programmed(flash, Selections(bytes)) == Programmed(flash, bytes)
    decreases |bytes|
  {
    hide Programmed, Programs, Selected;
    if bytes == [] {
      assert Selections(bytes) == bytes;
    } else {
      var (addr, b) := bytes[0];
      var sel := Selections(bytes);
      FirstProgrammed(flash, bytes);
      FirstProgrammed(flash, sel);
      assert sel[1..] == Selections(bytes[1..]);
      if b == 0xFF {
        OnesChangeNothing(flash, addr);
        OnesChangeNothing(flash, Selected(addr));
      }
      SelectionsOfOnes(Programs(flash, addr, b), bytes[1..]);
    }
  }

  /** An image uploaded to an erased part of any size. */
  lemma ImageUploaded(s: Sys, image: seq<Byte>)
    requires Ready(s) && |image| <= |s.prog.chip.flash|
    ensures var t, n := FlushPage(Upload(s, Bytes(0, image))), |s.prog.chip.flash|;
            && Inv(t) && Synced(t) && |t.prog.chip.flash| == n
            && (forall a :: REACH <= a < n ==> t.prog.chip.flash[a] == 0xFF)
            && (Led(Bytes(0, image)) ==> t.prog.chip.flash == Programmed(Erased(n), Selections(Bytes(0, image))))
  {
    hide Upload, Programmed, PageInv, PagerOf, Paged, Eventual, Inv, Synced, Tracks, Led, Selected, FlushPage;
    var bytes := Bytes(0, image);
    if Plain(s) {
      PlainUpload(s, bytes);
      NeverFetched(s, bytes);
      NoFlush(Upload(s, bytes));
    } else {
      HasPager(s);
      PagerReady(s);
      AscendingUpload(s, 0, bytes);
      var u := Upload(s, bytes);
      HasPager(u);
      FlushIsRight(u);
      FlushKeepsCache(u, FlushPage(u));
      forall a | REACH <= a < |s.prog.chip.flash|
        ensures Programmed(s.prog.chip.flash, Selections(bytes))[a] == s.prog.chip.flash[a]
      {
        BelowReach(bytes);
        Untouched(s.prog.chip.flash, Selections(bytes), a);
      }
    }
  }

  lemma NoFlush(s: Sys)
    requires !s.fetched
    ensures FlushPage(s) == s
  {
  }

  lemma BelowReach(bytes: seq<(nat, Byte)>)
    ensures forall i :: 0 <= i < |bytes| ==> Selections(bytes)[i].0 < REACH
  {
    hide Selected;
  }

  lemma FlushKeepsCache(s: Sys, t: Sys)
    requires PageInv(s) && Valid(t.prog.chip) && |t.prog.chip.flash| == |s.prog.chip.flash|
    requires !s.cached || t.prog.chip.flash == s.prog.chip.flash
    requires t.cached == s.cached && t.bufAddr == s.bufAddr && t.bufByte == s.bufByte
    ensures Inv(t)
  {
  }

  lemma PagerReady(s: Sys)
    requires PageInv(s) && NothingWaits(s)
    ensures Paged(PagerOf(s)) && Eventual(PagerOf(s)) == s.prog.chip.flash && Ahead(s, 0)
  {
    hide Selected, PageOf, Eventual;
    NothingPending(PagerOf(s));
  }

  lemma {:induction false} NeverFetched(s: Sys, bytes: seq<(nat, Byte)>)
    requires s.pageSize == 0 && !s.fetched
    ensures !Upload(s, bytes).fetched
    decreases |bytes|
  {
    hide Load;
    if bytes != [] {
      NeverFetched(Write(s, FlashSegment, bytes[0].0, bytes[0].1, false).0, bytes[1..]);
    }
  }

  /** The image has nothing but 0xFF beyond reach. */
  predicate BlankBeyondReach(image: seq<Byte>) {
    forall a :: REACH <= a < |image| ==> image[a] == 0xFF
  }

  /** Then, and only then, an upload leaves the image in flash, and 0xFF behind it. */
  lemma ImageRightIff(s: Sys, image: seq<Byte>)
    requires Ready(s) && |image| <= |s.prog.chip.flash|
    ensures var t := FlushPage(Upload(s, Bytes(0, image)));
            && Inv(t) && Synced(t) && |t.prog.chip.flash| == |s.prog.chip.flash|
            && (t.prog.chip.flash == image + Erased(|s.prog.chip.flash| - |image|) <==> BlankBeyondReach(image))
  {
    hide Ready, Upload, Programmed, Inv, Synced, Selected, FlushPage;
    ImageUploaded(s, image);
    var bytes, n := Bytes(0, image), |s.prog.chip.flash|;
    if BlankBeyondReach(image) {
      SelectionsOfOnes(Erased(n), bytes);
      ProgrammedImage(n, image);
    } else {
      var a :| REACH <= a < |image| && image[a] != 0xFF;
      assert (image + Erased(n - |image|))[a] == image[a];
    }
  }

  /** Uploading a dump of flash to an erased part of any size, with or without page mode: the file fits exactly
      when nothing throws, and then flash holds the image, and 0xFF behind it, exactly when the image has
      nothing but 0xFF beyond reach. */
  lemma FlashRestored(s: Sys, active: Segment, image: seq<Byte>)
    requires Ready(s) && SRecord.Writable(image)
    ensures var x, n := Pass(s, active, UPLOAD, Dump(FlashSegment, image)), |s.prog.chip.flash|;
            && (x.thrown <==> |image| > n)
            && (!x.thrown ==>
                  && (x.sys.prog.chip.flash == image + Erased(n - |image|) <==> BlankBeyondReach(image))
                  && x.sys == FlushPage(Upload(s, Bytes(0, image)))
                  && x.segment == FlashSegment && Inv(x.sys) && Synced(x.sys) && |x.sys.prog.chip.flash| == n)
  {
    hide Ready, Inv, Synced, FlushPage, Upload, Pass, Dump, ByteCalls, BlankBeyondReach;
    PassOfDump(s, active, UPLOAD, FlashSegment, image);
    PerformWrites(s, FlashSegment, 0, image);
    if |image| <= |s.prog.chip.flash| {
      FlashUpload(s, Bytes(0, image));
      ImageRightIff(s, image);
    }
  }

  lemma EepromByteWritten(s: Sys, a: nat, b: Byte)
    requires Valid(s.prog.chip) && a < |s.prog.chip.eeprom|
    ensures var c, d := s.prog.chip, Write(s, EepromSegment, a, b, false).0.prog.chip;
            d == c.(eeprom := c.eeprom[a := b]) && Valid(d)
  {
  }

  lemma {:induction false} EepromUploaded(s: Sys, a: nat, data: seq<Byte>)
    requires Valid(s.prog.chip) && a + |data| <= |s.prog.chip.eeprom|
    ensures var c, d := s.prog.chip, UploadTo(s, EepromSegment, Bytes(a, data)).prog.chip;
            d == c.(eeprom := c.eeprom[..a] + data + c.eeprom[a + |data|..])
    decreases |data|
  {
    hide Write, UploadTo, Valid, Bytes;
    var c := s.prog.chip;
    if data == [] {
      assert c.eeprom[..a] + data + c.eeprom[a..] == c.eeprom;
      NoUpload(s, EepromSegment, a);
    } else {
      var t := Write(s, EepromSegment, a, data[0], false).0;
      EepromByteWritten(s, a, data[0]);
      EepromUploaded(t, a + 1, data[1..]);
      FirstUpload(s, EepromSegment, a, data);
      SpliceNext(c.eeprom, a, data);
    }
  }

  lemma NoUpload(s: Sys, segment: Segment, a: nat)
    ensures UploadTo(s, segment, Bytes(a, [])) == s
  {
  }

  lemma SpliceNext(mem: seq<Byte>, a: nat, data: seq<Byte>)
    requires data != [] && a + |data| <= |mem|
    ensures var next, end := mem[a := data[0]], a + |data|;
            next[..a + 1] + data[1..] + next[end..] == mem[..a] + data + mem[end..]
  {
    var next, end := mem[a := data[0]], a + |data|;
    assert next[..a + 1] == mem[..a] + [data[0]] && next[end..] == mem[end..];
    assert mem[..a] + [data[0]] + data[1..] == mem[..a] + data;
  }

  /** The same for EEPROM, which need not be erased. */
  lemma EepromRestored(s: Sys, active: Segment, image: seq<Byte>)
    requires Valid(s.prog.chip) && SRecord.Writable(image)
    ensures var c, x := s.prog.chip, Pass(s, active, UPLOAD, Dump(EepromSegment, image));
            && (x.thrown <==> |image| > |c.eeprom|)
            && (!x.thrown ==> x.sys.prog.chip.eeprom == image + c.eeprom[|image|..])
  {
    hide Valid, FlushPage, UploadTo, Pass, Dump, ByteCalls;
    PassOfDump(s, active, UPLOAD, EepromSegment, image);
    PerformWrites(s, EepromSegment, 0, image);
    if |image| <= |s.prog.chip.eeprom| {
      EepromUploaded(s, 0, image);
      var t := UploadTo(s, EepromSegment, Bytes(0, image));
      FlushKeepsEeprom(t);
      assert s.prog.chip.eeprom[..0] + image == image;
    }
  }

  lemma FlushKeepsEeprom(s: Sys)
    ensures FlushPage(s).prog.chip.eeprom == s.prog.chip.eeprom
  {
  }

  // ---- Verifying and dumping ----

  /** The addresses, from a on and in order, where the data differ from the memory. */
  function Differing(mem: seq<Byte>, a: nat, data: seq<Byte>): seq<Addr>
    requires a + |data| <= |mem| && a + |data| < 0x1_0000_0000
    decreases |data|
  {
    if data == [] then []
    else (if mem[a] != data[0] then [a] else []) + Differing(mem, a + 1, data[1..])
  }

  /** Address d is covered by the data from a on, and differs. */
  predicate DiffersAt(mem: seq<Byte>, a: nat, data: seq<Byte>, d: Addr)
    requires a + |data| <= |mem|
  {
    a <= d < a + |data| && mem[d] != data[d - a]
  }

  lemma {:induction false} DifferingAt(mem: seq<Byte>, a: nat, data: seq<Byte>, d: Addr)
    requires a + |data| <= |mem| && a + |data| < 0x1_0000_0000
    ensures d in Differing(mem, a, data) <==> DiffersAt(mem, a, data, d)
    decreases |data|
  {
    hide *;
    FirstDiffers(mem, a, data, d);
    if data != [] {
      DifferingAt(mem, a + 1, data[1..], d);
      FirstDiffering(mem, a, data, d);
    } else {
      NoneOfNothing(mem, a, d);
    }
  }

  lemma NoneOfNothing(mem: seq<Byte>, a: nat, d: Addr)
    requires a <= |mem| && a < 0x1_0000_0000
    ensures d !in Differing(mem, a, [])
  {
  }

  lemma FirstDiffers(mem: seq<Byte>, a: nat, data: seq<Byte>, d: Addr)
    requires a + |data| <= |mem|
    ensures DiffersAt(mem, a, data, d)
       <==> data != [] && ((d == a && mem[a] != data[0]) || DiffersAt(mem, a + 1, data[1..], d))
  {
  }

  lemma FirstDiffering(mem: seq<Byte>, a: nat, data: seq<Byte>, d: Addr)
    requires a + |data| <= |mem| && a + |data| < 0x1_0000_0000 && data != []
    ensures d in Differing(mem, a, data)
       <==> (d == a && mem[a] != data[0]) || d in Differing(mem, a + 1, data[1..])
  {
  }

  lemma NoneDiffer(mem: seq<Byte>, data: seq<Byte>)
    requires |data| <= |mem| && |data| < 0x1_0000_0000
    ensures Differing(mem, 0, data) == [] <==> data <= mem
  {
    hide Differing;
    forall d: Addr | d < |data| ensures d in Differing(mem, 0, data) <==> mem[d] != data[d] {
      DifferingAt(mem, 0, data, d);
    }
    if Differing(mem, 0, data) != [] {
      DifferingAt(mem, 0, data, Differing(mem, 0, data)[0]);
    }
  }

  /** A segment whose reads can be told: EEPROM always, flash while host and programmer agree. */
  predicate Readable(s: Sys, segment: Segment) {
    Inv(s) && (segment == FlashSegment ==> Synced(s))
  }

  /** Flash as it is read: each address shows the byte that it selects. */
  function Aliased(flash: seq<Byte>): (seen: seq<Byte>)
    ensures |seen| == |flash| && forall a :: 0 <= a < |flash| ==> seen[a] == flash[Selected(a)]
  {
    seq(|flash|, a requires 0 <= a < |flash| => flash[Selected(a)])
  }

  lemma AliasedWithinReach(flash: seq<Byte>)
    requires |flash| <= REACH
    ensures Aliased(flash) == flash
  {
    hide Selected;
    forall a | 0 <= a < |flash| ensures Aliased(flash)[a] == flash[a] {
    }
  }

  function Seen(s: Sys, segment: Segment): (seen: seq<Byte>)
    ensures |seen| == |Contents(s, segment)|
  {
    if segment == FlashSegment then Aliased(s.prog.chip.flash) else s.prog.chip.eeprom
  }

  /** Reads from address a on reach what they select: flash ends within reach, or the host tracks the programmer
      or will before it reads beyond. From address 0 on they always do. */
  predicate Prepared(s: Sys, segment: Segment, a: nat) {
    segment == FlashSegment ==>
      || |s.prog.chip.flash| <= REACH || Tracks(s) || a + 1 < REACH || (a < REACH && !Hit(s, a))
  }

  lemma ReadIsRight(s: Sys, segment: Segment, a: nat)
    requires Readable(s, segment) && Prepared(s, segment, a) && a < |Contents(s, segment)|
    ensures var (t, r) := Read(s, segment, a);
            && r == AvrAtmel.Value(Seen(s, segment)[a])
            && t.prog.chip == s.prog.chip && Readable(t, segment) && Prepared(t, segment, a + 1)
  {
    hide Selected, Target, Tracks, Synced, Lands, ReadFlash;
    if segment == FlashSegment {
      FlashReadPrepared(s, a);
      hide Inv, Hit;
      assert Aliased(s.prog.chip.flash)[a] == s.prog.chip.flash[Selected(a)];
    }
  }

  lemma FlashReadPrepared(s: Sys, a: nat)
    requires Inv(s) && Synced(s) && Prepared(s, FlashSegment, a) && a < |s.prog.chip.flash|
    ensures var (t, b) := ReadFlash(s, a);
            && b == s.prog.chip.flash[Selected(a)] && t.prog.chip == s.prog.chip
            && Inv(t) && Synced(t) && Prepared(t, FlashSegment, a + 1)
  {
    hide Selected, Target, Tracks, Synced, Lands, ReadFlash, Inv;
    if Hit(s, a) {
      CachedByte(s, a);
      InFlash(s.prog.chip, Selected(a));
    } else {
      if Tracks(s) {
        TracksLands(s, a);
      } else {
        SyncedLands(s, a);
      }
      ReadFlashIsRight(s, a);
    }
  }

  lemma {:induction false} PerformVerifies(x: Session, a: nat, data: seq<Byte>)
    requires !x.thrown && Readable(x.sys, x.segment) && Prepared(x.sys, x.segment, a)
    requires a + |data| <= |Contents(x.sys, x.segment)| && a + |data| < 0x1_0000_0000
    ensures var y, seen := Perform(x, ByteCalls(VERIFY, a, data)), Seen(x.sys, x.segment);
            && y.mismatches == x.mismatches + Differing(seen, a, data) && !y.thrown
            && y.sys.prog.chip == x.sys.prog.chip && y.segment == x.segment && Readable(y.sys, y.segment)
    decreases |data|
  {
    hide PerformOne, ByteCalls, Readable, Advance, Prepared, Aliased;
    if data == [] {
      NoBytes(VERIFY, a);
    } else {
      var seen, rest := Seen(x.sys, x.segment), ByteCalls(VERIFY, Advance(a, 1), data[1..]);
      FirstVerify(a, data);
      VerifyOne(x, a, data[0]);
      var y := PerformOne(x, Verify(a, data[0]));
      PerformVerifies(y, a + 1, data[1..]);
      assert y.mismatches + Differing(seen, a + 1, data[1..]) == x.mismatches + Differing(seen, a, data);
    }
  }

  lemma FirstVerify(a: Addr, data: seq<Byte>)
    requires data != [] && a + 1 < 0x1_0000_0000
    ensures Advance(a, 1) == a + 1
    ensures ByteCalls(VERIFY, a, data) == [Verify(a, data[0])] + ByteCalls(VERIFY, a + 1, data[1..])
  {
  }

  lemma VerifyOne(x: Session, a: Addr, b: Byte)
    requires !x.thrown && Readable(x.sys, x.segment) && Prepared(x.sys, x.segment, a)
    requires a < |Contents(x.sys, x.segment)|
    ensures var y, seen := PerformOne(x, Verify(a, b)), Seen(x.sys, x.segment);
            && !y.thrown && y.sys.prog.chip == x.sys.prog.chip && y.segment == x.segment
            && Readable(y.sys, y.segment) && Prepared(y.sys, y.segment, a + 1)
            && y.mismatches == x.mismatches + if seen[a] != b then [a] else []
  {
    hide Read, Readable, Prepared, Aliased;
    ReadIsRight(x.sys, x.segment, a);
  }

  /** A verify pass reports exactly the addresses, in order, at which what the segment shows differs from the
      file; so it reports none exactly when the image is how it starts. What EEPROM, and flash within reach,
      show is what they hold. */
  lemma VerifyReports(s: Sys, active: Segment, segment: Segment, image: seq<Byte>)
    requires Readable(s, segment) && |image| <= |Contents(s, segment)| && SRecord.Writable(image)
    ensures var x, seen := Pass(s, active, VERIFY, Dump(segment, image)), Seen(s, segment);
            && !x.thrown && x.mismatches == Differing(seen, 0, image)
            && (x.mismatches == [] <==> image <= seen)
            && (segment == EepromSegment || |s.prog.chip.flash| <= REACH ==> seen == Contents(s, segment))
            && x.sys.prog.chip == s.prog.chip && x.segment == segment && Readable(x.sys, segment)
  {
    hide Pass, Dump, ByteCalls, Differing, PerformOne, Readable, Aliased, Selected;
    PassOfDump(s, active, VERIFY, segment, image);
    PerformVerifies(Session(s, segment, [], false), 0, image);
    NoneDiffer(Seen(s, segment), image);
    if segment == FlashSegment && |s.prog.chip.flash| <= REACH {
      AliasedWithinReach(s.prog.chip.flash);
    }
  }

  /** The reads of a download, from address a to the end of the segment. */
  function ReadFrom(s: Sys, segment: Segment, a: nat): (Sys, seq<Byte>)
    decreases |Contents(s, segment)| - a
  {
    var (t, r) := Read(s, segment, a);
    if r.Value? && |Contents(t, segment)| == |Contents(s, segment)| then
      var (u, rest) := ReadFrom(t, segment, a + 1);
      (u, [r.byte] + rest)
    else (t, [])
  }

  lemma {:induction false} ReadFromIsRight(s: Sys, segment: Segment, a: nat)
    requires Readable(s, segment) && Prepared(s, segment, a) && a <= |Contents(s, segment)|
    ensures ReadFrom(s, segment, a).1 == Seen(s, segment)[a..]
    ensures ReadFrom(s, segment, a).0.prog.chip == s.prog.chip && Readable(ReadFrom(s, segment, a).0, segment)
    decreases |Contents(s, segment)| - a
  {
    hide *;
    var seen := Seen(s, segment);
    if a < |seen| {
      var t := Read(s, segment, a).0;
      ReadIsRight(s, segment, a);
      SameContents(s, t, segment);
      ReadFromStep(s, segment, a, t, seen[a]);
      ReadFromIsRight(t, segment, a + 1);
      assert seen[a..] == [seen[a]] + seen[a + 1..];
    } else {
      ReadFromEnd(s, segment, a);
    }
  }

  lemma SameContents(s: Sys, t: Sys, segment: Segment)
    requires t.prog.chip == s.prog.chip
    ensures Contents(t, segment) == Contents(s, segment) && Seen(t, segment) == Seen(s, segment)
  {
  }

  lemma ReadFromStep(s: Sys, segment: Segment, a: nat, t: Sys, b: Byte)
    requires Read(s, segment, a) == (t, AvrAtmel.Value(b)) && Contents(t, segment) == Contents(s, segment)
    requires a < |Contents(s, segment)|
    ensures var (u, rest) := ReadFrom(t, segment, a + 1);
            ReadFrom(s, segment, a) == (u, [b] + rest)
  {
    hide Read, Contents;
  }

  lemma ReadFromEnd(s: Sys, segment: Segment, a: nat)
    requires a >= |Contents(s, segment)|
    ensures ReadFrom(s, segment, a) == (s, [])
  {
  }

  /** Every two addresses that select the same byte have the same one in a dump, so uploading the dump keeps
      what is within reach, and leaves the rest erased. */
  lemma DumpUploaded(s: Sys, flash: seq<Byte>)
    requires Ready(s) && |flash| == |s.prog.chip.flash|
    ensures var t := FlushPage(Upload(s, Bytes(0, Aliased(flash))));
            && |t.prog.chip.flash| == |flash|
            && forall a :: 0 <= a < |flash| ==> t.prog.chip.flash[a] == if a < REACH then flash[a] else 0xFF
  {
    hide Ready, Upload, Programmed, Inv, Synced, Selected, FlushPage, And, Led;
    var bytes := Bytes(0, Aliased(flash));
    var sel := Selections(bytes);
    DumpLed(flash);
    ImageUploaded(s, Aliased(flash));
    DumpAgrees(flash);
    forall a | 0 <= a < |flash| && a < REACH ensures Programmed(Erased(|flash|), sel)[a] == flash[a] {
      assert bytes[a] == (a, flash[a]) && sel[a] == (a, flash[a]);
      AgreedCell(Erased(|flash|), sel, a, a);
      AndOnes(flash[a]);
    }
  }

  lemma DumpLed(flash: seq<Byte>)
    ensures Led(Bytes(0, Aliased(flash)))
  {
    hide Selected;
    var bytes := Bytes(0, Aliased(flash));
    forall i | 0 <= i < |bytes| && bytes[i].0 >= REACH && bytes[i].1 != 0xFF
      ensures exists j :: 0 <= j < i && bytes[j].1 != 0xFF
    {
      var j := Selected(i);
      assert Selected(j) == j && bytes[j].1 == flash[j] == bytes[i].1;
    }
  }

  lemma DumpAgrees(flash: seq<Byte>)
    ensures Agreeing(Selections(Bytes(0, Aliased(flash))))
  {
    hide Selected;
    var bytes := Bytes(0, Aliased(flash));
    forall i | 0 <= i < |bytes| ensures Selections(bytes)[i] == (Selected(i), flash[Selected(i)]) {
      assert bytes[i] == (i, flash[Selected(i)]);
    }
  }

  /** One part copied to another: a download of flash reads what flash shows; uploaded to an erased part of the
      same size, with or without page mode, it gives the same flash within reach, and leaves the rest erased.
      So it gives the same flash exactly when there is nothing but 0xFF beyond reach; but the verify pass after
      it reports no error in any case. */
  lemma FlashCloned(a: Sys, b: Sys, active: Segment)
    requires Inv(a) && Synced(a) && Ready(b) && |a.prog.chip.flash| == |b.prog.chip.flash|
    requires SRecord.Writable(a.prog.chip.flash)
    ensures var f, image := a.prog.chip.flash, ReadFrom(a, FlashSegment, 0).1;
            && image == Aliased(f) && SRecord.Writable(image)
            && var x := Pass(b, active, UPLOAD, Dump(FlashSegment, image));
               var y := Pass(x.sys, x.segment, VERIFY, Dump(FlashSegment, image));
               && !x.thrown && |x.sys.prog.chip.flash| == |f|
               && (forall i :: 0 <= i < |f| ==> x.sys.prog.chip.flash[i] == if i < REACH then f[i] else 0xFF)
               && (x.sys.prog.chip.flash == f <==> BlankBeyondReach(f))
               && !y.thrown && y.mismatches == [] && y.sys.prog.chip.flash == x.sys.prog.chip.flash
  {
    hide Pass, Dump, ReadFrom, Inv, Synced, Ready, Selected, FlushPage, Upload, BlankBeyondReach;
    ReadFromIsRight(a, FlashSegment, 0);
    var f, image := a.prog.chip.flash, ReadFrom(a, FlashSegment, 0).1;
    assert image == Aliased(f);
    FlashRestored(b, active, image);
    DumpUploaded(b, f);
    var x := Pass(b, active, UPLOAD, Dump(FlashSegment, image));
    VerifyReports(x.sys, x.segment, FlashSegment, image);
    LooksTheSame(f, x.sys.prog.chip.flash);
  }

  lemma LooksTheSame(f: seq<Byte>, g: seq<Byte>)
    requires |g| == |f| && forall i :: 0 <= i < |f| ==> g[i] == if i < REACH then f[i] else 0xFF
    ensures Aliased(g) == Aliased(f) && (g == f <==> BlankBeyondReach(f))
  {
    hide Selected;
  }
}
