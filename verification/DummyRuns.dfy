/** Page mode of AvrDummy and AvrStargate over whole uploads: what ends up in flash, and what the polling
    byte stands for. The host sends every address, so an address stands for the byte that it selects. */
module DummyRuns {
  import opened HexText
  import opened Chip
  import opened Pages
  import opened AvrDummy

  function PagerOf(d: Dummy): Pager {
    Pager(d.chip, Selected(d.pageAddr), d.fetched)
  }

  predicate InOpenPage(d: Dummy, addr: nat)
    requires d.pageSize > 0
  {
    d.fetched && d.pageAddr == PageOf(addr, d.pageSize)
  }

  predicate PageInv(d: Dummy) {
    && Paged(PagerOf(d)) && d.pageSize == |d.chip.buffer| && REACH % d.pageSize == 0
    && (d.fetched ==> d.pageAddr < |d.chip.flash| && PageOf(d.pageAddr, d.pageSize) == d.pageAddr)
  }

  /** The polling byte, when there is one, waits in the buffer of the open page. */
  predicate PollInv(d: Dummy)
    requires d.pageSize > 0
  {
    d.pollByte != 0xFF ==>
      && InOpenPage(d, d.pollAddr) && Paged(PagerOf(d)) && d.pollAddr < |d.chip.flash|
      && Pending(PagerOf(d), Selected(d.pollAddr)) == d.pollByte
  }

  lemma HasPager(d: Dummy)
    requires PageInv(d)
    ensures Paged(PagerOf(d)) && d.pageSize == |d.chip.buffer| > 0 && PagerOf(d).chip == d.chip
    ensures |Eventual(PagerOf(d))| == |d.chip.flash|
  {
  }

  lemma CommitKeeps(d: Dummy)
    ensures var e := CommitPage(d);
            && e == d.(chip := e.chip, fetched := false, pollByte := 0xFF)
            && |e.chip.flash| == |d.chip.flash| && |e.chip.buffer| == |d.chip.buffer| && e.chip.eeprom == d.chip.eeprom
  {
  }

  lemma CommitReaches(d: Dummy)
    requires PageInv(d) && d.fetched
    ensures CommitPage(d).chip == WritePage(d.chip, Selected(d.pageAddr))
    ensures Selected(d.pageAddr) == PageOf(Selected(d.pageAddr), d.pageSize)
  {
    hide WritePage, Erased, PageOf, Pending, Selected;
    PageFacts(d.pageAddr, d.pageSize);
    SelectedPage(d.pageAddr, d.pageSize);
  }

  lemma CommitIsRight(d: Dummy)
    requires PageInv(d) && d.fetched
    ensures var e := CommitPage(d);
            && PageInv(e) && PollInv(e) && e.chip.flash == Eventual(PagerOf(d)) && e.chip.buffer == Erased(d.pageSize)
            && Eventual(PagerOf(e)) == Eventual(PagerOf(d)) && forall a: nat :: Pending(PagerOf(e), a) == 0xFF
  {
    hide WritePage, Eventual, CommitPage, Selected, PageOf, Pending;
    CommitReaches(d);
    CommitKeeps(d);
    Commit(PagerOf(d), PagerOf(CommitPage(d)));
  }

  lemma OpenStep(d: Dummy, page: nat)
    requires PageInv(d) && !d.fetched && page < |d.chip.flash| && PageOf(page, d.pageSize) == page
    ensures var e := d.(pageAddr := page, fetched := true);
            && PageInv(e) && Eventual(PagerOf(e)) == Eventual(PagerOf(d))
            && forall a: nat :: Pending(PagerOf(e), a) == 0xFF
  {
    hide Eventual, Selected, PageOf, Pending;
    SelectedPage(page, d.pageSize);
    Open(PagerOf(d), Selected(page));
  }

  lemma PageInFlash(d: Dummy, addr: nat)
    requires PageInv(d) && addr < |d.chip.flash|
    ensures PageOf(addr, d.pageSize) < |d.chip.flash|
    ensures PageOf(PageOf(addr, d.pageSize), d.pageSize) == PageOf(addr, d.pageSize)
    ensures Selected(PageOf(addr, d.pageSize)) == PageOf(Selected(addr), d.pageSize)
    ensures Selected(addr) % d.pageSize == addr % d.pageSize
  {
    hide Selected;
    PageFacts(addr, d.pageSize);
    SelectedPage(addr, d.pageSize);
  }

  lemma OpenPageIsRight(d: Dummy, addr: nat)
    requires PageInv(d) && addr < |d.chip.flash|
    ensures var e := OpenPage(d, addr, false);
            && PageInv(e) && InOpenPage(e, addr) && e.pageSize == d.pageSize && |e.chip.flash| == |d.chip.flash|
            && Eventual(PagerOf(e)) == Eventual(PagerOf(d))
            && (if InOpenPage(d, addr) then e == d else
                  && e.pollByte == (if d.fetched then 0xFF else d.pollByte)
                  && forall a: nat :: Pending(PagerOf(e), a) == 0xFF)
  {
    hide Eventual, CommitPage, Pending, Selected, PageOf, PageInv, PagerOf, Paged;
    PageInFlash(d, addr);
    HasPager(d);
    var page := PageOf(addr, d.pageSize);
    if d.fetched && d.pageAddr != page {
      CommitIsRight(d);
      CommitKeeps(d);
      OpenStep(CommitPage(d), page);
    } else if !d.fetched {
      OpenStep(d, page);
    }
  }

  lemma LoadFrame(d: Dummy, addr: nat, b: Byte)
    ensures var e := LoadByte(d, addr, b);
            && e == d.(chip := Load(d.chip, Selected(addr), b), pollAddr := e.pollAddr, pollByte := e.pollByte)
            && (if b != 0xFF then (e.pollAddr, e.pollByte) == (addr, b)
                else (e.pollAddr, e.pollByte) == (d.pollAddr, d.pollByte))
  {
    hide Load, Selected;
  }

  lemma LoadIsRight(d: Dummy, addr: nat, b: Byte)
    requires PageInv(d) && InOpenPage(d, addr) && addr < |d.chip.flash|
    ensures var e, a := LoadByte(d, addr, b), Selected(addr);
            && PageInv(e) && InOpenPage(e, addr) && e.pageSize == d.pageSize && |e.chip.flash| == |d.chip.flash|
            && (Pending(PagerOf(d), a) == 0xFF ==> Eventual(PagerOf(e)) == Programs(Eventual(PagerOf(d)), a, b))
            && forall i: nat :: Pending(PagerOf(e), i) == if i == a then b else Pending(PagerOf(d), i)
  {
    hide LoadByte, Load, Eventual, Pending, Selected, PageOf, And;
    PageInFlash(d, addr);
    LoadFrame(d, addr, b);
    HasPager(d);
    if Pending(PagerOf(d), Selected(addr)) == 0xFF {
      FillCell(PagerOf(d), Selected(addr), b);
    } else {
      ReplaceCell(PagerOf(d), Selected(addr), b);
    }
    assert PagerOf(LoadByte(d, addr, b)) == PagerOf(d).(chip := Load(d.chip, Selected(addr), b));
  }

  /** One uploaded byte, at an address for which nothing is pending. */
  lemma UploadByteIsRight(d: Dummy, addr: nat, b: Byte)
    requires PageInv(d) && PollInv(d) && addr < |d.chip.flash| && Pending(PagerOf(d), Selected(addr)) == 0xFF
    ensures var e, a := WritePaged(d, addr, b, false), Selected(addr);
            && PageInv(e) && PollInv(e) && |e.chip.flash| == |d.chip.flash|
            && Eventual(PagerOf(e)) == Programs(Eventual(PagerOf(d)), a, b)
            && forall i: nat :: i != a && Pending(PagerOf(d), i) == 0xFF ==> Pending(PagerOf(e), i) == 0xFF
  {
    hide Eventual, OpenPage, Pending, LoadByte, WritePaged, PageInv, PagerOf, Paged, Selected, And, Programs, PollInv;
    HasPager(d);
    OpenPageIsRight(d, addr);
    var o := OpenPage(d, addr, false);
    LoadIsRight(o, addr, b);
    Paging(d, addr, b, false);
    PollByteKept(d, addr, b, false);
    HasPager(WritePaged(d, addr, b, false));
    PollWaits(d);
  }

  lemma Paging(d: Dummy, addr: nat, b: Byte, flush: bool)
    requires d.pageSize > 0
    ensures WritePaged(d, addr, b, flush) == LoadByte(OpenPage(d, addr, flush), addr, b)
  {
    hide LoadByte, OpenPage;
  }

  lemma PollWaits(d: Dummy)
    requires PageInv(d) && PollInv(d)
    ensures d.pollByte != 0xFF ==> Pending(PagerOf(d), Selected(d.pollAddr)) != 0xFF
  {
  }

  /** The polling byte keeps its meaning, except by a write of 0xFF to the address it was written to, and by any
      write but of 0xFF that asks for a flush: that one's byte waits with no page open. */
  lemma PollByteKept(d: Dummy, addr: nat, b: Byte, flush: bool)
    requires PageInv(d) && PollInv(d) && addr < |d.chip.flash|
    ensures var e := WritePaged(d, addr, b, flush);
            && e.pageSize == d.pageSize && (PageInv(e) <==> !flush || b == 0xFF)
            && (PollInv(e) <==> if flush then b == 0xFF
                                else !(b == 0xFF && d.pollByte != 0xFF && addr == d.pollAddr))
  {
    hide Eventual, OpenPage, Pending, LoadByte, WritePaged, PageInv, PagerOf, Paged, Selected, And, PageOf, PollInv;
    HasPager(d);
    OpenPageIsRight(d, addr);
    var o := OpenPage(d, addr, false);
    Paging(d, addr, b, flush);
    if flush {
      FlushingWriteIsLost(d, addr, b);
      FlushedPoll(d, WritePaged(d, addr, b, true), addr, b);
    } else {
      LoadIsRight(o, addr, b);
      LoadFrame(o, addr, b);
      KeptByLoad(d, o, LoadByte(o, addr, b), addr, b);
    }
  }

  lemma KeptByLoad(d: Dummy, o: Dummy, e: Dummy, addr: nat, b: Byte)
    requires PageInv(d) && PollInv(d) && addr < |d.chip.flash| && PageInv(o) && PageInv(e)
    requires o.pageSize == e.pageSize == d.pageSize && |e.chip.flash| == |d.chip.flash|
    requires if InOpenPage(d, addr) then o == d else o.pollByte == (if d.fetched then 0xFF else d.pollByte)
    requires InOpenPage(e, addr) && (InOpenPage(d, addr) ==> e.pageAddr == d.pageAddr)
    requires if b != 0xFF then (e.pollAddr, e.pollByte) == (addr, b)
             else (e.pollAddr, e.pollByte) == (o.pollAddr, o.pollByte)
    requires forall i: nat :: Pending(PagerOf(e), i) == if i == Selected(addr) then b else Pending(PagerOf(o), i)
    ensures PollInv(e) <==> !(b == 0xFF && d.pollByte != 0xFF && addr == d.pollAddr)
  {
    hide Pending, PageInv, PagerOf, Paged, Selected, PageOf;
    HasPager(d);
    HasPager(e);
    if b == 0xFF && d.pollByte != 0xFF && addr != d.pollAddr && InOpenPage(d, addr)
       && Selected(addr) == Selected(d.pollAddr) {
      SizeDivides(d);
      SameOffset(addr, d.pollAddr, d.pageSize);
    }
  }

  lemma SizeDivides(d: Dummy)
    requires PageInv(d)
    ensures d.pageSize > 0 && REACH % d.pageSize == 0
  {
  }

  /** After a write that asks for a flush there is no open page. */
  lemma FlushedPoll(d: Dummy, e: Dummy, addr: nat, b: Byte)
    requires PageInv(d) && e.pageSize == d.pageSize > 0 && !e.fetched
    requires e.pollByte == b && |e.chip.flash| == |d.chip.flash| && e.chip.eeprom == d.chip.eeprom
    requires e.chip.buffer == Erased(d.pageSize)[addr % d.pageSize := b]
    ensures (PageInv(e) <==> b == 0xFF) && (PollInv(e) <==> b == 0xFF)
  {
    hide Selected, PageOf, Pending;
    var k := addr % d.pageSize;
    if b == 0xFF {
      assert e.chip.buffer == Erased(d.pageSize);
    } else {
      assert e.chip.buffer[k] == b && Erased(d.pageSize)[k] == 0xFF;
    }
  }

  // ---- Whole uploads ----

  function Upload(d: Dummy, bytes: seq<(nat, Byte)>): Dummy
    decreases |bytes|
  {
    if bytes == [] then d else Upload(Write(d, bytes[0].0, bytes[0].1, false).0, bytes[1..])
  }

  predicate Awaited(d: Dummy, bytes: seq<(nat, Byte)>)
    requires PageInv(d)
  {
    forall i :: 0 <= i < |bytes| ==>
      bytes[i].0 < |d.chip.flash| && Pending(PagerOf(d), Selected(bytes[i].0)) == 0xFF
  }

  /** An upload of bytes that select distinct ones, to flash of any size: what flash will be is what it would have
      been, with each byte programmed where its address selects. */
  lemma {:induction false} UploadIsRight(d: Dummy, bytes: seq<(nat, Byte)>)
    requires PageInv(d) && PollInv(d) && Awaited(d, bytes) && Distinct(Selections(bytes))
    ensures var e := Upload(d, bytes);
            PageInv(e) && PollInv(e) && Eventual(PagerOf(e)) == Programmed(Eventual(PagerOf(d)), Selections(bytes))
    decreases |bytes|
  {
    hide WritePaged, Eventual, Pending, PageInv, PollInv, PagerOf, Paged, Selected, And, Programs, Programmed, Distinct;
    HasPager(d);
    if bytes == [] {
      NoneProgrammed(Eventual(PagerOf(d)), Selections(bytes));
    } else {
      var (addr, b) := bytes[0];
      var sel := Selections(bytes);
      UploadByteIsRight(d, addr, b);
      var e := WritePaged(d, addr, b, false);
      HasPager(e);
      DistinctRest(sel);
      assert sel[1..] == Selections(bytes[1..]);
      AwaitedRest(d, e, bytes);
      UploadIsRight(e, bytes[1..]);
      FirstProgrammed(Eventual(PagerOf(d)), sel);
      FirstUploaded(d, bytes);
    }
  }

  lemma FirstUploaded(d: Dummy, bytes: seq<(nat, Byte)>)
    requires d.pageSize > 0 && bytes != [] && bytes[0].0 < |d.chip.flash|
    ensures Upload(d, bytes) == Upload(WritePaged(d, bytes[0].0, bytes[0].1, false), bytes[1..])
  {
    hide WritePaged;
  }

  lemma AwaitedRest(d: Dummy, e: Dummy, bytes: seq<(nat, Byte)>)
    requires PageInv(d) && PageInv(e) && bytes != [] && Awaited(d, bytes) && |e.chip.flash| == |d.chip.flash|
    requires forall i: nat :: i != Selected(bytes[0].0) && Pending(PagerOf(d), i) == 0xFF
                              ==> Pending(PagerOf(e), i) == 0xFF
    requires forall i :: 0 <= i < |bytes[1..]| ==> Selections(bytes)[1..][i].0 != Selections(bytes)[0].0
    ensures Awaited(e, bytes[1..])
  {
    hide PageInv, PagerOf, Paged, Pending, Selected;
    HasPager(e);
    forall i | 0 <= i < |bytes[1..]|
      ensures bytes[1..][i].0 < |e.chip.flash| && Pending(PagerOf(e), Selected(bytes[1..][i].0)) == 0xFF
    {
      assert bytes[1..][i] == bytes[i + 1] && Selections(bytes)[1..][i] == Selections(bytes)[i + 1];
    }
  }

  lemma Idle(d: Dummy)
    requires PageInv(d) && !d.fetched
    ensures (forall a: nat :: Pending(PagerOf(d), a) == 0xFF) && Eventual(PagerOf(d)) == d.chip.flash
  {
    hide Selected;
    NothingPending(PagerOf(d));
  }

  lemma FlushIsRight(d: Dummy)
    requires PageInv(d)
    ensures FlushPage(d).chip.flash == Eventual(PagerOf(d)) && |FlushPage(d).chip.flash| == |d.chip.flash|
  {
    hide Eventual, CommitPage, PageInv, PagerOf, Paged;
    HasPager(d);
    if d.fetched {
      CommitIsRight(d);
    } else {
      Idle(d);
    }
  }

  /** An upload to erased flash can start. */
  predicate Blank(d: Dummy, bytes: seq<(nat, Byte)>) {
    && PageInv(d) && PollInv(d) && !d.fetched && d.chip.flash == Erased(|d.chip.flash|)
    && forall i :: 0 <= i < |bytes| ==> bytes[i].0 < |d.chip.flash|
  }

  lemma BlankAwaits(d: Dummy, bytes: seq<(nat, Byte)>)
    requires Blank(d, bytes)
    ensures PageInv(d) && PollInv(d) && Awaited(d, bytes) && Eventual(PagerOf(d)) == Erased(|d.chip.flash|)
  {
    hide Selected, Pending, Eventual, PollInv, PagerOf, Paged;
    HasPager(d);
    Idle(d);
  }

  /** Page-mode upload: from erased flash of any size, bytes at distinct addresses within reach in any order,
      revisiting pages at will, and then a flush leave each byte at its address and 0xFF elsewhere. */
  lemma PagedUpload(d: Dummy, bytes: seq<(nat, Byte)>)
    requires Blank(d, bytes) && Distinct(bytes) && BytesWithin(bytes)
    ensures var flash := FlushPage(Upload(d, bytes)).chip.flash;
            && |flash| == |d.chip.flash|
            && (forall i :: 0 <= i < |bytes| ==> flash[bytes[i].0] == bytes[i].1)
            && forall a :: 0 <= a < |flash| && (forall i :: 0 <= i < |bytes| ==> bytes[i].0 != a) ==> flash[a] == 0xFF
  {
    hide Upload, Programmed, Eventual, FlushPage, PagerOf, Paged, Pending, PageInv, PollInv, Selected, Awaited, And;
    BlankAwaits(d, bytes);
    WithinSelected(bytes);
    UploadIsRight(d, bytes);
    HasPager(d);
    HasPager(Upload(d, bytes));
    FlushIsRight(Upload(d, bytes));
    var flash := FlushPage(Upload(d, bytes)).chip.flash;
    forall a | 0 <= a < |flash|
      ensures forall i :: 0 <= i < |bytes| && bytes[i].0 == a ==> flash[a] == bytes[i].1
      ensures (forall i :: 0 <= i < |bytes| ==> bytes[i].0 != a) ==> flash[a] == 0xFF
    {
      ProgrammedBytes(d.chip.flash, bytes, a);
      forall i | 0 <= i < |bytes| && bytes[i].0 == a ensures flash[a] == bytes[i].1 {
        AndOnes(bytes[i].1);
      }
    }
  }

  lemma {:induction false} PollComesFromUpload(d: Dummy, bytes: seq<(nat, Byte)>)
    requires d.pageSize > 0
    ensures var e := Upload(d, bytes);
            e.pollByte != 0xFF ==>
              || (e.pollAddr, e.pollByte) == (d.pollAddr, d.pollByte)
              || exists i :: 0 <= i < |bytes| && bytes[i] == (e.pollAddr, e.pollByte)
    decreases |bytes|
  {
    hide Load, WritePage, Selected;
    if bytes != [] {
      var f, e := Write(d, bytes[0].0, bytes[0].1, false).0, Upload(d, bytes);
      PollComesFromUpload(f, bytes[1..]);
      if i :| 0 <= i < |bytes[1..]| && bytes[1..][i] == (e.pollAddr, e.pollByte) {
        assert bytes[i + 1] == (e.pollAddr, e.pollByte);
      }
    }
  }

  /** During such an upload, at or above reach as well, whenever a page is committed with a polling byte, the part
      reads it back: the polling loop ends by seeing the page programmed, not by running out of time. */
  lemma CommitIsSeen(d: Dummy, bytes: seq<(nat, Byte)>)
    requires Blank(d, bytes) && Distinct(Selections(bytes))
    ensures var e := Upload(d, bytes);
            e.pollByte != 0xFF ==>
              && (exists i :: 0 <= i < |bytes| && bytes[i] == (e.pollAddr, e.pollByte))
              && FlashAt(CommitPage(e).chip, Selected(e.pollAddr)) == e.pollByte
  {
    hide Programmed, Eventual, CommitPage, Pending, Upload, PagerOf, Paged, PageInv, PollInv, Selected, And, Awaited;
    BlankAwaits(d, bytes);
    UploadIsRight(d, bytes);
    var e := Upload(d, bytes);
    HasPager(d);
    HasPager(e);
    PollComesFromUpload(d, bytes);
    if e.pollByte != 0xFF {
      NoPollYet(d);
      PollInFlash(e);
      CommitIsRight(e);
      var i :| 0 <= i < |bytes| && bytes[i] == (e.pollAddr, e.pollByte);
      var sel, a := Selections(bytes), Selected(e.pollAddr);
      assert sel[i] == (a, e.pollByte);
      ProgrammedBytes(Erased(|d.chip.flash|), sel, a);
      AndOnes(e.pollByte);
      ErasedCell(d, a);
    }
  }

  lemma ErasedCell(d: Dummy, a: nat)
    requires a < |d.chip.flash|
    ensures Erased(|d.chip.flash|)[a] == 0xFF
  {
  }

  lemma NoPollYet(d: Dummy)
    requires PageInv(d) && PollInv(d) && !d.fetched
    ensures d.pollByte == 0xFF
  {
  }

  lemma PollInFlash(d: Dummy)
    requires PageInv(d) && PollInv(d) && d.pollByte != 0xFF
    ensures d.fetched && Selected(d.pollAddr) < |d.chip.flash|
  {
  }

  // ---- Writes that ask for a flush ----

  /** A write with flush_buffer commits its page before it loads its byte, and leaves no page open: what
      waited is in flash, a flush after it does nothing, and its own byte stays in the buffer. */
  lemma FlushingWriteIsLost(d: Dummy, addr: nat, b: Byte)
    requires PageInv(d) && addr < |d.chip.flash|
    ensures var e := WritePaged(d, addr, b, true);
            && e.chip == d.chip.(flash := Eventual(PagerOf(d)), buffer := Erased(d.pageSize)[addr % d.pageSize := b])
            && !e.fetched && FlushPage(e) == e && e.pageSize == d.pageSize && e.pollByte == b
  {
    hide WritePage, Load, LoadByte, OpenPage, CommitPage, Eventual, Pending, PageInv, PagerOf, Paged, Selected, PageOf;
    hide WritePaged;
    HasPager(d);
    var o := OpenPage(d, addr, false);
    OpenPageIsRight(d, addr);
    HasPager(o);
    CommitIsRight(o);
    CommitKeeps(o);
    OpenKeepsEeprom(d, addr);
    var c := CommitPage(o);
    FlushingOpen(d, addr);
    LoadsBuffer(c, addr, b);
    LoadFrame(c, addr, b);
    Paging(d, addr, b, true);
  }

  lemma FlushingOpen(d: Dummy, addr: nat)
    requires d.pageSize > 0
    ensures OpenPage(d, addr, true) == CommitPage(OpenPage(d, addr, false))
  {
    hide CommitPage;
  }

  lemma OpenKeepsEeprom(d: Dummy, addr: nat)
    requires d.pageSize > 0
    ensures OpenPage(d, addr, false).chip.eeprom == d.chip.eeprom
  {
    hide WritePage, Selected, PageOf;
  }

  lemma LoadsBuffer(d: Dummy, addr: nat, b: Byte)
    requires PageInv(d) && addr < |d.chip.flash|
    ensures LoadByte(d, addr, b).chip == d.chip.(buffer := d.chip.buffer[addr % d.pageSize := b])
  {
    hide Selected, And, PageOf, Pending;
    PageInFlash(d, addr);
  }

  /** And the byte left in the buffer goes astray: committed with whatever page is opened next, at its own
      offset there. */
  lemma StrayByte(d: Dummy, addr: nat, b: Byte, addr2: nat, b2: Byte)
    requires PageInv(d) && addr < |d.chip.flash| && addr2 < |d.chip.flash|
    requires addr % d.pageSize != addr2 % d.pageSize
    ensures var stray := PageOf(Selected(addr2), d.pageSize) + addr % d.pageSize;
            var before := Eventual(PagerOf(d));
            var flash := FlushPage(WritePaged(WritePaged(d, addr, b, true), addr2, b2, false)).chip.flash;
            stray < |flash| == |before| && flash[stray] == And(before[stray], b)
  {
    hide WritePaged, FlushPage, Eventual, PagerOf, Paged, PageInv, Selected, PageOf, And;
    HasPager(d);
    FlushingWriteIsLost(d, addr, b);
    StraySecond(d, WritePaged(d, addr, b, true), addr, b, addr2, b2);
  }

  lemma StraySecond(d: Dummy, e: Dummy, addr: nat, b: Byte, addr2: nat, b2: Byte)
    requires PageInv(d) && addr < |d.chip.flash| && addr2 < |d.chip.flash| == |e.chip.flash|
    requires addr % d.pageSize != addr2 % d.pageSize
    requires e.pageSize == d.pageSize && !e.fetched
    requires e.chip.buffer == Erased(d.pageSize)[addr % d.pageSize := b]
    ensures var stray := PageOf(Selected(addr2), d.pageSize) + addr % d.pageSize;
            var flash := FlushPage(WritePaged(e, addr2, b2, false)).chip.flash;
            stray < |flash| == |e.chip.flash| && flash[stray] == And(e.chip.flash[stray], b)
  {
    hide WritePage, Selected, PageOf, Load, And, Pending, CommitPage, LoadByte;
    var size, a2 := d.pageSize, Selected(addr2);
    var page := PageOf(a2, size);
    var stray := page + addr % size;
    SizeDivides(d);
    FlashFits(d);
    PageFits(a2, |d.chip.flash|, size);
    OffsetInPage(a2, addr % size, size);
    PageFacts(a2, size);
    var f := WritePaged(e, addr2, b2, false);
    OpensAndLoads(d, e, addr2, b2);
    assert f.chip.buffer[addr % size] == b;
    CommittedCell(f.chip, page, stray);
  }

  lemma FlashFits(d: Dummy)
    requires PageInv(d)
    ensures d.pageSize > 0 && |d.chip.flash| % d.pageSize == 0
  {
  }

  /** The second write: it opens its page and adds its byte to what the buffer holds; the flush commits both. */
  lemma OpensAndLoads(d: Dummy, e: Dummy, addr: nat, b: Byte)
    requires PageInv(d) && e.pageSize == d.pageSize && !e.fetched && |e.chip.buffer| == d.pageSize
    requires addr < |d.chip.flash|
    ensures var f := WritePaged(e, addr, b, false);
            && f.chip == e.chip.(buffer := e.chip.buffer[addr % d.pageSize := b])
            && FlushPage(f).chip == WritePage(f.chip, PageOf(Selected(addr), d.pageSize))
  {
    hide WritePage, Selected, And, PageOf, Pending;
    PageInFlash(d, addr);
    PageFacts(addr, d.pageSize);
    EvenSize(d);
  }

  lemma EvenSize(d: Dummy)
    requires PageInv(d)
    ensures d.pageSize % 2 == 0
  {
  }

  lemma CommittedCell(c: Chip, page: nat, a: nat)
    requires c.buffer != [] && a < |c.flash| && PageOf(page, |c.buffer|) == PageOf(a, |c.buffer|)
    ensures WritePage(c, page).flash[a] == And(c.flash[a], c.buffer[a % |c.buffer|])
  {
  }

  // ---- Without page mode ----

  /** A polled write leaves a byte that is there already alone, and otherwise succeeds exactly when
      programming can reach the value, that is when no cleared bit would have to be set; all of this where the
      address selects. */
  lemma PolledWrite(d: Dummy, addr: nat, b: Byte, flush: bool)
    requires Valid(d.chip) && d.chip.buffer == [] && d.pageSize == 0 && addr < |d.chip.flash|
    ensures var (e, r) := Write(d, addr, b, flush);
            var a := Selected(addr);
            var before, after := d.chip.flash[a], And(d.chip.flash[a], b);
            && e.chip == d.chip.(flash := d.chip.flash[a := if d.bytePoll && before == b then b else after])
            && r == (if d.bytePoll && before != b && after != b then PollError else Done)
  {
    hide And, Selected;
    var a := Selected(addr);
    assert d.chip.flash[a := d.chip.flash[a]] == d.chip.flash;
  }

  // ---- What a write answers ----

  lemma {:induction false} AndSelf(b: Byte)
    ensures And(b, b) == b
  {
    if b != 0 {
      AndSelf(b / 2);
    }
  }

  /** A write answers MemoryRange, and does nothing, exactly at or above the end of flash; the polling error exactly
      without page mode, with polling, when programming cannot reach the value where the address selects; and
      otherwise it is done. */
  lemma AnswerIs(d: Dummy, addr: nat, b: Byte, flush: bool)
    requires d.pageSize == |d.chip.buffer|
    ensures var (e, r) := Write(d, addr, b, flush);
            && (r == MemoryRange <==> addr >= |d.chip.flash|) && (r == MemoryRange ==> e == d)
            && (r == PollError <==>
                  && addr < |d.chip.flash| && d.pageSize == 0 && d.bytePoll
                  && And(d.chip.flash[Selected(addr)], b) != b)
            && (r == MemoryRange || r == PollError || r == Done)
  {
    hide And, WritePaged, Selected;
    if addr < |d.chip.flash| && d.pageSize == 0 {
      var a := Selected(addr);
      AndSelf(b);
      assert Load(d.chip, a, b).flash[a] == And(d.chip.flash[a], b);
    }
  }

  /** Every byte of the upload is answered with Done. */
  predicate AllDone(d: Dummy, bytes: seq<(nat, Byte)>)
    decreases |bytes|
  {
    bytes != [] ==>
      var (e, r) := Write(d, bytes[0].0, bytes[0].1, false); r == Done && AllDone(e, bytes[1..])
  }

  predicate SameSizes(d: Dummy, e: Dummy) {
    e.pageSize == d.pageSize && |e.chip.buffer| == |d.chip.buffer| && |e.chip.flash| == |d.chip.flash|
  }

  lemma OpenSizes(d: Dummy, addr: nat, flush: bool)
    requires d.pageSize > 0
    ensures SameSizes(d, OpenPage(d, addr, flush))
  {
    hide CommitPage, PageOf;
    CommitKeeps(d);
    var o := OpenPage(d, addr, false);
    CommitKeeps(o);
  }

  lemma PagedSizes(d: Dummy, addr: nat, b: Byte, flush: bool)
    requires d.pageSize > 0
    ensures SameSizes(d, WritePaged(d, addr, b, flush))
  {
    hide OpenPage, LoadByte, Selected, Load;
    OpenSizes(d, addr, flush);
    LoadFrame(OpenPage(d, addr, flush), addr, b);
    Paging(d, addr, b, flush);
  }

  /** So no byte of a page-mode upload within flash throws, whatever its address. */
  lemma {:induction false} UploadNeverThrows(d: Dummy, bytes: seq<(nat, Byte)>)
    requires d.pageSize == |d.chip.buffer| > 0
    requires forall i :: 0 <= i < |bytes| ==> bytes[i].0 < |d.chip.flash|
    ensures AllDone(d, bytes)
    decreases |bytes|
  {
    hide Write, And;
    if bytes != [] {
      var (addr, b) := bytes[0];
      AnswerIs(d, addr, b, false);
      PagedSizes(d, addr, b, false);
      InPageMode(d, addr, b);
      UploadNeverThrows(WritePaged(d, addr, b, false), bytes[1..]);
    }
  }

  lemma InPageMode(d: Dummy, addr: nat, b: Byte)
    requires d.pageSize > 0 && addr < |d.chip.flash|
    ensures Write(d, addr, b, false).0 == WritePaged(d, addr, b, false)
  {
    hide WritePaged;
  }
}
