/** TAvrAtmel on a part with page mode, over whole runs: bytes collect in the page buffer until their page is
    committed, and what the flash will be by then is what a plain memory would be now. An address stands for
    the byte that it selects, which is its own one within reach. */
module PagedRuns {
  import opened HexText
  import opened Chip
  import opened Pavr
  import opened Pages
  import opened AvrAtmel
  import opened AtmelRuns

  function PagerOf(s: Sys): Pager {
    Pager(s.prog.chip, Selected(s.pageAddr), s.fetched)
  }

  /** The open page of the host is a page of flash. */
  predicate OpenOk(s: Sys)
    requires s.pageSize > 0
  {
    s.fetched ==> s.pageAddr < |s.prog.chip.flash| && PageOf(s.pageAddr, s.pageSize) == s.pageAddr
  }

  predicate PageInv(s: Sys) {
    && Paged(PagerOf(s)) && s.pageSize == |s.prog.chip.buffer| && REACH % s.pageSize == 0 && OpenOk(s)
    && Synced(s) && CacheOk(s)
  }

  /** No byte waits in the page buffer: no page is open, or what it held has been committed. */
  ghost predicate NothingWaits(s: Sys)
    requires PageInv(s)
  {
    forall a: nat :: Pending(PagerOf(s), a) == 0xFF
  }

  lemma CommitIsRight(s: Sys)
    requires PageInv(s) && s.fetched
    ensures CommitPage(s).prog.chip == WritePage(s.prog.chip, Selected(s.pageAddr)) && Tracks(CommitPage(s))
    ensures Selected(s.pageAddr) == PageOf(Selected(s.pageAddr), s.pageSize)
  {
    hide WritePage, Erased, PageOf, Pending, CacheOk;
    PageFacts(s.pageAddr, s.pageSize);
    SelectedPage(s.pageAddr, s.pageSize);
  }

  lemma CommitKeeps(s: Sys)
    ensures var t := CommitPage(s);
            t == s.(apc := t.apc, prog := t.prog) && |t.prog.chip.flash| == |s.prog.chip.flash|
            && |t.prog.chip.buffer| == |s.prog.chip.buffer|
  {
  }

  /** Committing the open page, with the host's note of it kept or dropped. */
  lemma CommitStep(s: Sys, fetched: bool)
    requires PageInv(s) && s.fetched && !s.cached
    ensures var t := CommitPage(s).(fetched := fetched);
            && PageInv(t) && NothingWaits(t) && Tracks(t) && !t.cached
            && t.pageSize == s.pageSize && |t.prog.chip.flash| == |s.prog.chip.flash|
            && t.prog.chip.flash == Eventual(PagerOf(s)) == Eventual(PagerOf(t))
  {
    hide WritePage, Eventual, CommitPage, Selected, PageOf, Pending;
    CommitIsRight(s);
    CommitKeeps(s);
    var t := CommitPage(s).(fetched := fetched);
    Commit(PagerOf(s), PagerOf(t));
    TracksLands(t, 0);
  }

  lemma OpenStep(s: Sys, page: nat)
    requires PageInv(s) && !s.fetched && !s.cached && page < |s.prog.chip.flash| && PageOf(page, s.pageSize) == page
    ensures var t := s.(pageAddr := page, fetched := true);
            PageInv(t) && NothingWaits(t) && Eventual(PagerOf(t)) == Eventual(PagerOf(s))
  {
    hide Eventual, Selected, PageOf, Pending;
    SelectedPage(page, s.pageSize);
    Open(PagerOf(s), Selected(page));
  }

  /** The page of an address has the address's own place in flash. */
  lemma PageInFlash(s: Sys, addr: nat)
    requires PageInv(s) && addr < |s.prog.chip.flash|
    ensures PageOf(addr, s.pageSize) < |s.prog.chip.flash|
    ensures PageOf(PageOf(addr, s.pageSize), s.pageSize) == PageOf(addr, s.pageSize)
    ensures Selected(PageOf(addr, s.pageSize)) == PageOf(Selected(addr), s.pageSize)
  {
    hide Selected;
    PageFacts(addr, s.pageSize);
    SelectedPage(addr, s.pageSize);
  }

  /** The page bookkeeping of an uploaded byte: the page of addr is open, the eventual flash unchanged, and
      nothing new is pending; if another page was open, nothing at all. */
  lemma OpenPageIsRight(s: Sys, addr: nat)
    requires PageInv(s) && addr < |s.prog.chip.flash| && !s.cached
    ensures var t := OpenPage(s, addr, false);
            && PageInv(t) && !t.cached && |t.prog.chip.flash| == |s.prog.chip.flash|
            && t.fetched && t.pageAddr == PageOf(addr, s.pageSize) && t.pageSize == s.pageSize
            && Eventual(PagerOf(t)) == Eventual(PagerOf(s))
            && (if s.fetched && s.pageAddr == PageOf(addr, s.pageSize) then t == s else NothingWaits(t))
            && (Lands(s, addr) ==> Lands(t, addr))
  {
    hide WritePage, Eventual, CommitPage, Selected, Target, PageOf, Pending, CacheOk, Synced, PageInv, PagerOf;
    PageInFlash(s, addr);
    SizeDivides(s);
    var page := PageOf(addr, s.pageSize);
    if s.fetched && s.pageAddr != page {
      CommitStep(s, false);
      var t := CommitPage(s).(fetched := false);
      OpenStep(t, page);
      TracksLands(t.(pageAddr := page, fetched := true), addr);
    } else if !s.fetched {
      OpenStep(s, page);
      SameTarget(s, s.(pageAddr := page, fetched := true), addr);
    }
  }

  lemma SizeDivides(s: Sys)
    requires PageInv(s)
    ensures s.pageSize > 0 && REACH % s.pageSize == 0
  {
  }

  lemma SameTarget(s: Sys, t: Sys, addr: nat)
    requires t.autoinc == s.autoinc && t.apc == s.apc && t.prog.addr == s.prog.addr
    ensures Target(t, addr) == Target(s, addr)
  {
  }

  lemma Uncached(s: Sys)
    requires PageInv(s)
    ensures PageInv(s.(cached := false)) && PagerOf(s.(cached := false)) == PagerOf(s) && s.pageSize > 0
  {
    hide Selected, PageOf;
  }

  lemma LoadReplaces(s: Sys, addr: nat, b: Byte)
    requires PageInv(s) && s.fetched && s.pageAddr == PageOf(addr, s.pageSize) && !s.cached
    requires addr < |s.prog.chip.flash| && Lands(s, addr)
    ensures var t, a := LoadByte(s, addr, b), Selected(addr);
            && PageInv(t) && !t.cached && Tracks(t)
            && Eventual(PagerOf(t)) == Eventual(PagerOf(s))[a := And(s.prog.chip.flash[a], b)]
            && forall i: nat :: Pending(PagerOf(t), i) == if i == a then b else Pending(PagerOf(s), i)
  {
    hide LoadByte, Load, Eventual, Pending, Selected, Target, PageOf, And, Tracks, Synced;
    PageInFlash(s, addr);
    LoadByteReaches(s, addr, b);
    ReplaceCell(PagerOf(s), Selected(addr), b);
    assert PagerOf(LoadByte(s, addr, b)) == PagerOf(s).(chip := Load(s.prog.chip, Selected(addr), b));
  }

  lemma LoadIntoPage(s: Sys, addr: nat, b: Byte)
    requires PageInv(s) && s.fetched && s.pageAddr == PageOf(addr, s.pageSize) && !s.cached
    requires addr < |s.prog.chip.flash| && Lands(s, addr) && Pending(PagerOf(s), Selected(addr)) == 0xFF
    ensures var t, a := LoadByte(s, addr, b), Selected(addr);
            && PageInv(t) && !t.cached && Tracks(t)
            && Eventual(PagerOf(t)) == Eventual(PagerOf(s))[a := And(Eventual(PagerOf(s))[a], b)]
            && forall i: nat :: Pending(PagerOf(t), i) == if i == a then b else Pending(PagerOf(s), i)
  {
    hide LoadByte, Eventual, Pending, PageInv, PagerOf, Paged, Selected, Lands, Tracks, PageOf, And;
    HasPager(s);
    LoadReplaces(s, addr, b);
    FreeCell(PagerOf(s), Selected(addr));
  }

  lemma HasPager(s: Sys)
    requires PageInv(s)
    ensures Paged(PagerOf(s)) && |Eventual(PagerOf(s))| == |s.prog.chip.flash| && PagerOf(s).chip == s.prog.chip
  {
  }

  lemma PagedWrite(s: Sys, addr: nat, b: Byte, flush: bool)
    requires s.pageSize > 0
    ensures WriteFlash(s, addr, b, flush) == LoadByte(OpenPage(s.(cached := false), addr, flush), addr, b)
  {
    hide LoadByte, OpenPage;
  }

  /** The page of the address is open already. */
  predicate InOpenPage(s: Sys, addr: nat)
    requires s.pageSize > 0
  {
    s.fetched && s.pageAddr == PageOf(addr, s.pageSize)
  }

  /** One uploaded byte, whose cell has nothing waiting if its page is open already. */
  lemma UploadByteIsRight(s: Sys, addr: nat, b: Byte)
    requires PageInv(s) && addr < |s.prog.chip.flash| && Lands(s, addr)
    requires InOpenPage(s, addr) ==> Pending(PagerOf(s), Selected(addr)) == 0xFF
    ensures var t, a := WriteFlash(s, addr, b, false), Selected(addr);
            && PageInv(t) && !t.cached && Tracks(t) && InOpenPage(t, addr) && t.pageSize == s.pageSize
            && Eventual(PagerOf(t)) == Programs(Eventual(PagerOf(s)), a, b)
            && forall i: nat :: Pending(PagerOf(t), i) ==
                 if i == a then b else if InOpenPage(s, addr) then Pending(PagerOf(s), i) else 0xFF
  {
    hide Eventual, OpenPage, Pending, LoadByte, WriteFlash, PageInv, PagerOf, Paged, Selected, Target, Tracks, And;
    var s0 := s.(cached := false);
    HasPager(s);
    Uncached(s);
    UncachedSame(s, addr);
    OpenPageIsRight(s0, addr);
    var s1 := OpenPage(s0, addr, false);
    if !InOpenPage(s, addr) {
      NoneWaits(s1, Selected(addr));
    }
    LoadIntoPage(s1, addr, b);
    LoadFrame(s1, addr, b);
    PagedWrite(s, addr, b, false);
  }

  lemma LoadFrame(s: Sys, addr: nat, b: Byte)
    ensures var t := LoadByte(s, addr, b);
            t.pageAddr == s.pageAddr && t.fetched == s.fetched && t.pageSize == s.pageSize
  {
  }

  /** A byte written at any address, written before or not: whatever waits for the address in the open page is
      replaced, so what the cell will be is its present value AND the byte. That is what programming both bytes
      would give exactly when the byte that waited clears nothing that the new one leaves. A byte for another
      page than the open one is programmed into what the cell will be. */
  lemma RepeatedWrite(s: Sys, addr: nat, b: Byte)
    requires PageInv(s) && addr < |s.prog.chip.flash| && Lands(s, addr)
    ensures var t, a, before := WriteFlash(s, addr, b, false), Selected(addr), Eventual(PagerOf(s));
            var same := s.fetched && s.pageAddr == PageOf(addr, s.pageSize);
            var now, waits := s.prog.chip.flash[a], Pending(PagerOf(s), a);
            && PageInv(t) && Pending(PagerOf(t), a) == b && Tracks(t)
            && Eventual(PagerOf(t)) == before[a := And(if same then now else before[a], b)]
            && (Eventual(PagerOf(t)) == before[a := And(before[a], b)]
                <==> !same || And(And(now, b), waits) == And(now, b))
  {
    hide Eventual, OpenPage, Pending, LoadByte, WriteFlash, PageInv, PagerOf, Paged, Selected, Target, Tracks, And;
    hide PageOf;
    var s0, a := s.(cached := false), Selected(addr);
    Uncached(s);
    UncachedSame(s, addr);
    OpenPageIsRight(s0, addr);
    PagedWrite(s, addr, b, false);
    var s1 := OpenPage(s0, addr, false);
    LoadReplaces(s1, addr, b);
    HasPager(s);
    HasPager(s1);
    EventualCell(s, a);
    EventualCell(s1, a);
    AndOnes(s1.prog.chip.flash[a]);
    AndSwap(s.prog.chip.flash[a], Pending(PagerOf(s), a), b);
    var before := Eventual(PagerOf(s));
    assert before[a := And(before[a], b)][a] == And(before[a], b);
    assert before[a := And(s1.prog.chip.flash[a], b)][a] == And(s1.prog.chip.flash[a], b);
  }

  lemma EventualCell(s: Sys, a: nat)
    requires PageInv(s) && a < |s.prog.chip.flash|
    ensures |Eventual(PagerOf(s))| == |s.prog.chip.flash|
    ensures Eventual(PagerOf(s))[a] == And(s.prog.chip.flash[a], Pending(PagerOf(s), a))
  {
  }

  // ---- Uploads ----

  /** An upload: bytes in the order given, none asking for a flush. */
  function Upload(s: Sys, bytes: seq<(nat, Byte)>): Sys
    decreases |bytes|
  {
    if bytes == [] then s else Upload(Write(s, FlashSegment, bytes[0].0, bytes[0].1, false).0, bytes[1..])
  }

  /** The bytes fit into flash, and none waits already for a byte that one of them selects. */
  predicate Awaited(s: Sys, bytes: seq<(nat, Byte)>)
    requires PageInv(s)
  {
    forall i :: 0 <= i < |bytes| ==>
      bytes[i].0 < |s.prog.chip.flash| && Pending(PagerOf(s), Selected(bytes[i].0)) == 0xFF
  }

  /** An upload of bytes within reach, or after any access that left the host tracking the programmer: what
      flash will be is what it would have been, with each byte programmed where its address selects. */
  lemma {:induction false} UploadIsRight(s: Sys, bytes: seq<(nat, Byte)>)
    requires PageInv(s) && Awaited(s, bytes) && Distinct(Selections(bytes))
    requires Tracks(s) || BytesWithin(bytes)
    ensures var t := Upload(s, bytes);
            && PageInv(t) && Eventual(PagerOf(t)) == Programmed(Eventual(PagerOf(s)), Selections(bytes))
            && (bytes != [] ==> !t.cached && Tracks(t)) && (bytes == [] ==> t == s)
    decreases |bytes|
  {
    hide WriteFlash, Eventual, Pending, PageInv, PagerOf, Paged, Selected, Tracks, Lands, And, Programs, Programmed;
    hide Distinct;
    HasPager(s);
    if bytes == [] {
      NoneProgrammed(Eventual(PagerOf(s)), Selections(bytes));
    } else {
      var (addr, b) := bytes[0];
      var sel := Selections(bytes);
      LandsAt(s, addr);
      UploadByteIsRight(s, addr, b);
      var t := WriteFlash(s, addr, b, false);
      HasPager(t);
      DistinctRest(sel);
      assert sel[1..] == Selections(bytes[1..]);
      AwaitedRest(s, t, bytes);
      UploadIsRight(t, bytes[1..]);
      FirstProgrammed(Eventual(PagerOf(s)), sel);
      FirstUploaded(s, bytes);
    }
  }

  lemma InvSynced(s: Sys)
    requires PageInv(s)
    ensures Synced(s)
  {
  }

  lemma FirstUploaded(s: Sys, bytes: seq<(nat, Byte)>)
    requires bytes != [] && bytes[0].0 < |s.prog.chip.flash|
    ensures Upload(s, bytes) == Upload(WriteFlash(s, bytes[0].0, bytes[0].1, false), bytes[1..])
  {
    hide WriteFlash;
  }

  lemma AwaitedRest(s: Sys, t: Sys, bytes: seq<(nat, Byte)>)
    requires PageInv(s) && PageInv(t) && bytes != [] && Awaited(s, bytes)
    requires |t.prog.chip.flash| == |s.prog.chip.flash|
    requires forall i: nat :: i != Selected(bytes[0].0) && Pending(PagerOf(s), i) == 0xFF
                              ==> Pending(PagerOf(t), i) == 0xFF
    requires forall i :: 0 <= i < |bytes[1..]| ==> Selections(bytes)[1..][i].0 != Selections(bytes)[0].0
    ensures Awaited(t, bytes[1..])
  {
    hide PageInv, PagerOf, Paged, Pending, Selected;
    HasPager(t);
    forall i | 0 <= i < |bytes[1..]|
      ensures bytes[1..][i].0 < |t.prog.chip.flash| && Pending(PagerOf(t), Selected(bytes[1..][i].0)) == 0xFF
    {
      assert bytes[1..][i] == bytes[i + 1] && Selections(bytes)[1..][i] == Selections(bytes)[i + 1];
    }
  }

  /** Page-mode upload: from erased flash of any size, bytes at distinct addresses within reach in any order,
      revisiting pages at will, and then a flush leave each byte at its address and 0xFF elsewhere; and every
      later read within reach returns what the flash holds. */
  lemma PagedUpload(s: Sys, bytes: seq<(nat, Byte)>)
    requires PageInv(s) && NothingWaits(s) && Distinct(bytes) && BytesWithin(bytes)
    requires s.prog.chip.flash == Erased(|s.prog.chip.flash|)
    requires forall i :: 0 <= i < |bytes| ==> bytes[i].0 < |s.prog.chip.flash|
    ensures var t := FlushPage(Upload(s, bytes));
            var flash := t.prog.chip.flash;
            && |flash| == |s.prog.chip.flash|
            && (forall i :: 0 <= i < |bytes| ==> flash[bytes[i].0] == bytes[i].1)
            && (forall a :: 0 <= a < |flash| && (forall i :: 0 <= i < |bytes| ==> bytes[i].0 != a) ==> flash[a] == 0xFF)
            && forall a :: 0 <= a < |flash| && a < REACH ==> ReadFlash(t, a).1 == flash[a]
  {
    hide WritePage, Upload, Programmed, ReadFlash, Selected, PageInv, PagerOf, Paged, Pending, Eventual, Tracks;
    hide And, FlushPage, Inv;
    NothingAwaited(s, bytes);
    WithinSelected(bytes);
    UploadIsRight(s, bytes);
    var u := Upload(s, bytes);
    var t := FlushPage(u);
    var flash := t.prog.chip.flash;
    FlushIsRight(u);
    if bytes == [] {
      WaitingHits(u);
    }
    forall a | 0 <= a < |flash|
      ensures forall i :: 0 <= i < |bytes| && bytes[i].0 == a ==> flash[a] == bytes[i].1
      ensures (forall i :: 0 <= i < |bytes| ==> bytes[i].0 != a) ==> flash[a] == 0xFF
      ensures a < REACH ==> ReadFlash(t, a).1 == flash[a]
    {
      ProgrammedBytes(s.prog.chip.flash, bytes, a);
      forall i | 0 <= i < |bytes| && bytes[i].0 == a ensures flash[a] == bytes[i].1 {
        AndOnes(bytes[i].1);
      }
      if a < REACH {
        ReadAfterFlush(u, a);
      }
    }
  }

  lemma NothingAwaited(s: Sys, bytes: seq<(nat, Byte)>)
    requires PageInv(s) && NothingWaits(s)
    requires forall i :: 0 <= i < |bytes| ==> bytes[i].0 < |s.prog.chip.flash|
    ensures Awaited(s, bytes) && Eventual(PagerOf(s)) == s.prog.chip.flash
  {
    hide PagerOf, Pending, Selected, Eventual, PageInv, Paged;
    HasPager(s);
    NothingPending(PagerOf(s));
  }

  lemma WaitingHits(s: Sys)
    requires PageInv(s) && NothingWaits(s)
    ensures Eventual(PagerOf(s)) == s.prog.chip.flash
  {
    NothingAwaited(s, []);
  }

  // ---- Images: bytes at ascending addresses ----

  /** The bytes are for consecutive addresses from a on, within flash. */
  predicate Consecutive(s: Sys, a: nat, bytes: seq<(nat, Byte)>) {
    a + |bytes| <= |s.prog.chip.flash| && forall i :: 0 <= i < |bytes| ==> bytes[i].0 == a + i
  }

  /** Nothing waits in the open page from address a on. */
  ghost predicate Ahead(s: Sys, a: nat)
    requires PageInv(s)
  {
    forall x: nat :: x >= a && InOpenPage(s, x) ==> Pending(PagerOf(s), Selected(x)) == 0xFF
  }

  lemma StaysAhead(s: Sys, t: Sys, a: nat, b: Byte)
    requires PageInv(s) && PageInv(t) && t.pageSize == s.pageSize > 0 && REACH % s.pageSize == 0
    requires Ahead(s, a) && InOpenPage(t, a)
    requires forall i: nat :: Pending(PagerOf(t), i) ==
               if i == Selected(a) then b else if InOpenPage(s, a) then Pending(PagerOf(s), i) else 0xFF
    ensures Ahead(t, a + 1)
  {
    hide PageInv, PagerOf, Paged, Pending, Selected, PageOf;
    HasPager(t);
    forall x: nat | x >= a + 1 && InOpenPage(t, x) ensures Pending(PagerOf(t), Selected(x)) == 0xFF {
      if Selected(x) == Selected(a) {
        SameOffset(a, x, s.pageSize);
      }
    }
  }

  /** An image uploaded in ascending order, of any length: each byte is programmed where its address selects,
      even where one that came before selects the same. */
  lemma {:induction false} AscendingUpload(s: Sys, a: nat, bytes: seq<(nat, Byte)>)
    requires PageInv(s) && Consecutive(s, a, bytes) && Ahead(s, a) && (Tracks(s) || a < REACH)
    ensures var t := Upload(s, bytes);
            && PageInv(t) && Eventual(PagerOf(t)) == Programmed(Eventual(PagerOf(s)), Selections(bytes))
            && (bytes != [] ==> !t.cached && Tracks(t)) && (bytes == [] ==> t == s)
    decreases |bytes|
  {
    hide WriteFlash, Eventual, Pending, PageInv, PagerOf, Paged, Selected, Tracks, Lands, And, Programs, Programmed;
    HasPager(s);
    if bytes == [] {
      NoneProgrammed(Eventual(PagerOf(s)), Selections(bytes));
    } else {
      var b, sel := bytes[0].1, Selections(bytes);
      LandsAt(s, a);
      SizeDivides(s);
      UploadByteIsRight(s, a, b);
      var t := WriteFlash(s, a, b, false);
      HasPager(t);
      StaysAhead(s, t, a, b);
      assert sel[1..] == Selections(bytes[1..]);
      AscendingUpload(t, a + 1, bytes[1..]);
      FirstProgrammed(Eventual(PagerOf(s)), sel);
      FirstUploaded(s, bytes);
    }
  }

  lemma LandsAt(s: Sys, addr: nat)
    requires PageInv(s) && (Tracks(s) || addr < REACH)
    ensures Lands(s, addr)
  {
    hide Selected, Target;
    if Tracks(s) {
      TracksLands(s, addr);
    } else {
      SyncedLands(s, addr);
    }
  }

  // ---- Flushing ----

  lemma FlushIsRight(s: Sys)
    requires PageInv(s)
    ensures var t := FlushPage(s);
            && t.prog.chip.flash == Eventual(PagerOf(s)) && Valid(t.prog.chip) && Synced(t)
            && (if s.fetched then Tracks(t) else t == s)
            && t.cached == s.cached && t.bufAddr == s.bufAddr && t.bufByte == s.bufByte
            && t.pageSize == s.pageSize && |t.prog.chip.flash| == |s.prog.chip.flash|
            && t.fetched == s.fetched && t.pageAddr == s.pageAddr
  {
    hide WritePage, Eventual, Selected, Pending, PageOf;
    if s.fetched {
      CommitIsRight(s);
      CommitKeeps(s);
      var t := CommitPage(s);
      TracksLands(t, 0);
      Commit(PagerOf(s), PagerOf(t));
    } else {
      NonePending(s);
    }
  }

  lemma NonePending(s: Sys)
    requires PageInv(s) && !s.fetched
    ensures Eventual(PagerOf(s)) == s.prog.chip.flash && NothingWaits(s)
  {
    hide Selected, PageOf, Eventual;
    NothingPending(PagerOf(s));
  }

  /** Flushing does not drop the cached byte: a read after it is right exactly when it misses the cache or the
      flush left the cached byte as it was. */
  lemma ReadAfterFlush(s: Sys, a: nat)
    requires PageInv(s) && a < |s.prog.chip.flash| && (Tracks(s) || a < REACH)
    ensures var t, sel := FlushPage(s), Selected(a);
            ReadFlash(t, a).1 == t.prog.chip.flash[sel]
            <==> !Hit(s, a) || Eventual(PagerOf(s))[sel] == s.prog.chip.flash[sel]
  {
    hide FlushPage, Selected, Eventual, Paged, Pending, ReadFlash, Target;
    FlushIsRight(s);
    var t := FlushPage(s);
    if Hit(s, a) {
      CachedRead(s, t, a);
    } else {
      if Tracks(t) {
        TracksLands(t, a);
      } else {
        SyncedLands(t, a);
      }
      ReadFlashReaches(t, a);
      InFlash(t.prog.chip, Selected(a));
    }
  }

  lemma CachedRead(s: Sys, t: Sys, a: nat)
    requires Hit(s, a) && CacheOk(s) && t.cached && t.bufAddr == s.bufAddr && t.bufByte == s.bufByte
    ensures a < |s.prog.chip.flash| && ReadFlash(t, a).1 == s.prog.chip.flash[Selected(a)]
  {
  }

  /** A concrete case: in page mode on erased flash, 0 is written to address 1, address 1 is read, the buffer is
      flushed, and address 1 is read again. Flash holds 0 by then; the read returns 0xFF. */
  lemma FlushLeavesStaleByte() returns (s: Sys)
    ensures PageInv(s) && NothingWaits(s) && s.prog.chip.flash == Erased(4)
    ensures var t := FlushPage(ReadFlash(WriteFlash(s, 1, 0, false), 1).0);
            FlashAt(t.prog.chip, 1) == 0 && ReadFlash(t, 1).1 == 0xFF
  {
    hide Selected;
    var chip := Chip(Erased(4), [], Erased(2));
    s := Sys(true, 2, 0x1_0000, false, 0, 0, 0, false, Prog(0, chip));
    NonePending(s);
    assert PageOf(1, 2) == 0;
    var loaded := chip.(buffer := chip.buffer[1 := 0]);
    var u := WriteFlash(s, 1, 0, false);
    assert u == Sys(true, 2, 1, false, 0, 0, 0, true, Prog(1, loaded));
    var v := ReadFlash(u, 1).0;
    assert v == Sys(true, 2, 1, true, 1, 0xFF, 0, true, Prog(1, loaded));
    AndOnes(0);
    assert FlushPage(v).prog.chip.flash[1] == And(0xFF, 0);
  }

  // ---- Runs ----

  /** Reading in the middle of an upload gives what flash holds by then, not what is pending, and does not
      disturb the upload. */
  lemma PagedReadIsRight(s: Sys, addr: nat)
    requires PageInv(s) && addr < |s.prog.chip.flash| && (Lands(s, addr) || Hit(s, addr))
    ensures var (t, b) := ReadFlash(s, addr);
            b == s.prog.chip.flash[Selected(addr)] && PageInv(t) && PagerOf(t) == PagerOf(s)
  {
    hide ReadFlash, Selected, Lands, PageOf, Pending, Tracks, Synced;
    ReadFlashIsRight(s, addr);
  }

  /** The bytes that a run of flash accesses writes. */
  function Written(ops: seq<Op>, size: nat): seq<(nat, Byte)> {
    if ops == [] then []
    else (if Writes(ops[0], size) then [(ops[0].addr, ops[0].byte)] else []) + Written(ops[1..], size)
  }

  predicate Writes(op: Op, size: nat) {
    op.OpWrite? && op.addr < size
  }

  /** What each access of such a run delivers when it is made in state s: reads deliver flash as it is. */
  predicate AnswerIsRight(s: Sys, op: Op, r: Result) {
    r == if op.addr >= |s.prog.chip.flash| then MemoryRange
         else if op.OpRead? then Value(s.prog.chip.flash[op.addr]) else Done
  }

  predicate AnswersAreRight(s: Sys, ops: seq<Op>)
    decreases |ops|
  {
    ops != [] ==> AnswerIsRight(s, ops[0], Step(s, ops[0]).1) && AnswersAreRight(Step(s, ops[0]).0, ops[1..])
  }

  /** A run of flash accesses that ask for no flush. */
  predicate Quiet(ops: seq<Op>) {
    forall i :: 0 <= i < |ops| ==> ops[i].segment == FlashSegment && (ops[i].OpWrite? ==> !ops[i].flush)
  }

  /** None of the bytes' cells has a byte waiting for it. */
  predicate Free(s: Sys, bytes: seq<(nat, Byte)>)
    requires PageInv(s)
  {
    forall i :: 0 <= i < |bytes| ==> Pending(PagerOf(s), bytes[i].0) == 0xFF
  }

  /** A run in page mode, reads and accesses out of range mixed in: every read is right, and the flash to be is
      the old one with the bytes written programmed into it. */
  lemma {:induction false} PagedRunIsRight(s: Sys, ops: seq<Op>)
    requires PageInv(s) && Quiet(ops) && WithinReach(ops)
    requires Distinct(Written(ops, |s.prog.chip.flash|)) && Free(s, Written(ops, |s.prog.chip.flash|))
    ensures var t, bytes := Run(s, ops).0, Written(ops, |s.prog.chip.flash|);
            && PageInv(t) && |t.prog.chip.flash| == |s.prog.chip.flash| && AnswersAreRight(s, ops)
            && Eventual(PagerOf(t)) == Programmed(Eventual(PagerOf(s)), bytes)
            && (ops != [] && Writes(ops[|ops| - 1], |s.prog.chip.flash|) ==> !t.cached)
    decreases |ops|
  {
    hide Step, Run, Written, Eventual, Pending, PageInv, Programmed, Distinct, AnswersAreRight, AnswerIsRight;
    hide PagerOf, Paged, And, Selected, Programs;
    HasPager(s);
    if ops == [] {
      NothingRun(s);
    } else {
      var op, size := ops[0], |s.prog.chip.flash|;
      var t := Step(s, op).0;
      var bytes, rest := Written(ops, size), Written(ops[1..], size);
      FirstWritten(ops, size);
      if Writes(op, size) {
        assert bytes[0] == (op.addr, op.byte) && bytes[1..] == rest;
        assert Pending(PagerOf(s), bytes[0].0) == 0xFF;
      }
      PagedStepIsRight(s, op);
      HasPager(t);
      if Writes(op, size) {
        DistinctRest(bytes);
        forall i | 0 <= i < |rest| ensures Pending(PagerOf(t), rest[i].0) == 0xFF {
          assert rest[i] == bytes[i + 1];
        }
      } else {
        assert bytes == rest;
      }
      PagedRunIsRight(t, ops[1..]);
      FirstRun(s, ops);
      if Writes(op, size) {
        FirstProgrammed(Eventual(PagerOf(s)), bytes);
      }
      if |ops| == 1 {
        NothingRun(t);
      }
    }
  }

  /** The flush behind such a run programs everything; and a read after it is right exactly when it misses the
      cache or the flush left the cached byte as it was. A run that ends with a write leaves nothing cached. */
  lemma FlushedRunIsRight(s: Sys, ops: seq<Op>, a: nat)
    requires PageInv(s) && Quiet(ops) && WithinReach(ops)
    requires Distinct(Written(ops, |s.prog.chip.flash|)) && Free(s, Written(ops, |s.prog.chip.flash|))
    requires a < |s.prog.chip.flash| && a < REACH
    ensures var t, bytes := Run(s, ops).0, Written(ops, |s.prog.chip.flash|);
            var flushed := FlushPage(t);
            var flash := flushed.prog.chip.flash;
            && PageInv(t) && |t.prog.chip.flash| == |s.prog.chip.flash|
            && flash == Programmed(Eventual(PagerOf(s)), bytes)
            && (ReadFlash(flushed, a).1 == flash[a] <==> !Hit(t, a) || flash[a] == t.prog.chip.flash[a])
            && (ops != [] && Writes(ops[|ops| - 1], |s.prog.chip.flash|) ==> ReadFlash(flushed, a).1 == flash[a])
  {
    hide Run, Written, Eventual, PageInv, Programmed, Distinct, Selected, FlushPage, ReadFlash, Free, Paged, PagerOf;
    PagedRunIsRight(s, ops);
    var t := Run(s, ops).0;
    FlushIsRight(t);
    ReadAfterFlush(t, a);
  }

  lemma FirstWritten(ops: seq<Op>, size: nat)
    requires ops != []
    ensures Written(ops, size)
         == (if Writes(ops[0], size) then [(ops[0].addr, ops[0].byte)] else []) + Written(ops[1..], size)
  {
  }

  lemma NothingRun(s: Sys)
    requires PageInv(s)
    ensures Run(s, []).0 == s && AnswersAreRight(s, []) && Written([], |s.prog.chip.flash|) == []
    ensures Paged(PagerOf(s)) && Programmed(Eventual(PagerOf(s)), []) == Eventual(PagerOf(s))
  {
    hide Eventual;
  }

  lemma FirstRun(s: Sys, ops: seq<Op>)
    requires ops != []
    ensures Run(s, ops).0 == Run(Step(s, ops[0]).0, ops[1..]).0
    ensures AnswersAreRight(s, ops)
       <==> AnswerIsRight(s, ops[0], Step(s, ops[0]).1) && AnswersAreRight(Step(s, ops[0]).0, ops[1..])
  {
    hide Step, AnswerIsRight;
  }

  /** One access of such a run. */
  lemma PagedStepIsRight(s: Sys, op: Op)
    requires PageInv(s) && op.segment == FlashSegment && (op.OpWrite? ==> !op.flush) && op.addr < REACH
    requires Writes(op, |s.prog.chip.flash|) ==> Paged(PagerOf(s)) && Pending(PagerOf(s), op.addr) == 0xFF
    ensures var (t, r) := Step(s, op);
            && PageInv(t) && Paged(PagerOf(s)) && Paged(PagerOf(t)) && |t.prog.chip.flash| == |s.prog.chip.flash|
            && AnswerIsRight(s, op, r)
            && (if Writes(op, |s.prog.chip.flash|) then
                  && (forall i: nat :: i != op.addr && Pending(PagerOf(s), i) == 0xFF ==>
                        Pending(PagerOf(t), i) == 0xFF)
                  && !t.cached && Eventual(PagerOf(t)) == Programs(Eventual(PagerOf(s)), op.addr, op.byte)
                else PagerOf(t) == PagerOf(s))
  {
    hide WriteFlash, ReadFlash, Eventual, Pending, PageInv, PagerOf, Paged, And, Selected, Lands, Tracks;
    HasPager(s);
    if op.addr < |s.prog.chip.flash| {
      InvSynced(s);
      SyncedLands(s, op.addr);
      if op.OpRead? {
        PagedReadIsRight(s, op.addr);
        SamePager(s, Step(s, op).0);
      } else {
        UploadByteIsRight(s, op.addr, op.byte);
        HasPager(Step(s, op).0);
      }
    }
  }

  lemma SamePager(s: Sys, t: Sys)
    requires PageInv(s) && PagerOf(t) == PagerOf(s)
    ensures |t.prog.chip.flash| == |s.prog.chip.flash|
  {
  }

  // ---- Writes that ask for a flush ----

  /** A write that asks for a flush commits the page before it loads its byte: what waited is in flash, its
      own byte waits alone, and the next flush programs it. */
  lemma FlushingWriteIsLate(s: Sys, addr: nat, b: Byte)
    requires PageInv(s) && addr < |s.prog.chip.flash|
    ensures var t, before, a := WriteFlash(s, addr, b, true), Eventual(PagerOf(s)), Selected(addr);
            && PageInv(t) && t.prog.chip.flash == before && Tracks(t) && !t.cached
            && (forall i: nat :: Pending(PagerOf(t), i) == if i == a then b else 0xFF)
            && FlushPage(t).prog.chip.flash == before[a := And(before[a], b)]
  {
    hide *;
    var s0 := s.(cached := false);
    Uncached(s);
    HasPager(s);
    FlushingOpenIsRight(s0, addr);
    var s2 := OpenPage(s0, addr, true);
    NoneWaits(s2, Selected(addr));
    TracksLands(s2, addr);
    LoadIntoPage(s2, addr, b);
    BufferedOnly(s2, addr, b);
    FlushIsRight(LoadByte(s2, addr, b));
    PagedWrite(s, addr, b, true);
  }

  lemma NoneWaits(s: Sys, a: nat)
    requires PageInv(s) && NothingWaits(s)
    ensures Pending(PagerOf(s), a) == 0xFF && forall i: nat :: Pending(PagerOf(s), i) == 0xFF
  {
    hide Pending, PagerOf, PageInv;
  }

  /** The page bookkeeping of a write that asks for a flush: everything that waited is committed. */
  lemma FlushingOpenIsRight(s: Sys, addr: nat)
    requires PageInv(s) && addr < |s.prog.chip.flash| && !s.cached
    ensures var t := OpenPage(s, addr, true);
            && PageInv(t) && NothingWaits(t) && !t.cached && |t.prog.chip.flash| == |s.prog.chip.flash|
            && t.fetched && t.pageAddr == PageOf(addr, t.pageSize) && Tracks(t)
            && t.prog.chip.flash == Eventual(PagerOf(s)) == Eventual(PagerOf(t))
  {
    hide CommitPage, Eventual, Pending, PageInv, PagerOf, Paged, PageOf, Selected, Tracks, Lands, NothingWaits;
    SizeDivides(s);
    OpenPageIsRight(s, addr);
    var s1 := OpenPage(s, addr, false);
    CommitStep(s1, true);
    CommitKeeps(s1);
    assert CommitPage(s1) == CommitPage(s1).(fetched := true);
    assert CommitPage(s1) == OpenPage(s, addr, true);
  }

  lemma BufferedOnly(s: Sys, addr: nat, b: Byte)
    requires PageInv(s)
    ensures LoadByte(s, addr, b).prog.chip.flash == s.prog.chip.flash
  {
    hide Selected, PageOf;
  }
}
