/** Block uploads of TStk500 (the mib510): written bytes are buffered for the whole segment, and a flush
    sends the range from the lowest to the highest address in blocks. One session with one segment. */
module Stk500 {
  import opened HexText
  import opened DivMod

  /** A SetAddress command and the WriteMemory command after it, both as sent. */
  datatype Block = Block(address: int, data: seq<Byte>)

  // ---- What is buffered ----

  /** The buffer after some writes: the last value written to an address, 0xFF where there is none. */
  function LastWritten(writes: seq<(nat, Byte)>, a: nat): Byte {
    if writes == [] then 0xFF
    else if writes[|writes| - 1].0 == a then writes[|writes| - 1].1
    else LastWritten(writes[..|writes| - 1], a)
  }

  function Lowest(writes: seq<(nat, Byte)>, size: nat): nat {
    if writes == [] then size
    else
      var m, a := Lowest(writes[..|writes| - 1], size), writes[|writes| - 1].0;
      if a < m then a else m
  }

  function Highest(writes: seq<(nat, Byte)>): nat {
    if writes == [] then 0
    else
      var m, a := Highest(writes[..|writes| - 1]), writes[|writes| - 1].0;
      if a > m then a else m
  }

  /** The buffer, its lowest and its highest address after one more write; and before the first. */
  lemma WrittenNext(writes: seq<(nat, Byte)>, addr: nat, b: Byte, size: nat)
    ensures var next := writes + [(addr, b)];
            && (forall a: nat :: LastWritten(next, a) == if a == addr then b else LastWritten(writes, a))
            && Lowest(next, size) == (if addr < Lowest(writes, size) then addr else Lowest(writes, size))
            && Highest(next) == if addr > Highest(writes) then addr else Highest(writes)
  {
    assert (writes + [(addr, b)])[..|writes|] == writes;
  }

  lemma NothingWritten(size: nat)
    ensures (forall a: nat :: LastWritten([], a) == 0xFF) && Lowest([], size) == size && Highest([]) == 0
  {
  }

  lemma {:induction false} WithinRange(writes: seq<(nat, Byte)>, size: nat, i: nat)
    requires i < |writes|
    ensures Lowest(writes, size) <= writes[i].0 <= Highest(writes)
    decreases |writes|
  {
    if i < |writes| - 1 {
      WithinRange(writes[..|writes| - 1], size, i);
    }
  }

  // ---- What is sent ----

  /** The loop of FlushWriteBuffer from addr on. */
  function Blocks(buffer: seq<Byte>, addr: nat, maxaddr: nat, pagesize: nat, wordsize: nat): seq<Block>
    requires pagesize > 0 && wordsize > 0 && InRange(buffer, addr, maxaddr, pagesize)
    decreases maxaddr - addr
  {
    if addr >= maxaddr then []
    else [Block(addr / wordsize % 0x1_0000, buffer[addr..addr + pagesize])]
         + Blocks(buffer, addr + pagesize, maxaddr, pagesize, wordsize)
  }

  /** Every block to be sent lies within the buffer. */
  predicate InRange(buffer: seq<Byte>, addr: nat, maxaddr: nat, pagesize: nat)
    requires pagesize > 0
    decreases maxaddr - addr
  {
    addr < maxaddr ==> addr + pagesize <= |buffer| && InRange(buffer, addr + pagesize, maxaddr, pagesize)
  }

  /** Block k, counted from the lowest address on, covers address a. */
  predicate Covers(k: nat, low: nat, a: nat, pagesize: nat) {
    low + k * pagesize <= a < low + (k + 1) * pagesize
  }

  lemma {:induction false} BlockAt(buffer: seq<Byte>, addr: nat, maxaddr: nat, pagesize: nat, wordsize: nat, k: nat)
    requires pagesize > 0 && wordsize > 0 && InRange(buffer, addr, maxaddr, pagesize)
    ensures var blocks, start := Blocks(buffer, addr, maxaddr, pagesize, wordsize), addr + k * pagesize;
            && (k < |blocks| <==> start < maxaddr)
            && (k < |blocks| ==> start + pagesize <= |buffer|
                                 && blocks[k] == Block(start / wordsize % 0x1_0000, buffer[start..start + pagesize]))
    decreases k
  {
    hide Blocks, InRange;
    BlocksBack(pagesize, k);
    if addr >= maxaddr {
      NoBlocks(buffer, addr, maxaddr, pagesize, wordsize);
    } else {
      NextBlock(buffer, addr, maxaddr, pagesize, wordsize);
      if k > 0 {
        BlockAt(buffer, addr + pagesize, maxaddr, pagesize, wordsize, k - 1);
        var start := addr + k * pagesize;
        assert addr + pagesize + (k - 1) * pagesize == start;
      }
    }
  }

  /** How far block k starts behind the first, from the block before it. */
  lemma BlocksBack(pagesize: nat, k: nat)
    ensures k * pagesize >= 0
    ensures k > 0 ==> k * pagesize == pagesize + (k - 1) * pagesize && (k - 1) * pagesize >= 0
    ensures k == 0 ==> k * pagesize == 0
  {
  }

  lemma CoversOnce(low: nat, a: nat, pagesize: nat, k: nat)
    requires pagesize > 0 && low <= a
    ensures Covers((a - low) / pagesize, low, a, pagesize)
    ensures Covers(k, low, a, pagesize) ==> k == (a - low) / pagesize
  {
  }

  /** One of the blocks covers a. */
  predicate Sent(blocks: seq<Block>, low: nat, a: nat, pagesize: nat) {
    exists k: nat :: k < |blocks| && Covers(k, low, a, pagesize)
  }

  /** Exactly one of the blocks covers a, and it holds b there. */
  predicate SentOnceAs(blocks: seq<Block>, low: nat, a: nat, pagesize: nat, b: Byte)
    requires pagesize > 0 && low <= a
  {
    var k, x := (a - low) / pagesize, (a - low) % pagesize;
    && k < |blocks| && Covers(k, low, a, pagesize)
    && (forall j: nat :: j < |blocks| && Covers(j, low, a, pagesize) ==> j == k)
    && x < |blocks[k].data| && blocks[k].data[x] == b
  }

  /** Every address from the lowest to below the highest is sent exactly once, with its buffered value. */
  lemma SentExactlyOnce(buffer: seq<Byte>, low: nat, high: nat, pagesize: nat, wordsize: nat, a: nat)
    requires pagesize > 0 && wordsize > 0 && InRange(buffer, low, high, pagesize)
    requires low <= a < high
    ensures a < |buffer| && SentOnceAs(Blocks(buffer, low, high, pagesize, wordsize), low, a, pagesize, buffer[a])
  {
    hide Blocks, InRange;
    var x, k := a - low, (a - low) / pagesize;
    Fundamental(x, pagesize);
    CoversOnce(low, a, pagesize, k);
    BlockAt(buffer, low, high, pagesize, wordsize, k);
    forall j: nat | Covers(j, low, a, pagesize) ensures j == k {
      CoversOnce(low, a, pagesize, j);
    }
  }

  /** The highest address itself is sent exactly when it does not start a block. */
  lemma HighestSentIff(buffer: seq<Byte>, low: nat, high: nat, pagesize: nat, wordsize: nat)
    requires pagesize > 0 && wordsize > 0 && low <= high && InRange(buffer, low, high, pagesize)
    ensures Sent(Blocks(buffer, low, high, pagesize, wordsize), low, high, pagesize)
       <==> (high - low) % pagesize != 0
  {
    hide Blocks, InRange;
    var k := (high - low) / pagesize;
    Fundamental(high - low, pagesize);
    CoversOnce(low, high, pagesize, k);
    BlockAt(buffer, low, high, pagesize, wordsize, k);
    forall j: nat | Covers(j, low, high, pagesize) ensures j == k {
      CoversOnce(low, high, pagesize, j);
    }
  }

  /** The bytes that a 16-bit word address can select. */
  function Reach(wordsize: nat): nat {
    0x1_0000 * wordsize
  }

  /** Where block k starts, and whether that is where it is sent. */
  function BlockStart(low: nat, k: nat, pagesize: nat): nat {
    low + k * pagesize
  }

  predicate SentTo(block: Block, start: nat, wordsize: nat) {
    block.address * wordsize == start
  }

  /** The programmer is given the low 16 bits of word addresses: a block arrives where it belongs exactly when the
      lowest address starts a word and the block starts within what they can select. */
  lemma AddressedRightIff(buffer: seq<Byte>, low: nat, high: nat, pagesize: nat, wordsize: nat, k: nat)
    requires 1 <= wordsize <= 2 && pagesize > 0 && pagesize % wordsize == 0
    requires InRange(buffer, low, high, pagesize) && k < |Blocks(buffer, low, high, pagesize, wordsize)|
    ensures var start := BlockStart(low, k, pagesize);
            SentTo(Blocks(buffer, low, high, pagesize, wordsize)[k], start, wordsize)
            <==> low % wordsize == 0 && start < Reach(wordsize)
  {
    hide Blocks, InRange;
    BlockAt(buffer, low, high, pagesize, wordsize, k);
    var d := k * pagesize;
    BlocksBack(pagesize, k);
    SameWordOffset(low, d, k, pagesize, wordsize);
    WordAddress(low + d, wordsize);
  }

  predicate AllSentRight(blocks: seq<Block>, low: nat, pagesize: nat, wordsize: nat) {
    forall k: nat :: k < |blocks| ==> SentTo(blocks[k], BlockStart(low, k, pagesize), wordsize)
  }

  /** So all blocks do exactly when the lowest address starts a word and the last block starts within that. */
  lemma AllAddressedRightIff(buffer: seq<Byte>, low: nat, high: nat, pagesize: nat, wordsize: nat)
    requires 1 <= wordsize <= 2 && pagesize > 0 && pagesize % wordsize == 0
    requires low < high && InRange(buffer, low, high, pagesize)
    ensures var blocks := Blocks(buffer, low, high, pagesize, wordsize);
            && blocks != []
            && (AllSentRight(blocks, low, pagesize, wordsize)
                <==> low % wordsize == 0 && BlockStart(low, |blocks| - 1, pagesize) < Reach(wordsize))
  {
    hide Blocks, InRange, Reach, SentTo, BlockStart;
    NextBlock(buffer, low, high, pagesize, wordsize);
    var blocks, aligned, reach := Blocks(buffer, low, high, pagesize, wordsize), low % wordsize == 0, Reach(wordsize);
    var last := |blocks| - 1;
    forall k: nat | k < |blocks|
      ensures SentTo(blocks[k], BlockStart(low, k, pagesize), wordsize)
         <==> aligned && BlockStart(low, k, pagesize) < reach
      ensures BlockStart(low, k, pagesize) <= BlockStart(low, last, pagesize)
    {
      AddressedRightIff(buffer, low, high, pagesize, wordsize, k);
      EarlierStart(low, k, last, pagesize);
    }
    assert SentTo(blocks[last], BlockStart(low, last, pagesize), wordsize)
      <==> aligned && BlockStart(low, last, pagesize) < reach;
  }

  lemma EarlierStart(low: nat, k: nat, last: nat, pagesize: nat)
    requires k <= last
    ensures BlockStart(low, k, pagesize) <= BlockStart(low, last, pagesize)
  {
  }

  /** A concrete case, on the ATmega2561: what is meant for address 0x2_0000 is sent to address 0. */
  lemma BlockWraps(buffer: seq<Byte>)
    requires |buffer| == 0x4_0000
    ensures InRange(buffer, 0x2_0000, 0x2_0001, 0x100)
    ensures Blocks(buffer, 0x2_0000, 0x2_0001, 0x100, 2) == [Block(0, buffer[0x2_0000..0x2_0100])]
  {
  }

  lemma SameWordOffset(low: nat, d: nat, k: nat, pagesize: nat, wordsize: nat)
    requires 1 <= wordsize <= 2 && pagesize % wordsize == 0 && d == k * pagesize
    ensures (low + d) % wordsize == low % wordsize
  {
    if wordsize == 2 {
      var half := pagesize / 2;
      assert pagesize == 2 * half;
      EvenOffset(low, d, k, half);
    } else {
      assert low % 1 == 0 && (low + d) % 1 == 0;
    }
  }

  lemma EvenOffset(low: nat, d: nat, k: nat, half: nat)
    requires d == k * (2 * half)
    ensures (low + d) % 2 == low % 2
  {
    var m := k * half;
    assert d == 2 * m;
  }

  lemma WordAddress(start: nat, wordsize: nat)
    requires 1 <= wordsize <= 2
    ensures start / wordsize % 0x1_0000 * wordsize == start <==> start % wordsize == 0 && start < Reach(wordsize)
  {
    if wordsize == 1 {
      DivisionIs(start, start, 1, 0);
    }
  }

  /** Where the programmer reads the byte that the host takes for the one at a. */
  function ReadFrom(a: nat, wordsize: nat): (from: nat)
    requires 1 <= wordsize <= 2
    ensures from <= a && (from == a <==> a < Reach(wordsize))
  {
    Fundamental(a, Reach(wordsize));
    assert a >= Reach(wordsize) ==> a % Reach(wordsize) < a;
    a % Reach(wordsize)
  }

  /** The programmer object, for one segment: flash is addressed in words of two bytes, EEPROM in bytes. */
  class TStk500 {
    const segmentSize: nat
    const wordsize: nat
    var write_buffer: array?<Byte>
    var minaddr: nat
    var maxaddr: nat

    var read_buffer: array?<Byte>
    var page: nat

    /** What has been written so far; and what the memory held when a page of it was last fetched. */
    ghost var writes: seq<(nat, Byte)>
    ghost var seen: seq<Byte>

    ghost predicate Valid()
      reads this, write_buffer
    {
      && (wordsize == 1 || wordsize == 2)
      && (forall i :: 0 <= i < |writes| ==> writes[i].0 < segmentSize)
      && maxaddr == Highest(writes)
      && (write_buffer == null <==> writes == [])
      && (write_buffer != null ==>
            && minaddr == Lowest(writes, segmentSize) && write_buffer.Length == segmentSize
            && forall a: nat :: a < segmentSize ==> write_buffer[a] == LastWritten(writes, a))
    }

    /** The read buffer has what the programmer read for the page it was last filled with. */
    ghost predicate CacheValid()
      reads this, read_buffer
    {
      && (wordsize == 1 || wordsize == 2)
      && (read_buffer != null ==>
            && read_buffer.Length == segmentSize == |seen|
            && forall a: nat :: a < segmentSize && a / 0x100 == page ==>
                 read_buffer[a] == seen[ReadFrom(a, wordsize)])
    }

    constructor (segmentSize: nat, flash: bool)
      ensures Valid() && CacheValid() && writes == [] && read_buffer == null && this.segmentSize == segmentSize
      ensures wordsize == if flash then 2 else 1
    {
      this.segmentSize := segmentSize;
      wordsize := if flash then 2 else 1;
      write_buffer, maxaddr, writes := null, 0, [];
      read_buffer := null;
    }

    /** WriteByte without a flush. */
    method WriteByte(addr: nat, byte: Byte)
      requires Valid() && addr < segmentSize
      modifies this, write_buffer
      ensures Valid() && writes == old(writes) + [(addr, byte)]
      ensures old(write_buffer) == null ==> fresh(write_buffer)
      ensures old(write_buffer) != null ==> write_buffer == old(write_buffer)
    {
      hide LastWritten, Lowest, Highest;
      if write_buffer == null {
        write_buffer := new Byte[segmentSize](_ => 0xFF);
        minaddr := segmentSize;
      }
      WrittenNext(writes, addr, byte, segmentSize);
      NothingWritten(segmentSize);
      writes := writes + [(addr, byte)];
      if addr > maxaddr {
        maxaddr := addr;
      }
      if addr < minaddr {
        minaddr := addr;
      }
      write_buffer[addr] := byte;
    }

    /** ReadByte, while the memory is as given: the byte is the one the memory held when its page was last
        fetched, and the page is fetched now unless it was the last one fetched. So over any sequence of reads
        of an unchanging memory every byte within reach is right, and a change goes unseen until another page is
        read; what is read beyond reach is the byte that the low 16 bits of the word address select. */
    method ReadByte(addr: nat, memory: seq<Byte>) returns (val: Byte)
      requires CacheValid() && addr < segmentSize == |memory| && segmentSize % 0x100 == 0
      modifies this`page, this`read_buffer, this`seen, read_buffer
      ensures CacheValid() && read_buffer != null && page == addr / 0x100
      ensures old(read_buffer) == null ==> fresh(read_buffer)
      ensures old(read_buffer) != null ==> read_buffer == old(read_buffer)
      ensures seen == if old(read_buffer) != null && old(page) == addr / 0x100 then old(seen) else memory
      ensures val == seen[ReadFrom(addr, wordsize)]
    {
      hide ReadFrom;
      PageOfByte(addr, segmentSize);
      if read_buffer == null {
        page := addr / 0x100;
        read_buffer := new Byte[segmentSize](_ => 0);
        ReadMemPage(addr / 0x100 * 0x100, memory);
      }
      var new_page := addr / 0x100;
      if new_page != page {
        page := new_page;
        ReadMemPage(addr / 0x100 * 0x100, memory);
      }
      val := read_buffer[addr];
    }

    /** ReadMemPage: 256 bytes from the word address that the two address bytes give. */
    method ReadMemPage(addr: nat, memory: seq<Byte>)
      requires read_buffer != null && read_buffer.Length == segmentSize == |memory|
      requires wordsize == 1 || wordsize == 2
      requires addr % 0x100 == 0 && addr + 0x100 <= segmentSize
      modifies this`seen, read_buffer
      ensures seen == memory
      ensures forall a: nat :: addr <= a < addr + 0x100 ==> read_buffer[a] == memory[ReadFrom(a, wordsize)]
    {
      hide SentWord, ReadFrom;
      var start := SentWord(addr / wordsize) * wordsize;
      PageReadFrom(addr, wordsize);
      var buf := memory[start..start + 0x100];
      for i := 0 to 0x100
        invariant forall a: nat :: addr <= a < addr + i ==> read_buffer[a] == memory[ReadFrom(a, wordsize)]
      {
        read_buffer[addr + i] := buf[i];
      }
      seen := memory;
    }

    /** FlushWriteBuffer, with the block size as a parameter: what is sent between entering and leaving
        programming mode. */
    method FlushWriteBuffer(pagesize: nat) returns (sent: seq<Block>)
      requires Valid() && write_buffer != null && pagesize > 0
      requires InRange(write_buffer[..], minaddr, maxaddr, pagesize)
      ensures sent == Blocks(write_buffer[..], minaddr, maxaddr, pagesize, wordsize)
    {
      hide Blocks, InRange, SentWord;
      sent := [];
      var addr := minaddr;
      while addr < maxaddr
        invariant InRange(write_buffer[..], addr, maxaddr, pagesize)
        invariant sent + Blocks(write_buffer[..], addr, maxaddr, pagesize, wordsize)
               == Blocks(write_buffer[..], minaddr, maxaddr, pagesize, wordsize)
        decreases maxaddr - addr
      {
        NextBlock(write_buffer[..], addr, maxaddr, pagesize, wordsize);
        var word := addr / wordsize;
        var block := Block(SentWord(word), write_buffer[addr..addr + pagesize]);
        WordBytes(word);
        assert write_buffer[..][addr..addr + pagesize] == write_buffer[addr..addr + pagesize];
        sent := sent + [block];
        addr := addr + pagesize;
      }
      NoBlocks(write_buffer[..], addr, maxaddr, pagesize, wordsize);
    }
  }

  /** A session of reads, in any order, of a memory that does not change: each byte is right exactly when its
      address is within reach or what is read instead is the same. */
  method ReadSession(s: TStk500, addrs: seq<nat>, memory: seq<Byte>) returns (vals: seq<Byte>)
    requires s.CacheValid() && s.segmentSize == |memory| && (s.read_buffer == null || s.seen == memory)
    requires |memory| % 0x100 == 0
    requires forall i :: 0 <= i < |addrs| ==> addrs[i] < |memory|
    modifies s`page, s`read_buffer, s`seen, s.read_buffer
    ensures |vals| == |addrs|
    ensures forall i :: 0 <= i < |addrs| ==> vals[i] == memory[ReadFrom(addrs[i], s.wordsize)]
  {
    hide ReadFrom;
    vals := [];
    for n := 0 to |addrs|
      invariant s.CacheValid() && (s.read_buffer == null || s.seen == memory)
      invariant s.read_buffer == old(s.read_buffer) || fresh(s.read_buffer)
      invariant |vals| == n && forall i :: 0 <= i < n ==> vals[i] == memory[ReadFrom(addrs[i], s.wordsize)]
    {
      var val := s.ReadByte(addrs[n], memory);
      vals := vals + [val];
    }
  }

  lemma PageOfByte(a: nat, size: nat)
    requires a < size && size % 0x100 == 0
    ensures a / 0x100 * 0x100 + 0x100 <= size && a / 0x100 * 0x100 % 0x100 == 0
    ensures forall b: nat :: b / 0x100 == a / 0x100 ==> a / 0x100 * 0x100 <= b < a / 0x100 * 0x100 + 0x100
  {
  }

  lemma WordBytes(w: nat)
    ensures SentWord(w) == w % 0x1_0000
  {
    var q, high, low := ByBytes(w);
  }

  /** The two address bytes of a SetAddress command. */
  function SentWord(w: nat): nat {
    w % 0x100 + 0x100 * (w / 0x100 % 0x100)
  }

  /** The word of a page's address, as sent, is where the programmer reads the page from. */
  lemma PageReadFrom(addr: nat, wordsize: nat)
    requires (wordsize == 1 || wordsize == 2) && addr % 0x100 == 0
    ensures var start := SentWord(addr / wordsize) * wordsize;
            start <= addr && forall a: nat :: addr <= a < addr + 0x100 ==> ReadFrom(a, wordsize) == start + (a - addr)
  {
    hide SentWord, ReadFrom;
    WordBytes(addr / wordsize);
    PageStart(addr, wordsize);
    forall a: nat | addr <= a < addr + 0x100 ensures ReadFrom(a, wordsize) == addr % Reach(wordsize) + (a - addr) {
      ReadInPage(addr, a, wordsize);
    }
    Fundamental(addr, Reach(wordsize));
  }

  lemma ReadInPage(addr: nat, a: nat, wordsize: nat)
    requires 1 <= wordsize <= 2 && addr <= a && addr % Reach(wordsize) + (a - addr) < Reach(wordsize)
    ensures ReadFrom(a, wordsize) == addr % Reach(wordsize) + (a - addr)
  {
    var q, r := addr / Reach(wordsize), addr % Reach(wordsize);
    Fundamental(addr, Reach(wordsize));
    DivisionIs(a, q, Reach(wordsize), r + (a - addr));
  }

  lemma PageStart(addr: nat, wordsize: nat)
    requires (wordsize == 1 || wordsize == 2) && addr % 0x100 == 0
    ensures addr / wordsize % 0x1_0000 * wordsize == addr % Reach(wordsize) <= Reach(wordsize) - 0x100
  {
    var n := addr / 0x100;
    Fundamental(addr, 0x100);
    if wordsize == 1 {
      DivisionIs(addr, addr, 1, 0);
      Fundamental(n, 0x100);
      DivisionIs(addr, n / 0x100, 0x1_0000, 0x100 * (n % 0x100));
    } else {
      Fundamental(n, 0x200);
      var w := 0x80 * n;
      DivisionIs(addr, w, 2, 0);
      DivisionIs(w, n / 0x200, 0x1_0000, 0x80 * (n % 0x200));
      DivisionIs(addr, n / 0x200, 0x2_0000, 0x100 * (n % 0x200));
    }
  }

  /** A concrete case, on the ATmega2561: the byte read for address 0x2_0000 is the one at address 0. */
  method ReadWraps(memory: seq<Byte>) returns (val: Byte)
    requires |memory| == 0x4_0000
    ensures val == memory[0]
  {
    var s := new TStk500(0x4_0000, true);
    val := s.ReadByte(0x2_0000, memory);
  }

  lemma NextBlock(buffer: seq<Byte>, addr: nat, maxaddr: nat, pagesize: nat, wordsize: nat)
    requires pagesize > 0 && wordsize > 0 && InRange(buffer, addr, maxaddr, pagesize) && addr < maxaddr
    ensures addr + pagesize <= |buffer| && InRange(buffer, addr + pagesize, maxaddr, pagesize)
    ensures Blocks(buffer, addr, maxaddr, pagesize, wordsize)
         == [Block(addr / wordsize % 0x1_0000, buffer[addr..addr + pagesize])]
            + Blocks(buffer, addr + pagesize, maxaddr, pagesize, wordsize)
  {
  }

  lemma NoBlocks(buffer: seq<Byte>, addr: nat, maxaddr: nat, pagesize: nat, wordsize: nat)
    requires pagesize > 0 && wordsize > 0 && addr >= maxaddr
    ensures InRange(buffer, addr, maxaddr, pagesize) && Blocks(buffer, addr, maxaddr, pagesize, wordsize) == []
  {
  }

  /** A session: every address that was written is sent, once and with its last value, except the highest
      one if it starts a block. */
  lemma WrittenIsSent(writes: seq<(nat, Byte)>, buffer: seq<Byte>, pagesize: nat, wordsize: nat, i: nat)
    requires i < |writes| && pagesize > 0 && wordsize > 0
    requires forall a: nat :: a < |buffer| ==> buffer[a] == LastWritten(writes, a)
    requires InRange(buffer, Lowest(writes, |buffer|), Highest(writes), pagesize)
    ensures var low, high, a := Lowest(writes, |buffer|), Highest(writes), writes[i].0;
            var blocks := Blocks(buffer, low, high, pagesize, wordsize);
            && low <= a <= high
            && (Sent(blocks, low, a, pagesize) <==> a < high || (high - low) % pagesize != 0)
            && (a < high ==> SentOnceAs(blocks, low, a, pagesize, LastWritten(writes, a)))
  {
    hide Blocks, InRange, LastWritten, Lowest, Highest, Covers;
    var low, high, a := Lowest(writes, |buffer|), Highest(writes), writes[i].0;
    WithinRange(writes, |buffer|, i);
    if a < high {
      SentExactlyOnce(buffer, low, high, pagesize, wordsize, a);
    } else {
      HighestSentIff(buffer, low, high, pagesize, wordsize);
    }
  }
}
