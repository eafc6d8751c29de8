/** Page mode: bytes collected in the part's page buffer and the flash they will become. Both hosts
    (AvrAtmel and AvrDummy) keep the address of the open page and commit it before opening another. */
module Pages {
  import opened HexText
  import opened Chip

  /** The part's buffer together with the host's note of the open page. */
  datatype Pager = Pager(chip: Chip, pageAddr: nat, fetched: bool)

  predicate Paged(p: Pager) {
    && Valid(p.chip) && p.chip.buffer != []
    && (p.fetched ==> PageOf(p.pageAddr, |p.chip.buffer|) == p.pageAddr)
    && (!p.fetched ==> p.chip.buffer == Erased(|p.chip.buffer|))
  }

  /** The byte waiting in the buffer for flash address a; 0xFF if none. */
  function Pending(p: Pager, a: nat): Byte
    requires Paged(p)
  {
    if p.fetched && PageOf(a, |p.chip.buffer|) == p.pageAddr then p.chip.buffer[a % |p.chip.buffer|] else 0xFF
  }

  /** The flash once the open page is committed. */
  function Eventual(p: Pager): (f: seq<Byte>)
    requires Paged(p)
    ensures |f| == |p.chip.flash|
  {
    seq(|p.chip.flash|, a requires 0 <= a < |p.chip.flash| => And(p.chip.flash[a], Pending(p, a)))
  }

  /** Committing the open page makes its eventual contents actual; afterwards nothing is pending, whatever
      page is opened next. */
  lemma Commit(p: Pager, q: Pager)
    requires Paged(p) && p.fetched
    requires q.chip == WritePage(p.chip, p.pageAddr)
    requires q.fetched ==> PageOf(q.pageAddr, |p.chip.buffer|) == q.pageAddr
    ensures Paged(q) && q.chip.flash == Eventual(p) && Eventual(q) == Eventual(p)
    ensures forall a :: Pending(q, a) == 0xFF
  {
    forall a: nat ensures Pending(q, a) == 0xFF {
    }
    var f := p.chip.flash;
    forall a | 0 <= a < |f| ensures q.chip.flash[a] == Eventual(p)[a] && Eventual(q)[a] == q.chip.flash[a] {
      AndOnes(f[a]);
      AndOnes(q.chip.flash[a]);
    }
  }

  /** With no page open, or an empty one, the flash is what it will be. */
  lemma NothingPending(p: Pager)
    requires Paged(p) && forall a :: 0 <= a < |p.chip.flash| ==> Pending(p, a) == 0xFF
    ensures Eventual(p) == p.chip.flash
  {
    forall a | 0 <= a < |p.chip.flash| ensures Eventual(p)[a] == p.chip.flash[a] {
      AndOnes(p.chip.flash[a]);
    }
  }

  /** Opening a page changes nothing. */
  lemma Open(p: Pager, pageAddr: nat)
    requires Paged(p) && !p.fetched && PageOf(pageAddr, |p.chip.buffer|) == pageAddr
    ensures var q := p.(pageAddr := pageAddr, fetched := true);
            Paged(q) && Eventual(q) == Eventual(p) && forall a :: Pending(q, a) == 0xFF
  {
  }

  /** Loading a byte at an address of the open page: it replaces what waits for that address, and will be
      programmed into the flash as it is now. */
  lemma ReplaceCell(p: Pager, a: nat, b: Byte)
    requires Paged(p) && p.fetched && PageOf(a, |p.chip.buffer|) == p.pageAddr && a < |p.chip.flash|
    ensures var q := p.(chip := Load(p.chip, a, b));
            && Paged(q) && Eventual(q) == Eventual(p)[a := And(p.chip.flash[a], b)]
            && forall i :: Pending(q, i) == if i == a then b else Pending(p, i)
  {
    var q, size := p.(chip := Load(p.chip, a, b)), |p.chip.buffer|;
    forall i: nat ensures Pending(q, i) == if i == a then b else Pending(p, i) {
      if i != a && PageOf(i, size) == p.pageAddr && i % size == a % size {
        SameCell(a, i, size);
      }
    }
  }

  /** With nothing waiting for the address, that programs the byte into what the flash will be. */
  lemma FillCell(p: Pager, a: nat, b: Byte)
    requires Paged(p) && p.fetched && PageOf(a, |p.chip.buffer|) == p.pageAddr && a < |p.chip.flash|
    requires Pending(p, a) == 0xFF
    ensures var q := p.(chip := Load(p.chip, a, b));
            && Paged(q) && Eventual(q) == Eventual(p)[a := And(Eventual(p)[a], b)]
            && forall i :: Pending(q, i) == if i == a then b else Pending(p, i)
  {
    ReplaceCell(p, a, b);
    FreeCell(p, a);
  }

  lemma FreeCell(p: Pager, a: nat)
    requires Paged(p) && a < |p.chip.flash| && Pending(p, a) == 0xFF
    ensures Eventual(p)[a] == p.chip.flash[a]
  {
    AndOnes(p.chip.flash[a]);
  }

  /** Addresses in one page that select the same byte are the same. */
  lemma SameOffset(a: nat, x: nat, size: nat)
    requires size > 0 && REACH % size == 0 && PageOf(a, size) == PageOf(x, size) && Selected(a) == Selected(x)
    ensures a == x
  {
    hide PageOf, Selected;
    SelectedPage(a, size);
    SelectedPage(x, size);
    SameCell(a, x, size);
  }

  // ---- Bytes programmed one by one ----

  /** The flash after the bytes are programmed into it one by one. */
  function Programmed(flash: seq<Byte>, bytes: seq<(nat, Byte)>): (f: seq<Byte>)
    ensures |f| == |flash|
    decreases |bytes|
  {
    if bytes == [] then flash else Programmed(Programs(flash, bytes[0].0, bytes[0].1), bytes[1..])
  }

  /** No two of the bytes are for the same address. */
  predicate Distinct(bytes: seq<(nat, Byte)>) {
    forall i, j :: 0 <= i < j < |bytes| ==> bytes[i].0 != bytes[j].0
  }

  /** Bytes for the same address are the same. */
  predicate Agreeing(bytes: seq<(nat, Byte)>) {
    forall i, j :: 0 <= i < j < |bytes| && bytes[i].0 == bytes[j].0 ==> bytes[i].1 == bytes[j].1
  }

  lemma DistinctRest(bytes: seq<(nat, Byte)>)
    requires bytes != [] && Distinct(bytes)
    ensures Distinct(bytes[1..]) && forall i :: 0 <= i < |bytes[1..]| ==> bytes[1..][i].0 != bytes[0].0
  {
  }

  /** A cell that no byte is for stays as it is. */
  lemma {:induction false} Untouched(flash: seq<Byte>, bytes: seq<(nat, Byte)>, a: nat)
    requires a < |flash| && forall i :: 0 <= i < |bytes| ==> bytes[i].0 != a
    ensures Programmed(flash, bytes)[a] == flash[a]
    decreases |bytes|
  {
    hide And;
    if bytes != [] {
      Untouched(Programs(flash, bytes[0].0, bytes[0].1), bytes[1..], a);
    }
  }

  lemma {:induction false} AndAgain(x: Byte, y: Byte)
    ensures And(And(x, y), y) == And(x, y)
  {
    if x != 0 && y != 0 {
      AndAgain(x / 2, y / 2);
      AndHalves(x, y);
    }
  }

  /** A cell that a byte is for gets that byte, as far as programming goes, however often. */
  lemma {:induction false} AgreedCell(flash: seq<Byte>, bytes: seq<(nat, Byte)>, a: nat, i: nat)
    requires a < |flash| && Agreeing(bytes) && i < |bytes| && bytes[i].0 == a
    ensures Programmed(flash, bytes)[a] == And(flash[a], bytes[i].1)
    decreases |bytes|
  {
    hide And, Programmed;
    var f, rest := Programs(flash, bytes[0].0, bytes[0].1), bytes[1..];
    FirstProgrammed(flash, bytes);
    AgreeingRest(bytes);
    if i > 0 {
      assert rest[i - 1] == bytes[i];
    }
    if j :| 0 <= j < |rest| && rest[j].0 == a {
      AgreedCell(f, rest, a, j);
      assert rest[j] == bytes[j + 1];
      AndAgain(flash[a], bytes[i].1);
    } else {
      Untouched(f, rest, a);
    }
  }

  lemma FirstProgrammed(flash: seq<Byte>, bytes: seq<(nat, Byte)>)
    requires bytes != []
    ensures Programmed(flash, bytes) == Programmed(Programs(flash, bytes[0].0, bytes[0].1), bytes[1..])
  {
  }

  lemma AgreeingRest(bytes: seq<(nat, Byte)>)
    requires bytes != [] && Agreeing(bytes)
    ensures Agreeing(bytes[1..])
  {
  }

  lemma ProgrammedBytes(flash: seq<Byte>, bytes: seq<(nat, Byte)>, a: nat)
    requires Distinct(bytes) && a < |flash|
    ensures forall i :: 0 <= i < |bytes| && bytes[i].0 == a ==> Programmed(flash, bytes)[a] == And(flash[a], bytes[i].1)
    ensures (forall i :: 0 <= i < |bytes| ==> bytes[i].0 != a) ==> Programmed(flash, bytes)[a] == flash[a]
  {
    hide Programmed, And;
    if i :| 0 <= i < |bytes| && bytes[i].0 == a {
      AgreedCell(flash, bytes, a, i);
    } else {
      Untouched(flash, bytes, a);
    }
  }

  /** The bytes, each at the address it selects. */
  function Selections(bytes: seq<(nat, Byte)>): (sel: seq<(nat, Byte)>)
    ensures |sel| == |bytes| && forall i :: 0 <= i < |bytes| ==> sel[i] == (Selected(bytes[i].0), bytes[i].1)
  {
    seq(|bytes|, i requires 0 <= i < |bytes| => (Selected(bytes[i].0), bytes[i].1))
  }

  predicate BytesWithin(bytes: seq<(nat, Byte)>) {
    forall i :: 0 <= i < |bytes| ==> bytes[i].0 < REACH
  }

  lemma WithinSelected(bytes: seq<(nat, Byte)>)
    requires BytesWithin(bytes)
    ensures Selections(bytes) == bytes
  {
    hide Selected;
    forall i | 0 <= i < |bytes| ensures Selections(bytes)[i] == bytes[i] {
    }
  }

  lemma NoneProgrammed(flash: seq<Byte>, bytes: seq<(nat, Byte)>)
    requires bytes == []
    ensures Programmed(flash, bytes) == flash
  {
  }
}
