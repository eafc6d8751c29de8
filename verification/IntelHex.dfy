/** Intel HEX files: what one record and one file mean to the reader, and the meaning of a list of
    well-formed records, against which the reader is proved. */
module IntelHex {
  import opened Wrappers
  import opened HexText
  import opened Device

  // ---- Reading ----

  predicate ChecksOut(d: seq<Byte>) {
    Sum(d) % 0x100 == 0
  }

  function Closing(d: seq<Byte>, total: nat): Option<Error> {
    if |d| < total then Some(BadFormat)
    else if !ChecksOut(d[..total]) then Some(BadCheckSum)
    else None
  }

  /** What a line leaves behind: its calls, the base for the lines after it, its exception. */
  datatype LineOutcome = LineOutcome(calls: seq<Call>, base: Addr, error: Option<Error>)

  /** The effect of one line, given its upper-case form: d is what Htoi can read of it (count, address,
      type, payload, checksum); base is what earlier type 02 and 04 records left. */
  function ReadLine(mode: Mode, base: Addr, line: string): LineOutcome {
    var d := Decode(line, 1);
    if At(line, 0) != ':' || |d| < 1 then LineOutcome([], base, Some(BadFormat))
    else if 1 + (d[0] + 1 + 2 + 1 + 1) * 2 > LINEBUF_SIZE then LineOutcome([], base, Some(LineTooLong))
    else if |d| < 4 then LineOutcome([], base, Some(BadFormat))
    else ReadPayload(mode, base, d)
  }

  function ReadPayload(mode: Mode, base: Addr, d: seq<Byte>): LineOutcome
    requires |d| >= 4
  {
    var n: int, kind: int := d[0], d[3];
    var have := if |d| - 4 < n then |d| - 4 else n;
    if kind == 0 then
      LineOutcome(ByteCalls(mode, Advance(base, Word(d[1], d[2])), d[4..4 + have]), base, Closing(d, 5 + n))
    else if kind == 1 || kind == 3 || kind == 5 then LineOutcome([], base, Closing(d, 5 + n))
    else if kind == 2 || kind == 4 then
      if |d| < 6 then LineOutcome([], base, Some(BadFormat))
      else LineOutcome([], Word(d[4], d[5]) * (if kind == 2 then 0x10 else 0x1_0000), Closing(d, 7))
    else LineOutcome([], base, Some(BadRecord))
  }

  /** All lines until one throws; the flush comes after the last. */
  function ReadLines(mode: Mode, base: Addr, lines: seq<string>): Outcome
    decreases |lines|
  {
    if lines == [] then Outcome(FlushCalls(mode), None)
    else
      var first := ReadLine(mode, base, UpperLine(lines[0]));
      if first.error.Some? then Outcome(first.calls, first.error)
      else
        var rest := ReadLines(mode, first.base, lines[1..]);
        Outcome(first.calls + rest.calls, rest.error)
  }

  // ---- Files of well-formed records ----

  datatype Record = Record(offset: int, kind: Byte, data: seq<Byte>)

  /** A record with an address and a count that can be printed. */
  predicate Printable(r: Record) {
    0 <= r.offset < 0x1_0000 && |r.data| < 0x100
  }

  /** A record the reader takes: its line, with CR LF, small enough for the line buffer; a known type;
      and a two-byte payload where the payload is a base. */
  predicate WellFormed(r: Record) {
    && Printable(r)
    && |r.data| <= 57
    && r.kind <= 5
    && (r.kind == 2 || r.kind == 4 ==> |r.data| == 2)
  }

  predicate AllWellFormed(rs: seq<Record>) {
    forall i {:trigger rs[i]} :: 0 <= i < |rs| ==> WellFormed(rs[i])
  }

  function Body(r: Record): seq<Byte>
    requires Printable(r)
  {
    [|r.data|, r.offset / 0x100, r.offset % 0x100, r.kind] + r.data
  }

  /** The two's complement of the sum. */
  function CheckByte(sum: nat): (c: Byte)
    ensures (sum + c) % 0x100 == 0
  {
    if sum % 0x100 == 0 then 0 else 0x100 - sum % 0x100
  }

  /** The record as text, ending its line the way the S-record writer does. */
  function Line(r: Record): string
    requires Printable(r)
  {
    ":" + Hex(Body(r) + [CheckByte(Sum(Body(r)))]) + "\r\n"
  }

  function Lines(rs: seq<Record>): seq<string>
    requires AllWellFormed(rs)
  {
    if rs == [] then [] else [Line(rs[0])] + Lines(rs[1..])
  }

  /** The base in force before record i: that of the latest type 02 (times 16) or 04 (times 65536)
      record among the first i, 0 if there is none. */
  function BaseAt(rs: seq<Record>, i: nat): Addr
    requires i <= |rs| && AllWellFormed(rs)
  {
    if i == 0 then 0
    else
      var r := rs[i - 1];
      if r.kind == 2 then Word(r.data[0], r.data[1]) * 0x10
      else if r.kind == 4 then Word(r.data[0], r.data[1]) * 0x1_0000
      else BaseAt(rs, i - 1)
  }

  /** The calls of record i: the bytes of a data record, from base plus offset on, modulo 2^32. */
  function RecordCalls(mode: Mode, rs: seq<Record>, i: nat): seq<Call>
    requires i < |rs| && AllWellFormed(rs)
  {
    if rs[i].kind == 0 then ByteCalls(mode, Advance(BaseAt(rs, i), rs[i].offset), rs[i].data) else []
  }

  /** The calls of the records from i on, in file order. */
  function CallsFrom(mode: Mode, rs: seq<Record>, i: nat): seq<Call>
    requires i <= |rs| && AllWellFormed(rs)
    decreases |rs| - i
  {
    if i == |rs| then [] else RecordCalls(mode, rs, i) + CallsFrom(mode, rs, i + 1)
  }

  // ---- The reader gives records that meaning ----

  lemma LineCharacters(r: Record, i: nat)
    requires Printable(r) && i < |Line(r)|
    ensures Upper(Line(r)[i]) == Line(r)[i] && (i < |Line(r)| - 1 ==> Line(r)[i] != '\n')
  {
    hide CheckByte, Body;
    var bytes := Body(r) + [CheckByte(Sum(Body(r)))];
    if 1 <= i < |Line(r)| - 2 {
      HexIsUpper(bytes, i - 1);
      assert Line(r)[i] == Hex(bytes)[i - 1];
    }
  }

  lemma LineIsUpper(r: Record)
    requires Printable(r)
    ensures UpperLine(Line(r)) == Line(r)
    ensures |Line(r)| == 2 * |r.data| + 13 && Line(r)[|Line(r)| - 1] == '\n'
  {
    forall i | 0 <= i < |Line(r)| ensures Upper(Line(r)[i]) == Line(r)[i] {
      LineCharacters(r, i);
    }
    assert UpperLine(Line(r)) == Line(r);
  }

  lemma LineIsLine(r: Record)
    requires WellFormed(r)
    ensures IsLine(Line(r)) && UpperLine(Line(r)) == Line(r)
  {
    LineIsUpper(r);
    forall i | 0 <= i < |Line(r)| - 1 ensures Line(r)[i] != '\n' {
      LineCharacters(r, i);
    }
  }

  lemma LineDecodes(r: Record)
    requires Printable(r)
    ensures Decode(Line(r), 1) == Body(r) + [CheckByte(Sum(Body(r)))]
  {
    hide CheckByte, Body;
    var bytes, line := Body(r) + [CheckByte(Sum(Body(r)))], Line(r);
    assert line[1..1 + 2 * |bytes|] == Hex(bytes);
    DecodeHex(line, 1, bytes);
  }

  lemma SumCloses(body: seq<Byte>)
    ensures ChecksOut(body + [CheckByte(Sum(body))])
  {
    hide CheckByte, Sum;
    SumSnoc(body, CheckByte(Sum(body)));
  }

  lemma ReadOneLine(mode: Mode, rs: seq<Record>, i: nat)
    requires i < |rs| && AllWellFormed(rs)
    ensures ReadLine(mode, BaseAt(rs, i), UpperLine(Line(rs[i])))
         == LineOutcome(RecordCalls(mode, rs, i), BaseAt(rs, i + 1), None)
  {
    hide Decode, CheckByte, ChecksOut, Hex, ByteCalls, Sum;
    var r := rs[i];
    var body := Body(r);
    var d := body + [CheckByte(Sum(body))];
    LineIsLine(r);
    LineDecodes(r);
    SumCloses(body);
    assert d[..5 + |r.data|] == d && d[4..4 + |r.data|] == r.data;
    assert Word(d[1], d[2]) == r.offset;
  }

  lemma {:induction false} ReadFrom(mode: Mode, rs: seq<Record>, i: nat)
    requires i <= |rs| && AllWellFormed(rs)
    ensures ReadLines(mode, BaseAt(rs, i), Lines(rs[i..])) == Outcome(CallsFrom(mode, rs, i) + FlushCalls(mode), None)
    decreases |rs| - i
  {
    hide ReadLine, Line, BaseAt, RecordCalls;
    if i == |rs| {
      assert [] + FlushCalls(mode) == FlushCalls(mode);
    } else {
      ReadOneLine(mode, rs, i);
      ReadFrom(mode, rs, i + 1);
      assert rs[i..][0] == rs[i] && rs[i..][1..] == rs[i + 1..];
      assert Lines(rs[i..])[1..] == Lines(rs[i + 1..]);
      var a, b, c := RecordCalls(mode, rs, i), CallsFrom(mode, rs, i + 1), FlushCalls(mode);
      assert a + (b + c) == (a + b) + c;
    }
  }

  lemma {:induction false} LinesAreLines(rs: seq<Record>, i: nat)
    requires i < |rs| && AllWellFormed(rs)
    ensures |Lines(rs)| == |rs| && IsLine(Lines(rs)[i])
    decreases |rs|
  {
    LineIsLine(rs[0]);
    if |rs| > 1 {
      LinesAreLines(rs[1..], if i == 0 then 0 else i - 1);
    }
  }

  /** Every list of well-formed records, printed with right checksums and read back, writes exactly its
      data bytes, each at record offset plus index plus the base in force, in file order and modulo
      2^32, and then flushes. */
  lemma UploadMeaning(mode: Mode, rs: seq<Record>)
    requires AllWellFormed(rs)
    ensures ReadLines(mode, 0, Fgets(Concat(Lines(rs)))) == Outcome(CallsFrom(mode, rs, 0) + FlushCalls(mode), None)
  {
    forall i | 0 <= i < |Lines(rs)| ensures IsLine(Lines(rs)[i]) {
      if rs != [] {
        LinesAreLines(rs, 0);
        LinesAreLines(rs, i);
      }
    }
    FgetsConcat(Lines(rs));
    ReadFrom(mode, rs, 0);
    assert rs[0..] == rs;
  }

  // ---- Which records are taken ----

  /** How many bytes of a record the reader looks at: a base record is taken to have two data bytes, whatever
      its count says. */
  function Extent(d: seq<Byte>): nat
    requires |d| >= 4
  {
    if d[3] == 2 || d[3] == 4 then 7
    else
      var n: int := d[0];
      n + 5
  }

  predicate Complete(d: seq<Byte>) {
    |d| >= 4 && d[0] <= 58 && d[3] <= 5 && Extent(d) <= |d| && ChecksOut(d[..Extent(d)])
  }

  /** A line is taken exactly when it holds a complete record, and then a data record writes its bytes from
      base plus offset on and keeps the base, a base record sets it, and the others do nothing. */
  lemma AcceptedIff(mode: Mode, base: Addr, line: string)
    ensures var d, r := Decode(line, 1), ReadLine(mode, base, line);
            && (r.error.None? <==> At(line, 0) == ':' && Complete(d))
            && (r.error.None? ==>
                  && r.calls == (if d[3] != 0 then []
                                 else ByteCalls(mode, Advance(base, Word(d[1], d[2])), d[4..Extent(d) - 1]))
                  && r.base == if d[3] == 2 then 0x10 * Word(d[4], d[5])
                               else if d[3] == 4 then 0x1_0000 * Word(d[4], d[5])
                               else base)
  {
    hide ByteCalls, Advance, Word, Decode, Sum;
  }

  /** Why a line is not taken: its count is above 58; or it is not, but its type is unknown; or all its bytes are
      there, and the sum is wrong; and for everything else that is missing, the format. */
  lemma ErrorIs(mode: Mode, base: Addr, line: string)
    ensures var d, error := Decode(line, 1), ReadLine(mode, base, line).error;
            var headed := At(line, 0) == ':' && |d| >= 4 && d[0] <= 58;
            && (error == Some(LineTooLong) <==> At(line, 0) == ':' && d != [] && d[0] > 58)
            && (error == Some(BadRecord) <==> headed && d[3] > 5)
            && (error == Some(BadCheckSum) <==>
                  headed && d[3] <= 5 && Extent(d) <= |d| && !ChecksOut(d[..Extent(d)]))
            && error != Some(UnknownFormat)
  {
    hide ByteCalls, Advance, Word, Decode, ChecksOut;
  }

  /** The data bytes of a record that its line holds. */
  function Present(d: seq<Byte>): seq<Byte>
    requires |d| >= 4
  {
    var n: int := d[0];
    d[4..if |d| < 4 + n then |d| else 4 + n]
  }

  /** Whether a line is taken or not, a data record with address and type has written the bytes that are there,
      and no other record anything. */
  lemma EffectComesFirst(mode: Mode, base: Addr, line: string)
    requires At(line, 0) == ':' && |Decode(line, 1)| >= 4 && Decode(line, 1)[0] <= 58
    ensures var d, calls := Decode(line, 1), ReadLine(mode, base, line).calls;
            && (d[3] != 0 ==> calls == [])
            && (d[3] == 0 ==> calls == ByteCalls(mode, Advance(base, Word(d[1], d[2])), Present(d)))
  {
    hide ByteCalls, Advance, Word, Decode, ChecksOut;
  }

  /** The base that lines leave behind. */
  function BaseAfter(mode: Mode, base: Addr, lines: seq<string>): Addr
    decreases |lines|
  {
    if lines == [] then base else BaseAfter(mode, ReadLine(mode, base, UpperLine(lines[0])).base, lines[1..])
  }

  /** Reading stops at the first line that is not taken; the lines before it, and that one, have had their effect;
      there is no flush. */
  lemma {:induction false} StopsAt(mode: Mode, base: Addr, good: seq<string>, bad: string, more: seq<string>)
    returns (calls: seq<Call>)
    requires ReadLines(mode, base, good).error.None?
    requires ReadLine(mode, BaseAfter(mode, base, good), UpperLine(bad)).error.Some?
    ensures ReadLines(mode, base, good).calls == calls + FlushCalls(mode)
    ensures var r := ReadLine(mode, BaseAfter(mode, base, good), UpperLine(bad));
            ReadLines(mode, base, good + [bad] + more) == Outcome(calls + r.calls, r.error)
    decreases |good|
  {
    hide *;
    var lines, r := good + [bad] + more, ReadLine(mode, BaseAfter(mode, base, good), UpperLine(bad));
    if good == [] {
      calls := [];
      StopsHere(mode, base, lines);
      assert lines[0] == bad && [] + r.calls == r.calls && [] + FlushCalls(mode) == FlushCalls(mode);
    } else {
      assert lines[0] == good[0] && lines[1..] == good[1..] + [bad] + more;
      var first := ReadLine(mode, base, UpperLine(good[0]));
      GoesOn(mode, base, good);
      GoesOn(mode, base, lines);
      var rest := StopsAt(mode, first.base, good[1..], bad, more);
      calls := first.calls + rest;
      assert first.calls + (rest + r.calls) == calls + r.calls;
      assert first.calls + (rest + FlushCalls(mode)) == calls + FlushCalls(mode);
    }
  }

  lemma StopsHere(mode: Mode, base: Addr, lines: seq<string>)
    requires lines != []
    ensures BaseAfter(mode, base, []) == base && ReadLines(mode, base, []) == Outcome(FlushCalls(mode), None)
    ensures var r := ReadLine(mode, base, UpperLine(lines[0]));
            r.error.Some? ==> ReadLines(mode, base, lines) == Outcome(r.calls, r.error)
  {
    hide ReadLine;
  }

  lemma GoesOn(mode: Mode, base: Addr, lines: seq<string>)
    requires lines != []
    ensures var first := ReadLine(mode, base, UpperLine(lines[0]));
            var rest := ReadLines(mode, first.base, lines[1..]);
            && BaseAfter(mode, base, lines) == BaseAfter(mode, first.base, lines[1..])
            && (first.error.None? ==> ReadLines(mode, base, lines) == Outcome(first.calls + rest.calls, rest.error))
            && (first.error.Some? ==> ReadLines(mode, base, lines).error.Some?)
  {
    hide ReadLine;
  }

  // ---- How long a record may be ----

  /** fgets cuts a longer line off at the end of the buffer. */
  lemma {:induction false} LineLengthCut(file: string, limit: nat)
    requires |file| >= limit
    requires forall i :: 0 <= i < limit ==> file[i] != '\n'
    ensures LineLength(file, limit) == limit
    decreases limit
  {
    if limit > 0 {
      LineLengthCut(file[1..], limit - 1);
    }
  }

  lemma FirstCount(r: Record)
    requires Printable(r) && |r.data| >= 58
    ensures var first := UpperLine(Line(r)[..127]);
            && Fgets(Line(r)) == [Line(r)[..127]] + Fgets(Line(r)[127..])
            && At(first, 0) == ':' && |Decode(first, 1)| >= 1 && Decode(first, 1)[0] == |r.data|
  {
    var line := Line(r);
    LineIsUpper(r);
    forall i | 0 <= i < 127 ensures line[i] != '\n' && Upper(line[i]) == line[i] {
      LineCharacters(r, i);
    }
    LineLengthCut(line, 127);
    assert UpperLine(line[..127]) == line[..127];
    CountPrinted(r);
    assert line[..127][1..3] == line[1..3];
    ByteAtHex2(line[..127], 1, |r.data|);
  }

  /** The count stands behind the colon. */
  lemma CountPrinted(r: Record)
    requires Printable(r)
    ensures |Line(r)| >= 3 && Line(r)[1..3] == Hex2(|r.data|)
  {
    hide CheckByte, Hex2;
    var bytes := Body(r) + [CheckByte(Sum(Body(r)))];
    assert bytes[0] == |r.data|;
    assert Hex(bytes) == Hex2(bytes[0]) + Hex(bytes[1..]);
    assert Line(r) == ":" + Hex2(bytes[0]) + (Hex(bytes[1..]) + "\r\n");
  }

  /** The length check admits 58 data bytes, but their line leaves no room for its line end, which is
      then read as a line of its own: a printed data record is taken exactly when it has at most 57. */
  lemma LongestRecord(mode: Mode, r: Record)
    requires Printable(r) && r.kind == 0
    ensures ReadLines(mode, 0, Fgets(Line(r))).error.None? <==> |r.data| <= 57
  {
    if |r.data| <= 57 {
      UploadMeaning(mode, [r]);
      assert Lines([r]) == [Line(r)] && Concat([Line(r)]) == Line(r);
    } else {
      FirstCount(r);
      var first, rest := Line(r)[..127], Line(r)[127..];
      var o := ReadLine(mode, 0, UpperLine(first));
      if |r.data| == 58 {
        LineIsUpper(r);
        assert rest == "\r\n";
        LineLengthOfLine(rest, "", 127);
        assert rest + "" == rest && rest[..2] == rest && rest[2..] == "";
        assert Fgets(rest) == ["\r\n"];
        assert At(UpperLine("\r\n"), 0) == '\r';
        assert ReadLine(mode, o.base, UpperLine("\r\n")).error == Some(BadFormat);
        assert Fgets(Line(r))[1..] == ["\r\n"];
      } else {
        assert o.error == Some(LineTooLong);
      }
    }
  }
}
