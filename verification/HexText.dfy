/** Text files of hexadecimal records: lines as fgets delivers them, and the two-digit bytes in them. */
module HexText {
  import opened Wrappers

  type Byte = x: int | 0 <= x < 0x100
  type Addr = x: int | 0 <= x < 0x1_0000_0000

  /** Two bytes as a number, high byte first. */
  function Word(high: Byte, low: Byte): (w: int)
    ensures 0 <= w < 0x1_0000
  {
    var h: int := high;
    h * 0x100 + low
  }

  // ---- Lines ----

  /** MI_LINEBUF_SIZE */
  const LINEBUF_SIZE := 128

  /** The line buffer at position p: past the text it holds the terminating NUL. */
  function At(line: string, p: nat): char {
    if p < |line| then line[p] else '\0'
  }

  /** The length of the next line that fgets returns: up to and including the next newline, but never
      more than the buffer holds beside its NUL. */
  function LineLength(file: string, limit: nat): (n: nat)
    ensures n <= |file| && n <= limit
    ensures file != "" && limit > 0 ==> n > 0
  {
    if file == "" || limit == 0 then 0
    else if file[0] == '\n' then 1
    else 1 + LineLength(file[1..], limit - 1)
  }

  /** The lines that repeated calls of fgets deliver. */
  function Fgets(file: string): seq<string>
    decreases |file|
  {
    if file == "" then []
    else
      var n := LineLength(file, LINEBUF_SIZE - 1);
      [file[..n]] + Fgets(file[n..])
  }

  /** A line that fgets reads back whole. */
  predicate IsLine(line: string) {
    && 0 < |line| < LINEBUF_SIZE
    && line[|line| - 1] == '\n'
    && forall i :: 0 <= i < |line| - 1 ==> line[i] != '\n'
  }

  function Concat(lines: seq<string>): string {
    if lines == [] then "" else lines[0] + Concat(lines[1..])
  }

  lemma {:induction false} LineLengthOfLine(line: string, rest: string, limit: nat)
    requires 0 < |line| <= limit && line[|line| - 1] == '\n'
    requires forall i :: 0 <= i < |line| - 1 ==> line[i] != '\n'
    ensures LineLength(line + rest, limit) == |line|
  {
    if line[0] != '\n' {
      assert (line + rest)[1..] == line[1..] + rest;
      LineLengthOfLine(line[1..], rest, limit - 1);
    }
  }

  /** Reading a file written line by line gives the lines back. */
  lemma {:induction false} FgetsConcat(lines: seq<string>)
    requires forall i :: 0 <= i < |lines| ==> IsLine(lines[i])
    ensures Fgets(Concat(lines)) == lines
  {
    if lines != [] {
      var file, rest := Concat(lines), Concat(lines[1..]);
      LineLengthOfLine(lines[0], rest, LINEBUF_SIZE - 1);
      assert file[..|lines[0]|] == lines[0] && file[|lines[0]|..] == rest;
      FgetsConcat(lines[1..]);
    }
  }

  /** What fgets delivers: pieces of the file that give it again, none of them empty or longer than the buffer
      holds, a newline only at the end of one, and at the end of each but the last that does not fill the
      buffer. */
  lemma {:induction false} FgetsIs(file: string)
    ensures Concat(Fgets(file)) == file
    ensures forall i :: 0 <= i < |Fgets(file)| ==> IsPiece(Fgets(file)[i], i == |Fgets(file)| - 1)
    decreases |file|
  {
    hide IsPiece, Fgets, Concat, LineLength;
    if file == "" {
      NoPieces();
    } else {
      var n := LineLength(file, LINEBUF_SIZE - 1);
      FirstOfFgets(file);
      FgetsIs(file[n..]);
      assert file == file[..n] + file[n..];
      PieceIs(file);
    }
  }

  lemma NoPieces()
    ensures Fgets("") == [] && Concat([]) == ""
  {
  }

  lemma FirstOfFgets(file: string)
    requires file != ""
    ensures var n := LineLength(file, LINEBUF_SIZE - 1);
            && 0 < n <= |file| && Fgets(file) == [file[..n]] + Fgets(file[n..])
            && Concat(Fgets(file)) == file[..n] + Concat(Fgets(file[n..]))
  {
    hide LineLength;
    var n := LineLength(file, LINEBUF_SIZE - 1);
    assert Fgets(file)[1..] == Fgets(file[n..]);
  }

  predicate IsPiece(line: string, last: bool) {
    && 0 < |line| < LINEBUF_SIZE && '\n' !in line[..|line| - 1]
    && (last || |line| == LINEBUF_SIZE - 1 || line[|line| - 1] == '\n')
  }

  lemma {:induction false} LineLengthIs(file: string, limit: nat)
    ensures var n := LineLength(file, limit);
            && (forall i :: 0 <= i < n - 1 ==> file[i] != '\n')
            && (n == |file| || n == limit || (n > 0 && file[n - 1] == '\n'))
    decreases limit
  {
    if file != "" && limit > 0 && file[0] != '\n' {
      LineLengthIs(file[1..], limit - 1);
    }
  }

  lemma PieceIs(file: string)
    requires file != ""
    ensures var n := LineLength(file, LINEBUF_SIZE - 1);
            IsPiece(file[..n], Fgets(file[n..]) == [])
  {
    LineLengthIs(file, LINEBUF_SIZE - 1);
  }

  // ---- Hexadecimal ----

  function Upper(c: char): char {
    if 'a' <= c <= 'z' then ((c as int) - 32) as char else c
  }

  function UpperLine(line: string): (u: string)
    ensures |u| == |line|
    ensures forall i :: 0 <= i < |line| ==> u[i] == Upper(line[i])
  {
    seq(|line|, i requires 0 <= i < |line| => Upper(line[i]))
  }

  function Nibble(c: char): Option<int> {
    if '0' <= c <= '9' then Some(c as int - '0' as int)
    else if 'A' <= c <= 'F' then Some(c as int - 'A' as int + 10)
    else if 'a' <= c <= 'f' then Some(c as int - 'a' as int + 10)
    else None
  }

  /** The byte Htoi reads at position p, if the two characters there are hexadecimal digits. */
  function ByteAt(line: string, p: nat): (r: Option<Byte>) {
    match (Nibble(At(line, p)), Nibble(At(line, p + 1)))
    case (Some(h), Some(l)) => Some(16 * h + l)
    case _ => None
  }

  /** The bytes that successive Htoi calls deliver from position p until one throws. */
  function Decode(line: string, p: nat): seq<Byte>
    decreases |line| - p
  {
    if p < |line| && ByteAt(line, p).Some? then [ByteAt(line, p).value] + Decode(line, p + 2) else []
  }

  lemma {:induction false} DecodeAt(line: string, p: nat, i: nat)
    requires i <= |Decode(line, p)|
    ensures ByteAt(line, p + 2 * i) == if i < |Decode(line, p)| then Some(Decode(line, p)[i]) else None
    decreases i
  {
    if i > 0 {
      DecodeAt(line, p + 2, i - 1);
    }
  }

  /** The same letter, in upper and in lower case. */
  predicate CaseOf(lower: char, upper: char) {
    'a' <= lower <= 'z' && 'A' <= upper <= 'Z' && lower as int - 'a' as int == upper as int - 'A' as int
  }

  predicate SameButCase(c: char, d: char) {
    c == d || CaseOf(c, d) || CaseOf(d, c)
  }

  /** What toupper makes the same is the same but for case, and nothing else. */
  lemma UpperIff(c: char, d: char)
    ensures Upper(c) == Upper(d) <==> SameButCase(c, d)
    ensures Upper(c) == c <==> !('a' <= c <= 'z')
  {
  }

  /** A character is a digit of value n exactly when it is that digit, in either case. */
  lemma NibbleIff(c: char, n: int)
    requires 0 <= n < 16
    ensures Nibble(c) == Some(n) <==> SameButCase(c, Digit(n))
    ensures Nibble(c).Some? ==> 0 <= Nibble(c).value < 16
  {
  }

  /** Two texts that differ only in the case of letters. */
  predicate AlikeButCase(f: string, g: string) {
    |f| == |g| && forall i :: 0 <= i < |f| ==> SameButCase(f[i], g[i])
  }

  lemma AlikeUpper(f: string, g: string)
    ensures AlikeButCase(f, g) <==> UpperLine(f) == UpperLine(g)
  {
    hide Upper, SameButCase;
    forall i | 0 <= i < |f| && i < |g| ensures SameButCase(f[i], g[i]) <==> UpperLine(f)[i] == UpperLine(g)[i] {
      UpperIff(f[i], g[i]);
    }
  }

  lemma {:induction false} AlikeLength(f: string, g: string, limit: nat)
    requires AlikeButCase(f, g)
    ensures LineLength(f, limit) == LineLength(g, limit)
    decreases limit
  {
    if f != "" && limit > 0 {
      AlikeLength(f[1..], g[1..], limit - 1);
    }
  }

  /** Their lines do so as well. */
  lemma {:induction false} AlikeLines(f: string, g: string)
    requires AlikeButCase(f, g)
    ensures |Fgets(f)| == |Fgets(g)|
    ensures forall i :: 0 <= i < |Fgets(f)| ==> AlikeButCase(Fgets(f)[i], Fgets(g)[i])
    decreases |f|
  {
    hide SameButCase;
    if f != "" {
      var n := LineLength(f, LINEBUF_SIZE - 1);
      AlikeLength(f, g, LINEBUF_SIZE - 1);
      AlikeLines(f[n..], g[n..]);
    }
  }

  function Digit(n: int): char
    requires 0 <= n < 16
  {
    "0123456789ABCDEF"[n]
  }

  /** "%02X" */
  function Hex2(b: Byte): (s: string)
    ensures |s| == 2
  {
    [Digit(b / 16), Digit(b % 16)]
  }

  function Hex(bytes: seq<Byte>): (s: string)
    ensures |s| == 2 * |bytes|
  {
    if bytes == [] then "" else Hex2(bytes[0]) + Hex(bytes[1..])
  }

  lemma {:induction false} HexSnoc(bytes: seq<Byte>, b: Byte)
    ensures Hex(bytes + [b]) == Hex(bytes) + Hex2(b)
  {
    if bytes == [] {
      assert Hex([b]) == Hex2(b) + "";
    } else {
      assert (bytes + [b])[1..] == bytes[1..] + [b];
      HexSnoc(bytes[1..], b);
    }
  }

  lemma DigitNibble(n: int)
    requires 0 <= n < 16
    ensures Nibble(Digit(n)) == Some(n) && Upper(Digit(n)) == Digit(n) && Digit(n) != '\n'
  {
  }

  lemma {:induction false} HexIsUpper(bytes: seq<Byte>, i: nat)
    requires i < 2 * |bytes|
    ensures Upper(Hex(bytes)[i]) == Hex(bytes)[i] && Hex(bytes)[i] != '\n'
  {
    if i < 2 {
      DigitNibble(bytes[0] / 16);
      DigitNibble(bytes[0] % 16);
    } else {
      HexIsUpper(bytes[1..], i - 2);
    }
  }

  lemma ByteAtHex2(line: string, p: nat, b: Byte)
    requires p + 2 <= |line| && line[p..p + 2] == Hex2(b)
    ensures ByteAt(line, p) == Some(b)
  {
    DigitNibble(b / 16);
    DigitNibble(b % 16);
    assert line[p] == line[p..p + 2][0] && line[p + 1] == line[p..p + 2][1];
  }

  /** Bytes printed in hexadecimal are read back until the first other character. */
  lemma {:induction false} DecodeHex(line: string, p: nat, bytes: seq<Byte>)
    requires p + 2 * |bytes| <= |line| && line[p..p + 2 * |bytes|] == Hex(bytes)
    requires Nibble(At(line, p + 2 * |bytes|)) == None
    ensures Decode(line, p) == bytes
    decreases |bytes|
  {
    hide *;
    if bytes == [] {
      DecodeStops(line, p);
      assert p + 2 * |bytes| == p;
    } else {
      HexFront(line, p, p + 2 * |bytes|, bytes);
      ByteAtHex2(line, p, bytes[0]);
      DecodeGoesOn(line, p);
      DecodeHex(line, p + 2, bytes[1..]);
      assert bytes == [bytes[0]] + bytes[1..];
    }
  }

  lemma HexFront(line: string, p: nat, q: nat, bytes: seq<Byte>)
    requires bytes != [] && p <= q <= |line| && line[p..q] == Hex(bytes)
    ensures p + 2 <= q && line[p..p + 2] == Hex2(bytes[0]) && line[p + 2..q] == Hex(bytes[1..])
  {
    HexUnfolds(bytes);
    hide *;
    var x, y := Hex2(bytes[0]), Hex(bytes[1..]);
    TwoParts(line, p, q, x, y);
  }

  lemma TwoParts(s: string, p: nat, q: nat, x: string, y: string)
    requires p <= q <= |s| && s[p..q] == x + y
    ensures p + |x| <= q && s[p..p + |x|] == x && s[p + |x|..q] == y
  {
    var t := s[p..q];
    assert t[..|x|] == x && t[|x|..] == y;
    assert s[p..p + |x|] == t[..|x|] && s[p + |x|..q] == t[|x|..];
  }

  lemma HexUnfolds(bytes: seq<Byte>)
    requires bytes != []
    ensures Hex(bytes) == Hex2(bytes[0]) + Hex(bytes[1..])
  {
  }

  lemma DecodeStops(line: string, p: nat)
    requires Nibble(At(line, p)) == None
    ensures Decode(line, p) == []
  {
  }

  lemma DecodeGoesOn(line: string, p: nat)
    requires p < |line| && ByteAt(line, p).Some?
    ensures Decode(line, p) == [ByteAt(line, p).value] + Decode(line, p + 2)
  {
  }

  lemma {:induction false} DecodeLength(line: string, p: nat)
    requires p <= |line|
    ensures 2 * |Decode(line, p)| <= |line| - p
    decreases |line| - p
  {
    if p + 1 < |line| {
      DecodeLength(line, p + 2);
    }
  }

  /** One Htoi: the next byte, if there is one. */
  lemma DecodeNext(line: string, p: nat, i: nat)
    requires i <= |Decode(line, p)|
    ensures ByteAt(line, p + 2 * i).Some? <==> i < |Decode(line, p)|
    ensures i < |Decode(line, p)| ==> ByteAt(line, p + 2 * i).value == Decode(line, p)[i]
    ensures i < |Decode(line, p)| ==> Sum(Decode(line, p)[..i + 1]) == Sum(Decode(line, p)[..i]) + Decode(line, p)[i]
  {
    DecodeAt(line, p, i);
    var d := Decode(line, p);
    if i < |d| {
      SumNext(d, i);
    }
  }

  lemma SumNext(d: seq<Byte>, i: nat)
    requires i < |d|
    ensures Sum(d[..i + 1]) == Sum(d[..i]) + d[i]
  {
    assert d[..i + 1][..i] == d[..i];
  }

  // ---- Checksums ----

  function Sum(bytes: seq<Byte>): nat {
    if bytes == [] then 0 else Sum(bytes[..|bytes| - 1]) + bytes[|bytes| - 1]
  }

  lemma SumSnoc(s: seq<Byte>, b: Byte)
    ensures Sum(s + [b]) == Sum(s) + b
  {
    assert (s + [b])[..|s|] == s;
  }

  lemma {:induction false} SumAppend(a: seq<Byte>, b: seq<Byte>)
    ensures Sum(a + b) == Sum(a) + Sum(b)
  {
    if b == [] {
      assert a + b == a;
    } else {
      assert (a + b)[..|a + b| - 1] == a + b[..|b| - 1];
      SumAppend(a, b[..|b| - 1]);
    }
  }
}
