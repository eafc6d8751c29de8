/** The printf of tos/interfaces/SOdebug.h and tos/platform/atm1281/SOdebug.h, on a machine with 16-bit int
    and 32-bit long. */
module Printf {
  import opened DivMod
  import opened Wrappers
  import HexText

  // ---- Numerals ----

  function Pow(b: nat, w: nat): nat {
    if w == 0 then 1 else Pow(b, w - 1) * b
  }

  /** The last w digits of n, most significant first. */
  function Fixed(n: nat, base: nat, w: nat): (s: string)
    requires 2 <= base <= 16
    ensures |s| == w
  {
    if w == 0 then "" else Fixed(n / base, base, w - 1) + [HexText.Digit(n % base)]
  }

  /** The decimal numeral of n. */
  function Decimal(n: nat): (s: string)
    ensures |s| >= 1
  {
    if n < 10 then [HexText.Digit(n)] else Decimal(n / 10) + [HexText.Digit(n % 10)]
  }

  function DigitValue(c: char): int {
    if '0' <= c <= '9' then c as int - '0' as int
    else if 'A' <= c <= 'F' then c as int - 'A' as int + 10
    else -1
  }

  /** The value of a numeral, digit by digit from the left. */
  function Eval(s: string, base: nat): int {
    if s == "" then 0 else Eval(s[..|s| - 1], base) * base + DigitValue(s[|s| - 1])
  }

  lemma DigitHasValue(n: int)
    requires 0 <= n < 16
    ensures DigitValue(HexText.Digit(n)) == n
  {
  }

  lemma {:induction false} FixedEvaluates(n: nat, base: nat, w: nat)
    requires 2 <= base <= 16 && n < Pow(base, w)
    ensures Eval(Fixed(n, base, w), base) == n
    ensures forall i :: 0 <= i < w ==> 0 <= DigitValue(Fixed(n, base, w)[i]) < base
    decreases w
  {
    if w > 0 {
      Fundamental(n, base);
      QuotientBelow(n, base, Pow(base, w - 1));
      FixedEvaluates(n / base, base, w - 1);
      DigitHasValue(n % base);
      assert Fixed(n, base, w)[..w - 1] == Fixed(n / base, base, w - 1);
    }
  }

  lemma QuotientBelow(n: nat, base: nat, p: nat)
    requires base > 0 && n < p * base
    ensures n / base < p
  {
  }

  lemma MulMonotone(p: nat, q: nat, b: nat)
    requires p <= q
    ensures p * b <= q * b
  {
  }

  lemma {:induction false} DecimalEvaluates(n: nat)
    ensures Eval(Decimal(n), 10) == n
    ensures |Decimal(n)| > 1 ==> Decimal(n)[0] != '0'
    ensures n == 0 <==> Decimal(n)[0] == '0'
  {
    if n < 10 {
      DigitHasValue(n);
      assert Decimal(n)[..0] == "";
    } else {
      DecimalEvaluates(n / 10);
      DigitHasValue(n % 10);
      assert Decimal(n)[..|Decimal(n)| - 1] == Decimal(n / 10);
    }
  }

  /** The decimal numeral is the last w digits, for the least w with n below 10^w. */
  lemma {:induction false} DecimalIsFixed(n: nat, w: nat)
    requires w >= 1 && n < Pow(10, w) && (w > 1 ==> n >= Pow(10, w - 1))
    ensures Decimal(n) == Fixed(n, 10, w)
    decreases w
  {
    if w == 1 {
      assert Pow(10, 1) == Pow(10, 0) * 10;
      assert Fixed(n / 10, 10, 0) == "";
    } else {
      var p := Pow(10, w - 2);
      assert Pow(10, w - 1) == p * 10 && Pow(10, w) == Pow(10, w - 1) * 10;
      PowPositive(10, w - 2);
      if w == 2 {
        assert p == 1;
      }
      DecimalIsFixed(n / 10, w - 1);
    }
  }

  lemma {:induction false} PowPositive(b: nat, w: nat)
    requires b > 0
    ensures Pow(b, w) > 0
  {
    if w > 0 {
      PowPositive(b, w - 1);
    }
  }

  /** n is q times p and r more. */
  predicate Splits(n: nat, q: nat, p: nat, r: nat) {
    r < p && n == q * p + r
  }

  /** Emitting the leading digit first, where base^(w-1) splits n into q and r. */
  lemma {:induction false} FixedFront(n: nat, base: nat, w: nat, q: nat, r: nat)
    requires 2 <= base <= 16 && w >= 1 && q < base && Splits(n, q, Pow(base, w - 1), r)
    ensures Fixed(n, base, w) == [HexText.Digit(q)] + Fixed(r, base, w - 1)
    decreases w
  {
    hide *;
    if w == 1 {
      OneDigit(n, base, q, r);
    } else {
      var m, r1, d := FrontStep(n, base, w, q, r);
      FixedLast(n, base, w, m, d);
      FixedLast(r, base, w - 1, r1, d);
      FixedFront(m, base, w - 1, q, r1);
    }
  }

  lemma OneDigit(n: nat, base: nat, q: nat, r: nat)
    requires 2 <= base <= 16 && q < base && Splits(n, q, Pow(base, 0), r)
    ensures Fixed(n, base, 1) == [HexText.Digit(q)] + Fixed(r, base, 0)
  {
    FixedLast(q, base, 1, 0, q);
    NoDigits(0, base);
    NoDigits(r, base);
  }

  /** The last digit stands behind the others. */
  lemma FixedLast(n: nat, base: nat, w: nat, m: nat, d: nat)
    requires 2 <= base <= 16 && w >= 1 && Splits(n, m, base, d)
    ensures d < base && Fixed(n, base, w) == Fixed(m, base, w - 1) + [HexText.Digit(d)]
  {
    DivisionIs(n, m, base, d);
  }

  /** Dropping the last digit keeps the leading one in front. */
  lemma FrontStep(n: nat, base: nat, w: nat, q: nat, r: nat) returns (m: nat, r1: nat, d: nat)
    requires base >= 2 && w >= 2 && Splits(n, q, Pow(base, w - 1), r)
    ensures Splits(m, q, Pow(base, w - 2), r1) && Splits(n, m, base, d) && Splits(r, r1, base, d)
  {
    var p2 := Pow(base, w - 2);
    PowTimes(base, w - 2);
    hide Pow;
    m, r1, d := DropDigit(n, base, p2, q, r);
  }

  lemma PowTimes(base: nat, w: nat)
    ensures Pow(base, w + 1) == Pow(base, w) * base
  {
  }

  lemma DropDigit(n: nat, base: nat, p2: nat, q: nat, r: nat) returns (m: nat, r1: nat, d: nat)
    requires base >= 2 && Splits(n, q, p2 * base, r)
    ensures Splits(m, q, p2, r1) && Splits(n, m, base, d) && Splits(r, r1, base, d)
  {
    r1, d := r / base, r % base;
    m := q * p2 + r1;
    Fundamental(r, base);
    QuotientBelow(r, base, p2);
    Regroup(n, q, p2, base, r1, d);
  }

  lemma Regroup(n: nat, q: nat, p: nat, b: nat, r: nat, d: nat)
    requires n == q * (p * b) + (r * b + d)
    ensures n == (q * p + r) * b + d
  {
  }

  /** div_val /= base, down to 0 behind the last digit. */
  lemma NextDivisor(base: nat, k: nat)
    requires base >= 2 && k >= 1
    ensures Pow(base, k - 1) / base == (if k == 1 then 0 else Pow(base, k - 2))
    ensures k >= 2 ==> Pow(base, k - 1) >= 2 && Pow(base, k - 2) > 0
  {
    if k == 1 {
      DivisionIs(1, 0, base, 1);
    } else {
      PowPositive(base, k - 2);
      DivisionIs(Pow(base, k - 1), Pow(base, k - 2), base, 0);
      MulMonotone(1, Pow(base, k - 2), base);
    }
  }

  lemma EmitStep(u: nat, base: nat, k: nat, d: nat, q: nat, r: nat)
    requires 2 <= base <= 16 && k >= 1 && u < Pow(base, k) && d == Pow(base, k - 1)
    requires u == q * d + r && r < d
    ensures q < base && HexText.Digit(q) != '\n'
    ensures Fixed(u, base, k) == [HexText.Digit(q)] + Fixed(r, base, k - 1)
  {
    assert Pow(base, k) == d * base;
    if q >= base {
      MulMonotone(base, q, d);
      assert false;
    }
    hide Pow, Fixed;
    DigitHasValue(q);
    FixedFront(u, base, k, q, r);
  }

  lemma NoDigits(r: nat, base: nat)
    requires 2 <= base <= 16
    ensures Fixed(r, base, 0) == ""
  {
  }

  lemma Powers()
    ensures Pow(10, 4) == 10000 && Pow(10, 5) == 100000 && Pow(10, 9) == 1000000000 && Pow(10, 10) == 10000000000
    ensures Pow(8, 5) == 0x8000 && Pow(8, 6) == 0x4_0000 && Pow(8, 10) == 0x4000_0000 && Pow(8, 11) == 0x2_0000_0000
    ensures Pow(16, 3) == 0x1000 && Pow(16, 4) == 0x1_0000 && Pow(16, 7) == 0x1000_0000 && Pow(16, 8) == 0x1_0000_0000
  {
  }

  lemma LowHalf(v: int)
    ensures Unsigned32(v) % 0x1_0000 == v % 0x1_0000
  {
  }

  /** The magnitude of a negative number, by negation in 32 bits. */
  lemma Negation(v: int)
    requires -0x8000_0000 <= v < 0x8000_0000
    ensures v >= 0 ==> Unsigned32(v) == v
    ensures v < 0 ==> Unsigned32(0 - Unsigned32(v)) == -v
  {
    hide Unsigned32;
    NonNegative(v);
    if v < 0 {
      Wraps(v, -1, v + 0x1_0000_0000);
      Wraps(0 - Unsigned32(v), -1, -v);
    }
  }

  lemma NonNegative(v: int)
    requires -0x8000_0000 <= v < 0x8000_0000
    ensures v >= 0 ==> Unsigned32(v) == v
  {
    hide Unsigned32;
    if v >= 0 {
      Wraps(v, 0, v);
    }
  }

  lemma Wraps(v: int, k: int, r: nat)
    requires v == k * 0x1_0000_0000 + r && r < 0x1_0000_0000
    ensures Unsigned32(v) == r
  {
  }

  // ---- What a call prints ----

  /** The arguments as va_arg delivers them: int is 16 bits wide, long 32. */
  datatype Arg = Int(v: int) | Long(v: int) | Char(c: char) | Str(s: string)

  predicate Fits(a: Arg) {
    && (a.Int? ==> -0x8000 <= a.v < 0x8000)
    && (a.Long? ==> -0x8000_0000 <= a.v < 0x8000_0000)
  }

  function Unsigned32(v: int): (u: nat)
    ensures u < 0x1_0000_0000
  {
    v % 0x1_0000_0000
  }

  predicate IsConversion(c: char) {
    c == 'o' || c == 'u' || c == 'i' || c == 'd' || c == 'x'
  }

  /** The argument suits the conversion; %u and %o of a negative int do not work (see IndexInBounds). */
  predicate Suits(long: bool, c: char, a: Arg) {
    && Fits(a) && (if long then a.Long? else a.Int?)
    && (!long && (c == 'u' || c == 'o') ==> a.v >= 0)
  }

  /** A number as printed: d and i without leading zeros, the others in all digits of their type. */
  function Number(long: bool, c: char, v: int): string {
    if c == 'd' || c == 'i' then (if v < 0 then "-" else "") + Decimal(if v < 0 then -v else v)
    else if c == 'u' then Fixed(Unsigned32(v), 10, if long then 10 else 5)
    else if c == 'o' then Fixed(Unsigned32(v), 8, if long then 11 else 6)
    else if long then Fixed(Unsigned32(v), 16, 8)
    else Fixed(v % 0x1_0000, 16, 4)
  }

  function Base(c: char): nat {
    if c == 'o' then 8 else if c == 'x' then 16 else 10
  }

  /** What the printed digits stand for: the magnitude for d and i, otherwise the argument read as unsigned,
      in 16 bits for x without l. */
  function Meant(long: bool, c: char, v: int): nat {
    if c == 'd' || c == 'i' then (if v < 0 then -v else v)
    else if c == 'x' && !long then v % 0x1_0000
    else v % 0x1_0000_0000
  }

  /** A printed number evaluates to its argument: a minus sign exactly for a negative d or i, then digits of
      its base with the right value, for d and i without leading zeros. */
  lemma NumberEvaluates(long: bool, c: char, v: int)
    requires IsConversion(c) && Suits(long, c, if long then Long(v) else Int(v))
    ensures var s, negative := Number(long, c, v), (c == 'd' || c == 'i') && v < 0;
            && s != "" && (s[0] == '-' <==> negative)
            && var digits := if negative then s[1..] else s;
               && Eval(digits, Base(c)) == Meant(long, c, v)
               && (forall i :: 0 <= i < |digits| ==> 0 <= DigitValue(digits[i]) < Base(c))
               && (c == 'd' || c == 'i' ==> |digits| > 1 ==> digits[0] != '0')
    ensures !long && c != 'x' && v >= 0 ==> Meant(long, c, v) == v
  {
    hide Fixed, Decimal, Pow, Eval, DigitValue;
    Powers();
    MinusIsNoDigit();
    if c == 'd' || c == 'i' {
      var n := if v < 0 then -v else v;
      DecimalEvaluates(n);
      DecimalDigits(n);
      assert ("-" + Decimal(n))[1..] == Decimal(n) && "" + Decimal(n) == Decimal(n);
    } else {
      var w := |Number(long, c, v)|;
      NonNegative(v);
      FixedEvaluates(Meant(long, c, v), Base(c), w);
    }
  }

  /** How many digits the conversions print that print all digits of their type. */
  function AllDigits(long: bool, c: char): nat {
    if c == 'u' then (if long then 10 else 5)
    else if c == 'o' then (if long then 11 else 6)
    else (if long then 8 else 4)
  }

  predicate IsDigits(s: string, base: nat) {
    forall i :: 0 <= i < |s| ==> 0 <= DigitValue(s[i]) < base
  }

  /** A numeral of the argument: a minus sign exactly for a negative d or i; then digits of the conversion's base
      with the value meant; no leading zero for d and i, and all digits of the type for the others. */
  predicate IsNumeral(long: bool, c: char, v: int, t: string) {
    var signed, negative := c == 'd' || c == 'i', (c == 'd' || c == 'i') && v < 0;
    && t != "" && (t[0] == '-' <==> negative)
    && var digits := if negative then t[1..] else t;
       && IsDigits(digits, Base(c)) && Eval(digits, Base(c)) == Meant(long, c, v)
       && if signed then digits != "" && (|digits| > 1 ==> digits[0] != '0') else |digits| == AllDigits(long, c)
  }

  lemma ValueHasDigit(c: char)
    requires 0 <= DigitValue(c) < 16
    ensures HexText.Digit(DigitValue(c)) == c
  {
  }

  /** Digits are determined by their value and their number ... */
  lemma {:induction false} FixedIsUnique(t: string, base: nat)
    requires 2 <= base <= 16 && IsDigits(t, base)
    ensures Eval(t, base) >= 0 && t == Fixed(Eval(t, base), base, |t|)
    decreases |t|
  {
    if t == "" {
      NoDigits(0, base);
    } else {
      hide *;
      var front, last := t[..|t| - 1], t[|t| - 1];
      LastDigit(t, base);
      FixedIsUnique(front, base);
      ValueHasDigit(last);
      var m, n, d := Eval(t, base), Eval(front, base), DigitValue(last);
      SplitsLast(m, n, base, d);
      FixedLast(m, base, |t|, n, d);
    }
  }

  lemma LastDigit(t: string, base: nat)
    requires t != "" && IsDigits(t, base)
    ensures var front, d := t[..|t| - 1], DigitValue(t[|t| - 1]);
            && IsDigits(front, base) && 0 <= d < base && t == front + [t[|t| - 1]]
            && Eval(t, base) == Eval(front, base) * base + d
  {
    hide DigitValue;
  }

  lemma SplitsLast(m: int, n: nat, base: nat, d: nat)
    requires d < base && m == n * base + d
    ensures m >= 0 && Splits(m, n, base, d)
  {
  }

  /** ... and without a leading zero by their value. */
  lemma {:induction false} DecimalIsUnique(t: string)
    requires IsDigits(t, 10) && t != "" && (|t| > 1 ==> t[0] != '0')
    ensures Eval(t, 10) >= 0 && t == Decimal(Eval(t, 10))
    decreases |t|
  {
    hide Decimal, DigitValue;
    var front, last := t[..|t| - 1], t[|t| - 1];
    ValueHasDigit(last);
    assert t == front + [last];
    if |t| == 1 {
      assert Eval(front, 10) == 0;
      DecimalOfDigit(DigitValue(last));
    } else {
      DecimalIsUnique(front);
      DecimalEvaluates(Eval(front, 10));
      DecimalOfMore(Eval(front, 10), DigitValue(last));
    }
  }

  lemma DecimalOfDigit(d: nat)
    requires d < 10
    ensures Decimal(d) == [HexText.Digit(d)]
  {
  }

  lemma DecimalOfMore(n: nat, d: nat)
    requires n > 0 && d < 10
    ensures Decimal(n * 10 + d) == Decimal(n) + [HexText.Digit(d)]
  {
    DivisionIs(n * 10 + d, n, 10, d);
  }

  /** A number is printed as the one numeral of the argument. */
  lemma NumberIff(long: bool, c: char, v: int, t: string)
    requires IsConversion(c) && Suits(long, c, if long then Long(v) else Int(v))
    ensures t == Number(long, c, v) <==> IsNumeral(long, c, v, t)
    ensures !long && c != 'x' && v >= 0 ==> Meant(long, c, v) == v
  {
    hide Fixed, Decimal, Pow, Eval, DigitValue, IsDigits;
    var s := Number(long, c, v);
    NumberEvaluates(long, c, v);
    NumberIsNumeral(long, c, v);
    if IsNumeral(long, c, v, t) {
      if c == 'd' || c == 'i' {
        var digits := if v < 0 then t[1..] else t;
        DecimalIsUnique(digits);
        assert v < 0 ==> t == "-" + digits;
        assert v >= 0 ==> "" + digits == t;
      } else {
        NonNegative(v);
        FixedIsUnique(t, Base(c));
      }
    }
  }

  lemma NumberIsNumeral(long: bool, c: char, v: int)
    requires IsConversion(c) && Suits(long, c, if long then Long(v) else Int(v))
    ensures IsNumeral(long, c, v, Number(long, c, v))
  {
    hide Fixed, Decimal, Pow, Eval, DigitValue;
    NumberEvaluates(long, c, v);
    NumberLength(long, c, v);
  }

  lemma NumberLength(long: bool, c: char, v: int)
    requires IsConversion(c)
    ensures var s := Number(long, c, v);
            if c == 'd' || c == 'i' then |s| > (if v < 0 then 1 else 0) else |s| == AllDigits(long, c)
  {
    hide Fixed, Decimal;
  }

  lemma MinusIsNoDigit()
    ensures DigitValue('-') < 0
  {
  }

  lemma {:induction false} DecimalDigits(n: nat)
    ensures forall i :: 0 <= i < |Decimal(n)| ==> 0 <= DigitValue(Decimal(n)[i]) < 10
  {
    DigitHasValue(n % 10);
    if n >= 10 {
      DecimalDigits(n / 10);
    }
  }

  /** UARTPutChar: a newline is sent as newline says, "\r" in SOdebug.h, "\r\n" in its atm1281 version. */
  function Emit(newline: string, c: char): string {
    if c == '\n' then newline else [c]
  }

  function EmitAll(newline: string, s: string): string {
    if s == "" then "" else EmitAll(newline, s[..|s| - 1]) + Emit(newline, s[|s| - 1])
  }

  /** A C text ends at its first NUL; one always stands behind the characters of s. */
  predicate AtEnd(s: string, p: nat) {
    p >= |s| || s[p] == '\0'
  }

  function CText(s: string): string {
    if AtEnd(s, 0) then "" else [s[0]] + CText(s[1..])
  }

  datatype Rendering = Ill | Text(t: string)

  function Prepend(s: string, r: Rendering): Rendering {
    if r.Text? then Text(s + r.t) else Ill
  }

  /** The meaning of a format from position p on, with the arguments from a on: literals and rendered
      arguments in order. Ill is a trailing %, an l before anything but a conversion, or an argument that
      is missing or does not suit. */
  function Render(newline: string, f: string, p: nat, args: seq<Arg>, a: nat): Rendering
    decreases |f| - p
  {
    if AtEnd(f, p) then Text("")
    else if f[p] != '%' then Prepend(Emit(newline, f[p]), Render(newline, f, p + 1, args, a))
    else if AtEnd(f, p + 1) then Ill
    else AfterPercent(newline, f, p + 1, args, a)
  }

  function AfterPercent(newline: string, f: string, p: nat, args: seq<Arg>, a: nat): Rendering
    requires p < |f|
    decreases |f| - p
  {
    var c := f[p];
    if c == 'l' then (if p + 1 < |f| then AfterL(newline, f, p + 1, args, a) else Ill)
    else if IsConversion(c) then
      if a < |args| && Suits(false, c, args[a]) then
        Prepend(Number(false, c, args[a].v), Render(newline, f, p + 1, args, a + 1))
      else Ill
    else if c == 'c' then
      if a < |args| && args[a].Char? then
        Prepend(Emit(newline, args[a].c), Render(newline, f, p + 1, args, a + 1))
      else Ill
    else if c == 's' || c == 'S' then
      if a < |args| && args[a].Str? then
        Prepend(EmitAll(newline, CText(args[a].s)), Render(newline, f, p + 1, args, a + 1))
      else Ill
    else Prepend(Emit(newline, c), Render(newline, f, p + 1, args, a))
  }

  function AfterL(newline: string, f: string, p: nat, args: seq<Arg>, a: nat): Rendering
    requires p < |f|
    decreases |f| - p
  {
    if IsConversion(f[p]) && a < |args| && Suits(true, f[p], args[a]) then
      Prepend(Number(true, f[p], args[a].v), Render(newline, f, p + 1, args, a + 1))
    else Ill
  }

  /** What is still to be printed, between two turns of the interpreter's loop. */
  function Rest(newline: string, f: string, p: nat, args: seq<Arg>, a: nat, longNumber: bool): Rendering {
    if !longNumber then Render(newline, f, p, args, a)
    else if p < |f| then AfterL(newline, f, p, args, a)
    else Ill
  }

  // ---- The meaning of a format, piece by piece ----

  /** What a format is made of, together with the arguments. */
  datatype Piece =
    | Itself(c: char)                             // a character other than a percent sign
    | Quoted(c: char)                             // % and a character that is no directive, as in %%
    | CharOf(c: char)                             // %c
    | StringOf(s: string, capital: bool)          // %s or %S
    | NumberOf(long: bool, conversion: char, v: int)  // %d, %ld and so on

  function ArgOf(p: Piece): seq<Arg> {
    match p
    case Itself(_) => []
    case Quoted(_) => []
    case CharOf(c) => [Char(c)]
    case StringOf(s, _) => [Str(s)]
    case NumberOf(long, _, v) => [if long then Long(v) else Int(v)]
  }

  predicate Proper(p: Piece) {
    match p
    case Itself(c) => c != '%' && c != '\0'
    case Quoted(c) => c !in "\0lcsS" && !IsConversion(c)
    case CharOf(_) => true
    case StringOf(_, _) => true
    case NumberOf(long, conversion, v) => IsConversion(conversion) && Suits(long, conversion, ArgOf(p)[0])
  }

  function Spelling(p: Piece): string {
    match p
    case Itself(c) => [c]
    case Quoted(c) => ['%', c]
    case CharOf(_) => "%c"
    case StringOf(_, capital) => if capital then "%S" else "%s"
    case NumberOf(long, conversion, _) => (if long then "%l" else "%") + [conversion]
  }

  /** What a piece prints. */
  function TextOf(newline: string, p: Piece): string {
    match p
    case Itself(c) => EmitAll(newline, [c])
    case Quoted(c) => EmitAll(newline, [c])
    case CharOf(c) => EmitAll(newline, [c])
    case StringOf(s, _) => EmitAll(newline, CText(s))
    case NumberOf(long, conversion, v) => Number(long, conversion, v)
  }

  predicate AllProper(ps: seq<Piece>) {
    forall i :: 0 <= i < |ps| ==> Proper(ps[i])
  }

  function Format(ps: seq<Piece>): string {
    if ps == [] then "" else Spelling(ps[0]) + Format(ps[1..])
  }

  function Args(ps: seq<Piece>): seq<Arg> {
    if ps == [] then [] else ArgOf(ps[0]) + Args(ps[1..])
  }

  function Texts(newline: string, ps: seq<Piece>): string {
    if ps == [] then "" else TextOf(newline, ps[0]) + Texts(newline, ps[1..])
  }

  /** x stands in s from position p on. */
  predicate HasAt<T(==)>(s: seq<T>, p: nat, x: seq<T>) {
    p + |x| <= |s| && s[p..p + |x|] == x
  }

  /** From position p on the format spells the pieces, up to its end; and from a on the arguments are theirs. */
  predicate SpellsFrom(f: string, p: nat, args: seq<Arg>, a: nat, ps: seq<Piece>) {
    && AllProper(ps)
    && HasAt(f, p, Format(ps)) && AtEnd(f, p + |Format(ps)|) && HasAt(args, a, Args(ps))
  }

  /** The format is made of these pieces: what stands behind its NUL, and further arguments, do not matter. */
  predicate Spells(f: string, args: seq<Arg>, ps: seq<Piece>) {
    SpellsFrom(f, 0, args, 0, ps)
  }

  lemma FirstPiece(f: string, p: nat, args: seq<Arg>, a: nat, ps: seq<Piece>)
    requires ps != []
    ensures var q := ps[0];
            SpellsFrom(f, p, args, a, ps)
            <==> && Proper(q) && HasAt(f, p, Spelling(q)) && HasAt(args, a, ArgOf(q))
                 && SpellsFrom(f, p + |Spelling(q)|, args, a + |ArgOf(q)|, ps[1..])
  {
    hide Proper, Spelling, ArgOf, HasAt, AllProper, AtEnd;
    ProperFirst(ps);
    Joined(f, p, Spelling(ps[0]), Format(ps[1..]));
    Joined(args, a, ArgOf(ps[0]), Args(ps[1..]));
  }

  lemma ProperFirst(ps: seq<Piece>)
    requires ps != []
    ensures AllProper(ps) <==> Proper(ps[0]) && AllProper(ps[1..])
  {
    hide Proper;
    assert forall i :: 0 < i < |ps| ==> ps[i] == ps[1..][i - 1];
  }

  lemma Joined<T>(s: seq<T>, p: nat, x: seq<T>, y: seq<T>)
    ensures HasAt(s, p, x + y) <==> HasAt(s, p, x) && HasAt(s, p + |x|, y)
  {
    if p + |x + y| <= |s| {
      var t := s[p..p + |x + y|];
      assert t[..|x|] == s[p..p + |x|] && t[|x|..] == s[p + |x|..p + |x| + |y|];
      assert t == t[..|x|] + t[|x|..] && (x + y)[..|x|] == x && (x + y)[|x|..] == y;
    }
  }

  /** The letter l, and what is behind it. */
  lemma LongDirective(newline: string, f: string, p: nat, args: seq<Arg>, a: nat)
    requires p + 1 < |f| && f[p] == '%' && f[p + 1] == 'l'
    ensures Render(newline, f, p, args, a) == if p + 2 < |f| then AfterL(newline, f, p + 2, args, a) else Ill
  {
    assert Render(newline, f, p, args, a) == AfterPercent(newline, f, p + 1, args, a);
  }

  lemma HasOne<T>(s: seq<T>, p: nat, x: T)
    requires HasAt(s, p, [x])
    ensures p < |s| && s[p] == x
  {
    assert s[p..p + 1][0] == s[p];
  }

  lemma HasTwo<T>(s: seq<T>, p: nat, x: T, y: T)
    requires HasAt(s, p, [x, y])
    ensures p + 1 < |s| && s[p] == x && s[p + 1] == y
  {
    assert s[p..p + 2][0] == s[p] && s[p..p + 2][1] == s[p + 1];
  }

  lemma HasThree<T>(s: seq<T>, p: nat, x: T, y: T, z: T)
    requires HasAt(s, p, [x, y, z])
    ensures p + 2 < |s| && s[p] == x && s[p + 1] == y && s[p + 2] == z
  {
    var t := s[p..p + 3];
    assert t[0] == s[p] && t[1] == s[p + 1] && t[2] == s[p + 2];
  }

  /** One piece at the front: the rendering prints its text, then goes on behind it. */
  lemma RenderPiece(newline: string, f: string, p: nat, args: seq<Arg>, a: nat, q: Piece)
    requires Proper(q) && HasAt(f, p, Spelling(q)) && HasAt(args, a, ArgOf(q))
    ensures Render(newline, f, p, args, a)
         == Prepend(TextOf(newline, q), Render(newline, f, p + |Spelling(q)|, args, a + |ArgOf(q)|))
  {
    hide HasAt, Render, Number, EmitAll, CText, Emit, Suits;
    match q {
      case Itself(c) =>
        OneSent(newline, c);
        HasOne(f, p, c);
        RenderItself(newline, f, p, args, a);
      case Quoted(c) =>
        OneSent(newline, c);
        HasTwo(f, p, '%', c);
        RenderDirective(newline, f, p, args, a);
      case CharOf(c) =>
        OneSent(newline, c);
        HasOne(args, a, Char(c));
        assert Spelling(q) == ['%', 'c'];
        HasTwo(f, p, '%', 'c');
        RenderDirective(newline, f, p, args, a);
      case StringOf(s, capital) =>
        HasOne(args, a, Str(s));
        assert Spelling(q) == ['%', if capital then 'S' else 's'];
        HasTwo(f, p, '%', if capital then 'S' else 's');
        RenderDirective(newline, f, p, args, a);
      case NumberOf(long, c, v) =>
        HasOne(args, a, if long then Long(v) else Int(v));
        if long {
          assert Spelling(q) == ['%', 'l', c];
          HasThree(f, p, '%', 'l', c);
        } else {
          assert Spelling(q) == ['%', c];
          HasTwo(f, p, '%', c);
        }
        RenderNumber(newline, f, p, args, a, long, c, v);
    }
  }

  lemma RenderItself(newline: string, f: string, p: nat, args: seq<Arg>, a: nat)
    requires !AtEnd(f, p) && f[p] != '%'
    ensures Render(newline, f, p, args, a) == Prepend(Emit(newline, f[p]), Render(newline, f, p + 1, args, a))
  {
  }

  lemma RenderDirective(newline: string, f: string, p: nat, args: seq<Arg>, a: nat)
    requires p + 1 < |f| && f[p] == '%' && f[p + 1] != '\0'
    ensures Render(newline, f, p, args, a) == AfterPercent(newline, f, p + 1, args, a)
  {
    hide AfterPercent;
  }

  lemma RenderNumber(newline: string, f: string, p: nat, args: seq<Arg>, a: nat, long: bool, c: char, v: int)
    requires IsConversion(c) && Suits(long, c, if long then Long(v) else Int(v))
    requires a < |args| && args[a] == if long then Long(v) else Int(v)
    requires p + 1 < |f| && f[p] == '%'
    requires if long then p + 2 < |f| && f[p + 1] == 'l' && f[p + 2] == c else f[p + 1] == c
    ensures Render(newline, f, p, args, a)
         == Prepend(Number(long, c, v), Render(newline, f, p + (if long then 3 else 2), args, a + 1))
  {
    hide Render, Number, Suits;
    if long {
      LongDirective(newline, f, p, args, a);
    } else {
      RenderDirective(newline, f, p, args, a);
    }
  }

  lemma OneSent(newline: string, c: char)
    ensures EmitAll(newline, [c]) == Emit(newline, c)
  {
    assert [c][..0] == "";
  }

  /** The rendering of a format is the texts of its pieces in order. */
  lemma {:induction false} RenderIsTexts(newline: string, f: string, p: nat, args: seq<Arg>, a: nat, ps: seq<Piece>)
    requires SpellsFrom(f, p, args, a, ps)
    ensures Render(newline, f, p, args, a) == Text(Texts(newline, ps))
    decreases |ps|
  {
    hide Proper, Spelling, ArgOf, TextOf, SpellsFrom;
    if ps == [] {
      Nothing(newline, f, p, args, a);
    } else {
      FirstPiece(f, p, args, a, ps);
      RenderPiece(newline, f, p, args, a, ps[0]);
      RenderIsTexts(newline, f, p + |Spelling(ps[0])|, args, a + |ArgOf(ps[0])|, ps[1..]);
    }
  }

  lemma Nothing(newline: string, f: string, p: nat, args: seq<Arg>, a: nat)
    ensures SpellsFrom(f, p, args, a, []) <==> p <= |f| && AtEnd(f, p) && a <= |args|
    ensures AtEnd(f, p) ==> Render(newline, f, p, args, a) == Text("")
  {
  }

  /** The piece that a rendering starts with. */
  lemma NextPiece(newline: string, f: string, p: nat, args: seq<Arg>, a: nat) returns (q: Piece)
    requires Render(newline, f, p, args, a).Text? && !AtEnd(f, p) && a <= |args|
    ensures Proper(q) && HasAt(f, p, Spelling(q)) && HasAt(args, a, ArgOf(q))
    ensures Render(newline, f, p + |Spelling(q)|, args, a + |ArgOf(q)|).Text?
  {
    q := PieceAt(newline, f, p, args, a);
    hide Render, TextOf, Proper, Spelling, ArgOf;
    RenderPiece(newline, f, p, args, a, q);
  }

  lemma PieceAt(newline: string, f: string, p: nat, args: seq<Arg>, a: nat) returns (q: Piece)
    requires Render(newline, f, p, args, a).Text? && !AtEnd(f, p) && a <= |args|
    ensures Proper(q) && HasAt(f, p, Spelling(q)) && HasAt(args, a, ArgOf(q))
  {
    hide Number, EmitAll, CText, TextOf, ShortPiece;
    assert args[a..a] == [];
    if a < |args| {
      assert args[a..a + 1] == [args[a]];
    }
    if f[p] != '%' {
      assert f[p..p + 1] == [f[p]];
      q := Itself(f[p]);
    } else {
      var c := f[p + 1];
      if c == 'l' {
        q := LongPiece(newline, f, p, args, a);
      } else {
        assert f[p..p + 2] == ['%', c];
        q := ShortPiece(c, if a < |args| then Some(args[a]) else None);
        ShortDirective(newline, f, p + 1, args, a);
      }
    }
  }

  lemma LongPiece(newline: string, f: string, p: nat, args: seq<Arg>, a: nat) returns (q: Piece)
    requires p + 1 < |f| && f[p] == '%' && f[p + 1] == 'l' && Render(newline, f, p, args, a).Text?
    ensures Proper(q) && p + 3 <= |f| && Spelling(q) == f[p..p + 3]
    ensures a < |args| && ArgOf(q) == [args[a]]
  {
    LongDirective(newline, f, p, args, a);
    hide Number, Render;
    assert f[p..p + 3] == ['%', 'l', f[p + 2]];
    q := NumberOf(true, f[p + 2], args[a].v);
  }

  lemma ShortDirective(newline: string, f: string, p: nat, args: seq<Arg>, a: nat)
    requires p < |f| && f[p] != 'l' && f[p] != '\0' && AfterPercent(newline, f, p, args, a).Text?
    ensures var q := ShortPiece(f[p], if a < |args| then Some(args[a]) else None);
            && Proper(q) && Spelling(q) == ['%', f[p]]
            && (ArgOf(q) == [] || (a < |args| && ArgOf(q) == [args[a]]))
  {
    hide Number, EmitAll, CText, Render;
  }

  /** The piece of a directive without l. */
  function ShortPiece(c: char, arg: Option<Arg>): Piece {
    if IsConversion(c) then NumberOf(false, c, if arg.Some? && arg.value.Int? then arg.value.v else 0)
    else if c == 'c' then CharOf(if arg.Some? && arg.value.Char? then arg.value.c else ' ')
    else if c == 's' || c == 'S' then StringOf(if arg.Some? && arg.value.Str? then arg.value.s else "", c == 'S')
    else Quoted(c)
  }

  /** A format with a meaning is made of pieces. */
  lemma {:induction false} Parsed(newline: string, f: string, p: nat, args: seq<Arg>, a: nat)
    returns (ps: seq<Piece>)
    requires Render(newline, f, p, args, a).Text? && p <= |f| && a <= |args|
    ensures SpellsFrom(f, p, args, a, ps)
    decreases |f| - p
  {
    hide Proper, ArgOf, TextOf, SpellsFrom, Render;
    Nothing(newline, f, p, args, a);
    if AtEnd(f, p) {
      ps := [];
    } else {
      var q := NextPiece(newline, f, p, args, a);
      var rest := Parsed(newline, f, p + |Spelling(q)|, args, a + |ArgOf(q)|);
      ps := [q] + rest;
      assert ps[1..] == rest;
      FirstPiece(f, p, args, a, ps);
    }
  }

  /** A format has a meaning with its arguments if it is made of pieces. */
  ghost predicate HasMeaning(f: string, args: seq<Arg>) {
    exists ps :: Spells(f, args, ps)
  }

  lemma HasMeaningIff(newline: string, f: string, args: seq<Arg>)
    ensures Render(newline, f, 0, args, 0).Text? <==> HasMeaning(f, args)
  {
    hide Render, SpellsFrom;
    if Render(newline, f, 0, args, 0).Text? {
      var ps := Parsed(newline, f, 0, args, 0);
      assert Spells(f, args, ps);
    }
    if ps :| Spells(f, args, ps) {
      RenderIsTexts(newline, f, 0, args, 0, ps);
    }
  }

  /** In particular the pieces' own spelling, with their own arguments, has their texts as its meaning. */
  lemma PiecesRendered(newline: string, ps: seq<Piece>)
    requires AllProper(ps)
    ensures Spells(Format(ps), Args(ps), ps) && HasMeaning(Format(ps), Args(ps))
    ensures Render(newline, Format(ps), 0, Args(ps), 0) == Text(Texts(newline, ps))
  {
    hide Render, AllProper;
    assert Format(ps)[0..|Format(ps)|] == Format(ps) && Args(ps)[0..|Args(ps)|] == Args(ps);
    assert Spells(Format(ps), Args(ps), ps);
    RenderIsTexts(newline, Format(ps), 0, Args(ps), 0, ps);
  }

  // ---- The texts of the pieces ----

  /** A C text is what stands before the first NUL. */
  lemma {:induction false} CTextIs(s: string)
    ensures CText(s) <= s && '\0' !in CText(s)
    ensures |CText(s)| < |s| ==> s[|CText(s)|] == '\0'
  {
    if !AtEnd(s, 0) {
      CTextIs(s[1..]);
    }
  }

  lemma {:induction false} EmitAppend(newline: string, s: string, t: string)
    ensures EmitAll(newline, s + t) == EmitAll(newline, s) + EmitAll(newline, t)
    decreases |t|
  {
    if t == "" {
      assert s + t == s;
    } else {
      assert (s + t)[..|s + t| - 1] == s + t[..|t| - 1];
      EmitAppend(newline, s, t[..|t| - 1]);
    }
  }

  /** Characters are sent as they are, up to a newline; and newline is sent for that. */
  lemma {:induction false} EmittedAsIs(newline: string, s: string)
    requires '\n' !in s
    ensures EmitAll(newline, s) == s
  {
    if s != "" {
      EmittedAsIs(newline, s[..|s| - 1]);
    }
  }

  lemma NewlineEmitted(newline: string, s: string, t: string)
    requires '\n' !in s
    ensures EmitAll(newline, s + "\n" + t) == s + newline + EmitAll(newline, t)
  {
    EmitAppend(newline, s + "\n", t);
    EmitAppend(newline, s, "\n");
    EmittedAsIs(newline, s);
    OneSent(newline, '\n');
  }

  // ---- The interpreter ----

  /** The UART, as what has been sent. */
  class Uart {
    const newline: string
    var sent: string

    method UARTPutChar(c: char)
      modifies this
      ensures sent == old(sent) + Emit(newline, c)
    {
      if c == '\n' {
        sent := sent + newline;
        return;
      }
      sent := sent + [c];
    }

    /** The digit loop: leading digit first. */
    method EmitDigits(u: nat, div: nat, base: nat, ghost w: nat)
      requires 2 <= base <= 16 && w >= 1 && div == Pow(base, w - 1) && u < Pow(base, w)
      modifies this
      ensures sent == old(sent) + Fixed(u, base, w)
    {
      hide Fixed, Pow, HexText.Digit;
      var u_val: nat, div_val: nat := u, div;
      ghost var k := w;
      while true
        invariant 1 <= k <= w && div_val == Pow(base, k - 1) && u_val < Pow(base, k)
        invariant sent + Fixed(u_val, base, k) == old(sent) + Fixed(u, base, w)
        decreases k
      {
        PowPositive(base, k - 1);
        Fundamental(u_val, div_val);
        EmitStep(u_val, base, k, div_val, u_val / div_val, u_val % div_val);
        NoDigits(u_val % div_val, base);
        UARTPutChar(HexText.Digit(u_val / div_val));
        u_val := u_val % div_val;
        NextDivisor(base, k);
        div_val := div_val / base;
        k := k - 1;
        if div_val == 0 {
          break;
        }
      }
    }

    /** CONVERSION_LOOP: one number, after the switch has set base and div_val. */
    method Convert(long: bool, c: char, v: int)
      requires IsConversion(c) && Suits(long, c, if long then Long(v) else Int(v))
      modifies this
      ensures sent == old(sent) + Number(long, c, v)
    {
      if c == 'd' || c == 'i' {
        ConvertSigned(long, c, v);
      } else {
        ConvertUnsigned(long, c, v);
      }
    }

    method ConvertSigned(long: bool, c: char, v: int)
      requires (c == 'd' || c == 'i') && Suits(long, c, if long then Long(v) else Int(v))
      modifies this
      ensures sent == old(sent) + Number(long, c, v)
    {
      hide Fixed, Decimal, Pow;
      Powers();
      var u_val: nat := Unsigned32(v);
      Negation(v);
      if v < 0 {
        u_val := Unsigned32(0 - u_val);
        UARTPutChar('-');
      }
      var div_val, w := Shorten(u_val, if long then 1000000000 else 10000, if long then 10 else 5);
      DecimalIsFixed(u_val, w);
      EmitDigits(u_val, div_val, 10, w);
    }

    method ConvertUnsigned(long: bool, c: char, v: int)
      requires IsConversion(c) && c != 'd' && c != 'i' && Suits(long, c, if long then Long(v) else Int(v))
      modifies this
      ensures sent == old(sent) + Number(long, c, v)
    {
      hide Fixed, Pow;
      Powers();
      var u_val := Unsigned32(v);
      NonNegative(v);
      if c == 'u' {
        EmitDigits(u_val, if long then 1000000000 else 10000, 10, if long then 10 else 5);
      } else if c == 'o' {
        EmitDigits(u_val, if long then 0x4000_0000 else 0x8000, 8, if long then 11 else 6);
      } else {
        if !long {
          u_val := u_val % 0x1_0000;
          LowHalf(v);
        }
        EmitDigits(u_val, if long then 0x1000_0000 else 0x1000, 16, if long then 8 else 4);
      }
    }

    /** Leading zeros are skipped by lowering the divisor. */
    method Shorten(u_val: nat, div0: nat, ghost w0: nat) returns (div_val: nat, ghost w: nat)
      requires w0 >= 1 && div0 == Pow(10, w0 - 1) && u_val < Pow(10, w0)
      ensures w >= 1 && div_val == Pow(10, w - 1) && u_val < Pow(10, w)
      ensures w > 1 ==> u_val >= Pow(10, w - 1)
    {
      div_val, w := div0, w0;
      while div_val > 1 && div_val > u_val
        invariant w >= 1 && div_val == Pow(10, w - 1) && u_val < Pow(10, w)
        decreases w
      {
        NextDivisor(10, w);
        div_val := div_val / 10;
        w := w - 1;
      }
      if w > 1 && div_val <= 1 {
        NextDivisor(10, w);
      }
    }

    /** The literal part of a format, up to the next percent sign or the end. */
    method Literals(format: string, p0: nat, ghost args: seq<Arg>, ghost a: nat) returns (p: nat)
      requires p0 <= |format| && Render(newline, format, p0, args, a).Text?
      modifies this
      ensures p0 <= p <= |format| && (AtEnd(format, p) || format[p] == '%')
      ensures Render(newline, format, p, args, a).Text?
      ensures sent + Render(newline, format, p, args, a).t == old(sent) + Render(newline, format, p0, args, a).t
    {
      hide AfterPercent;
      p := p0;
      while !AtEnd(format, p) && format[p] != '%'
        invariant p0 <= p <= |format| && Render(newline, format, p, args, a).Text?
        invariant sent + Render(newline, format, p, args, a).t == old(sent) + Render(newline, format, p0, args, a).t
        decreases |format| - p
      {
        UARTPutChar(format[p]);
        p := p + 1;
      }
    }

    /** %s */
    method PutString(s: string)
      modifies this
      ensures sent == old(sent) + EmitAll(newline, CText(s))
    {
      hide EmitAll, CText;
      var i := 0;
      TextBefore(s, 0);
      NothingEmitted(newline);
      while !AtEnd(s, i)
        invariant i <= |s| && (forall k :: 0 <= k < i ==> s[k] != '\0')
        invariant AtEnd(s, i) ==> s[..i] == CText(s)
        invariant sent == old(sent) + EmitAll(newline, s[..i])
        decreases |s| - i
      {
        UARTPutChar(s[i]);
        OneEmitted(newline, s, i);
        TextBefore(s, i + 1);
        i := i + 1;
      }
    }

    /** The switch on the character behind a percent sign, or behind %l. */
    method Directive(c: char, longNumber0: bool, args: seq<Arg>, a0: nat, ghost format: string, ghost p: nat)
      returns (a: nat, longNumber: bool)
      requires p < |format| && c == format[p]
      requires if longNumber0 then AfterL(newline, format, p, args, a0).Text?
               else AfterPercent(newline, format, p, args, a0).Text?
      modifies this
      ensures Rest(newline, format, p + 1, args, a, longNumber).Text?
      ensures sent + Rest(newline, format, p + 1, args, a, longNumber).t == old(sent) +
                if longNumber0 then AfterL(newline, format, p, args, a0).t
                else AfterPercent(newline, format, p, args, a0).t
    {
      hide Number, Render, Emit, EmitAll;
      a, longNumber := a0, longNumber0;
      if IsConversion(c) {
        Convert(longNumber, c, args[a].v);
        a, longNumber := a + 1, false;
      } else if c == 'l' {
        longNumber := true;
      } else if c == 'c' {
        UARTPutChar(args[a].c);
        a := a + 1;
      } else if c == 's' || c == 'S' {
        PutString(args[a].s);
        a := a + 1;
      } else {
        UARTPutChar(c);
      }
    }

    /** printf: one call, for a format with a meaning; it ends, and sends the texts of the format's pieces in
        order. */
    method printf(format: string, args: seq<Arg>)
      requires HasMeaning(format, args)
      modifies this
      ensures forall ps :: Spells(format, args, ps) ==> sent == old(sent) + Texts(newline, ps)
    {
      hide *;
      HasMeaningIff(newline, format, args);
      Interpret(format, args);
      forall ps | Spells(format, args, ps)
        ensures Render(newline, format, 0, args, 0) == Text(Texts(newline, ps))
      {
        SpelledFromStart(format, args, ps);
        RenderIsTexts(newline, format, 0, args, 0, ps);
      }
    }

    /** The loop of the interpreter. */
    method Interpret(format: string, args: seq<Arg>)
      requires Render(newline, format, 0, args, 0).Text?
      modifies this
      ensures sent == old(sent) + Render(newline, format, 0, args, 0).t
    {
      hide AfterPercent, AfterL;
      var p, a, longNumber := 0, 0, false;
      while true
        invariant p <= |format| && Rest(newline, format, p, args, a, longNumber).Text?
        invariant sent + Rest(newline, format, p, args, a, longNumber).t
               == old(sent) + Render(newline, format, 0, args, 0).t
        decreases |format| - p
      {
        if !longNumber {
          p := Literals(format, p, args, a);
          if AtEnd(format, p) {
            return;
          }
          p := p + 1;
        }
        a, longNumber := Directive(format[p], longNumber, args, a, format, p);
        p := p + 1;
      }
    }
  }

  lemma SpelledFromStart(f: string, args: seq<Arg>, ps: seq<Piece>)
    requires Spells(f, args, ps)
    ensures SpellsFrom(f, 0, args, 0, ps)
  {
  }

  lemma NothingEmitted(newline: string)
    ensures EmitAll(newline, "") == ""
  {
  }

  lemma OneEmitted(newline: string, s: string, i: nat)
    requires i < |s|
    ensures EmitAll(newline, s[..i + 1]) == EmitAll(newline, s[..i]) + Emit(newline, s[i])
  {
    assert s[..i + 1][..i] == s[..i];
  }

  /** How far a text goes. */
  lemma {:induction false} TextBefore(s: string, i: nat)
    requires i <= |s| && forall k :: 0 <= k < i ==> s[k] != '\0'
    ensures AtEnd(s, i) ==> s[..i] == CText(s)
  {
    if i > 0 {
      TextBefore(s[1..], i - 1);
      assert s[..i] == [s[0]] + s[1..][..i - 1];
    }
  }

  /** Why a negative int is no argument for %u and %o: int is widened with its sign, and the first digit's
      index runs past the sixteen digits there are. For all other arguments every index is below the
      base. */
  lemma IndexInBounds(v: int, base: nat)
    requires -0x8000 <= v < 0x8000 && (base == 8 || base == 10)
    ensures var div := if base == 8 then 0x8000 else 10000;
            && (v >= 0 ==> Unsigned32(v) / div < base)
            && (v < 0 ==> Unsigned32(v) / div >= 16)
  {
  }
}
