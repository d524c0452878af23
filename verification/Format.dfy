/** Printing 64-bit values, and reading numbers back as strtol does. */
module Format {
  import opened Words

  datatype FormatFilter = FMT_NONE | FMT_HEX | FMT_BITS | FMT_ADDR | FMT_DEC | FMT_BYTES

  // ----- digits

  function DigitChar(d: nat): char
    requires d < 16
  {
    "0123456789abcdef"[d]
  }

  /** The digit a character stands for in strtol, for bases up to 16. */
  function DigitOf(c: char): Option<nat> {
    if '0' <= c <= '9' then Some((c - '0') as nat)
    else if 'a' <= c <= 'f' then Some((c - 'a') as nat + 10)
    else if 'A' <= c <= 'F' then Some((c - 'A') as nat + 10)
    else None
  }

  lemma DigitRoundTrip(d: nat)
    requires d < 16
    ensures DigitOf(DigitChar(d)) == Some(d)
  {
    var s := "0123456789abcdef";
    assert s[0] == '0' && s[1] == '1' && s[2] == '2' && s[3] == '3' && s[4] == '4' && s[5] == '5' && s[6] == '6' &&
        s[7] == '7';
    assert s[8] == '8' && s[9] == '9' && s[10] == 'a' && s[11] == 'b' && s[12] == 'c' && s[13] == 'd' &&
        s[14] == 'e' && s[15] == 'f';
  }

  /** Positional notation without leading zeros. */
  function Numeral(n: nat, base: nat): (s: string)
    requires 2 <= base <= 16
    ensures s != ""
  {
    if n < base then [DigitChar(n)] else Numeral(n / base, base) + [DigitChar(n % base)]
  }

  predicate AllDigits(s: string, base: nat) {
    forall i | 0 <= i < |s| :: DigitOf(s[i]).Some? && DigitOf(s[i]).value < base
  }

  function ValueOf(s: string, base: nat): nat
    requires AllDigits(s, base)
  {
    if s == "" then 0 else ValueOf(s[..|s| - 1], base) * base + DigitOf(s[|s| - 1]).value
  }

  lemma DivMod(n: nat, base: nat)
    requires base > 0
    ensures n / base * base + n % base == n && n % base < base
  {
  }

  lemma AppendDigit(s: string, c: char, base: nat)
    requires AllDigits(s, base) && DigitOf(c).Some? && DigitOf(c).value < base
    ensures AllDigits(s + [c], base) && ValueOf(s + [c], base) == ValueOf(s, base) * base + DigitOf(c).value
  {
    var t := s + [c];
    assert t[..|t| - 1] == s && t[|t| - 1] == c;
  }

  lemma AppendRemainder(front: string, n: nat, base: nat)
    requires 2 <= base <= 16 && AllDigits(front, base) && ValueOf(front, base) == n / base
    ensures var s := front + [DigitChar(n % base)]; AllDigits(s, base) && ValueOf(s, base) == n
  {
    hide ValueOf, AllDigits, DigitChar, DigitOf;
    DigitRoundTrip(n % base);
    AppendDigit(front, DigitChar(n % base), base);
    DivMod(n, base);
  }

  lemma {:induction false} NumeralValue(n: nat, base: nat)
    requires 2 <= base <= 16
    ensures AllDigits(Numeral(n, base), base) && ValueOf(Numeral(n, base), base) == n
  {
    hide ValueOf, AllDigits, DigitChar, DigitOf;
    Quotient(n, base);
    if n < base {
      EmptyValue(base);
      AppendRemainder("", n, base);
      assert "" + [DigitChar(n)] == [DigitChar(n)];
    } else {
      NumeralValue(n / base, base);
      AppendRemainder(Numeral(n / base, base), n, base);
    }
  }

  lemma EmptyValue(base: nat)
    ensures AllDigits("", base) && ValueOf("", base) == 0
  {
  }

  lemma Quotient(n: nat, base: nat)
    requires 2 <= base
    ensures n < base ==> n / base == 0 && n % base == n
    ensures n >= base ==> n / base < n
  {
    DivMod(n, base);
    var q := n / base;
    assert q * base == q * 2 + q * (base - 2);
    assert q * (base - 2) >= 0;
    if n < base {
      QuotientUnique(base, q, n % base, 0, n);
    }
  }

  // ----- print_format

  function Pad(s: string, width: nat, fill: char): (r: string)
    decreases width - |s|
  {
    if |s| < width then Pad([fill] + s, width, fill) else s
  }

  function Bit(x: nat, mask: nat): char
    requires mask > 0
  {
    if (x / mask) % 2 == 1 then '1' else '0'
  }

  /** The bits under the masks 0x80 down to 0x01. */
  function Bits8(x: nat): string {
    BitsFrom(x, 0x80)
  }

  function BitsFrom(x: nat, mask: nat): string {
    if mask == 0 then "" else [Bit(x, mask)] + BitsFrom(x, mask / 2)
  }

  function Bytes8(x: nat): string {
    [DigitChar(x % 256 / 16), DigitChar(x % 16)]
  }

  /** The INT16, INT32 and INT64 macros: the shifted half, a blank, the other half. */
  function Groups(x: nat, group: nat -> string, size: nat): string
    requires size == 8 || size == 16 || size == 32 || size == 64
    decreases size
  {
    if size == 8 then group(x)
    else Groups(x / Shift(size / 2), group, size / 2) + " " + Groups(x, group, size / 2)
  }

  function Shift(bits: nat): (r: nat)
    ensures r > 0
  {
    if bits == 8 then 0x100 else if bits == 16 then 0x1_0000 else if bits == 32 then 0x1_0000_0000 else TWO64
  }

  function PrintFormat(value: Word, filter: FormatFilter): string {
    match filter
    case FMT_NONE => PrintDec(value)
    case FMT_DEC => PrintDec(value)
    case FMT_HEX => "0x" + Numeral(value, 16)
    case FMT_BITS => Groups(value, Bits8, 64)
    case FMT_ADDR => "0x" + Pad(Numeral(value, 16), 16, '0')
    case FMT_BYTES => Groups(value, Bytes8, 64)
  }

  /** %ld */
  function PrintDec(value: Word): string {
    var s := ToSigned(value);
    if s < 0 then "-" + Numeral(-s, 10) else Numeral(s, 10)
  }

  // ----- parse_num

  const LONG_MAX: int := TWO64 / 2 - 1
  const LONG_MIN: int := -TWO64 / 2

  function Saturate(n: int): int {
    if n > LONG_MAX then LONG_MAX else if n < LONG_MIN then LONG_MIN else n
  }

  predicate IsBlank(c: char) {
    c == ' ' || c == '\t' || c == '\n' || c == '\r' || c == '\U{0b}' || c == '\U{0c}'
  }

  /**
   * strtol on a string it reads to its end: blanks, a sign, for base 16 a prefix, and at
   * least one digit. None when it stops earlier.
   */
  function Strtol(s: string, base: nat): Option<int>
    decreases |s|
  {
    if s == "" then None
    else if IsBlank(s[0]) then Strtol(s[1..], base)
    else if s[0] == '-' then
      match Unsigned(s[1..], base) case Some(n) => Some(Saturate(0 - n)) case None => None
    else
      match Unsigned(if s[0] == '+' then s[1..] else s, base) case Some(n) => Some(Saturate(n)) case None => None
  }

  function Unsigned(s: string, base: nat): Option<nat> {
    var digits := if base == 16 && |s| > 2 && s[0] == '0' && (s[1] == 'x' || s[1] == 'X') then s[2..] else s;
    if digits != "" && AllDigits(digits, base) then Some(ValueOf(digits, base)) else None
  }

  /** parse_num */
  function ParseNum(s: string, base: nat): Option<Word> {
    match Strtol(s, base)
    case Some(n) => Some(n % TWO64)
    case None => None
  }

  // ----- which texts are numbers

  predicate DigitChars(s: string, base: nat) {
    s != "" && forall i | 0 <= i < |s| ::
      '0' <= s[i] <= '9' || (base == 16 && ('a' <= s[i] <= 'f' || 'A' <= s[i] <= 'F'))
  }

  /** Digits, for base 16 also behind a prefix. */
  predicate UnsignedText(s: string, base: nat) {
    DigitChars(s, base) || (base == 16 && |s| > 2 && (s[..2] == "0x" || s[..2] == "0X") && DigitChars(s[2..], base))
  }

  /** Blanks, a sign, digits, and nothing else. */
  predicate NumberText(s: string, base: nat)
    decreases |s|
  {
    s != "" &&
    if s[0] in " \t\n\r\U{0b}\U{0c}" then NumberText(s[1..], base)
    else UnsignedText(if s[0] == '-' || s[0] == '+' then s[1..] else s, base)
  }

  lemma UnsignedExactly(s: string, base: nat)
    requires base == 10 || base == 16
    ensures Unsigned(s, base).Some? <==> UnsignedText(s, base)
  {
    if base == 16 && |s| > 2 && s[0] == '0' && (s[1] == 'x' || s[1] == 'X') {
      assert s[..2] == "0x" || s[..2] == "0X";
    } else if |s| > 2 && (s[..2] == "0x" || s[..2] == "0X") {
      assert s[0] == s[..2][0] && s[1] == s[..2][1];
    }
  }

  /** A text is parsed exactly when it is a number from its start to its end. */
  lemma {:induction false} ParsedExactly(s: string, base: nat)
    requires base == 10 || base == 16
    ensures ParseNum(s, base).Some? <==> NumberText(s, base)
    decreases |s|
  {
    hide Unsigned, UnsignedText, Saturate;
    if s != "" {
      if IsBlank(s[0]) {
        ParsedExactly(s[1..], base);
      } else {
        UnsignedExactly(s[1..], base);
        UnsignedExactly(s, base);
      }
    }
  }

  // ----- reading back what was printed

  /** On plain digits, and on digits behind a sign, strtol gives their value. */
  lemma StrtolDigits(s: string, base: nat)
    requires s != "" && AllDigits(s, base) && base <= 16
    ensures Strtol(s, base) == Some(Saturate(ValueOf(s, base)))
    ensures Strtol("-" + s, base) == Some(Saturate(0 - ValueOf(s, base)))
    ensures Strtol("+" + s, base) == Some(Saturate(ValueOf(s, base)))
  {
    hide ValueOf, AllDigits, DigitOf, IsBlank, Saturate;
    DigitsOnly(s, base);
    assert ("-" + s)[1..] == s && ("-" + s)[0] == '-';
    assert ("+" + s)[1..] == s && ("+" + s)[0] == '+';
    SignsAreNoBlanks();
  }

  lemma DigitsOnly(s: string, base: nat)
    requires AllDigits(s, base)
    ensures forall i | 0 <= i < |s| :: !IsBlank(s[i]) && s[i] !in "+-xX"
  {
    assert forall i | 0 <= i < |s| :: DigitOf(s[i]).Some?;
  }

  lemma SignsAreNoBlanks()
    ensures !IsBlank('-') && !IsBlank('+')
  {
  }

  lemma StrtolPrefixed(s: string)
    requires s != "" && AllDigits(s, 16)
    ensures Strtol("0x" + s, 16) == Some(Saturate(ValueOf(s, 16)))
    ensures Strtol("0X" + s, 16) == Some(Saturate(ValueOf(s, 16)))
  {
    assert ("0x" + s)[2..] == s && ("0X" + s)[2..] == s;
  }

  /** Blanks in front change nothing, and upper-case digits are worth what lower-case ones are. */
  lemma BlanksAndCase(c: char, s: string, base: nat)
    ensures c in " \t\n\r" ==> Strtol([c] + s, base) == Strtol(s, base)
    ensures forall d | 0 <= d < 6 :: DigitOf("ABCDEF"[d]) == DigitOf("abcdef"[d]) == Some(10 + d)
  {
    assert ([c] + s)[1..] == s;
    assert "ABCDEF"[0] == 'A' && "ABCDEF"[1] == 'B' && "ABCDEF"[2] == 'C';
    assert "ABCDEF"[3] == 'D' && "ABCDEF"[4] == 'E' && "ABCDEF"[5] == 'F';
    assert "abcdef"[0] == 'a' && "abcdef"[1] == 'b' && "abcdef"[2] == 'c';
    assert "abcdef"[3] == 'd' && "abcdef"[4] == 'e' && "abcdef"[5] == 'f';
  }

  /** Every 64-bit value printed in decimal parses back to itself. */
  lemma DecimalRoundTrip(value: Word)
    ensures ParseNum(PrintFormat(value, FMT_DEC), 10) == Some(value)
    ensures PrintFormat(value, FMT_NONE) == PrintFormat(value, FMT_DEC)
  {
    hide Numeral, Strtol, AllDigits, ValueOf;
    var s := ToSigned(value);
    var n := if s < 0 then -s else s;
    NumeralValue(n, 10);
    StrtolDigits(Numeral(n, 10), 10);
    assert 0 - n == s || n == s;
  }

  /** Printed in hexadecimal it parses back exactly when strtol does not saturate. */
  lemma HexRoundTrip(value: Word)
    ensures ParseNum(PrintFormat(value, FMT_HEX), 16) == Some(value) <==> value <= LONG_MAX
    ensures value > LONG_MAX ==> ParseNum(PrintFormat(value, FMT_HEX), 16) == Some(LONG_MAX)
  {
    hide Numeral, Strtol, AllDigits, ValueOf;
    NumeralValue(value, 16);
    StrtolPrefixed(Numeral(value, 16));
  }

  /** The same holds with leading zeros. */
  lemma AddrRoundTrip(value: Word)
    ensures ParseNum(PrintFormat(value, FMT_ADDR), 16) == Some(value) <==> value <= LONG_MAX
  {
    hide Numeral, Strtol, AllDigits, ValueOf, Pad;
    NumeralValue(value, 16);
    PadValue(Numeral(value, 16), 16, 16);
    StrtolPrefixed(Pad(Numeral(value, 16), 16, '0'));
  }

  lemma {:induction false} PadValue(s: string, width: nat, base: nat)
    requires AllDigits(s, base) && base > 0 && s != ""
    ensures Pad(s, width, '0') != "" && AllDigits(Pad(s, width, '0'), base)
    ensures ValueOf(Pad(s, width, '0'), base) == ValueOf(s, base)
    decreases width - |s|
  {
    if |s| < width {
      LeadingZero(s, base);
      PadValue(['0'] + s, width, base);
    }
  }

  lemma {:induction false} LeadingZero(s: string, base: nat)
    requires AllDigits(s, base) && base > 0
    ensures AllDigits(['0'] + s, base) && ValueOf(['0'] + s, base) == ValueOf(s, base)
    decreases |s|
  {
    var z := ['0'] + s;
    if s == "" {
      assert z[..0] == "" && ValueOf("", base) == 0;
    } else {
      LeadingZero(s[..|s| - 1], base);
      assert z[..|z| - 1] == ['0'] + s[..|s| - 1];
    }
  }

  lemma {:induction false} NumeralLength(n: nat, base: nat, digits: nat)
    requires 2 <= base <= 16 && digits > 0 && n < Power(base, digits)
    ensures |Numeral(n, base)| <= digits
    decreases digits
  {
    Quotient(n, base);
    if n >= base {
      assert digits > 1 by { assert Power(base, 1) == base * Power(base, 0) == base; }
      DivLess(n, base, Power(base, digits - 1));
      NumeralLength(n / base, base, digits - 1);
    }
  }

  lemma DivLess(n: nat, base: nat, p: nat)
    requires base > 0 && n < base * p
    ensures n / base < p
  {
    DivMod(n, base);
    if n / base >= p {
      MulMono(p, n / base, base);
    }
  }

  ghost function Power(base: nat, n: nat): nat {
    if n == 0 then 1 else base * Power(base, n - 1)
  }

  lemma {:induction false} PadLength(s: string, width: nat, fill: char)
    ensures |Pad(s, width, fill)| == if |s| < width then width else |s|
    decreases width - |s|
  {
    if |s| < width {
      PadLength([fill] + s, width, fill);
    }
  }

  /** Digits are lower-case, and the first one is not 0 but for the number 0. */
  lemma {:induction false} NumeralForm(n: nat, base: nat)
    requires 2 <= base <= 16
    ensures forall i | 0 <= i < |Numeral(n, base)| ::
              '0' <= Numeral(n, base)[i] <= '9' || 'a' <= Numeral(n, base)[i] <= 'f'
    ensures Numeral(n, base)[0] == '0' <==> n == 0
  {
    assert forall d | 0 <= d < 16 :: '0' <= DigitChar(d) <= '9' || 'a' <= DigitChar(d) <= 'f';
    assert forall d | 0 < d < 16 :: DigitChar(d) != '0';
    Quotient(n, base);
    if n >= base {
      DivMod(n, base);
      NumeralForm(n / base, base);
    }
  }

  /** Hexadecimal numbers have a prefix. */
  lemma HexForm(value: Word)
    ensures PrintFormat(value, FMT_HEX)[..2] == "0x" && PrintFormat(value, FMT_HEX)[2..] == Numeral(value, 16)
  {
    hide Numeral;
  }

  lemma GroupsHalves(x: nat, group: nat -> string, size: nat, half: nat)
    requires size == 2 * half && (half == 8 || half == 16 || half == 32)
    ensures |Groups(x, group, size)| == |Groups(x / Shift(half), group, half)| + 1 + |Groups(x, group, half)|
  {
    hide Shift;
    assert size / 2 == half;
  }

  /** Groups are set apart by single blanks. */
  lemma GroupsLength(x: nat, group: nat -> string, width: nat)
    requires forall y: nat :: |group(y)| == width
    ensures |Groups(x, group, 64)| == 8 * width + 7
  {
    hide Groups, Shift;
    forall y: nat
      ensures |Groups(y, group, 8)| == width
    {
      OneGroup(y, group);
    }
    forall y: nat
      ensures |Groups(y, group, 16)| == 2 * width + 1
    {
      GroupsHalves(y, group, 16, 8);
    }
    forall y: nat
      ensures |Groups(y, group, 32)| == 4 * width + 3
    {
      GroupsHalves(y, group, 32, 16);
    }
    GroupsHalves(x, group, 64, 32);
  }

  lemma OneGroup(x: nat, group: nat -> string)
    ensures Groups(x, group, 8) == group(x)
  {
  }

  lemma Bits8Length(y: nat)
    ensures |Bits8(y)| == 8
  {
    assert BitsFrom(y, 0) == "";
    assert |BitsFrom(y, 0x01)| == 1;
    assert |BitsFrom(y, 0x04)| == 3;
    assert |BitsFrom(y, 0x10)| == 5;
    assert |BitsFrom(y, 0x40)| == 7;
  }

  /** Eight groups of eight bits, or of two hexadecimal digits. */
  lemma BitsAndBytesLength(value: Word)
    ensures |PrintFormat(value, FMT_BITS)| == 71 && |PrintFormat(value, FMT_BYTES)| == 23
  {
    hide Groups, BitsFrom, Bits8;
    forall y: nat
      ensures |Bits8(y)| == 8
    {
      Bits8Length(y);
    }
    GroupsLength(value, Bits8, 8);
    GroupsLength(value, Bytes8, 2);
  }

  /** An address is always printed with 16 digits. */
  lemma AddressWidth(value: Word)
    ensures |PrintFormat(value, FMT_ADDR)| == 18 && PrintFormat(value, FMT_ADDR)[..2] == "0x"
  {
    hide Numeral, Pad;
    assert Power(16, 4) == 0x1_0000;
    assert Power(16, 8) == 0x1_0000_0000;
    assert Power(16, 12) == 0x1_0000_0000_0000;
    assert Power(16, 16) == TWO64;
    NumeralLength(value, 16, 16);
    PadLength(Numeral(value, 16), 16, '0');
  }

  /** The number a text denotes whose digits may be grouped by blanks. */
  function Denote(s: string, base: nat, acc: nat): nat {
    if s == "" then acc
    else if s[0] == ' ' || DigitOf(s[0]).None? then Denote(s[1..], base, acc)
    else Denote(s[1..], base, acc * base + DigitOf(s[0]).value)
  }

  lemma {:induction false} DenoteAppend(s: string, t: string, base: nat, acc: nat)
    ensures Denote(s + t, base, acc) == Denote(t, base, Denote(s, base, acc))
  {
    if s == "" {
      assert s + t == t;
    } else {
      assert (s + t)[1..] == s[1..] + t;
      if s[0] == ' ' || DigitOf(s[0]).None? {
        DenoteAppend(s[1..], t, base, acc);
      } else {
        DenoteAppend(s[1..], t, base, acc * base + DigitOf(s[0]).value);
      }
    }
  }

  lemma DenoteDigit(c: char, t: string, base: nat, acc: nat)
    requires DigitOf(c).Some?
    ensures Denote([c] + t, base, acc) == Denote(t, base, acc * base + DigitOf(c).value)
  {
  }

  /** A group of printed digits denotes the low byte of what it is given. */
  ghost predicate DenotesByte(group: nat -> string, base: nat) {
    forall x: nat, acc: nat :: Denote(group(x), base, acc) == acc * 0x100 + x % 0x100
  }

  lemma BytesDenote()
    ensures DenotesByte(Bytes8, 16)
  {
    forall x: nat, acc: nat
      ensures Denote(Bytes8(x), 16, acc) == acc * 0x100 + x % 0x100
    {
      var hi, lo := x % 256 / 16, x % 16;
      DigitRoundTrip(hi);
      DigitRoundTrip(lo);
      DenoteDigit(DigitChar(hi), [DigitChar(lo)], 16, acc);
      DenoteDigit(DigitChar(lo), "", 16, acc * 16 + hi);
      assert [DigitChar(hi)] + [DigitChar(lo)] == Bytes8(x) && [DigitChar(lo)] + "" == [DigitChar(lo)];
      ByteJoin(x, acc);
    }
  }

  lemma ByteJoin(x: nat, acc: nat)
    ensures (acc * 16 + x % 256 / 16) * 16 + x % 16 == acc * 0x100 + x % 0x100
  {
  }

  // Splitting a remainder: x mod km is the upper digit in base k and the rest mod m.

  lemma MulGe(d: int, b: nat)
    requires d >= 1
    ensures d * b >= b
  {
    assert (d - 1) * b >= 0;
  }

  lemma QuotientUnique(b: nat, q: int, r: int, q': int, r': int)
    requires q * b + r == q' * b + r' && 0 <= r < b && 0 <= r' < b
    ensures q == q' && r == r'
  {
    assert (q - q') * b == q * b - q' * b;
    SmallMultiple(q - q', b);
  }

  lemma SmallMultiple(d: int, b: nat)
    requires d * b < b && d * b + b > 0
    ensures d == 0
  {
    if d >= 1 {
      MulGe(d, b);
    } else if d <= -1 {
      MulGe(-d, b);
    }
  }

  lemma Distribute(a: int, b: int, c: int, m: int)
    ensures (a * b + c) * m == a * (b * m) + c * m
  {
  }

  lemma MulMono(a: int, b: int, m: nat)
    requires a <= b
    ensures a * m <= b * m
  {
    assert (b - a) * m >= 0;
  }

  lemma Regroup(x: nat, m: nat, k: nat, km: nat, q2: nat, q1: nat, r: nat)
    requires m > 0 && k > 0 && km == k * m && x == (q2 * k + q1) * m + r && q1 < k && r < m
    ensures km > 0 && x == q2 * km + (q1 * m + r) && q1 * m + r < km
  {
    Distribute(q2, k, q1, m);
    Distribute(q1, 1, 1, m);
    MulMono(q1 + 1, k, m);
  }

  lemma ModSplit(x: nat, m: nat, k: nat, km: nat)
    requires m > 0 && k > 0 && km == k * m
    ensures km > 0 && x % km == x / m % k * m + x % m
  {
    DivMod(x, m);
    var q, r := x / m, x % m;
    DivMod(q, k);
    Regroup(x, m, k, km, q / k, q % k, r);
    DivMod(x, km);
    QuotientUnique(km, q / k, q % k * m + r, x / km, x % km);
  }

  predicate IsMask(m: nat) {
    m == 0x80 || m == 0x40 || m == 0x20 || m == 0x10 || m == 0x08 || m == 0x04 || m == 0x02 || m == 0x01
  }

  lemma {:induction false} BitsFromDenote(x: nat, mask: nat, acc: nat)
    requires IsMask(mask)
    ensures Denote(BitsFrom(x, mask), 2, acc) == acc * (2 * mask) + x % (2 * mask)
    decreases mask
  {
    var bit := x / mask % 2;
    DenoteDigit(Bit(x, mask), BitsFrom(x, mask / 2), 2, acc);
    BitJoin(x, acc, mask);
    if mask > 1 {
      BitsFromDenote(x, mask / 2, acc * 2 + bit);
    } else {
      assert BitsFrom(x, 0) == "" && Denote("", 2, acc * 2 + bit) == acc * 2 + bit;
    }
  }

  /** The arithmetic of one more binary digit. */
  lemma BitJoin(x: nat, acc: nat, mask: nat)
    requires IsMask(mask)
    ensures var acc' := acc * 2 + x / mask % 2;
            if mask == 1 then acc' == acc * (2 * mask) + x % (2 * mask)
            else
              && IsMask(mask / 2)
              && acc' * (2 * (mask / 2)) + x % (2 * (mask / 2)) == acc * (2 * mask) + x % (2 * mask)
  {
    ModSplit(x, mask, 2, 2 * mask);
    var bit := x / mask % 2;
    assert mask > 1 ==> IsMask(mask / 2) && 2 * (mask / 2) == mask;
    assert (acc * 2 + bit) * mask == acc * (2 * mask) + bit * mask;
    assert mask == 1 ==> x % mask == 0;
  }

  lemma BitsDenote()
    ensures DenotesByte(Bits8, 2)
  {
    forall x: nat, acc: nat
      ensures Denote(Bits8(x), 2, acc) == acc * 0x100 + x % 0x100
    {
      BitsFromDenote(x, 0x80, acc);
    }
  }

  /** The grouping macros put the groups in order, whatever a group looks like. */
  lemma {:induction false} GroupsDenote(x: nat, group: nat -> string, base: nat, size: nat, acc: nat)
    requires DenotesByte(group, base)
    requires size == 8 || size == 16 || size == 32 || size == 64
    ensures Denote(Groups(x, group, size), base, acc) == acc * Shift(size) + x % Shift(size)
    decreases size
  {
    if size > 8 {
      var half := Shift(size / 2);
      var mid := acc * half + x / half % half;
      HalvesJoin(x, acc, size);
      GroupsDenote(x / half, group, base, size / 2, acc);
      GroupsDenote(x, group, base, size / 2, mid);
      JoinDenotes(Groups(x / half, group, size / 2), Groups(x, group, size / 2), base, acc, mid, mid * half + x % half);
    }
  }

  lemma JoinDenotes(front: string, back: string, base: nat, acc: nat, mid: nat, end: nat)
    requires Denote(front, base, acc) == mid && Denote(back, base, mid) == end
    ensures Denote(front + " " + back, base, acc) == end
  {
    DenoteAppend(front + " ", back, base, acc);
    DenoteAppend(front, " ", base, acc);
    BlankDenotes(base, mid);
  }

  lemma BlankDenotes(base: nat, acc: nat)
    ensures Denote(" ", base, acc) == acc
  {
  }

  lemma HalvesJoin(x: nat, acc: nat, size: nat)
    requires size == 16 || size == 32 || size == 64
    ensures var half := Shift(size / 2);
            (acc * half + x / half % half) * half + x % half == acc * Shift(size) + x % Shift(size)
  {
    var half := Shift(size / 2);
    assert Shift(size) == half * half;
    ModSplit(x, half, half, Shift(size));
    var q := x / half % half;
    assert (acc * half + q) * half == acc * (half * half) + q * half;
  }

  /** The bits and the bytes forms denote the value in base 2 and in base 16. */
  lemma BitsAndBytesDenote(value: Word)
    ensures Denote(PrintFormat(value, FMT_BITS), 2, 0) == value
    ensures Denote(PrintFormat(value, FMT_BYTES), 16, 0) == value
  {
    hide Denote, Groups, DenotesByte;
    BitsDenote();
    BytesDenote();
    GroupsDenote(value, Bits8, 2, 64, 0);
    GroupsDenote(value, Bytes8, 16, 64, 0);
  }
}
