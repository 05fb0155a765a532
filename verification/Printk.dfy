/** The printing of numbers: digits written backwards into a buffer of 64 bytes,
    padded to a width, and read back. */
module Printk {
  import opened Bits
  import opened Options

  const PRINT_BUF_LEN: nat := 64
  const TWO63: int := 0x8000_0000_0000_0000
  const NUL: char := '\0'

  /** flags & PAD_ZERO, with PAD_ZERO == 1 */
  predicate PadZero(flags: nat) {
    flags % 2 == 1
  }

  /** flags & PAD_RIGHT, with PAD_RIGHT == 2 */
  predicate PadRight(flags: nat) {
    flags / 2 % 2 == 1
  }

  // ---------- the text ----------

  function Repeat(c: char, n: int): (r: seq<char>)
    ensures |r| == if n > 0 then n else 0
    ensures forall i :: 0 <= i < |r| ==> r[i] == c
  {
    seq(if n > 0 then n else 0, _ => c)
  }

  function PadChar(width: int, flags: nat): char {
    if width > 0 && PadZero(flags) then '0' else ' '
  }

  function Padded(s: seq<char>, width: int, flags: nat): seq<char> {
    var pad := Repeat(PadChar(width, flags), width - |s|);
    if PadRight(flags) then s + pad else pad + s
  }

  predicate BaseOk(base: nat, letbase: char) {
    2 <= base <= 36 && (base > 10 ==> letbase == 'a' || letbase == 'A')
  }

  /** The character of one digit: t + '0', or t + letbase - 10. */
  function Digit(t: nat, letbase: char): char
    requires t < 36 && (t >= 10 ==> letbase == 'a' || letbase == 'A')
  {
    if t >= 10 then (letbase as int + t - 10) as char else ('0' as int + t) as char
  }

  /** u / base */
  function Rest(u: nat, base: nat): (r: nat)
    requires base >= 2
    ensures u > 0 ==> r < u
  {
    DivSmaller(u, base);
    u / base
  }

  lemma DivSmaller(u: nat, base: nat)
    requires base >= 2
    ensures 0 <= u / base && (u > 0 ==> u / base < u)
  {
    var q := u / base;
    assert u == q * base + u % base;
    if q >= 1 { assert q * base >= q * 2; }
  }

  /** u % base */
  function Last(u: nat, base: nat): (t: nat)
    requires base >= 2
    ensures t < base
  {
    u % base
  }

  lemma Rejoined(u: nat, base: nat)
    requires base >= 2
    ensures Rest(u, base) * base + Last(u, base) == u
  {
  }

  function Numeral(u: nat, base: nat, letbase: char): seq<char>
    requires BaseOk(base, letbase)
  {
    if u == 0 then [] else Numeral(Rest(u, base), base, letbase) + [Digit(Last(u, base), letbase)]
  }

  /** long long to unsigned long long */
  function Unsigned(i: int): nat
    requires -TWO63 <= i < TWO63
  {
    if i < 0 then i + U64 else i
  }

  predicate Negated(i: int, base: nat, sign: bool) {
    sign && base == 10 && i < 0
  }

  /** The value that is printed. */
  function Printed(i: int, base: nat, sign: bool): int
    requires -TWO63 <= i < TWO63
  {
    if Negated(i, base, sign) then i else Unsigned(i)
  }

  function Digits(i: int, base: nat, sign: bool, letbase: char): seq<char>
    requires BaseOk(base, letbase) && -TWO63 <= i < TWO63
  {
    if i == 0 then ['0'] else Numeral(if Negated(i, base, sign) then -i else Unsigned(i), base, letbase)
  }

  function Minus(i: int, base: nat, sign: bool): seq<char> {
    if Negated(i, base, sign) then ['-'] else []
  }

  /** The number without padding. */
  function Natural(i: int, base: nat, sign: bool, letbase: char): seq<char>
    requires BaseOk(base, letbase) && -TWO63 <= i < TWO63
  {
    Minus(i, base, sign) + Digits(i, base, sign, letbase)
  }

  /** Everything that one call emits: zeros are put between the sign and the digits, spaces before the sign. */
  function Text(i: int, base: nat, sign: bool, width: int, flags: nat, letbase: char): seq<char>
    requires BaseOk(base, letbase) && -TWO63 <= i < TWO63
  {
    var m, d := Minus(i, base, sign), Digits(i, base, sign, letbase);
    if m != [] && width != 0 && PadZero(flags) then m + Padded(d, width - 1, flags) else Padded(m + d, width, flags)
  }

  lemma TextCases(i: int, base: nat, sign: bool, width: int, flags: nat, letbase: char)
    requires BaseOk(base, letbase) && -TWO63 <= i < TWO63
    ensures var t, d := Text(i, base, sign, width, flags, letbase), Digits(i, base, sign, letbase);
      && (i == 0 ==> d == ['0'])
      && (i != 0 ==> d == Numeral(if Negated(i, base, sign) then -i else Unsigned(i), base, letbase))
      && t == (if !Negated(i, base, sign) then Padded(d, width, flags)
               else if width != 0 && PadZero(flags) then ['-'] + Padded(d, width - 1, flags)
               else Padded(['-'] + d, width, flags))
  {
    hide Numeral, Padded;
    var d := Digits(i, base, sign, letbase);
    assert [] + d == d;
  }

  // ---------- how long it is ----------

  lemma {:induction false} BinaryLength(u: nat, m: nat, letbase: char)
    requires u < Pow(2, m)
    ensures |Numeral(u, 2, letbase)| <= m
  {
    if u > 0 {
      assert m > 0;
      BinaryLength(u / 2, m - 1, letbase);
    }
  }

  lemma {:induction false} BinaryLong(u: nat, m: nat, letbase: char)
    requires u >= Pow(2, m)
    ensures |Numeral(u, 2, letbase)| > m
  {
    if m > 0 {
      BinaryLong(u / 2, m - 1, letbase);
    }
  }

  /** In a base of 3 or more two digits count for more than three bits. */
  lemma {:induction false} OtherLength(u: nat, base: nat, m: nat, letbase: char)
    requires BaseOk(base, letbase) && base >= 3 && u < Pow(8, m)
    ensures |Numeral(u, base, letbase)| <= 2 * m
  {
    hide Rest, Last, Digit;
    if u > 0 {
      var v := Rest(Rest(u, base), base);
      DivTwice(u, base);
      OtherLength(v, base, m - 1, letbase);
      assert |Numeral(u, base, letbase)| <= 2 + |Numeral(v, base, letbase)|;
    }
  }

  lemma DivTwice(u: nat, base: nat)
    requires base >= 3
    ensures Rest(Rest(u, base), base) <= u / 8
  {
    Shrinks(u, base);
    Shrinks(u / base, base);
  }

  lemma Shrinks(u: nat, base: nat)
    requires base >= 3
    ensures u / base <= u / 3
  {
    var q := u / base;
    assert q * base <= u;
    assert q * 3 <= q * base;
  }

  function Pow(b: nat, n: nat): nat {
    if n == 0 then 1 else b * Pow(b, n - 1)
  }

  lemma {:induction false} PowOf8(n: nat)
    ensures Pow(8, n) == Pow(2, 3 * n)
  {
    if n > 0 {
      PowOf8(n - 1);
      assert Pow(2, 3 * n) == 2 * Pow(2, 3 * n - 1) == 4 * Pow(2, 3 * n - 2) == 8 * Pow(2, 3 * n - 3);
    }
  }

  lemma {:induction false} PowSum(a: nat, b: nat)
    ensures Pow(2, a + b) == Pow(2, a) * Pow(2, b)
  {
    if a > 0 {
      PowSum(a - 1, b);
      MulAssoc(2, Pow(2, a - 1), Pow(2, b));
    }
  }

  lemma Powers()
    ensures Pow(2, 63) == TWO63 && Pow(2, 64) == U64 && Pow(8, 22) >= U64
  {
    assert Pow(2, 7) == 128;
    PowSum(7, 7);
    PowSum(14, 14);
    PowSum(28, 28);
    PowSum(56, 7);
    PowSum(63, 1);
    PowSum(64, 2);
    PowOf8(22);
  }

  /** The digits, a sign and the closing NUL fit the 64 bytes, except for a negative number in base 2. */
  lemma FitsBuffer(i: int, base: nat, sign: bool, letbase: char)
    requires BaseOk(base, letbase) && -0x8000_0000_0000_0000 <= i < 0x8000_0000_0000_0000
    ensures |Natural(i, base, sign, letbase)| < 64 <==> !(base == 2 && i < 0)
  {
    hide Pow, Numeral;
    Powers();
    var u: nat := if Negated(i, base, sign) then -i else Unsigned(i);
    if base == 2 {
      if i < 0 { BinaryLong(u, 63, letbase); } else { BinaryLength(u, 63, letbase); }
    } else {
      OtherLength(u, base, 22, letbase);
    }
  }

  /** The text is as long as asked for, or as the number needs. */
  lemma TextLength(i: int, base: nat, sign: bool, width: int, flags: nat, letbase: char)
    requires BaseOk(base, letbase) && -0x8000_0000_0000_0000 <= i < 0x8000_0000_0000_0000
    ensures var natural := |Natural(i, base, sign, letbase)|;
      |Text(i, base, sign, width, flags, letbase)| == if width > natural then width else natural
  {
    hide Digits;
  }

  /** The padding for each value of the flags, of which bit 0 is PAD_ZERO and bit 1 PAD_RIGHT: spaces before the number;
      zeros between its sign and its digits; spaces behind it; zeros behind it. */
  lemma FlagTexts(i: int, base: nat, sign: bool, width: int, flags: nat, letbase: char)
    requires BaseOk(base, letbase) && -0x8000_0000_0000_0000 <= i < 0x8000_0000_0000_0000
    ensures var t, n := Text(i, base, sign, width, flags, letbase), Natural(i, base, sign, letbase);
      var pad := width - |n|;
      && (flags % 4 == 0 ==> t == Repeat(' ', pad) + n)
      && (flags % 4 == 1 ==>
            t == if n != [] && n[0] == '-' then ['-'] + Repeat('0', pad) + n[1..] else Repeat('0', pad) + n)
      && (flags % 4 == 2 ==> t == n + Repeat(' ', pad))
      && (flags % 4 == 3 ==> t == n + Repeat('0', pad))
  {
    hide Text, Digits, Natural, Negated, Padded, PadZero, Repeat, BaseOk;
    var d := Digits(i, base, sign, letbase);
    TextCases(i, base, sign, width, flags, letbase);
    FirstDigit(i, base, sign, letbase);
    NaturalIs(i, base, sign, letbase);
    FlagBits(flags);
    if Negated(i, base, sign) {
      NegativeTexts(d, width, flags);
    } else {
      PadCases(d, width, flags);
    }
  }

  lemma NaturalIs(i: int, base: nat, sign: bool, letbase: char)
    requires BaseOk(base, letbase) && -TWO63 <= i < TWO63
    ensures var d := Digits(i, base, sign, letbase);
      Natural(i, base, sign, letbase) == if Negated(i, base, sign) then ['-'] + d else d
    ensures TWO63 == 0x8000_0000_0000_0000
  {
    hide Digits;
  }

  /** Both bits of the flags, by their value modulo 4. */
  lemma FlagBits(flags: nat)
    ensures PadZero(flags) <==> flags % 4 == 1 || flags % 4 == 3
    ensures PadRight(flags) <==> flags % 4 == 2 || flags % 4 == 3
  {
    hide Pow, Repeat, Numeral;
    var q, r := flags / 4, flags % 4;
    var high, low := if r >= 2 then 1 else 0, if r == 1 || r == 3 then 1 else 0;
    DivUnique(flags, 2, 2 * q + high, low);
    DivUnique(2 * q + high, 2, q, high);
  }

  /** The texts of a negative number with digits d. */
  lemma NegativeTexts(d: seq<char>, width: int, flags: nat)
    ensures var n := ['-'] + d;
      var t := if width != 0 && PadZero(flags) then ['-'] + Padded(d, width - 1, flags) else Padded(n, width, flags);
      var pad := width - |n|;
      && n[1..] == d
      && (flags % 4 == 0 ==> t == Repeat(' ', pad) + n)
      && (flags % 4 == 1 ==> t == ['-'] + Repeat('0', pad) + d)
      && (flags % 4 == 2 ==> t == n + Repeat(' ', pad))
      && (flags % 4 == 3 ==> t == n + Repeat('0', pad))
  {
    hide *;
    var n, pad := ['-'] + d, width - |d| - 1;
    FlagBits(flags);
    PadCases(n, width, flags);
    PadCases(d, width - 1, flags);
    Regroup(['-'], Repeat('0', pad), d);
    Regroup(['-'], d, Repeat('0', pad));
    NoPad('0', pad);
    Empty(['-']);
    Empty(n);
    assert [] + n == n;
  }

  /** The same for one string. */
  lemma PadCases(s: seq<char>, width: int, flags: nat)
    ensures flags % 4 == 0 ==> Padded(s, width, flags) == Repeat(' ', width - |s|) + s
    ensures flags % 4 == 1 ==> Padded(s, width, flags) == Repeat('0', width - |s|) + s
    ensures flags % 4 == 2 ==> Padded(s, width, flags) == s + Repeat(' ', width - |s|)
    ensures flags % 4 == 3 ==> Padded(s, width, flags) == s + Repeat('0', width - |s|)
  {
    hide PadZero, PadRight, Repeat;
    FlagBits(flags);
    if width <= 0 { NoPad('0', width - |s|); NoPad(' ', width - |s|); }
  }

  /** The digits have no sign, and no zero in front unless the number is zero. */
  lemma FirstDigit(i: int, base: nat, sign: bool, letbase: char)
    requires BaseOk(base, letbase) && -0x8000_0000_0000_0000 <= i < 0x8000_0000_0000_0000
    ensures var d := Digits(i, base, sign, letbase); d != [] && d[0] != '-' && (d[0] == '0' <==> i == 0)
  {
    hide Numeral;
    if i != 0 { NumeralFirst(if Negated(i, base, sign) then -i else Unsigned(i), base, letbase); }
  }

  /** Some texts, character by character. */
  lemma Examples()
    ensures Text(42, 10, true, 0, 0, 'a') == "42" && Text(42, 10, true, 5, 0, 'a') == "   42"
    ensures Text(42, 10, true, 5, 1, 'a') == "00042" && Text(42, 10, true, 5, 2, 'a') == "42   "
    ensures Text(-42, 10, true, 5, 0, 'a') == "  -42" && Text(-42, 10, true, 5, 1, 'a') == "-0042"
    ensures Text(0x2F, 16, false, 0, 0, 'a') == "2f" && Text(0x2F, 16, false, 4, 1, 'A') == "002F"
  {
    hide Numeral, Padded, Text, Digits, PadZero, PadRight;
    ExampleNumerals();
    ExamplePadding();
    FlagBits(0);
    FlagBits(1);
    TextCases(42, 10, true, 0, 0, 'a');
    TextCases(42, 10, true, 5, 0, 'a');
    TextCases(42, 10, true, 5, 1, 'a');
    TextCases(42, 10, true, 5, 2, 'a');
    TextCases(-42, 10, true, 5, 0, 'a');
    TextCases(-42, 10, true, 5, 1, 'a');
    TextCases(0x2F, 16, false, 0, 0, 'a');
    TextCases(0x2F, 16, false, 4, 1, 'A');
  }

  lemma ExamplePadding()
    ensures Padded("42", 0, 0) == "42" && Padded("42", 5, 0) == "   42" && Padded("42", 5, 1) == "00042"
    ensures Padded("42", 5, 2) == "42   " && Padded(['-'] + "42", 5, 0) == "  -42"
    ensures ['-'] + Padded("42", 4, 1) == "-0042"
    ensures Padded("2f", 0, 0) == "2f" && Padded("2F", 4, 1) == "002F"
  {
    hide Padded, Repeat;
    PadCases("42", 0, 0);
    PadCases("42", 5, 0);
    PadCases("42", 5, 1);
    PadCases("42", 5, 2);
    PadCases(['-'] + "42", 5, 0);
    PadCases("42", 4, 1);
    PadCases("2f", 0, 0);
    PadCases("2F", 4, 1);
    ExampleRepeats();
  }

  lemma ExampleRepeats()
    ensures Repeat(' ', -2) == "" && Repeat(' ', 2) == "  " && Repeat(' ', 3) == "   "
    ensures Repeat('0', 2) == "00" && Repeat('0', 3) == "000"
  {
  }

  lemma ExampleNumerals()
    ensures Numeral(42, 10, 'a') == "42" && Numeral(0x2F, 16, 'a') == "2f" && Numeral(0x2F, 16, 'A') == "2F"
  {
    assert Numeral(4, 10, 'a') == "4";
    assert Numeral(2, 16, 'a') == "2" && Numeral(2, 16, 'A') == "2";
  }

  lemma {:induction false} NumeralFirst(u: nat, base: nat, letbase: char)
    requires BaseOk(base, letbase) && u > 0
    ensures var n := Numeral(u, base, letbase); n != [] && n[0] != '-' && n[0] != '0'
  {
    Rejoined(u, base);
    hide Rest, Last;
    if Rest(u, base) > 0 { NumeralFirst(Rest(u, base), base, letbase); }
  }

  /** The characters for the digits of the bases up to 16. */
  lemma DigitCharacters(t: nat)
    requires t < 16
    ensures Digit(t, 'a') == "0123456789abcdef"[t]
    ensures Digit(t, 'A') == "0123456789ABCDEF"[t]
  {
  }

  // ---------- reading back ----------

  function DigitValue(c: char): nat {
    if '0' <= c <= '9' then c as int - '0' as int
    else if 'a' <= c <= 'z' then c as int - 'a' as int + 10
    else if 'A' <= c <= 'Z' then c as int - 'A' as int + 10
    else 36
  }

  predicate AllDigits(s: seq<char>, base: nat) {
    forall i :: 0 <= i < |s| ==> DigitValue(s[i]) < base
  }

  function Value(s: seq<char>, base: nat): (v: int)
    ensures v >= 0
  {
    if s == [] then 0 else Value(s[..|s| - 1], base) * base + DigitValue(s[|s| - 1])
  }

  function ReadDigits(s: seq<char>, base: nat): Option<int> {
    if s != [] && AllDigits(s, base) then Some(Value(s, base)) else None
  }

  function SkipLeft(s: seq<char>): seq<char> {
    if s != [] && s[0] == ' ' then SkipLeft(s[1..]) else s
  }

  function SkipRight(s: seq<char>): seq<char> {
    if s != [] && s[|s| - 1] == ' ' then SkipRight(s[..|s| - 1]) else s
  }

  /** A number with spaces around it and perhaps a sign before it. */
  function Read(s: seq<char>, base: nat): Option<int> {
    var t := SkipRight(SkipLeft(s));
    if t != [] && t[0] == '-' then
      match ReadDigits(t[1..], base) case Some(u) => Some(-u) case None => None
    else
      match ReadDigits(t, base) case Some(u) => Some(u) case None => None
  }

  lemma {:induction false} SkipsLeft(s: seq<char>, n: int)
    requires s != [] && s[0] != ' '
    ensures SkipLeft(Repeat(' ', n) + s) == s
    decreases n
  {
    var t := Repeat(' ', n) + s;
    if n > 0 {
      SkipsLeft(s, n - 1);
      assert t[0] == ' ' && t[1..] == Repeat(' ', n - 1) + s;
    } else {
      assert t == s;
    }
  }

  lemma {:induction false} SkipsRight(s: seq<char>, n: int)
    requires s != [] && s[|s| - 1] != ' '
    ensures SkipRight(s + Repeat(' ', n)) == s
    decreases n
  {
    var t := s + Repeat(' ', n);
    if n > 0 {
      SkipsRight(s, n - 1);
      assert t[|t| - 1] == ' ' && t[..|t| - 1] == s + Repeat(' ', n - 1);
    } else {
      assert t == s;
    }
  }

  /** Spaces around a number do not matter. */
  lemma Surrounded(s: seq<char>, left: int, right: int, base: nat)
    requires s != [] && s[0] != ' ' && s[|s| - 1] != ' '
    ensures Read(Repeat(' ', left) + s + Repeat(' ', right), base) == Read(s, base)
  {
    hide Read, SkipLeft, SkipRight, Repeat;
    var t := s + Repeat(' ', right);
    assert Repeat(' ', left) + s + Repeat(' ', right) == Repeat(' ', left) + t;
    SkipsLeft(t, left);
    SkipsRight(s, right);
    SkipsNothing(s);
    SameCore(Repeat(' ', left) + t, s, base);
  }

  lemma SkipsNothing(s: seq<char>)
    requires s != [] && s[0] != ' ' && s[|s| - 1] != ' '
    ensures SkipLeft(s) == s && SkipRight(s) == s
  {
  }

  lemma SameCore(s: seq<char>, t: seq<char>, base: nat)
    requires SkipRight(SkipLeft(s)) == SkipRight(SkipLeft(t))
    ensures Read(s, base) == Read(t, base)
  {
    hide SkipLeft, SkipRight, ReadDigits;
  }

  lemma DigitReads(t: nat, base: nat, letbase: char)
    requires BaseOk(base, letbase) && t < base
    ensures DigitValue(Digit(t, letbase)) == t
  {
  }

  lemma {:induction false} NumeralReads(u: nat, base: nat, letbase: char)
    requires BaseOk(base, letbase)
    ensures AllDigits(Numeral(u, base, letbase), base) && Value(Numeral(u, base, letbase), base) == u
    ensures u > 0 ==> Numeral(u, base, letbase) != []
  {
    hide Rest, Last, Digit, DigitValue;
    if u > 0 {
      NumeralReads(Rest(u, base), base, letbase);
      DigitReads(Last(u, base), base, letbase);
      Rejoined(u, base);
      var n := Numeral(u, base, letbase);
      assert n[..|n| - 1] == Numeral(Rest(u, base), base, letbase);
    }
  }

  predicate InCase(c: char, letbase: char) {
    '0' <= c <= '9' || (if letbase == 'a' then 'a' <= c <= 'z' else 'A' <= c <= 'Z')
  }

  /** Letters are upper or lower case as asked for. */
  lemma {:induction false} LettersInCase(u: nat, base: nat, letbase: char)
    requires BaseOk(base, letbase)
    ensures forall c :: c in Numeral(u, base, letbase) ==> InCase(c, letbase)
  {
    hide Rest, Last, InCase;
    if u > 0 {
      LettersInCase(Rest(u, base), base, letbase);
      DigitInCase(Last(u, base), letbase);
    }
  }

  lemma DigitInCase(t: nat, letbase: char)
    requires t < 36 && (t >= 10 ==> letbase == 'a' || letbase == 'A')
    ensures InCase(Digit(t, letbase), letbase)
  {
  }

  lemma {:induction false} ZerosBefore(s: seq<char>, n: int, base: nat)
    ensures Value(Repeat('0', n) + s, base) == Value(s, base)
    ensures base > 0 && AllDigits(s, base) ==> AllDigits(Repeat('0', n) + s, base)
    decreases |s|, n
  {
    var t := Repeat('0', n) + s;
    if s != [] {
      assert t[..|t| - 1] == Repeat('0', n) + s[..|s| - 1];
      ZerosBefore(s[..|s| - 1], n, base);
    } else if n > 0 {
      assert t[..|t| - 1] == Repeat('0', n - 1) + s;
      ZerosBefore(s, n - 1, base);
    }
  }

  /** Zeros behind a number multiply it. */
  lemma {:induction false} ZerosBehind(s: seq<char>, n: nat, base: nat)
    ensures Value(s + Repeat('0', n), base) == Value(s, base) * Pow(base, n)
    ensures base > 0 && AllDigits(s, base) ==> AllDigits(s + Repeat('0', n), base)
  {
    var t := s + Repeat('0', n);
    if n == 0 {
      assert t == s;
    } else {
      assert t[..|t| - 1] == s + Repeat('0', n - 1);
      ZerosBehind(s, n - 1, base);
      MulAssoc(Value(s, base), base, Pow(base, n - 1));
      MulAssoc(Value(s, base), Pow(base, n - 1), base);
    }
  }

  lemma DigitsRead(i: int, base: nat, sign: bool, letbase: char)
    requires BaseOk(base, letbase) && -TWO63 <= i < TWO63
    ensures var d := Digits(i, base, sign, letbase);
      && d != [] && AllDigits(d, base)
      && Printed(i, base, sign) == if Negated(i, base, sign) then -Value(d, base) else Value(d, base)
  {
    NumeralReads(if Negated(i, base, sign) then -i else Unsigned(i), base, letbase);
  }

  /** Some zeros go before the digits and some behind; spaces go around them and the sign. */
  lemma Shape(i: int, base: nat, sign: bool, width: int, flags: nat, letbase: char)
      returns (before: nat, behind: nat, left: nat, right: nat)
    requires BaseOk(base, letbase) && -TWO63 <= i < TWO63
    ensures var m, d := Minus(i, base, sign), Digits(i, base, sign, letbase);
      && Text(i, base, sign, width, flags, letbase)
         == Repeat(' ', left) + (m + (Repeat('0', before) + d + Repeat('0', behind))) + Repeat(' ', right)
      && (behind > 0 <==> PadZero(flags) && PadRight(flags) && width > |m + d|)
  {
    hide Digits, PadZero, PadRight;
    var m, d := Minus(i, base, sign), Digits(i, base, sign, letbase);
    var n: nat := if width > |m + d| then width - |m + d| else 0;
    before, behind, left, right := 0, 0, 0, 0;
    if PadZero(flags) {
      if PadRight(flags) { behind := n; } else { before := n; }
    } else {
      if PadRight(flags) { right := n; } else { left := n; }
    }
    assert Text(i, base, sign, width, flags, letbase)
        == Repeat(' ', left) + (m + (Repeat('0', before) + d + Repeat('0', behind))) + Repeat(' ', right);
  }

  lemma SignedReads(m: seq<char>, s: seq<char>, base: nat)
    requires m == [] || m == ['-']
    requires 2 <= base <= 36 && s != [] && AllDigits(s, base)
    ensures Read(m + s, base) == Some(if m == [] then Value(s, base) else -Value(s, base))
  {
    hide SkipLeft, SkipRight, AllDigits, Value, DigitValue;
    var t := m + s;
    NoSignOrSpace(s, base);
    assert t[|t| - 1] == s[|s| - 1];
    SkipsNothing(t);
    if m == [] { assert t == s; } else { assert t[1..] == s; }
  }

  lemma NoSignOrSpace(s: seq<char>, base: nat)
    requires 2 <= base <= 36 && s != [] && AllDigits(s, base)
    ensures s[0] != '-' && s[0] != ' ' && s[|s| - 1] != ' '
  {
    assert DigitValue(' ') == 36 && DigitValue('-') == 36;
  }

  /** What is printed reads back as the number, signed under sign in base 10 and else unsigned, except where zeros were
      asked for behind it. */
  lemma ReadsBack(i: int, base: nat, sign: bool, width: int, flags: nat, letbase: char)
    requires BaseOk(base, letbase) && -0x8000_0000_0000_0000 <= i < 0x8000_0000_0000_0000
    ensures Read(Text(i, base, sign, width, flags, letbase), base)
            == Some(if (sign && base == 10) || i >= 0 then i else i + 0x1_0000_0000_0000_0000)
       <==> !(flags % 4 == 3 && i != 0 && width > |Natural(i, base, sign, letbase)|)
  {
    hide Digits, Text, Read, AllDigits, Printed, Minus, PadZero, PadRight, Value, Pow, Repeat;
    PrintedNumber(i, base, sign);
    FlagBits(flags);
    SignIs(i, base, sign);
    var before, behind, left, right := Shape(i, base, sign, width, flags, letbase);
    var m, d := Minus(i, base, sign), Digits(i, base, sign, letbase);
    var z := Repeat('0', before) + d;
    var s := z + Repeat('0', behind);
    DigitsRead(i, base, sign, letbase);
    ZerosBefore(d, before, base);
    ZerosBehind(z, behind, base);
    SignedReads(m, s, base);
    Ends(m, s, base);
    Surrounded(m + s, left, right, base);
    PowGrows(Value(d, base), base, behind);
  }

  lemma SignIs(i: int, base: nat, sign: bool)
    ensures Minus(i, base, sign) == if Negated(i, base, sign) then ['-'] else []
    ensures i == 0 ==> !Negated(i, base, sign)
  {
  }

  lemma PrintedNumber(i: int, base: nat, sign: bool)
    requires -0x8000_0000_0000_0000 <= i < 0x8000_0000_0000_0000
    ensures Printed(i, base, sign) == if (sign && base == 10) || i >= 0 then i else i + 0x1_0000_0000_0000_0000
  {
  }

  lemma Ends(m: seq<char>, s: seq<char>, base: nat)
    requires (m == [] || m == ['-']) && 2 <= base <= 36 && s != [] && AllDigits(s, base)
    ensures (m + s)[0] != ' ' && (m + s)[|m + s| - 1] != ' '
  {
    hide AllDigits;
    NoSignOrSpace(s, base);
    assert (m + s)[|m + s| - 1] == s[|s| - 1];
  }

  lemma {:induction false} PowGrows(v: nat, base: nat, n: nat)
    requires base >= 2
    ensures v * Pow(base, n) == v <==> v == 0 || n == 0
  {
    if n > 0 {
      AtLeastTwo(base, n);
      if v > 0 { assert v * Pow(base, n) >= v * 2; }
    }
  }

  lemma {:induction false} AtLeastTwo(base: nat, n: nat)
    requires base >= 2 && n > 0
    ensures Pow(base, n) >= 2
  {
    if n > 1 {
      AtLeastTwo(base, n - 1);
      assert base * Pow(base, n - 1) >= base * 1;
    }
  }

  // ---------- the printer ----------

  /** Where the characters go: the UART, or the string of snprintf. */
  class Output {
    var text: seq<char>

    /** simple_outputchar */
    method OutputChar(c: char)
      modifies this
      ensures text == old(text) + [c]
    {
      text := text + [c];
    }

    method OutputMany(c: char, width: int) returns (pc: nat)
      modifies this
      ensures text == old(text) + Repeat(c, width) && pc == |Repeat(c, width)|
    {
      pc := 0;
      var w := width;
      while w > 0
        invariant w <= width && (width > 0 ==> w >= 0) && pc == if width > 0 then width - w else 0
        invariant text == old(text) + Repeat(c, pc)
      {
        OutputChar(c);
        assert Repeat(c, pc) + [c] == Repeat(c, pc + 1);
        pc := pc + 1;
        w := w - 1;
      }
    }

    method OutputString(buf: array<char>, start: nat, ghost str: seq<char>) returns (pc: nat)
      requires IsString(buf[..], start, str)
      modifies this
      ensures text == old(text) + str && pc == |str|
    {
      hide IsString;
      pc := 0;
      StringAt(buf[..], start, str, 0);
      while buf[start + pc] != NUL
        invariant pc <= |str| && start + pc < buf.Length && (buf[start + pc] != NUL <==> pc < |str|)
        invariant text == old(text) + str[..pc]
        decreases |str| - pc
      {
        StringAt(buf[..], start, str, pc);
        OutputChar(buf[start + pc]);
        Regroup(old(text), str[..pc], [str[pc]]);
        assert str[..pc] + [str[pc]] == str[..pc + 1];
        pc := pc + 1;
        StringAt(buf[..], start, str, pc);
      }
      assert str[..pc] == str;
    }

    /** for (ptr = string; *ptr; ++ptr) ++len */
    method Length(buf: array<char>, start: nat, ghost str: seq<char>) returns (len: nat)
      requires IsString(buf[..], start, str)
      ensures len == |str|
    {
      hide IsString;
      len := 0;
      StringAt(buf[..], start, str, 0);
      while buf[start + len] != NUL
        invariant len <= |str| && start + len < buf.Length && (buf[start + len] != NUL <==> len < |str|)
        decreases |str| - len
      {
        len := len + 1;
        StringAt(buf[..], start, str, len);
      }
    }

    /** prints, for the string that starts at index start and ends before the next NUL */
    method Prints(buf: array<char>, start: nat, width: int, flags: nat, ghost str: seq<char>) returns (pc: nat)
      requires IsString(buf[..], start, str)
      modifies this
      ensures text == old(text) + Padded(str, width, flags) && pc == |text| - |old(text)|
      ensures flags % 4 == 0 ==> text == old(text) + (Repeat(' ', width - |str|) + str)
      ensures flags % 4 == 1 ==> text == old(text) + (Repeat('0', width - |str|) + str)
      ensures flags % 4 == 2 ==> text == old(text) + (str + Repeat(' ', width - |str|))
      ensures flags % 4 == 3 ==> text == old(text) + (str + Repeat('0', width - |str|))
    {
      hide IsString, Repeat, Padded, PadZero, PadRight;
      PadCases(str, width, flags);
      pc := 0;
      var padchar := ' ';
      var w := width;
      if width > 0 {
        var len := Length(buf, start, str);
        w := if len >= width then 0 else width - len;
        if PadZero(flags) { padchar := '0'; }
      }
      ghost var before, behind := if PadRight(flags) then 0 else w, if PadRight(flags) then w else 0;
      PaddedIs(old(text), str, width, flags, padchar, before, behind);
      if !PadRight(flags) {
        pc := OutputMany(padchar, w);
        w := if w > 0 then 0 else w;
      }
      NoPad(padchar, w);
      ghost var head := text;
      var n := OutputString(buf, start, str);
      var m := OutputMany(padchar, w);
      pc := pc + n + m;
      Empty(old(text));
      assert text == head + str + Repeat(padchar, behind);
    }

    /** simple_outputi */
    method OutputI(i: int, base: nat, sign: bool, width: int, flags: nat, letbase: char) returns (pc: nat)
      requires BaseOk(base, letbase) && -0x8000_0000_0000_0000 <= i < 0x8000_0000_0000_0000
      requires sign && base == 10 ==> i > -0x8000_0000_0000_0000   // -LLONG_MIN is undefined in C
      requires !(base == 2 && i < 0)                   // see FitsBuffer
      modifies this
      ensures text == old(text) + Text(i, base, sign, width, flags, letbase)
      ensures pc == |text| - |old(text)|
    {
      hide Numeral, Padded, Text, Digits;
      TextCases(i, base, sign, width, flags, letbase);
      var buf := new char[PRINT_BUF_LEN];
      if i == 0 {
        buf[0] := '0';
        buf[1] := NUL;
        pc := Prints(buf, 0, width, flags, ['0']);
        return;
      }
      var neg := sign && base == 10 && i < 0;
      var u: nat := if neg then -i else if i < 0 then i + U64 else i;
      ghost var d := Digits(i, base, sign, letbase);
      FitsBuffer(i, base, sign, letbase);
      var s := WriteDigits(buf, u, base, letbase);
      pc := 0;
      var w := width;
      ghost var str := d;
      if neg {
        if width != 0 && PadZero(flags) {
          OutputChar('-');
          pc := pc + 1;
          w := w - 1;
        } else {
          s := s - 1;
          buf[s] := '-';
          str := ['-'] + d;
        }
      }
      var n := Prints(buf, s, w, flags, str);
      Regroup(old(text), ['-'], Padded(str, w, flags));
      pc := pc + n;
    }

    /** The loop that writes the digits backwards from the end of the buffer. */
    method WriteDigits(buf: array<char>, u: nat, base: nat, letbase: char) returns (s: nat)
      requires BaseOk(base, letbase) && buf.Length == 64 && |Numeral(u, base, letbase)| < 64
      modifies buf
      ensures s == 63 - |Numeral(u, base, letbase)|
      ensures IsString(buf[..], s, Numeral(u, base, letbase))
    {
      hide Rest, Last, Digit, Numeral;
      s := PRINT_BUF_LEN - 1;
      buf[s] := NUL;
      var rest := u;
      while rest != 0
        invariant s <= PRINT_BUF_LEN - 1 && |Numeral(rest, base, letbase)| <= s && buf[PRINT_BUF_LEN - 1] == NUL
        invariant Numeral(rest, base, letbase) + buf[s..PRINT_BUF_LEN - 1] == Numeral(u, base, letbase)
        decreases rest
      {
        ghost var before := buf[s..PRINT_BUF_LEN - 1];
        NumeralFits(rest, base, letbase);
        var t := Last(rest, base);
        s := s - 1;
        buf[s] := Digit(t, letbase);
        assert buf[s..PRINT_BUF_LEN - 1] == [Digit(t, letbase)] + before;
        Regroup(Numeral(Rest(rest, base), base, letbase), [Digit(t, letbase)], before);
        rest := Rest(rest, base);
      }
      NumeralOfZero(base, letbase);
      NoNul(u, base, letbase);
      assert buf[..][s..PRINT_BUF_LEN - 1] == buf[s..PRINT_BUF_LEN - 1];
    }
  }

  lemma NoPad(c: char, w: int)
    ensures w <= 0 ==> Repeat(c, w) == [] == Repeat(c, 0)
  {
  }

  lemma Empty(s: seq<char>)
    ensures s + [] == s
  {
  }

  /** Padding on one side and none on the other. */
  lemma PaddedIs(s: seq<char>, str: seq<char>, width: int, flags: nat, c: char, before: int, behind: int)
    requires c == PadChar(width, flags)
    requires var w := if width > 0 && |str| >= width then 0 else if width > 0 then width - |str| else width;
      if PadRight(flags) then before == 0 && behind == w else before == w && behind == 0
    ensures s + Padded(str, width, flags) == s + Repeat(c, before) + str + Repeat(c, behind)
    ensures |Padded(str, width, flags)| == |Repeat(c, before)| + |str| + |Repeat(c, behind)|
    ensures PadRight(flags) ==> s + Repeat(c, before) == s
  {
    hide PadChar, PadRight, Repeat;
    var pad := Repeat(c, width - |str|);
    NoPad(c, before);
    NoPad(c, behind);
    NoPad(c, width - |str|);
    Empty(s);
    Empty(s + str);
    Empty(s + pad + str);
    if PadRight(flags) { Regroup(s, str, pad); } else { Regroup(s, pad, str); }
  }

  /** str lies at index start, and ends with a NUL. */
  ghost predicate IsString(b: seq<char>, start: nat, str: seq<char>) {
    start + |str| < |b| && b[start..start + |str|] == str && b[start + |str|] == '\0' && '\0' !in str
  }

  lemma StringAt(b: seq<char>, start: nat, str: seq<char>, k: nat)
    requires IsString(b, start, str) && k <= |str|
    ensures start + |str| < |b| && (b[start + k] != '\0' <==> k < |str|) && (k < |str| ==> b[start + k] == str[k])
  {
    if k < |str| { assert b[start..start + |str|][k] == b[start + k]; }
  }

  lemma {:induction false} NoNul(u: nat, base: nat, letbase: char)
    requires BaseOk(base, letbase)
    ensures '\0' !in Numeral(u, base, letbase)
  {
    hide Rest, Last, Digit;
    if u > 0 {
      NoNul(Rest(u, base), base, letbase);
      DigitIsNotNul(Last(u, base), letbase);
    }
  }

  lemma DigitIsNotNul(t: nat, letbase: char)
    requires t < 36 && (t >= 10 ==> letbase == 'a' || letbase == 'A')
    ensures Digit(t, letbase) != '\0'
  {
  }

  lemma NumeralOfZero(base: nat, letbase: char)
    requires BaseOk(base, letbase)
    ensures Numeral(0, base, letbase) == []
  {
  }

  lemma NumeralFits(u: nat, base: nat, letbase: char)
    requires BaseOk(base, letbase) && u > 0
    ensures Numeral(u, base, letbase) == Numeral(Rest(u, base), base, letbase) + [Digit(Last(u, base), letbase)]
  {
    hide Rest, Last, Digit;
  }

  lemma Regroup(a: seq<char>, b: seq<char>, c: seq<char>)
    ensures (a + b) + c == a + (b + c)
  {
  }
}
