/**
 * The pieces of the C/C++ runtime the assembler relies on, stated over Dafny's unbounded
 * integers: the <cctype> character classes in the "C" locale, `std::stoll(s, nullptr, 0)`,
 * narrowing to `int32_t` / `uint32_t`, and integer division, which truncates toward zero.
 */
module CNumbers {
  import opened Common

  const NUL: char := '\0'

  // ---------------------------------------------------------------------------
  // Character classes (ASCII, "C" locale)

  /** `std::isspace`: space, tab, newline, vertical tab, form feed, carriage return. */
  predicate IsSpace(c: char) { c == ' ' || 9 <= c as int <= 13 }

  predicate IsDigit(c: char) { '0' <= c <= '9' }

  predicate IsAlpha(c: char) { 'a' <= c <= 'z' || 'A' <= c <= 'Z' }

  predicate IsAlnum(c: char) { IsAlpha(c) || IsDigit(c) }

  predicate IsXDigit(c: char) { IsDigit(c) || 'a' <= c <= 'f' || 'A' <= c <= 'F' }

  predicate IsOctDigit(c: char) { '0' <= c <= '7' }

  /** `std::tolower` */
  function ToLower(c: char): (r: char)
    ensures IsAlpha(c) ==> IsAlpha(r) && 'a' <= r <= 'z'
    ensures !('A' <= c <= 'Z') ==> r == c
  {
    if 'A' <= c <= 'Z' then (c as int - 'A' as int + 'a' as int) as char else c
  }

  // ---------------------------------------------------------------------------
  // std::stoll(s, nullptr, 0)

  const LLONG_MIN: int := -0x8000_0000_0000_0000
  const LLONG_MAX: int := 0x7FFF_FFFF_FFFF_FFFF

  /** What `std::stoll` does: a value, or the exception it throws. */
  datatype Conversion = Converted(value: int) | InvalidArgument | OutOfRange

  predicate IsDigitIn(c: char, base: int) {
    if base == 8 then IsOctDigit(c) else if base == 16 then IsXDigit(c) else IsDigit(c)
  }

  function DigitValue(c: char): (d: nat)
    ensures IsXDigit(c) ==> d < 16
    ensures IsDigit(c) ==> d < 10
    ensures IsOctDigit(c) ==> d < 8
  {
    if IsDigit(c) then c as int - '0' as int
    else if 'a' <= c <= 'f' then c as int - 'a' as int + 10
    else if 'A' <= c <= 'F' then c as int - 'A' as int + 10
    else 0
  }

  /** The longest prefix of `s` made of digits of the given base. */
  function DigitPrefix(s: string, base: int): (p: string)
    ensures |p| <= |s| && forall i :: 0 <= i < |p| ==> p[i] == s[i]
    ensures forall i :: 0 <= i < |p| ==> IsDigitIn(p[i], base)
    ensures |p| < |s| ==> !IsDigitIn(s[|p|], base)
  {
    if s == [] || !IsDigitIn(s[0], base) then [] else [s[0]] + DigitPrefix(s[1..], base)
  }

  /** The value of a digit string, most significant digit first. */
  function DigitsValue(digits: string, base: nat): nat {
    if digits == [] then 0
    else DigitsValue(digits[..|digits| - 1], base) * base + DigitValue(digits[|digits| - 1])
  }

  function SkipSpaces(s: string): (t: string)
    ensures |t| <= |s|
    ensures t == [] || !IsSpace(t[0])
  {
    if s != [] && IsSpace(s[0]) then SkipSpaces(s[1..]) else s
  }

  /** What `SkipSpaces` leaves is a suffix of its input. */
  lemma {:induction false} SkipSpacesIsSuffix(s: string)
    ensures SkipSpaces(s) == s[|s| - |SkipSpaces(s)|..]
    decreases |s|
  {
    if s != [] && IsSpace(s[0]) {
      SkipSpacesIsSuffix(s[1..]);
      assert s[1..][|s| - 1 - |SkipSpaces(s)|..] == s[|s| - |SkipSpaces(s)|..];
    }
  }

  /** A magnitude with its sign, or out of range: never a failure to find a number. */
  function Signed(negative: bool, magnitude: nat): (r: Conversion)
    ensures !r.InvalidArgument?
  {
    var v: int := if negative then -(magnitude as int) else magnitude;
    if v < LLONG_MIN || v > LLONG_MAX then OutOfRange else Converted(v)
  }

  /**
   * `std::stoll(s, nullptr, 0)`: leading white space, an optional sign, then the base is chosen
   * from the prefix ("0x"/"0X" and a hex digit: 16; a leading "0": 8; otherwise 10) and the
   * longest run of digits of that base is converted; what follows it is ignored. No digit at
   * all is `std::invalid_argument`; a value outside `long long` is `std::out_of_range`.
   */
  function StrToLL(s: string): (r: Conversion)
    ensures r.InvalidArgument? <==> var u := Unsigned(s); u == [] || !IsDigit(u[0])
  {
    var u := Unsigned(s);
    if u == [] || !IsDigit(u[0]) then InvalidArgument else Signed(Negative(s), Magnitude(u))
  }

  /** The value of the unsigned digits at the start of `u`, in the base their prefix selects. */
  function Magnitude(u: string): nat
    requires u != [] && IsDigit(u[0])
  {
    if |u| >= 3 && u[0] == '0' && (u[1] == 'x' || u[1] == 'X') && IsXDigit(u[2]) then
      DigitsValue(DigitPrefix(u[2..], 16), 16)
    else if u[0] == '0' then
      DigitsValue(DigitPrefix(u, 8), 8)
    else
      DigitsValue(DigitPrefix(u, 10), 10)
  }

  /** Text that starts with a digit has no white space or sign to skip. */
  lemma StartsWithDigit(s: string)
    requires s != [] && IsDigit(s[0])
    ensures StrToLL(s) == Signed(false, Magnitude(s))
  {
    NothingToSkip(s);
  }

  lemma NothingToSkip(s: string)
    requires s != [] && !IsSpace(s[0]) && s[0] != '-' && s[0] != '+'
    ensures Unsigned(s) == s && !Negative(s)
  {
    assert SkipSpaces(s) == s;
  }

  /** Whether the (space-skipped) text starts with a minus sign. */
  function Negative(s: string): bool {
    var t := SkipSpaces(s);
    t != [] && t[0] == '-'
  }

  /** The text after leading white space and an optional sign. */
  function Unsigned(s: string): string {
    var t := SkipSpaces(s);
    if t != [] && (t[0] == '-' || t[0] == '+') then t[1..] else t
  }

  // ---------------------------------------------------------------------------
  // Readings of particular shapes of text

  /** Text that starts like an identifier is not a number: `stoll` throws `invalid_argument`. */
  lemma IdentifierIsNotNumber(s: string)
    requires |s| > 0 && (IsAlpha(s[0]) || s[0] == '_')
    ensures StrToLL(s) == InvalidArgument
  {
    assert !IsSpace(s[0]) && !IsDigit(s[0]) && s[0] != '-' && s[0] != '+';
    assert SkipSpaces(s) == s;
    var u := Unsigned(s);
    assert u == s;
    assert !IsDigit(u[0]);
  }

  /** The longest digit prefix of a run of digits is the whole run. */
  lemma DigitPrefixOfDigits(s: string, base: int)
    requires forall i :: 0 <= i < |s| ==> IsDigitIn(s[i], base)
    ensures DigitPrefix(s, base) == s
  {
  }

  /** The longest digit prefix of a run of digits followed by a non-digit is that run. */
  lemma {:induction false} DigitPrefixStops(digits: string, rest: string, base: int)
    requires forall i :: 0 <= i < |digits| ==> IsDigitIn(digits[i], base)
    requires rest == [] || !IsDigitIn(rest[0], base)
    ensures DigitPrefix(digits + rest, base) == digits
  {
    if digits != [] {
      assert (digits + rest)[1..] == digits[1..] + rest;
      DigitPrefixStops(digits[1..], rest, base);
    } else {
      assert digits + rest == rest;
    }
  }

  /** A leading zero does not change a digit string's value. */
  lemma {:induction false} LeadingZero(digits: string, base: nat)
    ensures DigitsValue("0" + digits, base) == DigitsValue(digits, base)
  {
    if digits != [] {
      var init := digits[..|digits| - 1];
      assert ("0" + digits)[..|digits|] == "0" + init;
      LeadingZero(init, base);
    }
  }

  /**
   * A decimal literal without sign or leading zero reads as its decimal value, and is
   * `out_of_range` above `LLONG_MAX`.
   */
  lemma PlainDecimal(s: string)
    requires |s| > 0 && '1' <= s[0] <= '9' && forall i :: 0 <= i < |s| ==> IsDigit(s[i])
    ensures StrToLL(s) == if DigitsValue(s, 10) <= LLONG_MAX then Converted(DigitsValue(s, 10)) else OutOfRange
  {
    StartsWithDigit(s);
    DigitPrefixOfDigits(s, 10);
  }

  /** A decimal run without leading zero is read and whatever follows it is ignored. */
  lemma DecimalPrefix(digits: string, rest: string)
    requires |digits| > 0 && '1' <= digits[0] <= '9' && forall i :: 0 <= i < |digits| ==> IsDigit(digits[i])
    requires rest == [] || !IsDigit(rest[0])
    ensures StrToLL(digits + rest)
      == if DigitsValue(digits, 10) <= LLONG_MAX then Converted(DigitsValue(digits, 10)) else OutOfRange
  {
    var s := digits + rest;
    assert s[0] == digits[0];
    StartsWithDigit(s);
    MagnitudeDecimal(s);
    DigitPrefixStops(digits, rest, 10);
  }

  /**
   * "0x" or "0X" and a run of hex digits reads as a hexadecimal number; whatever follows the
   * run is ignored. Above `LLONG_MAX` it is `out_of_range`.
   */
  lemma HexLiteral(x: char, digits: string, rest: string)
    requires x == 'x' || x == 'X'
    requires |digits| > 0 && forall i :: 0 <= i < |digits| ==> IsXDigit(digits[i])
    requires rest == [] || !IsXDigit(rest[0])
    ensures StrToLL(['0', x] + (digits + rest))
      == if DigitsValue(digits, 16) <= LLONG_MAX then Converted(DigitsValue(digits, 16)) else OutOfRange
  {
    StartsWithDigit(['0', x] + (digits + rest));
    HexMagnitude(x, digits, rest);
  }

  lemma HexMagnitude(x: char, digits: string, rest: string)
    requires x == 'x' || x == 'X'
    requires |digits| > 0 && forall i :: 0 <= i < |digits| ==> IsXDigit(digits[i])
    requires rest == [] || !IsXDigit(rest[0])
    ensures Magnitude(['0', x] + (digits + rest)) == DigitsValue(digits, 16)
  {
    var tail := digits + rest;
    var s := ['0', x] + tail;
    assert s[2] == tail[0] == digits[0];
    assert s[2..] == tail;
    MagnitudeHex(s);
    DigitPrefixStops(digits, rest, 16);
  }

  /** With "0x"/"0X" and a hex digit, the magnitude is the hex run after the prefix. */
  lemma MagnitudeHex(u: string)
    requires |u| >= 3 && u[0] == '0' && (u[1] == 'x' || u[1] == 'X') && IsXDigit(u[2])
    ensures Magnitude(u) == DigitsValue(DigitPrefix(u[2..], 16), 16)
  {
  }

  /** With a leading "0" not followed by "x"/"X" and a hex digit, the magnitude is octal. */
  lemma MagnitudeOctal(u: string)
    requires u != [] && u[0] == '0'
    requires !(|u| >= 3 && (u[1] == 'x' || u[1] == 'X') && IsXDigit(u[2]))
    ensures Magnitude(u) == DigitsValue(DigitPrefix(u, 8), 8)
  {
  }

  /** Without a leading "0" the magnitude is decimal. */
  lemma MagnitudeDecimal(u: string)
    requires u != [] && '1' <= u[0] <= '9'
    ensures Magnitude(u) == DigitsValue(DigitPrefix(u, 10), 10)
  {
  }

  /**
   * A leading "0" makes the number octal: the run of octal digits after it is read and the
   * rest ignored, so "09" reads as 0. Only "0x"/"0X" with a hex digit after it is hexadecimal;
   * "0x" followed by anything else is the octal number 0.
   */
  lemma OctalPrefix(digits: string, rest: string)
    requires forall i :: 0 <= i < |digits| ==> IsOctDigit(digits[i])
    requires rest == [] || !IsOctDigit(rest[0])
    requires digits == [] ==> !(|rest| >= 2 && (rest[0] == 'x' || rest[0] == 'X') && IsXDigit(rest[1]))
    ensures StrToLL("0" + (digits + rest))
      == if DigitsValue(digits, 8) <= LLONG_MAX then Converted(DigitsValue(digits, 8)) else OutOfRange
  {
    StartsWithDigit("0" + (digits + rest));
    OctalMagnitude(digits, rest);
  }

  lemma OctalMagnitude(digits: string, rest: string)
    requires forall i :: 0 <= i < |digits| ==> IsOctDigit(digits[i])
    requires rest == [] || !IsOctDigit(rest[0])
    requires digits == [] ==> !(|rest| >= 2 && (rest[0] == 'x' || rest[0] == 'X') && IsXDigit(rest[1]))
    ensures Magnitude("0" + (digits + rest)) == DigitsValue(digits, 8)
  {
    var tail := digits + rest;
    var s := "0" + tail;
    assert s[1..] == tail;
    if digits != [] {
      assert s[1] == digits[0];
    }
    MagnitudeOctal(s);
    DigitPrefixStops(digits, rest, 8);
    assert DigitPrefix(s, 8) == "0" + digits;
    LeadingZero(digits, 8);
  }

  /**
   * A minus sign negates what the text after it reads as, and fails the same way when there
   * is no number.
   */
  lemma NegativeText(u: string)
    requires u == [] || (!IsSpace(u[0]) && u[0] != '-' && u[0] != '+')
    ensures StrToLL("-" + u).InvalidArgument? <==> StrToLL(u).InvalidArgument?
    ensures StrToLL(u).Converted? ==> StrToLL("-" + u) == Converted(-StrToLL(u).value)
  {
    assert SkipSpaces("-" + u) == "-" + u;
    assert Unsigned("-" + u) == u && Negative("-" + u);
    assert SkipSpaces(u) == u;
    assert Unsigned(u) == u && !Negative(u);
  }

  /** Leading white space is skipped: it does not change what the text reads as. */
  lemma LeadingSpace(s: string)
    requires s != [] && IsSpace(s[0])
    ensures StrToLL(s) == StrToLL(s[1..])
  {
    assert SkipSpaces(s) == SkipSpaces(s[1..]);
    assert Unsigned(s) == Unsigned(s[1..]) && Negative(s) == Negative(s[1..]);
  }

  /**
   * A '0' followed by neither an octal digit nor "x"/"X" and a hex digit is the octal number 0;
   * the text after the '0' is ignored.
   */
  lemma OctalZero(s: string)
    requires |s| >= 2 && s[0] == '0' && !IsOctDigit(s[1])
    requires !(|s| >= 3 && (s[1] == 'x' || s[1] == 'X') && IsXDigit(s[2]))
    ensures StrToLL(s) == Converted(0)
  {
    StartsWithDigit(s);
    MagnitudeOctal(s);
    assert DigitPrefix(s[1..], 8) == [];
    assert DigitPrefix(s, 8) == "0";
    LeadingZero("", 8);
  }

  /** One space and a minus sign before a digit: the magnitude after the sign, negated. */
  lemma NegativeAfterSpace(s: string)
    requires |s| >= 3 && IsSpace(s[0]) && s[1] == '-' && IsDigit(s[2])
    ensures StrToLL(s) == Signed(true, Magnitude(s[2..]))
  {
    assert SkipSpaces(s[1..]) == s[1..];
    assert SkipSpaces(s) == s[1..];
    assert s[1..][1..] == s[2..];
  }

  /** A '0' and two octal digits. */
  lemma OctalTwoDigits(s: string)
    requires |s| == 3 && s[0] == '0' && IsOctDigit(s[1]) && IsOctDigit(s[2])
    ensures StrToLL(s) == Converted(8 * DigitValue(s[1]) + DigitValue(s[2]))
  {
    ZeroAndTwoDigits(s);
    StartsWithDigit(s);
    MagnitudeOctal(s);
    DigitPrefixOfDigits(s, 8);
  }

  /** The value of a '0' and two octal digits. */
  lemma ZeroAndTwoDigits(s: string)
    requires |s| == 3 && s[0] == '0'
    ensures DigitsValue(s, 8) == 8 * DigitValue(s[1]) + DigitValue(s[2])
  {
    var init := s[..2];
    assert DigitsValue([s[0]], 8) == 0 by { assert [s[0]][..0] == []; }
    assert DigitsValue(init, 8) == DigitValue(s[1]) by { assert init[..1] == [s[0]]; }
    assert DigitsValue(s, 8) == DigitsValue(init, 8) * 8 + DigitValue(s[2]) by { assert s[..|s| - 1] == init; }
  }

  /** "0x" or "0X" and two hex digits. */
  lemma HexTwoDigits(u: string)
    requires |u| == 4 && u[0] == '0' && (u[1] == 'x' || u[1] == 'X') && IsXDigit(u[2]) && IsXDigit(u[3])
    ensures Magnitude(u) == 16 * DigitValue(u[2]) + DigitValue(u[3])
  {
    MagnitudeHex(u);
    var digits := u[2..];
    DigitPrefixOfDigits(digits, 16);
    assert DigitsValue(digits[..1], 16) == DigitValue(u[2]) by {
      assert digits[..1] == [u[2]] && [u[2]][..0] == [];
    }
    assert DigitsValue(digits, 16) == 16 * DigitValue(u[2]) + DigitValue(u[3]);
  }

  /** A worked octal reading: "010" is 8. */
  lemma OctalExample()
    ensures StrToLL("010") == Converted(8)
  {
    OctalTwoDigits("010");
  }

  /** "09" is octal and stops before the '9': it reads as 0. */
  lemma OctalStopsExample()
    ensures StrToLL("09") == Converted(0)
  {
    OctalZero("09");
  }

  /** "0xg" has no hex digit after the "0x": it reads as the octal 0 and ignores "xg". */
  lemma HexNeedsDigitExample()
    ensures StrToLL("0xg") == Converted(0)
  {
    OctalZero("0xg");
  }

  /** A worked hexadecimal reading: "0x1F" is 31. */
  lemma HexDigitsExample()
    ensures StrToLL("0x1F") == Converted(31)
  {
    HexLiteral('x', "1F", "");
    assert ['0', 'x'] + ("1F" + "") == "0x1F";
  }

  /** White space and a sign before a hexadecimal number: " -0x1F" is -31. */
  lemma HexExample()
    ensures StrToLL(" -0x1F") == Converted(-31)
  {
    var s := " -0x1F";
    NegativeAfterSpace(s);
    HexTwoDigits(s[2..]);
  }

  /** Text after the digits is ignored: "42abc" is 42. */
  lemma TrailingTextExample()
    ensures StrToLL("42abc") == Converted(42)
  {
    DecimalPrefix("42", "abc");
    assert "42" + "abc" == "42abc";
  }

  // ---------------------------------------------------------------------------
  // Narrowing conversions and division

  type int32 = x: int | -0x8000_0000 <= x < 0x8000_0000

  /** Conversion of an integer to `int32_t` (two's complement wrap-around). */
  function ToInt32(v: int): (r: int32)
    ensures -0x8000_0000 <= v < 0x8000_0000 ==> r == v
    ensures (r - v) % TWO_32 == 0
  {
    (v + 0x8000_0000) % TWO_32 - 0x8000_0000
  }

  /** Conversion of an integer to `uint32_t` (reduction modulo 2^32). */
  function ToUint32(v: int): (r: uint32)
    ensures 0 <= v < TWO_32 ==> r == v
    ensures (r - v) % TWO_32 == 0
  {
    v % TWO_32
  }

  /**
   * C++ `a / 4` on a signed integer: the quotient truncated toward zero (Dafny's `/` rounds
   * toward negative infinity instead).
   */
  function CDiv4(a: int): (q: int)
    ensures a >= 0 ==> q == a / 4 && 0 <= a - 4 * q < 4
    ensures a < 0 ==> -4 < a - 4 * q <= 0
    ensures a % 4 == 0 ==> 4 * q == a
  {
    if a >= 0 then a / 4 else -((-a) / 4)
  }
}
