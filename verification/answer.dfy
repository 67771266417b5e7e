/**
 * The check applied to the typed study time (minutes) before it is stored:
 * the answer is rejected when JavaScript's `parseInt` reads a number above
 * the minutes of one day, or else when it is not a non-empty run of ASCII
 * digits; otherwise it is accepted as typed.
 */
module Answer {

  /** Minutes in one day, the largest accepted duration. */
  const MinutesPerDay := 1440

  /** Outcome of checking one answer: accepted, or one of the two errors. */
  datatype Verdict =
    | Accepted
    | ExceedsDay          // "It's exceeding the time on a day."
    | NotHalfWidthDigits  // "Please enter in half-width numbers."

  /** The result of `parseInt`: not-a-number, or an integer. */
  datatype Number = NaN | Int(value: int)

  /** JavaScript's white space and line terminators, which `parseInt`
      skips at the start of its argument. */
  predicate IsJsWhiteSpace(c: char)
  {
    var n := c as int;
    n == 0x09 || n == 0x0B || n == 0x0C || n == 0x20 || n == 0xA0 || n == 0xFEFF
    || n == 0x1680 || (0x2000 <= n <= 0x200A) || n == 0x202F || n == 0x205F || n == 0x3000
    || n == 0x0A || n == 0x0D || n == 0x2028 || n == 0x2029
  }

  /** `s` without its leading white space. */
  function TrimStart(s: string): string
  {
    if s != [] && IsJsWhiteSpace(s[0]) then TrimStart(s[1..]) else s
  }

  /** The value of `c` as a digit of a radix up to 36 (`0`-`9`, then
      letters in either case), or 36 when `c` is no digit at all. */
  function DigitValue(c: char): nat
  {
    if '0' <= c <= '9' then (c as int) - ('0' as int)
    else if 'a' <= c <= 'z' then (c as int) - ('a' as int) + 10
    else if 'A' <= c <= 'Z' then (c as int) - ('A' as int) + 10
    else 36
  }

  /** Every character of `s` is a digit of `radix`. */
  predicate AllRadixDigits(s: string, radix: nat)
  {
    forall i :: 0 <= i < |s| ==> DigitValue(s[i]) < radix
  }

  /** The length of the longest prefix of `s` made of digits of `radix`. */
  function LeadingDigits(s: string, radix: nat): (n: nat)
    ensures n <= |s|
    ensures forall i :: 0 <= i < n ==> DigitValue(s[i]) < radix
    ensures n < |s| ==> DigitValue(s[n]) >= radix
  {
    if s == [] || DigitValue(s[0]) >= radix then 0 else 1 + LeadingDigits(s[1..], radix)
  }

  /** The value of the numeral `s`, most significant digit first. */
  function NumeralValue(s: string, radix: nat): nat
  {
    if s == [] then 0 else NumeralValue(s[..|s| - 1], radix) * radix + DigitValue(s[|s| - 1])
  }

  /** `parseInt(s)` with no radix argument: skip leading white space, take
      an optional sign, then read the numeral that follows. (Negative zero
      is `Int(0)`: it compares like zero.) */
  function ParseInt(s: string): (r: Number)
    ensures TrimStart(s) == [] ==> r == NaN
    ensures var t := TrimStart(s);
      t != [] && t[0] != '-' && t[0] != '+' && DigitValue(t[0]) >= 10 ==> r == NaN
  {
    var t := TrimStart(s);
    if t != [] && t[0] == '-' then Negate(ParseUnsigned(t[1..]))
    else if t != [] && t[0] == '+' then ParseUnsigned(t[1..])
    else ParseUnsigned(t)
  }

  function Negate(n: Number): Number
  {
    match n
    case NaN => NaN
    case Int(v) => Int(-v)
  }

  /** A hexadecimal numeral after `0x` or `0X`, a decimal one otherwise. */
  function ParseUnsigned(u: string): Number
  {
    if |u| >= 2 && u[0] == '0' && (u[1] == 'x' || u[1] == 'X') then ParseRadix(u[2..], 16)
    else ParseRadix(u, 10)
  }

  /** The numeral in the longest prefix of `v` made of digits of `radix`;
      no digit at all is NaN. */
  function ParseRadix(v: string, radix: nat): Number
  {
    var n := LeadingDigits(v, radix);
    if n == 0 then NaN else Int(NumeralValue(v[..n], radix))
  }

  /** The ASCII digits, JavaScript's `\d`. */
  predicate IsAsciiDigit(c: char)
  {
    '0' <= c <= '9'
  }

  /** `s` matches `/^\d*$/`: every character is an ASCII digit. */
  predicate AllAsciiDigits(s: string)
  {
    forall i :: 0 <= i < |s| ==> IsAsciiDigit(s[i])
  }

  /** The answer check, in the source's order: the `parseInt` bound first,
      then the digits-only and non-empty test. */
  function CheckAnswer(answer: string): (v: Verdict)
    ensures v == Accepted ==> answer != "" && AllAsciiDigits(answer) && NumeralValue(answer, 10) <= MinutesPerDay
    ensures answer == "" ==> v == NotHalfWidthDigits
  {
    if answer != "" && AllAsciiDigits(answer) then ParseIntOfDigits(answer); CheckAnswerSteps(answer)
    else CheckAnswerSteps(answer)
  }

  /** The two tests of the answer check, in the source's order. */
  function CheckAnswerSteps(answer: string): Verdict
  {
    var parsed := ParseInt(answer);
    if parsed.Int? && parsed.value > MinutesPerDay then ExceedsDay
    else if !AllAsciiDigits(answer) || answer == "" then NotHalfWidthDigits
    else Accepted
  }

  /** The longest prefix of radix digits of `digits + rest` is `digits`
      when `rest` does not go on with another digit. */
  lemma {:induction false} LeadingDigitsRun(digits: string, rest: string, radix: nat)
    requires AllRadixDigits(digits, radix)
    requires rest == [] || DigitValue(rest[0]) >= radix
    ensures LeadingDigits(digits + rest, radix) == |digits|
  {
    if digits == [] {
      assert digits + rest == rest;
    } else {
      assert (digits + rest)[1..] == digits[1..] + rest;
      LeadingDigitsRun(digits[1..], rest, radix);
    }
  }

  /** A digit of radix 10 is an ASCII digit. */
  lemma DecimalDigitIsAscii(c: char)
    ensures DigitValue(c) < 10 <==> IsAsciiDigit(c)
  {
  }

  /** `parseInt` reads a leading run of ASCII digits as a decimal numeral
      and ignores what follows it (unless the run is a lone `0` that
      starts a hexadecimal `0x`). */
  lemma ParseIntOfDigitsPrefix(digits: string, rest: string)
    requires digits != [] && AllAsciiDigits(digits)
    requires rest == [] || !IsAsciiDigit(rest[0])
    requires |digits| >= 2 || rest == [] || (rest[0] != 'x' && rest[0] != 'X')
    ensures ParseInt(digits + rest) == Int(NumeralValue(digits, 10))
  {
    var s := digits + rest;
    assert IsAsciiDigit(s[0]);
    assert TrimStart(s) == s;
    assert |s| >= 2 ==> s[1] != 'x' && s[1] != 'X';
    assert ParseUnsigned(s) == ParseRadix(s, 10);
    forall i | 0 <= i < |digits|
      ensures DigitValue(digits[i]) < 10
    {
      DecimalDigitIsAscii(digits[i]);
    }
    assert AllRadixDigits(digits, 10);
    if rest != [] {
      DecimalDigitIsAscii(rest[0]);
    }
    LeadingDigitsRun(digits, rest, 10);
    assert s[..|digits|] == digits;
  }

  /** On a non-empty run of ASCII digits `parseInt` is the decimal value
      of the whole run (leading zeros included, no hexadecimal reading). */
  lemma ParseIntOfDigits(s: string)
    requires s != [] && AllAsciiDigits(s)
    ensures ParseInt(s) == Int(NumeralValue(s, 10))
  {
    ParseIntOfDigitsPrefix(s, []);
    assert s + [] == s;
  }

  /** An answer is accepted exactly when it is a non-empty run of ASCII
      digits whose decimal value is at most 1440. */
  lemma AcceptedIff(answer: string)
    ensures CheckAnswer(answer) == Accepted
            <==> answer != "" && AllAsciiDigits(answer) && NumeralValue(answer, 10) <= MinutesPerDay
  {
    if answer != "" && AllAsciiDigits(answer) {
      ParseIntOfDigits(answer);
    }
  }

  /** A run of digits worth more than a day gets the day error, not the
      format error: the bound is checked first. */
  lemma DigitsOverDayExceed(answer: string)
    requires answer != "" && AllAsciiDigits(answer) && NumeralValue(answer, 10) > MinutesPerDay
    ensures CheckAnswer(answer) == ExceedsDay
  {
    ParseIntOfDigits(answer);
  }

  /** The empty answer gets the format error. */
  lemma EmptyAnswerRejected()
    ensures CheckAnswer("") == NotHalfWidthDigits
  {
  }

  /** Any answer holding a character other than an ASCII digit is
      rejected, with one of the two errors. */
  lemma NonDigitRejected(answer: string, i: nat)
    requires i < |answer| && !IsAsciiDigit(answer[i])
    ensures CheckAnswer(answer) != Accepted
  {
  }

  /** A leading zero does not change a numeral's value. */
  lemma {:induction false} LeadingZeroValue(s: string, radix: nat)
    ensures NumeralValue("0" + s, radix) == NumeralValue(s, radix)
  {
    if s != [] {
      assert ("0" + s)[..|s|] == "0" + s[..|s| - 1];
      LeadingZeroValue(s[..|s| - 1], radix);
    } else {
      assert ("0" + s)[..0] == [];
    }
  }

  /** Leading zeros are accepted as typed: putting a zero in front of a
      non-empty answer does not change whether it is accepted. */
  lemma LeadingZeroKeepsAcceptance(answer: string)
    requires answer != ""
    ensures CheckAnswer("0" + answer) == Accepted <==> CheckAnswer(answer) == Accepted
  {
    AcceptedIff(answer);
    AcceptedIff("0" + answer);
    LeadingZeroValue(answer, 10);
    assert AllAsciiDigits("0" + answer) <==> AllAsciiDigits(answer) by {
      assert forall i :: 0 <= i < |answer| ==> ("0" + answer)[i + 1] == answer[i];
    }
  }

  /** A single digit is worth at most 9. */
  lemma SingleDigitSmall(s: string)
    requires |s| == 1 && AllAsciiDigits(s)
    ensures NumeralValue(s, 10) <= 9
  {
    assert s[..0] == [];
  }

  /** Digits worth more than a day followed by anything that is not a
      digit (letters, a point, a space) get the day error and not the
      format error: `parseInt` reads the numeric prefix, and that test
      runs first. */
  lemma NumericPrefixExceeds(digits: string, rest: string)
    requires digits != [] && AllAsciiDigits(digits) && NumeralValue(digits, 10) > MinutesPerDay
    requires rest == [] || !IsAsciiDigit(rest[0])
    ensures CheckAnswer(digits + rest) == ExceedsDay
  {
    if |digits| == 1 {
      SingleDigitSmall(digits);
    }
    ParseIntOfDigitsPrefix(digits, rest);
  }

  /** `parseInt` reads `0x` followed by hexadecimal digits as a
      hexadecimal numeral, and ignores what follows the digits. */
  lemma ParseIntOfHex(hex: string, rest: string)
    requires hex != [] && AllRadixDigits(hex, 16)
    requires rest == [] || DigitValue(rest[0]) >= 16
    ensures ParseInt("0x" + hex + rest) == Int(NumeralValue(hex, 16))
  {
    var s := "0x" + hex + rest;
    assert ParseInt(s) == ParseRadix(hex + rest, 16) by {
      assert s[0] == '0' && s[1] == 'x';
      assert !IsJsWhiteSpace(s[0]);
      assert TrimStart(s) == s;
      assert s[2..] == hex + rest;
    }
    assert ParseRadix(hex + rest, 16) == Int(NumeralValue(hex, 16)) by {
      LeadingDigitsRun(hex, rest, 16);
      assert (hex + rest)[..|hex|] == hex;
    }
  }

  /** A hexadecimal numeral worth more than a day (`0x5A1` is 1441) gets
      the day error. */
  lemma HexOverDayExceeds(hex: string, rest: string)
    requires hex != [] && AllRadixDigits(hex, 16)
    requires NumeralValue(hex, 16) > MinutesPerDay
    requires rest == [] || DigitValue(rest[0]) >= 16
    ensures CheckAnswer("0x" + hex + rest) == ExceedsDay
  {
    ParseIntOfHex(hex, rest);
  }

  /** White space before the answer does not change what `parseInt`
      reads. */
  lemma {:induction false} LeadingWhiteSpaceSkipped(ws: string, s: string)
    requires forall i :: 0 <= i < |ws| ==> IsJsWhiteSpace(ws[i])
    requires s == [] || !IsJsWhiteSpace(s[0])
    ensures ParseInt(ws + s) == ParseInt(s)
    ensures TrimStart(ws + s) == s
  {
    if ws == [] {
      assert ws + s == s;
    } else {
      assert (ws + s)[1..] == ws[1..] + s;
      LeadingWhiteSpaceSkipped(ws[1..], s);
    }
  }
}
