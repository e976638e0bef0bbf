/** The number parsers of Go's `strconv` package that the colour resolver
    calls with their error result ignored, so that what matters is the value
    they return in every case: `Atoi`, `ParseInt` and (for plain decimal
    numbers) `ParseFloat`. */
module Strconv {
  import opened Text

  /** The two integer widths the colour resolver asks for. */
  datatype IntSize = Int32 | Int64

  /** The largest unsigned value of the width (`maxVal` in `ParseUint`). */
  function MaxUnsigned(w: IntSize): nat {
    match w
    case Int32 => 0xFFFF_FFFF
    case Int64 => 0xFFFF_FFFF_FFFF_FFFF
  }

  /** 2^(bits-1): the magnitude of the most negative signed value. */
  function SignedCutoff(w: IntSize): nat {
    match w
    case Int32 => 0x8000_0000
    case Int64 => 0x8000_0000_0000_0000
  }

  const MaxInt64: int := 0x7FFF_FFFF_FFFF_FFFF
  const MinInt64: int := -0x8000_0000_0000_0000

  /** The value strconv gives a digit character in bases up to 36, or 36
      for a character that is no digit in any base. */
  function DigitValue(c: char): (d: nat)
    ensures d <= 36
    ensures d < 10 <==> IsDigit(c)
  {
    if '0' <= c <= '9' then c as nat - '0' as nat
    else if 'a' <= c <= 'z' then c as nat - 'a' as nat + 10
    else if 'A' <= c <= 'Z' then c as nat - 'A' as nat + 10
    else 36
  }

  /** What the digit loop of `ParseUint` reports. */
  datatype UintScan = UintOk(n: nat) | SyntaxError | RangeError

  /** The digit loop of `strconv.ParseUint` over s, with acc read so far: a
      character that is no digit of the base is a syntax error, and a value
      above maxVal is a range error, whichever comes first. */
  function ScanUint(s: string, base: nat, maxVal: nat, acc: nat): (r: UintScan)
    requires 2 <= base <= 36
    ensures r.UintOk? ==> acc <= r.n <= maxVal || (s == [] && r.n == acc)
    decreases |s|
  {
    if s == [] then UintOk(acc)
    else
      var d := DigitValue(s[0]);
      if d >= base then SyntaxError
      else if acc * base + d > maxVal then RangeError
      else
        MulGrows(acc, base);
        ScanUint(s[1..], base, maxVal, acc * base + d)
  }

  lemma MulGrows(acc: nat, base: nat)
    requires base >= 1
    ensures acc <= acc * base
  {
  }

  /** `strconv.ParseInt(s, base, bits)` with its error ignored: an optional
      sign, then the digits; 0 on a syntax error; the nearest representable
      value on a range error. */
  function ParseInt(s: string, base: nat, w: IntSize): (v: int)
    requires 2 <= base <= 36
    ensures -(SignedCutoff(w) as int) <= v <= SignedCutoff(w) as int - 1
  {
    if s == [] then 0
    else
      var neg := s[0] == '-';
      var body := if s[0] == '+' || s[0] == '-' then s[1..] else s;
      var cutoff: int := SignedCutoff(w);
      if body == [] then 0
      else
        match ScanUint(body, base, MaxUnsigned(w), 0)
        case SyntaxError => 0
        case RangeError => if neg then -cutoff else cutoff - 1
        case UintOk(un) =>
          if !neg && un >= cutoff then cutoff - 1
          else if neg && un > cutoff then -cutoff
          else if neg then -(un as int)
          else un
  }

  /** `strconv.Atoi(s)` on a 64-bit platform with its error ignored. Its fast
      path for short strings and its fallback `ParseInt(s, 10, 0)` return the
      same values, so the fallback stands for both. */
  function Atoi(s: string): (v: int)
    ensures MinInt64 <= v <= MaxInt64
  {
    ParseInt(s, 10, Int64)
  }

  /** Decimal digits of n, most significant first, no leading zeros. */
  function DecimalString(n: nat): (s: string)
    ensures |s| > 0
    ensures forall k :: 0 <= k < |s| ==> IsDigit(s[k])
  {
    if n < 10 then ['0' + n as char] else DecimalString(n / 10) + ['0' + (n % 10) as char]
  }

  /** Scanning s + [c] is scanning s, then one more digit step. */
  lemma {:induction false} ScanUintSnoc(s: string, c: char, base: nat, maxVal: nat, acc: nat)
    requires 2 <= base <= 36
    ensures ScanUint(s + [c], base, maxVal, acc) ==
              match ScanUint(s, base, maxVal, acc)
              case UintOk(v) => ScanUint([c], base, maxVal, v)
              case other => other
    decreases |s|
  {
    if s == [] {
      assert s + [c] == [c];
    } else {
      assert (s + [c])[1..] == s[1..] + [c];
      var d := DigitValue(s[0]);
      if d < base && acc * base + d <= maxVal {
        ScanUintSnoc(s[1..], c, base, maxVal, acc * base + d);
      }
    }
  }

  /** Reading the decimal digits of n gives back n, as long as it fits. */
  lemma {:induction false} ScanDecimal(n: nat, maxVal: nat)
    requires n <= maxVal
    ensures ScanUint(DecimalString(n), 10, maxVal, 0) == UintOk(n)
  {
    if n >= 10 {
      ScanDecimal(n / 10, maxVal);
      ScanUintSnoc(DecimalString(n / 10), '0' + (n % 10) as char, 10, maxVal, 0);
    }
  }

  /** Atoi reads back what the decimal formatting of a non-negative int64 writes. */
  lemma AtoiDecimal(n: nat)
    requires n <= MaxInt64
    ensures Atoi(DecimalString(n)) == n
  {
    ScanDecimal(n, MaxUnsigned(Int64));
  }

  /** A leading minus sign negates, down to the most negative int64. */
  lemma AtoiNegative(n: nat)
    requires n <= -MinInt64
    ensures Atoi("-" + DecimalString(n)) == -(n as int)
  {
    var s := "-" + DecimalString(n);
    assert s[1..] == DecimalString(n);
    ScanDecimal(n, MaxUnsigned(Int64));
  }

  /** A string that starts with neither a sign nor a decimal digit is a
      syntax error, which Atoi reports as 0. */
  lemma AtoiSyntaxError(s: string)
    requires s != [] && s[0] != '+' && s[0] != '-' && !IsDigit(s[0])
    ensures Atoi(s) == 0
  {
    assert DigitValue(s[0]) >= 10;
  }

  /** Lower-case hexadecimal digit of d. */
  function HexDigit(d: nat): (c: char)
    requires d < 16
    ensures DigitValue(c) == d
  {
    if d < 10 then '0' + d as char else 'a' + (d - 10) as char
  }

  /** Two lower-case hexadecimal digits of a byte value. */
  function HexPair(n: nat): (s: string)
    requires n < 256
    ensures |s| == 2
  {
    [HexDigit(n / 16), HexDigit(n % 16)]
  }

  /** `ParseInt(s, 16, 32)` reads back any two-digit hexadecimal pair. */
  lemma ParseHexPair(n: nat)
    requires n < 256
    ensures ParseInt(HexPair(n), 16, Int32) == n
  {
    ScanTwoHexDigits(HexPair(n));
  }

  /** One character left to scan: a digit step, then the end. */
  lemma ScanOneDigit(s: string, base: nat, maxVal: nat, acc: nat)
    requires 2 <= base <= 36 && |s| == 1
    ensures ScanUint(s, base, maxVal, acc) ==
              if DigitValue(s[0]) >= base then SyntaxError
              else if acc * base + DigitValue(s[0]) > maxVal then RangeError
              else UintOk(acc * base + DigitValue(s[0]))
  {
    assert s[1..] == [];
  }

  /** Two hexadecimal characters scan as one byte value, or as a syntax error. */
  lemma ScanTwoHexDigits(s: string)
    requires |s| == 2
    ensures ScanUint(s, 16, MaxUnsigned(Int32), 0) ==
              if DigitValue(s[0]) >= 16 || DigitValue(s[1]) >= 16 then SyntaxError
              else UintOk(DigitValue(s[0]) * 16 + DigitValue(s[1]))
  {
    var d0 := DigitValue(s[0]);
    if d0 < 16 {
      ScanOneDigit(s[1..], 16, MaxUnsigned(Int32), d0);
    }
  }

  /** `ParseInt(s, 16, 32)` of a two-character string, such as the three slices
      of `#rrggbb`, is a byte value, the negation of one hexadecimal digit, or
      0 when the pair does not parse. */
  lemma ParseTwoChars(s: string)
    requires |s| == 2
    ensures -15 <= ParseInt(s, 16, Int32) <= 255
    ensures ParseInt(s, 16, Int32) < 0 ==> s[0] == '-'
  {
    if s[0] == '+' || s[0] == '-' {
      ScanOneDigit(s[1..], 16, MaxUnsigned(Int32), 0);
    } else {
      ScanTwoHexDigits(s);
    }
  }

  /** Every character of s is a decimal digit. */
  predicate AllDigits(s: string) {
    forall k :: 0 <= k < |s| ==> IsDigit(s[k])
  }

  /** The value of a string of decimal digits. */
  function DigitsValue(s: string): nat
    requires AllDigits(s)
  {
    if s == [] then 0 else DigitsValue(s[..|s| - 1]) * 10 + (s[|s| - 1] as nat - '0' as nat)
  }

  function Pow10(n: nat): (p: nat)
    ensures p >= 1
  {
    if n == 0 then 1 else 10 * Pow10(n - 1)
  }

  /** `strconv.ParseFloat(s, 64)` with its error ignored, for the plain decimal
      forms: an optional sign, digits, an optional point and more digits, at
      least one digit in all. Every other string reads as 0, the value Go
      returns for a syntax error. */
  function ParseFloat(s: string): (r: real)
    ensures s != [] && AllDigits(s) ==> r == DigitsValue(s) as real
  {
    if s == [] then 0.0
    else
      var neg := s[0] == '-';
      var body := if s[0] == '+' || s[0] == '-' then s[1..] else s;
      var dot := IndexOf(body, '.');
      assert AllDigits(s) ==> body == s && dot == |s| && body[..dot] == s by {
        if AllDigits(s) {
          IndexOfAbsent(s, '.');
          assert s[..|s|] == s;
        }
      }
      var whole := body[..dot];
      var frac := if dot < |body| then body[dot + 1..] else [];
      if AllDigits(whole) && AllDigits(frac) && |whole| + |frac| > 0 then
        var v := DigitsValue(whole) as real + DigitsValue(frac) as real / Pow10(|frac|) as real;
        if neg then -v else v
      else 0.0
  }

  /** The decimal digits of n read back as a whole number. */
  lemma {:induction false} DigitsValueDecimal(n: nat)
    ensures DigitsValue(DecimalString(n)) == n
  {
    if n >= 10 {
      var s := DecimalString(n);
      assert s[..|s| - 1] == DecimalString(n / 10);
      DigitsValueDecimal(n / 10);
    }
  }

  /** ParseFloat reads back the decimal digits of a whole number. */
  lemma ParseFloatDecimal(n: nat)
    ensures ParseFloat(DecimalString(n)) == n as real
  {
    var s := DecimalString(n);
    IndexOfAbsent(s, '.');
    assert s[..|s|] == s;
    DigitsValueDecimal(n);
  }
}
