/**
 * `Number.parseInt(s)` with no radix, on integers: leading white space is skipped, then an
 * optional sign, then an optional `0x`/`0X` prefix that selects base 16, then as many digits
 * of the base as follow.  With no digit the result is NaN.
 */
module JsNumber {
  import opened Wrappers
  import opened Text

  datatype Number = NaN | Num(value: int)

  /** The value of a hexadecimal digit character, or -1 for any other character. */
  function DigitValue(c: char): int {
    if '0' <= c <= '9' then c as int - '0' as int
    else if 'a' <= c <= 'f' then c as int - 'a' as int + 10
    else if 'A' <= c <= 'F' then c as int - 'A' as int + 10
    else -1
  }

  predicate IsDigit(c: char, radix: nat) {
    0 <= DigitValue(c) < radix
  }

  /** The longest prefix of `s` made of digits of the base. */
  function LeadingDigits(s: string, radix: nat): (d: string)
    ensures forall i :: 0 <= i < |d| ==> IsDigit(d[i], radix)
  {
    if s != [] && IsDigit(s[0], radix) then [s[0]] + LeadingDigits(s[1..], radix) else []
  }

  /** The digits read are a prefix of the text, and the character after them is no digit. */
  lemma {:induction false} LeadingDigitsLongest(s: string, radix: nat)
    ensures var d := LeadingDigits(s, radix);
      |d| <= |s| && d == s[..|d|] && (|d| == |s| || !IsDigit(s[|d|], radix))
  {
    if s != [] && IsDigit(s[0], radix) {
      LeadingDigitsLongest(s[1..], radix);
    }
  }

  /** `high` moved one digit to the left in the base. */
  function Shift(high: nat, radix: nat): nat {
    high * radix
  }

  /** The number a string of digits denotes in the base, most significant digit first. */
  function DigitsValue(d: string, radix: nat): nat
    requires forall i :: 0 <= i < |d| ==> IsDigit(d[i], radix)
  {
    if d == [] then 0
    else
      assert IsDigit(d[|d| - 1], radix);
      Shift(DigitsValue(d[..|d| - 1], radix), radix) + DigitValue(d[|d| - 1])
  }

  /**
   * The magnitude read after the sign: base 16 after a `0x`/`0X` prefix, base 10 otherwise,
   * None when no digit follows.
   */
  function ReadUnsigned(u: string): Option<nat> {
    var hex := |u| >= 2 && u[0] == '0' && (u[1] == 'x' || u[1] == 'X');
    var radix := if hex then 16 else 10;
    var digits := LeadingDigits(if hex then u[2..] else u, radix);
    if digits == [] then None else Some(DigitsValue(digits, radix))
  }

  /** The number read from text that starts after the leading white space. */
  function ParseTrimmed(t: string): Number {
    var negative := t != [] && t[0] == '-';
    var unsigned := if t != [] && (t[0] == '-' || t[0] == '+') then t[1..] else t;
    match ReadUnsigned(unsigned)
    case None => NaN
    case Some(v) => Num(if negative then -(v as int) else v)
  }

  /** `Number.parseInt(s)` */
  function ParseInt(s: string): Number {
    ParseTrimmed(TrimStart(s))
  }

  function DecimalDigit(n: nat): (c: char)
    requires n < 10
    ensures IsDigit(c, 10) && DigitValue(c) == n
  {
    ('0' as int + n) as char
  }

  /** The decimal notation of a natural number, without leading zeros. */
  function Decimal(n: nat): (s: string)
    ensures s != []
    ensures forall i :: 0 <= i < |s| ==> IsDigit(s[i], 10)
  {
    if n < 10 then [DecimalDigit(n)] else Decimal(n / 10) + [DecimalDigit(n % 10)]
  }

  /** Reading the decimal notation of `n` gives `n` back. */
  lemma {:induction false} DecimalValue(n: nat)
    ensures DigitsValue(Decimal(n), 10) == n
  {
    if n >= 10 {
      DecimalValue(n / 10);
      var s := Decimal(n);
      assert s[..|s| - 1] == Decimal(n / 10);
    }
  }

  /** The decimal notation of a number of two digits or more starts with a non-zero digit. */
  lemma {:induction false} DecimalNoLeadingZero(n: nat)
    requires n >= 10
    ensures Decimal(n)[0] != '0'
  {
    if n / 10 >= 10 {
      DecimalNoLeadingZero(n / 10);
    }
  }

  /** White space before a non-white character is skipped. */
  lemma {:induction false} TrimStartSkips(ws: string, t: string)
    requires forall i :: 0 <= i < |ws| ==> IsWhitespace(ws[i])
    requires t == [] || !IsWhitespace(t[0])
    ensures TrimStart(ws + t) == t
  {
    if ws != [] {
      assert (ws + t)[1..] == ws[1..] + t;
      TrimStartSkips(ws[1..], t);
    }
  }

  /** The digits read from `d + rest` are `d` when `rest` does not start with a digit. */
  lemma {:induction false} LeadingDigitsStop(d: string, rest: string, radix: nat)
    requires forall i :: 0 <= i < |d| ==> IsDigit(d[i], radix)
    requires rest == [] || !IsDigit(rest[0], radix)
    ensures LeadingDigits(d + rest, radix) == d
  {
    if d != [] {
      assert (d + rest)[1..] == d[1..] + rest;
      LeadingDigitsStop(d[1..], rest, radix);
    }
  }

  /**
   * The decimal notation of `n` followed by a non-digit reads as `n`; only a zero followed
   * by `x` or `X` would be read as a hexadecimal prefix instead.
   */
  lemma ReadUnsignedDecimal(n: nat, rest: string)
    requires rest == [] || (!IsDigit(rest[0], 10) && (n != 0 || (rest[0] != 'x' && rest[0] != 'X')))
    ensures ReadUnsigned(Decimal(n) + rest) == Some(n)
  {
    var d := Decimal(n);
    if n >= 10 {
      DecimalNoLeadingZero(n);
    } else {
      assert |d| == 1;
    }
    LeadingDigitsStop(d, rest, 10);
    DecimalValue(n);
  }

  /**
   * parseInt reads a decimal number after white space and an optional sign, and ignores
   * whatever follows the digits (a fraction, a unit, text).
   */
  lemma ParseIntDecimal(ws: string, sign: string, n: nat, rest: string)
    requires forall i :: 0 <= i < |ws| ==> IsWhitespace(ws[i])
    requires sign == "" || sign == "+" || sign == "-"
    requires rest == [] || (!IsDigit(rest[0], 10) && (n != 0 || (rest[0] != 'x' && rest[0] != 'X')))
    ensures ParseInt(ws + sign + Decimal(n) + rest) == Num(if sign == "-" then -(n as int) else n)
  {
    var d := Decimal(n);
    var unsigned := d + rest;
    var t := sign + unsigned;
    assert ParseInt(ws + t) == ParseTrimmed(t) by {
      assert !IsWhitespace(t[0]) by {
        assert IsDigit(unsigned[0], 10);
        assert t[0] == if sign == "" then unsigned[0] else sign[0];
      }
      TrimStartSkips(ws, t);
    }
    assert ParseTrimmed(t) == Num(if sign == "-" then -(n as int) else n) by {
      ReadUnsignedDecimal(n, rest);
      ParseSigned(sign, unsigned, n);
    }
    Regroup(ws, sign, d, rest);
  }

  /** After the white space, a sign in front of the magnitude decides the result's sign. */
  lemma ParseSigned(sign: string, unsigned: string, v: nat)
    requires sign == "" || sign == "+" || sign == "-"
    requires unsigned != [] && IsDigit(unsigned[0], 10)
    requires ReadUnsigned(unsigned) == Some(v)
    ensures ParseTrimmed(sign + unsigned) == Num(if sign == "-" then -(v as int) else v)
  {
    var t := sign + unsigned;
    if sign == "" {
      assert t == unsigned;
      assert t[0] != '-' && t[0] != '+';
    } else {
      assert t[0] == sign[0];
      assert t[1..] == unsigned;
    }
  }

  /** Without a digit after the white space and the sign, the result is NaN. */
  lemma ParseIntNoDigits(s: string)
    requires var t := TrimStart(s);
      var u := if t != [] && (t[0] == '+' || t[0] == '-') then t[1..] else t;
      u == [] || !IsDigit(u[0], 10)
    ensures ParseInt(s) == NaN
  {
    var t := TrimStart(s);
    var u := if t != [] && (t[0] == '+' || t[0] == '-') then t[1..] else t;
    assert ParseInt(s) == ParseTrimmed(t);
    assert ReadUnsigned(u) == None;
  }

  /** `parseInt(undefined)` reads the text "undefined" and finds no digit. */
  lemma ParseIntUndefined()
    ensures ParseInt("undefined") == NaN
  {
    assert TrimStart("undefined") == "undefined";
    assert LeadingDigits("undefined", 10) == [];
  }

  /** A `0x` prefix switches to base 16. */
  lemma ParseIntHex()
    ensures ParseInt("0x1A") == Num(26)
  {
    assert TrimStart("0x1A") == "0x1A";
    assert "0x1A"[2..] == "1A";
    assert LeadingDigits("1A", 16) == "1A";
    assert DigitsValue("1", 16) == 1;
    assert DigitsValue("1A", 16) == 26;
    assert ReadUnsigned("0x1A") == Some(26);
  }

  /** Concatenation regrouped to the right. */
  lemma Regroup(a: string, b: string, c: string, e: string)
    ensures a + b + c + e == a + (b + (c + e))
  {
  }
}
