/**
 The numeric reading of a roll number used to order the student list:
 `parseInt(rollNo) || 0`. JavaScript's `parseInt` with no radix skips
 leading whitespace, takes an optional sign, switches to base 16 after a
 `0x`/`0X` prefix, and reads the longest run of digits that follows; with
 no digits it yields NaN, which `|| 0` turns into 0 (as it does -0).
 Values are unbounded integers here rather than doubles.
 */
module Numbers {
  import opened Text

  /** Value of a digit in base 16 (which covers base 10), or -1. */
  function DigitValue(c: char): int {
    if '0' <= c <= '9' then c as int - '0' as int
    else if 'a' <= c <= 'f' then c as int - 'a' as int + 10
    else if 'A' <= c <= 'F' then c as int - 'A' as int + 10
    else -1
  }

  predicate IsRadixDigit(c: char, radix: nat) {
    0 <= DigitValue(c) < radix
  }

  predicate AllRadixDigits(s: string, radix: nat) {
    forall i :: 0 <= i < |s| ==> IsRadixDigit(s[i], radix)
  }

  /** Length of the longest prefix of `s` made of digits in `radix`. */
  function DigitRun(s: string, radix: nat): (n: nat)
    ensures n <= |s|
    ensures AllRadixDigits(s[..n], radix)
    ensures n == |s| || !IsRadixDigit(s[n], radix)
    decreases |s|
  {
    if |s| > 0 && IsRadixDigit(s[0], radix) then
      var n := 1 + DigitRun(s[1..], radix);
      assert s[..n] == [s[0]] + s[1..][..n - 1];
      n
    else
      0
  }

  /** Positional value of a digit string, most significant digit first. */
  function DigitsValue(s: string, radix: nat): nat
    requires AllRadixDigits(s, radix)
    decreases |s|
  {
    if |s| == 0 then 0
    else
      assert AllRadixDigits(s[..|s| - 1], radix);
      DigitsValue(s[..|s| - 1], radix) * radix + DigitValue(s[|s| - 1])
  }

  datatype Parsed = NaN | Num(value: int)

  /** The digits part of `parseInt`, after whitespace and sign: a `0x`
      or `0X` prefix selects base 16, and the longest run of digits that
      follows is read; no digits at all is NaN. */
  function ParseMagnitude(u: string): Parsed {
    var hex := |u| >= 2 && u[0] == '0' && (u[1] == 'x' || u[1] == 'X');
    var radix := if hex then 16 else 10;
    var v := if hex then u[2..] else u;
    var n := DigitRun(v, radix);
    if n == 0 then NaN else Num(DigitsValue(v[..n], radix))
  }

  function Negate(p: Parsed): Parsed {
    match p
    case NaN => NaN
    case Num(v) => Num(-v)
  }

  /** What follows the leading whitespace: an optional sign, then the
      magnitude. */
  function ParseSigned(t: string): Parsed {
    if |t| > 0 && t[0] == '-' then Negate(ParseMagnitude(t[1..]))
    else if |t| > 0 && t[0] == '+' then ParseMagnitude(t[1..])
    else ParseMagnitude(t)
  }

  /** `parseInt(s)` with the radix left undefined. Text without any
      decimal digit has nothing to read, in either base, and gives NaN. */
  function ParseInt(s: string): (r: Parsed)
    ensures (forall i :: 0 <= i < |s| ==> !IsDigit(s[i])) ==> r == NaN
  {
    var t := TrimStart(s);
    if forall i :: 0 <= i < |s| ==> !IsDigit(s[i]) then
      TrimStartKeepsNoDigits(s);
      SignedWithoutDigits(t);
      ParseSigned(t)
    else
      ParseSigned(t)
  }

  /** `parseInt(s) || 0`: NaN and 0 are the falsy results and both give 0;
      every other result is kept. */
  function ParseIntOrZero(s: string): (r: int)
    ensures ParseInt(s) == NaN ==> r == 0
    ensures ParseInt(s).Num? ==> r == ParseInt(s).value
    ensures r != 0 ==> ParseInt(s) == Num(r)
  {
    match ParseInt(s)
    case NaN => 0
    case Num(v) => v
  }

  function DigitChar(d: nat): char
    requires d < 10
  {
    ('0' as int + d) as char
  }

  /** Decimal text of a natural number, as `String(n)` writes it. */
  function ShowNat(n: nat): (r: string)
    ensures |r| >= 1 && AllRadixDigits(r, 10)
  {
    if n < 10 then [DigitChar(n)]
    else ShowNat(n / 10) + [DigitChar(n % 10)]
  }

  lemma {:induction false} ShowNatValue(n: nat)
    ensures DigitsValue(ShowNat(n), 10) == n
  {
    if n >= 10 {
      var s := ShowNat(n);
      assert s[..|s| - 1] == ShowNat(n / 10);
      ShowNatValue(n / 10);
    }
  }

  /** Leading whitespace is skipped up to the first other character. */
  lemma {:induction false} TrimStartSkipsSpace(ws: string, x: string)
    requires AllSpace(ws)
    requires x == [] || !IsSpace(x[0])
    ensures TrimStart(ws + x) == x
    decreases |ws|
  {
    if |ws| > 0 {
      assert (ws + x)[1..] == ws[1..] + x;
      TrimStartSkipsSpace(ws[1..], x);
    } else {
      assert ws + x == x;
    }
  }

  /** A run of decimal digits stops at the first character that is not
      one. */
  lemma {:induction false} DigitRunOfDigits(d: string, rest: string)
    requires AllRadixDigits(d, 10)
    requires rest == [] || !IsRadixDigit(rest[0], 10)
    ensures DigitRun(d + rest, 10) == |d|
    decreases |d|
  {
    if |d| > 0 {
      assert (d + rest)[1..] == d[1..] + rest;
      DigitRunOfDigits(d[1..], rest);
    } else {
      assert d + rest == rest;
    }
  }

  /** Reading back a decimal number: optional whitespace, the digits of
      `n`, then anything that is not a digit gives back `n`, except that
      after a lone `0` an `x` makes a hex prefix. So roll numbers such as
      "12", " 12", "12A" and "12x" all sort as 12. */
  lemma ParseDecimal(ws: string, n: nat, rest: string)
    requires AllSpace(ws)
    requires rest == [] || (!IsDigit(rest[0]) && (n == 0 ==> rest[0] != 'x' && rest[0] != 'X'))
    ensures ParseIntOrZero(ws + ShowNat(n) + rest) == n
  {
    var u := ShowNat(n) + rest;
    MagnitudeOfDecimal(n, rest);
    assert u[0] == ShowNat(n)[0] && IsRadixDigit(u[0], 10);
    assert ws + ShowNat(n) + rest == ws + u;
    TrimStartSkipsSpace(ws, u);
    assert u[0] != '-' && u[0] != '+';
  }

  /** The same with a minus sign in front of the digits gives `-n`. */
  lemma ParseNegativeDecimal(ws: string, n: nat, rest: string)
    requires AllSpace(ws)
    requires rest == [] || (!IsDigit(rest[0]) && (n == 0 ==> rest[0] != 'x' && rest[0] != 'X'))
    ensures ParseIntOrZero(ws + "-" + ShowNat(n) + rest) == -(n as int)
  {
    var u := ShowNat(n) + rest;
    MagnitudeOfDecimal(n, rest);
    assert ws + "-" + ShowNat(n) + rest == ws + ("-" + u);
    ParseAfterMinus(ws, u);
  }

  /** A minus sign after the leading whitespace negates what follows. */
  lemma ParseAfterMinus(ws: string, u: string)
    requires AllSpace(ws)
    ensures ParseInt(ws + ("-" + u)) == Negate(ParseMagnitude(u))
  {
    var x := "-" + u;
    assert x[0] == '-' && x[1..] == u;
    TrimStartSkipsSpace(ws, x);
  }

  lemma MagnitudeOfDecimal(n: nat, rest: string)
    requires rest == [] || (!IsDigit(rest[0]) && (n == 0 ==> rest[0] != 'x' && rest[0] != 'X'))
    ensures ParseMagnitude(ShowNat(n) + rest) == Num(n)
  {
    var d := ShowNat(n);
    ShowNatValue(n);
    if d == "0" {
      assert DigitsValue(d, 10) == 0;
    }
    DecimalNotHex(d, rest);
    DigitRunOfDigits(d, rest);
    assert (d + rest)[..|d|] == d;
    ShowNatValue(n);
  }

  /** Decimal digits form the hex prefix only when they are a lone `0`
      followed by an `x`. */
  lemma DecimalNotHex(d: string, rest: string)
    requires |d| >= 1 && AllRadixDigits(d, 10)
    requires rest == [] || d != "0" || (rest[0] != 'x' && rest[0] != 'X')
    ensures var u := d + rest; !(|u| >= 2 && u[0] == '0' && (u[1] == 'x' || u[1] == 'X'))
  {
    var u := d + rest;
    if |u| >= 2 {
      if |d| >= 2 {
        assert u[1] == d[1] && IsRadixDigit(d[1], 10);
      } else {
        assert u[1] == rest[0];
      }
    }
  }

  /** A `0x` prefix reads the rest in base 16, both cases of hex digit
      counting: "0x1A" sorts as 26. */
  lemma HexRollNumber()
    ensures ParseIntOrZero("0x1A") == 26
  {
    var u := "0x1A";
    NoLeadingSpace(u);
    assert u[0] == '0';
    HexMagnitude(u, u[2..]);
  }

  /** A sign goes before the prefix, and `0X` works as `0x`: "-0X1a" sorts
      as -26. */
  lemma NegativeHexRollNumber()
    ensures ParseIntOrZero("-0X1a") == -26
  {
    var t := "-0X1a";
    NoLeadingSpace(t);
    assert t[0] == '-' && t[1..] == "0X1a";
    HexMagnitude(t[1..], t[1..][2..]);
  }

  /** A hex prefix with no hex digit after it is NaN, so roll numbers
      such as "0x" and "0xG" sort as 0. */
  lemma EmptyHexSortsAsZero(u: string)
    requires |u| >= 2 && u[0] == '0' && (u[1] == 'x' || u[1] == 'X')
    requires |u| == 2 || !IsRadixDigit(u[2], 16)
    ensures ParseInt(u) == NaN
    ensures ParseIntOrZero(u) == 0
  {
    NoLeadingSpace(u);
    HexPrefixWithoutDigit(u);
  }

  lemma HexPrefixWithoutDigit(u: string)
    requires |u| >= 2 && u[0] == '0' && (u[1] == 'x' || u[1] == 'X')
    requires |u| == 2 || !IsRadixDigit(u[2], 16)
    ensures ParseMagnitude(u) == NaN
  {
    if |u| > 2 {
      assert u[2..][0] == u[2];
    }
  }

  /** Text that does not start with whitespace is parsed as it stands. */
  lemma NoLeadingSpace(t: string)
    requires |t| > 0 && (t[0] == '0' || t[0] == '-')
    ensures ParseInt(t) == ParseSigned(t)
  {
    assert !IsSpace(t[0]);
  }

  lemma HexMagnitude(u: string, v: string)
    requires u == "0x1A" || u == "0X1a"
    requires v == u[2..]
    ensures ParseMagnitude(u) == Num(26)
  {
    assert u[0] == '0' && (u[1] == 'x' || u[1] == 'X');
    assert |v| == 2 && IsRadixDigit(v[0], 16) && IsRadixDigit(v[1], 16);
    assert DigitRun(v[1..], 16) == 1;
    assert DigitRun(v, 16) == 2;
    assert v[..2] == v && v[..1] == "1";
    assert DigitValue(v[1]) == 10;
    assert "1"[..0] == [];
    assert DigitsValue(v[..1], 16) == 1;
    assert v[..|v| - 1] == v[..1];
    assert DigitsValue(v, 16) == 26;
  }

  lemma TrimStartKeepsNoDigits(s: string)
    requires forall i :: 0 <= i < |s| ==> !IsDigit(s[i])
    ensures forall i :: 0 <= i < |TrimStart(s)| ==> !IsDigit(TrimStart(s)[i])
  {
    var t := TrimStart(s);
    forall i | 0 <= i < |t|
      ensures !IsDigit(t[i])
    {
      assert t[i] == s[|s| - |t| + i];
    }
  }

  lemma SignedWithoutDigits(t: string)
    requires forall i :: 0 <= i < |t| ==> !IsDigit(t[i])
    ensures ParseSigned(t) == NaN
  {
    if |t| > 0 {
      MagnitudeWithoutDigits(t[1..]);
    }
    MagnitudeWithoutDigits(t);
  }

  /** Without a decimal digit there is nothing to read, in either base. */
  lemma MagnitudeWithoutDigits(u: string)
    requires forall i :: 0 <= i < |u| ==> !IsDigit(u[i])
    ensures ParseMagnitude(u) == NaN
  {
    if |u| > 0 {
      assert !IsRadixDigit(u[0], 10);
      assert u[0] != '0';
    }
  }
}
