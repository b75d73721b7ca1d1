/** Decimal text of integers: how the page prints numbers (template literals,
    `String(n)`) and how it reads them back (`parseInt`). */
module DecimalText {
  import opened Wrappers

  predicate IsDigit(c: char) {
    '0' <= c <= '9'
  }

  predicate AllDigits(s: string) {
    forall i :: 0 <= i < |s| ==> IsDigit(s[i])
  }

  function DigitChar(d: int): char
    requires 0 <= d < 10
  {
    ('0' as int + d) as char
  }

  function DigitValue(c: char): int
    requires IsDigit(c)
  {
    c as int - '0' as int
  }

  function Pow10(k: nat): (r: nat)
    ensures r >= 1
  {
    if k == 0 then 1 else 10 * Pow10(k - 1)
  }

  /** The decimal digits of n, left-padded with '0' to at least `width` characters. */
  function Digits(n: nat, width: nat): string
    decreases n, width
  {
    if n < 10 && width <= 1 then [DigitChar(n)]
    else Digits(n / 10, if width > 0 then width - 1 else 0) + [DigitChar(n % 10)]
  }

  /** The number a string of decimal digits denotes (most significant digit first). */
  function Value(s: string): nat
    requires AllDigits(s)
  {
    if s == [] then 0 else Value(s[..|s| - 1]) * 10 + DigitValue(s[|s| - 1])
  }

  /** The shortest decimal text of n (no padding). */
  function Decimal(n: nat): string {
    Digits(n, 1)
  }

  /** `String(i)` for an integer: a '-' sign before the digits of a negative number. */
  function IntToString(i: int): string {
    if i < 0 then "-" + Decimal(-i) else Decimal(i)
  }

  /** The longest prefix of s made of decimal digits. */
  function DigitPrefix(s: string): (r: string)
    ensures |r| <= |s| && AllDigits(r) && r == s[..|r|]
    ensures |r| < |s| ==> !IsDigit(s[|r|])
  {
    if s == [] || !IsDigit(s[0]) then []
    else
      var tail := DigitPrefix(s[1..]);
      assert s[..|tail| + 1] == [s[0]] + s[1..][..|tail|];
      [s[0]] + tail
  }

  /** The white-space characters `parseInt` skips before the number (the ASCII
      ones, no-break space, the byte-order mark and the line/paragraph separators). */
  predicate IsJsSpace(c: char) {
    c == ' ' || c == '\t' || c == '\n' || c == '\r' || c == '\U{0B}' || c == '\U{0C}'
    || c == '\U{A0}' || c == '\U{FEFF}' || c == '\U{2028}' || c == '\U{2029}'
  }

  function TrimStart(s: string): string {
    if s != [] && IsJsSpace(s[0]) then TrimStart(s[1..]) else s
  }

  /** `parseInt(s)` in radix 10: skip leading white space, read an optional sign and
      the longest run of digits after it; `None` stands for NaN (no digit at all). */
  function ParseInt(s: string): Option<int> {
    var t := TrimStart(s);
    var negative := |t| > 0 && t[0] == '-';
    var rest := if |t| > 0 && (t[0] == '-' || t[0] == '+') then t[1..] else t;
    var ds := DigitPrefix(rest);
    if ds == [] then None
    else Some(if negative then -(Value(ds) as int) else Value(ds))
  }

  lemma {:induction false} DigitPrefixAll(s: string)
    requires AllDigits(s)
    ensures DigitPrefix(s) == s
  {
    if s != [] && IsDigit(s[0]) {
      assert AllDigits(s[1..]) by {
        forall i | 0 <= i < |s[1..]| ensures IsDigit(s[1..][i]) {
          assert s[1..][i] == s[i + 1];
        }
      }
      DigitPrefixAll(s[1..]);
    }
  }

  /** Padded digits are digits, at least `width` long, and denote n again. */
  lemma {:induction false} DigitsValue(n: nat, width: nat)
    ensures AllDigits(Digits(n, width))
    ensures |Digits(n, width)| >= 1 && |Digits(n, width)| >= width
    ensures Value(Digits(n, width)) == n
    decreases n, width
  {
    if n < 10 && width <= 1 {
    } else {
      var w := if width > 0 then width - 1 else 0;
      var d := Digits(n / 10, w);
      DigitsValue(n / 10, w);
      var s := d + [DigitChar(n % 10)];
      assert s[..|s| - 1] == d;
      assert Digits(n, width) == s;
    }
  }

  /** Printing a positive number without padding writes no leading zero. */
  lemma {:induction false} DecimalNoLeadingZero(n: nat)
    requires n > 0
    ensures |Decimal(n)| >= 1 && Decimal(n)[0] != '0'
  {
    UnpaddedNoLeadingZero(n, 1);
  }

  lemma {:induction false} UnpaddedNoLeadingZero(n: nat, width: nat)
    requires n > 0 && width <= 1
    ensures |Digits(n, width)| >= 1 && Digits(n, width)[0] != '0'
    decreases n
  {
    if n >= 10 {
      UnpaddedNoLeadingZero(n / 10, 0);
      assert Digits(n, width) == Digits(n / 10, 0) + [DigitChar(n % 10)];
    }
  }

  /** A number below 10^width takes exactly `width` digits. */
  lemma {:induction false} DigitsLength(n: nat, width: nat)
    requires width >= 1 && n < Pow10(width)
    ensures |Digits(n, width)| == width
    decreases width
  {
    if n < 10 && width <= 1 {
    } else {
      assert width >= 2;
      assert n / 10 < Pow10(width - 1);
      DigitsLength(n / 10, width - 1);
    }
  }

  /** Digit strings of the same value and the same length are the same string,
      so `Digits` is one-to-one. */
  lemma DigitsInjective(m: nat, n: nat, width: nat)
    requires Digits(m, width) == Digits(n, width)
    ensures m == n
  {
    DigitsValue(m, width);
    DigitsValue(n, width);
  }

  /** Padded digits parse back with `parseInt`. */
  lemma ParseIntDigits(n: nat, width: nat)
    ensures ParseInt(Digits(n, width)) == Some(n)
  {
    var s := Digits(n, width);
    DigitsValue(n, width);
    assert !IsJsSpace(s[0]) && IsDigit(s[0]);
    assert TrimStart(s) == s;
    DigitPrefixAll(s);
  }

  /** `parseInt(String(i)) == i` for every integer. */
  lemma ParseIntOfIntToString(i: int)
    ensures ParseInt(IntToString(i)) == Some(i)
  {
    if i < 0 {
      var d := Decimal(-i);
      var s := "-" + d;
      assert IntToString(i) == s;
      DigitsValue(-i, 1);
      assert s[0] == '-';
      assert TrimStart(s) == s;
      assert s[1..] == d;
      DigitPrefixAll(d);
      assert DigitPrefix(d) == d;
    } else {
      ParseIntDigits(i, 1);
    }
  }

  /** The text `String(i)` is never empty and holds only a sign and digits. */
  lemma IntToStringChars(i: int)
    ensures |IntToString(i)| >= 1
    ensures forall k :: 0 <= k < |IntToString(i)| ==>
              IsDigit(IntToString(i)[k]) || (k == 0 && IntToString(i)[k] == '-')
  {
    DigitsValue(if i < 0 then -i else i, 1);
  }
}
