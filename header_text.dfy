/**
 * The text operations the FITS header reader applies to an 80-character
 * header card, with the meaning the Python built-ins give them:
 * `str.strip()`, `str.split(c)[k]` and `int(text)`.  Header text here is
 * ASCII only (the reader drops every non-ASCII byte), so the whitespace set is
 * the ASCII part of Python's.  A decimal renderer is the inverse that the
 * integer parser is proved against.
 */
module HeaderText {
  import opened Wrappers

  /** The ASCII characters `str.isspace()` accepts: space, \t \n \v \f \r and \x1c-\x1f. */
  predicate IsSpace(c: char) {
    c == ' ' || 9 <= c as int <= 13 || 28 <= c as int <= 31
  }

  predicate IsDigit(c: char) {
    '0' <= c <= '9'
  }

  function DigitValue(c: char): nat
    requires IsDigit(c)
  {
    c as int - '0' as int
  }

  /** `s.lstrip()`: drops the leading whitespace and nothing else. */
  function TrimStart(s: string): string {
    if s != [] && IsSpace(s[0]) then TrimStart(s[1..]) else s
  }

  lemma {:induction false} TrimStartSpec(s: string)
    ensures var r := TrimStart(s);
      && |r| <= |s| && r == s[|s| - |r|..]
      && (forall i :: 0 <= i < |s| - |r| ==> IsSpace(s[i]))
      && (r != [] ==> !IsSpace(r[0]))
  {
    if s != [] && IsSpace(s[0]) {
      var t := s[1..];
      TrimStartSpec(t);
      var r := TrimStart(t);
      assert TrimStart(s) == r;
      assert r == s[|s| - |r|..];
      forall i | 0 <= i < |s| - |r| ensures IsSpace(s[i]) {
        if i > 0 {
          assert s[i] == t[i - 1];
        }
      }
    }
  }

  /** `s.rstrip()`: drops the trailing whitespace and nothing else. */
  function TrimEnd(s: string): string {
    if s != [] && IsSpace(s[|s| - 1]) then TrimEnd(s[..|s| - 1]) else s
  }

  lemma {:induction false} TrimEndSpec(s: string)
    ensures var r := TrimEnd(s);
      && |r| <= |s| && r == s[..|r|]
      && (forall i :: |r| <= i < |s| ==> IsSpace(s[i]))
      && (r != [] ==> !IsSpace(r[|r| - 1]))
  {
    if s != [] && IsSpace(s[|s| - 1]) {
      var t := s[..|s| - 1];
      TrimEndSpec(t);
      var r := TrimEnd(t);
      assert TrimEnd(s) == r;
      assert r == s[..|r|];
      forall i | |r| <= i < |s| ensures IsSpace(s[i]) {
        if i < |t| {
          assert s[i] == t[i];
        }
      }
    }
  }

  /** `s.strip()`: drops the whitespace at both ends. */
  function Strip(s: string): string {
    TrimEnd(TrimStart(s))
  }

  /** `s.split(c)[0]`: the text before the first `c`, or all of `s` when there is none. */
  function UpTo(s: string, c: char): string {
    if s == [] || s[0] == c then [] else [s[0]] + UpTo(s[1..], c)
  }

  lemma {:induction false} UpToSpec(s: string, c: char)
    ensures var r := UpTo(s, c);
      && r <= s
      && c !in r
      && (|r| < |s| ==> s[|r|] == c)
  {
    if s != [] && s[0] != c {
      UpToSpec(s[1..], c);
    }
  }

  /** When `c` first occurs at `i`, the first field is the text before `i`. */
  lemma {:induction false} UpToAt(s: string, c: char, i: nat)
    requires i < |s| && s[i] == c && c !in s[..i]
    ensures UpTo(s, c) == s[..i]
  {
    if i > 0 {
      assert s[0] == s[..i][0];
      assert s[1..][..i - 1] == s[..i][1..];
      UpToAt(s[1..], c, i - 1);
    }
  }

  /** Without a `c` in it, the whole string is the first field. */
  lemma {:induction false} UpToAbsent(s: string, c: char)
    requires c !in s
    ensures UpTo(s, c) == s
  {
    if s != [] {
      assert s[0] in s;
      UpToAbsent(s[1..], c);
    }
  }

  /** `s.split(c)[1]`: the text between the first and the second `c` (or the end). */
  function SecondField(s: string, c: char): string
    requires c in s
  {
    UpToSpec(s, c);
    UpTo(s[|UpTo(s, c)| + 1..], c)
  }

  /** The second field starts after the first `c` and runs up to the next `c` or the end. */
  lemma SecondFieldSpec(s: string, c: char)
    requires c in s
    ensures var i, r := |UpTo(s, c)|, SecondField(s, c);
      && i < |s| && s[i] == c
      && r <= s[i + 1..] && c !in r
      && (|r| < |s| - i - 1 ==> s[i + 1 + |r|] == c)
  {
    UpToSpec(s, c);
    UpToSpec(s[|UpTo(s, c)| + 1..], c);
  }

  /**
   * The digit body `int()` accepts: one or more digits, where a single
   * underscore may separate two digits.  Read from the end: a digit,
   * preceded by nothing, by a well-formed body, or by `_` and a well-formed body.
   */
  predicate WellFormedDigits(s: string) {
    && |s| > 0
    && IsDigit(s[|s| - 1])
    && (|s| == 1 ||
        if s[|s| - 2] == '_' then |s| > 2 && WellFormedDigits(s[..|s| - 2])
        else WellFormedDigits(s[..|s| - 1]))
  }

  /** Digits and underscores only, a digit at both ends, and a digit after every underscore. */
  predicate DigitsShape(s: string) {
    && |s| > 0
    && IsDigit(s[0]) && IsDigit(s[|s| - 1])
    && (forall i :: 0 <= i < |s| ==> IsDigit(s[i]) || s[i] == '_')
    && (forall i :: 0 <= i < |s| - 1 && s[i] == '_' ==> IsDigit(s[i + 1]))
  }

  /** The digit bodies `int()` accepts are exactly the texts of that shape. */
  lemma {:induction false} WellFormedDigitsShape(s: string)
    ensures WellFormedDigits(s) <==> DigitsShape(s)
  {
    if |s| > 1 {
      var k := if s[|s| - 2] == '_' then |s| - 2 else |s| - 1;
      var t := s[..k];
      assert forall i :: 0 <= i < k ==> s[i] == t[i];
      if k > 0 {
        WellFormedDigitsShape(t);
      }
      if DigitsShape(s) {
        assert k > 0 && IsDigit(s[k - 1]);
        assert DigitsShape(t);
      }
    }
  }

  /** The number the digits of a well-formed body spell, underscores ignored. */
  function DigitsValue(s: string): nat
    requires WellFormedDigits(s)
  {
    if |s| == 1 then DigitValue(s[0])
    else if s[|s| - 2] == '_' then 10 * DigitsValue(s[..|s| - 2]) + DigitValue(s[|s| - 1])
    else 10 * DigitsValue(s[..|s| - 1]) + DigitValue(s[|s| - 1])
  }

  /**
   * `int(s)` for a string `s` that has already been stripped: an optional
   * sign followed by well-formed digits; anything else raises, here `None`.
   */
  function ParseInt(s: string): Option<int> {
    if |s| > 0 && (s[0] == '+' || s[0] == '-') then
      if WellFormedDigits(s[1..]) then
        var n: int := DigitsValue(s[1..]);
        Some(if s[0] == '-' then -n else n)
      else None
    else if WellFormedDigits(s) then Some(DigitsValue(s))
    else None
  }

  function DigitChar(d: nat): (c: char)
    requires d < 10
    ensures IsDigit(c) && DigitValue(c) == d
  {
    ('0' as int + d) as char
  }

  /** The decimal digits of `n`, most significant first, without leading zeros. */
  function NatDigits(n: nat): (r: string)
    ensures |r| > 0
  {
    if n < 10 then [DigitChar(n)] else NatDigits(n / 10) + [DigitChar(n % 10)]
  }

  /** `str(n)`: the decimal rendering of an integer, with a `-` for negative values. */
  function Decimal(n: int): (r: string)
    ensures |r| > 0
  {
    if n < 0 then "-" + NatDigits(-n) else NatDigits(n)
  }

  lemma {:induction false} NatDigitsParse(n: nat)
    ensures WellFormedDigits(NatDigits(n))
    ensures forall i :: 0 <= i < |NatDigits(n)| ==> IsDigit(NatDigits(n)[i])
    ensures DigitsValue(NatDigits(n)) == n
  {
    if n >= 10 {
      NatDigitsParse(n / 10);
      var d := NatDigits(n / 10);
      var s := d + [DigitChar(n % 10)];
      assert s[..|s| - 1] == d;
      assert forall i :: 0 <= i < |s| - 1 ==> s[i] == d[i];
    }
  }

  /** Parsing the decimal rendering of any integer gives that integer back. */
  lemma ParseIntDecimal(n: int)
    ensures ParseInt(Decimal(n)) == Some(n)
  {
    var d := NatDigits(if n < 0 then -n else n);
    NatDigitsParse(if n < 0 then -n else n);
    assert IsDigit(d[0]);
    if n < 0 {
      var s := Decimal(n);
      assert s[0] == '-' && s[1..] == d;
    } else {
      assert ParseInt(d) == Some(DigitsValue(d));
    }
  }

  /** Every character of the decimal rendering is a sign or a digit, so it holds no whitespace, `=` or `/`. */
  lemma DecimalCharacters(n: int)
    ensures forall i :: 0 <= i < |Decimal(n)| ==> IsDigit(Decimal(n)[i]) || Decimal(n)[i] == '-'
  {
    if n < 0 {
      NatDigitsParse(-n);
    } else {
      NatDigitsParse(n);
    }
  }

  function Pow10(k: nat): (r: nat)
    ensures r >= 1
  {
    if k == 0 then 1 else 10 * Pow10(k - 1)
  }

  /** A natural number below 10^k has at most k digits. */
  lemma {:induction false} NatDigitsLength(n: nat, k: nat)
    requires 1 <= k && n < Pow10(k)
    ensures |NatDigits(n)| <= k
  {
    if n >= 10 {
      NatDigitsLength(n / 10, k - 1);
    }
  }

  /** Whitespace in front of a text that starts with a non-space is all `lstrip()` removes. */
  lemma {:induction false} TrimStartPadded(pre: string, x: string)
    requires forall i :: 0 <= i < |pre| ==> IsSpace(pre[i])
    requires x != [] && !IsSpace(x[0])
    ensures TrimStart(pre + x) == x
  {
    if pre == [] {
      assert pre + x == x;
    } else {
      assert (pre + x)[0] == pre[0];
      assert (pre + x)[1..] == pre[1..] + x;
      TrimStartPadded(pre[1..], x);
    }
  }

  /** Whitespace after a text that ends with a non-space is all `rstrip()` removes. */
  lemma {:induction false} TrimEndPadded(y: string, post: string)
    requires forall i :: 0 <= i < |post| ==> IsSpace(post[i])
    requires y != [] && !IsSpace(y[|y| - 1])
    ensures TrimEnd(y + post) == y
  {
    if post == [] {
      assert y + post == y;
    } else {
      var q := post[..|post| - 1];
      assert (y + post)[|y + post| - 1] == post[|post| - 1];
      assert (y + post)[..|y + post| - 1] == y + q;
      TrimEndPadded(y, q);
    }
  }

  /** Stripping a text wrapped in whitespace gives the text back when it has none at either end. */
  lemma StripPadded(pre: string, d: string, post: string)
    requires forall i :: 0 <= i < |pre| ==> IsSpace(pre[i])
    requires forall i :: 0 <= i < |post| ==> IsSpace(post[i])
    requires d != [] && !IsSpace(d[0]) && !IsSpace(d[|d| - 1])
    ensures Strip(pre + d + post) == d
  {
    assert pre + d + post == pre + (d + post);
    TrimStartPadded(pre, d + post);
    TrimEndPadded(d, post);
  }
}
