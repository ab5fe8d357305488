/** Python's `int(s)` for base-10 text, restricted to ASCII digits: an
    optional sign, then digits in which single underscores may separate two
    digits (`"1_000"`). Whitespace is stripped by the callers, as `int()` and
    the prompt's `strip()` do. Anything else is a `ValueError`, modelled as
    `None`. */
module Decimal {
  import opened Wrappers

  predicate IsDigit(c: char)
  {
    '0' <= c <= '9'
  }

  function DigitValue(c: char): (d: nat)
    requires IsDigit(c)
    ensures d < 10
  {
    (c as int) - ('0' as int)
  }

  function DigitChar(d: nat): (c: char)
    requires d < 10
    ensures IsDigit(c) && DigitValue(c) == d
  {
    (('0' as int) + d) as char
  }

  /** Digits with underscores only between two digits. */
  predicate WellFormedDigits(s: string)
  {
    && |s| > 0
    && IsDigit(s[0])
    && IsDigit(s[|s| - 1])
    && (forall i | 0 <= i < |s| :: IsDigit(s[i]) || s[i] == '_')
    && (forall i | 0 <= i < |s| - 1 :: s[i] == '_' ==> s[i + 1] != '_')
  }

  /** The number the digits of `s` spell, underscores ignored. */
  function DigitsValue(s: string): nat
    requires forall i | 0 <= i < |s| :: IsDigit(s[i]) || s[i] == '_'
  {
    if |s| == 0 then 0
    else if s[|s| - 1] == '_' then DigitsValue(s[..|s| - 1])
    else 10 * DigitsValue(s[..|s| - 1]) + DigitValue(s[|s| - 1])
  }

  /** `int(s)` on an already stripped string. */
  function ParseInt(s: string): (r: Option<int>)
    ensures r.Some? <==> (WellFormedDigits(s) || (|s| > 0 && (s[0] == '+' || s[0] == '-') && WellFormedDigits(s[1..])))
  {
    if |s| > 0 && (s[0] == '+' || s[0] == '-') then
      var body := s[1..];
      if WellFormedDigits(body) then
        var magnitude: int := DigitsValue(body);
        Some(if s[0] == '-' then -magnitude else magnitude)
      else None
    else if WellFormedDigits(s) then Some(DigitsValue(s))
    else None
  }

  /** Decimal digits of a natural number, most significant first. */
  function NatDigits(n: nat): (s: string)
    ensures WellFormedDigits(s)
    ensures forall i | 0 <= i < |s| :: IsDigit(s[i])
  {
    if n < 10 then [DigitChar(n)] else NatDigits(n / 10) + [DigitChar(n % 10)]
  }

  /** `str(n)`. */
  function Show(n: int): string
  {
    if n < 0 then "-" + NatDigits(-n) else NatDigits(n)
  }

  lemma {:induction false} NatDigitsValue(n: nat)
    ensures DigitsValue(NatDigits(n)) == n
    decreases n
  {
    if n >= 10 {
      var s := NatDigits(n);
      assert s[..|s| - 1] == NatDigits(n / 10);
      NatDigitsValue(n / 10);
    }
  }

  /** A leading zero adds nothing to the value the digits spell. */
  lemma {:induction false} LeadingZeroValue(d: string)
    requires forall i | 0 <= i < |d| :: IsDigit(d[i]) || d[i] == '_'
    ensures DigitsValue("0" + d) == DigitsValue(d)
    decreases |d|
  {
    if |d| > 0 {
      var init := d[..|d| - 1];
      assert ("0" + d)[..|"0" + d| - 1] == "0" + init;
      LeadingZeroValue(init);
    }
  }

  /** An underscore between digits adds nothing to the value. */
  lemma {:induction false} UnderscoreValue(a: string, b: string)
    requires forall i | 0 <= i < |a| :: IsDigit(a[i]) || a[i] == '_'
    requires forall i | 0 <= i < |b| :: IsDigit(b[i]) || b[i] == '_'
    ensures DigitsValue(a + "_" + b) == DigitsValue(a + b)
    decreases |b|
  {
    if |b| == 0 {
      assert (a + "_" + b)[..|a| ] == a;
      assert a + b == a;
    } else {
      var init := b[..|b| - 1];
      assert (a + "_" + b)[..|a + "_" + b| - 1] == a + "_" + init;
      assert (a + b)[..|a + b| - 1] == a + init;
      UnderscoreValue(a, init);
    }
  }

  /** `int("+" + d)` is `int(d)`. */
  lemma ParsePlusSign(d: string)
    requires WellFormedDigits(d)
    ensures ParseInt("+" + d) == ParseInt(d)
  {
    assert ("+" + d)[1..] == d;
  }

  /** `int("-" + d)` is the negation of `int(d)`. */
  lemma ParseMinusSign(d: string)
    requires WellFormedDigits(d)
    ensures ParseInt(d).Some?
    ensures ParseInt("-" + d) == Some(-ParseInt(d).value)
  {
    assert ("-" + d)[1..] == d;
  }

  /** `int("0" + d)` is `int(d)`: leading zeros do not change the value. */
  lemma ParseLeadingZero(d: string)
    requires WellFormedDigits(d)
    ensures ParseInt("0" + d) == ParseInt(d)
  {
    LeadingZeroValue(d);
    assert ("0" + d)[1] == d[0];
    assert ("0" + d)[|"0" + d| - 1] == d[|d| - 1];
  }

  /** `int(a + "_" + b)` is `int(a + b)`: underscores between digits only
      group them. */
  lemma ParseUnderscore(a: string, b: string)
    requires WellFormedDigits(a) && WellFormedDigits(b)
    ensures ParseInt(a + "_" + b) == ParseInt(a + b)
  {
    UnderscoreValue(a, b);
    var s := a + "_" + b;
    assert s[|a|] == '_' && s[|a| + 1] == b[0];
    assert forall i | 0 <= i < |a| :: s[i] == a[i];
    assert forall i | |a| < i < |s| :: s[i] == b[i - |a| - 1];
  }

  /** Parsing the printed form of any integer gives that integer back. */
  lemma ParseShow(n: int)
    ensures ParseInt(Show(n)) == Some(n)
  {
    if n < 0 {
      assert Show(n)[1..] == NatDigits(-n);
      NatDigitsValue(-n);
    } else {
      assert !IsDigit('-') && !IsDigit('+');
      NatDigitsValue(n);
    }
  }
}
