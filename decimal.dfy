/** Decimal text of integers as Python writes it (`str(n)`, which is what
    `csv.writer` puts in a cell holding an int) and reads it (`int(s)`). */
module Decimal {
  import opened Outcomes

  predicate IsDigit(c: char)
  {
    '0' <= c <= '9'
  }

  function DigitChar(d: nat): char
    requires d < 10
  {
    ('0' as int + d) as char
  }

  function DigitValue(c: char): nat
    requires IsDigit(c)
  {
    c as int - '0' as int
  }

  /** The decimal digits of `n`, most significant first, without leading zeros. */
  function Digits(n: nat): (s: string)
    ensures |s| > 0
    ensures forall i :: 0 <= i < |s| ==> IsDigit(s[i])
    decreases n
  {
    if n < 10 then [DigitChar(n)] else Digits(n / 10) + [DigitChar(n % 10)]
  }

  /** `str(n)`. */
  function Show(n: int): string
  {
    if n < 0 then "-" + Digits(-n) else Digits(n)
  }

  /** The ASCII characters `int()` strips from both ends of its argument. */
  predicate IsSpace(c: char)
  {
    c == ' ' || 9 <= c as int <= 13 || 28 <= c as int <= 31
  }

  function TrimStart(s: string): string
    decreases |s|
  {
    if s != [] && IsSpace(s[0]) then TrimStart(s[1..]) else s
  }

  function TrimEnd(s: string): string
    decreases |s|
  {
    if s != [] && IsSpace(s[|s| - 1]) then TrimEnd(s[..|s| - 1]) else s
  }

  /** Digits in groups separated by single underscores, as `int()` accepts
      them: a digit at both ends and never two underscores in a row. */
  predicate WellFormedDigits(d: string)
  {
    && |d| > 0
    && IsDigit(d[0])
    && IsDigit(d[|d| - 1])
    && (forall i :: 0 <= i < |d| ==> IsDigit(d[i]) || d[i] == '_')
    && (forall i :: 0 <= i < |d| - 1 ==> IsDigit(d[i]) || IsDigit(d[i + 1]))
  }

  /** The number the digits of `d` spell, underscores ignored. */
  function Value(d: string): nat
    requires forall i :: 0 <= i < |d| ==> IsDigit(d[i]) || d[i] == '_'
    decreases |d|
  {
    if d == [] then 0
    else
      var last := d[|d| - 1];
      if last == '_' then Value(d[..|d| - 1])
      else Value(d[..|d| - 1]) * 10 + DigitValue(last)
  }

  /** `int(s)` for base 10: surrounding whitespace, an optional sign, then
      well-formed digits; `None` where Python raises `ValueError`. */
  function ParseInt(s: string): Option<int>
  {
    var t := TrimEnd(TrimStart(s));
    var signed := |t| > 0 && (t[0] == '+' || t[0] == '-');
    var d := if signed then t[1..] else t;
    if !WellFormedDigits(d) then None
    else if signed && t[0] == '-' then Some(0 - Value(d))
    else Some(Value(d))
  }

  lemma {:induction false} ValueOfDigits(n: nat)
    ensures Value(Digits(n)) == n
    decreases n
  {
    if n >= 10 {
      var d := Digits(n);
      ValueOfDigits(n / 10);
      assert d[..|d| - 1] == Digits(n / 10);
    }
  }

  /** Reading back what `str` wrote gives the same integer: `int(str(n)) == n`. */
  lemma ParseShow(n: int)
    ensures ParseInt(Show(n)) == Some(n)
  {
    var s := Show(n);
    var m := if n < 0 then -n else n;
    var d := Digits(m);
    assert s[0] == '-' || IsDigit(s[0]);
    assert IsDigit(s[|s| - 1]) by {
      assert s[|s| - 1] == d[|d| - 1];
    }
    assert TrimStart(s) == s;
    assert TrimEnd(s) == s;
    ValueOfDigits(m);
    if n < 0 {
      assert s[1..] == d;
    }
  }

  /** A cell with no digit is never an integer. */
  lemma NoDigitNoInt(s: string)
    requires forall i :: 0 <= i < |s| ==> !IsDigit(s[i])
    ensures ParseInt(s) == None
  {
    var t := TrimEnd(TrimStart(s));
    TrimKeepsNoDigit(s);
    if |t| > 0 && (t[0] == '+' || t[0] == '-') {
      assert |t[1..]| > 0 ==> t[1..][0] == t[1];
    }
  }

  lemma {:induction false} TrimKeepsNoDigit(s: string)
    requires forall i :: 0 <= i < |s| ==> !IsDigit(s[i])
    ensures forall i :: 0 <= i < |TrimEnd(TrimStart(s))| ==> !IsDigit(TrimEnd(TrimStart(s))[i])
  {
    var t := TrimStart(s);
    TrimStartIsSuffix(s);
    TrimEndIsPrefix(t);
  }

  lemma {:induction false} TrimStartIsSuffix(s: string)
    ensures exists k :: 0 <= k <= |s| && TrimStart(s) == s[k..]
    decreases |s|
  {
    if s != [] && IsSpace(s[0]) {
      TrimStartIsSuffix(s[1..]);
      var k :| 0 <= k <= |s[1..]| && TrimStart(s[1..]) == s[1..][k..];
      assert s[1..][k..] == s[k + 1..];
    } else {
      assert s == s[0..];
    }
  }

  lemma {:induction false} TrimEndIsPrefix(s: string)
    ensures TrimEnd(s) <= s
    decreases |s|
  {
    if s != [] && IsSpace(s[|s| - 1]) {
      TrimEndIsPrefix(s[..|s| - 1]);
    }
  }
}
