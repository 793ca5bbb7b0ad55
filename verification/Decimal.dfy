/** Unsigned decimal numerals, as printed by strconv.FormatInt and read back by types.Int64. */
module Decimal {
  import opened Wrappers

  predicate IsDigit(c: char) { '0' <= c <= '9' }

  predicate AllDigits(s: string)
  {
    forall i :: 0 <= i < |s| ==> IsDigit(s[i])
  }

  function DigitChar(d: nat): (c: char)
    requires d < 10
    ensures IsDigit(c) && c as int - '0' as int == d
  {
    ('0' as int + d) as char
  }

  function Format(n: nat): (s: string)
    ensures |s| > 0 && AllDigits(s)
  {
    if n < 10 then [DigitChar(n)] else Format(n / 10) + [DigitChar(n % 10)]
  }

  function Value(s: string): (n: nat)
    requires AllDigits(s)
  {
    if s == [] then 0 else Value(s[..|s| - 1]) * 10 + (s[|s| - 1] as int - '0' as int)
  }

  /** A non-empty run of digits, or nothing. */
  function Parse(s: string): (r: Option<nat>)
  {
    if s != [] && AllDigits(s) then Some(Value(s)) else None
  }

  lemma {:induction false} ParseFormat(n: nat)
    ensures Parse(Format(n)) == Some(n)
  {
    if n < 10 {
      var s := Format(n);
      assert s[..|s| - 1] == [];
      assert Value(s) == n;
    } else {
      ParseFormat(n / 10);
      assert Format(n)[..|Format(n)| - 1] == Format(n / 10);
    }
  }

  // ---------- signed numerals ----------

  function FormatInt(i: int): (s: string)
    ensures |s| > 0
    ensures forall c :: c in s ==> IsDigit(c) || c == '-'
  {
    if i < 0 then "-" + Format(-i) else Format(i)
  }

  function ParseOrZero(s: string): nat
  {
    match Parse(s)
    case Some(n) => n
    case None => 0
  }

  /** A numeral that cannot be read counts as 0. */
  function ParseInt(s: string): (i: int)
  {
    if s != [] && s[0] == '-' then
      var n: int := ParseOrZero(s[1..]);
      -n
    else
      ParseOrZero(s)
  }

  lemma ParseIntFormat(i: int)
    ensures ParseInt(FormatInt(i)) == i
  {
    if i < 0 {
      ParseFormat(-i);
      assert FormatInt(i)[1..] == Format(-i);
    } else {
      ParseFormat(i);
      assert IsDigit(Format(i)[0]);
    }
  }

  // ---------- cutting text at a character ----------

  /** The first position of `c`, or -1. */
  function IndexOf(s: string, c: char): (i: int)
    ensures -1 <= i < |s|
    ensures i >= 0 ==> s[i] == c && c !in s[..i]
    ensures i < 0 ==> c !in s
  {
    if s == [] then -1
    else if s[0] == c then 0
    else
      var i := IndexOf(s[1..], c);
      assert s == [s[0]] + s[1..];
      if i < 0 then -1 else (assert s[..i + 1] == [s[0]] + s[1..][..i]; i + 1)
  }

  lemma {:induction false} IndexOfIs(s: string, c: char, i: nat)
    requires i < |s| && s[i] == c && c !in s[..i]
    ensures IndexOf(s, c) == i
  {
    if i > 0 {
      assert s[..i][0] == s[0];
      assert s[1..][..i - 1] == s[..i][1..];
      IndexOfIs(s[1..], c, i - 1);
    }
  }
}
