/** Decimal numerals: what "%d" prints and what a digit loop reads back. */
module Decimal {

  predicate IsDigit(c: char)
  {
    '0' <= c <= '9'
  }

  function DigitChar(d: nat): (c: char)
    requires d < 10
    ensures IsDigit(c)
  {
    ('0' as int + d) as char
  }

  function DigitValue(c: char): (d: nat)
    requires IsDigit(c)
    ensures d < 10
  {
    c as int - '0' as int
  }

  lemma DigitRoundTrip(d: nat)
    requires d < 10
    ensures DigitValue(DigitChar(d)) == d && (DigitChar(d) == '0' <==> d == 0)
  {
  }

  /** "%d" of a non-negative number. */
  function Digits(n: nat): (s: string)
    ensures s != [] && forall i | 0 <= i < |s| :: IsDigit(s[i])
    ensures s[0] == '0' <==> n == 0
  {
    if n < 10 then [DigitChar(n)] else Digits(n / 10) + [DigitChar(n % 10)]
  }

  /** "%d" */
  function Format(n: int): (s: string)
    ensures s != [] && (s[0] == '-' <==> n < 0)
  {
    if n < 0 then ['-'] + Digits(-n) else Digits(n)
  }

  /** Reading digits onto acc; the value and the text that is left. */
  function TakeDigits(t: string, acc: nat): (r: (nat, string))
    ensures |r.1| <= |t| && (r.1 == [] || !IsDigit(r.1[0]))
    decreases |t|
  {
    if t != [] && IsDigit(t[0]) then TakeDigits(t[1..], 10 * acc + DigitValue(t[0])) else (acc, t)
  }

  ghost predicate NoDigitFirst(t: string)
  {
    t == [] || !IsDigit(t[0])
  }

  lemma {:induction false} TakeDigitsConcat(u: string, t: string, acc: nat)
    requires forall i | 0 <= i < |u| :: IsDigit(u[i])
    ensures TakeDigits(u + t, acc) == TakeDigits(t, TakeDigits(u, acc).0)
    decreases |u|
  {
    if u == [] {
      assert u + t == t;
    } else {
      assert (u + t)[1..] == u[1..] + t;
      TakeDigitsConcat(u[1..], t, 10 * acc + DigitValue(u[0]));
    }
  }

  lemma {:induction false} DigitsRoundTrip(n: nat)
    ensures TakeDigits(Digits(n), 0) == (n, [])
  {
    if n < 10 {
      DigitRoundTrip(n);
    } else {
      DigitsRoundTrip(n / 10);
      DigitRoundTrip(n % 10);
      TakeDigitsConcat(Digits(n / 10), [DigitChar(n % 10)], 0);
    }
  }

  /** Reading a numeral gives its number back and stops where it ends. */
  lemma {:induction false} TakeDigitsOfDigits(n: nat, rest: string)
    requires NoDigitFirst(rest)
    ensures TakeDigits(Digits(n) + rest, 0) == (n, rest)
  {
    TakeDigitsConcat(Digits(n), rest, 0);
    DigitsRoundTrip(n);
  }

  lemma {:induction false} FormatInjective(m: int, n: int)
    requires Format(m) == Format(n)
    ensures m == n
  {
    var a, b := if m < 0 then -m else m, if n < 0 then -n else n;
    DigitsRoundTrip(a);
    DigitsRoundTrip(b);
    if m < 0 && n < 0 {
      assert Digits(a) == Format(m)[1..] == Digits(b);
    }
  }

  lemma FormatChars(n: int)
    ensures forall i | 0 <= i < |Format(n)| :: IsDigit(Format(n)[i]) || Format(n)[i] == '-'
  {
  }

  /** Up to five digits: the ports that fit a node key. */
  lemma ShortNumeral(n: int)
    requires -9999 <= n <= 99999
    ensures |Format(n)| <= 5
  {
    hide DigitChar;
    var a := if n < 0 then -n else n;
    assert |Digits(a / 10 / 10 / 10 / 10)| == 1;
    assert |Digits(a / 10 / 10 / 10)| <= 2;
    assert |Digits(a / 10 / 10)| <= 3;
    assert |Digits(a / 10)| <= 4;
    if n < 0 {
      assert |Digits(a / 10 / 10 / 10)| == 1;
    }
  }
}
