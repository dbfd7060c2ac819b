/**
 * The sort key both listings use in place of `new Date(date).getTime()`:
 * an ISO calendar date `YYYY-MM-DD` becomes the number `YYYYMMDD`, which
 * orders dates as the calendar does. Any other text gets the key 0.
 */
module Dates {
  import opened Text

  predicate IsIsoDate(s: string) {
    && |s| == 10
    && IsDigit(s[0]) && IsDigit(s[1]) && IsDigit(s[2]) && IsDigit(s[3])
    && s[4] == '-' && IsDigit(s[5]) && IsDigit(s[6])
    && s[7] == '-' && IsDigit(s[8]) && IsDigit(s[9])
  }

  function Year(s: string): nat
    requires IsIsoDate(s)
  {
    DigitValue(s[0]) * 1000 + DigitValue(s[1]) * 100 + DigitValue(s[2]) * 10 + DigitValue(s[3])
  }

  function Month(s: string): (m: nat)
    requires IsIsoDate(s)
    ensures m < 100
  {
    DigitValue(s[5]) * 10 + DigitValue(s[6])
  }

  function Day(s: string): (d: nat)
    requires IsIsoDate(s)
    ensures d < 100
  {
    DigitValue(s[8]) * 10 + DigitValue(s[9])
  }

  /** The sort key of a date text. */
  function DateKey(s: string): int {
    if IsIsoDate(s) then Year(s) * 10000 + Month(s) * 100 + Day(s) else 0
  }

  lemma DateKeyOf(s: string, y: nat, m: nat, d: nat)
    requires IsIsoDate(s) && Year(s) == y && Month(s) == m && Day(s) == d
    ensures DateKey(s) == y * 10000 + m * 100 + d
  {
  }

  /** Keys order ISO dates as the calendar does: by year, then month, then day. */
  lemma DateKeyOrder(a: string, b: string)
    requires IsIsoDate(a) && IsIsoDate(b)
    ensures DateKey(a) < DateKey(b) <==>
      Year(a) < Year(b) || (Year(a) == Year(b) && (Month(a) < Month(b) || (Month(a) == Month(b) && Day(a) < Day(b))))
  {
  }

  /** Equal keys mean the same calendar date. */
  lemma DateKeyInjective(a: string, b: string)
    requires IsIsoDate(a) && IsIsoDate(b) && DateKey(a) == DateKey(b)
    ensures Year(a) == Year(b) && Month(a) == Month(b) && Day(a) == Day(b)
  {
    DateKeyOrder(a, b);
    DateKeyOrder(b, a);
  }
}
