/**
 * Character classes and string helpers that stand for the JavaScript string
 * built-ins the core uses: `\s` and `trim()`, `includes`, `indexOf`, `split`,
 * number-to-string conversion in template strings and the decimal part of
 * `Number(...)`. Everything is ASCII: Unicode white space is not modelled.
 */
module Text {

  /** The ASCII members of JavaScript's white-space class (`\s`, and what `trim()` strips). */
  predicate IsWs(c: char) {
    c == ' ' || c == '\t' || c == '\n' || c == '\r' || c == '\U{000B}' || c == '\U{000C}'
  }

  predicate IsDigit(c: char) { '0' <= c <= '9' }

  predicate IsUpper(c: char) { 'A' <= c <= 'Z' }

  predicate IsLower(c: char) { 'a' <= c <= 'z' }

  predicate AllWs(s: string) { forall i :: 0 <= i < |s| ==> IsWs(s[i]) }

  predicate AllDigits(s: string) { forall i :: 0 <= i < |s| ==> IsDigit(s[i]) }

  /** The end of the white-space run that starts at `i`. */
  function WsRunEnd(s: string, i: nat): (n: nat)
    requires i <= |s|
    ensures i <= n <= |s|
    decreases |s| - i
  {
    if i < |s| && IsWs(s[i]) then WsRunEnd(s, i + 1) else i
  }

  /** The start of the white-space run that ends just before `j`. */
  function WsRunStart(s: string, j: nat): (n: nat)
    requires j <= |s|
    ensures n <= j
  {
    if j > 0 && IsWs(s[j - 1]) then WsRunStart(s, j - 1) else j
  }

  /** Everything `WsRunEnd` skips is white space, and it stops at the end or at other text. */
  lemma {:induction false} WsRunEndSpan(s: string, i: nat)
    requires i <= |s|
    ensures forall k :: i <= k < WsRunEnd(s, i) ==> IsWs(s[k])
    ensures WsRunEnd(s, i) == |s| || !IsWs(s[WsRunEnd(s, i)])
    decreases |s| - i
  {
    if i < |s| && IsWs(s[i]) {
      WsRunEndSpan(s, i + 1);
    }
  }

  /** Everything `WsRunStart` skips is white space, and it stops at the start or after other text. */
  lemma {:induction false} WsRunStartSpan(s: string, j: nat)
    requires j <= |s|
    ensures forall k :: WsRunStart(s, j) <= k < j ==> IsWs(s[k])
    ensures WsRunStart(s, j) == 0 || !IsWs(s[WsRunStart(s, j) - 1])
  {
    if j > 0 && IsWs(s[j - 1]) {
      WsRunStartSpan(s, j - 1);
    }
  }

  /** `s.trimStart()`: `s` without its leading white space. */
  function TrimStart(s: string): string {
    s[WsRunEnd(s, 0)..]
  }

  /** `s.trim()`: `s` without white space at either end. */
  function Trim(s: string): string {
    var t := TrimStart(s);
    t[..WsRunStart(t, |t|)]
  }

  /** Trimming keeps exactly the middle part: what it drops on either side is white space. */
  lemma TrimIsMiddle(s: string)
    ensures exists i, j :: 0 <= i <= j <= |s| && Trim(s) == s[i..j] && AllWs(s[..i]) && AllWs(s[j..])
  {
    var i := WsRunEnd(s, 0);
    var t := s[i..];
    var m := WsRunStart(t, |t|);
    WsRunEndSpan(s, 0);
    WsRunStartSpan(t, |t|);
    assert Trim(s) == t[..m] == s[i..i + m];
    assert AllWs(s[..i]);
    assert s[i + m..] == t[m..];
  }

  /** The trimmed string starts and ends with something other than white space. */
  lemma TrimEdges(s: string)
    ensures Trim(s) == [] || (!IsWs(Trim(s)[0]) && !IsWs(Trim(s)[|Trim(s)| - 1]))
  {
    var i := WsRunEnd(s, 0);
    var t := s[i..];
    var m := WsRunStart(t, |t|);
    WsRunEndSpan(s, 0);
    WsRunStartSpan(t, |t|);
    if m > 0 {
      assert t[0] == s[i];
    }
  }

  /** Trimming adds no character: one absent from `s` is absent from its trim. */
  lemma TrimKeepsAbsent(s: string, c: char)
    requires c !in s
    ensures c !in Trim(s)
  {
    var i := WsRunEnd(s, 0);
    var t := s[i..];
    var r := t[..WsRunStart(t, |t|)];
    assert forall k :: 0 <= k < |r| ==> r[k] == s[i + k];
  }

  /** A string with white space at neither end is its own trim. */
  lemma TrimNoEdgeWs(s: string)
    requires s == [] || (!IsWs(s[0]) && !IsWs(s[|s| - 1]))
    ensures Trim(s) == s
  {
  }

  /** One ASCII letter to lower case; every other character is kept. */
  function LowerChar(c: char): char {
    if IsUpper(c) then (c as int + 32) as char else c
  }

  /** `s.toLowerCase()` on ASCII letters. */
  function ToLower(s: string): (r: string)
    ensures |r| == |s|
    ensures forall i :: 0 <= i < |s| ==> r[i] == LowerChar(s[i])
  {
    if s == [] then [] else [LowerChar(s[0])] + ToLower(s[1..])
  }

  /** `s.includes(p)`: `p` occurs in `s` as a contiguous substring. */
  predicate Contains(s: string, p: string)
    decreases |s|
  {
    p <= s || (s != [] && Contains(s[1..], p))
  }

  /** `p` occurs in `s` starting at position `i`. */
  predicate OccursAt(s: string, p: string, i: int) {
    0 <= i && i + |p| <= |s| && s[i..i + |p|] == p
  }

  /** An occurrence in the tail of `s` is an occurrence in `s`, one place later. */
  lemma OccursShift(s: string, p: string, i: int)
    requires s != [] && OccursAt(s[1..], p, i)
    ensures OccursAt(s, p, i + 1)
  {
    var w, u := s[1..][i..i + |p|], s[i + 1..i + 1 + |p|];
    assert forall k :: 0 <= k < |p| ==> w[k] == u[k];
  }

  /** An occurrence in `s` past position 0 is an occurrence in its tail. */
  lemma OccursUnshift(s: string, p: string, i: int)
    requires i > 0 && OccursAt(s, p, i)
    ensures OccursAt(s[1..], p, i - 1)
  {
    var w, u := s[1..][i - 1..i - 1 + |p|], s[i..i + |p|];
    assert forall k :: 0 <= k < |p| ==> w[k] == u[k];
  }

  /** `Contains` means exactly: some window of `s` equals `p`. */
  lemma {:induction false} ContainsIff(s: string, p: string)
    ensures Contains(s, p) <==> exists i :: OccursAt(s, p, i)
    decreases |s|
  {
    if s != [] {
      ContainsIff(s[1..], p);
    }
    if Contains(s, p) {
      if p <= s {
        assert OccursAt(s, p, 0);
      } else {
        var i :| OccursAt(s[1..], p, i);
        OccursShift(s, p, i);
      }
    }
    if exists i :: OccursAt(s, p, i) {
      var i :| OccursAt(s, p, i);
      if i == 0 {
        assert p <= s;
      } else {
        OccursUnshift(s, p, i);
      }
    }
  }

  /** `s.endsWith(suffix)`. */
  predicate EndsWith(s: string, suffix: string) {
    |suffix| <= |s| && s[|s| - |suffix|..] == suffix
  }

  /** The first position at or after `i` holding `c`, or -1. */
  function IndexFrom(s: string, c: char, i: nat): (r: int)
    requires i <= |s|
    ensures r == -1 || i <= r < |s|
    ensures r == -1 ==> forall k :: i <= k < |s| ==> s[k] != c
    ensures r >= 0 ==> s[r] == c && forall k :: i <= k < r ==> s[k] != c
    decreases |s| - i
  {
    if i == |s| then -1 else if s[i] == c then i else IndexFrom(s, c, i + 1)
  }

  /** `s.indexOf(c)`: the first position of `c`, or -1. */
  function IndexOf(s: string, c: char): (r: int)
    ensures -1 <= r < |s|
    ensures r == -1 <==> c !in s
    ensures r >= 0 ==> s[r] == c && c !in s[..r]
  {
    var r := IndexFrom(s, c, 0);
    assert r >= 0 ==> forall k :: 0 <= k < r ==> s[..r][k] != c;
    r
  }

  /** `s.split(c)` for a one-character separator: never empty, no piece contains `c`. */
  function Split(s: string, c: char): (r: seq<string>)
    ensures |r| >= 1
    ensures forall k :: 0 <= k < |r| ==> c !in r[k]
    decreases |s|
  {
    var i := IndexOf(s, c);
    if i < 0 then [s] else [s[..i]] + Split(s[i + 1..], c)
  }

  /** `pieces.join(c)`. */
  function Join(pieces: seq<string>, c: char): string
    requires |pieces| >= 1
  {
    if |pieces| == 1 then pieces[0] else pieces[0] + [c] + Join(pieces[1..], c)
  }

  lemma {:induction false} JoinCons(piece: string, rest: seq<string>, c: char)
    requires |rest| >= 1
    ensures Join([piece] + rest, c) == piece + [c] + Join(rest, c)
  {
    assert ([piece] + rest)[1..] == rest;
  }

  /** Splitting loses nothing: joining the pieces with the separator gives the string back. */
  lemma {:induction false} SplitJoin(s: string, c: char)
    ensures Join(Split(s, c), c) == s
    decreases |s|
  {
    var i := IndexOf(s, c);
    if i >= 0 {
      SplitJoin(s[i + 1..], c);
      JoinCons(s[..i], Split(s[i + 1..], c), c);
      assert s == s[..i] + [c] + s[i + 1..];
    }
  }

  function DigitChar(d: nat): char
    requires d < 10
  {
    ('0' as int + d) as char
  }

  function DigitValue(c: char): nat
    requires IsDigit(c)
  {
    c as int - '0' as int
  }

  /** The decimal representation of `n`, as JavaScript prints a non-negative integer. */
  function NatToString(n: nat): (r: string)
    ensures |r| >= 1 && AllDigits(r)
  {
    if n < 10 then [DigitChar(n)] else NatToString(n / 10) + [DigitChar(n % 10)]
  }

  /** An integer in a template string: `${n}`. */
  function IntToString(n: int): (r: string)
    ensures |r| >= 1
    ensures r[0] == '-' || IsDigit(r[0])
    ensures IsDigit(r[|r| - 1])
  {
    if n < 0 then "-" + NatToString(-n) else NatToString(n)
  }

  /** The value of a run of decimal digits (most significant first). */
  function DigitsValue(s: string): nat
    requires AllDigits(s)
  {
    if s == [] then 0 else DigitsValue(s[..|s| - 1]) * 10 + DigitValue(s[|s| - 1])
  }

  /** `x` divided by ten, `e` times. */
  function Tenths(x: real, e: nat): real {
    if e == 0 then x else Tenths(x, e - 1) / 10.0
  }

  /** Reading back a printed natural number gives the number. */
  lemma {:induction false} DigitsValueOfNatToString(n: nat)
    ensures DigitsValue(NatToString(n)) == n
  {
    if n >= 10 {
      DigitsValueOfNatToString(n / 10);
      var s := NatToString(n);
      assert s[..|s| - 1] == NatToString(n / 10);
    }
  }

  /**
   * The unsigned decimal literals the model accepts as numbers:
   * `digits ('.' digits*)?` or `'.' digits`, with at least one digit.
   */
  predicate IsUnsignedDecimal(s: string) {
    var d := IndexOf(s, '.');
    if d < 0 then |s| > 0 && AllDigits(s)
    else AllDigits(s[..d]) && AllDigits(s[d + 1..]) && (d > 0 || d + 1 < |s|)
  }

  function UnsignedDecimalValue(s: string): real
    requires IsUnsignedDecimal(s)
  {
    var d := IndexOf(s, '.');
    if d < 0 then DigitsValue(s) as real
    else
      var frac := s[d + 1..];
      DigitsValue(s[..d]) as real + Tenths(DigitsValue(frac) as real, |frac|)
  }

  predicate IsSign(c: char) { c == '+' || c == '-' }

  /** A decimal literal with an optional sign: the part of `Number(...)` the model covers. */
  predicate IsDecimal(s: string) {
    if s != [] && IsSign(s[0]) then IsUnsignedDecimal(s[1..]) else IsUnsignedDecimal(s)
  }

  function DecimalValue(s: string): real
    requires IsDecimal(s)
  {
    if s != [] && IsSign(s[0]) then
      (if s[0] == '-' then -UnsignedDecimalValue(s[1..]) else UnsignedDecimalValue(s[1..]))
    else UnsignedDecimalValue(s)
  }

  /** A printed natural number is an unsigned decimal literal denoting it. */
  lemma {:induction false} NatToStringIsDecimal(m: nat)
    ensures IsUnsignedDecimal(NatToString(m)) && UnsignedDecimalValue(NatToString(m)) == m as real
  {
    var digits := NatToString(m);
    DigitsValueOfNatToString(m);
    assert IndexOf(digits, '.') < 0 by {
      assert forall i :: 0 <= i < |digits| ==> digits[i] != '.';
    }
  }

  /** Every printed integer is a decimal literal, and it denotes that integer. */
  lemma IntToStringIsDecimal(n: int)
    ensures IsDecimal(IntToString(n)) && DecimalValue(IntToString(n)) == n as real
  {
    var m: nat := if n < 0 then -n else n;
    NatToStringIsDecimal(m);
    var digits := NatToString(m);
    assert !IsSign(digits[0]);
    if n < 0 {
      assert IntToString(n)[1..] == digits;
    }
  }

  /** Distinct integers print differently. */
  lemma IntToStringInjective(m: int, n: int)
    requires IntToString(m) == IntToString(n)
    ensures m == n
  {
    IntToStringIsDecimal(m);
    IntToStringIsDecimal(n);
  }
}
