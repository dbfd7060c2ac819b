/**
 * `slugify` (src/lib/github.ts): the chained-replace normaliser that turns a
 * file name into a URL-safe identifier. Each `replace` of the chain is one
 * function here, applied in the same order.
 */
module Slug {
  import opened Text

  predicate IsSlugChar(c: char) { IsLower(c) || IsDigit(c) || c == '-' }

  predicate IsAlnum(c: char) { IsLower(c) || IsUpper(c) || IsDigit(c) }

  predicate AllSlugChars(s: string) { forall i :: 0 <= i < |s| ==> IsSlugChar(s[i]) }

  predicate NoDoubleHyphen(s: string) { forall i :: 0 <= i < |s| - 1 ==> !(s[i] == '-' && s[i + 1] == '-') }

  /** What every slug looks like: `[a-z0-9-]` only, no hyphen at either end, no two hyphens together. */
  predicate IsSlug(s: string) {
    && AllSlugChars(s)
    && NoDoubleHyphen(s)
    && (s != [] ==> s[0] != '-' && s[|s| - 1] != '-')
  }

  /** `.replace(/\s+/g, "-")`: every run of white space becomes one hyphen. */
  function HyphenateWs(s: string): string
    decreases |s|
  {
    if s == [] then []
    else if IsWs(s[0]) then "-" + HyphenateWs(TrimStart(s[1..]))
    else [s[0]] + HyphenateWs(s[1..])
  }

  /** `.replace(/[^a-z0-9-]/g, "")`: drop every character outside `[a-z0-9-]`. */
  function KeepSlugChars(s: string): (r: string)
    ensures AllSlugChars(r)
  {
    if s == [] then []
    else if IsSlugChar(s[0]) then [s[0]] + KeepSlugChars(s[1..])
    else KeepSlugChars(s[1..])
  }

  /** The end of the run of hyphens that starts at `i`. */
  function HyphenRunEnd(s: string, i: nat): (n: nat)
    requires i <= |s|
    ensures i <= n <= |s|
    ensures forall k :: i <= k < n ==> s[k] == '-'
    ensures n == |s| || s[n] != '-'
    decreases |s| - i
  {
    if i < |s| && s[i] == '-' then HyphenRunEnd(s, i + 1) else i
  }

  /** The suffix of `s` after its leading hyphens. */
  function DropHyphens(s: string): string {
    s[HyphenRunEnd(s, 0)..]
  }

  /** `.replace(/-+/g, "-")`: every run of hyphens becomes one. */
  function CollapseHyphens(s: string): (r: string)
    decreases |s|
  {
    if s == [] then []
    else if s[0] == '-' then "-" + CollapseHyphens(DropHyphens(s[1..]))
    else [s[0]] + CollapseHyphens(s[1..])
  }

  /** Collapsing keeps the first character, so it empties nothing. */
  lemma CollapseHyphensHead(s: string)
    ensures (CollapseHyphens(s) == []) == (s == [])
    ensures CollapseHyphens(s) != [] ==> CollapseHyphens(s)[0] == s[0]
  {
  }

  /** Collapsing adds no character outside `[a-z0-9-]`. */
  lemma {:induction false} CollapseHyphensSlugChars(s: string)
    requires AllSlugChars(s)
    ensures AllSlugChars(CollapseHyphens(s))
    decreases |s|
  {
    if s != [] {
      if s[0] == '-' {
        var rest := DropHyphens(s[1..]);
        assert AllSlugChars(rest);
        CollapseHyphensSlugChars(rest);
      } else {
        CollapseHyphensSlugChars(s[1..]);
      }
    }
  }

  /** After collapsing, no two hyphens are adjacent. */
  lemma {:induction false} CollapseHyphensNoDoubles(s: string)
    ensures NoDoubleHyphen(CollapseHyphens(s))
    decreases |s|
  {
    if s != [] {
      var tail := if s[0] == '-' then DropHyphens(s[1..]) else s[1..];
      CollapseHyphensNoDoubles(tail);
      CollapseHyphensHead(tail);
      var r := CollapseHyphens(s);
      var t := CollapseHyphens(tail);
      assert r == [s[0]] + t;
      assert s[0] == '-' ==> t == [] || t[0] != '-';
    }
  }

  /** `.replace(/^-|-$/g, "")`: drop one hyphen at the start and one at the end. */
  function StripEdgeHyphens(s: string): string {
    var t := if s != [] && s[0] == '-' then s[1..] else s;
    if t != [] && t[|t| - 1] == '-' then t[..|t| - 1] else t
  }

  /** The first four stages of the chain: lower-case, trim, hyphenate white space, drop other characters. */
  function Cleaned(text: string): string {
    KeepSlugChars(HyphenateWs(Trim(ToLower(text))))
  }

  /** `slugify(text)`: the last two stages applied to `Cleaned(text)`. */
  function Slugify(text: string): string {
    StripEdgeHyphens(CollapseHyphens(Cleaned(text)))
  }

  /** Stripping the edges of a string without double hyphens leaves a slug. */
  lemma StripEdgesMakesSlug(s: string)
    requires AllSlugChars(s) && NoDoubleHyphen(s)
    ensures IsSlug(StripEdgeHyphens(s))
  {
    var t := if s != [] && s[0] == '-' then s[1..] else s;
    assert AllSlugChars(t) && NoDoubleHyphen(t);
    if t != [] && s != [] && s[0] == '-' {
      assert t[0] == s[1];
    }
  }

  /** Every output of `Slugify` is a slug. */
  lemma SlugifyIsSlug(text: string)
    ensures IsSlug(Slugify(text))
  {
    var collapsed := CollapseHyphens(Cleaned(text));
    CollapseHyphensSlugChars(Cleaned(text));
    CollapseHyphensNoDoubles(Cleaned(text));
    StripEdgesMakesSlug(collapsed);
  }

  lemma {:induction false} HyphenateWsNoWs(s: string)
    requires forall i :: 0 <= i < |s| ==> !IsWs(s[i])
    ensures HyphenateWs(s) == s
  {
    if s != [] {
      HyphenateWsNoWs(s[1..]);
    }
  }

  lemma {:induction false} KeepSlugCharsOfSlugChars(s: string)
    requires AllSlugChars(s)
    ensures KeepSlugChars(s) == s
  {
    if s != [] {
      KeepSlugCharsOfSlugChars(s[1..]);
    }
  }

  lemma {:induction false} CollapseHyphensNoDouble(s: string)
    requires NoDoubleHyphen(s)
    ensures CollapseHyphens(s) == s
  {
    if s != [] {
      assert NoDoubleHyphen(s[1..]);
      if s[0] == '-' {
        assert s[1..] == [] || s[1] != '-';
        assert DropHyphens(s[1..]) == s[1..];
      }
      CollapseHyphensNoDouble(s[1..]);
    }
  }

  lemma {:induction false} ToLowerNoUpper(s: string)
    requires forall i :: 0 <= i < |s| ==> !IsUpper(s[i])
    ensures ToLower(s) == s
  {
    assert forall i :: 0 <= i < |s| ==> ToLower(s)[i] == s[i];
  }

  /** Slug characters are neither upper-case letters nor white space. */
  lemma {:induction false} SlugCharsPlain(s: string)
    requires AllSlugChars(s)
    ensures forall i :: 0 <= i < |s| ==> !IsUpper(s[i]) && !IsWs(s[i])
  {
  }

  /** A slug passes through the first four stages of the chain unchanged. */
  lemma SlugSurvivesCleaning(s: string)
    requires IsSlug(s)
    ensures Cleaned(s) == s
  {
    SlugCharsPlain(s);
    ToLowerNoUpper(s);
    TrimNoEdgeWs(s);
    HyphenateWsNoWs(s);
    KeepSlugCharsOfSlugChars(s);
  }

  /** When cleaning already yields a slug, the last two stages keep it. */
  lemma CleanedSlugIsResult(text: string)
    requires IsSlug(Cleaned(text))
    ensures Slugify(text) == Cleaned(text)
  {
    CollapseHyphensNoDouble(Cleaned(text));
  }

  /** A slug passes through every stage of the chain unchanged. */
  lemma SlugIsFixedPoint(s: string)
    requires IsSlug(s)
    ensures Slugify(s) == s
  {
    SlugSurvivesCleaning(s);
    CleanedSlugIsResult(s);
  }

  /** `slugify` is idempotent. */
  lemma SlugifyIdempotent(text: string)
    ensures Slugify(Slugify(text)) == Slugify(text)
  {
    SlugifyIsSlug(text);
    SlugIsFixedPoint(Slugify(text));
  }

  predicate NoAlnum(s: string) { forall i :: 0 <= i < |s| ==> !IsAlnum(s[i]) }

  lemma {:induction false} HyphenateWsNoAlnum(s: string)
    requires NoAlnum(s)
    ensures NoAlnum(HyphenateWs(s))
    decreases |s|
  {
    if s != [] {
      if IsWs(s[0]) {
        HyphenateWsNoAlnum(TrimStart(s[1..]));
      } else {
        HyphenateWsNoAlnum(s[1..]);
      }
    }
  }

  lemma {:induction false} KeepSlugCharsNoAlnum(s: string)
    requires NoAlnum(s)
    ensures forall i :: 0 <= i < |KeepSlugChars(s)| ==> KeepSlugChars(s)[i] == '-'
  {
    if s != [] {
      KeepSlugCharsNoAlnum(s[1..]);
    }
  }

  /** A string of hyphens collapses to at most one hyphen. */
  lemma {:induction false} CollapseAllHyphens(s: string)
    requires forall i :: 0 <= i < |s| ==> s[i] == '-'
    ensures CollapseHyphens(s) == [] || CollapseHyphens(s) == "-"
  {
    if s != [] {
      var rest := DropHyphens(s[1..]);
      assert rest == [];
    }
  }

  /** Cleaning text without ASCII letters or digits leaves only hyphens. */
  lemma CleanedNoAlnum(text: string)
    requires NoAlnum(text)
    ensures forall i :: 0 <= i < |Cleaned(text)| ==> Cleaned(text)[i] == '-'
  {
    var lowered := ToLower(text);
    assert NoAlnum(lowered);
    var trimmed := Trim(lowered);
    assert NoAlnum(trimmed) by {
      TrimIsMiddle(lowered);
    }
    HyphenateWsNoAlnum(trimmed);
    KeepSlugCharsNoAlnum(HyphenateWs(trimmed));
  }

  /** Stripping the edges of "" or "-" leaves "". */
  lemma StripShort(s: string)
    requires s == [] || s == "-"
    ensures StripEdgeHyphens(s) == ""
  {
  }

  /** Text without ASCII letters or digits, the empty string included, slugifies to "". */
  lemma SlugifyNoAlnum(text: string)
    requires NoAlnum(text)
    ensures Slugify(text) == ""
  {
    var cleaned := Cleaned(text);
    CleanedNoAlnum(text);
    CollapseAllHyphens(cleaned);
    StripShort(CollapseHyphens(cleaned));
  }

  lemma {:induction false} HyphenateWsAppend(a: string, b: string)
    requires forall i :: 0 <= i < |a| ==> !IsWs(a[i])
    ensures HyphenateWs(a + b) == a + HyphenateWs(b)
  {
    if a != [] {
      var ab := a + b;
      assert ab[0] == a[0] && ab[1..] == a[1..] + b;
      HyphenateWsAppend(a[1..], b);
      assert HyphenateWs(ab) == [a[0]] + HyphenateWs(ab[1..]);
      assert a + HyphenateWs(b) == [a[0]] + (a[1..] + HyphenateWs(b));
    } else {
      assert a + b == b;
    }
  }

  lemma {:induction false} KeepSlugCharsAppend(a: string, b: string)
    ensures KeepSlugChars(a + b) == KeepSlugChars(a) + KeepSlugChars(b)
  {
    if a != [] {
      var ab := a + b;
      assert ab[0] == a[0] && ab[1..] == a[1..] + b;
      KeepSlugCharsAppend(a[1..], b);
    } else {
      assert a + b == b;
    }
  }

  predicate IsWord(s: string) { |s| > 0 && forall i :: 0 <= i < |s| ==> IsLower(s[i]) || IsDigit(s[i]) }

  /** Two words joined by one hyphen form a slug. */
  lemma {:induction false} HyphenatedWordsIsSlug(a: string, b: string)
    requires IsWord(a) && IsWord(b)
    ensures IsSlug(a + "-" + b)
  {
    var w := a + "-" + b;
    assert forall i :: 0 <= i < |w| ==> (w[i] == '-' <==> i == |a|);
  }

  /** Hyphenating white space in `a + " " + b`, for words `a` and `b`, gives `a + "-" + b`. */
  lemma HyphenateSpacedWords(a: string, b: string)
    requires IsWord(a) && IsWord(b)
    ensures HyphenateWs(a + " " + b) == a + "-" + b
  {
    var tail := " " + b;
    assert HyphenateWs(tail) == "-" + b by {
      assert tail[1..] == b;
      assert TrimStart(b) == b;
      HyphenateWsNoWs(b);
    }
    HyphenateWsAppend(a, tail);
    assert a + " " + b == a + tail;
    assert a + "-" + b == a + ("-" + b);
  }

  /** The first four stages turn `a + " " + b` into `a + "-" + b`. */
  lemma SpacedWordsCleaned(a: string, b: string)
    requires IsWord(a) && IsWord(b)
    ensures Cleaned(a + " " + b) == a + "-" + b
  {
    var spaced := a + " " + b;
    assert ToLower(spaced) == spaced by {
      assert forall i :: 0 <= i < |spaced| ==> !IsUpper(spaced[i]);
      ToLowerNoUpper(spaced);
    }
    assert Trim(spaced) == spaced by {
      assert !IsWs(spaced[0]) && !IsWs(spaced[|spaced| - 1]);
      TrimNoEdgeWs(spaced);
    }
    HyphenateSpacedWords(a, b);
    HyphenatedWordsIsSlug(a, b);
    KeepSlugCharsOfSlugChars(a + "-" + b);
  }

  /**
   * Distinct names can share a slug: `a b` and `a-b` both slugify to `a-b`,
   * and a lookup by slug cannot tell them apart.
   */
  lemma SlugCollision(a: string, b: string)
    requires IsWord(a) && IsWord(b)
    ensures Slugify(a + " " + b) == a + "-" + b
    ensures Slugify(a + "-" + b) == a + "-" + b
    ensures a + " " + b != a + "-" + b
  {
    HyphenatedWordsIsSlug(a, b);
    SpacedWordsCleaned(a, b);
    CleanedSlugIsResult(a + " " + b);
    SlugIsFixedPoint(a + "-" + b);
    assert (a + " " + b)[|a|] == ' ';
  }
}
