/**
 * `parseFrontmatter` (src/lib/github.ts): find the header block with the
 * regular expression `^---\s*\n([\s\S]*?)\n---\s*\n([\s\S]*)$`, then decode
 * its `key: value` lines with the quote/boolean/number coercion.
 *
 * The regular expression is modelled as the search a backtracking matcher
 * performs: the opening `\s*` is greedy, so the newline that ends the opening
 * marker is tried from the last one in the white-space run backwards; for
 * each, the lazy block grows until the first closing marker `\n---\s*\n`; the
 * closing `\s*` is greedy, so the body starts after the last newline of the
 * white-space run that follows the closing `---`.
 */
module Frontmatter {
  import opened Wrappers
  import opened Text
  import opened ArrayOps

  /** A decoded header value: `string | number | boolean`. */
  datatype Value = Str(s: string) | Bool(b: bool) | Num(n: real)

  /** The decoded header fields and the trimmed body. */
  datatype Parsed = Parsed(frontmatter: map<string, Value>, content: string)

  const InvalidFormat := "Invalid frontmatter format"

  predicate WsBetween(s: string, i: int, j: int)
    requires 0 <= i && j <= |s|
  {
    forall k :: i <= k < j ==> IsWs(s[k])
  }

  /** The length of the white-space run of `s` that starts at `i`. */
  function WsRun(s: string, i: nat): (n: nat)
    requires i <= |s|
    ensures i + n <= |s|
    decreases |s| - i
  {
    if i < |s| && IsWs(s[i]) then 1 + WsRun(s, i + 1) else 0
  }

  /** The run is all white space, and what stops it is not. */
  lemma {:induction false} WsRunSpan(s: string, i: nat)
    requires i <= |s|
    ensures WsBetween(s, i, i + WsRun(s, i))
    ensures i + WsRun(s, i) == |s| || !IsWs(s[i + WsRun(s, i)])
    decreases |s| - i
  {
    if i < |s| && IsWs(s[i]) {
      WsRunSpan(s, i + 1);
    }
  }

  /** The last newline of `s` in `[lo, hi)`. */
  function LastNewline(s: string, lo: nat, hi: nat): (r: Option<nat>)
    requires lo <= hi <= |s|
    ensures r.Some? ==> lo <= r.value < hi && s[r.value] == '\n'
    decreases hi
  {
    if hi == lo then None
    else if s[hi - 1] == '\n' then Some(hi - 1)
    else LastNewline(s, lo, hi - 1)
  }

  /** Every newline in `[lo, hi)` is found, and none is later than the one found. */
  lemma {:induction false} LastNewlineIsLast(s: string, lo: nat, hi: nat, k: nat)
    requires lo <= k < hi <= |s| && s[k] == '\n'
    ensures LastNewline(s, lo, hi).Some? && k <= LastNewline(s, lo, hi).value
    decreases hi
  {
    if s[hi - 1] != '\n' {
      LastNewlineIsLast(s, lo, hi - 1, k);
    }
  }

  /** Three dashes `---` start at `i`. */
  predicate Dashes(s: string, i: nat) {
    i + 3 <= |s| && s[i] == '-' && s[i + 1] == '-' && s[i + 2] == '-'
  }

  /** The closing marker `\n---\s*\n` starts at `p`. */
  predicate ClosesAt(s: string, p: nat) {
    && p + 4 <= |s|
    && s[p] == '\n' && Dashes(s, p + 1)
    && LastNewline(s, p + 4, p + 4 + WsRun(s, p + 4)).Some?
  }

  /** The newline at `q` ends an opening marker: only white space lies between it and `---`. */
  predicate Opened(s: string, q: nat) {
    3 <= q < |s| && WsBetween(s, 3, q) && s[q] == '\n'
  }

  /** A closing marker `\n---` at `p`, then white space up to the newline at `c`. */
  predicate Closed(s: string, p: nat, c: nat) {
    && p + 4 <= c < |s|
    && s[p] == '\n' && Dashes(s, p + 1) && WsBetween(s, p + 4, c) && s[c] == '\n'
  }

  /**
   * The lazy block: the first `p >= from` where a closing marker starts, with
   * `c` the newline that ends it (the last one of its white-space run).
   */
  function FindClose(s: string, from: nat): (r: Option<(nat, nat)>)
    ensures r.Some? ==> from <= r.value.0 && Closed(s, r.value.0, r.value.1)
    decreases |s| - from
  {
    if from + 4 > |s| then None
    else if ClosesAt(s, from) then
      var c := LastNewline(s, from + 4, from + 4 + WsRun(s, from + 4)).value;
      WsRunSpan(s, from + 4);
      Some((from, c))
    else FindClose(s, from + 1)
  }

  /** The block found ends at a closing marker. */
  lemma {:induction false} FindCloseCloses(s: string, from: nat)
    requires FindClose(s, from).Some?
    ensures ClosesAt(s, FindClose(s, from).value.0)
    decreases |s| - from
  {
    if !ClosesAt(s, from) {
      FindCloseCloses(s, from + 1);
    }
  }

  /**
   * The markers of a match: `---` at the start, white space up to the newline
   * at `q`, the closing `\n---` at `p`, white space up to the newline at `c`.
   */
  predicate Markers(s: string, q: nat, p: nat, c: nat) {
    Dashes(s, 0) && Opened(s, q) && q + 1 <= p && Closed(s, p, c)
  }

  /**
   * Backtracking over the opening `\s*`: try the newlines of the white-space
   * run after `---` from the last (below `hi`) to the first.
   */
  function TryOpen(s: string, hi: nat): (r: Option<(nat, nat, nat)>)
    requires 3 <= hi <= |s|
    ensures r.Some? ==> 3 <= r.value.0 < hi && s[r.value.0] == '\n'
    ensures r.Some? ==> r.value.0 + 1 <= r.value.1 && Closed(s, r.value.1, r.value.2)
    decreases hi
  {
    match LastNewline(s, 3, hi)
    case None => None
    case Some(q) =>
      match FindClose(s, q + 1)
      case Some((p, c)) => Some((q, p, c))
      case None => TryOpen(s, q)
  }

  /** Where the regular expression matches: the opening newline, the closing marker and its newline. */
  function MatchPositions(s: string): Option<(nat, nat, nat)> {
    if Dashes(s, 0) then TryOpen(s, 3 + WsRun(s, 3)) else None
  }

  /** The two capture groups `match[1]` (the header block) and `match[2]` (the remainder). */
  function MatchFrontmatter(s: string): Option<(string, string)> {
    match MatchPositions(s)
    case None => None
    case Some((q, p, c)) => Some((s[q + 1..p], s[c + 1..]))
  }

  /** `s` has the shape the regular expression describes, split into its parts. */
  predicate Shaped(s: string, w1: string, header: string, w2: string, rest: string) {
    && AllWs(w1) && AllWs(w2)
    && s == "---" + (w1 + ("\n" + (header + ("\n---" + (w2 + ("\n" + rest))))))
  }

  lemma WsBetweenSlice(s: string, i: nat, j: nat)
    requires i <= j <= |s|
    ensures WsBetween(s, i, j) <==> AllWs(s[i..j])
  {
    assert forall k :: i <= k < j ==> s[k] == s[i..j][k - i];
  }

  /** Cutting `s[i..]` at `j`. */
  lemma Glue(s: string, i: nat, j: nat)
    requires i <= j <= |s|
    ensures s[i..] == s[i..j] + s[j..]
  {
  }

  /** Reading `a` off the front of `s[i..]`. */
  lemma Peel(s: string, i: nat, a: string, t: string)
    requires i <= |s| && s[i..] == a + t
    ensures i + |a| <= |s| && s[i..i + |a|] == a && s[i + |a|..] == t
  {
    assert s[i..i + |a|] == (a + t)[..|a|];
    assert s[i + |a|..] == (a + t)[|a|..];
  }

  lemma DashesIff(s: string, i: nat)
    requires i + 3 <= |s|
    ensures Dashes(s, i) <==> s[i..i + 3] == "---"
  {
    if s[i..i + 3] == "---" {
      assert s[i] == s[i..i + 3][0] && s[i + 1] == s[i..i + 3][1] && s[i + 2] == s[i..i + 3][2];
    }
  }

  lemma CloseIff(s: string, p: nat)
    requires p + 4 <= |s|
    ensures s[p] == '\n' && Dashes(s, p + 1) <==> s[p..p + 4] == "\n---"
  {
    if s[p..p + 4] == "\n---" {
      assert s[p] == s[p..p + 4][0] && s[p + 1] == s[p..p + 4][1];
      assert s[p + 2] == s[p..p + 4][2] && s[p + 3] == s[p..p + 4][3];
    }
  }

  lemma NewlineIff(s: string, q: nat)
    requires q + 1 <= |s|
    ensures s[q] == '\n' <==> s[q..q + 1] == "\n"
  {
    if s[q..q + 1] == "\n" {
      assert s[q] == s[q..q + 1][0];
    }
  }

  /** Where the regular expression matches, its markers are where the positions say. */
  lemma MatchPositionsMarkers(s: string, q: nat, p: nat, c: nat)
    requires MatchPositions(s) == Some((q, p, c))
    ensures Markers(s, q, p, c)
  {
    WsRunSpan(s, 3);
  }

  /** A document cut at its markers. */
  lemma GlueMarkers(s: string, q: nat, p: nat, c: nat)
    requires 3 <= q && q + 1 <= p && p + 4 <= c < |s|
    requires s[0..3] == "---" && s[q..q + 1] == "\n" && s[p..p + 4] == "\n---" && s[c..c + 1] == "\n"
    ensures s == "---" + (s[3..q] + ("\n" + (s[q + 1..p] + ("\n---" + (s[p + 4..c] + ("\n" + s[c + 1..]))))))
  {
    var t1 := "\n" + s[c + 1..];
    Glue(s, c, c + 1);
    assert s[c..] == t1;
    var t2 := s[p + 4..c] + t1;
    Glue(s, p + 4, c);
    assert s[p + 4..] == t2;
    var t3 := "\n---" + t2;
    Glue(s, p, p + 4);
    assert s[p..] == t3;
    var t4 := s[q + 1..p] + t3;
    Glue(s, q + 1, p);
    assert s[q + 1..] == t4;
    var t5 := "\n" + t4;
    Glue(s, q, q + 1);
    assert s[q..] == t5;
    var t6 := s[3..q] + t5;
    Glue(s, 3, q);
    assert s[3..] == t6;
    Glue(s, 0, 3);
    assert s[0..] == s;
  }

  /** A document with markers at `q`, `p` and `c` has the shape, cut there. */
  lemma MarkersShaped(s: string, q: nat, p: nat, c: nat)
    requires Markers(s, q, p, c)
    ensures Shaped(s, s[3..q], s[q + 1..p], s[p + 4..c], s[c + 1..])
  {
    DashesIff(s, 0);
    NewlineIff(s, q);
    CloseIff(s, p);
    NewlineIff(s, c);
    GlueMarkers(s, q, p, c);
    WsBetweenSlice(s, 3, q);
    WsBetweenSlice(s, p + 4, c);
  }

  /**
   * What the regular expression captures, the document is made of: the match
   * positions cut it into the opening marker, white space, the header block
   * (the first capture), the closing marker, white space and the remainder
   * (the second capture).
   */
  lemma MatchIsShaped(s: string, q: nat, p: nat, c: nat)
    requires MatchPositions(s) == Some((q, p, c))
    ensures Shaped(s, s[3..q], s[q + 1..p], s[p + 4..c], s[c + 1..])
  {
    MatchPositionsMarkers(s, q, p, c);
    MarkersShaped(s, q, p, c);
  }

  /** A white-space run is at least as long as any all-white-space stretch it starts. */
  lemma {:induction false} WsRunCovers(s: string, i: nat, j: nat)
    requires i <= j <= |s| && WsBetween(s, i, j)
    ensures i + WsRun(s, i) >= j
    decreases j - i
  {
    if i < j {
      WsRunCovers(s, i + 1, j);
    }
  }

  /**
   * The block is lazy: no closing marker at or after `from` is missed, and
   * none comes before the one found.
   */
  lemma {:induction false} FindCloseComplete(s: string, from: nat, p: nat)
    requires from <= p && ClosesAt(s, p)
    ensures FindClose(s, from).Some? && FindClose(s, from).value.0 <= p
    decreases p - from
  {
    if from < p && !ClosesAt(s, from) {
      FindCloseComplete(s, from + 1, p);
    }
  }

  lemma {:induction false} TryOpenComplete(s: string, hi: nat, q0: nat)
    requires 3 <= hi <= |s|
    requires 3 <= q0 < hi && s[q0] == '\n' && FindClose(s, q0 + 1).Some?
    ensures TryOpen(s, hi).Some?
    decreases hi
  {
    LastNewlineIsLast(s, 3, hi, q0);
    var q := LastNewline(s, 3, hi).value;
    if FindClose(s, q + 1).None? {
      TryOpenComplete(s, q, q0);
    }
  }

  /** A document of the regular expression's shape, cut into its parts. */
  lemma ShapedSlices(s: string, w1: string, header: string, w2: string, rest: string)
    requires Shaped(s, w1, header, w2, rest)
    ensures var q := 3 + |w1|; var p := q + 1 + |header|; var c := p + 4 + |w2|;
      && c < |s| && s[0..3] == "---" && s[3..q] == w1 && s[q..q + 1] == "\n"
      && s[p..p + 4] == "\n---" && s[p + 4..c] == w2 && s[c..c + 1] == "\n"
  {
    var t4 := header + ("\n---" + (w2 + ("\n" + rest)));
    OpeningSlices(s, w1, t4);
    ClosingSlices(s, 3 + |w1| + 1, header, w2, rest);
  }

  /** The opening marker, its white space and its newline. */
  lemma OpeningSlices(s: string, w1: string, t4: string)
    requires s == "---" + (w1 + ("\n" + t4))
    ensures var q := 3 + |w1|;
      && q + 1 <= |s| && s[0..3] == "---" && s[3..q] == w1 && s[q..q + 1] == "\n" && s[q + 1..] == t4
  {
    var t5 := "\n" + t4;
    var t6 := w1 + t5;
    assert s[0..] == "---" + t6;
    Peel(s, 0, "---", t6);
    Peel(s, 3, w1, t5);
    Peel(s, 3 + |w1|, "\n", t4);
  }

  /** The header, the closing marker, its white space and its newline, from `i` on. */
  lemma ClosingSlices(s: string, i: nat, header: string, w2: string, rest: string)
    requires i <= |s| && s[i..] == header + ("\n---" + (w2 + ("\n" + rest)))
    ensures var p := i + |header|; var c := p + 4 + |w2|;
      && c < |s| && s[p..p + 4] == "\n---" && s[p + 4..c] == w2 && s[c..c + 1] == "\n"
  {
    var p := i + |header|;
    var t1 := "\n" + rest;
    var t2 := w2 + t1;
    Peel(s, i, header, "\n---" + t2);
    Peel(s, p, "\n---", t2);
    Peel(s, p + 4, w2, t1);
    Peel(s, p + 4 + |w2|, "\n", rest);
  }

  /** Markers read off the slices of a document. */
  lemma SlicesMarkers(s: string, q: nat, p: nat, c: nat)
    requires 3 <= q && q + 1 <= p && p + 4 <= c < |s|
    requires s[0..3] == "---" && s[q..q + 1] == "\n" && s[p..p + 4] == "\n---" && s[c..c + 1] == "\n"
    requires AllWs(s[3..q]) && AllWs(s[p + 4..c])
    ensures Markers(s, q, p, c)
  {
    DashesIff(s, 0);
    NewlineIff(s, q);
    CloseIff(s, p);
    NewlineIff(s, c);
    WsBetweenSlice(s, 3, q);
    WsBetweenSlice(s, p + 4, c);
  }

  /** The markers of a document of the regular expression's shape. */
  lemma ShapedMarkers(s: string, w1: string, header: string, w2: string, rest: string)
    requires Shaped(s, w1, header, w2, rest)
    ensures var q := 3 + |w1|; var p := q + 1 + |header|; var c := p + 4 + |w2|;
      Markers(s, q, p, c)
  {
    ShapedSlices(s, w1, header, w2, rest);
    SlicesMarkers(s, 3 + |w1|, 3 + |w1| + 1 + |header|, 3 + |w1| + 1 + |header| + 4 + |w2|);
  }

  /** A closing marker followed by white space and a newline is one the search recognises. */
  lemma ClosedCloses(s: string, p: nat, c: nat)
    requires Closed(s, p, c)
    ensures ClosesAt(s, p)
  {
    WsRunCovers(s, p + 4, c + 1);
    LastNewlineIsLast(s, p + 4, p + 4 + WsRun(s, p + 4), c);
  }

  /** The newline of an opening marker lies inside the white-space run after `---`. */
  lemma OpenedInRun(s: string, q: nat)
    requires Opened(s, q)
    ensures q < 3 + WsRun(s, 3)
  {
    WsRunCovers(s, 3, q + 1);
  }

  /** A search that succeeds after the opening `---` is a match. */
  lemma OpenedMatches(s: string, q: nat, p: nat)
    requires Dashes(s, 0) && Opened(s, q) && q < 3 + WsRun(s, 3)
    requires q + 1 <= p && ClosesAt(s, p)
    ensures MatchPositions(s).Some?
  {
    FindCloseComplete(s, q + 1, p);
    TryOpenComplete(s, 3 + WsRun(s, 3), q);
  }

  /** Markers at `q`, `p` and `c` are enough for the regular expression to match. */
  lemma MarkersMatched(s: string, q: nat, p: nat, c: nat)
    requires Markers(s, q, p, c)
    ensures MatchPositions(s).Some?
  {
    ClosedCloses(s, p, c);
    OpenedInRun(s, q);
    OpenedMatches(s, q, p);
  }

  /** Every document of the regular expression's shape is matched. */
  lemma ShapedIsMatched(s: string, w1: string, header: string, w2: string, rest: string)
    requires Shaped(s, w1, header, w2, rest)
    ensures MatchFrontmatter(s).Some?
  {
    ShapedMarkers(s, w1, header, w2, rest);
    MarkersMatched(s, 3 + |w1|, 3 + |w1| + 1 + |header|, 3 + |w1| + 1 + |header| + 4 + |w2|);
  }

  lemma ShapedWitness(s: string, q: nat, p: nat, c: nat)
    requires 3 <= q < p && p + 4 <= c < |s|
    requires Shaped(s, s[3..q], s[q + 1..p], s[p + 4..c], s[c + 1..])
    ensures exists w1, header, w2, rest :: Shaped(s, w1, header, w2, rest)
  {
  }

  lemma MatchedShapedAt(s: string, q: nat, p: nat, c: nat)
    requires MatchPositions(s) == Some((q, p, c))
    ensures exists w1, header, w2, rest :: Shaped(s, w1, header, w2, rest)
  {
    MatchIsShaped(s, q, p, c);
    MatchPositionsMarkers(s, q, p, c);
    ShapedWitness(s, q, p, c);
  }

  /** A document the regular expression matches has its shape. */
  lemma MatchedIsShaped(s: string)
    requires MatchPositions(s).Some?
    ensures exists w1, header, w2, rest :: Shaped(s, w1, header, w2, rest)
  {
    var pos := MatchPositions(s).value;
    MatchedShapedAt(s, pos.0, pos.1, pos.2);
  }

  /** The regular expression matches exactly the documents of its shape. */
  lemma MatchIffShaped(s: string)
    ensures MatchFrontmatter(s).Some? <==>
      exists w1, header, w2, rest :: Shaped(s, w1, header, w2, rest)
  {
    if MatchPositions(s).Some? {
      MatchedIsShaped(s);
    }
    if exists w1, header, w2, rest :: Shaped(s, w1, header, w2, rest) {
      var w1, header, w2, rest :| Shaped(s, w1, header, w2, rest);
      ShapedIsMatched(s, w1, header, w2, rest);
    }
  }

  // ---------------------------------------------------------------------------
  // Decoding the header lines.

  /** Strip one matching pair of double or single quotes (`value.slice(1, -1)`). */
  function Unquote(v: string): (r: string)
    ensures |r| <= |v|
  {
    if |v| >= 1 && ((v[0] == '"' && v[|v| - 1] == '"') || (v[0] == '\'' && v[|v| - 1] == '\'')) then
      (if |v| >= 2 then v[1..|v| - 1] else "")
    else v
  }

  /**
   * `!isNaN(Number(v))` for the decimal literals the model covers: `Number`
   * trims white space, reads the empty remainder as 0, and otherwise accepts a
   * signed decimal literal.
   */
  predicate IsNumeric(v: string) {
    var t := Trim(v);
    t == "" || IsDecimal(t)
  }

  function NumberValue(v: string): real
    requires IsNumeric(v)
  {
    var t := Trim(v);
    if t == "" then 0.0 else DecimalValue(t)
  }

  /** The coercion: boolean literals, then non-empty numeric text, else the text itself. */
  function Coerce(v: string): Value {
    if v == "true" then Bool(true)
    else if v == "false" then Bool(false)
    else if IsNumeric(v) && v != "" then Num(NumberValue(v))
    else Str(v)
  }

  /**
   * The three outcomes of the coercion: exactly the two boolean literals
   * become booleans; exactly the non-empty numeric texts become numbers, with
   * their value; everything else stays the text it was.
   */
  lemma CoerceCases(v: string)
    ensures Coerce(v).Bool? <==> v == "true" || v == "false"
    ensures Coerce(v).Bool? ==> Coerce(v).b == (v == "true")
    ensures Coerce(v).Num? <==> v != "true" && v != "false" && v != "" && IsNumeric(v)
    ensures Coerce(v).Num? ==> Coerce(v).n == NumberValue(v)
    ensures Coerce(v).Str? ==> Coerce(v).s == v
  {
  }

  /**
   * One header line: split at the first `:`, trim both sides, unquote and
   * coerce the value. A line without a colon declares nothing.
   */
  function DecodeLine(line: string): Option<(string, Value)> {
    var ci := IndexOf(line, ':');
    if ci < 0 then None
    else Some((Trim(line[..ci]), Coerce(Unquote(Trim(line[ci + 1..])))))
  }

  /** A line declares a key exactly when it has a colon, and the key holds no colon. */
  lemma DecodeLineKey(line: string)
    ensures DecodeLine(line).None? <==> ':' !in line
    ensures DecodeLine(line).Some? ==> ':' !in DecodeLine(line).value.0
  {
    var ci := IndexOf(line, ':');
    if ci >= 0 {
      TrimKeepsAbsent(line[..ci], ':');
    }
  }

  lemma DecodeLineSplits(line: string, ci: int)
    requires ci == IndexOf(line, ':') && ci >= 0
    ensures DecodeLine(line) == Some((Trim(line[..ci]), Coerce(Unquote(Trim(line[ci + 1..])))))
  {
  }

  lemma DecodeLineNone(line: string)
    requires IndexOf(line, ':') == -1
    ensures DecodeLine(line) == None
  {
  }

  /** Assign each declared `(key, value)` in order into an initially empty record. */
  function Assign<K(==), V>(decls: seq<Option<(K, V)>>): map<K, V> {
    if decls == [] then map[]
    else
      var fields := Assign(decls[..|decls| - 1]);
      match decls[|decls| - 1]
      case None => fields
      case Some((key, value)) => fields[key := value]
  }

  /** One more declaration: assigning a prefix one longer adds (or overwrites) that declaration's key. */
  lemma AssignStep<K, V>(decls: seq<Option<(K, V)>>, i: nat)
    requires i < |decls|
    ensures Assign(decls[..i + 1]) ==
      if decls[i].None? then Assign(decls[..i]) else Assign(decls[..i])[decls[i].value.0 := decls[i].value.1]
  {
    assert decls[..i + 1][..i] == decls[..i];
  }

  /** The declaration of each line, in order. */
  function Decls(lines: seq<string>): seq<Option<(string, Value)>> {
    MapSeq(lines, DecodeLine)
  }

  lemma DeclsAt(lines: seq<string>, i: nat)
    requires i < |lines|
    ensures |Decls(lines)| == |lines| && Decls(lines)[i] == DecodeLine(lines[i])
  {
    MapSeqAt(lines, DecodeLine, i);
  }

  /** A line with a colon at `ci` assigns its trimmed, unquoted, coerced value to its trimmed key. */
  lemma HeaderFieldsDeclare(lines: seq<string>, i: nat, ci: int)
    requires i < |lines| && ci == IndexOf(lines[i], ':') && ci >= 0
    ensures Assign(Decls(lines)[..i + 1]) ==
      Assign(Decls(lines)[..i])[Trim(lines[i][..ci]) := Coerce(Unquote(Trim(lines[i][ci + 1..])))]
  {
    AssignStep(Decls(lines), i);
    DeclsAt(lines, i);
    DecodeLineSplits(lines[i], ci);
  }

  /** A line without a colon leaves the header fields as they were. */
  lemma HeaderFieldsSkip(lines: seq<string>, i: nat)
    requires i < |lines| && IndexOf(lines[i], ':') == -1
    ensures Assign(Decls(lines)[..i + 1]) == Assign(Decls(lines)[..i])
  {
    AssignStep(Decls(lines), i);
    DeclsAt(lines, i);
    DecodeLineNone(lines[i]);
  }

  /** The header fields of a list of lines. */
  function HeaderFields(lines: seq<string>): map<string, Value> {
    Assign(Decls(lines))
  }

  /** The specification of `parseFrontmatter`: the fields of the block's lines and the trimmed remainder. */
  function Parse(markdown: string): Result<Parsed> {
    match MatchFrontmatter(markdown)
    case None => Failure(InvalidFormat)
    case Some((header, rest)) => Success(Parsed(HeaderFields(Split(header, '\n')), Trim(rest)))
  }

  /** The `for (const line of lines)` loop of `parseFrontmatter`: decode each line into the record. */
  method DecodeHeader(lines: seq<string>) returns (frontmatter: map<string, Value>)
    ensures frontmatter == HeaderFields(lines)
  {
    frontmatter := map[];
    var i := 0;
    while i < |lines|
      invariant 0 <= i <= |lines|
      invariant frontmatter == Assign(Decls(lines)[..i])
    {
      var line := lines[i];
      var colonIndex := IndexOf(line, ':');
      if colonIndex != -1 {
        var key := Trim(line[..colonIndex]);
        var value := Trim(line[colonIndex + 1..]);
        value := Unquote(value);
        HeaderFieldsDeclare(lines, i, colonIndex);
        frontmatter := frontmatter[key := Coerce(value)];
      } else {
        HeaderFieldsSkip(lines, i);
      }
      i := i + 1;
    }
    assert Decls(lines)[..|lines|] == Decls(lines);
  }

  /** `parseFrontmatter(markdown)`: the regular-expression match, then the loop over the block's lines. */
  method ParseFrontmatter(markdown: string) returns (r: Result<Parsed>)
    ensures r == Parse(markdown)
    ensures r.Failure? <==> MatchFrontmatter(markdown).None?
    ensures r.Failure? ==> r.error == InvalidFormat
  {
    var m := MatchFrontmatter(markdown);
    if m.None? {
      return Failure(InvalidFormat);
    }
    var (yamlContent, rest) := m.value;
    var content := Trim(rest);
    var lines := Split(yamlContent, '\n');
    var frontmatter := DecodeHeader(lines);
    return Success(Parsed(frontmatter, content));
  }

  predicate DeclaresKey<K(==), V>(d: Option<(K, V)>, key: K) {
    d.Some? && d.value.0 == key
  }

  /** A key is assigned exactly when some declaration names it. */
  lemma {:induction false} AssignKeys<K, V>(decls: seq<Option<(K, V)>>, key: K)
    ensures key in Assign(decls) <==> exists i :: 0 <= i < |decls| && DeclaresKey(decls[i], key)
  {
    if decls != [] {
      var init := decls[..|decls| - 1];
      AssignKeys(init, key);
      assert forall i :: 0 <= i < |init| ==> init[i] == decls[i];
      if key in Assign(decls) && !DeclaresKey(decls[|decls| - 1], key) {
        var i :| 0 <= i < |init| && DeclaresKey(init[i], key);
        assert DeclaresKey(decls[i], key);
      }
    }
  }

  /** The last declaration of a key decides its value. */
  lemma {:induction false} AssignLastWins<K, V>(decls: seq<Option<(K, V)>>, i: nat)
    requires i < |decls| && decls[i].Some?
    requires forall j :: i < j < |decls| ==> !DeclaresKey(decls[j], decls[i].value.0)
    ensures decls[i].value.0 in Assign(decls) && Assign(decls)[decls[i].value.0] == decls[i].value.1
  {
    var init := decls[..|decls| - 1];
    if i < |decls| - 1 {
      assert forall j :: i < j < |init| ==> init[j] == decls[j];
      AssignLastWins(init, i);
    }
  }

  /**
   * A key is a header field exactly when some line declares it (by
   * `DecodeLineKey`, a line declares a key only if it has a colon).
   */
  lemma FieldsKeys(lines: seq<string>, key: string)
    ensures key in HeaderFields(lines) <==>
      exists i :: 0 <= i < |lines| && DeclaresKey(DecodeLine(lines[i]), key)
  {
    var d := Decls(lines);
    AssignKeys(d, key);
    forall i | 0 <= i < |lines| {
      DeclsAt(lines, i);
    }
  }

  /** Duplicate keys: the value of the last line that declares a key wins. */
  lemma LastDeclarationWins(lines: seq<string>, i: nat, key: string, value: Value)
    requires i < |lines| && DecodeLine(lines[i]) == Some((key, value))
    requires forall j :: i < j < |lines| ==> !DeclaresKey(DecodeLine(lines[j]), key)
    ensures key in HeaderFields(lines) && HeaderFields(lines)[key] == value
  {
    forall j | i <= j < |lines| {
      DeclsAt(lines, j);
    }
    AssignLastWins(Decls(lines), i);
  }

  /** One pair of matching quotes comes off, whatever is between them. */
  lemma UnquoteQuoted(x: string)
    ensures Unquote("\"" + x + "\"") == x
    ensures Unquote("'" + x + "'") == x
  {
    var d := "\"" + x + "\"";
    assert d[1..|d| - 1] == x;
    var q := "'" + x + "'";
    assert q[1..|q| - 1] == x;
  }

  /** A trimmed decimal literal, whatever its value, is coerced to that value. */
  lemma CoerceDecimal(v: string)
    requires Trim(v) == v && IsDecimal(v)
    requires IsDigit(v[0]) || IsSign(v[0]) || v[0] == '.'
    ensures Coerce(v) == Num(DecimalValue(v))
  {
    assert v != "true" && v != "false" by {
      assert "true"[0] == 't' && "false"[0] == 'f';
    }
    assert IsNumeric(v);
  }

  /** A printed integer has no white space at its ends. */
  lemma IntToStringTrimmed(n: int)
    ensures Trim(IntToString(n)) == IntToString(n)
  {
    var v := IntToString(n);
    assert !IsWs(v[0]) && !IsWs(v[|v| - 1]);
    TrimNoEdgeWs(v);
  }

  /** A printed integer is read back as that number. */
  lemma CoerceInteger(n: int)
    ensures Coerce(IntToString(n)) == Num(n as real)
  {
    IntToStringIsDecimal(n);
    IntToStringTrimmed(n);
    CoerceDecimal(IntToString(n));
  }

  /** So is a quoted one: `"42"` in the header still becomes the number 42. */
  lemma CoerceQuotedInteger(n: int)
    ensures Coerce(Unquote("\"" + IntToString(n) + "\"")) == Num(n as real)
  {
    UnquoteQuoted(IntToString(n));
    CoerceInteger(n);
  }

  predicate DigitOrHyphen(c: char) { IsDigit(c) || c == '-' }

  /** Digits and hyphens with at least one hyphen hold no '.' and are not all digits. */
  lemma DigitsAndHyphensShape(v: string)
    requires '-' in v
    requires forall k :: 0 <= k < |v| ==> DigitOrHyphen(v[k])
    ensures '.' !in v && !AllDigits(v)
  {
  }

  /** Text with no '.' that is not all digits is no decimal literal unless it starts with a sign. */
  lemma NotDecimal(v: string)
    requires '.' !in v && !AllDigits(v) && (v == [] || !IsSign(v[0]))
    ensures !IsDecimal(v)
  {
  }

  /** The same text is not numeric either: trimming leaves it as it is. */
  lemma DigitsAndHyphensNotNumeric(v: string)
    requires |v| > 0 && IsDigit(v[0]) && '-' in v
    requires forall k :: 0 <= k < |v| ==> DigitOrHyphen(v[k])
    ensures !IsNumeric(v)
  {
    DigitsAndHyphensShape(v);
    NotDecimal(v);
    assert !IsWs(v[|v| - 1]) by {
      assert DigitOrHyphen(v[|v| - 1]);
    }
    TrimNoEdgeWs(v);
  }

  /**
   * Digits, then digits and hyphens with at least one hyphen among them (a
   * date such as `2025-01-01`), are not a number: the value stays text.
   */
  lemma HyphenatedDigitsStayText(v: string)
    requires |v| > 0 && IsDigit(v[0]) && '-' in v
    requires forall k :: 0 <= k < |v| ==> DigitOrHyphen(v[k])
    ensures Coerce(v) == Str(v)
  {
    DigitsAndHyphensNotNumeric(v);
    assert v != "true" && v != "false" by {
      assert "true"[0] == 't' && "false"[0] == 'f';
    }
  }
}
