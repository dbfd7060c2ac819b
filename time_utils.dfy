/**
 * The integer calendar helpers of the timeline view (src/lib/time-utils.ts):
 * decade and century ranges built with floor division, the year and decade
 * lists, the "progress of a past/current/future unit" comparisons and the
 * zoom-level dispatch. The progress of the current unit (a date computation)
 * is a parameter.
 */
module TimeUtils {
  import opened Text

  /** `Math.floor(year / 10) * 10`: Dafny's `/` by a positive constant floors, as `Math.floor` does. */
  function DecadeStart(year: int): (d: int)
    ensures d % 10 == 0 && d <= year <= d + 9
  {
    (year / 10) * 10
  }

  /** `Math.floor(year / 100) * 100`. */
  function CenturyStart(year: int): (c: int)
    ensures c % 100 == 0 && c <= year <= c + 99
  {
    (year / 100) * 100
  }

  lemma Div10(x: int, q: int)
    requires 10 * q <= x < 10 * q + 10
    ensures x / 10 == q
  {
  }

  lemma Mod10(x: int, q: int)
    requires x == 10 * q
    ensures x % 10 == 0
  {
  }

  lemma Div100(x: int, q: int)
    requires 100 * q <= x < 100 * q + 100
    ensures x / 100 == q
  {
  }

  /** The decade of a year is the only multiple of ten at most nine below it. */
  lemma DecadeStartUnique(year: int, m: int)
    requires m % 10 == 0 && m <= year <= m + 9
    ensures m == DecadeStart(year)
  {
    var k := m / 10;
    assert m == 10 * k;
    Div10(year, k);
  }

  /** The century of a year is the only multiple of a hundred at most 99 below it. */
  lemma CenturyStartUnique(year: int, m: int)
    requires m % 100 == 0 && m <= year <= m + 99
    ensures m == CenturyStart(year)
  {
    var k := m / 100;
    assert m == 100 * k;
    Div100(year, k);
  }

  /** A decade lies inside one century: the decade start has the year's century. */
  lemma DecadeInCentury(year: int)
    ensures CenturyStart(DecadeStart(year)) == CenturyStart(year)
  {
    var a := year / 100;
    var b := year / 10;
    assert 100 * a <= year < 100 * a + 100;
    assert 10 * b <= year < 10 * b + 10;
    assert 10 * a <= b <= 10 * a + 9;
    Div100(10 * b, a);
  }

  // ---------------------------------------------------------------------------
  // Range labels

  /** `${lo}-${hi}`. */
  function RangeText(lo: int, hi: int): string {
    IntToString(lo) + "-" + IntToString(hi)
  }

  /** `getDecadeRange(year)`. */
  function DecadeRange(year: int): string {
    var d := DecadeStart(year);
    RangeText(d, d + 9)
  }

  /** `getCenturyRange(year)`. */
  function CenturyRange(year: int): string {
    var c := CenturyStart(year);
    RangeText(c, c + 99)
  }

  /** The digits up to the first `-`. */
  function LeadingPiece(t: string): string {
    var i := IndexOf(t, '-');
    if i < 0 then t else t[..i]
  }

  /** The value of the digits before the first `-` (0 when they are not all digits). */
  function ReadPiece(t: string): int {
    var piece := LeadingPiece(t);
    if AllDigits(piece) then DigitsValue(piece) else 0
  }

  /** The start a range label names, read back: an optional `-`, then digits up to the next `-`. */
  function RangeStart(r: string): int {
    if |r| > 0 && r[0] == '-' then -ReadPiece(r[1..]) else ReadPiece(r)
  }

  lemma FirstHyphen(a: string, b: string)
    requires '-' !in a
    ensures LeadingPiece(a + "-" + b) == a
  {
    var t := a + "-" + b;
    assert t[|a|] == '-';
    assert t[..|a|] == a;
  }

  lemma DigitsHaveNoHyphen(s: string)
    requires AllDigits(s)
    ensures '-' !in s
  {
  }

  lemma ReadPieceOf(a: string, b: string)
    requires AllDigits(a)
    ensures ReadPiece(a + "-" + b) == DigitsValue(a)
  {
    DigitsHaveNoHyphen(a);
    FirstHyphen(a, b);
  }

  /** A range label gives back the start it was printed from. */
  lemma RangeStartOfText(lo: int, hi: int)
    ensures RangeStart(RangeText(lo, hi)) == lo
  {
    var h := IntToString(hi);
    if lo >= 0 {
      var n := NatToString(lo);
      assert RangeText(lo, hi) == n + "-" + h;
      assert (n + "-" + h)[0] == n[0];
      ReadPieceOf(n, h);
      DigitsValueOfNatToString(lo);
    } else {
      var n := NatToString(-lo);
      var t := n + "-" + h;
      assert RangeText(lo, hi) == "-" + t;
      assert ("-" + t)[1..] == t;
      ReadPieceOf(n, h);
      DigitsValueOfNatToString(-lo);
    }
  }

  lemma ReadsAs(r: string, lo: int, hi: int)
    requires r == RangeText(lo, hi)
    ensures RangeStart(r) == lo
  {
    RangeStartOfText(lo, hi);
  }

  lemma SameStart(r1: string, r2: string, lo1: int, lo2: int)
    requires RangeStart(r1) == lo1 && RangeStart(r2) == lo2 && r1 == r2
    ensures lo1 == lo2
  {
  }

  /** Ranges of one width have the same label exactly when they start together. */
  lemma RangeIdentifiesStart(lo1: int, lo2: int, w: int)
    ensures RangeText(lo1, lo1 + w) == RangeText(lo2, lo2 + w) ==> lo1 == lo2
    ensures lo1 == lo2 ==> RangeText(lo1, lo1 + w) == RangeText(lo2, lo2 + w)
  {
    var r1, r2 := RangeText(lo1, lo1 + w), RangeText(lo2, lo2 + w);
    ReadsAs(r1, lo1, lo1 + w);
    ReadsAs(r2, lo2, lo2 + w);
    assert r1 == r2 ==> lo1 == lo2 by {
      if r1 == r2 {
        SameStart(r1, r2, lo1, lo2);
      }
    }
  }

  /** Two years get the same decade label exactly when they are in the same decade. */
  lemma DecadeRangeIdentifies(y1: int, y2: int)
    ensures DecadeRange(y1) == DecadeRange(y2) <==> DecadeStart(y1) == DecadeStart(y2)
  {
    RangeIdentifiesStart(DecadeStart(y1), DecadeStart(y2), 9);
  }

  /** Two years get the same century label exactly when they are in the same century. */
  lemma CenturyRangeIdentifies(y1: int, y2: int)
    ensures CenturyRange(y1) == CenturyRange(y2) <==> CenturyStart(y1) == CenturyStart(y2)
  {
    RangeIdentifiesStart(CenturyStart(y1), CenturyStart(y2), 99);
  }

  /** Reading a label back gives the start of the year's decade or century. */
  lemma RangeLabelsReadBack(year: int)
    ensures RangeStart(DecadeRange(year)) == DecadeStart(year)
    ensures RangeStart(CenturyRange(year)) == CenturyStart(year)
  {
    var d, c := DecadeStart(year), CenturyStart(year);
    ReadsAs(DecadeRange(year), d, d + 9);
    ReadsAs(CenturyRange(year), c, c + 99);
  }

  // ---------------------------------------------------------------------------
  // Year and decade lists

  /** `getYearsInDecade(year)`: the ten years of its decade, in order. */
  function YearsInDecade(year: int): (r: seq<int>)
    ensures |r| == 10
    ensures forall i :: 0 <= i < 10 ==> r[i] == DecadeStart(year) + i
  {
    var d := DecadeStart(year);
    seq(10, i => d + i)
  }

  /** `getDecadesInCentury(year)`: the ten decade starts of its century, in order. */
  function DecadesInCentury(year: int): (r: seq<int>)
    ensures |r| == 10
    ensures forall i :: 0 <= i < 10 ==> r[i] == CenturyStart(year) + 10 * i
  {
    var c := CenturyStart(year);
    seq(10, i => c + i * 10)
  }

  /** The year list holds exactly the years of the same decade, the given year among them. */
  lemma YearsInDecadeMembers(year: int, x: int)
    ensures x in YearsInDecade(year) <==> DecadeStart(x) == DecadeStart(year)
    ensures year in YearsInDecade(year)
  {
    var d := DecadeStart(year);
    var r := YearsInDecade(year);
    if DecadeStart(x) == d {
      assert r[x - d] == x;
    }
    if x in r {
      var i :| 0 <= i < 10 && r[i] == x;
      DecadeStartUnique(x, d);
    }
    assert r[year - d] == year;
  }

  /**
   * The decade list holds exactly the decade starts of the same century; the
   * given year's decade is among them.
   */
  lemma DecadesInCenturyMembers(year: int, x: int)
    ensures x in DecadesInCentury(year) <==> x % 10 == 0 && CenturyStart(x) == CenturyStart(year)
    ensures DecadeStart(year) in DecadesInCentury(year)
  {
    var c := CenturyStart(year);
    var r := DecadesInCentury(year);
    if x % 10 == 0 && CenturyStart(x) == c {
      DecadesInCenturyMember(year, x);
    }
    if x in r {
      var i :| 0 <= i < 10 && r[i] == x;
      var a := year / 100;
      assert x == 10 * (10 * a + i);
      Mod10(x, 10 * a + i);
      CenturyStartUnique(x, c);
    }
    DecadeInCentury(year);
    DecadesInCenturyMember(year, DecadeStart(year));
  }

  lemma DecadesInCenturyMember(year: int, d: int)
    requires d % 10 == 0 && CenturyStart(d) == CenturyStart(year)
    ensures d in DecadesInCentury(year)
  {
    var a := year / 100;
    var k := d / 10;
    assert d == 10 * k;
    assert 100 * a <= d < 100 * a + 100;
    var i := k - 10 * a;
    assert DecadesInCentury(year)[i] == d;
  }

  // ---------------------------------------------------------------------------
  // Progress of a past, current or future unit

  /**
   * `getYearProgressInDecade(target, current, now)`: a past year is complete,
   * a future one has not begun, and the current one shows `yearProgress`
   * (what `getYearProgress(now)` computes).
   */
  function YearProgressInDecade(targetYear: int, currentYear: int, yearProgress: real): real {
    if targetYear < currentYear then 100.0
    else if targetYear > currentYear then 0.0
    else yearProgress
  }

  /** `getDecadeProgressInCentury(targetDecadeStart, currentYear, now)`: the same, by decade. */
  function DecadeProgressInCentury(targetDecadeStart: int, currentYear: int, decadeProgress: real): real {
    var currentDecadeStart := DecadeStart(currentYear);
    if targetDecadeStart < currentDecadeStart then 100.0
    else if targetDecadeStart > currentDecadeStart then 0.0
    else decadeProgress
  }

  /**
   * Along the year list of the current decade, the years before the current
   * one show 100, the current one its progress and the later ones 0.
   */
  lemma YearListProgress(year: int, p: real, i: nat)
    requires i < 10
    ensures var k := year - DecadeStart(year);
      YearProgressInDecade(YearsInDecade(year)[i], year, p) ==
        if i < k then 100.0 else if i == k then p else 0.0
  {
  }

  /**
   * Along the decade list of the current century, the decades before the
   * current one show 100, the current one its progress and the later ones 0.
   */
  lemma DecadeListProgress(year: int, p: real, i: nat)
    requires i < 10
    ensures var k := (DecadeStart(year) - CenturyStart(year)) / 10;
      && 0 <= k < 10
      && DecadeProgressInCentury(DecadesInCentury(year)[i], year, p) ==
        if i < k then 100.0 else if i == k then p else 0.0
  {
    var a := year / 100;
    var b := year / 10;
    assert 100 * a <= year < 100 * a + 100;
    assert 10 * b <= year < 10 * b + 10;
    assert 10 * a <= b <= 10 * a + 9;
    Div10(10 * b - 100 * a, b - 10 * a);
  }

  /** With progress values in `[0, 100]`, a later year never shows more progress. */
  lemma YearProgressMonotone(t1: int, t2: int, current: int, p: real)
    requires t1 <= t2 && 0.0 <= p <= 100.0
    ensures YearProgressInDecade(t2, current, p) <= YearProgressInDecade(t1, current, p)
  {
  }

  // ---------------------------------------------------------------------------
  // Zoom levels

  /** The time units of the zoom levels. */
  datatype Unit = Hour | Day | Week | Month | Year | Decade | Century

  /** The progress of each unit at the current instant (`getHourProgress(now)` and so on). */
  datatype Progress = Progress(hour: real, day: real, week: real, month: real, year: real, decade: real, century: real)

  /** `getProgressForZoomLevel(now, zoomLevel)`: levels 0 to 6, anything else falls back to the year. */
  function ProgressForZoomLevel(now: Progress, zoomLevel: int): real {
    match zoomLevel
    case 0 => now.hour
    case 1 => now.day
    case 2 => now.week
    case 3 => now.month
    case 4 => now.year
    case 5 => now.decade
    case 6 => now.century
    case _ => now.year
  }

  /** `getZoomLevelLabel(zoomLevel)`: levels 0 to 6, anything else is labelled as the year. */
  function ZoomLevelLabel(zoomLevel: int): string {
    match zoomLevel
    case 0 => "Hour"
    case 1 => "Day"
    case 2 => "Week"
    case 3 => "Month"
    case 4 => "Year"
    case 5 => "Decade"
    case 6 => "Century"
    case _ => "Year"
  }

  /** The unit a zoom level stands for: the seven units in order, and the year by default. */
  function ZoomUnit(zoomLevel: int): Unit {
    if 0 <= zoomLevel < 7 then [Hour, Day, Week, Month, Year, Decade, Century][zoomLevel] else Year
  }

  function UnitName(u: Unit): string {
    match u
    case Hour => "Hour"
    case Day => "Day"
    case Week => "Week"
    case Month => "Month"
    case Year => "Year"
    case Decade => "Decade"
    case Century => "Century"
  }

  function UnitProgress(now: Progress, u: Unit): real {
    match u
    case Hour => now.hour
    case Day => now.day
    case Week => now.week
    case Month => now.month
    case Year => now.year
    case Decade => now.decade
    case Century => now.century
  }

  /** The two switches agree: the label names the unit whose progress is shown. */
  lemma ZoomAgrees(now: Progress, zoomLevel: int)
    ensures ZoomLevelLabel(zoomLevel) == UnitName(ZoomUnit(zoomLevel))
    ensures ProgressForZoomLevel(now, zoomLevel) == UnitProgress(now, ZoomUnit(zoomLevel))
  {
  }

  /** Different units have different names. */
  lemma UnitNameInjective(u: Unit, v: Unit)
    requires UnitName(u) == UnitName(v)
    ensures u == v
  {
    var a, b := UnitName(u), UnitName(v);
    assert a[0] == b[0] && |a| == |b|;
  }

  /** Levels with the same label show the same progress. */
  lemma SameLabelSameProgress(now: Progress, l1: int, l2: int)
    requires ZoomLevelLabel(l1) == ZoomLevelLabel(l2)
    ensures ProgressForZoomLevel(now, l1) == ProgressForZoomLevel(now, l2)
  {
    ZoomAgrees(now, l1);
    ZoomAgrees(now, l2);
    UnitNameInjective(ZoomUnit(l1), ZoomUnit(l2));
  }

  /** A level outside 0 to 6 behaves exactly like the year level 4. */
  lemma OutOfRangeIsYear(now: Progress, zoomLevel: int)
    requires zoomLevel < 0 || zoomLevel > 6
    ensures ZoomLevelLabel(zoomLevel) == ZoomLevelLabel(4) == "Year"
    ensures ProgressForZoomLevel(now, zoomLevel) == ProgressForZoomLevel(now, 4) == now.year
  {
  }
}
