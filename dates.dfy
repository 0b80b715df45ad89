/**
 * The date patterns the two parsers recognise, and the `YYYY-MM-DD` form
 * they both produce.
 */
module Dates {
  import opened TextBasics

  /** JavaScript `s.padStart(2, '0')`. */
  function Pad2(s: String): (r: String)
    ensures |s| >= 2 ==> r == s
    ensures |s| < 2 ==> |r| == 2 && r[2 - |s|..] == s && forall k | 0 <= k < 2 - |s| :: r[k] == '0'
    ensures AllDigits(s) ==> AllDigits(r)
  {
    if |s| >= 2 then s else if |s| == 1 then "0" + s else "00"
  }

  /** `\d{4}`. */
  predicate IsYear(s: String) {
    |s| == 4 && AllDigits(s)
  }

  /** `\d{1,2}`. */
  predicate IsShortNumber(s: String) {
    1 <= |s| <= 2 && AllDigits(s)
  }

  /** Four digits, a hyphen, two digits, a hyphen, two digits. */
  predicate IsIsoDate(r: String) {
    |r| == 10 && r[4] == '-' && r[7] == '-' &&
    AllDigits(r[..4]) && AllDigits(r[5..7]) && AllDigits(r[8..])
  }

  /** The date written `year-month-day`. */
  function IsoDate(year: String, month: String, day: String): String {
    year + "-" + month + "-" + day
  }

  /** A four-digit year with a two-digit month and day makes an ISO date, from which they can be read back. */
  lemma IsoDateShape(year: String, month: String, day: String)
    requires IsYear(year) && |month| == 2 && AllDigits(month) && |day| == 2 && AllDigits(day)
    ensures IsIsoDate(IsoDate(year, month, day))
    ensures var r := IsoDate(year, month, day); r[..4] == year && r[5..7] == month && r[8..] == day
  {
    var r := IsoDate(year, month, day);
    assert r[..4] == year && r[5..7] == month && r[8..] == day;
  }

  /** Padding a one- or two-digit number gives two digits that read as the same number. */
  lemma Pad2Number(s: String)
    requires IsShortNumber(s)
    ensures |Pad2(s)| == 2 && AllDigits(Pad2(s)) && ParseDigits(Pad2(s)) == ParseDigits(s)
  {
    if |s| == 1 {
      assert Pad2(s)[..1] == "0";
      assert ParseDigits("0") == 10 * ParseDigits([]) + 0;
      assert s[..0] == [];
    }
  }

  predicate IsSlash(c: char) {
    c == '/'
  }

  predicate IsNonSpace(c: char) {
    !IsSpace(c)
  }

  /**
   * `\d{1,2}` at `i` followed by a character satisfying `stop`, which is
   * never a digit: the end of the one or two digits. A longer run of
   * digits cannot be split so as to be followed by `stop`.
   */
  function ShortRunAt(s: String, i: nat, stop: char -> bool): (e: Option<nat>)
    requires i <= |s|
    ensures e.Some? ==> i < e.value < |s| && IsShortNumber(s[i..e.value]) && stop(s[e.value])
  {
    var e := Span(s, i, IsAsciiDigit);
    if i < e <= i + 2 && e < |s| && stop(s[e]) then Some(e) else None
  }

  /** A one- or two-digit number followed by a non-digit `stop` character is found. */
  lemma ShortRunFound(s: String, i: nat, n: String, stop: char -> bool)
    requires IsShortNumber(n) && OccursAt(s, n, i) && i + |n| < |s|
    requires stop(s[i + |n|]) && !IsAsciiDigit(s[i + |n|])
    ensures ShortRunAt(s, i, stop) == Some(i + |n|)
  {
    assert forall k | i <= k < i + |n| :: s[k] == n[k - i];
    SpanUnique(s, i, IsAsciiDigit, i + |n|);
  }

  // ---------------------------------------------------------------------
  // ^(\d{4})\/(\d{1,2})\/(\d{1,2})$
  // ---------------------------------------------------------------------

  /** `c` is exactly `year/month/day` with a four-digit year and a one- or two-digit month and day. */
  predicate IsSlashDate(c: String, year: String, month: String, day: String) {
    IsYear(year) && IsShortNumber(month) && IsShortNumber(day) && c == year + "/" + month + "/" + day
  }

  /** The anchored match of `^(\d{4})\/(\d{1,2})\/(\d{1,2})$`: year, month and day. */
  function SlashDateParts(c: String): (r: Option<(String, String, String)>)
    ensures r.Some? ==> IsSlashDate(c, r.value.0, r.value.1, r.value.2)
  {
    if |c| < 5 || !AllDigits(c[..4]) || c[4] != '/' then None
    else
      var m := ShortRunAt(c, 5, IsSlash);
      if m.None? then None
      else
        var e := Span(c, m.value + 1, IsAsciiDigit);
        if e == |c| && m.value + 1 < e <= m.value + 3 then
          assert c == c[..4] + "/" + c[5..m.value] + "/" + c[m.value + 1..];
          Some((c[..4], c[5..m.value], c[m.value + 1..]))
        else None
  }

  /** Every `year/month/day` text of that shape matches, with its own parts. */
  lemma SlashDatePartsComplete(year: String, month: String, day: String)
    requires IsYear(year) && IsShortNumber(month) && IsShortNumber(day)
    ensures SlashDateParts(year + "/" + month + "/" + day) == Some((year, month, day))
  {
    var c := year + "/" + month + "/" + day;
    var m := 5 + |month|;
    assert OccursAt(c, c, 0);
    SlashDateSlices(c, 0, year, month, day);
    ShortRunFound(c, 5, month, IsSlash);
    assert forall k | m + 1 <= k < |c| :: c[k] == day[k - m - 1];
    SpanUnique(c, m + 1, IsAsciiDigit, |c|);
  }

  /** `value.replace(/\./g, '/')`. */
  function DotsToSlashes(s: String): (r: String)
    ensures |r| == |s|
    ensures forall k | 0 <= k < |s| :: r[k] == (if s[k] == '.' then '/' else s[k])
  {
    seq(|s|, k requires 0 <= k < |s| => if s[k] == '.' then '/' else s[k])
  }

  predicate IsDateSeparator(c: char) {
    c == '/' || c == '.'
  }

  lemma DotsToSlashesConcat(a: String, b: String)
    ensures DotsToSlashes(a + b) == DotsToSlashes(a) + DotsToSlashes(b)
  {
  }

  lemma DotsToSlashesDigits(a: String)
    requires AllDigits(a)
    ensures DotsToSlashes(a) == a
  {
  }

  /** Either separator becomes a slash, and the digits around them stay. */
  lemma DotsToSlashesDate(year: String, sep: char, month: String, sep2: char, day: String)
    requires AllDigits(year) && AllDigits(month) && AllDigits(day)
    requires IsDateSeparator(sep) && IsDateSeparator(sep2)
    ensures DotsToSlashes(year + [sep] + month + [sep2] + day) == year + "/" + month + "/" + day
  {
    DotsToSlashesConcat(year + [sep] + month + [sep2], day);
    DotsToSlashesConcat(year + [sep] + month, [sep2]);
    DotsToSlashesConcat(year + [sep], month);
    DotsToSlashesConcat(year, [sep]);
    DotsToSlashesDigits(year);
    DotsToSlashesDigits(month);
    DotsToSlashesDigits(day);
  }

  /**
   * The dots made slashes, then the anchored match of
   * `^(\d{4})\/(\d{1,2})\/(\d{1,2})$`, written `YYYY-MM-DD`.
   */
  function YearFirstDate(c: String): (r: Option<String>)
    ensures r.Some? ==> IsIsoDate(r.value)
  {
    var parts := SlashDateParts(DotsToSlashes(c));
    if parts.None? then None
    else
      var year, month, day := parts.value.0, Pad2(parts.value.1), Pad2(parts.value.2);
      IsoDateShape(year, month, day);
      Some(IsoDate(year, month, day))
  }

  /** Every year, month and day separated by slashes or dots is read, month and day padded. */
  lemma YearFirstDateReads(year: String, sep: char, month: String, sep2: char, day: String)
    requires IsYear(year) && IsShortNumber(month) && IsShortNumber(day)
    requires IsDateSeparator(sep) && IsDateSeparator(sep2)
    ensures YearFirstDate(year + [sep] + month + [sep2] + day) == Some(IsoDate(year, Pad2(month), Pad2(day)))
  {
    DotsToSlashesDate(year, sep, month, sep2, day);
    SlashDatePartsComplete(year, month, day);
  }

  /** A date already written `YYYY-MM-DD` is not of this form. */
  lemma YearFirstDateRejectsIso(c: String)
    requires IsIsoDate(c)
    ensures YearFirstDate(c) == None
  {
    assert DotsToSlashes(c)[4] == '-';
  }

  // ---------------------------------------------------------------------
  // (\d{1,2})\/(\d{1,2})\/(\d{4})
  // ---------------------------------------------------------------------

  /** The match of `(\d{1,2})\/(\d{1,2})\/(\d{4})` starting at `i`: day, month and year. */
  function DayMonthYearAt(s: String, i: nat): (r: Option<(String, String, String)>)
    ensures r.Some? ==> IsShortNumber(r.value.0) && IsShortNumber(r.value.1) && IsYear(r.value.2)
    ensures r.Some? ==> OccursAt(s, r.value.0 + "/" + r.value.1 + "/" + r.value.2, i)
  {
    if i > |s| then None
    else
      var a := ShortRunAt(s, i, IsSlash);
      if a.None? then None
      else
        var b := ShortRunAt(s, a.value + 1, IsSlash);
        if b.None? || b.value + 5 > |s| || !AllDigits(s[b.value + 1..b.value + 5]) then None
        else
          var d, m, y := s[i..a.value], s[a.value + 1..b.value], s[b.value + 1..b.value + 5];
          assert s[i..b.value + 5] == d + "/" + m + "/" + y;
          Some((d, m, y))
  }

  /** Wherever `day/month/year` of that shape occurs, the match starting there finds it. */
  lemma DayMonthYearFound(s: String, i: nat, day: String, month: String, year: String)
    requires IsShortNumber(day) && IsShortNumber(month) && IsYear(year)
    requires OccursAt(s, day + "/" + month + "/" + year, i)
    ensures DayMonthYearAt(s, i) == Some((day, month, year))
  {
    var a := i + |day|;
    var b := a + 1 + |month|;
    SlashDateSlices(s, i, day, month, year);
    ShortRunFound(s, i, day, IsSlash);
    ShortRunFound(s, a + 1, month, IsSlash);
  }

  /** Where `day/month/year` occurs, the text holds each part and each slash at its place. */
  lemma SlashDateSlices(s: String, i: nat, day: String, month: String, year: String)
    requires OccursAt(s, day + "/" + month + "/" + year, i)
    ensures i + |day| + |month| + |year| + 2 <= |s|
    ensures s[i..i + |day|] == day && s[i + |day|] == '/'
    ensures s[i + |day| + 1..i + |day| + 1 + |month|] == month && s[i + |day| + 1 + |month|] == '/'
    ensures s[i + |day| + 2 + |month|..i + |day| + 2 + |month| + |year|] == year
  {
    var t := day + "/" + month + "/" + year;
    assert forall k | 0 <= k < |t| :: s[i + k] == t[k];
    assert t[..|day|] == day && t[|day|] == '/';
    assert t[|day| + 1..|day| + 1 + |month|] == month && t[|day| + 1 + |month|] == '/';
    assert t[|day| + 2 + |month|..] == year;
  }

  // ---------------------------------------------------------------------
  // (\d{1,2})\s+\S+\s+(\d{4})
  // ---------------------------------------------------------------------

  /** Every character of `s[i..j]` satisfies `f`. */
  predicate AllIn(s: String, i: nat, j: nat, f: char -> bool)
    requires i <= j <= |s|
  {
    forall k | i <= k < j :: f(s[k])
  }

  /**
   * The boundaries of a day `s[i..a]`, whitespace `s[a..b]`, a word
   * `s[b..c]`, whitespace `s[c..d]` and a year `s[d..d + 4]`.
   */
  predicate IsDayWordYear(s: String, i: nat, a: nat, b: nat, c: nat, d: nat) {
    i < a <= i + 2 && a < b < c < d && d + 4 <= |s| &&
    AllIn(s, i, a, IsAsciiDigit) && AllIn(s, a, b, IsSpace) && AllIn(s, b, c, IsNonSpace) &&
    AllIn(s, c, d, IsSpace) && AllIn(s, d, d + 4, IsAsciiDigit)
  }

  /** The match of `(\d{1,2})\s+\S+\s+(\d{4})` starting at `i`: where its parts end. */
  function DayWordYearAt(s: String, i: nat): (r: Option<(nat, nat, nat, nat)>)
    ensures r.Some? ==> IsDayWordYear(s, i, r.value.0, r.value.1, r.value.2, r.value.3)
  {
    if i > |s| then None
    else
      var a := ShortRunAt(s, i, IsSpace);
      if a.None? then None
      else
        var b := Span(s, a.value, IsSpace);
        var c := Span(s, b, IsNonSpace);
        if c == b then None
        else
          var d := Span(s, c, IsSpace);
          if d == c || d + 4 > |s| || !AllDigits(s[d..d + 4]) then None
          else Some((a.value, b, c, d))
  }

  /** The parts of a day, a word and a year are unique, and the match starting at `i` finds them. */
  lemma DayWordYearFound(s: String, i: nat, a: nat, b: nat, c: nat, d: nat)
    requires IsDayWordYear(s, i, a, b, c, d)
    ensures DayWordYearAt(s, i) == Some((a, b, c, d))
  {
    SpanUnique(s, i, IsAsciiDigit, a);
    SpanUnique(s, a, IsSpace, b);
    SpanUnique(s, b, IsNonSpace, c);
    SpanUnique(s, c, IsSpace, d);
    assert AllDigits(s[d..d + 4]);
  }
}
