/**
 * `normalizeDate` of the legal archive's parser: the dates a law's page
 * gives, in Arabic month names, year first or day first, made ISO.
 */
module ManshuratDates {
  import opened TextBasics
  import opened ArabicNormalizer
  import opened Dates

  // ---------------------------------------------------------------------
  // normalizeDate
  // ---------------------------------------------------------------------

  /** The month names the archive writes, in the table's order, each with its two-digit number. */
  const Months: seq<(String, String)> := [
    ("يناير", "01"), ("فبراير", "02"), ("مارس", "03"),
    ("أبريل", "04"), ("إبريل", "04"), ("ابريل", "04"),
    ("مايو", "05"), ("يونيو", "06"), ("يونية", "06"),
    ("يوليو", "07"), ("يوليه", "07"), ("أغسطس", "08"),
    ("اغسطس", "08"), ("سبتمبر", "09"), ("أكتوبر", "10"),
    ("اكتوبر", "10"), ("نوفمبر", "11"), ("ديسمبر", "12")
  ]

  /** The letters of the Arabic block from Hamza to Yeh. */
  predicate IsArabicLetter(c: char) {
    '\U{0621}' <= c <= '\U{064A}'
  }

  /** Each month number is two digits, and each name is made of Arabic letters. */
  lemma MonthTable()
    ensures forall k | 0 <= k < |Months| :: |Months[k].1| == 2 && AllDigits(Months[k].1)
    ensures forall k | 0 <= k < |Months| :: |Months[k].0| > 0 && forall x | 0 <= x < |Months[k].0| :: IsArabicLetter(Months[k].0[x])
  {
  }

  /** The text a date is read from: bidi controls dropped, whitespace runs made one space, trimmed, digits made ASCII. */
  function CleanDate(value: String): String {
    NormalizeArabicDigits(Trim(CollapseSpaces(StripBidi(value), ' ')))
  }

  /** The first entry of the table from `k` on whose name the text contains. */
  function FirstMonth(clean: String, k: nat): (r: Option<nat>)
    requires k <= |Months|
    ensures r.Some? ==> k <= r.value < |Months| && Contains(clean, Months[r.value].0)
    ensures forall j | k <= j < |Months| && (r.None? || j < r.value) :: !Contains(clean, Months[j].0)
    decreases |Months| - k
  {
    if k == |Months| then None
    else if Contains(clean, Months[k].0) then Some(k)
    else FirstMonth(clean, k + 1)
  }

  /** The day and the year of the leftmost match of `(\d{1,2})\s+\S+\s+(\d{4})`. */
  function DayAndYear(clean: String): (r: Option<(String, String)>)
    ensures r.Some? ==> IsShortNumber(r.value.0) && IsYear(r.value.1)
  {
    var m := FirstMatch(clean, 0, DayWordYearAt);
    if m.None? then None
    else
      var i, a, d := m.value.0, m.value.1.0, m.value.1.3;
      Some((clean[i..a], clean[d..d + 4]))
  }

  /**
   * The date a cleaned text gives: the day and year of a day-word-year
   * match with the month of the first table name the text contains
   * anywhere; else a whole year-first date; else the leftmost day-first
   * date; all written `YYYY-MM-DD`.
   */
  function DateOfClean(clean: String): (r: Option<String>)
    ensures r.Some? ==> IsIsoDate(r.value)
  {
    var month := FirstMonth(clean, 0);
    var dy := DayAndYear(clean);
    if month.Some? && dy.Some? then
      MonthTable();
      Pad2Number(dy.value.0);
      IsoDateShape(dy.value.1, Months[month.value].1, Pad2(dy.value.0));
      Some(IsoDate(dy.value.1, Months[month.value].1, Pad2(dy.value.0)))
    else if YearFirstDate(clean).Some? then YearFirstDate(clean)
    else
      var m := FirstMatch(clean, 0, DayMonthYearAt);
      if m.None? then None
      else
        var day, mon, year := m.value.1.0, m.value.1.1, m.value.1.2;
        Pad2Number(day);
        Pad2Number(mon);
        IsoDateShape(year, Pad2(mon), Pad2(day));
        Some(IsoDate(year, Pad2(mon), Pad2(day)))
  }

  /** The date an optional field gives: nothing for a missing or empty one. */
  function DateOf(value: Option<String>): (r: Option<String>)
    ensures r.Some? ==> IsIsoDate(r.value)
  {
    if value.None? || value.value == [] then None else DateOfClean(CleanDate(value.value))
  }

  /**
   * `normalizeDate`: the month table is searched in order, and the first
   * name the text contains settles the month once a day and a year are
   * found; the two numeric forms are tried after it.
   */
  method NormalizeDate(value: Option<String>) returns (r: Option<String>)
    ensures r == DateOf(value)
  {
    if value.None? || value.value == [] {
      return None;
    }
    var clean := CleanDate(value.value);
    for k := 0 to |Months|
      invariant DayAndYear(clean).Some? ==> FirstMonth(clean, 0) == FirstMonth(clean, k)
    {
      if Contains(clean, Months[k].0) {
        var dy := DayAndYear(clean);
        if dy.Some? {
          return Some(IsoDate(dy.value.1, Months[k].1, Pad2(dy.value.0)));
        }
      }
    }
    var ymd := YearFirstDate(clean);
    if ymd.Some? {
      return ymd;
    }
    var m := FirstMatch(clean, 0, DayMonthYearAt);
    if m.Some? {
      var day, mon, year := m.value.1.0, m.value.1.1, m.value.1.2;
      return Some(IsoDate(year, Pad2(mon), Pad2(day)));
    }
    return None;
  }

  /** Every whitespace character is a plain space with a character other than whitespace after it. */
  ghost predicate PlainSingleSpaced(s: String) {
    (forall k | 0 <= k < |s| :: IsSpace(s[k]) ==> s[k] == ' ' && k + 1 < |s|) &&
    forall j, k | 0 <= j < k < |s| && k == j + 1 :: IsSpace(s[j]) ==> !IsSpace(s[k])
  }

  /** Single plain spaces, each followed by another character, are left as they are by the collapse. */
  lemma {:induction false} CollapseSingleSpaces(s: String)
    requires PlainSingleSpaced(s)
    ensures CollapseSpaces(s, ' ') == s
    decreases |s|
  {
    if s != [] {
      if IsSpace(s[0]) {
        assert !IsSpace(s[1..][0]);
        assert TrimStart(s[1..]) == s[1..];
      }
      assert forall j | 0 <= j < |s| - 1 :: s[1..][j] == s[j + 1];
      CollapseSingleSpaces(s[1..]);
    }
  }

  /** A text the cleaning leaves as it is: no bidi control, no Arabic-Indic digit, and single inner plain spaces. */
  ghost predicate IsTidyDate(v: String) {
    (forall k | 0 <= k < |v| :: !IsBidiControl(v[k]) && !IsIndicDigit(v[k])) &&
    PlainSingleSpaced(v) && (|v| > 0 ==> !IsSpace(v[0]))
  }

  lemma CleanDateKeeps(v: String)
    requires IsTidyDate(v)
    ensures CleanDate(v) == v
  {
    FilterKeepsAll(v, c => !IsBidiControl(c));
    CollapseSingleSpaces(v);
    TrimUnique(v, 0, |v|);
    assert v[0..|v|] == v;
    DigitsByOffset(v);
  }

  /** A day-word-year match starts with a digit and has whitespace after the day. */
  lemma DayWordYearNeeds(s: String, j: nat)
    ensures DayWordYearAt(s, j).Some? ==> IsAsciiDigit(s[j]) && IsSpace(s[DayWordYearAt(s, j).value.0])
  {
  }

  /** A day-first date starts with a digit. */
  lemma DayMonthYearNeeds(s: String, j: nat)
    ensures DayMonthYearAt(s, j).Some? ==> j < |s| && IsAsciiDigit(s[j])
  {
    var r := DayMonthYearAt(s, j);
    if r.Some? {
      var t := r.value.0 + "/" + r.value.1 + "/" + r.value.2;
      assert s[j..j + |t|][0] == t[0] == r.value.0[0];
    }
  }

  /** A year-first date starts with a digit, where the text has one or a dot. */
  lemma YearFirstNeeds(s: String)
    ensures YearFirstDate(s).Some? ==> |s| > 0 && (IsAsciiDigit(s[0]) || s[0] == '.')
  {
    var c := DotsToSlashes(s);
    var p := SlashDateParts(c);
    if p.Some? {
      assert c[0] == p.value.0[0];
    }
  }

  /** Digits, slashes and dots only. */
  predicate IsNumericDateChar(c: char) {
    IsAsciiDigit(c) || c == '/' || c == '.'
  }

  /** No day-word-year match can be found in a text without whitespace. */
  lemma NoDayWordYear(v: String)
    requires forall k | 0 <= k < |v| :: !IsSpace(v[k])
    ensures DayAndYear(v).None?
  {
    forall j | 0 <= j <= |v| ensures DayWordYearAt(v, j).None? {
      DayWordYearNeeds(v, j);
    }
  }

  /** A text of digits and separators is left as it is by the cleaning, and no day-word-year match can be found in it. */
  lemma NumericDateText(v: String)
    requires forall k | 0 <= k < |v| :: IsNumericDateChar(v[k])
    ensures CleanDate(v) == v && DayAndYear(v).None?
  {
    assert IsTidyDate(v);
    CleanDateKeeps(v);
    NoDayWordYear(v);
  }

  /** `D/M/YYYY` is made of digits and slashes, and is no year-first date. */
  lemma DayFirstText(day: String, month: String, year: String)
    requires IsShortNumber(day) && IsShortNumber(month) && IsYear(year)
    ensures forall k | 0 <= k < |day + "/" + month + "/" + year| :: IsNumericDateChar((day + "/" + month + "/" + year)[k])
    ensures YearFirstDate(day + "/" + month + "/" + year).None?
  {
    var v := day + "/" + month + "/" + year;
    forall k | 0 <= k < |v| ensures IsNumericDateChar(v[k]) && (v[k] == '.' ==> false) {
      if k < |day| {
        assert v[k] == day[k];
      } else if |day| < k < |day| + 1 + |month| {
        assert v[k] == month[k - |day| - 1];
      } else if |day| + 1 + |month| < k {
        assert v[k] == year[k - |day| - 2 - |month|];
      }
    }
    var c := DotsToSlashes(v);
    assert c == v;
    assert c[..4][|day|] == '/';
  }

  /** `D/M/YYYY` is read day first, month and day padded. */
  lemma DateDayFirst(day: String, month: String, year: String)
    requires IsShortNumber(day) && IsShortNumber(month) && IsYear(year)
    ensures DateOf(Some(day + "/" + month + "/" + year)) == Some(IsoDate(year, Pad2(month), Pad2(day)))
  {
    var v := day + "/" + month + "/" + year;
    DayFirstText(day, month, year);
    NumericDateText(v);
    assert v[0..|v|] == v;
    DayMonthYearFound(v, 0, day, month, year);
  }

  /** `YYYY/M/D` or `YYYY.M.D` is read year first, month and day padded. */
  lemma DateYearFirst(year: String, sep: char, month: String, sep2: char, day: String)
    requires IsYear(year) && IsShortNumber(month) && IsShortNumber(day)
    requires IsDateSeparator(sep) && IsDateSeparator(sep2)
    ensures DateOf(Some(year + [sep] + month + [sep2] + day)) == Some(IsoDate(year, Pad2(month), Pad2(day)))
  {
    var v := year + [sep] + month + [sep2] + day;
    forall k | 0 <= k < |v| ensures IsNumericDateChar(v[k]) {
      if k < 4 {
        assert v[k] == year[k];
      } else if 4 < k < 5 + |month| {
        assert v[k] == month[k - 5];
      } else if 5 + |month| < k {
        assert v[k] == day[k - 6 - |month|];
      }
    }
    NumericDateText(v);
    YearFirstDateReads(year, sep, month, sep2, day);
  }

  /** A month name: Arabic letters only. */
  predicate IsMonthName(name: String) {
    |name| > 0 && forall x | 0 <= x < |name| :: IsArabicLetter(name[x])
  }

  /** `D <name> YYYY` is left as it is by the cleaning. */
  lemma WordedTidy(day: String, name: String, year: String)
    requires IsShortNumber(day) && IsYear(year) && IsMonthName(name)
    ensures CleanDate(day + " " + name + " " + year) == day + " " + name + " " + year
  {
    var v := day + " " + name + " " + year;
    var a := |day|;
    var c := a + 1 + |name|;
    forall x | 0 <= x < |v| ensures !IsBidiControl(v[x]) && !IsIndicDigit(v[x]) && (IsSpace(v[x]) <==> x == a || x == c) {
      if x < a {
        assert v[x] == day[x];
      } else if a < x < c {
        assert v[x] == name[x - a - 1];
      } else if c < x {
        assert v[x] == year[x - c - 1];
      }
    }
    assert IsTidyDate(v);
    CleanDateKeeps(v);
  }

  /** `D <name> YYYY` splits into a day, whitespace, a word, whitespace and a year. */
  lemma WordedParts(day: String, name: String, year: String)
    requires IsShortNumber(day) && IsYear(year) && IsMonthName(name)
    ensures var a := |day|; var c := a + 1 + |name|;
      IsDayWordYear(day + " " + name + " " + year, 0, a, a + 1, c, c + 1)
  {
    var v := day + " " + name + " " + year;
    var a := |day|;
    var b := a + 1;
    var c := b + |name|;
    var d := c + 1;
    assert forall x | 0 <= x < a :: v[x] == day[x];
    assert forall x | b <= x < c :: v[x] == name[x - b];
    assert forall x | d <= x < d + 4 :: v[x] == year[x - d];
  }

  /** The day and year of `D <name> YYYY` are those of its day-word-year match, which starts the text. */
  lemma WordedMatch(day: String, name: String, year: String)
    requires IsShortNumber(day) && IsYear(year) && IsMonthName(name)
    ensures DayAndYear(day + " " + name + " " + year) == Some((day, year))
  {
    var v := day + " " + name + " " + year;
    var a := |day|;
    var d := a + 2 + |name|;
    WordedParts(day, name, year);
    DayWordYearFound(v, 0, a, a + 1, d - 1, d);
    assert v[0..a] == day && v[d..d + 4] == year;
  }

  /**
   * `D <month> YYYY` is read with the number of the first table name the
   * text contains, which is that of the month written unless an earlier
   * name of the table occurs in it.
   */
  lemma DateWorded(day: String, k: nat, year: String)
    requires IsShortNumber(day) && IsYear(year) && k < |Months|
    requires FirstMonth(day + " " + Months[k].0 + " " + year, 0) == Some(k)
    ensures DateOf(Some(day + " " + Months[k].0 + " " + year)) == Some(IsoDate(year, Months[k].1, Pad2(day)))
  {
    MonthTable();
    WordedTidy(day, Months[k].0, year);
    WordedMatch(day, Months[k].0, year);
  }

  /** The cleaning creates no ASCII digit out of a text without digits. */
  lemma CleanDateNoDigits(value: String)
    requires forall k | 0 <= k < |value| :: !IsAsciiDigit(value[k]) && !IsIndicDigit(value[k])
    ensures forall k | 0 <= k < |CleanDate(value)| :: !IsAsciiDigit(CleanDate(value)[k])
  {
    var f := c => IsAsciiDigit(c) || IsIndicDigit(c);
    var b := StripBidi(value);
    FilterNone(value, c => !IsBidiControl(c), f);
    var cs := CollapseSpaces(b, ' ');
    CollapseSpacesChars(b, ' ', f);
    TrimKeepsAll(cs, x => !f(x));
    DigitsByOffset(Trim(cs));
  }

  /** No day-word-year match can be found in a text without ASCII digits. */
  lemma NoDigitNoWordedDate(clean: String)
    requires forall k | 0 <= k < |clean| :: !IsAsciiDigit(clean[k])
    ensures DayAndYear(clean).None?
  {
    forall j | 0 <= j <= |clean| ensures DayWordYearAt(clean, j).None? {
      DayWordYearNeeds(clean, j);
    }
  }

  /** No day-first date can be found in a text without ASCII digits. */
  lemma NoDigitNoDayFirst(clean: String)
    requires forall k | 0 <= k < |clean| :: !IsAsciiDigit(clean[k])
    ensures FirstMatch(clean, 0, DayMonthYearAt).None?
  {
    forall j | 0 <= j <= |clean| ensures DayMonthYearAt(clean, j).None? {
      DayMonthYearNeeds(clean, j);
    }
  }

  /** A value without digits of either system gives no date. */
  lemma DateWithoutDigits(value: String)
    requires forall k | 0 <= k < |value| :: !IsAsciiDigit(value[k]) && !IsIndicDigit(value[k])
    ensures DateOf(Some(value)) == None
  {
    var clean := CleanDate(value);
    CleanDateNoDigits(value);
    NoDigitNoWordedDate(clean);
    YearFirstNeeds(clean);
    NoDigitNoDayFirst(clean);
  }
}
