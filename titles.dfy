/**
 * `parseArabicTitleFromPdf` and the choice of an act's Arabic title in
 * `buildSeedFromPdfText`.
 */
module Titles {
  import opened TextBasics
  import opened ArabicNormalizer

  const Qanun: String := "قانون"
  const Raqm: String := "رقم"
  const Lisana: String := "لسنة"

  /** `[0-9٠-٩]`: ASCII and Arabic-Indic digits, but not the extended (Persian) ones. */
  predicate IsTitleDigit(c: char) {
    IsAsciiDigit(c) || '\U{0660}' <= c <= '\U{0669}'
  }

  /** `[0-9٠-٩]{4}` at `e`. */
  predicate YearAt(s: String, e: nat) {
    e + 4 <= |s| && forall k | e <= k < e + 4 :: IsTitleDigit(s[k])
  }

  /**
   * Where the match of `قانون\s+رقم\s+[0-9٠-٩]+\s+لسنة\s+[0-9٠-٩]{4}[^\n]{0,180}`
   * that starts at `i` ends, if there is one. Every run in the pattern is
   * followed by a character it cannot contain, so the greedy runs never
   * give characters back and the match at `i` is unique.
   */
  function TitleMatchAt(s: String, i: nat): (r: Option<nat>)
    requires i <= |s|
    ensures r.Some? ==> OccursAt(s, Qanun, i) && i + |Qanun| < r.value <= |s|
  {
    if !OccursAt(s, Qanun, i) then None
    else
      var a := Span(s, i + |Qanun|, IsSpace);
      if a == i + |Qanun| || !OccursAt(s, Raqm, a) then None
      else
        var b := Span(s, a + |Raqm|, IsSpace);
        if b == a + |Raqm| then None
        else
          var c := Span(s, b, IsTitleDigit);
          if c == b then None
          else
            var d := Span(s, c, IsSpace);
            if d == c || !OccursAt(s, Lisana, d) then None
            else
              var e := Span(s, d + |Lisana|, IsSpace);
              if e == d + |Lisana| || !YearAt(s, e) then None
              else
                var f := Span(s, e + 4, IsNotNewline);
                Some(if f - (e + 4) > 180 then e + 4 + 180 else f)
  }

  /** The leftmost position from `from` on where the title pattern matches. */
  function TitleStart(s: String, from: nat): (r: Option<nat>)
    requires from <= |s|
    ensures r.Some? ==> from <= r.value <= |s| && TitleMatchAt(s, r.value).Some?
    ensures forall j | from <= j <= |s| && (r.None? || j < r.value) :: TitleMatchAt(s, j).None?
    decreases |s| - from
  {
    if TitleMatchAt(s, from).Some? then Some(from)
    else if from == |s| then None
    else TitleStart(s, from + 1)
  }

  /** The matched text with its digits made ASCII and its whitespace runs made single spaces, trimmed. */
  function TidyTitle(m: String): (r: String)
    ensures Trim(r) == r && SingleSpaced(r) && NoneSatisfy(r, IsIndicDigit)
    ensures forall k | 0 <= k < |r| :: IsPlainSpaced(r[k])
  {
    TidyDigits(m);
    Trim(CollapseSpaces(NormalizeArabicDigits(m), ' '))
  }

  /** Tidying text whose digits are made ASCII leaves no Indic digit and single plain spaces. */
  lemma TidyDigits(m: String)
    ensures var r := Trim(CollapseSpaces(NormalizeArabicDigits(m), ' '));
      Trim(r) == r && SingleSpaced(r) && NoneSatisfy(r, IsIndicDigit) &&
      forall k | 0 <= k < |r| :: IsPlainSpaced(r[k])
  {
    var n := NormalizeArabicDigits(m);
    DigitsByOffset(m);
    assert NoneSatisfy(n, IsIndicDigit);
    TidySpaces(n);
    TidyKeeps(n, IsIndicDigit);
  }

  /** The first title in `text`, tidied. */
  function TitleOfText(text: String): Option<String> {
    var start := TitleStart(text, 0);
    if start.None? then None
    else Some(TidyTitle(text[start.value..TitleMatchAt(text, start.value).value]))
  }

  /** `parseArabicTitleFromPdf`: the first title of the normalised PDF text, tidied. */
  function ParseArabicTitleFromPdf(pdfText: String): (r: Option<String>)
    ensures r.Some? ==> IsTidyTitle(r.value) && NormalizeArabicDigits(r.value) == r.value
  {
    TitleOfTextShape(NormalizePdfText(pdfText));
    TitleOfText(NormalizePdfText(pdfText))
  }

  predicate IsNotIndicDigit(c: char) {
    !IsIndicDigit(c)
  }

  /** What a parsed title looks like. */
  predicate IsTidyTitle(t: String) {
    IsPrefix(Qanun, t) && Trim(t) == t && NoneSatisfy(t, IsIndicDigit) && SingleSpaced(t) &&
    forall k | 0 <= k < |t| :: IsPlainSpaced(t[k])
  }

  /** Normalising the digits keeps the opening "قانون" and leaves no Arabic-Indic digit. */
  lemma DigitsKeepQanun(m: String)
    requires IsPrefix(Qanun, m)
    ensures IsPrefix(Qanun, NormalizeArabicDigits(m)) && NoneSatisfy(NormalizeArabicDigits(m), IsIndicDigit)
  {
    var n := NormalizeArabicDigits(m);
    DigitsByOffset(m);
    forall k | 0 <= k < |Qanun| ensures n[k] == Qanun[k] {
      assert m[k] == Qanun[k] && !IsIndicDigit(Qanun[k]);
    }
  }

  /** Collapsing the whitespace keeps the opening "قانون". */
  lemma CollapseKeepsQanun(n: String)
    requires IsPrefix(Qanun, n)
    ensures IsPrefix(Qanun, CollapseSpaces(n, ' '))
  {
    assert n == Qanun + n[|Qanun|..];
    assert NoneSatisfy(Qanun, IsSpace);
    CollapseSpacesPrefix(Qanun, n[|Qanun|..], ' ');
  }

  /** Text without Arabic-Indic digits is left alone by the digit normaliser. */
  lemma DigitsNoOp(t: String)
    requires NoneSatisfy(t, IsIndicDigit)
    ensures NormalizeArabicDigits(t) == t
  {
    DigitsByOffset(t);
  }

  /** Tidying a text that opens with "قانون" gives a trimmed text that still opens with it. */
  lemma TidyTitleOpening(m: String)
    requires IsPrefix(Qanun, m)
    ensures IsPrefix(Qanun, TidyTitle(m)) && Trim(TidyTitle(m)) == TidyTitle(m)
  {
    var n := NormalizeArabicDigits(m);
    DigitsKeepQanun(m);
    CollapseKeepsQanun(n);
    var c := CollapseSpaces(n, ' ');
    TrimKeepsPrefix(c, Qanun);
    TrimIdempotent(c);
  }

  /** A text opening with "قانون" tidies into a title: trimmed, ASCII digits only, single spaces. */
  lemma TidyTitleShape(m: String)
    requires IsPrefix(Qanun, m)
    ensures IsTidyTitle(TidyTitle(m))
    ensures NormalizeArabicDigits(TidyTitle(m)) == TidyTitle(m)
  {
    TidyTitleOpening(m);
    DigitsNoOp(TidyTitle(m));
  }

  /** A title found in a text opens with "قانون", is trimmed, has ASCII digits only and single spaces. */
  lemma TitleOfTextShape(text: String)
    ensures TitleOfText(text).Some? ==> IsTidyTitle(TitleOfText(text).value)
    ensures TitleOfText(text).Some? ==> NormalizeArabicDigits(TitleOfText(text).value) == TitleOfText(text).value
  {
    var start := TitleStart(text, 0);
    if start.Some? {
      var i := start.value;
      var e := TitleMatchAt(text, i).value;
      var m := text[i..e];
      OccursAtOpensSlice(text, Qanun, i, e);
      TidyTitleShape(m);
    }
  }

  // ---------------------------------------------------------------------
  // The act's Arabic title
  // ---------------------------------------------------------------------

  /** The title built from the law's number and year. */
  function CanonicalTitle(lawNumber: String, lawYear: String): String {
    Qanun + " " + Raqm + " " + lawNumber + " " + Lisana + " " + lawYear
  }

  /** The parsed title is present and mentions the law's number and year, digits normalised. */
  predicate TitleMatchesLaw(parsed: Option<String>, lawNumber: String, lawYear: String) {
    parsed.Some? && parsed.value != [] &&
    Contains(NormalizeArabicDigits(parsed.value), NormalizeArabicDigits(lawNumber)) &&
    Contains(NormalizeArabicDigits(parsed.value), NormalizeArabicDigits(lawYear))
  }

  /**
   * The parsed title when it matches the law; otherwise the canonical title
   * when it is preferred, and the parsed title when it is not (falling back
   * to the canonical one when nothing was parsed).
   */
  function ResolveTitle(parsed: Option<String>, lawNumber: String, lawYear: String, preferCanonical: bool): (r: String)
    ensures r == CanonicalTitle(lawNumber, lawYear) || (parsed.Some? && r == parsed.value)
  {
    if TitleMatchesLaw(parsed, lawNumber, lawYear) then parsed.value
    else if preferCanonical then CanonicalTitle(lawNumber, lawYear)
    else if parsed.Some? then parsed.value
    else CanonicalTitle(lawNumber, lawYear)
  }

  /** The canonical title mentions the law's number and year. */
  lemma CanonicalNamesLaw(lawNumber: String, lawYear: String)
    ensures Contains(NormalizeArabicDigits(CanonicalTitle(lawNumber, lawYear)), NormalizeArabicDigits(lawNumber))
    ensures Contains(NormalizeArabicDigits(CanonicalTitle(lawNumber, lawYear)), NormalizeArabicDigits(lawYear))
  {
    var head := Qanun + " " + Raqm + " ";
    var mid := " " + Lisana + " ";
    var n := NormalizeArabicDigits(lawNumber);
    var y := NormalizeArabicDigits(lawYear);
    assert CanonicalTitle(lawNumber, lawYear) == head + lawNumber + mid + lawYear;
    DigitsConcat(head + lawNumber + mid, lawYear);
    DigitsConcat(head + lawNumber, mid);
    DigitsConcat(head, lawNumber);
    var nt := NormalizeArabicDigits(CanonicalTitle(lawNumber, lawYear));
    var h := NormalizeArabicDigits(head);
    var md := NormalizeArabicDigits(mid);
    assert nt == h + n + (md + y);
    assert IsPrefix(n, n);
    ContainsInConcat(h, n, md + y, n);
    assert nt == (h + n + md) + y + [];
    assert IsPrefix(y, y);
    ContainsInConcat(h + n + md, y, [], y);
  }

  /** When the canonical title is preferred, the act's title always mentions the law's number and year. */
  lemma PreferredTitleNamesLaw(parsed: Option<String>, lawNumber: String, lawYear: String)
    ensures var r := ResolveTitle(parsed, lawNumber, lawYear, true);
      Contains(NormalizeArabicDigits(r), NormalizeArabicDigits(lawNumber)) &&
      Contains(NormalizeArabicDigits(r), NormalizeArabicDigits(lawYear))
  {
    CanonicalNamesLaw(lawNumber, lawYear);
  }

  /**
   * The match is by substring: a parsed title that names the law's year is
   * taken whenever the law's number occurs inside that year, so a title of
   * law 12 of 2005 is accepted for law 5 of 2005.
   */
  lemma NumberInsideYearAccepted(parsed: String, lawNumber: String, lawYear: String, preferCanonical: bool)
    requires parsed != []
    requires Contains(NormalizeArabicDigits(parsed), NormalizeArabicDigits(lawYear))
    requires Contains(NormalizeArabicDigits(lawYear), NormalizeArabicDigits(lawNumber))
    ensures ResolveTitle(Some(parsed), lawNumber, lawYear, preferCanonical) == parsed
  {
    ContainsTrans(NormalizeArabicDigits(parsed), NormalizeArabicDigits(lawYear), NormalizeArabicDigits(lawNumber));
  }
}
