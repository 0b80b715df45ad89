/**
 * The codepoint normaliser of the law-text parser: Arabic Presentation
 * Forms-A/B to base letters, two-letter ligatures expanded, Tatweel and
 * bidirectional controls deleted, Arabic-Indic digits to ASCII.
 * Models `normalizeArabicPresentationForms`, `normalizeArabicDigits`,
 * `BIDI_CONTROLS_REGEX` and `normalizePdfText` of scripts/lib/parser.ts.
 */
module ArabicNormalizer {
  import opened TextBasics

  const Tatweel: char := '\U{0640}'
  const Lam: char := '\U{0644}'

  /** FORMS_B: Arabic Presentation Forms-B to base letters, row by row in table order. */
  function FormsB(c: char): Option<char> {
    if c == '\U{FE80}' then Some('\U{0621}')  // Hamza
    else if '\U{FE81}' <= c <= '\U{FE82}' then Some('\U{0622}')  // Alef with Madda
    else if '\U{FE83}' <= c <= '\U{FE84}' then Some('\U{0623}')  // Alef with Hamza Above
    else if '\U{FE85}' <= c <= '\U{FE86}' then Some('\U{0624}')  // Waw with Hamza Above
    else if '\U{FE87}' <= c <= '\U{FE88}' then Some('\U{0625}')  // Alef with Hamza Below
    else if '\U{FE89}' <= c <= '\U{FE8C}' then Some('\U{0626}')  // Yeh with Hamza Above
    else if '\U{FE8D}' <= c <= '\U{FE8E}' then Some('\U{0627}')  // Alef
    else if '\U{FE8F}' <= c <= '\U{FE92}' then Some('\U{0628}')  // Beh
    else if '\U{FE93}' <= c <= '\U{FE94}' then Some('\U{0629}')  // Teh Marbuta
    else if '\U{FE95}' <= c <= '\U{FE98}' then Some('\U{062A}')  // Teh
    else if '\U{FE99}' <= c <= '\U{FE9C}' then Some('\U{062B}')  // Theh
    else if '\U{FE9D}' <= c <= '\U{FEA0}' then Some('\U{062C}')  // Jeem
    else if '\U{FEA1}' <= c <= '\U{FEA4}' then Some('\U{062D}')  // Hah
    else if '\U{FEA5}' <= c <= '\U{FEA8}' then Some('\U{062E}')  // Khah
    else if '\U{FEA9}' <= c <= '\U{FEAA}' then Some('\U{062F}')  // Dal
    else if '\U{FEAB}' <= c <= '\U{FEAC}' then Some('\U{0630}')  // Thal
    else if '\U{FEAD}' <= c <= '\U{FEAE}' then Some('\U{0631}')  // Reh
    else if '\U{FEAF}' <= c <= '\U{FEB0}' then Some('\U{0632}')  // Zain
    else if '\U{FEB1}' <= c <= '\U{FEB4}' then Some('\U{0633}')  // Seen
    else if '\U{FEB5}' <= c <= '\U{FEB8}' then Some('\U{0634}')  // Sheen
    else if '\U{FEB9}' <= c <= '\U{FEBC}' then Some('\U{0635}')  // Sad
    else if '\U{FEBD}' <= c <= '\U{FEC0}' then Some('\U{0636}')  // Dad
    else if '\U{FEC1}' <= c <= '\U{FEC4}' then Some('\U{0637}')  // Tah
    else if '\U{FEC5}' <= c <= '\U{FEC8}' then Some('\U{0638}')  // Zah
    else if '\U{FEC9}' <= c <= '\U{FECC}' then Some('\U{0639}')  // Ain
    else if '\U{FECD}' <= c <= '\U{FED0}' then Some('\U{063A}')  // Ghain
    else if '\U{FED1}' <= c <= '\U{FED4}' then Some('\U{0641}')  // Feh
    else if '\U{FED5}' <= c <= '\U{FED8}' then Some('\U{0642}')  // Qaf
    else if '\U{FED9}' <= c <= '\U{FEDC}' then Some('\U{0643}')  // Kaf
    else if '\U{FEDD}' <= c <= '\U{FEE0}' then Some('\U{0644}')  // Lam
    else if '\U{FEE1}' <= c <= '\U{FEE4}' then Some('\U{0645}')  // Meem
    else if '\U{FEE5}' <= c <= '\U{FEE8}' then Some('\U{0646}')  // Noon
    else if '\U{FEE9}' <= c <= '\U{FEEC}' then Some('\U{0647}')  // Heh
    else if '\U{FEED}' <= c <= '\U{FEEE}' then Some('\U{0648}')  // Waw
    else if '\U{FEEF}' <= c <= '\U{FEF0}' then Some('\U{0649}')  // Alef Maksura
    else if '\U{FEF1}' <= c <= '\U{FEF4}' then Some('\U{064A}')  // Yeh
    else if '\U{FEF5}' <= c <= '\U{FEFC}' then Some('\U{0644}')  // Lam-Alef ligatures (Lam part)
    else None
  }

  /** FORMS_A: the single-letter rows of Arabic Presentation Forms-A. */
  function FormsA(c: char): Option<char> {
    if '\U{FB50}' <= c <= '\U{FB51}' then Some('\U{0671}')  // Alef Wasla
    else if '\U{FB56}' <= c <= '\U{FB59}' then Some('\U{067E}')  // Peh
    else if '\U{FB7A}' <= c <= '\U{FB7D}' then Some('\U{0686}')  // Tcheh
    else if '\U{FB92}' <= c <= '\U{FB95}' then Some('\U{06AF}')  // Gaf
    else if '\U{FBFC}' <= c <= '\U{FBFF}' then Some('\U{064A}')  // Farsi Yeh
    else if '\U{FBEA}' <= c <= '\U{FBF1}' then Some('\U{0644}')  // Lam-Alef ligatures of Forms-A
    else None
  }

  /** LIGATURE_DECOMP: Forms-A ligatures that stand for two letters, in reading order. */
  function LigatureDecomp(c: char): Option<String> {
    if c == '\U{FC43}' then Some(['\U{0644}', '\U{064A}'])  // Lam-Yeh
    else if c == '\U{FCC9}' then Some(['\U{0644}', '\U{062C}'])  // Lam-Jeem
    else if c == '\U{FCCC}' then Some(['\U{0644}', '\U{0645}'])  // Lam-Meem
    else if c == '\U{FC40}' then Some(['\U{0644}', '\U{062D}'])  // Lam-Hah
    else if c == '\U{FC41}' then Some(['\U{0644}', '\U{062E}'])  // Lam-Khah
    else if c == '\U{FC42}' then Some(['\U{0644}', '\U{0645}'])  // Lam-Meem (initial)
    else if c == '\U{FCCD}' then Some(['\U{0644}', '\U{0647}'])  // Lam-Heh
    else if c == '\U{FCCE}' then Some(['\U{0645}', '\U{062C}'])  // Meem-Jeem
    else if c == '\U{FCCF}' then Some(['\U{0645}', '\U{062D}'])  // Meem-Hah
    else if c == '\U{FCD0}' then Some(['\U{0645}', '\U{062E}'])  // Meem-Khah
    else if c == '\U{FCD1}' then Some(['\U{0645}', '\U{0645}'])  // Meem-Meem
    else None
  }

  /** Letters of the basic Arabic block that the tables produce. */
  predicate IsBaseLetter(c: char) {
    '\U{0621}' <= c <= '\U{06AF}' && c != Tatweel
  }

  /** The Alef that follows Lam in a Lam-Alef ligature of Forms-B (FEF5..FEFC). */
  function LamAlefTail(c: char): String {
    if '\U{FEF5}' <= c <= '\U{FEFC}' then
      if c <= '\U{FEF6}' then ['\U{0622}']        // Alef with Madda
      else if c <= '\U{FEF8}' then ['\U{0623}']   // Alef with Hamza Above
      else if c <= '\U{FEFA}' then ['\U{0625}']   // Alef with Hamza Below
      else ['\U{0627}']                           // plain Alef
    else []
  }

  /** What one code unit becomes: the body of the `for` loop of the source. */
  function Expand(c: char): String {
    if c == Tatweel then []
    else if '\U{FE70}' <= c <= '\U{FEFF}' && FormsB(c).Some? then
      [FormsB(c).value] + LamAlefTail(c)
    else if '\U{FB50}' <= c <= '\U{FDFF}' && LigatureDecomp(c).Some? then
      LigatureDecomp(c).value
    else if '\U{FB50}' <= c <= '\U{FDFF}' && FormsA(c).Some? then
      [FormsA(c).value]
    else [c]
  }

  /** Specification of `normalizeArabicPresentationForms`: each code unit expanded, in order. */
  function PresentationFormsNormalized(s: String): String {
    FlatMap(s, Expand)
  }

  /** `normalizeArabicPresentationForms`: appends each code unit's expansion to `result`. */
  method NormalizePresentationForms(text: String) returns (result: String)
    ensures result == PresentationFormsNormalized(text)
  {
    result := [];
    for i := 0 to |text|
      invariant result == FlatMap(text[..i], Expand)
    {
      FlatMapConcat(text[..i], [text[i]], Expand);
      assert text[..i + 1] == text[..i] + [text[i]];
      var code := text[i];
      var piece := AppendedFor(code);
      result := result + piece;
    }
    assert text[..|text|] == text;
  }

  /** What one iteration of the loop appends for `code`, branch by branch. */
  method AppendedFor(code: char) returns (piece: String)
    ensures piece == Expand(code)
  {
    piece := [];
    if code == Tatweel {
      return;
    }
    if '\U{FE70}' <= code <= '\U{FEFF}' {
      var mapped := FormsB(code);
      if mapped.Some? {
        piece := [mapped.value];
        if '\U{FEF5}' <= code <= '\U{FEFC}' {
          if code <= '\U{FEF6}' {
            piece := piece + ['\U{0622}'];
          } else if code <= '\U{FEF8}' {
            piece := piece + ['\U{0623}'];
          } else if code <= '\U{FEFA}' {
            piece := piece + ['\U{0625}'];
          } else {
            piece := piece + ['\U{0627}'];
          }
        }
        return;
      }
    }
    if '\U{FB50}' <= code <= '\U{FDFF}' {
      var ligature := LigatureDecomp(code);
      if ligature.Some? {
        piece := ligature.value;
        return;
      }
      var mapped := FormsA(code);
      if mapped.Some? {
        piece := [mapped.value];
        return;
      }
    }
    piece := [code];
  }

  /** Every table produces base letters only, never Tatweel, and ligatures give two of them. */
  lemma TablesProduceBaseLetters(c: char)
    ensures FormsB(c).Some? ==> IsBaseLetter(FormsB(c).value)
    ensures FormsA(c).Some? ==> IsBaseLetter(FormsA(c).value)
    ensures LigatureDecomp(c).Some? ==>
      |LigatureDecomp(c).value| == 2 && IsBaseLetter(LigatureDecomp(c).value[0]) && IsBaseLetter(LigatureDecomp(c).value[1])
  {
    FormsBBaseLetter(c);
    FormsABaseLetter(c);
    LigatureBaseLetters(c);
  }

  lemma FormsBBaseLetter(c: char)
    ensures FormsB(c).Some? ==> IsBaseLetter(FormsB(c).value)
  {
  }

  lemma FormsABaseLetter(c: char)
    ensures FormsA(c).Some? ==> IsBaseLetter(FormsA(c).value)
  {
  }

  lemma LigatureBaseLetters(c: char)
    ensures LigatureDecomp(c).Some? ==>
      |LigatureDecomp(c).value| == 2 && IsBaseLetter(LigatureDecomp(c).value[0]) && IsBaseLetter(LigatureDecomp(c).value[1])
  {
  }

  /** A Lam-Alef ligature of Forms-B becomes Lam followed by the Alef of its sub-range. */
  lemma ExpandLamAlef(c: char)
    requires '\U{FEF5}' <= c <= '\U{FEFC}'
    ensures Expand(c) == [Lam, if c <= '\U{FEF6}' then '\U{0622}' else if c <= '\U{FEF8}' then '\U{0623}'
                               else if c <= '\U{FEFA}' then '\U{0625}' else '\U{0627}']
  {
  }

  /** What each kind of code unit becomes. */
  lemma ExpandShapes(c: char)
    ensures c == Tatweel ==> Expand(c) == []
    ensures c != Tatweel && !('\U{FB50}' <= c <= '\U{FDFF}') && !('\U{FE70}' <= c <= '\U{FEFF}') ==> Expand(c) == [c]
    ensures |Expand(c)| <= 2
    ensures Expand(c) == [c] || forall j | 0 <= j < |Expand(c)| :: IsBaseLetter(Expand(c)[j])
    ensures c != Tatweel ==> |Expand(c)| > 0
  {
    TablesProduceBaseLetters(c);
  }

  /** Tatweel never survives normalisation. */
  lemma NoTatweel(s: String)
    ensures forall j | 0 <= j < |PresentationFormsNormalized(s)| :: PresentationFormsNormalized(s)[j] != Tatweel
  {
    forall j | 0 <= j < |s| ensures forall k | 0 <= k < |Expand(s[j])| :: Expand(s[j])[k] != Tatweel {
      ExpandShapes(s[j]);
    }
    FlatMapAll(s, Expand, c => c != Tatweel);
  }

  /** A ligature at most doubles the length. */
  lemma NormalizedLength(s: String)
    ensures |PresentationFormsNormalized(s)| <= 2 * |s|
  {
    forall j | 0 <= j < |s| ensures |Expand(s[j])| <= 2 {
      ExpandShapes(s[j]);
    }
    FlatMapLength(s, Expand, 2);
  }

  /** A code unit that `Expand` leaves alone. */
  predicate IsFixed(c: char) {
    Expand(c) == [c]
  }

  /** Everything the normaliser emits is a fixed point of `Expand`. */
  lemma ExpandOutputIsFixed(c: char)
    ensures forall j | 0 <= j < |Expand(c)| :: IsFixed(Expand(c)[j])
  {
    ExpandShapes(c);
    forall j | 0 <= j < |Expand(c)| ensures IsFixed(Expand(c)[j]) {
      ExpandShapes(Expand(c)[j]);
    }
  }

  /** Normalising already-normalised text changes nothing. */
  lemma PresentationFormsIdempotent(s: String)
    ensures PresentationFormsNormalized(PresentationFormsNormalized(s)) == PresentationFormsNormalized(s)
  {
    forall j | 0 <= j < |s| ensures forall k | 0 <= k < |Expand(s[j])| :: IsFixed(Expand(s[j])[k]) {
      ExpandOutputIsFixed(s[j]);
    }
    FlatMapAll(s, Expand, IsFixed);
    FlatMapIdentity(PresentationFormsNormalized(s), Expand);
  }

  // ---------------------------------------------------------------------
  // Digits
  // ---------------------------------------------------------------------

  /** `[٠-٩]` (U+0660..U+0669) to ASCII by offset. */
  function IndicDigitToAscii(c: char): char {
    if '\U{0660}' <= c <= '\U{0669}' then ('0' as int + (c as int - 0x0660)) as char else c
  }

  /** `[۰-۹]` (U+06F0..U+06F9) to ASCII by offset. */
  function ExtendedIndicDigitToAscii(c: char): char {
    if '\U{06F0}' <= c <= '\U{06F9}' then ('0' as int + (c as int - 0x06F0)) as char else c
  }

  predicate IsIndicDigit(c: char) {
    ('\U{0660}' <= c <= '\U{0669}') || ('\U{06F0}' <= c <= '\U{06F9}')
  }

  /** The decimal value of a digit of any of the three systems. */
  function DigitValue(c: char): nat
    requires IsAsciiDigit(c) || IsIndicDigit(c)
  {
    if IsAsciiDigit(c) then c as int - '0' as int
    else if c <= '\U{0669}' then c as int - 0x0660
    else c as int - 0x06F0
  }

  /** `normalizeArabicDigits`: the two global replaces, one block after the other. */
  function NormalizeArabicDigits(s: String): (r: String)
    ensures |r| == |s|
  {
    var pass1 := seq(|s|, i requires 0 <= i < |s| => IndicDigitToAscii(s[i]));
    seq(|pass1|, i requires 0 <= i < |pass1| => ExtendedIndicDigitToAscii(pass1[i]))
  }

  /**
   * Each digit of either Arabic-Indic block becomes the ASCII digit of the
   * same value; every other character is left where it was.
   */
  lemma DigitsByOffset(s: String)
    ensures forall i | 0 <= i < |s| && IsIndicDigit(s[i]) ::
      IsAsciiDigit(NormalizeArabicDigits(s)[i]) && DigitValue(NormalizeArabicDigits(s)[i]) == DigitValue(s[i])
    ensures forall i | 0 <= i < |s| && !IsIndicDigit(s[i]) :: NormalizeArabicDigits(s)[i] == s[i]
    ensures forall i | 0 <= i < |s| :: !IsIndicDigit(NormalizeArabicDigits(s)[i])
  {
  }

  /** Normalising digits twice is normalising them once. */
  lemma DigitsIdempotent(s: String)
    ensures NormalizeArabicDigits(NormalizeArabicDigits(s)) == NormalizeArabicDigits(s)
  {
    DigitsByOffset(s);
    var t := NormalizeArabicDigits(s);
    DigitsByOffset(t);
  }

  lemma DigitsConcat(a: String, b: String)
    ensures NormalizeArabicDigits(a + b) == NormalizeArabicDigits(a) + NormalizeArabicDigits(b)
  {
    DigitsByOffset(a);
    DigitsByOffset(b);
    DigitsByOffset(a + b);
  }

  // ---------------------------------------------------------------------
  // Bidirectional controls and the PDF-text pipeline
  // ---------------------------------------------------------------------

  /** BIDI_CONTROLS_REGEX: LRM, RLM, embeddings and overrides, isolates, BOM. */
  predicate IsBidiControl(c: char) {
    c == '\U{200E}' || c == '\U{200F}' || ('\U{202A}' <= c <= '\U{202E}') ||
    ('\U{2066}' <= c <= '\U{2069}') || c == '\U{FEFF}'
  }

  function StripBidi(s: String): String {
    Filter(s, c => !IsBidiControl(c))
  }

  /** A class of code units that the presentation-form pass neither removes nor creates. */
  lemma NormalizedKeepsAbsence(s: String, f: char -> bool)
    requires NoneSatisfy(s, f)
    requires forall c :: f(c) ==> !IsBaseLetter(c)
    ensures NoneSatisfy(PresentationFormsNormalized(s), f)
  {
    forall j | 0 <= j < |s| ensures forall k | 0 <= k < |Expand(s[j])| :: !f(Expand(s[j])[k]) {
      ExpandShapes(s[j]);
    }
    FlatMapAll(s, Expand, c => !f(c));
  }

  /**
   * `normalizePdfText`: drop CR, form feed to newline, drop bidi controls, then
   * presentation forms. The result holds no carriage return, form feed, bidi
   * control or Tatweel.
   */
  function NormalizePdfText(pdfText: String): (r: String)
    ensures forall j | 0 <= j < |r| ::
      r[j] != '\r' && r[j] != '\U{000C}' && !IsBidiControl(r[j]) && r[j] != Tatweel
  {
    var noCr := Filter(pdfText, c => c != '\r');
    var pages := seq(|noCr|, i requires 0 <= i < |noCr| => if noCr[i] == '\U{000C}' then '\n' else noCr[i]);
    var stripped := StripBidi(pages);
    var bad := c => c == '\r' || c == '\U{000C}' || IsBidiControl(c);
    assert NoneSatisfy(pages, c => c == '\r' || c == '\U{000C}');
    FilterNone(pages, c => !IsBidiControl(c), c => c == '\r' || c == '\U{000C}');
    assert NoneSatisfy(stripped, bad);
    NormalizedKeepsAbsence(stripped, bad);
    NoTatweel(stripped);
    PresentationFormsNormalized(stripped)
  }
}
