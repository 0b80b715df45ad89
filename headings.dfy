/**
 * The heading recogniser: decides whether one line of law text opens an
 * article and, if so, returns the article's label ("5", "12 مكرر أ", "3").
 *
 * Each regular expression of the recogniser is written out as a search that
 * returns what the JavaScript engine's first match captures. Two facts about
 * those expressions shape every definition below: `\W`, `\d` and `\b` are
 * ASCII-only, so an Arabic letter is a "non-word" character, and `[\W_]`
 * therefore accepts every character except `[A-Za-z0-9]`.
 */
module Headings {
  import opened TextBasics
  import opened ArabicNormalizer

  // ---------------------------------------------------------------------
  // Character classes
  // ---------------------------------------------------------------------

  /**
   * `\p{Script=Arabic}`, approximated by the Arabic blocks without the
   * Common and Inherited code points of the main block that matter here
   * (comma, semicolon, question mark, Tatweel, the harakat, superscript Alef).
   */
  predicate IsArabicScript(c: char) {
    ('\U{0600}' <= c <= '\U{06FF}' && c != '\U{060C}' && c != '\U{061B}' && c != '\U{061F}' &&
      c != Tatweel && !('\U{064B}' <= c <= '\U{0655}') && c != '\U{0670}') ||
    ('\U{0750}' <= c <= '\U{077F}') || ('\U{08A0}' <= c <= '\U{08FF}') ||
    ('\U{FB50}' <= c <= '\U{FDFF}') || ('\U{FE70}' <= c <= '\U{FEFC}')
  }

  predicate IsArabicOrSpace(c: char) {
    IsArabicScript(c) || IsSpace(c)
  }

  /** A digit of any of the three systems the normaliser knows. */
  predicate IsDigitLike(c: char) {
    IsAsciiDigit(c) || IsIndicDigit(c)
  }

  /** Every character is matched by `[\W_]`. */
  predicate NoAlnum(s: String) {
    forall i | 0 <= i < |s| :: !IsAsciiAlnum(s[i])
  }

  /** `[أ-ي]`: Alef with Hamza above (U+0623) through Yeh (U+064A). */
  predicate IsAbjadLetter(c: char) {
    '\U{0623}' <= c <= '\U{064A}'
  }

  // ---------------------------------------------------------------------
  // Section labels
  // ---------------------------------------------------------------------

  /** `l` is a run of `k` ASCII digits followed by text holding no digit of any system. */
  predicate LabelSplit(l: String, k: nat) {
    0 < k <= |l| && AllDigits(l[..k]) && NoneSatisfy(l[k..], IsDigitLike)
  }

  /** The shape of every label the recogniser returns: "12", "12 مكرر أ", "5A". */
  predicate IsSectionLabel(l: String) {
    exists k | 0 < k <= |l| :: LabelSplit(l, k)
  }

  /** Collapsing whitespace keeps the label shape. */
  lemma CollapseKeepsLabel(l: String, k: nat)
    requires LabelSplit(l, k)
    ensures LabelSplit(CollapseSpaces(l, ' '), k)
  {
    var d, x := l[..k], l[k..];
    assert l == d + x;
    assert NoneSatisfy(d, IsSpace) by {
      forall i | 0 <= i < |d| ensures !IsSpace(d[i]) {
        assert IsAsciiDigit(d[i]);
      }
    }
    CollapseSpacesPrefix(d, x, ' ');
    CollapseSpacesChars(x, ' ', IsDigitLike);
    var c := CollapseSpaces(l, ' ');
    assert c[..k] == d && c[k..] == CollapseSpaces(x, ' ');
  }

  /** Trimming keeps the label shape. */
  lemma TrimKeepsLabel(c: String, k: nat)
    requires LabelSplit(c, k)
    ensures LabelSplit(Trim(c), k)
  {
    assert !IsSpace(c[0]) by { assert IsAsciiDigit(c[..k][0]); }
    assert TrimStart(c) == c;
    var t := TrimEnd(c);
    assert |t| >= k by {
      assert c[k - 1] == c[..k][k - 1];
      assert !IsSpace(c[k - 1]);
    }
    assert t[..k] == c[..k];
    assert t[k..] == c[k..][..|t| - k];
  }

  lemma LabelTidy(l: String, k: nat)
    requires LabelSplit(l, k)
    ensures LabelSplit(Trim(CollapseSpaces(l, ' ')), k)
  {
    CollapseKeepsLabel(l, k);
    TrimKeepsLabel(CollapseSpaces(l, ' '), k);
  }

  // ---------------------------------------------------------------------
  // normalizeArabicToken
  // ---------------------------------------------------------------------

  /** Fathatan through Sukun (U+064B..U+0652). */
  predicate IsHaraka(c: char) {
    '\U{064B}' <= c <= '\U{0652}'
  }

  predicate IsNotHaraka(c: char) {
    !IsHaraka(c)
  }

  predicate IsNotSpace(c: char) {
    !IsSpace(c)
  }

  /** Hamzated Alefs, Alef Maksura and Teh Marbuta: the letters the token form spells differently. */
  predicate IsUnifiedAway(c: char) {
    c == '\U{0623}' || c == '\U{0625}' || c == '\U{0622}' || c == '\U{0649}' || c == '\U{0629}'
  }

  /** `أإآ` to `ا`, `ى` to `ي`, `ة` to `ه`; every other character unchanged. */
  function UnifyLetter(c: char): (r: char)
    ensures !IsUnifiedAway(r)
    ensures !IsUnifiedAway(c) ==> r == c
  {
    if c == '\U{0623}' || c == '\U{0625}' || c == '\U{0622}' then '\U{0627}'
    else if c == '\U{0649}' then '\U{064A}'
    else if c == '\U{0629}' then '\U{0647}'
    else c
  }

  function UnifyLetters(s: String): (r: String)
    ensures |r| == |s| && forall i | 0 <= i < |s| :: r[i] == UnifyLetter(s[i])
  {
    seq(|s|, i requires 0 <= i < |s| => UnifyLetter(s[i]))
  }

  predicate IsTokenChar(c: char) {
    IsArabicScript(c) || IsAsciiAlnum(c)
  }

  /**
   * `normalizeArabicToken`: drop the harakat, unify the letters above, drop
   * whitespace, then drop every character that is neither Arabic script nor
   * ASCII alphanumeric. The three one-letter replacements are fused into
   * `UnifyLetter`; they rewrite disjoint letters one for one.
   */
  function NormalizeArabicToken(value: String): (r: String)
    ensures forall i | 0 <= i < |r| :: IsTokenChar(r[i]) && !IsSpace(r[i]) && !IsUnifiedAway(r[i]) && !IsHaraka(r[i])
  {
    var bare := Filter(value, IsNotHaraka);
    var unified := UnifyLetters(bare);
    var joined := Filter(unified, IsNotSpace);
    FilterNone(unified, IsNotSpace, IsUnifiedAway);
    FilterNone(joined, IsTokenChar, IsUnifiedAway);
    FilterNone(joined, IsTokenChar, IsSpace);
    Filter(joined, IsTokenChar)
  }

  /** Normalising a token twice changes nothing more. */
  lemma TokenIdempotent(value: String)
    ensures NormalizeArabicToken(NormalizeArabicToken(value)) == NormalizeArabicToken(value)
  {
    var t := NormalizeArabicToken(value);
    FilterKeepsAll(t, IsNotHaraka);
    assert UnifyLetters(t) == t;
    FilterKeepsAll(t, IsNotSpace);
    FilterKeepsAll(t, IsTokenChar);
  }

  // ---------------------------------------------------------------------
  // ORDINAL_WORD_TO_NUMBER and parseSectionFromOrdinalWords
  // ---------------------------------------------------------------------

  /** The ordinal table, in the insertion order the lookup walks; each number is returned as its decimal string. */
  const OrdinalWords: seq<(String, nat)> := [
    ("الاول", 1), ("الاولي", 1), ("الاولى", 1),
    ("الثاني", 2), ("الثانيه", 2), ("الثانية", 2),
    ("الثائيه", 2), ("الثائية", 2), ("الثالث", 3),
    ("الثالثه", 3), ("الثالثة", 3), ("الرابع", 4),
    ("الرابعه", 4), ("الرابعة", 4), ("الخامس", 5),
    ("الخامسه", 5), ("الخامسة", 5), ("السادس", 6),
    ("السادسه", 6), ("السادسة", 6), ("السابع", 7),
    ("السابعه", 7), ("السابعة", 7), ("الثامن", 8),
    ("الثامنه", 8), ("الثامنة", 8), ("التاسع", 9),
    ("التاسعه", 9), ("التاسعة", 9), ("العاشر", 10),
    ("العاشره", 10), ("العاشرة", 10)
  ]

  /** The value of the first entry whose word occurs in `token`. */
  function FirstContained<V>(token: String, table: seq<(String, V)>): (r: Option<V>)
    ensures r.Some? <==> exists k | 0 <= k < |table| :: Contains(token, table[k].0)
    ensures r.Some? ==> exists k | 0 <= k < |table| ::
      Contains(token, table[k].0) && r.value == table[k].1 &&
      forall j | 0 <= j < k :: !Contains(token, table[j].0)
    decreases |table|
  {
    if table == [] then None
    else if Contains(token, table[0].0) then Some(table[0].1)
    else
      var r := FirstContained(token, table[1..]);
      assert forall k | 1 <= k < |table| :: table[k] == table[1..][k - 1];
      r
  }

  /** `parseSectionFromOrdinalWords`: substring lookup of the normalised text, in table order. */
  function ParseSectionFromOrdinalWords(text: String): (r: Option<String>)
    ensures r.Some? ==> LabelSplit(r.value, |r.value|)
    ensures r.Some? ==> exists n | 1 <= n <= 10 :: r.value == NatToString(n)
  {
    assert forall k | 0 <= k < |OrdinalWords| :: 1 <= OrdinalWords[k].1 <= 10;
    match FirstContained(NormalizeArabicToken(text), OrdinalWords)
    case None => None
    case Some(n) => Some(NatToString(n))
  }

  /** A text that contains `p` contains each character of `p`. */
  lemma ContainsUsesChars(s: String, p: String, j: nat)
    requires j < |p| && Contains(s, p)
    ensures exists i | 0 <= i < |s| :: s[i] == p[j]
  {
    ContainsIffOccurs(s, p);
    var i :| OccursAt(s, p, i);
    assert s[i + j] == s[i..i + |p|][j];
  }

  /** A text lacking one of the characters of `p` does not contain `p`. */
  lemma MissingCharNotContained(s: String, p: String, j: nat)
    requires j < |p| && forall i | 0 <= i < |s| :: s[i] != p[j]
    ensures !Contains(s, p)
  {
    if Contains(s, p) {
      ContainsUsesChars(s, p, j);
    }
  }

  /**
   * The entries spelled with Teh Marbuta or Alef Maksura can never match:
   * the token form has neither letter, so only their Heh and Yeh twins count.
   */
  lemma UnreachableOrdinalEntries(text: String, k: nat, j: nat)
    requires k < |OrdinalWords| && j < |OrdinalWords[k].0| && IsUnifiedAway(OrdinalWords[k].0[j])
    ensures !Contains(NormalizeArabicToken(text), OrdinalWords[k].0)
  {
    MissingCharNotContained(NormalizeArabicToken(text), OrdinalWords[k].0, j);
  }

  /** A single whitespace character between two space-free words is dropped. */
  lemma DropOneSpace(a: String, c: char, b: String)
    requires NoneSatisfy(a, IsSpace) && IsSpace(c) && NoneSatisfy(b, IsSpace)
    ensures Filter(a + [c] + b, IsNotSpace) == a + b
  {
    FilterConcat(a + [c], b, IsNotSpace);
    FilterConcat(a, [c], IsNotSpace);
    FilterKeepsAll(a, IsNotSpace);
    FilterKeepsAll(b, IsNotSpace);
  }

  lemma TwelfthBare(text: String)
    requires text == "الثانية عشرة"
    ensures Filter(text, IsNotHaraka) == text
  {
    FilterKeepsAll(text, IsNotHaraka);
  }

  lemma TwelfthUnified(text: String)
    requires text == "الثانية عشرة"
    ensures UnifyLetters(text) == "الثانيه" + [' '] + "عشره"
  {
  }

  /** The token form of "the twelfth" (الثانية عشرة). */
  lemma TwelfthToken(text: String)
    requires text == "الثانية عشرة"
    ensures NormalizeArabicToken(text) == "الثانيهعشره"
  {
    var first, second := "الثانيه", "عشره";
    TwelfthBare(text);
    TwelfthUnified(text);
    DropOneSpace(first, ' ', second);
    FilterKeepsAll(first + second, IsTokenChar);
  }

  /** Substring lookup reads "the twelfth" (الثانية عشرة) as "2". */
  lemma TwelfthReadsAsSecond(text: String)
    requires text == "الثانية عشرة"
    ensures ParseSectionFromOrdinalWords(text) == Some("2")
  {
    TwelfthToken(text);
    var t := NormalizeArabicToken(text);
    TwelfthSkipsFirst(t);
    TwelfthHasSecond(t);
    OrdinalHead();
    assert forall j | 0 <= j < 3 :: !Contains(t, OrdinalWords[j].0);
    FirstContainedAt(t, OrdinalWords, 3);
    assert NatToString(2) == "2";
  }

  /** The token of "the twelfth" has no Waw, so none of the spellings of "the first" occurs in it. */
  lemma TwelfthSkipsFirst(t: String)
    requires t == "الثانيهعشره"
    ensures !Contains(t, "الاول") && !Contains(t, "الاولي") && !Contains(t, "الاولى")
  {
    assert forall i | 0 <= i < |t| :: t[i] != 'و';
    MissingCharNotContained(t, "الاول", 3);
    MissingCharNotContained(t, "الاولي", 3);
    MissingCharNotContained(t, "الاولى", 3);
  }

  /** The token of "the twelfth" opens with "the second". */
  lemma TwelfthHasSecond(t: String)
    requires t == "الثانيهعشره"
    ensures Contains(t, "الثاني")
  {
    assert OccursAt(t, "الثاني", 0);
    OccursContains(t, "الثاني", 0);
  }

  /** The first four entries of the ordinal table. */
  lemma OrdinalHead()
    ensures |OrdinalWords| > 3
    ensures OrdinalWords[0].0 == "الاول" && OrdinalWords[1].0 == "الاولي" && OrdinalWords[2].0 == "الاولى"
    ensures OrdinalWords[3] == ("الثاني", 2)
  {
  }

  /** The lookup returns the value of entry `k` when its word is the first one contained. */
  lemma {:induction false} FirstContainedAt<V>(token: String, table: seq<(String, V)>, k: nat)
    requires k < |table| && Contains(token, table[k].0)
    requires forall j | 0 <= j < k :: !Contains(token, table[j].0)
    ensures FirstContained(token, table) == Some(table[k].1)
    decreases k
  {
    if k > 0 {
      assert table[1..][k - 1] == table[k];
      FirstContainedAt(token, table[1..], k - 1);
    }
  }

  // ---------------------------------------------------------------------
  // The OCR correction `\bالحادة\b` to `المادة`
  // ---------------------------------------------------------------------

  const Hadda: String := "الحادة"
  const Almadda: String := "المادة"

  /**
   * `\bالحادة\b` matches at `i`. Both ends of the word are Arabic letters,
   * which are not `\w`, so each word boundary needs an ASCII word character
   * on its outer side; the start and the end of the line do not qualify.
   */
  predicate HaddaAt(s: String, i: nat) {
    OccursAt(s, Hadda, i) && 0 < i && i + |Hadda| < |s| && IsWordChar(s[i - 1]) && IsWordChar(s[i + |Hadda|])
  }

  function ReplaceHaddaFrom(s: String, i: nat): (r: String)
    requires i <= |s|
    ensures |r| == |s| - i
    decreases |s| - i
  {
    if i == |s| then []
    else if HaddaAt(s, i) then Almadda + ReplaceHaddaFrom(s, i + |Hadda|)
    else [s[i]] + ReplaceHaddaFrom(s, i + 1)
  }

  /** `s.replace(/\bالحادة\b/g, 'المادة')`: a one-for-one rewrite that needs ASCII word characters to fire. */
  function ReplaceHadda(s: String): (r: String)
    ensures |r| == |s|
    ensures NoneSatisfy(s, IsWordChar) ==> r == s
  {
    if NoneSatisfy(s, IsWordChar) then ReplaceHaddaNeedsWordChars(s, 0); ReplaceHaddaFrom(s, 0)
    else ReplaceHaddaFrom(s, 0)
  }

  /** A line without ASCII word characters is never corrected. */
  lemma {:induction false} ReplaceHaddaNeedsWordChars(s: String, i: nat)
    requires i <= |s| && NoneSatisfy(s, IsWordChar)
    ensures ReplaceHaddaFrom(s, i) == s[i..]
    decreases |s| - i
  {
    if i < |s| {
      ReplaceHaddaNeedsWordChars(s, i + 1);
      assert s[i..] == [s[i]] + s[i + 1..];
    }
  }

  /** A word flanked by ASCII word characters is corrected. */
  lemma ReplaceHaddaFlanked(a: char, b: char)
    requires IsWordChar(a) && IsWordChar(b)
    ensures ReplaceHadda([a] + Hadda + [b]) == [a] + Almadda + [b]
  {
    var s := [a] + Hadda + [b];
    assert !HaddaAt(s, 0);
    assert s[1..7] == Hadda;
    assert HaddaAt(s, 1);
    assert !HaddaAt(s, 7);
    assert ReplaceHaddaFrom(s, 7) == [b] + ReplaceHaddaFrom(s, 8);
    assert ReplaceHaddaFrom(s, 1) == Almadda + ReplaceHaddaFrom(s, 7);
    assert ReplaceHaddaFrom(s, 0) == [a] + ReplaceHaddaFrom(s, 1);
  }

  // ---------------------------------------------------------------------
  // The numeric heading patterns
  // ---------------------------------------------------------------------

  const Mukarrar: String := "مكرر"

  /** `(?:مادة|ماده)` at `q`. */
  predicate KeywordAt(s: String, q: int) {
    OccursAt(s, "مادة", q) || OccursAt(s, "ماده", q)
  }

  predicate IsNotAlnum(c: char) {
    !IsAsciiAlnum(c)
  }

  /** How far `^[\W_]*` can reach: the first ASCII letter or digit. */
  function FirstAlnum(s: String): (d: nat)
    ensures d <= |s| && NoAlnum(s[..d])
    ensures d < |s| ==> IsAsciiAlnum(s[d])
  {
    Span(s, 0, IsNotAlnum)
  }

  /**
   * Where the capture `[0-9]+(?:\s*مكرر(?:\s*[أ-ي])?)?`, taken greedily at
   * `d`, ends: after the digit run; after `مكرر` if that word follows after
   * optional whitespace; after one more Arabic letter if such a letter
   * follows `مكرر` after optional whitespace.
   */
  function NumberCaptureEnd(s: String, d: nat): (f: nat)
    requires d < |s| && IsAsciiDigit(s[d])
    ensures Span(s, d, IsAsciiDigit) <= f <= |s|
  {
    MukarrarEnd(s, Span(s, d, IsAsciiDigit))
  }

  /** The end of `(?:\s*مكرر(?:\s*[أ-ي])?)?` taken greedily at `e`. */
  function MukarrarEnd(s: String, e: nat): (f: nat)
    requires e <= |s|
    ensures e <= f <= |s|
  {
    WordEnd(s, e, Mukarrar)
  }

  /** The end of `(?:\s*w(?:\s*[أ-ي])?)?` taken greedily at `e`. */
  function WordEnd(s: String, e: nat, w: String): (f: nat)
    requires e <= |s|
    ensures e <= f <= |s|
  {
    var m := Span(s, e, IsSpace);
    if OccursAt(s, w, m) then LetterEnd(s, m + |w|) else e
  }

  /** The end of `(?:\s*[أ-ي])?` taken greedily at `i`. */
  function LetterEnd(s: String, i: nat): (f: nat)
    requires i <= |s|
    ensures i <= f <= |s|
  {
    var m := Span(s, i, IsSpace);
    if m < |s| && IsAbjadLetter(s[m]) then m + 1 else i
  }

  function NumberCapture(s: String, d: nat): (r: String)
    requires d < |s| && IsAsciiDigit(s[d])
  {
    s[d..NumberCaptureEnd(s, d)]
  }

  /** A slice made of a digit run and then digit-free text is a label. */
  lemma LabelOfSlice(s: String, d: nat, e: nat, f: nat)
    requires d < e <= f <= |s|
    requires forall i | d <= i < e :: IsAsciiDigit(s[i])
    requires forall i | e <= i < f :: !IsDigitLike(s[i])
    ensures LabelSplit(s[d..f], e - d)
  {
    var r := s[d..f];
    assert r[..e - d] == s[d..e];
    assert r[e - d..] == s[e..f];
  }

  lemma SpacesAreNotDigits(s: String, lo: nat, hi: nat)
    requires lo <= hi <= |s| && forall i | lo <= i < hi :: IsSpace(s[i])
    ensures forall i | lo <= i < hi :: !IsDigitLike(s[i])
  {
  }

  /** `مكرر` holds no digit. */
  lemma MukarrarIsNotDigits(s: String, m: nat)
    requires OccursAt(s, Mukarrar, m)
    ensures forall i | m <= i < m + |Mukarrar| :: !IsDigitLike(s[i])
  {
    forall i | m <= i < m + |Mukarrar| ensures !IsDigitLike(s[i]) {
      assert s[i] == s[m..m + |Mukarrar|][i - m];
    }
  }

  /** After the digit run the capture holds whitespace, `مكرر` and an Arabic letter: no digit. */
  lemma CaptureTailIsNotDigits(s: String, d: nat)
    requires d < |s| && IsAsciiDigit(s[d])
    ensures forall i | Span(s, d, IsAsciiDigit) <= i < NumberCaptureEnd(s, d) :: !IsDigitLike(s[i])
  {
    var e := Span(s, d, IsAsciiDigit);
    var m := Span(s, e, IsSpace);
    SpacesAreNotDigits(s, e, m);
    if OccursAt(s, Mukarrar, m) {
      MukarrarIsNotDigits(s, m);
      var m2 := Span(s, m + |Mukarrar|, IsSpace);
      SpacesAreNotDigits(s, m + |Mukarrar|, m2);
      assert MukarrarEnd(s, e) == LetterEnd(s, m + |Mukarrar|);
    }
  }

  /** The capture is a digit run followed by digit-free text: a label. */
  lemma NumberCaptureShape(s: String, d: nat)
    requires d < |s| && IsAsciiDigit(s[d])
    ensures LabelSplit(NumberCapture(s, d), Span(s, d, IsAsciiDigit) - d)
  {
    CaptureTailIsNotDigits(s, d);
    LabelOfSlice(s, d, Span(s, d, IsAsciiDigit), NumberCaptureEnd(s, d));
  }

  /** `\s*\)?\s*\(?\s*` matches the whole of `u`. */
  predicate StrictGap(u: String) {
    var a := Span(u, 0, IsSpace);
    var b := if a < |u| && u[a] == ')' then Span(u, a + 1, IsSpace) else a;
    var c := if b < |u| && u[b] == '(' then Span(u, b + 1, IsSpace) else b;
    c == |u|
  }

  predicate AllSpace(u: String) {
    forall i | 0 <= i < |u| :: IsSpace(u[i])
  }

  /**
   * The strict heading pattern
   * `^[\W_]*\(?\s*(?:ال)?(?:مادة|ماده)\s*\)?\s*\(?\s*(<number>)\s*\)?`.
   * Everything before the number is matched by classes that exclude ASCII
   * letters and digits, so the number starts at the first of those, which must
   * be a digit; the pattern has no end anchor, so whatever follows is ignored.
   */
  function StrictNumericHeading(s: String): (r: Option<String>)
    ensures r.Some? ==> IsSectionLabel(r.value) && IsPrefix(r.value, s[FirstAlnum(s)..])
  {
    var d := FirstAlnum(s);
    if d < |s| && IsAsciiDigit(s[d]) && exists q | 0 <= q <= d - 4 :: KeywordAt(s, q) && StrictGap(s[q + 4..d])
    then NumberCaptureShape(s, d); Some(NumberCapture(s, d)) else None
  }

  /**
   * The permissive heading pattern
   * `^[\W_]*\(?\s*(?:ال)?(?:مادة|ماده)\s*(<number>)\s*\)?[\W_]*$`: only
   * whitespace between the keyword and the number, and nothing but non-word
   * characters after the digits.
   */
  function PermissiveNumericHeading(s: String): (r: Option<String>)
    ensures r.Some? ==> IsSectionLabel(r.value) && IsPrefix(r.value, s[FirstAlnum(s)..])
  {
    var d := FirstAlnum(s);
    if d < |s| && IsAsciiDigit(s[d]) && (exists q | 0 <= q <= d - 4 :: KeywordAt(s, q) && AllSpace(s[q + 4..d])) &&
       NoAlnum(s[Span(s, d, IsAsciiDigit)..])
    then NumberCaptureShape(s, d); Some(NumberCapture(s, d)) else None
  }

  // ---------------------------------------------------------------------
  // The ordinal-word heading pattern
  // ---------------------------------------------------------------------

  function Min(a: int, b: int): int {
    if a <= b then a else b
  }

  /**
   * The capture `([^\d][\p{Script=Arabic}\s]{2,30})` can start at `w` of the
   * text `r` after the keyword and the rest `\s*\)?[\W_]*$` can follow: one
   * character other than an ASCII digit, then at least two Arabic letters or
   * whitespace, and nothing after that first character is an ASCII letter or digit.
   */
  predicate OrdinalTailAt(r: String, w: nat) {
    w < |r| && !IsAsciiDigit(r[w]) && Span(r, w + 1, IsArabicOrSpace) - (w + 1) >= 2 && NoAlnum(r[w + 1..])
  }

  /** The greedy `{2,30}` takes the longest run, capped at 30. */
  function OrdinalCapture(r: String, w: nat): (c: String)
    requires OrdinalTailAt(r, w)
    ensures 3 <= |c| <= 31 && w + |c| <= |r| && c == r[w..w + |c|]
  {
    r[w..w + 1 + Min(30, Span(r, w + 1, IsArabicOrSpace) - (w + 1))]
  }

  /** The `\s*` before the capture is greedy: the longest whitespace run is tried first. */
  function OrdinalTailFrom(r: String, w: nat): (c: Option<String>)
    ensures c.Some? ==> 3 <= |c.value| <= 31 && !IsAsciiDigit(c.value[0])
    decreases w
  {
    if OrdinalTailAt(r, w) then Some(OrdinalCapture(r, w))
    else if w == 0 then None
    else OrdinalTailFrom(r, w - 1)
  }

  /**
   * `^[\W_]*` is greedy, and it can swallow `\(?\s*(?:ال)?` as well, so the
   * first match puts the keyword at the last position `q` where the rest can match.
   */
  function OrdinalHeadingFrom(s: String, q: nat): (c: Option<String>)
    requires q <= |s|
    ensures c.Some? ==> 3 <= |c.value| <= 31 && !IsAsciiDigit(c.value[0])
    decreases q
  {
    var hit :=
      if q + 4 <= |s| && KeywordAt(s, q) && NoAlnum(s[..q]) then
        var r := s[q + 4..];
        OrdinalTailFrom(r, Span(r, 0, IsSpace))
      else None;
    if hit.Some? then hit
    else if q == 0 then None
    else OrdinalHeadingFrom(s, q - 1)
  }

  /**
   * The ordinal heading pattern
   * `^[\W_]*\(?\s*(?:ال)?(?:مادة|ماده)\s*([^\d][\p{Script=Arabic}\s]{2,30})\s*\)?[\W_]*$`.
   */
  function OrdinalHeading(s: String): (c: Option<String>)
    ensures c.Some? ==> 3 <= |c.value| <= 31 && !IsAsciiDigit(c.value[0])
  {
    OrdinalHeadingFrom(s, |s|)
  }

  // ---------------------------------------------------------------------
  // The English heading pattern
  // ---------------------------------------------------------------------

  /** `/^Article\s*(\d+[A-Za-z]*)/i`: the keyword in any ASCII case, then digits and letters. */
  function EnglishHeading(s: String): (r: Option<String>)
    ensures r.Some? ==> IsSectionLabel(r.value) && NoneSatisfy(r.value, IsSpace)
    ensures r.Some? ==> |s| >= 7 && Lower(s[..7]) == "article" && IsPrefix(r.value, s[Span(s, 7, IsSpace)..])
  {
    if |s| >= 7 && Lower(s[..7]) == "article" then
      var a := Span(s, 7, IsSpace);
      var e := Span(s, a, IsAsciiDigit);
      if e > a then
        var f := Span(s, e, IsAsciiLetter);
        LabelOfSlice(s, a, e, f);
        Some(s[a..f])
      else None
    else None
  }

  // ---------------------------------------------------------------------
  // parseArticleSection
  // ---------------------------------------------------------------------

  /**
   * The line as the recogniser reads it: bidi controls dropped, presentation
   * forms folded, whitespace runs collapsed to one space, trimmed, and
   * Arabic-Indic digits made ASCII.
   */
  function NormalizeHeadingLine(line: String): String {
    NormalizeArabicDigits(Trim(CollapseSpaces(PresentationFormsNormalized(StripBidi(line)), ' ')))
  }

  /** The numeric branch: a numeric heading, in permissive mode only on a line of at most 50 characters. */
  function NumericBranch(corrected: String, allowOrdinalFallback: bool): (r: Option<String>)
    ensures r.Some? ==> IsSectionLabel(r.value)
    ensures allowOrdinalFallback && |corrected| > 50 ==> r.None?
  {
    var numeric := if allowOrdinalFallback then PermissiveNumericHeading(corrected) else StrictNumericHeading(corrected);
    if numeric.Some? && (!allowOrdinalFallback || |corrected| <= 50) then
      var k :| 0 < k <= |numeric.value| && LabelSplit(numeric.value, k);
      LabelTidy(numeric.value, k);
      Some(Trim(CollapseSpaces(numeric.value, ' ')))
    else None
  }

  /**
   * The ordinal branches: an ordinal-word heading, then in permissive mode a
   * bare ordinal on a line of at most 40 characters. The label is the number
   * of an ordinal word, one to ten; in strict mode and on longer lines only
   * the keyword heading can give it.
   */
  function OrdinalBranch(corrected: String, allowOrdinalFallback: bool): (r: Option<String>)
    ensures r.Some? ==> IsSectionLabel(r.value) && exists n | 1 <= n <= 10 :: r.value == NatToString(n)
    ensures r.Some? && (!allowOrdinalFallback || |corrected| > 40) ==>
      OrdinalHeading(corrected).Some? && r == ParseSectionFromOrdinalWords(OrdinalHeading(corrected).value)
  {
    var heading := OrdinalHeading(corrected);
    var fromHeading := if heading.Some? then ParseSectionFromOrdinalWords(heading.value) else None;
    if fromHeading.Some? then fromHeading
    else if allowOrdinalFallback && |corrected| <= 40 then ParseSectionFromOrdinalWords(corrected)
    else None
  }

  /** The English branch: `Article N`, trimmed; the label holds no whitespace, so the trim changes nothing. */
  function EnglishBranch(corrected: String): (r: Option<String>)
    ensures r == EnglishHeading(corrected)
  {
    var english := EnglishHeading(corrected);
    if english.Some? then
      TrimUnique(english.value, 0, |english.value|);
      Some(Trim(english.value))
    else None
  }

  /** The line the branches read: normalised and, in permissive mode, OCR-corrected. */
  function CorrectedLine(line: String, allowOrdinalFallback: bool): String {
    var normalized := NormalizeHeadingLine(line);
    if allowOrdinalFallback then ReplaceHadda(normalized) else normalized
  }

  /**
   * `parseArticleSection`: the first branch that yields a label wins, in the
   * order numeric, ordinal, English; an empty normalised line has none. In
   * permissive mode the OCR correction runs first.
   */
  function ParseArticleSection(line: String, allowOrdinalFallback: bool): (r: Option<String>)
    ensures r.Some? ==> IsSectionLabel(r.value)
  {
    if NormalizeHeadingLine(line) == [] then None
    else
      var corrected := CorrectedLine(line, allowOrdinalFallback);
      var numeric := NumericBranch(corrected, allowOrdinalFallback);
      if numeric.Some? then numeric
      else
        var ordinal := OrdinalBranch(corrected, allowOrdinalFallback);
        if ordinal.Some? then ordinal else EnglishBranch(corrected)
  }

  /** Numeric beats ordinal, which beats English; an empty line reads as no heading in every branch. */
  lemma ParseArticleSectionOrder(line: String, allowOrdinalFallback: bool)
    ensures var c := CorrectedLine(line, allowOrdinalFallback);
      ParseArticleSection(line, allowOrdinalFallback) ==
        if NumericBranch(c, allowOrdinalFallback).Some? then NumericBranch(c, allowOrdinalFallback)
        else if OrdinalBranch(c, allowOrdinalFallback).Some? then OrdinalBranch(c, allowOrdinalFallback)
        else EnglishBranch(c)
  {
    var c := CorrectedLine(line, allowOrdinalFallback);
    if NormalizeHeadingLine(line) == [] {
      assert c == [];
      assert OrdinalHeading(c).None?;
      NothingInEmptyToken(c);
    }
  }

  /** An empty text holds no ordinal word. */
  lemma NothingInEmptyToken(c: String)
    requires c == []
    ensures ParseSectionFromOrdinalWords(c).None?
  {
    var t := NormalizeArabicToken(c);
    assert t == [];
    forall k | 0 <= k < |OrdinalWords| ensures !Contains(t, OrdinalWords[k].0) {
      MissingCharNotContained(t, OrdinalWords[k].0, 0);
    }
  }

  /**
   * A numeric heading's label is the number the pattern captured at the
   * line's first ASCII letter or digit, whitespace-collapsed and trimmed,
   * and it opens with that digit run.
   */
  lemma NumericBranchValue(corrected: String, allowOrdinalFallback: bool)
    ensures NumericBranch(corrected, allowOrdinalFallback).Some? ==>
      var d := FirstAlnum(corrected);
      d < |corrected| && IsAsciiDigit(corrected[d]) &&
      NumericBranch(corrected, allowOrdinalFallback).value == Trim(CollapseSpaces(NumberCapture(corrected, d), ' ')) &&
      IsPrefix(corrected[d..Span(corrected, d, IsAsciiDigit)], NumericBranch(corrected, allowOrdinalFallback).value)
  {
    if NumericBranch(corrected, allowOrdinalFallback).Some? {
      var d := FirstAlnum(corrected);
      if !allowOrdinalFallback {
        StrictHeadingParts(corrected);
      }
      CaptureOpensWithDigits(corrected, d);
    }
  }

  /** The tidied number capture at a digit opens with that digit run. */
  lemma CaptureOpensWithDigits(s: String, d: nat)
    requires d < |s| && IsAsciiDigit(s[d])
    ensures IsPrefix(s[d..Span(s, d, IsAsciiDigit)], Trim(CollapseSpaces(NumberCapture(s, d), ' ')))
  {
    var e := Span(s, d, IsAsciiDigit);
    var f := NumberCaptureEnd(s, d);
    var cap := NumberCapture(s, d);
    var digits := s[d..e];
    SliceSplit(s, d, e, f);
    assert NoneSatisfy(digits, IsSpace) by {
      forall i | 0 <= i < |digits| ensures !IsSpace(digits[i]) {
        assert IsAsciiDigit(s[d + i]);
      }
    }
    CollapseSpacesPrefix(digits, s[e..f], ' ');
    TrimKeepsPrefix(CollapseSpaces(cap, ' '), digits);
  }

  /** A block of `f` characters at `i` that `f` does not continue past is the span at `i`. */
  lemma SpanOfBlock(s: String, i: nat, x: String, f: char -> bool)
    requires i + |x| <= |s| && s[i..i + |x|] == x && forall j | 0 <= j < |x| :: f(x[j])
    requires i + |x| < |s| ==> !f(s[i + |x|])
    ensures Span(s, i, f) == i + |x|
  {
    forall j | i <= j < i + |x| ensures f(s[j]) {
      assert s[j] == x[j - i];
    }
    SpanUnique(s, i, f, i + |x|);
  }

  /**
   * `Article` in any ASCII case at the start, whitespace up to `a`, digits
   * up to `e` and letters up to `f`, where neither run goes on: the label is
   * `s[a..f]`, whatever follows.
   */
  lemma EnglishHeadingReads(s: String, a: nat, e: nat, f: nat)
    requires 7 <= a < e <= f <= |s| && Lower(s[..7]) == "article"
    requires forall i | 7 <= i < a :: IsSpace(s[i])
    requires a < |s| ==> !IsSpace(s[a])
    requires forall i | a <= i < e :: IsAsciiDigit(s[i])
    requires forall i | e <= i < f :: IsAsciiLetter(s[i])
    requires e < |s| && e == f ==> !IsAsciiDigit(s[e])
    requires f < |s| ==> !IsAsciiLetter(s[f])
    ensures EnglishHeading(s) == Some(s[a..f])
  {
    SpanUnique(s, 7, IsSpace, a);
    SpanUnique(s, a, IsAsciiDigit, e);
    SpanUnique(s, e, IsAsciiLetter, f);
  }

  /** `Article N` followed by letters reads as N and the letters. */
  lemma ArticleNumber(n: String, l: String)
    requires |n| > 0 && AllDigits(n) && forall i | 0 <= i < |l| :: IsAsciiLetter(l[i])
    ensures EnglishHeading("Article " + n + l) == Some(n + l)
  {
    var s := "Article " + n + l;
    var e := 8 + |n|;
    assert s[..7] == "Article" && Lower("Article") == "article";
    assert forall i | 8 <= i < e :: s[i] == n[i - 8];
    assert forall i | e <= i < |s| :: s[i] == l[i - e];
    assert s[8] == n[0];
    assert s[8..|s|] == n + l;
    EnglishHeadingReads(s, 8, e, |s|);
  }

  // ---------------------------------------------------------------------
  // How the two numeric patterns relate
  // ---------------------------------------------------------------------

  /** The permissive pattern accepts a subset of what the strict one does, with the same capture. */
  lemma PermissiveWithinStrict(s: String)
    ensures PermissiveNumericHeading(s).Some? ==> StrictNumericHeading(s) == PermissiveNumericHeading(s)
  {
    var d := FirstAlnum(s);
    if PermissiveNumericHeading(s).Some? {
      var q :| 0 <= q <= d - 4 && KeywordAt(s, q) && AllSpace(s[q + 4..d]);
      var u := s[q + 4..d];
      SpanUnique(u, 0, IsSpace, |u|);
      assert StrictGap(u);
    }
  }

  /** The strict pattern has no end anchor: text appended to a heading line keeps it a heading. */
  lemma StrictIgnoresTrailingText(s: String, t: String)
    ensures StrictNumericHeading(s).Some? ==> StrictNumericHeading(s + t).Some?
  {
    var d := FirstAlnum(s);
    if StrictNumericHeading(s).Some? {
      SpanExtend(s, t, 0, IsNotAlnum);
      assert FirstAlnum(s + t) == d;
      var q :| 0 <= q <= d - 4 && KeywordAt(s, q) && StrictGap(s[q + 4..d]);
      assert (s + t)[q..q + 4] == s[q..q + 4];
      assert (s + t)[q + 4..d] == s[q + 4..d];
      assert KeywordAt(s + t, q);
    }
  }

  /** The permissive pattern is anchored: an ASCII letter anywhere after the heading defeats it. */
  lemma PermissiveRejectsTrailingWord(s: String, t: String, j: nat)
    requires j < |t| && IsAsciiLetter(t[j])
    ensures PermissiveNumericHeading(s).Some? ==> PermissiveNumericHeading(s + t) == None
  {
    var d := FirstAlnum(s);
    if PermissiveNumericHeading(s).Some? {
      SpanExtend(s, t, 0, IsNotAlnum);
      var st := s + t;
      assert FirstAlnum(st) == d;
      var e := Span(st, d, IsAsciiDigit);
      assert st[|s| + j] == t[j];
      assert e <= |s| + j;
      assert st[e..][|s| + j - e] == t[j];
    }
  }

  /** Text without ASCII letters or digits in front does not move the first one. */
  lemma FirstAlnumShift(p: String, s: String)
    requires NoAlnum(p)
    ensures FirstAlnum(p + s) == |p| + FirstAlnum(s)
  {
    assert forall k | 0 <= k < |p| :: (p + s)[k] == p[k];
    SpanSkip(p + s, 0, |p|, IsNotAlnum);
    SpanShift(p, s, 0, IsNotAlnum);
  }

  lemma KeywordShift(p: String, s: String, q: nat)
    requires q + 4 <= |s|
    ensures KeywordAt(p + s, |p| + q) <==> KeywordAt(s, q)
  {
    assert (p + s)[|p| + q..|p| + q + 4] == s[q..q + 4];
  }

  /** `^[\W_]*` swallows any text without ASCII letters or digits in front of a heading. */
  lemma LeadingTextSwallowed(p: String, s: String)
    requires NoAlnum(p)
    ensures StrictNumericHeading(s).Some? ==> StrictNumericHeading(p + s) == StrictNumericHeading(s)
  {
    if StrictNumericHeading(s).Some? {
      StrictHeadingParts(s);
      SwallowedHeading(p, s, FirstAlnum(s));
    }
  }

  /** The heading of `s` at `d` is the heading of `p + s`. */
  lemma SwallowedHeading(p: String, s: String, d: nat)
    requires NoAlnum(p) && d == FirstAlnum(s) && d < |s| && IsAsciiDigit(s[d])
    requires exists q | 0 <= q <= d - 4 :: KeywordAt(s, q) && StrictGap(s[q + 4..d])
    ensures StrictNumericHeading(p + s) == Some(NumberCapture(s, d))
  {
    var t, e := p + s, |p| + d;
    FirstAlnumShift(p, s);
    StrictKeywordShift(p, s, d);
    NumberCaptureShift(p, s, d);
    assert e == FirstAlnum(t) && e < |t| && IsAsciiDigit(t[e]);
    StrictHeadingOf(t, e);
    assert StrictNumericHeading(t) == Some(NumberCapture(t, e));
    assert NumberCapture(t, e) == NumberCapture(s, d);
  }

  /** What a strict heading found: a digit at the first letter or digit, after the keyword and a gap. */
  lemma StrictHeadingParts(s: String)
    requires StrictNumericHeading(s).Some?
    ensures var d := FirstAlnum(s);
      d < |s| && IsAsciiDigit(s[d]) && (exists q | 0 <= q <= d - 4 :: KeywordAt(s, q) && StrictGap(s[q + 4..d])) &&
      StrictNumericHeading(s) == Some(NumberCapture(s, d))
  {
  }

  /** A digit at the first letter or digit, after the keyword and a gap, makes a strict heading. */
  lemma StrictHeadingOf(s: String, d: nat)
    requires d == FirstAlnum(s) && d < |s| && IsAsciiDigit(s[d])
    requires exists q | 0 <= q <= d - 4 :: KeywordAt(s, q) && StrictGap(s[q + 4..d])
    ensures StrictNumericHeading(s) == Some(NumberCapture(s, d))
  {
  }

  /** A digit run at the first letter or digit, after the keyword and spaces only, with no letter or digit after it, makes a permissive heading. */
  lemma PermissiveHeadingOf(s: String, d: nat)
    requires d == FirstAlnum(s) && d < |s| && IsAsciiDigit(s[d])
    requires exists q | 0 <= q <= d - 4 :: KeywordAt(s, q) && AllSpace(s[q + 4..d])
    requires NoAlnum(s[Span(s, d, IsAsciiDigit)..])
    ensures PermissiveNumericHeading(s) == Some(NumberCapture(s, d))
  {
  }

  /** The keyword and the gap before the number keep their reading behind the swallowed text. */
  lemma StrictKeywordShift(p: String, s: String, d: nat)
    requires d <= |s| && exists q | 0 <= q <= d - 4 :: KeywordAt(s, q) && StrictGap(s[q + 4..d])
    ensures exists q | 0 <= q <= |p| + d - 4 :: KeywordAt(p + s, q) && StrictGap((p + s)[q + 4..|p| + d])
  {
    var q :| 0 <= q <= d - 4 && KeywordAt(s, q) && StrictGap(s[q + 4..d]);
    KeywordShift(p, s, q);
    assert (p + s)[|p| + q + 4..|p| + d] == s[q + 4..d];
    assert KeywordAt(p + s, |p| + q) && StrictGap((p + s)[|p| + q + 4..|p| + d]);
  }

  lemma LetterEndShift(p: String, s: String, i: nat)
    requires i <= |s|
    ensures LetterEnd(p + s, |p| + i) == |p| + LetterEnd(s, i)
  {
    SpanShift(p, s, i, IsSpace);
    var m := Span(s, i, IsSpace);
    if m < |s| {
      assert (p + s)[|p| + m] == s[m];
    }
  }

  lemma MukarrarEndShift(p: String, s: String, e: nat)
    requires e <= |s|
    ensures MukarrarEnd(p + s, |p| + e) == |p| + MukarrarEnd(s, e)
  {
    WordEndShift(p, s, e, Mukarrar);
  }

  lemma WordEndShift(p: String, s: String, e: nat, w: String)
    requires e <= |s|
    ensures WordEnd(p + s, |p| + e, w) == |p| + WordEnd(s, e, w)
  {
    SpanShift(p, s, e, IsSpace);
    var m := Span(s, e, IsSpace);
    OccursAtShift(p, s, w, m);
    if OccursAt(s, w, m) {
      LetterEndShift(p, s, m + |w|);
    }
  }

  /** The number capture reads only the text from its first digit on. */
  lemma NumberCaptureShift(p: String, s: String, d: nat)
    requires d < |s| && IsAsciiDigit(s[d])
    ensures (p + s)[|p| + d] == s[d]
    ensures NumberCaptureEnd(p + s, |p| + d) == |p| + NumberCaptureEnd(s, d)
    ensures NumberCapture(p + s, |p| + d) == NumberCapture(s, d)
  {
    NumberCaptureEndShift(p, s, d);
    var f := NumberCaptureEnd(s, d);
    assert (p + s)[|p| + d..|p| + f] == s[d..f];
  }

  lemma NumberCaptureEndShift(p: String, s: String, d: nat)
    requires d < |s| && IsAsciiDigit(s[d])
    ensures (p + s)[|p| + d] == s[d]
    ensures NumberCaptureEnd(p + s, |p| + d) == |p| + NumberCaptureEnd(s, d)
  {
    SpanShift(p, s, d, IsAsciiDigit);
    MukarrarEndShift(p, s, Span(s, d, IsAsciiDigit));
  }

  // ---------------------------------------------------------------------
  // Two headings read end to end
  // ---------------------------------------------------------------------

  /** Letters of the main Arabic block, ASCII digits and the plain space. */
  predicate IsPlainHeadingChar(c: char) {
    IsAsciiDigit(c) || c == ' ' || ('\U{0621}' <= c <= '\U{064A}' && c != Tatweel)
  }

  /** A trimmed, single-spaced line of plain heading characters is its own normal form. */
  lemma NormalizePlainLine(s: String)
    requires forall i | 0 <= i < |s| :: IsPlainHeadingChar(s[i])
    requires SingleSpaced(s) && Trim(s) == s
    ensures NormalizeHeadingLine(s) == s
  {
    PlainLineFixed(s);
    CollapseSpacesKeeps(s, ' ');
    PlainDigitsFixed(s);
  }

  /** Bidi stripping and the presentation-form pass leave plain heading characters alone. */
  lemma PlainLineFixed(s: String)
    requires forall i | 0 <= i < |s| :: IsPlainHeadingChar(s[i])
    ensures PresentationFormsNormalized(StripBidi(s)) == s
  {
    FilterKeepsAll(s, c => !IsBidiControl(c));
    forall j | 0 <= j < |s| ensures Expand(s[j]) == [s[j]] {
      ExpandShapes(s[j]);
    }
    FlatMapIdentity(s, Expand);
  }

  /** Plain heading characters hold no Indic digit to rewrite. */
  lemma PlainDigitsFixed(s: String)
    requires forall i | 0 <= i < |s| :: IsPlainHeadingChar(s[i])
    ensures NormalizeArabicDigits(s) == s
  {
    DigitsByOffset(s);
  }

  predicate IsHah(c: char) {
    c == '\U{062D}'
  }

  lemma HaddaHasHah(s: String, i: nat)
    ensures OccursAt(s, Hadda, i) ==> IsHah(s[i + 2])
  {
    if OccursAt(s, Hadda, i) {
      assert s[i + 2] == s[i..i + |Hadda|][2];
    }
  }

  /** A line without the letter Hah holds no الحادة to correct. */
  lemma {:induction false} ReplaceHaddaWithoutHah(s: String, i: nat)
    requires i <= |s| && NoneSatisfy(s, IsHah)
    ensures ReplaceHaddaFrom(s, i) == s[i..]
    decreases |s| - i
  {
    if i < |s| {
      HaddaHasHah(s, i);
      ReplaceHaddaWithoutHah(s, i + 1);
      assert s[i..] == [s[i]] + s[i + 1..];
    }
  }

  /** The keyword "المادة" and one space: Arabic letters without Hah, then the space. */
  lemma KeywordPrefix()
    ensures var p := Almadda + " ";
      |p| == 7 && p[2..6] == "مادة" && p[6] == ' ' &&
      forall k | 0 <= k < 6 :: '\U{0621}' <= p[k] <= '\U{064A}' && p[k] != Tatweel && !IsHah(p[k])
  {
  }

  /** The characters of the line "المادة" + " " + `n` for a digit string `n`. */
  lemma KeywordLineChars(n: String) returns (s: String)
    requires |n| > 0 && AllDigits(n)
    ensures s == Almadda + " " + n && |s| == 7 + |n| && s[2..6] == "مادة" && s[6..7] == " " && s[7..] == n
    ensures forall i | 0 <= i < |s| :: IsPlainHeadingChar(s[i]) && !IsHah(s[i]) && (IsSpace(s[i]) ==> i == 6)
    ensures forall i | 0 <= i < 7 :: IsNotAlnum(s[i])
    ensures forall i | 7 <= i < |s| :: IsAsciiDigit(s[i])
  {
    var p := Almadda + " ";
    KeywordPrefix();
    s := p + n;
    assert forall i | 0 <= i < 7 :: s[i] == p[i];
    assert forall i | 7 <= i < |s| :: s[i] == n[i - 7];
    assert s[2..6] == p[2..6];
  }

  /** The line "المادة" + " " + `n` for a digit string `n` is its own normal form and correction. */
  lemma KeywordNumberLine(n: String) returns (s: String)
    requires |n| > 0 && AllDigits(n)
    ensures s == Almadda + " " + n && |s| == 7 + |n| && NormalizeHeadingLine(s) == s && ReplaceHadda(s) == s
    ensures FirstAlnum(s) == 7 && KeywordAt(s, 2) && s[6..7] == " " && s[7..] == n
    ensures Span(s, 7, IsAsciiDigit) == |s|
  {
    s := KeywordLineChars(n);
    TrimUnique(s, 0, |s|);
    NormalizePlainLine(s);
    ReplaceHaddaWithoutHah(s, 0);
    SpanUnique(s, 0, IsNotAlnum, 7);
    SpanUnique(s, 7, IsAsciiDigit, |s|);
  }

  /** The number the pattern captures on that line is `n`. */
  lemma KeywordNumberCapture(n: String) returns (s: String)
    requires |n| > 0 && AllDigits(n)
    ensures s == Almadda + " " + n && |s| == 7 + |n| && NormalizeHeadingLine(s) == s && ReplaceHadda(s) == s
    ensures FirstAlnum(s) == 7 && KeywordAt(s, 2) && s[6..7] == " " && IsAsciiDigit(s[7]) && NumberCapture(s, 7) == n
    ensures Span(s, 7, IsAsciiDigit) == |s|
  {
    s := KeywordNumberLine(n);
    assert NumberCaptureEnd(s, 7) == |s|;
  }

  /** "المادة" + " " + `n` is the heading of article `n`, in both modes on a line of at most 50 characters. */
  lemma KeywordNumberHeading(n: String)
    requires |n| > 0 && AllDigits(n)
    ensures ParseArticleSection(Almadda + " " + n, false) == Some(n)
    ensures |n| <= 43 ==> ParseArticleSection(Almadda + " " + n, true) == Some(n)
  {
    var s := KeywordNumberCapture(n);
    DigitsHoldNoSpace(n);
    KeywordStrictMatch(n, s);
    NumericBranchOf(s, false, n);
    NumericLineParses(s, false);
    if |n| <= 43 {
      KeywordPermissiveMatch(n, s);
      NumericBranchOf(s, true, n);
      NumericLineParses(s, true);
    }
  }

  /** The strict numeric pattern reads N from the line "المادة N". */
  lemma KeywordStrictMatch(n: String, s: String)
    requires 7 < |s| && FirstAlnum(s) == 7 && KeywordAt(s, 2) && s[6..7] == " " && IsAsciiDigit(s[7]) && NumberCapture(s, 7) == n
    ensures StrictNumericHeading(s) == Some(n)
  {
    SpanUnique(s[6..7], 0, IsSpace, 1);
    assert StrictGap(s[6..7]);
    StrictHeadingOf(s, 7);
  }

  /** The permissive numeric pattern reads N from the line "المادة N", which ends after N. */
  lemma KeywordPermissiveMatch(n: String, s: String)
    requires 7 < |s| && FirstAlnum(s) == 7 && KeywordAt(s, 2) && s[6..7] == " " && IsAsciiDigit(s[7]) && NumberCapture(s, 7) == n
    requires Span(s, 7, IsAsciiDigit) == |s|
    ensures PermissiveNumericHeading(s) == Some(n)
  {
    assert AllSpace(s[2 + 4..7]);
    assert s[|s|..] == [];
    PermissiveHeadingOf(s, 7);
  }

  /** ASCII digits are not whitespace. */
  lemma DigitsHoldNoSpace(n: String)
    requires AllDigits(n)
    ensures NoneSatisfy(n, IsSpace)
  {
  }

  /** A numeric capture that is a single word is the numeric branch's label. */
  lemma NumericBranchOf(c: String, allowOrdinalFallback: bool, n: String)
    requires n != [] && NoneSatisfy(n, IsSpace)
    requires (if allowOrdinalFallback then PermissiveNumericHeading(c) else StrictNumericHeading(c)) == Some(n)
    requires !allowOrdinalFallback || |c| <= 50
    ensures NumericBranch(c, allowOrdinalFallback) == Some(n)
  {
    TidyWord(n);
  }

  /** A normalised line that needs no OCR correction and has a numeric label gives that label. */
  lemma NumericLineParses(line: String, allowOrdinalFallback: bool)
    requires line != [] && NormalizeHeadingLine(line) == line
    requires allowOrdinalFallback ==> ReplaceHadda(line) == line
    requires NumericBranch(line, allowOrdinalFallback).Some?
    ensures ParseArticleSection(line, allowOrdinalFallback) == NumericBranch(line, allowOrdinalFallback)
  {
    assert CorrectedLine(line, allowOrdinalFallback) == line;
  }

  /** "المادة 5" is article 5. */
  lemma FifthArticle()
    ensures ParseArticleSection("المادة 5", false) == Some("5")
  {
    KeywordNumberHeading("5");
    FifthLine();
  }

  /** The line "المادة 5" is the keyword, a space and the digit. */
  lemma FifthLine()
    ensures Almadda + " " + "5" == "المادة 5"
  {
    var s := Almadda + " " + "5";
    assert |s| == 8;
    forall i | 0 <= i < 8 ensures s[i] == "المادة 5"[i] {
      if i < 6 {
        assert s[i] == Almadda[i];
      }
    }
  }

  /** Only a Meem can open the keyword. */
  lemma KeywordNeedsMeem(s: String, j: nat)
    ensures KeywordAt(s, j) ==> s[j] == '\U{0645}'
  {
    if KeywordAt(s, j) {
      assert s[j] == s[j..j + 4][0];
    }
  }

  /** Positions where the keyword does not stand are passed over by the search for the ordinal heading. */
  lemma {:induction false} OrdinalHeadingFromSkip(s: String, q: nat, q0: nat)
    requires q0 <= q <= |s|
    requires forall j | q0 < j <= q :: !KeywordAt(s, j)
    ensures OrdinalHeadingFrom(s, q) == OrdinalHeadingFrom(s, q0)
    decreases q
  {
    if q > q0 {
      OrdinalHeadingFromSkip(s, q - 1, q0);
    }
  }

  const Thalitha: String := "الثالثة"

  /** The characters of "المادة الثالثة". */
  lemma OrdinalLineChars() returns (s: String)
    ensures s == Almadda + " " + Thalitha && |s| == 14 && s[2..6] == "مادة" && s[6..] == " " + Thalitha
    ensures forall i | 0 <= i < |s| :: IsPlainHeadingChar(s[i]) && !IsAsciiAlnum(s[i]) && (IsSpace(s[i]) ==> i == 6)
    ensures forall i | 0 <= i < |s| :: s[i] == '\U{0645}' ==> i == 2
  {
    s := Almadda + " " + Thalitha;
    assert s[2..6] == "مادة";
    assert s[6..] == " " + Thalitha;
  }

  /** "المادة الثالثة" is its own normal form and correction, and has no number. */
  lemma OrdinalLine() returns (s: String)
    ensures s == Almadda + " " + Thalitha && NormalizeHeadingLine(s) == s && ReplaceHadda(s) == s
    ensures NumericBranch(s, false).None? && NumericBranch(s, true).None?
  {
    s := OrdinalLineChars();
    TrimUnique(s, 0, |s|);
    NormalizePlainLine(s);
    SpanUnique(s, 0, IsNotAlnum, |s|);
  }

  /** After the keyword of "المادة الثالثة", the ordinal capture is "الثالثة". */
  lemma OrdinalTail(r: String)
    requires r == " " + Thalitha
    ensures OrdinalTailFrom(r, Span(r, 0, IsSpace)) == Some(Thalitha)
  {
    SpanUnique(r, 0, IsSpace, 1);
    assert forall i | 2 <= i < |r| :: IsArabicOrSpace(r[i]);
    SpanUnique(r, 2, IsArabicOrSpace, |r|);
    assert OrdinalTailAt(r, 1);
    assert r[1..8] == Thalitha;
  }

  /** The ordinal pattern finds the keyword of "المادة الثالثة" at 2 and captures "الثالثة". */
  lemma OrdinalLineHeading() returns (s: String)
    ensures s == Almadda + " " + Thalitha && OrdinalHeading(s) == Some(Thalitha)
  {
    s := OrdinalLineChars();
    forall j | 2 < j <= |s| ensures !KeywordAt(s, j) {
      KeywordNeedsMeem(s, j);
    }
    OrdinalHeadingFromSkip(s, |s|, 2);
    assert KeywordAt(s, 2) && NoAlnum(s[..2]);
    OrdinalTail(s[6..]);
  }

  /** The token form of "الثالثة". */
  lemma ThalithaToken()
    ensures NormalizeArabicToken(Thalitha) == "الثالثه"
  {
    MainBlockToken(Thalitha);
    ThalithaUnified(Thalitha);
  }

  /** The token of a word of main-block letters is the word with its letters unified. */
  lemma MainBlockToken(w: String)
    requires forall i | 0 <= i < |w| :: '\U{0621}' <= w[i] <= '\U{064A}' && w[i] != Tatweel
    ensures NormalizeArabicToken(w) == UnifyLetters(w)
  {
    MainBlockWord(w);
    FilterKeepsAll(w, IsNotHaraka);
    var u := UnifyLetters(w);
    forall i | 0 <= i < |u| ensures '\U{0621}' <= u[i] <= '\U{064A}' && u[i] != Tatweel {
      assert u[i] == UnifyLetter(w[i]);
    }
    MainBlockWord(u);
    TokenCharsKept(u);
  }

  /** Letters of the main Arabic block are token characters, and neither whitespace nor harakat. */
  lemma MainBlockWord(u: String)
    requires forall i | 0 <= i < |u| :: '\U{0621}' <= u[i] <= '\U{064A}' && u[i] != Tatweel
    ensures forall i | 0 <= i < |u| :: IsTokenChar(u[i]) && !IsSpace(u[i]) && IsNotHaraka(u[i])
  {
  }

  /** Unifying the letters of "الثالثة" turns its Teh-marbuta into Heh. */
  lemma ThalithaUnified(s: String)
    requires s == Thalitha
    ensures UnifyLetters(s) == "الثالثه"
  {
  }

  /** A word of token characters passes the last two filters of the token normaliser unchanged. */
  lemma TokenCharsKept(u: String)
    requires forall i | 0 <= i < |u| :: IsTokenChar(u[i]) && !IsSpace(u[i])
    ensures Filter(Filter(u, IsNotSpace), IsTokenChar) == u
  {
    FilterKeepsAll(u, IsNotSpace);
    FilterKeepsAll(u, IsTokenChar);
  }

  /** "الثالثة" is read as "3". */
  lemma ThalithaReadsAsThird()
    ensures ParseSectionFromOrdinalWords(Thalitha) == Some("3")
  {
    ThalithaToken();
    ThirdInTable("الثالثه");
    assert NatToString(3) == "3";
  }

  /** The token "الثالثه" finds 3 in the table: the earlier entries need a Waw, a Noon or a Yeh with Hamza. */
  lemma ThirdInTable(t: String)
    requires t == "الثالثه"
    ensures FirstContained(t, OrdinalWords) == Some(3)
  {
    assert forall i | 0 <= i < |t| :: t[i] != '\U{0648}' && t[i] != '\U{0646}' && t[i] != '\U{0626}';
    forall j | 0 <= j < 8 ensures !Contains(t, OrdinalWords[j].0) {
      if j < 3 {
        MissingCharNotContained(t, OrdinalWords[j].0, 3);
      } else {
        MissingCharNotContained(t, OrdinalWords[j].0, 4);
      }
    }
    assert OccursAt(t, "الثالث", 0);
    OccursContains(t, "الثالث", 0);
    FirstContainedAt(t, OrdinalWords, 8);
  }

  /** The line of the keyword and "الثالثة" is article 3. */
  lemma OrdinalLineParses(s: String, allowOrdinalFallback: bool)
    requires s == Almadda + " " + Thalitha
    ensures ParseArticleSection(s, allowOrdinalFallback) == Some("3")
  {
    var s1 := OrdinalLine();
    var s2 := OrdinalLineHeading();
    ThalithaReadsAsThird();
    assert CorrectedLine(s, allowOrdinalFallback) == s;
    ParseArticleSectionOrder(s, allowOrdinalFallback);
  }

  /** "المادة الثالثة" is article 3, in both modes. */
  lemma ThirdArticle()
    ensures ParseArticleSection("المادة الثالثة", false) == Some("3")
    ensures ParseArticleSection("المادة الثالثة", true) == Some("3")
  {
    assert Almadda + " " + Thalitha == "المادة الثالثة";
    OrdinalLineParses("المادة الثالثة", false);
    OrdinalLineParses("المادة الثالثة", true);
  }
}
