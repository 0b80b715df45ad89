/**
 * The legal archive's parser for a law's own page: the status read from
 * the page, the node id read from the page's path, and the record
 * assembled from the page's fields with their fallbacks.
 */
module ManshuratLaw {
  import opened TextBasics
  import opened ArabicNormalizer
  import opened Html
  import opened Laws
  import opened Dates
  import opened ManshuratDates
  import Manshurat
  import Titles

  // ---------------------------------------------------------------------
  // parseStatus
  // ---------------------------------------------------------------------

  /** The two markers of one status: an Arabic stem and an English word. */
  type Markers = (String, String)

  const RepealMarkers: Markers := ("ملغ", "repeal")
  const AmendMarkers: Markers := ("معدل", "amend")
  const PendingMarkers: Markers := ("غير نافذ", "not yet")

  predicate Mentions(lower: String, markers: Markers) {
    Contains(lower, markers.0) || Contains(lower, markers.1)
  }

  /** How far a status is from plain force: repealed outranks amended, which outranks not yet in force. */
  function Severity(s: Status): nat {
    match s
    case InForce => 0
    case NotYetInForce => 1
    case Amended => 2
    case Repealed => 3
  }

  /** The status of a page: the most severe status whose marker the lowercased page mentions. */
  function ParseStatus(html: String): (r: Status)
    ensures r == InForce <==>
      !Mentions(Lower(html), RepealMarkers) && !Mentions(Lower(html), AmendMarkers) && !Mentions(Lower(html), PendingMarkers)
  {
    var lower := Lower(html);
    if Mentions(lower, RepealMarkers) then Repealed
    else if Mentions(lower, AmendMarkers) then Amended
    else if Mentions(lower, PendingMarkers) then NotYetInForce
    else InForce
  }

  lemma LowerConcat(a: String, b: String)
    ensures Lower(a + b) == Lower(a) + Lower(b)
  {
    assert forall i | 0 <= i < |a + b| :: Lower(a + b)[i] == (Lower(a) + Lower(b))[i];
  }

  /** A marker mentioned by either part is mentioned by the whole. */
  lemma MentionsGrow(a: String, b: String, markers: Markers)
    ensures Mentions(a, markers) ==> Mentions(a + b, markers)
    ensures Mentions(b, markers) ==> Mentions(a + b, markers)
  {
    assert a + b + [] == a + b;
    assert [] + a + b == a + b;
    if Contains(a, markers.0) { ContainsInConcat([], a, b, markers.0); }
    if Contains(a, markers.1) { ContainsInConcat([], a, b, markers.1); }
    if Contains(b, markers.0) { ContainsInConcat(a, b, [], markers.0); }
    if Contains(b, markers.1) { ContainsInConcat(a, b, [], markers.1); }
  }

  /** More text never makes a page's status less severe, whichever side it is added on. */
  lemma StatusGrows(a: String, b: String)
    ensures Severity(ParseStatus(a)) <= Severity(ParseStatus(a + b))
    ensures Severity(ParseStatus(b)) <= Severity(ParseStatus(a + b))
  {
    LowerConcat(a, b);
    MentionsGrow(Lower(a), Lower(b), RepealMarkers);
    MentionsGrow(Lower(a), Lower(b), AmendMarkers);
    MentionsGrow(Lower(a), Lower(b), PendingMarkers);
  }

  /** A repeal marker anywhere makes the page repealed, whatever else it says. */
  lemma RepealWins(a: String, b: String)
    requires Mentions(Lower(b), RepealMarkers)
    ensures ParseStatus(a + b) == Repealed && ParseStatus(b + a) == Repealed
  {
    StatusGrows(a, b);
    StatusGrows(b, a);
  }

  /** The status does not depend on the case of ASCII letters. */
  lemma StatusIgnoresCase(html: String)
    ensures ParseStatus(Lower(html)) == ParseStatus(html)
  {
    assert Lower(Lower(html)) == Lower(html);
  }

  // ---------------------------------------------------------------------
  // extractNodeId and the node id of a page
  // ---------------------------------------------------------------------

  /** The match of `\/node\/(\d+)` at `i`: where its digits end. */
  function NodeIdAt(s: String, i: nat): Option<nat> {
    DigitsAfter(s, Manshurat.NodeDir, i)
  }

  /** The digits after the leftmost `/node/` that has digits after it. */
  function ExtractNodeId(path: String): (r: Option<String>)
    ensures r.Some? ==> |r.value| > 0 && AllDigits(r.value)
  {
    var m := FirstMatch(path, 0, NodeIdAt);
    if m.None? then None else Some(path[m.value.0 + |Manshurat.NodeDir|..m.value.1])
  }

  /** What the extractor returns stands in the path right after `/node/`, as a whole run of digits. */
  lemma ExtractNodeIdSound(path: String) returns (i: nat)
    requires ExtractNodeId(path).Some?
    ensures var p := Manshurat.NodeDir + ExtractNodeId(path).value;
      OccursAt(path, p, i) && (i + |p| == |path| || !IsAsciiDigit(path[i + |p|]))
  {
    var m := FirstMatch(path, 0, NodeIdAt).value;
    i := m.0;
    assert path[i..m.1] == Manshurat.NodeDir + path[i + |Manshurat.NodeDir|..m.1];
  }

  /** `replace(/^-/, '')`: one leading dash dropped. */
  function DropLeadingDash(s: String): (r: String)
    ensures |s| - 1 <= |r| <= |s| && r == s[|s| - |r|..]
  {
    if |s| > 0 && s[0] == '-' then s[1..] else s
  }

  /** A page's node id: the `/node/` digits of its path, else the path with '/' made '-' and one leading '-' dropped. */
  function NodeIdOf(path: String): (r: String)
    ensures ExtractNodeId(path).Some? ==> |r| > 0 && AllDigits(r)
    ensures ExtractNodeId(path).None? ==> '/' !in r && |r| >= |path| - 1
  {
    var id := ExtractNodeId(path);
    if id.Some? then id.value
    else
      var t := ReplaceAll(path, "/", "-");
      ReplaceCharRemoves(path, '/', "-");
      ReplaceCharLength(path, '/', '-');
      assert forall k | 0 <= k < |DropLeadingDash(t)| :: DropLeadingDash(t)[k] == t[|t| - |DropLeadingDash(t)| + k];
      DropLeadingDash(t)
  }

  lemma {:induction false} ReplaceCharLength(s: String, c: char, d: char)
    ensures |ReplaceAll(s, [c], [d])| == |s|
    decreases |s|
  {
    if s != [] {
      ReplaceCharLength(s[1..], c, d);
    }
  }

  /** The leftmost match gives the extractor's result. */
  lemma ExtractNodeIdFound(s: String, i: nat, e: nat)
    requires NodeIdAt(s, i) == Some(e)
    requires forall j | 0 <= j < i :: NodeIdAt(s, j).None?
    ensures ExtractNodeId(s) == Some(s[i + |Manshurat.NodeDir|..e])
  {
  }

  /** `/node/` followed by a whole run of digits matches there. */
  lemma NodeIdAtDigits(s: String, i: nat, n: nat)
    requires OccursAt(s, Manshurat.NodeDir, i)
    requires n > 0 && i + |Manshurat.NodeDir| + n <= |s|
    requires AllDigits(s[i + |Manshurat.NodeDir|..i + |Manshurat.NodeDir| + n])
    requires i + |Manshurat.NodeDir| + n == |s| || !IsAsciiDigit(s[i + |Manshurat.NodeDir| + n])
    ensures NodeIdAt(s, i) == Some(i + |Manshurat.NodeDir| + n)
  {
    var d := i + |Manshurat.NodeDir|;
    assert forall k | d <= k < d + n :: s[k] == s[d..d + n][k - d];
    SpanUnique(s, d, IsAsciiDigit, d + n);
  }

  /** The digits of a `/node/` path are its node id, whatever follows them. */
  lemma NodeIdOfNodePath(prefix: String, digits: String, rest: String)
    requires '/' !in prefix
    requires |digits| > 0 && AllDigits(digits)
    requires rest == [] || !IsAsciiDigit(rest[0])
    ensures NodeIdOf(prefix + Manshurat.NodeDir + digits + rest) == digits
  {
    var s := prefix + Manshurat.NodeDir + digits + rest;
    var i := |prefix|;
    var d := i + |Manshurat.NodeDir|;
    assert s[i..d] == Manshurat.NodeDir;
    assert s[d..d + |digits|] == digits;
    if rest != [] {
      assert s[d + |digits|] == rest[0];
    }
    NodeIdAtDigits(s, i, |digits|);
    forall j | 0 <= j < i ensures NodeIdAt(s, j).None? {
      assert s[j] == prefix[j];
    }
    ExtractNodeIdFound(s, i, d + |digits|);
  }

  /** In a `/content/` path whose slug has no '/', the only slashes are the two of the directory. */
  lemma ContentPathSlashes(slug: String)
    requires '/' !in slug
    ensures forall k | 0 <= k < |Manshurat.ContentDir + slug| && (Manshurat.ContentDir + slug)[k] == '/' :: k == 0 || k == 8
  {
    var s := Manshurat.ContentDir + slug;
    forall k | 0 <= k < |s| && s[k] == '/' ensures k == 0 || k == 8 {
    }
  }

  lemma NodeDirSlashes(s: String, j: nat)
    ensures OccursAt(s, Manshurat.NodeDir, j) ==> s[j] == '/' && s[j + 5] == '/'
  {
    if OccursAt(s, Manshurat.NodeDir, j) {
      assert s[j..j + 6][0] == '/' && s[j..j + 6][5] == '/';
    }
  }

  /** A `/content/` path has no `/node/` digits. */
  lemma ContentPathNoNodeId(slug: String)
    requires '/' !in slug
    ensures ExtractNodeId(Manshurat.ContentDir + slug).None?
  {
    var s := Manshurat.ContentDir + slug;
    ContentPathSlashes(slug);
    forall j | 0 <= j <= |s| ensures NodeIdAt(s, j).None? {
      NodeDirSlashes(s, j);
    }
  }

  /** A `/content/` page is known by its slug behind "content-". */
  lemma NodeIdOfContentPath(slug: String)
    requires '/' !in slug
    ensures NodeIdOf(Manshurat.ContentDir + slug) == "content-" + slug
  {
    ContentPathNoNodeId(slug);
    ReplaceCharConcat(Manshurat.ContentDir, slug, '/', "-");
    ReplaceAllPrefix(slug, [], "/", "-");
    assert slug + [] == slug;
    ContentDirReplaced();
  }

  lemma ContentDirReplaced()
    ensures ReplaceAll(Manshurat.ContentDir, "/", "-") == "-content-"
  {
    assert Manshurat.ContentDir == ['/'] + "content" + ['/'];
    ReplaceAround('/', "content", "-");
  }

  /** A word between two occurrences of a character keeps its place between two replacements. */
  lemma ReplaceAround(c: char, w: String, rep: String)
    requires c !in w
    ensures ReplaceAll([c] + w + [c], [c], rep) == rep + w + rep
  {
    ReplaceCharConcat([c] + w, [c], c, rep);
    ReplaceCharConcat([c], w, c, rep);
    ReplaceAllPrefix(w, [], [c], rep);
    assert w + [] == w;
    assert [c][1..] == [];
  }

  /** Every page the listing yields has a node id. */
  lemma ListingPathHasNodeId(path: String)
    requires Manshurat.IsLawPath(path)
    ensures |NodeIdOf(path)| > 0
  {
    if ExtractNodeId(path).None? {
    }
  }

  // ---------------------------------------------------------------------
  // parseManshuratLawDetailHtml
  // ---------------------------------------------------------------------

  /**
   * What the location patterns of a law's page capture (group 1 of each
   * match, or None where the pattern finds nothing); the patterns that
   * find a field by its label are given as a capture per label.
   */
  datatype PageCaptures = PageCaptures(
    /** `field-name-title[^>]*>[\s\S]*?<h2>([^<]+)<\/h2>` */
    titleField: Option<String>,
    /** `<meta\s+property="og:title"\s+content="([^"]+)"` */
    ogTitle: Option<String>,
    /** `<title>([^|<]+)` */
    titleTag: Option<String>,
    /** The value after the `label-inline` division of a label, up to the next division. */
    inlineValue: String -> Option<String>,
    /** The value after the `label-above` division of a label, up to the next division. */
    aboveValue: String -> Option<String>,
    /** `href="(\/file\/\d+\/download\?token=[^"]+)"` */
    fileLink: Option<String>)

  const NumberFullLabel: String := "رقم الوثيقة/الدعوى"
  const NumberLabel: String := "رقم الوثيقة"
  const YearFullLabel: String := "سنة الإصدار/السنة القضائية"
  const YearLabel: String := "سنة الإصدار"
  const IssuedLabel: String := "تاريخ إصدار الوثيقة"
  const EffectiveLabel: String := "تاريخ العمل به"
  const PublishedLabel: String := "تاريخ النشر"
  const AuthorityLabel: String := "صفة المصدر"
  const IssuerLabel: String := "اسم المصدر"
  const SectorLabel: String := "القطاع"
  /** "By the law", the word that opens the second title pattern. */
  const Bilqanun: String := "بالقانون"

  /** A field's value as the two field extractors give it: the capture with tags stripped, or None when that leaves nothing. */
  function FieldValue(capture: Option<String>): (r: Option<String>)
    ensures r.Some? ==> r.value != [] && Trim(r.value) == r.value
  {
    if capture.None? then None
    else
      var v := StripTags(capture.value);
      if v == [] then None else Some(v)
  }

  function InlineField(page: PageCaptures, name: String): Option<String> {
    FieldValue(page.inlineValue(name))
  }

  function AboveField(page: PageCaptures, name: String): Option<String> {
    FieldValue(page.aboveValue(name))
  }

  /** JavaScript `a ?? b`. */
  function Otherwise<T>(a: Option<T>, b: Option<T>): Option<T> {
    if a.Some? then a else b
  }

  predicate IsNotBidiControl(c: char) {
    !IsBidiControl(c)
  }

  /** `.replace(BIDI_CONTROLS_REGEX, '').trim()`. */
  function Unmarked(s: String): (r: String)
    ensures Trim(r) == r && NoneSatisfy(r, IsBidiControl)
  {
    var f := StripBidi(s);
    TrimIdempotent(f);
    TrimKeepsAll(f, IsNotBidiControl);
    Trim(f)
  }

  /** The title from the node's title field: tags stripped, bidi controls dropped, trimmed. */
  function FieldTitle(capture: Option<String>): String {
    if capture.None? then "" else Unmarked(StripTags(capture.value))
  }

  /** The title from a meta tag or the `<title>` element: entities decoded, bidi controls dropped, trimmed. */
  function MetaTitle(capture: Option<String>): String {
    if capture.None? then "" else Unmarked(DecodeEntities(capture.value))
  }

  /** The page's title: the first of the title field, og:title and `<title>` that leaves something. */
  function TitleOf(page: PageCaptures): (r: String)
    ensures Trim(r) == r && NoneSatisfy(r, IsBidiControl)
  {
    var field := FieldTitle(page.titleField);
    if field != "" then field
    else
      var og := MetaTitle(page.ogTitle);
      if og != "" then og else MetaTitle(page.titleTag)
  }

  /** The number field, under its long label first. */
  function DocNumber(page: PageCaptures): (r: Option<String>)
    ensures r.Some? ==> r.value != [] && Trim(r.value) == r.value
  {
    Otherwise(InlineField(page, NumberFullLabel), InlineField(page, NumberLabel))
  }

  /** The year field, under its long label first. */
  function DocYear(page: PageCaptures): (r: Option<String>)
    ensures r.Some? ==> r.value != [] && Trim(r.value) == r.value
  {
    Otherwise(InlineField(page, YearFullLabel), InlineField(page, YearLabel))
  }

  /** A field's value trimmed with its digits made ASCII, or "" without one. */
  function StartValue(field: Option<String>): String {
    if field.None? then "" else NormalizeArabicDigits(Trim(field.value))
  }

  /** Where `p\s+` ends when it matches at `i`. */
  function SpacesAfter(s: String, p: String, i: nat): (r: Option<nat>)
    ensures r.Some? ==> OccursAt(s, p, i) && i + |p| < r.value <= |s|
  {
    if !OccursAt(s, p, i) then None
    else
      var j := Span(s, i + |p|, IsSpace);
      if j == i + |p| then None else Some(j)
  }

  /** What a title pattern captures: a law number and a four-digit year. */
  predicate IsNumberYear(v: (String, String)) {
    |v.0| > 0 && AllDigits(v.0) && |v.1| == 4 && AllDigits(v.1)
  }

  /** The match of `(\d+)\s+لسنة\s+(\d{4})` at `i`: the number and the year. */
  function NumberYearAt(s: String, i: nat): (r: Option<(String, String)>)
    ensures r.Some? ==> IsNumberYear(r.value)
  {
    if i >= |s| || !IsAsciiDigit(s[i]) then None
    else
      var k := Span(s, i, IsAsciiDigit);
      var l := Span(s, k, IsSpace);
      var m := SpacesAfter(s, Titles.Lisana, l);
      if l == k || m.None? || m.value + 4 > |s| || !AllDigits(s[m.value..m.value + 4]) then None
      else
        assert forall x | 0 <= x < k - i :: s[i..k][x] == s[i + x];
        Some((s[i..k], s[m.value..m.value + 4]))
  }

  /** The match of `رقم\s+(\d+)\s+لسنة\s+(\d{4})` at `i`. */
  function RaqmAt(s: String, i: nat): (r: Option<(String, String)>)
    ensures r.Some? ==> IsNumberYear(r.value)
  {
    var j := SpacesAfter(s, Titles.Raqm, i);
    if j.None? then None else NumberYearAt(s, j.value)
  }

  /**
   * The match of `بالقانون\s+(?:رقم\s+)?(\d+)\s+لسنة\s+(\d{4})` at `i`.
   * When the optional group matches, the text after "بالقانون" opens with
   * a letter, so giving the group up cannot lead to a match either.
   */
  function BilqanunAt(s: String, i: nat): (r: Option<(String, String)>)
    ensures r.Some? ==> IsNumberYear(r.value)
  {
    var j := SpacesAfter(s, Bilqanun, i);
    if j.None? then None
    else
      var k := SpacesAfter(s, Titles.Raqm, j.value);
      NumberYearAt(s, if k.Some? then k.value else j.value)
  }

  /** The number and year so far, with the empty ones filled from a title match. */
  function Fill(current: (String, String), found: Option<(nat, (String, String))>): (String, String) {
    if found.None? then current
    else
      (if current.0 == "" then found.value.1.0 else current.0,
       if current.1 == "" then found.value.1.1 else current.1)
  }

  /**
   * The law number and year: the page's fields, with what is missing read
   * from the title by the three patterns in turn. The source runs a
   * pattern only while something is missing; filling nothing is the same.
   */
  function NumbersOf(docNumber: Option<String>, docYear: Option<String>, title: String): (String, String) {
    var start := (StartValue(docNumber), StartValue(docYear));
    var t := NormalizeArabicDigits(title);
    Fill(Fill(Fill(start, FirstMatch(t, 0, RaqmAt)), FirstMatch(t, 0, BilqanunAt)), FirstMatch(t, 0, NumberYearAt))
  }

  function Min(a: nat, b: nat): nat {
    if a <= b then a else b
  }

  /** "Law N/Y" when both were found, else the title's first 60 characters. */
  function ShortName(title: String, number: String, year: String): (r: String)
    ensures number != "" && year != "" ==> r == "Law " + number + "/" + year
    ensures number == "" || year == "" ==> |r| == Min(60, |title|) && IsPrefix(r, title)
  {
    if number != "" && year != "" then "Law " + number + "/" + year else title[..Min(60, |title|)]
  }

  /** The record of a law's page, or None when the page has no title. */
  function LawDetailOf(html: String, page: PageCaptures, pagePath: String, baseUrl: String): (r: Option<ManshuratLawDetail>)
    ensures r.Some? <==> TitleOf(page) != ""
  {
    var title := TitleOf(page);
    if title == "" then None
    else
      var numbers := NumbersOf(DocNumber(page), DocYear(page), title);
      var nodeId := NodeIdOf(pagePath);
      var issued := DateOf(AboveField(page, IssuedLabel));
      var effective := DateOf(AboveField(page, EffectiveLabel));
      var published := DateOf(AboveField(page, PublishedLabel));
      var sector := InlineField(page, SectorLabel);
      Some(ManshuratLawDetail(
        nodeId := nodeId,
        titleAr := title,
        lawNumber := if numbers.0 != "" then numbers.0 else nodeId,
        lawYear := if numbers.1 != "" then numbers.1 else "unknown",
        shortName := ShortName(title, numbers.0, numbers.1),
        status := ParseStatus(html),
        issuedDate := Otherwise(issued, published),
        effectiveDate := Otherwise(effective, Otherwise(issued, published)),
        // `authority || issuerName`: a field value is never empty, so `||` is `??` here
        issuingAuthority := Otherwise(AboveField(page, AuthorityLabel), AboveField(page, IssuerLabel)),
        sector := sector,
        // `sector ? `${sector}` : undefined`
        description := sector,
        detailUrl := baseUrl + pagePath,
        pdfDownloadPath := page.fileLink))
  }

  /** The title fallbacks: the title field, then og:title, then `<title>`. */
  method FindTitle(page: PageCaptures) returns (titleAr: String)
    ensures titleAr == TitleOf(page)
  {
    titleAr := FieldTitle(page.titleField);
    if titleAr == "" {
      titleAr := MetaTitle(page.ogTitle);
    }
    if titleAr == "" {
      titleAr := MetaTitle(page.titleTag);
    }
  }

  /** One title pattern's match fills the number and the year that are still empty. */
  method FillMissing(number: String, year: String, found: Option<(nat, (String, String))>)
    returns (number': String, year': String)
    ensures (number', year') == Fill((number, year), found)
  {
    number', year' := number, year;
    if found.Some? {
      if number' == "" { number' := found.value.1.0; }
      if year' == "" { year' := found.value.1.1; }
    }
  }

  /** Once both are filled in, no match changes them. */
  lemma FillFull(current: (String, String), found: Option<(nat, (String, String))>)
    requires current.0 != "" && current.1 != ""
    ensures Fill(current, found) == current
  {
  }

  /** The number and year from the page's fields, then from the title while one is missing. */
  method FindNumbers(page: PageCaptures, titleAr: String) returns (lawNumber: String, lawYear: String)
    ensures (lawNumber, lawYear) == NumbersOf(DocNumber(page), DocYear(page), titleAr)
  {
    lawNumber := StartValue(DocNumber(page));
    lawYear := StartValue(DocYear(page));
    var titleNorm := NormalizeArabicDigits(titleAr);
    ghost var m1, m2, m3 := FirstMatch(titleNorm, 0, RaqmAt), FirstMatch(titleNorm, 0, BilqanunAt), FirstMatch(titleNorm, 0, NumberYearAt);
    ghost var numbers := (lawNumber, lawYear);
    if lawNumber == "" || lawYear == "" {
      lawNumber, lawYear := FillMissing(lawNumber, lawYear, FirstMatch(titleNorm, 0, RaqmAt));
    } else {
      FillFull(numbers, m1);
    }
    numbers := Fill(numbers, m1);
    assert (lawNumber, lawYear) == numbers;
    if lawNumber == "" || lawYear == "" {
      lawNumber, lawYear := FillMissing(lawNumber, lawYear, FirstMatch(titleNorm, 0, BilqanunAt));
    } else {
      FillFull(numbers, m2);
    }
    numbers := Fill(numbers, m2);
    assert (lawNumber, lawYear) == numbers;
    if lawNumber == "" || lawYear == "" {
      lawNumber, lawYear := FillMissing(lawNumber, lawYear, FirstMatch(titleNorm, 0, NumberYearAt));
    } else {
      FillFull(numbers, m3);
    }
  }

  /** `parseManshuratLawDetailHtml`: None without a title, else the record with every fallback applied. */
  method ParseManshuratLawDetailHtml(html: String, page: PageCaptures, pagePath: String, baseUrl: String)
    returns (r: Option<ManshuratLawDetail>)
    ensures r == LawDetailOf(html, page, pagePath, baseUrl)
  {
    var titleAr := FindTitle(page);
    if titleAr == "" {
      return None;
    }
    var lawNumber, lawYear := FindNumbers(page, titleAr);
    var nodeId := NodeIdOf(pagePath);
    var issuedDate := NormalizeDate(AboveField(page, IssuedLabel));
    var effectiveDate := NormalizeDate(AboveField(page, EffectiveLabel));
    var publishDate := NormalizeDate(AboveField(page, PublishedLabel));
    var authority := AboveField(page, AuthorityLabel);
    var issuerName := AboveField(page, IssuerLabel);
    var sector := InlineField(page, SectorLabel);
    var shortName := ShortName(titleAr, lawNumber, lawYear);

    r := Some(ManshuratLawDetail(
      nodeId := nodeId,
      titleAr := titleAr,
      lawNumber := if lawNumber != "" then lawNumber else nodeId,
      lawYear := if lawYear != "" then lawYear else "unknown",
      shortName := shortName,
      status := ParseStatus(html),
      issuedDate := Otherwise(issuedDate, publishDate),
      effectiveDate := Otherwise(effectiveDate, Otherwise(issuedDate, publishDate)),
      issuingAuthority := Otherwise(authority, issuerName),
      sector := sector,
      description := sector,
      detailUrl := baseUrl + pagePath,
      pdfDownloadPath := page.fileLink));
  }

  // ---------------------------------------------------------------------
  // What the record promises
  // ---------------------------------------------------------------------

  /** A record carries the page's title, non-empty, trimmed and free of bidi controls. */
  lemma RecordTitle(html: String, page: PageCaptures, pagePath: String, baseUrl: String)
    requires LawDetailOf(html, page, pagePath, baseUrl).Some?
    ensures var d := LawDetailOf(html, page, pagePath, baseUrl).value;
      d.titleAr == TitleOf(page) && d.titleAr != [] && Trim(d.titleAr) == d.titleAr && NoneSatisfy(d.titleAr, IsBidiControl)
  {
  }

  /** The title field is preferred to the meta title, and either to the `<title>` element. */
  lemma TitlePriority(page: PageCaptures)
    ensures FieldTitle(page.titleField) != "" ==> TitleOf(page) == FieldTitle(page.titleField)
    ensures FieldTitle(page.titleField) == "" && MetaTitle(page.ogTitle) != "" ==> TitleOf(page) == MetaTitle(page.ogTitle)
    ensures page.titleField.None? && page.ogTitle.None? && page.titleTag.None? ==> TitleOf(page) == ""
  {
  }

  /** A value already filled in stays; an empty one takes the match's. */
  lemma FillKeeps(current: (String, String), found: Option<(nat, (String, String))>)
    ensures current.0 != "" ==> Fill(current, found).0 == current.0
    ensures current.1 != "" ==> Fill(current, found).1 == current.1
  {
  }

  /** A page's field value is what the number or year starts from, and no title pattern overrides it. */
  lemma FieldNumbersWin(docNumber: Option<String>, docYear: Option<String>, title: String)
    requires docNumber.Some? ==> docNumber.value != [] && Trim(docNumber.value) == docNumber.value
    requires docYear.Some? ==> docYear.value != [] && Trim(docYear.value) == docYear.value
    ensures docNumber.Some? ==> NumbersOf(docNumber, docYear, title).0 == NormalizeArabicDigits(docNumber.value)
    ensures docYear.Some? ==> NumbersOf(docNumber, docYear, title).1 == NormalizeArabicDigits(docYear.value)
  {
    var start := (StartValue(docNumber), StartValue(docYear));
    var t := NormalizeArabicDigits(title);
    var f1 := Fill(start, FirstMatch(t, 0, RaqmAt));
    var f2 := Fill(f1, FirstMatch(t, 0, BilqanunAt));
    FillKeeps(start, FirstMatch(t, 0, RaqmAt));
    FillKeeps(f1, FirstMatch(t, 0, BilqanunAt));
    FillKeeps(f2, FirstMatch(t, 0, NumberYearAt));
  }

  /** The record's number and year come from the page's fields whenever it has them. */
  lemma RecordFieldNumbers(html: String, page: PageCaptures, pagePath: String, baseUrl: String)
    requires LawDetailOf(html, page, pagePath, baseUrl).Some?
    ensures var d := LawDetailOf(html, page, pagePath, baseUrl).value;
      (DocNumber(page).Some? ==> d.lawNumber == NormalizeArabicDigits(DocNumber(page).value)) &&
      (DocYear(page).Some? ==> d.lawYear == NormalizeArabicDigits(DocYear(page).value))
  {
    FieldNumbersWin(DocNumber(page), DocYear(page), TitleOf(page));
  }

  /** The text at `i` reads `N لسنة Y`, with single spaces. */
  ghost predicate NumberYearText(s: String, i: nat, n: String, y: String) {
    var k := i + |n|;
    k + 10 <= |s| && s[i..k] == n && s[k] == ' ' && OccursAt(s, Titles.Lisana, k + 1) && s[k + 5] == ' ' && s[k + 6..k + 10] == y
  }

  /** The tail `N لسنة Y` of a title is read as the number N and the year Y. */
  lemma NumberYearFound(s: String, i: nat, n: String, y: String)
    requires IsNumberYear((n, y)) && NumberYearText(s, i, n, y)
    ensures NumberYearAt(s, i) == Some((n, y))
  {
    var k := i + |n|;
    assert s[i] == s[i..k][0];
    assert forall x | i <= x < k :: s[x] == s[i..k][x - i];
    SpanUnique(s, i, IsAsciiDigit, k);
    assert s[k + 1] == s[k + 1..k + 5][0];
    SpanUnique(s, k, IsSpace, k + 1);
    assert s[k + 6] == s[k + 6..k + 10][0];
    SpanUnique(s, k + 5, IsSpace, k + 6);
  }

  /** `رقم N لسنة Y` is read as the number N and the year Y. */
  lemma RaqmFound(s: String, i: nat, n: String, y: String)
    requires IsNumberYear((n, y)) && OccursAt(s, Titles.Raqm, i) && i + 3 < |s| && s[i + 3] == ' '
    requires NumberYearText(s, i + 4, n, y)
    ensures RaqmAt(s, i) == Some((n, y))
  {
    assert s[i + 4] == s[i + 4..i + 4 + |n|][0];
    SpanUnique(s, i + 3, IsSpace, i + 4);
    NumberYearFound(s, i + 4, n, y);
  }

  /** The first pattern matches only where "رقم" starts. */
  lemma RaqmNeeds(s: String, j: nat)
    ensures RaqmAt(s, j).Some? ==> j < |s| && s[j] == Titles.Raqm[0]
  {
    if RaqmAt(s, j).Some? {
      assert s[j..j + 3][0] == s[j];
    }
  }

  /** `بالقانون N لسنة Y` is read by the second pattern without its optional "رقم". */
  lemma BilqanunFound(s: String, i: nat, n: String, y: String)
    requires IsNumberYear((n, y)) && OccursAt(s, Bilqanun, i) && i + |Bilqanun| < |s| && s[i + |Bilqanun|] == ' '
    requires NumberYearText(s, i + |Bilqanun| + 1, n, y)
    ensures BilqanunAt(s, i) == Some((n, y))
  {
    var j := i + |Bilqanun| + 1;
    assert s[j] == s[j..j + |n|][0];
    SpanUnique(s, i + |Bilqanun|, IsSpace, j);
    assert SpacesAfter(s, Bilqanun, i) == Some(j);
    RaqmSpacesNeed(s, j);
    NumberYearFound(s, j, n, y);
  }

  lemma RaqmSpacesNeed(s: String, j: nat)
    ensures SpacesAfter(s, Titles.Raqm, j).Some? ==> s[j] == Titles.Raqm[0]
  {
    if SpacesAfter(s, Titles.Raqm, j).Some? {
      assert s[j..j + 3][0] == s[j];
    }
  }

  /** Where the second pattern takes its optional "رقم", the first pattern matches at that "رقم" with the same result. */
  lemma BilqanunRaqm(s: String, i: nat)
    ensures var j := SpacesAfter(s, Bilqanun, i);
      j.Some? && SpacesAfter(s, Titles.Raqm, j.value).Some? ==> BilqanunAt(s, i) == RaqmAt(s, j.value)
  {
  }

  /** The leftmost "رقم" match is where the first "ر" of the title is. */
  lemma RaqmFirst(t: String, i: nat, v: (String, String))
    requires RaqmAt(t, i) == Some(v) && i <= |t|
    requires forall j | 0 <= j < i :: t[j] != Titles.Raqm[0]
    ensures FirstMatch(t, 0, RaqmAt) == Some((i, v))
  {
    forall j | 0 <= j < i ensures RaqmAt(t, j).None? {
      RaqmNeeds(t, j);
    }
    FirstMatchFound(t, 0, i, RaqmAt);
  }

  /** When the first pattern finds both, the others have nothing to add. */
  lemma NumbersFromRaqm(t: String, i: nat, v: (String, String))
    requires NormalizeArabicDigits(t) == t
    requires FirstMatch(t, 0, RaqmAt) == Some((i, v)) && v.0 != "" && v.1 != ""
    ensures NumbersOf(None, None, t) == v
  {
    FillFull(v, FirstMatch(t, 0, BilqanunAt));
    FillFull(v, FirstMatch(t, 0, NumberYearAt));
  }

  /**
   * A title reading `رقم N لسنة Y` at `i`, with no "ر" before it and no
   * Arabic-Indic digit anywhere, gives the number N and the year Y.
   */
  lemma TitleNumbers(t: String, i: nat, n: String, y: String)
    requires OccursAt(t, Titles.Raqm, i) && i + 3 < |t| && t[i + 3] == ' '
    requires NumberYearText(t, i + 4, n, y) && IsNumberYear((n, y))
    requires forall j | 0 <= j < i :: t[j] != Titles.Raqm[0]
    requires NoneSatisfy(t, IsIndicDigit)
    ensures NumbersOf(None, None, t) == (n, y)
  {
    Titles.DigitsNoOp(t);
    RaqmFound(t, i, n, y);
    RaqmFirst(t, i, (n, y));
    NumbersFromRaqm(t, i, (n, y));
  }

  /** The parts of a title `قانون رقم N لسنة Y` lie where the pattern reads them. */
  lemma TitleLayout(n: String, y: String)
    requires IsNumberYear((n, y))
    ensures var t := Titles.Qanun + " " + Titles.Raqm + " " + n + " " + Titles.Lisana + " " + y;
      OccursAt(t, Titles.Raqm, 6) && t[9] == ' ' && NumberYearText(t, 10, n, y) &&
      (forall j | 0 <= j < 6 :: t[j] != Titles.Raqm[0]) && NoneSatisfy(t, IsIndicDigit)
  {
    var a := Titles.Qanun + " " + Titles.Raqm + " ";
    var c := " " + Titles.Lisana + " ";
    var t := Titles.Qanun + " " + Titles.Raqm + " " + n + " " + Titles.Lisana + " " + y;
    assert t == a + n + c + y;
    var k := 10 + |n|;
    assert t[..10] == a && t[10..k] == n && t[k..k + 6] == c && t[k + 6..] == y;
    assert a[6..9] == Titles.Raqm && a[9] == ' ' && c[0] == ' ' && c[1..5] == Titles.Lisana && c[5] == ' ';
    assert NoneSatisfy(a, IsIndicDigit) && NoneSatisfy(c, IsIndicDigit);
    NoIndicConcat(a, n);
    NoIndicConcat(a + n, c);
    NoIndicConcat(a + n + c, y);
  }

  lemma NoIndicConcat(a: String, b: String)
    requires NoneSatisfy(a, IsIndicDigit) && NoneSatisfy(b, IsIndicDigit)
    ensures NoneSatisfy(a + b, IsIndicDigit)
  {
  }

  /** A page titled `قانون رقم N لسنة Y` without number or year fields is the law N of Y. */
  lemma RecordFromTitle(html: String, page: PageCaptures, pagePath: String, baseUrl: String, n: String, y: String)
    requires DocNumber(page).None? && DocYear(page).None?
    requires TitleOf(page) == Titles.Qanun + " " + Titles.Raqm + " " + n + " " + Titles.Lisana + " " + y
    requires IsNumberYear((n, y))
    ensures LawDetailOf(html, page, pagePath, baseUrl).Some?
    ensures var d := LawDetailOf(html, page, pagePath, baseUrl).value;
      d.lawNumber == n && d.lawYear == y && d.shortName == "Law " + n + "/" + y
  {
    TitleLayout(n, y);
    TitleNumbers(TitleOf(page), 6, n, y);
  }

  predicate IsNumberOrEmpty(n: String) {
    n == "" || (|n| > 0 && AllDigits(n))
  }

  predicate IsYearOrEmpty(y: String) {
    y == "" || (|y| == 4 && AllDigits(y))
  }

  /** Filling from a pattern's match keeps an empty or read number and year of the right shape. */
  lemma FillShape(current: (String, String), found: Option<(nat, (String, String))>)
    requires found.Some? ==> IsNumberYear(found.value.1)
    ensures IsNumberOrEmpty(current.0) ==> IsNumberOrEmpty(Fill(current, found).0)
    ensures IsYearOrEmpty(current.1) ==> IsYearOrEmpty(Fill(current, found).1)
  {
  }

  /** Without a page field, the number read from the title is digits, and the year four of them. */
  lemma TitleNumbersShape(docNumber: Option<String>, docYear: Option<String>, title: String)
    ensures docNumber.None? ==> IsNumberOrEmpty(NumbersOf(docNumber, docYear, title).0)
    ensures docYear.None? ==> IsYearOrEmpty(NumbersOf(docNumber, docYear, title).1)
  {
    var start := (StartValue(docNumber), StartValue(docYear));
    var t := NormalizeArabicDigits(title);
    var f1 := Fill(start, FirstMatch(t, 0, RaqmAt));
    var f2 := Fill(f1, FirstMatch(t, 0, BilqanunAt));
    FillShape(start, FirstMatch(t, 0, RaqmAt));
    FillShape(f1, FirstMatch(t, 0, BilqanunAt));
    FillShape(f2, FirstMatch(t, 0, NumberYearAt));
  }

  /** Without page fields, the record's number is digits or the node id, and its year four digits or "unknown". */
  lemma RecordNumbersShape(html: String, page: PageCaptures, pagePath: String, baseUrl: String)
    requires LawDetailOf(html, page, pagePath, baseUrl).Some?
    ensures var d := LawDetailOf(html, page, pagePath, baseUrl).value;
      (DocNumber(page).None? ==> (|d.lawNumber| > 0 && AllDigits(d.lawNumber)) || d.lawNumber == d.nodeId) &&
      (DocYear(page).None? ==> (|d.lawYear| == 4 && AllDigits(d.lawYear)) || d.lawYear == "unknown")
  {
    TitleNumbersShape(DocNumber(page), DocYear(page), TitleOf(page));
  }

  /** The short name is "Law N/Y" of the record's own number and year, or the title's first 60 characters. */
  lemma RecordShortName(html: String, page: PageCaptures, pagePath: String, baseUrl: String)
    requires LawDetailOf(html, page, pagePath, baseUrl).Some?
    ensures var d := LawDetailOf(html, page, pagePath, baseUrl).value;
      d.shortName == "Law " + d.lawNumber + "/" + d.lawYear ||
      (|d.shortName| == Min(60, |d.titleAr|) && IsPrefix(d.shortName, d.titleAr))
  {
  }

  /**
   * The dates are ISO; the issued date falls back to the publication
   * date, and the effective date to the issued one, so a record without
   * an effective date has no other date either.
   */
  lemma RecordDates(html: String, page: PageCaptures, pagePath: String, baseUrl: String)
    requires LawDetailOf(html, page, pagePath, baseUrl).Some?
    ensures var d := LawDetailOf(html, page, pagePath, baseUrl).value;
      (d.issuedDate.Some? ==> IsIsoDate(d.issuedDate.value)) &&
      (d.effectiveDate.Some? ==> IsIsoDate(d.effectiveDate.value)) &&
      (d.effectiveDate.None? ==> d.issuedDate.None?) &&
      (DateOf(AboveField(page, EffectiveLabel)).None? ==> d.effectiveDate == d.issuedDate) &&
      (DateOf(AboveField(page, EffectiveLabel)).Some? ==> d.effectiveDate == DateOf(AboveField(page, EffectiveLabel))) &&
      d.issuedDate == (if DateOf(AboveField(page, IssuedLabel)).Some? then DateOf(AboveField(page, IssuedLabel))
                       else DateOf(AboveField(page, PublishedLabel)))
  {
  }

  /** A record always has a year, a listed page always a number, and the description is the sector. */
  lemma RecordFields(html: String, page: PageCaptures, pagePath: String, baseUrl: String)
    requires LawDetailOf(html, page, pagePath, baseUrl).Some?
    ensures var d := LawDetailOf(html, page, pagePath, baseUrl).value;
      d.lawYear != "" && (Manshurat.IsLawPath(pagePath) ==> d.lawNumber != "") &&
      d.nodeId == NodeIdOf(pagePath) && d.description == d.sector && d.detailUrl == baseUrl + pagePath &&
      d.status == ParseStatus(html)
  {
    if Manshurat.IsLawPath(pagePath) {
      ListingPathHasNodeId(pagePath);
    }
  }
}
