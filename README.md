# Egyptian law ingestion parsers, modelled in Dafny

This project models the text-processing core of a pipeline that ingests
Egyptian legislation from two sources. The first is the investment portal,
whose laws come as PDF text. The second is the legal archive at
manshurat.org, whose laws come as HTML pages. Strings are sequences of
characters, regular expressions become hand-written recognisers that follow
the engine's backtracking order, and the HTML location patterns of the
archive's law pages become inputs.

On the portal side (`scripts/lib/parser.ts`) the model covers these stages:

- **Normalising PDF text.** Arabic presentation forms (Forms-A and Forms-B)
  become base letters, Lam-Alef and the other two-letter ligatures are
  expanded, and Tatweel and bidi controls are deleted. Arabic-Indic and
  extended Arabic-Indic digits become ASCII (modules `ArabicNormalizer`
  and `TextBasics`).
- **Recognising headings** on one line (module `Headings`). Four kinds are
  tried in turn: a numeric Arabic heading, an ordinal-word heading, a
  permissive bare ordinal and an English `Article N`.
- **Provision references** (module `Provisions`). A slug-based
  `art…` reference is made unique within an act with `-2`, `-3` suffixes.
- **Definitions** (module `Definitions`). "يقصد ب… : …" definitions are
  extracted from a provision.
- **Assembling the act** (modules `Seed` and `Titles`). This covers
  heading collection, provision blocks, the title choice and the act record.
- **Small helpers** (modules `Portal` and `Html`): entity decoding, tag
  stripping, the date normaliser, the choice of a law's primary
  attachment and the law ids of a category page.

On the archive side (`scripts/lib/manshurat-parser.ts`) the model covers
these parts:

- the law paths of a listing page and the listing's last page number
  (module `Manshurat`);
- the date normaliser for Arabic month names and the numeric forms
  (module `ManshuratDates`);
- the status, the node id, and the field-fallback logic that assembles a
  law's record from its page (module `ManshuratLaw`).

The record types the parsers produce are in module `Laws`, and the date
shapes both normalisers share are in `Dates`.

Operations that loop or update state step by step in the source are
methods, each proved equal to a specification function. The loops carry
invariants; `BuildSeedFromPdfText` calls the loops of its steps, and
`ParseManshuratLawDetailHtml` reassigns its fields one fallback at a time:

- `NormalizePresentationForms`;
- `ExtractDefinitions`;
- `CollectSections`, `TrimBlankLines` and `AssembleProvisions`;
- `BuildSeedFromPdfText`;
- `ExtractLawIdsFromCategoryHtml`;
- `ExtractLawPathsFromListingHtml`;
- the archive's `NormalizeDate`;
- `ParseManshuratLawDetailHtml`.

The lemmas then state what the source promises about those functions.

## Model

| member | source | states |
|---|---|---|
| ArabicNormalizer.NormalizePresentationForms | scripts/lib/parser.ts:63-223 | the loop's result is every code unit's expansion, concatenated in order |
| ArabicNormalizer.AppendedFor | scripts/lib/parser.ts:181-220 | one loop iteration appends exactly the code unit's expansion, branch by branch |
| ArabicNormalizer.TablesProduceBaseLetters | scripts/lib/parser.ts:66-178 | every FORMS_B and FORMS_A entry maps to a base Arabic letter; every LIGATURE_DECOMP entry maps to two base letters; none of them to Tatweel |
| ArabicNormalizer.ExpandLamAlef | scripts/lib/parser.ts:194-199 | U+FEF5..FEFC become Lam followed by Alef-madda, hamza-above, hamza-below or plain Alef, by sub-range |
| ArabicNormalizer.ExpandShapes | scripts/lib/parser.ts:180-222 | Tatweel is deleted; a code unit outside both presentation blocks passes through unchanged; a rewritten one yields at most two base letters |
| ArabicNormalizer.NoTatweel | scripts/lib/parser.ts:185 | no Tatweel survives normalisation |
| ArabicNormalizer.NormalizedLength | scripts/lib/parser.ts:180-222 | the output is at most twice as long as the input |
| ArabicNormalizer.ExpandOutputIsFixed | scripts/lib/parser.ts:180-222 | every character the normaliser emits is left as it is by a second pass |
| ArabicNormalizer.PresentationFormsIdempotent | scripts/lib/parser.ts:63-223 | normalising normalised text changes nothing |
| ArabicNormalizer.NormalizeArabicDigits | scripts/lib/parser.ts:246-250 | the digit rewrite preserves length |
| ArabicNormalizer.DigitsByOffset | scripts/lib/manshurat-parser.ts:49-53 | each Arabic-Indic or extended Arabic-Indic digit becomes the ASCII digit of the same value; every other character is unchanged; no Indic digit remains |
| ArabicNormalizer.DigitsIdempotent | scripts/lib/parser.ts:246-250 | normalising digits twice is normalising them once |
| ArabicNormalizer.DigitsConcat | scripts/lib/parser.ts:246-250 | the digit rewrite works character by character, so it distributes over concatenation |
| ArabicNormalizer.NormalizedKeepsAbsence | scripts/lib/parser.ts:180-222 | the presentation-form pass creates no character that is not a base letter |
| ArabicNormalizer.NormalizePdfText | scripts/lib/parser.ts:493-500 | normalised PDF text holds no carriage return, form feed, bidi control (the set at line 54) or Tatweel |
| Html.DecodeNamedEntitiesPlain | scripts/lib/parser.ts:229-240 | text without `&` is left as it is by the chained entity replaces |
| Html.DecodeNamedEntities | scripts/lib/parser.ts:229-240 | the chained entity replaces never lengthen the text |
| Html.DecodeEntities | scripts/lib/parser.ts:229-240 | the corrected one-pass decoder never lengthens the text |
| Html.DecodeNamedEntitiesTwice | scripts/lib/parser.ts:229-240 | the chained replaces decode the escaped text `&amp;lt;` to `<`, where a one-pass decoder gives `&lt;` (see Findings) |
| Html.DecodeEscape | scripts/lib/parser.ts:229-240 | the corrected one-pass decoder of the finding below undoes HTML escaping for every text |
| Html.DecodeEntitiesPlain | scripts/lib/parser.ts:229-240 | the corrected one-pass decoder of the finding below leaves text without `&` as it is |
| Html.RemoveTagsPlain | scripts/lib/parser.ts:242-244 | text without `<` holds no tag and is left as it is |
| Html.RemoveTagsTag | scripts/lib/manshurat-parser.ts:32-34 | a tag after plain text becomes exactly one space |
| Html.RemoveTags | scripts/lib/parser.ts:243 | replacing every tag by a space never lengthens the text |
| Html.RemoveTagsKeeps | scripts/lib/parser.ts:243 | tag removal creates no character other than a space |
| Html.StripTags | scripts/lib/parser.ts:242-244 | stripped text, decoded one pass, is trimmed, single-spaced and holds no whitespace other than plain spaces |
| Html.StripTagsAsWritten | scripts/lib/parser.ts:242-244 | the same holds with the chained decoder the source calls |
| Html.StripTagsAgree | scripts/lib/parser.ts:229-244 | on text without `&` both decoders strip to the same text |
| Html.StripTagsDiffer | scripts/lib/parser.ts:229-244 | on the escaped text `&amp;lt;` they differ: one pass gives `&lt;`, the chained replaces give `<` |
| Dates.Pad2 | scripts/lib/parser.ts:258-259 | `padStart(2, '0')`: a string of two or more characters is kept; a shorter one is left-filled with zeros to length 2; digits stay digits |
| Dates.IsoDateShape | scripts/lib/parser.ts:260 | a four-digit year with a two-digit month and day gives a `YYYY-MM-DD` date from which all three read back |
| Dates.Pad2Number | scripts/lib/manshurat-parser.ts:117 | padding a one- or two-digit number gives two digits of the same value |
| Dates.SlashDatePartsComplete | scripts/lib/parser.ts:255 | `YYYY/M/D` is split into exactly its year, month and day |
| Dates.DotsToSlashesDate | scripts/lib/parser.ts:254 | either separator becomes a slash and the digits around it stay |
| Dates.YearFirstDateReads | scripts/lib/manshurat-parser.ts:113-118 | every year-first date with slashes or dots is read with its month and day padded |
| Dates.YearFirstDateRejectsIso | scripts/lib/manshurat-parser.ts:113-118 | a date already written `YYYY-MM-DD` is not recognised |
| Dates.DayMonthYearAt | scripts/lib/manshurat-parser.ts:121 | a match of `(\d{1,2})\/(\d{1,2})\/(\d{4})` is that text at that position, with parts of the right lengths |
| Dates.DayMonthYearFound | scripts/lib/manshurat-parser.ts:121 | wherever `D/M/YYYY` occurs, the match there reads exactly those parts |
| Dates.DayWordYearFound | scripts/lib/manshurat-parser.ts:104 | wherever day, whitespace, a word, whitespace and a year occur, the match there finds them |
| Definitions.ExtractDefinitions | scripts/lib/parser.ts:502-520 | the `regex.exec` loop returns exactly the definitions of every match of the global search, in order |
| Definitions.NextMatch | scripts/lib/parser.ts:511 | the next match is the leftmost position from which the pattern matches |
| Definitions.CueOpensTerm | scripts/lib/parser.ts:508 | every match opens with يقصد |
| Definitions.TermGroupShape | scripts/lib/parser.ts:508-512 | the trimmed term is trimmed and opens with the cue يقصد |
| Definitions.DefinitionGroupShape | scripts/lib/parser.ts:508-513 | the trimmed second group is trimmed, on one line, and at most 600 characters long |
| Definitions.KeptShape | scripts/lib/parser.ts:512-516 | a kept definition has a trimmed term of more than 2 characters, a definition of more than 8, and the owning provision as source |
| Definitions.Definitions | scripts/lib/parser.ts:502-520 | every definition is well formed and cites the provision; the result is empty unless the content holds يقصد, تعني or المقصود, and empty whenever it lacks يقصد |
| Headings.TokenIdempotent | scripts/lib/parser.ts:404-412 | normalising a token twice is normalising it once |
| Headings.NormalizeArabicToken | scripts/lib/parser.ts:404-412 | a normalised token holds only Arabic-script letters, ASCII letters and digits: no whitespace, no haraka, and none of the hamza-Alef forms, Alef-maqsura or Teh-marbuta that are unified away |
| Headings.FirstContained | scripts/lib/parser.ts:416-419 | the lookup succeeds exactly when some table word occurs in the token, and returns the value of the first such word in table order |
| Headings.ParseSectionFromOrdinalWords | scripts/lib/parser.ts:414-422 | an ordinal lookup yields the decimal label of a number from 1 to 10, the values of the table at lines 369-402 |
| Headings.UnreachableOrdinalEntries | scripts/lib/parser.ts:369-402 | a table word containing a letter the token normaliser removes can never be found |
| Headings.TwelfthReadsAsSecond | scripts/lib/parser.ts:414-422 | "الثانية عشرة" (the twelfth) reads as section 2, because lookup is by substring in table order |
| Headings.ThalithaReadsAsThird | scripts/lib/parser.ts:369-422 | "الثالثة" (the third) reads as section 3 |
| Headings.ReplaceHaddaNeedsWordChars | scripts/lib/parser.ts:437 | a line without ASCII word characters is never OCR-corrected, because `\b` is ASCII-only |
| Headings.ReplaceHaddaFlanked | scripts/lib/parser.ts:437 | الحادة between two ASCII word characters becomes المادة |
| Headings.ReplaceHadda | scripts/lib/parser.ts:436-438 | the OCR correction keeps the line's length and changes nothing on a line without ASCII word characters |
| Headings.StrictNumericHeading | scripts/lib/parser.ts:444-446 | a strict numeric match gives a label of digits and digit-free text that opens the line at its first ASCII letter or digit |
| Headings.PermissiveNumericHeading | scripts/lib/parser.ts:441-443 | a permissive numeric match gives such a label too |
| Headings.NumberCaptureShape | scripts/lib/parser.ts:441-446 | the captured number with its optional مكرر and letter is a digit run followed by digit-free text |
| Headings.EnglishHeading | scripts/lib/parser.ts:473-476 | a match needs the line to open with `article` in any case; it gives a space-free digit label that opens the text after the spaces following that word |
| Headings.EnglishHeadingReads | scripts/lib/parser.ts:473-476 | after `article` and any spaces, the label is exactly the digit run and the letters after it |
| Headings.ArticleNumber | scripts/lib/parser.ts:473-476 | `Article N` followed by letters L gives the label N followed by L |
| Headings.OrdinalHeading | scripts/lib/parser.ts:455-457 | the ordinal capture has 3 to 31 characters and does not open with a digit |
| Headings.NumericBranch | scripts/lib/parser.ts:440-449 | the numeric branch yields a section label, and nothing in permissive mode when the line has more than 50 characters |
| Headings.NumericBranchValue | scripts/lib/parser.ts:440-449 | a numeric label is the tidied capture taken at the line's first ASCII letter or digit, which is a digit, and opens with that digit run |
| Headings.OrdinalBranch | scripts/lib/parser.ts:453-471 | the ordinal branches yield a number from 1 to 10; in strict mode, or for lines over 40 characters, only through the `مادة` capture |
| Headings.EnglishBranch | scripts/lib/parser.ts:473-476 | the trim of the English capture changes nothing: the branch returns that capture |
| Headings.ParseArticleSection | scripts/lib/parser.ts:424-479 | every label the recogniser returns is a digit run followed by digit-free text, whichever branch produced it |
| Headings.ParseArticleSectionOrder | scripts/lib/parser.ts:424-479 | on the normalised and OCR-corrected line, a numeric label wins over an ordinal one, and either over an English one |
| Headings.KeywordNumberHeading | scripts/lib/parser.ts:440-449 | "المادة N" gives the label N in strict mode, and in permissive mode while the line has at most 50 characters |
| Headings.FifthArticle | scripts/lib/parser.ts:424-479 | "المادة 5" gives "5" |
| Headings.ThirdArticle | scripts/lib/parser.ts:424-479 | "المادة الثالثة" gives "3" in both modes |
| Headings.PermissiveWithinStrict | scripts/lib/parser.ts:441-446 | whatever the permissive pattern accepts, the strict one accepts with the same capture |
| Headings.StrictIgnoresTrailingText | scripts/lib/parser.ts:444-446 | the strict pattern has no end anchor: text appended to a heading keeps it a heading |
| Headings.PermissiveRejectsTrailingWord | scripts/lib/parser.ts:441-443 | the permissive pattern is end-anchored: an ASCII letter appended to a heading makes it no heading |
| Headings.LeadingTextSwallowed | scripts/lib/parser.ts:444-446 | `^[\W_]*` swallows any leading text without ASCII letters or digits, Arabic words included, and the heading reads the same |
| Headings.LabelTidy | scripts/lib/parser.ts:448 | collapsing whitespace and trimming keeps a label's digit run |
| Provisions.SlugOfLabel | scripts/lib/parser.ts:481-491 | the slug of a recognised heading label starts with that label's digits |
| Provisions.Slug | scripts/lib/parser.ts:481-490 | every slug is made of `[a-z0-9-]`, with no repeated, leading or trailing hyphens |
| Provisions.BuildProvisionRef | scripts/lib/parser.ts:481-491 | a reference is "art" and a non-empty slug: the section's slug when it has one, otherwise the digits of the heading's index |
| Provisions.ProvisionRefOfLabel | scripts/lib/parser.ts:481-491 | the reference of a recognised label is "art" and its slug, starting with the label's digits and never ending in a `-k` suffix |
| Provisions.ProvisionRef | scripts/lib/parser.ts:574-577 | the first use of a base keeps it; the k-th use appends `-k` |
| Provisions.ProvisionRefInjective | scripts/lib/parser.ts:574-577 | distinct base and count pairs give distinct references when no base ends in a `-k` suffix |
| Provisions.SuffixedIsHyphenNumbered | scripts/lib/parser.ts:574-577 | a reference used for the second time or later always ends in `-k` |
| Seed.CollectSections | scripts/lib/parser.ts:547-557 | the loop collects, in line order, exactly the lines the recogniser labels |
| Seed.SectionsLabelled | scripts/lib/parser.ts:547-557 | each collected heading carries its line's label |
| Seed.SectionsIncreasing | scripts/lib/parser.ts:547-557 | the headings are in strictly increasing line order |
| Seed.SectionsComplete | scripts/lib/parser.ts:547-557 | no recognised line is missed |
| Seed.TrimBlankLines | scripts/lib/parser.ts:568-571 | the `shift` and `pop` loops drop exactly the leading and trailing blank lines |
| Seed.BlockText | scripts/lib/parser.ts:564-571 | a provision's text is the lines after its heading up to the next heading, with blank edge lines dropped, joined and trimmed |
| Seed.BlockContentIsTrimmedSlice | scripts/lib/parser.ts:564-571 | that text equals the trimmed join of the lines strictly between the two headings |
| Seed.NumberRef | scripts/lib/parser.ts:574-577 | a reference is numbered by its base's earlier uses, and the seen-count map records one more use |
| Seed.AddProvision | scripts/lib/parser.ts:574-587 | one kept block becomes the next provision and adds its definitions, keeping the seen-counts in step |
| Seed.AssembleProvisions | scripts/lib/parser.ts:563-588 | the loop yields a provision for each heading whose text has at least 10 characters, in heading order, plus their definitions |
| Seed.KeptBlocksShape | scripts/lib/parser.ts:572 | every kept block has at least 10 characters and the blocks follow the headings' order |
| Seed.KeptBlocksComplete | scripts/lib/parser.ts:572 | every heading whose text has at least 10 characters yields a block |
| Seed.RefsDistinct | scripts/lib/parser.ts:574-577 | numbering bases by earlier uses makes all references distinct |
| Seed.ProvisionRefsDistinct | scripts/lib/parser.ts:574-585 | within one act the provision references are pairwise distinct |
| Seed.ContentTrimmed | scripts/lib/parser.ts:571 | a provision's text has no whitespace at either end |
| Seed.DefinitionsOfSources | scripts/lib/parser.ts:587 | each collected definition is well formed and cites a provision of the act |
| Seed.BuildSeedFromPdfText | scripts/lib/parser.ts:529-625 | the builder returns the act, or none when the text has no heading or no provision survives |
| Seed.SeedOf | scripts/lib/parser.ts:529-625 | an act is returned if and only if some heading's text has at least 10 characters; a returned act has at least one provision, distinct references, labelled provisions with trimmed text of at least 10 characters, and well-formed definitions citing its provisions |
| Seed.ActOf | scripts/lib/parser.ts:594-624 | the act's id starts with the law's number and year, its status and dates are the portal's, it holds the given provisions and definitions, and unless the caller turns the preference off its title mentions the law's number and year, digits normalised |
| Seed.ProvisionsExistIff | scripts/lib/parser.ts:563-592 | provisions come out if and only if some heading's text has at least 10 characters |
| Seed.ActIdDeterminesLaw | scripts/lib/parser.ts:606-607 | for numbers and years written in digits, the act id determines the law's number and year |
| Titles.TitleStart | scripts/lib/parser.ts:523 | the title match is the leftmost position where `قانون … رقم … لسنة YYYY` matches |
| Titles.TidyTitleShape | scripts/lib/parser.ts:524-526 | a tidied title opens with قانون, is trimmed, single-spaced and has ASCII digits only |
| Titles.TitleOfTextShape | scripts/lib/parser.ts:522-527 | a parsed title has that shape |
| Titles.TidyTitle | scripts/lib/parser.ts:524-526 | a tidied title is trimmed, single-spaced, holds plain spaces only and no Arabic-Indic digit |
| Titles.ParseArabicTitleFromPdf | scripts/lib/parser.ts:522-527 | a parsed title opens with قانون, is trimmed, single-spaced and has ASCII digits only |
| Titles.ResolveTitle | scripts/lib/parser.ts:594-604 | the chosen title is always the parsed one or the canonical one |
| Titles.CanonicalNamesLaw | scripts/lib/parser.ts:600-601 | the canonical title mentions the law's number and year |
| Titles.PreferredTitleNamesLaw | scripts/lib/parser.ts:594-604 | when the canonical title is preferred, the chosen title always mentions the number and year |
| Titles.NumberInsideYearAccepted | scripts/lib/parser.ts:596-598 | containment is by substring: a title naming the year is accepted for any law number that occurs inside that year |
| Portal.NormalizeDateReads | scripts/lib/parser.ts:252-261 | every `YYYY/M/D` or `YYYY.M.D` date amid whitespace is read with month and day padded |
| Portal.NormalizeDateRejectsIso | scripts/lib/parser.ts:252-261 | an ISO date is not recognised, so normalising is not idempotent |
| Portal.NormalizeDate | scripts/lib/parser.ts:252-261 | every result is an ISO date |
| Portal.SelectPrimaryAttachment | scripts/lib/parser.ts:352-367 | an attachment is chosen exactly when there is one, and it is one of them |
| Portal.SelectPrimaryPrefersPrimary | scripts/lib/parser.ts:352-367 | the first attachment that is not an update, executive regulation or amendment is chosen |
| Portal.SelectPrimaryFallsBack | scripts/lib/parser.ts:352-367 | when every attachment is secondary the first one is chosen |
| Portal.LawIdsSound | scripts/lib/parser.ts:288-298 | every id found is the number of a `/publiclaws/details/N` match |
| Portal.LawIdsComplete | scripts/lib/parser.ts:288-298 | the number of every match is found |
| Portal.SortIds | scripts/lib/parser.ts:297 | the ids come out in increasing order, each once, and are exactly the set's members |
| Portal.ExtractLawIdsFromCategoryHtml | scripts/lib/parser.ts:288-298 | the loop returns exactly the ids of the matches, increasing and without repeats |
| Manshurat.ExtractLawPathsFromListingHtml | scripts/lib/manshurat-parser.ts:59-72 | the loop returns exactly the paths the global search records |
| Manshurat.AddPath | scripts/lib/manshurat-parser.ts:67-69 | a path is added unless it is the excluded link or already held |
| Manshurat.ListingPathsSound | scripts/lib/manshurat-parser.ts:59-72 | every listed path is a `/content/` or `/node/` path captured by a match at a position the search reaches, and never the "shrk-fy-ttwyr" link |
| Manshurat.ListingPathsComplete | scripts/lib/manshurat-parser.ts:59-72 | the path of every match at a position the search reaches is listed unless it is the excluded link; a position is reached when the `exec` loop, stepping past positions without a match and resuming after each match's closing quote, tries a match there |
| Manshurat.ListingReachesClosed | scripts/lib/manshurat-parser.ts:60-71 | a position is reached whenever every match starting before it closes before it |
| Manshurat.ListingSkipsInside | scripts/lib/manshurat-parser.ts:60-71 | a position the search does not reach lies inside a match it takes, between that match's start and its closing quote |
| Manshurat.ListingDistinct | scripts/lib/manshurat-parser.ts:59-72 | no path is listed twice |
| Manshurat.ListingKeeps | scripts/lib/manshurat-parser.ts:60-71 | the search keeps the paths held so far, in front and in first-seen order |
| Manshurat.PageHrefFound | scripts/lib/manshurat-parser.ts:78 | a `?page=N` link is read with exactly its digits |
| Manshurat.PagerSound | scripts/lib/manshurat-parser.ts:78 | what the pager recogniser finds is a `pager-last` marker, an anchor and a page link |
| Manshurat.PagerFound | scripts/lib/manshurat-parser.ts:78 | `[^>]*` backtracks to the last page link before the next `>`, and that link is found |
| Manshurat.PathAt | scripts/lib/manshurat-parser.ts:62 | a path match opens with `href="` and ends at a closing quote after at least one path character |
| Manshurat.ExtractLastPageNumber | scripts/lib/manshurat-parser.ts:77-83 | without the `pager-last` marker the number is 0 |
| Manshurat.LastPageNumberOfMatch | scripts/lib/manshurat-parser.ts:77-83 | the number returned is that of the leftmost pager match's link |
| ManshuratDates.MonthTable | scripts/lib/manshurat-parser.ts:89-95 | every month number is two digits and every name is Arabic letters |
| ManshuratDates.FirstMonth | scripts/lib/manshurat-parser.ts:102-103 | the month is that of the first table name the text contains |
| ManshuratDates.NormalizeDate | scripts/lib/manshurat-parser.ts:85-127 | the month loop with early return and the two numeric forms give the specified date |
| ManshuratDates.DateOfClean | scripts/lib/manshurat-parser.ts:101-127 | every result is a `YYYY-MM-DD` date |
| ManshuratDates.CleanDateKeeps | scripts/lib/manshurat-parser.ts:97-99 | the cleaning leaves a tidy date text as it is |
| ManshuratDates.DateDayFirst | scripts/lib/manshurat-parser.ts:120-124 | `D/M/YYYY` reads day first, with month and day padded |
| ManshuratDates.DateYearFirst | scripts/lib/manshurat-parser.ts:113-118 | `YYYY/M/D` and `YYYY.M.D` read year first, with month and day padded |
| ManshuratDates.DateWorded | scripts/lib/manshurat-parser.ts:102-111 | `D <month> YYYY` reads with the number of the first table name the text contains |
| ManshuratDates.DateWithoutDigits | scripts/lib/manshurat-parser.ts:85-127 | a value without digits of either system gives no date |
| ManshuratLaw.ParseStatus | scripts/lib/manshurat-parser.ts:155-162 | the page is in force exactly when its lowercased text contains no marker of repeal, amendment or not-yet-in-force |
| ManshuratLaw.StatusGrows | scripts/lib/manshurat-parser.ts:155-162 | more text, on either side, never makes the status less severe |
| ManshuratLaw.RepealWins | scripts/lib/manshurat-parser.ts:158 | a repeal marker anywhere makes the page repealed |
| ManshuratLaw.StatusIgnoresCase | scripts/lib/manshurat-parser.ts:156 | the status does not depend on the case of ASCII letters |
| ManshuratLaw.ExtractNodeId | scripts/lib/manshurat-parser.ts:167-172 | a node id is a non-empty run of ASCII digits |
| ManshuratLaw.ExtractNodeIdSound | scripts/lib/manshurat-parser.ts:167-172 | the id stands in the path right after `/node/`, as a whole run of digits |
| ManshuratLaw.ExtractNodeIdFound | scripts/lib/manshurat-parser.ts:169-170 | the leftmost `/node/` followed by digits gives the id |
| ManshuratLaw.NodeIdOfNodePath | scripts/lib/manshurat-parser.ts:239 | the digits of a `/node/N…` path are its node id |
| ManshuratLaw.NodeIdOf | scripts/lib/manshurat-parser.ts:239 | with `/node/` digits the id is a non-empty digit run; without them it holds no '/' and loses at most one character |
| ManshuratLaw.NodeIdOfContentPath | scripts/lib/manshurat-parser.ts:239 | a `/content/slug` page's node id is `content-slug` |
| ManshuratLaw.ListingPathHasNodeId | scripts/lib/manshurat-parser.ts:239 | every page the listing yields has a non-empty node id |
| ManshuratLaw.FieldValue | scripts/lib/manshurat-parser.ts:129-153 | a field value is non-empty and trimmed |
| ManshuratLaw.TitleOf | scripts/lib/manshurat-parser.ts:183-199 | the title is trimmed and free of bidi controls |
| ManshuratLaw.TitlePriority | scripts/lib/manshurat-parser.ts:183-200 | the title field wins over og:title, and either over `<title>`; with none of them the title is empty |
| ManshuratLaw.FindTitle | scripts/lib/manshurat-parser.ts:183-200 | the fallback steps give the specified title |
| ManshuratLaw.DocNumber | scripts/lib/manshurat-parser.ts:203-204 | the number field is non-empty and trimmed when present |
| ManshuratLaw.DocYear | scripts/lib/manshurat-parser.ts:205-206 | the year field is non-empty and trimmed when present |
| ManshuratLaw.NumberYearAt | scripts/lib/manshurat-parser.ts:229-235 | a match of `(\d+)\s+لسنة\s+(\d{4})` gives a number and a four-digit year |
| ManshuratLaw.NumberYearFound | scripts/lib/manshurat-parser.ts:229-235 | `N لسنة Y` is read as number N and year Y |
| ManshuratLaw.RaqmFound | scripts/lib/manshurat-parser.ts:215-219 | `رقم N لسنة Y` is read as number N and year Y |
| ManshuratLaw.BilqanunFound | scripts/lib/manshurat-parser.ts:221-227 | `بالقانون N لسنة Y` is read without the optional رقم |
| ManshuratLaw.BilqanunRaqm | scripts/lib/manshurat-parser.ts:215-227 | where the second pattern takes its optional رقم, the first pattern matches there with the same result |
| ManshuratLaw.FillMissing | scripts/lib/manshurat-parser.ts:215-235 | a title match fills only the number and year that are still empty |
| ManshuratLaw.FillKeeps | scripts/lib/manshurat-parser.ts:215-235 | a value already found is never overwritten by a title match |
| ManshuratLaw.FindNumbers | scripts/lib/manshurat-parser.ts:209-236 | the number and year come from the fields, then from the three title patterns while one is missing |
| ManshuratLaw.FieldNumbersWin | scripts/lib/manshurat-parser.ts:209-210 | a page's number or year field, digit-normalised, is what the record uses |
| ManshuratLaw.TitleNumbers | scripts/lib/manshurat-parser.ts:215-219 | a title reading `رقم N لسنة Y` gives number N and year Y |
| ManshuratLaw.TitleNumbersShape | scripts/lib/manshurat-parser.ts:212-236 | without a field, the number read from the title is digits or empty, and the year four digits or empty |
| ManshuratLaw.ParseManshuratLawDetailHtml | scripts/lib/manshurat-parser.ts:177-280 | the parser returns the specified record, or none |
| ManshuratLaw.LawDetailOf | scripts/lib/manshurat-parser.ts:198-200 | a record is returned if and only if a title is found |
| ManshuratLaw.RecordTitle | scripts/lib/manshurat-parser.ts:183-200 | a record's title is non-empty, trimmed and free of bidi controls |
| ManshuratLaw.RecordFieldNumbers | scripts/lib/manshurat-parser.ts:203-210 | the record's number and year come from the page's fields whenever it has them |
| ManshuratLaw.RecordFromTitle | scripts/lib/manshurat-parser.ts:215-219 | a page titled `قانون رقم N لسنة Y` without number or year fields is law N of Y |
| ManshuratLaw.RecordNumbersShape | scripts/lib/manshurat-parser.ts:268-269 | without fields, the record's number is digits or the node id, and its year four digits or "unknown" |
| ManshuratLaw.ShortName | scripts/lib/manshurat-parser.ts:261-263 | "Law N/Y" when both number and year are given; otherwise exactly the first min(60, length) characters of the title |
| ManshuratLaw.RecordShortName | scripts/lib/manshurat-parser.ts:261-270 | the short name is "Law N/Y" of the record's number and year, or exactly the first min(60, length) characters of the title |
| ManshuratLaw.RecordDates | scripts/lib/manshurat-parser.ts:242-244 | dates are ISO; issued is the issued field's date when it has one and the published field's otherwise; effective is the effective field's date whenever it has one, and falls back to issued; a record without an effective date has no issued date |
| ManshuratLaw.RecordFields | scripts/lib/manshurat-parser.ts:265-279 | a record always has a year; a listed page always has a number; the node id, status, description and URL are as specified |

## Left out

- Text is a sequence of Unicode scalar values. Every character the parsers rewrite lies in the Basic Multilingual Plane, where this agrees with UTF-16 code units. Lengths such as `substring(0, 60)` and the 40- and 50-character caps count characters, which differs only for astral text.
- `toLowerCase` is modelled on ASCII letters only. Arabic has no case, but Latin letters outside ASCII are not lowered.
- `decodeHtmlEntities` is modelled on its named entities only. The numeric `&#x…;` and `&#…;` replacements call `String.fromCodePoint`, which can give astral characters or throw a RangeError.
- The archive's HTML location patterns are taken as the inputs of `ManshuratLaw.PageCaptures`: the captures of `extractInlineField`, `extractLabelAboveField`, the title-field `<h2>`, og:title, `<title>` and the file link. The model does not contain the case-insensitive regular expressions themselves.
- `\p{Script=Arabic}` in the token normaliser and the ordinal heading pattern is approximated by the Arabic Unicode blocks.
- `Number.parseInt` is modelled on digit strings as an unbounded natural number. Precision loss above 2^53 is not modelled.
- `parseStatus`, `parseLawDetailHtml` and `extractCategoryIdsFromIndexHtml` of `scripts/lib/parser.ts` are not part of this model. They scan the portal's detail and index pages with HTML location patterns.
- ManshuratDates.DateWorded: this holds when the month written is the first table name the text contains. The source takes the first name in table order, which can be another one that also occurs in the text.
- ManshuratLaw.LawDetailOf: the record decodes meta titles with the one-pass decoder `Html.DecodeEntities`, the corrected behaviour of the finding below.
- Html.StripTags: both `stripTags` functions call the chained decoder of the finding below, but `Html.StripTags` decodes in one pass, the corrected behaviour. `Html.StripTagsAsWritten` is the stripper as written. `Html.StripTagsAgree` shows the two agree on every text without `&`, and `Html.StripTagsDiffer` shows where they part.
- ManshuratLaw.FieldValue: field values and the title field are stripped with `Html.StripTags`, so they decode entities in one pass where the source's `stripTags` applies the chained replaces. The two differ only on doubly escaped entities such as `&amp;lt;`.
- ManshuratLaw.ListingPathHasNodeId: a non-empty node id is proved for listing paths only. The paths "" and "/" give an empty id.
- The network, disk and process side of the ingestion scripts are not part of this model. This covers fetching, caching, checkpoints, OCR and the PDF tools, JSON output, the fetcher's rate limiting, drift detection and the database wrapper.

## Findings

| source | as written | input that shows it | evidently intended | confidence | as-written member | corrected member |
|---|---|---|---|---|---|---|
| scripts/lib/parser.ts:229-240 (and scripts/lib/manshurat-parser.ts:36-47) | each entity is replaced throughout the text before the next is looked for, so `&amp;` is decoded before `&lt;` and the text it produces is decoded again | `&amp;lt;`, the escaped form of the text `&lt;`, decodes to `<` | one pass that decodes `&amp;lt;` to `&lt;`, undoing escaping | not executed | Html.DecodeNamedEntitiesTwice | Html.DecodeEscape |
