/**
 * `buildSeedFromPdfText`: the lines of a law's PDF text are classified by the
 * heading recogniser; the text between one heading and the next becomes a
 * provision with a reference unique within the act, and its definitions are
 * collected.
 */
module Seed {
  import opened TextBasics
  import opened ArabicNormalizer
  import opened Headings
  import opened Provisions
  import opened Definitions
  import opened Laws
  import opened Titles

  /** A heading line: its label and its index among the text's lines. */
  datatype SectionStart = SectionStart(section: String, startLine: nat)

  // ---------------------------------------------------------------------
  // Headings
  // ---------------------------------------------------------------------

  /** What the line classifier makes of each line. */
  function LineLabels(lines: seq<String>, classify: String -> Option<String>): (r: seq<Option<String>>)
    ensures |r| == |lines|
  {
    seq(|lines|, i requires 0 <= i < |lines| => classify(lines[i]))
  }

  /** The heading recogniser in the mode the caller asked for. */
  function HeadingClassifier(allow: bool): String -> Option<String> {
    line => ParseArticleSection(line, allow)
  }

  /** The headings among the first `n` lines, in line order. */
  function SectionsUpTo(labels: seq<Option<String>>, n: nat): seq<SectionStart>
    requires n <= |labels|
    decreases n
  {
    if n == 0 then []
    else
      var before := SectionsUpTo(labels, n - 1);
      if labels[n - 1].Some? then before + [SectionStart(labels[n - 1].value, n - 1)] else before
  }

  /** Every collected heading is a recognised line, carrying that line's label. */
  lemma {:induction false} SectionsLabelled(labels: seq<Option<String>>, n: nat)
    requires n <= |labels|
    ensures forall k | 0 <= k < |SectionsUpTo(labels, n)| ::
      SectionsUpTo(labels, n)[k].startLine < n &&
      labels[SectionsUpTo(labels, n)[k].startLine] == Some(SectionsUpTo(labels, n)[k].section)
    decreases n
  {
    if n > 0 {
      SectionsLabelled(labels, n - 1);
    }
  }

  /** The collected headings are in strictly increasing line order. */
  lemma {:induction false} SectionsIncreasing(labels: seq<Option<String>>, n: nat)
    requires n <= |labels|
    ensures forall j, k | 0 <= j < k < |SectionsUpTo(labels, n)| ::
      SectionsUpTo(labels, n)[j].startLine < SectionsUpTo(labels, n)[k].startLine
    decreases n
  {
    if n > 0 {
      SectionsIncreasing(labels, n - 1);
      SectionsLabelled(labels, n - 1);
    }
  }

  /** No recognised line is missed. */
  lemma {:induction false} SectionsComplete(labels: seq<Option<String>>, n: nat, i: nat)
    requires i < n <= |labels| && labels[i].Some?
    ensures exists k | 0 <= k < |SectionsUpTo(labels, n)| :: SectionsUpTo(labels, n)[k].startLine == i
    decreases n
  {
    var r := SectionsUpTo(labels, n);
    if i == n - 1 {
      assert r[|r| - 1].startLine == i;
    } else {
      SectionsComplete(labels, n - 1, i);
      var before := SectionsUpTo(labels, n - 1);
      var k :| 0 <= k < |before| && before[k].startLine == i;
      assert r[k] == before[k];
    }
  }

  /**
   * The loop of `buildSeedFromPdfText` that collects the heading lines; the
   * recogniser is passed in as `classify`.
   */
  method CollectSections(lines: seq<String>, classify: String -> Option<String>) returns (sections: seq<SectionStart>)
    ensures sections == SectionsUpTo(LineLabels(lines, classify), |lines|)
  {
    ghost var labels := LineLabels(lines, classify);
    sections := [];
    for i := 0 to |lines|
      invariant sections == SectionsUpTo(labels, i)
    {
      var section := classify(lines[i]);
      if section.Some? {
        sections := sections + [SectionStart(section.value, i)];
      }
    }
  }

  // ---------------------------------------------------------------------
  // The text of one provision
  // ---------------------------------------------------------------------

  /** A line holding only whitespace, the lines `line.trim().length === 0` accepts. */
  predicate IsBlank(line: String) {
    forall i | 0 <= i < |line| :: IsSpace(line[i])
  }

  /** The block without its leading blank lines. */
  function DropLeadingBlank(block: seq<String>): seq<String>
    decreases |block|
  {
    if block != [] && IsBlank(block[0]) then DropLeadingBlank(block[1..]) else block
  }

  /** The block without its trailing blank lines. */
  function DropTrailingBlank(block: seq<String>): seq<String>
    decreases |block|
  {
    if block != [] && IsBlank(block[|block| - 1]) then DropTrailingBlank(block[..|block| - 1]) else block
  }

  /** The two `while` loops that `shift` and `pop` blank lines off a block. */
  method TrimBlankLines(block: seq<String>) returns (lines: seq<String>)
    ensures lines == DropTrailingBlank(DropLeadingBlank(block))
  {
    lines := block;
    while |lines| > 0 && Trim(lines[0]) == []
      invariant DropLeadingBlank(lines) == DropLeadingBlank(block)
      decreases |lines|
    {
      TrimEmpty(lines[0]);
      lines := lines[1..];
    }
    if |lines| > 0 {
      TrimEmpty(lines[0]);
    }
    ghost var middle := lines;
    while |lines| > 0 && Trim(lines[|lines| - 1]) == []
      invariant DropTrailingBlank(lines) == DropTrailingBlank(middle)
      decreases |lines|
    {
      TrimEmpty(lines[|lines| - 1]);
      lines := lines[..|lines| - 1];
    }
    if |lines| > 0 {
      TrimEmpty(lines[|lines| - 1]);
    }
  }

  /** The text of a provision: the lines between its heading and the next, trimmed. */
  function BlockContent(lines: seq<String>, start: nat, end: nat): String
    requires start < end <= |lines|
  {
    Trim(Join(DropTrailingBlank(DropLeadingBlank(lines[start + 1..end])), "\n"))
  }

  /** Whitespace in front is all `trimStart` removes before `x`. */
  lemma {:induction false} TrimStartAfterSpaces(w: String, x: String)
    requires IsBlank(w)
    ensures TrimStart(w + x) == TrimStart(x)
    decreases |w|
  {
    if w == [] {
      assert w + x == x;
    } else {
      assert (w + x)[1..] == w[1..] + x;
      TrimStartAfterSpaces(w[1..], x);
    }
  }

  /** Whitespace in front does not change the trimmed text. */
  lemma TrimAfterSpaces(w: String, x: String)
    requires IsBlank(w)
    ensures Trim(w + x) == Trim(x)
  {
    TrimStartAfterSpaces(w, x);
  }

  /** Whitespace behind does not change the trimmed text. */
  lemma TrimBeforeSpaces(x: String, w: String)
    requires IsBlank(w)
    ensures Trim(x + w) == Trim(x)
  {
    var a, b := TrimIsSlice(x);
    var s := x + w;
    assert s[a..b] == x[a..b];
    forall i | b <= i < |s| ensures IsSpace(s[i]) {
      if i < |x| {
        assert s[i] == x[i];
      }
    }
    TrimUnique(s, a, b);
    assert Trim(s) == x[a..b] == Trim(x);
  }

  /** Joining after a final line. */
  lemma {:induction false} JoinSnoc(init: seq<String>, last: String, sep: String)
    requires init != []
    ensures Join(init + [last], sep) == Join(init, sep) + sep + last
    decreases |init|
  {
    if |init| == 1 {
      assert (init + [last])[1..] == [last];
    } else {
      assert (init + [last])[1..] == init[1..] + [last];
      JoinSnoc(init[1..], last, sep);
    }
  }

  /** Blank text followed by blank text is blank. */
  lemma BlankConcat(a: String, b: String)
    requires IsBlank(a) && IsBlank(b)
    ensures IsBlank(a + b)
  {
  }

  /** The line break is blank. */
  lemma BreakIsBlank()
    ensures IsBlank("\n")
  {
    assert "\n"[0] == '\n';
  }

  /** The joined leading blank lines are blank text in front of the rest. */
  lemma {:induction false} LeadingBlankPrefix(block: seq<String>) returns (w: String)
    ensures IsBlank(w) && Join(block, "\n") == w + Join(DropLeadingBlank(block), "\n")
    decreases |block|
  {
    if block != [] && IsBlank(block[0]) {
      var rest := block[1..];
      var w' := LeadingBlankPrefix(rest);
      if |block| == 1 {
        w := block[0];
      } else {
        BreakIsBlank();
        BlankConcat(block[0], "\n");
        BlankConcat(block[0] + "\n", w');
        w := block[0] + "\n" + w';
      }
    } else {
      w := [];
    }
  }

  /** The joined trailing blank lines are blank text behind the rest. */
  lemma {:induction false} TrailingBlankSuffix(block: seq<String>) returns (w: String)
    ensures IsBlank(w) && Join(block, "\n") == Join(DropTrailingBlank(block), "\n") + w
    decreases |block|
  {
    if block != [] && IsBlank(block[|block| - 1]) {
      var init := block[..|block| - 1];
      var last := block[|block| - 1];
      var w' := TrailingBlankSuffix(init);
      assert block == init + [last];
      if |block| == 1 {
        w := last;
      } else {
        JoinSnoc(init, last, "\n");
        BreakIsBlank();
        BlankConcat("\n", last);
        BlankConcat(w', "\n" + last);
        w := w' + "\n" + last;
      }
    } else {
      w := [];
    }
  }

  /**
   * Removing blank edge lines before joining is invisible after the final
   * trim: a provision's text is the trimmed text between its heading line and
   * the next heading line.
   */
  lemma BlockContentIsTrimmedSlice(lines: seq<String>, start: nat, end: nat)
    requires start < end <= |lines|
    ensures BlockContent(lines, start, end) == Trim(Join(lines[start + 1..end], "\n"))
  {
    var block := lines[start + 1..end];
    var lead := LeadingBlankPrefix(block);
    var trail := TrailingBlankSuffix(DropLeadingBlank(block));
    var kept := Join(DropTrailingBlank(DropLeadingBlank(block)), "\n");
    TrimBeforeSpaces(kept, trail);
    TrimAfterSpaces(lead, kept + trail);
  }

  // ---------------------------------------------------------------------
  // Provisions and their references
  // ---------------------------------------------------------------------

  /** The headings start on distinct lines of the text, in order. */
  predicate ValidSections(sections: seq<SectionStart>, lineCount: nat) {
    (forall k | 0 <= k < |sections| :: sections[k].startLine < lineCount) &&
    (forall j, k | 0 <= j < k < |sections| :: sections[j].startLine < sections[k].startLine)
  }

  /** Where the `i`-th heading's block ends: at the next heading, or at the end of the text. */
  function EndLine(sections: seq<SectionStart>, i: nat, lineCount: nat): nat
    requires i < |sections|
  {
    if i + 1 < |sections| then sections[i + 1].startLine else lineCount
  }

  /** A block that survives: its heading's label, its heading's position (from 1), its text. */
  datatype Block = Block(section: String, ordinal: nat, content: String)

  /** The text of the `i`-th heading's block. */
  function ContentOf(lines: seq<String>, sections: seq<SectionStart>, i: nat): String
    requires ValidSections(sections, |lines|) && i < |sections|
  {
    BlockContent(lines, sections[i].startLine, EndLine(sections, i, |lines|))
  }

  /** The text of every heading's block. */
  function Contents(lines: seq<String>, sections: seq<SectionStart>): (r: seq<String>)
    requires ValidSections(sections, |lines|)
    ensures |r| == |sections|
  {
    seq(|sections|, i requires 0 <= i < |sections| => ContentOf(lines, sections, i))
  }

  /** The blocks of the first `n` headings whose text has at least 10 characters. */
  function KeptBlocks(sections: seq<SectionStart>, contents: seq<String>, n: nat): seq<Block>
    requires |contents| == |sections| && n <= |sections|
    decreases n
  {
    if n == 0 then []
    else
      KeptBlocks(sections, contents, n - 1) +
      (if |contents[n - 1]| < 10 then [] else [Block(sections[n - 1].section, n, contents[n - 1])])
  }

  /** One more heading adds its block exactly when its text has at least 10 characters. */
  lemma KeptBlocksNext(sections: seq<SectionStart>, contents: seq<String>, i: nat, content: String)
    requires |contents| == |sections| && i < |sections| && contents[i] == content
    ensures |content| < 10 ==> KeptBlocks(sections, contents, i + 1) == KeptBlocks(sections, contents, i)
    ensures |content| >= 10 ==>
      KeptBlocks(sections, contents, i + 1) == KeptBlocks(sections, contents, i) + [Block(sections[i].section, i + 1, content)]
  {
  }

  /** The base reference of each block. */
  function BaseRefs(blocks: seq<Block>): (r: seq<String>)
    ensures |r| == |blocks|
  {
    seq(|blocks|, k requires 0 <= k < |blocks| => BuildProvisionRef(blocks[k].section, blocks[k].ordinal))
  }

  /** How often `x` occurs in `s`. */
  function Count(s: seq<String>, x: String): nat {
    multiset(s)[x]
  }

  /** The reference of the `k`-th provision: its base, numbered by the base's earlier uses. */
  function RefAt(bases: seq<String>, k: nat): String
    requires k < |bases|
  {
    ProvisionRef(bases[k], Count(bases[..k], bases[k]) + 1)
  }

  /** The reference of every provision, in order. */
  function Refs(bases: seq<String>): (r: seq<String>)
    ensures |r| == |bases|
  {
    seq(|bases|, k requires 0 <= k < |bases| => RefAt(bases, k))
  }

  const Madda: String := "مادة"

  /** The provisions the kept blocks become. */
  function ProvisionsOf(blocks: seq<Block>): (r: seq<Provision>)
    ensures |r| == |blocks|
  {
    var refs := Refs(BaseRefs(blocks));
    seq(|blocks|, k requires 0 <= k < |blocks| =>
      Provision(refs[k], blocks[k].section, Madda + " " + blocks[k].section, blocks[k].content))
  }

  /** The definitions of each provision, in provision order. */
  function DefinitionsOf(provisions: seq<Provision>): seq<Definition>
    decreases |provisions|
  {
    if provisions == [] then []
    else
      var last := provisions[|provisions| - 1];
      DefinitionsOf(provisions[..|provisions| - 1]) + Definitions.Definitions(last.content, last.provisionRef)
  }

  /** A new base is numbered by how often it occurred before; earlier references stay. */
  lemma RefsSnoc(bases: seq<String>, x: String)
    ensures Refs(bases + [x]) == Refs(bases) + [ProvisionRef(x, Count(bases, x) + 1)]
  {
    var bases' := bases + [x];
    forall k | 0 <= k < |bases| ensures RefAt(bases', k) == RefAt(bases, k) {
      assert bases'[..k] == bases[..k];
    }
    assert bases'[..|bases|] == bases;
  }

  /** Adding a block adds one provision, numbered by how often its base was seen before. */
  lemma ProvisionsSnoc(blocks: seq<Block>, b: Block)
    ensures BaseRefs(blocks + [b]) == BaseRefs(blocks) + [BuildProvisionRef(b.section, b.ordinal)]
    ensures var base := BuildProvisionRef(b.section, b.ordinal);
      ProvisionsOf(blocks + [b]) == ProvisionsOf(blocks) +
        [Provision(ProvisionRef(base, Count(BaseRefs(blocks), base) + 1), b.section, Madda + " " + b.section, b.content)]
  {
    var base := BuildProvisionRef(b.section, b.ordinal);
    assert BaseRefs(blocks + [b]) == BaseRefs(blocks) + [base];
    RefsSnoc(BaseRefs(blocks), base);
  }

  lemma DefinitionsSnoc(provisions: seq<Provision>, p: Provision)
    ensures DefinitionsOf(provisions + [p]) == DefinitionsOf(provisions) + Definitions.Definitions(p.content, p.provisionRef)
  {
    assert (provisions + [p])[..|provisions|] == provisions;
  }

  /** The number of earlier uses of `base` that `seen` records. */
  function Uses(seen: map<String, nat>, base: String): nat {
    if base in seen then seen[base] else 0
  }

  /** `seen` counts the uses of each base reference in `bases`. */
  ghost predicate CountsUses(seen: map<String, nat>, bases: seq<String>) {
    forall b :: Count(bases, b) == Uses(seen, b)
  }

  /** Recording one more use of `base` keeps `seen` in step with the bases. */
  lemma CountsUsesSnoc(seen: map<String, nat>, bases: seq<String>, base: String)
    requires CountsUses(seen, bases)
    ensures CountsUses(seen[base := Uses(seen, base) + 1], bases + [base])
  {
    var seen' := seen[base := Uses(seen, base) + 1];
    forall b ensures Count(bases + [base], b) == Uses(seen', b) {
      assert multiset(bases + [base]) == multiset(bases) + multiset{base};
      assert Count(bases, b) == Uses(seen, b);
    }
  }

  /** The reference of a provision whose base was used `existing` times before. */
  method NumberRef(seen: map<String, nat>, baseRef: String) returns (provisionRef: String, seen': map<String, nat>)
    ensures provisionRef == ProvisionRef(baseRef, Uses(seen, baseRef) + 1)
    ensures seen' == seen[baseRef := Uses(seen, baseRef) + 1]
  {
    var existing := if baseRef in seen then seen[baseRef] else 0;
    seen' := seen[baseRef := existing + 1];
    provisionRef := if existing == 0 then baseRef else baseRef + "-" + NatToString(existing + 1);
  }

  /** The text of the `i`-th heading's block: its lines up to the next heading, cleared of blank edge lines, joined and trimmed. */
  method BlockText(lines: seq<String>, sections: seq<SectionStart>, i: nat) returns (content: String)
    requires ValidSections(sections, |lines|) && i < |sections|
    ensures content == ContentOf(lines, sections, i)
  {
    var current := sections[i];
    var endLine := if i + 1 < |sections| then sections[i + 1].startLine else |lines|;
    var blockLines := TrimBlankLines(lines[current.startLine + 1..endLine]);
    content := Trim(Join(blockLines, "\n"));
  }

  /** One kept block becomes the next provision, numbered by its base's earlier uses, and adds its definitions. */
  method AddProvision(provisions: seq<Provision>, definitions: seq<Definition>, seen: map<String, nat>,
                      ghost blocks: seq<Block>, block: Block)
    returns (provisions': seq<Provision>, definitions': seq<Definition>, seen': map<String, nat>)
    requires provisions == ProvisionsOf(blocks) && definitions == DefinitionsOf(provisions)
    requires CountsUses(seen, BaseRefs(blocks))
    ensures provisions' == ProvisionsOf(blocks + [block]) && definitions' == DefinitionsOf(provisions')
    ensures CountsUses(seen', BaseRefs(blocks + [block]))
  {
    var baseRef := BuildProvisionRef(block.section, block.ordinal);
    ProvisionsSnoc(blocks, block);
    CountsUsesSnoc(seen, BaseRefs(blocks), baseRef);
    var provisionRef;
    provisionRef, seen' := NumberRef(seen, baseRef);
    var provision := Provision(provisionRef, block.section, Madda + " " + block.section, block.content);
    DefinitionsSnoc(provisions, provision);
    provisions' := provisions + [provision];
    var defs := ExtractDefinitions(block.content, provisionRef);
    definitions' := definitions + defs;
  }

  /**
   * The provisions loop: each heading's block, cleared of blank edge lines
   * and trimmed, becomes a provision when it holds at least 10 characters;
   * `seen` counts how often each base reference was used.
   */
  method AssembleProvisions(lines: seq<String>, sections: seq<SectionStart>)
    returns (provisions: seq<Provision>, definitions: seq<Definition>)
    requires ValidSections(sections, |lines|)
    ensures provisions == ProvisionsOf(KeptBlocks(sections, Contents(lines, sections), |sections|))
    ensures definitions == DefinitionsOf(provisions)
  {
    provisions := [];
    definitions := [];
    var seen: map<String, nat> := map[];
    ghost var blocks: seq<Block> := [];
    ghost var contents := Contents(lines, sections);
    for i := 0 to |sections|
      invariant blocks == KeptBlocks(sections, contents, i)
      invariant provisions == ProvisionsOf(blocks)
      invariant definitions == DefinitionsOf(provisions)
      invariant CountsUses(seen, BaseRefs(blocks))
    {
      var content := BlockText(lines, sections, i);
      KeptBlocksNext(sections, contents, i, content);
      if |content| >= 10 {
        var block := Block(sections[i].section, i + 1, content);
        provisions, definitions, seen := AddProvision(provisions, definitions, seen, blocks, block);
        blocks := blocks + [block];
      }
    }
  }

  // ---------------------------------------------------------------------
  // What the provisions loop guarantees
  // ---------------------------------------------------------------------

  /** Distinct (base, count) pairs give distinct references, in the form the numbering argument needs. */
  lemma RefsDiffer(b1: String, c1: nat, b2: String, c2: nat)
    requires 1 <= c1 && 1 <= c2
    requires !EndsWithHyphenNumber(b1) && !EndsWithHyphenNumber(b2)
    ensures b1 != b2 || c1 != c2 ==> ProvisionRef(b1, c1) != ProvisionRef(b2, c2)
  {
    if ProvisionRef(b1, c1) == ProvisionRef(b2, c2) {
      ProvisionRefInjective(b1, c1, b2, c2);
    }
  }

  /**
   * Numbering a base by its earlier uses makes every reference distinct,
   * provided no base already ends in a `-k` suffix.
   */
  lemma RefsDistinct(bases: seq<String>)
    requires forall k | 0 <= k < |bases| :: !EndsWithHyphenNumber(bases[k])
    ensures forall j, k | 0 <= j < k < |bases| :: Refs(bases)[j] != Refs(bases)[k]
  {
    forall j, k | 0 <= j < k < |bases| ensures Refs(bases)[j] != Refs(bases)[k] {
      if bases[j] == bases[k] {
        assert bases[..k] == bases[..j] + bases[j..k];
        assert bases[j..k][0] == bases[j];
        assert Count(bases[..k], bases[k]) >= Count(bases[..j], bases[j]) + 1;
      }
      RefsDiffer(bases[j], Count(bases[..j], bases[j]) + 1, bases[k], Count(bases[..k], bases[k]) + 1);
    }
  }

  /** When every block is labelled by a recognised heading, the provision references are pairwise distinct. */
  lemma ProvisionRefsDistinct(blocks: seq<Block>)
    requires forall k | 0 <= k < |blocks| :: IsSectionLabel(blocks[k].section)
    ensures forall j, k | 0 <= j < k < |blocks| ::
      ProvisionsOf(blocks)[j].provisionRef != ProvisionsOf(blocks)[k].provisionRef
  {
    var bases := BaseRefs(blocks);
    forall k | 0 <= k < |bases| ensures !EndsWithHyphenNumber(bases[k]) {
      var _ := ProvisionRefOfLabel(blocks[k].section, blocks[k].ordinal);
    }
    RefsDistinct(bases);
  }

  /**
   * A kept block is the text of one of the first `n` headings, of at least
   * 10 characters, and the blocks follow the headings' order.
   */
  lemma {:induction false} KeptBlocksShape(sections: seq<SectionStart>, contents: seq<String>, n: nat)
    requires |contents| == |sections| && n <= |sections|
    ensures forall k | 0 <= k < |KeptBlocks(sections, contents, n)| ::
      1 <= KeptBlocks(sections, contents, n)[k].ordinal <= n &&
      KeptBlocks(sections, contents, n)[k].section == sections[KeptBlocks(sections, contents, n)[k].ordinal - 1].section &&
      KeptBlocks(sections, contents, n)[k].content == contents[KeptBlocks(sections, contents, n)[k].ordinal - 1] &&
      |KeptBlocks(sections, contents, n)[k].content| >= 10
    ensures forall j, k | 0 <= j < k < |KeptBlocks(sections, contents, n)| ::
      KeptBlocks(sections, contents, n)[j].ordinal < KeptBlocks(sections, contents, n)[k].ordinal
    decreases n
  {
    if n > 0 {
      KeptBlocksShape(sections, contents, n - 1);
    }
  }

  /** Every heading whose text has at least 10 characters yields a block. */
  lemma {:induction false} KeptBlocksComplete(sections: seq<SectionStart>, contents: seq<String>, n: nat, i: nat)
    requires |contents| == |sections| && i < n <= |sections|
    requires |contents[i]| >= 10
    ensures exists k | 0 <= k < |KeptBlocks(sections, contents, n)| :: KeptBlocks(sections, contents, n)[k].ordinal == i + 1
    decreases n
  {
    var r := KeptBlocks(sections, contents, n);
    if i == n - 1 {
      assert r[|r| - 1].ordinal == i + 1;
    } else {
      KeptBlocksComplete(sections, contents, n - 1, i);
      var before := KeptBlocks(sections, contents, n - 1);
      var k :| 0 <= k < |before| && before[k].ordinal == i + 1;
      assert r[k] == before[k];
    }
  }

  /** The text of a provision is trimmed: no whitespace at either end. */
  lemma ContentTrimmed(lines: seq<String>, sections: seq<SectionStart>, i: nat)
    requires ValidSections(sections, |lines|) && i < |sections|
    ensures Trim(ContentOf(lines, sections, i)) == ContentOf(lines, sections, i)
  {
    var s := sections[i].startLine;
    var e := EndLine(sections, i, |lines|);
    TrimIdempotent(Join(DropTrailingBlank(DropLeadingBlank(lines[s + 1..e])), "\n"));
  }

  /** The definitions of the act come from its provisions. */
  predicate DefinedIn(d: Definition, provisions: seq<Provision>) {
    exists j | 0 <= j < |provisions| :: IsDefinitionOf(d, provisions[j].provisionRef)
  }

  /** Every collected definition is well formed and cites one of the provisions. */
  lemma {:induction false} DefinitionsOfSources(provisions: seq<Provision>)
    ensures forall k | 0 <= k < |DefinitionsOf(provisions)| :: DefinedIn(DefinitionsOf(provisions)[k], provisions)
    decreases |provisions|
  {
    if provisions != [] {
      var init := provisions[..|provisions| - 1];
      var last := provisions[|provisions| - 1];
      DefinitionsOfSources(init);
      var before := DefinitionsOf(init);
      var added := Definitions.Definitions(last.content, last.provisionRef);
      forall k | 0 <= k < |DefinitionsOf(provisions)| ensures DefinedIn(DefinitionsOf(provisions)[k], provisions) {
        if k < |before| {
          var j :| 0 <= j < |init| && IsDefinitionOf(before[k], init[j].provisionRef);
          assert provisions[j] == init[j];
        } else {
          assert DefinitionsOf(provisions)[k] == added[k - |before|];
          assert added[k - |before|] in added;
          assert IsDefinitionOf(DefinitionsOf(provisions)[k], provisions[|provisions| - 1].provisionRef);
        }
      }
    }
  }

  // ---------------------------------------------------------------------
  // The act
  // ---------------------------------------------------------------------

  /** The options of `buildSeedFromPdfText`; an option left out is `None`. */
  datatype SeedOptions = SeedOptions(
    allowOrdinalFallback: Option<bool>,
    idSuffix: Option<String>,
    preferCanonicalLawTitle: Option<bool>,
    titleEnOverride: Option<String>,
    shortNameOverride: Option<String>,
    urlOverride: Option<String>)

  /** A string option counts only when present and non-empty, as JavaScript's truthiness has it. */
  predicate Given(o: Option<String>) {
    o.Some? && o.value != []
  }

  /** `o || fallback` */
  function OrElse(o: Option<String>, fallback: String): (r: String)
    ensures Given(o) ==> r == o.value
    ensures !Given(o) ==> r == fallback
  {
    if Given(o) then o.value else fallback
  }

  const LawIdPrefix: String := "eg-law-"

  /** `eg-law-<number>-<year>`, with `-<suffix>` when a suffix is given. */
  function ActId(lawNumber: String, lawYear: String, idSuffix: Option<String>): String {
    var baseId := LawIdPrefix + lawNumber + "-" + lawYear;
    if Given(idSuffix) then baseId + "-" + idSuffix.value else baseId
  }

  /** The law's description with the PDF's address, or a note naming the PDF. */
  function Description(description: Option<String>, sourcePdfUrl: String): String {
    if Given(description) then description.value + " [PDF: " + sourcePdfUrl + "]"
    else "Source PDF: " + sourcePdfUrl
  }

  /** The lines of the normalised PDF text. */
  function PdfLines(pdfTextRaw: String): seq<String> {
    Split(NormalizePdfText(pdfTextRaw), '\n')
  }

  /** The headings of the text's lines. */
  function HeadingsOf(lines: seq<String>, classify: String -> Option<String>): seq<SectionStart> {
    SectionsUpTo(LineLabels(lines, classify), |lines|)
  }

  /** The collected headings start on distinct lines, in order. */
  lemma HeadingsValid(lines: seq<String>, classify: String -> Option<String>)
    ensures ValidSections(HeadingsOf(lines, classify), |lines|)
  {
    SectionsLabelled(LineLabels(lines, classify), |lines|);
    SectionsIncreasing(LineLabels(lines, classify), |lines|);
  }

  /** The text of every heading's block. */
  function BlockTexts(lines: seq<String>, classify: String -> Option<String>): (r: seq<String>)
    ensures |r| == |HeadingsOf(lines, classify)|
  {
    HeadingsValid(lines, classify);
    Contents(lines, HeadingsOf(lines, classify))
  }

  /** The blocks of the text's lines that become provisions. */
  function BlocksOfText(lines: seq<String>, classify: String -> Option<String>): seq<Block> {
    var sections := HeadingsOf(lines, classify);
    KeptBlocks(sections, BlockTexts(lines, classify), |sections|)
  }

  /** The provisions of the text's lines. */
  function ProvisionsOfText(lines: seq<String>, classify: String -> Option<String>): seq<Provision> {
    ProvisionsOf(BlocksOfText(lines, classify))
  }

  /**
   * The act built around its provisions and definitions: its id starts with
   * the law's number and year, its dates and status are the portal's, and,
   * unless the caller turns the preference off, its title mentions the law's
   * number and year, digits normalised.
   */
  function ActOf(law: PortalLawDetail, pdfTextRaw: String, sourcePdfUrl: String, options: SeedOptions,
                 provisions: seq<Provision>, definitions: seq<Definition>): (r: Act)
    ensures IsPrefix(LawIdPrefix + law.lawNumber + "-" + law.lawYear, r.id)
    ensures r.status == law.status && r.issuedDate == law.issuedDate && r.inForceDate == law.effectiveDate
    ensures r.provisions == provisions && r.definitions == definitions
    ensures options.preferCanonicalLawTitle != Some(false) ==>
      Contains(NormalizeArabicDigits(r.title), NormalizeArabicDigits(law.lawNumber)) &&
      Contains(NormalizeArabicDigits(r.title), NormalizeArabicDigits(law.lawYear))
  {
    var prefer := options.preferCanonicalLawTitle != Some(false);
    PreferredTitleNamesLaw(ParseArabicTitleFromPdf(pdfTextRaw), law.lawNumber, law.lawYear);
    Act(
      ActId(law.lawNumber, law.lawYear, options.idSuffix),
      ResolveTitle(ParseArabicTitleFromPdf(pdfTextRaw), law.lawNumber, law.lawYear, prefer),
      if Given(options.titleEnOverride) then options.titleEnOverride
      else if law.titleEn != [] then Some(law.titleEn) else None,
      OrElse(options.shortNameOverride, law.shortName),
      law.status,
      law.issuedDate,
      law.effectiveDate,
      OrElse(options.urlOverride, law.detailUrl),
      Description(law.description, sourcePdfUrl),
      provisions,
      definitions)
  }

  /** `buildSeedFromPdfText`: nothing when the text has no heading or no provision. */
  function SeedOf(law: PortalLawDetail, pdfTextRaw: String, sourcePdfUrl: String, options: SeedOptions): (r: Option<Act>)
    ensures r.Some? <==>
      SomeBlockKept(BlockTexts(PdfLines(pdfTextRaw), HeadingClassifier(options.allowOrdinalFallback == Some(true))))
    ensures r.Some? ==> WellFormedAct(r.value)
  {
    var lines := PdfLines(pdfTextRaw);
    var classify := HeadingClassifier(options.allowOrdinalFallback == Some(true));
    ProvisionsExistIff(lines, classify);
    HeadingClassifierYieldsLabels(options.allowOrdinalFallback == Some(true));
    if HeadingsOf(lines, classify) == [] then None
    else
      var provisions := ProvisionsOfText(lines, classify);
      if provisions == [] then None
      else
        var act := ActOf(law, pdfTextRaw, sourcePdfUrl, options, provisions, DefinitionsOf(provisions));
        ActOfTextWellFormed(lines, classify, act);
        Some(act)
  }

  /** `buildSeedFromPdfText`, step by step. */
  method BuildSeedFromPdfText(law: PortalLawDetail, pdfTextRaw: String, sourcePdfUrl: String, options: SeedOptions)
    returns (r: Option<Act>)
    ensures r == SeedOf(law, pdfTextRaw, sourcePdfUrl, options)
  {
    var normalizedText := NormalizePdfText(pdfTextRaw);
    var lines := Split(normalizedText, '\n');
    var classify := HeadingClassifier(options.allowOrdinalFallback == Some(true));
    var sections := CollectSections(lines, classify);
    assert lines == PdfLines(pdfTextRaw) && sections == HeadingsOf(lines, classify);
    if |sections| == 0 {
      return None;
    }
    HeadingsValid(lines, classify);
    var provisions, definitions := AssembleProvisions(lines, sections);
    assert provisions == ProvisionsOfText(lines, classify);
    if |provisions| == 0 {
      return None;
    }
    r := Some(ActOf(law, pdfTextRaw, sourcePdfUrl, options, provisions, definitions));
  }

  // ---------------------------------------------------------------------
  // What the act guarantees
  // ---------------------------------------------------------------------

  /**
   * An act as `buildSeedFromPdfText` returns it: at least one provision,
   * pairwise distinct references, each provision labelled by a heading and
   * holding trimmed text of at least 10 characters, and definitions that
   * are well formed and cite a provision.
   */
  predicate WellFormedAct(act: Act) {
    |act.provisions| > 0 &&
    (forall j, k | 0 <= j < k < |act.provisions| :: act.provisions[j].provisionRef != act.provisions[k].provisionRef) &&
    (forall k | 0 <= k < |act.provisions| ::
      IsSectionLabel(act.provisions[k].section) &&
      |act.provisions[k].content| >= 10 && Trim(act.provisions[k].content) == act.provisions[k].content) &&
    (forall k | 0 <= k < |act.definitions| :: DefinedIn(act.definitions[k], act.provisions))
  }

  /** A classifier that only ever returns well-formed heading labels. */
  ghost predicate YieldsLabels(classify: String -> Option<String>) {
    forall line :: classify(line).Some? ==> IsSectionLabel(classify(line).value)
  }

  /** The heading recogniser returns well-formed labels only. */
  lemma HeadingClassifierYieldsLabels(allow: bool)
    ensures YieldsLabels(HeadingClassifier(allow))
  {
    forall line ensures HeadingClassifier(allow)(line).Some? ==> IsSectionLabel(HeadingClassifier(allow)(line).value) {
      assert HeadingClassifier(allow)(line) == ParseArticleSection(line, allow);
    }
  }

  /** Every collected heading carries a label the classifier returned. */
  lemma HeadingsLabelled(lines: seq<String>, classify: String -> Option<String>)
    requires YieldsLabels(classify)
    ensures forall k | 0 <= k < |HeadingsOf(lines, classify)| :: IsSectionLabel(HeadingsOf(lines, classify)[k].section)
  {
    var labels := LineLabels(lines, classify);
    SectionsLabelled(labels, |lines|);
    var sections := HeadingsOf(lines, classify);
    forall k | 0 <= k < |sections| ensures IsSectionLabel(sections[k].section) {
      assert classify(lines[sections[k].startLine]) == Some(sections[k].section);
    }
  }

  /** The blocks of a text: heading labels, trimmed text of at least 10 characters. */
  lemma BlocksOfTextShape(lines: seq<String>, classify: String -> Option<String>)
    requires YieldsLabels(classify)
    ensures forall k | 0 <= k < |BlocksOfText(lines, classify)| ::
      IsSectionLabel(BlocksOfText(lines, classify)[k].section) &&
      |BlocksOfText(lines, classify)[k].content| >= 10 &&
      Trim(BlocksOfText(lines, classify)[k].content) == BlocksOfText(lines, classify)[k].content
  {
    var sections := HeadingsOf(lines, classify);
    var contents := BlockTexts(lines, classify);
    var blocks := BlocksOfText(lines, classify);
    HeadingsValid(lines, classify);
    HeadingsLabelled(lines, classify);
    KeptBlocksShape(sections, contents, |sections|);
    forall k | 0 <= k < |blocks|
      ensures IsSectionLabel(blocks[k].section) && |blocks[k].content| >= 10 && Trim(blocks[k].content) == blocks[k].content
    {
      var i := blocks[k].ordinal - 1;
      assert blocks[k].content == contents[i] == ContentOf(lines, sections, i);
      ContentTrimmed(lines, sections, i);
    }
  }

  /** The provisions of a text: distinct references, heading labels, trimmed text of at least 10 characters. */
  lemma ProvisionsOfTextShape(lines: seq<String>, classify: String -> Option<String>)
    requires YieldsLabels(classify)
    ensures forall j, k | 0 <= j < k < |ProvisionsOfText(lines, classify)| ::
      ProvisionsOfText(lines, classify)[j].provisionRef != ProvisionsOfText(lines, classify)[k].provisionRef
    ensures forall k | 0 <= k < |ProvisionsOfText(lines, classify)| ::
      IsSectionLabel(ProvisionsOfText(lines, classify)[k].section) &&
      |ProvisionsOfText(lines, classify)[k].content| >= 10 &&
      Trim(ProvisionsOfText(lines, classify)[k].content) == ProvisionsOfText(lines, classify)[k].content
  {
    var blocks := BlocksOfText(lines, classify);
    BlocksOfTextShape(lines, classify);
    ProvisionRefsDistinct(blocks);
  }

  /** An act whose provisions are those of the text, with their definitions, is well formed. */
  lemma ActOfTextWellFormed(lines: seq<String>, classify: String -> Option<String>, act: Act)
    requires YieldsLabels(classify)
    requires act.provisions == ProvisionsOfText(lines, classify) != []
    requires act.definitions == DefinitionsOf(act.provisions)
    ensures WellFormedAct(act)
  {
    ProvisionsOfTextShape(lines, classify);
    DefinitionsOfSources(act.provisions);
  }

  /** Some heading's block holds at least 10 characters. */
  predicate SomeBlockKept(texts: seq<String>) {
    exists i | 0 <= i < |texts| :: |texts[i]| >= 10
  }

  /** Provisions come out exactly when some heading's block holds at least 10 characters of text. */
  lemma ProvisionsExistIff(lines: seq<String>, classify: String -> Option<String>)
    ensures ProvisionsOfText(lines, classify) != [] <==> SomeBlockKept(BlockTexts(lines, classify))
  {
    var sections := HeadingsOf(lines, classify);
    var contents := BlockTexts(lines, classify);
    var blocks := KeptBlocks(sections, contents, |sections|);
    KeptBlocksShape(sections, contents, |sections|);
    if blocks != [] {
      assert |contents[blocks[0].ordinal - 1]| >= 10;
    }
    if SomeBlockKept(contents) {
      var i :| 0 <= i < |contents| && |contents[i]| >= 10;
      KeptBlocksComplete(sections, contents, |sections|, i);
    }
  }

  /** For numbers and years written in digits, the act's id tells the law apart. */
  lemma ActIdDeterminesLaw(n1: String, y1: String, s1: Option<String>, n2: String, y2: String, s2: Option<String>)
    requires AllDigits(n1) && AllDigits(y1) && AllDigits(n2) && AllDigits(y2)
    requires ActId(n1, y1, s1) == ActId(n2, y2, s2)
    ensures n1 == n2 && y1 == y2
  {
    var t1: String := if Given(s1) then "-" + s1.value else [];
    var t2: String := if Given(s2) then "-" + s2.value else [];
    var r1, r2 := n1 + ("-" + (y1 + t1)), n2 + ("-" + (y2 + t2));
    assert ActId(n1, y1, s1) == LawIdPrefix + r1;
    assert ActId(n2, y2, s2) == LawIdPrefix + r2;
    assert r1 == (LawIdPrefix + r1)[|LawIdPrefix|..] == (LawIdPrefix + r2)[|LawIdPrefix|..] == r2;
    DigitsThenStop(n1, "-" + (y1 + t1), n2, "-" + (y2 + t2));
    assert y1 + t1 == ("-" + (y1 + t1))[1..] == ("-" + (y2 + t2))[1..] == y2 + t2;
    DigitsThenStop(y1, t1, y2, t2);
  }

  /** A digit run ended by a hyphen or by the end of the text is read back whole. */
  lemma DigitsThenStop(a: String, ra: String, b: String, rb: String)
    requires AllDigits(a) && AllDigits(b) && a + ra == b + rb
    requires (ra == [] || ra[0] == '-') && (rb == [] || rb[0] == '-')
    ensures a == b && ra == rb
  {
    var s := a + ra;
    assert forall k | 0 <= k < |a| :: s[k] == a[k];
    assert forall k | 0 <= k < |b| :: s[k] == b[k];
    assert |a| == |s| || s[|a|] == '-';
    assert |b| == |s| || s[|b|] == '-';
    assert |a| == |b|;
    assert a == s[..|a|] == b;
    assert ra == s[|a|..] == rb;
  }
}
