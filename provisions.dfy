/**
 * Provision references and definitions: `buildProvisionRef` turns a section
 * label into a URL-safe reference such as `art12-bis-a`, the assembler makes
 * references unique within one act with `-2`, `-3` suffixes, and
 * `extractDefinitions` pulls "يقصد ب… : …" definitions out of a provision.
 */
module Provisions {
  import opened TextBasics
  import opened ArabicNormalizer
  import opened Headings

  // ---------------------------------------------------------------------
  // buildProvisionRef
  // ---------------------------------------------------------------------

  /** `[a-z0-9-]`: the characters a reference slug keeps. */
  predicate IsSlugChar(c: char) {
    ('a' <= c <= 'z') || IsAsciiDigit(c) || c == '-'
  }

  predicate IsHyphen(c: char) {
    c == '-'
  }

  /** `.replace(/-+/g, '-')`: every run of hyphens becomes one. */
  function CollapseHyphens(s: String): (r: String)
    ensures |r| <= |s|
    decreases |s|
  {
    if s == [] then []
    else if s[0] == '-' then "-" + CollapseHyphens(s[Span(s, 0, IsHyphen)..])
    else [s[0]] + CollapseHyphens(s[1..])
  }

  /**
   * `.replace(/^-|-$/g, '')`: one leading and one trailing hyphen go; a lone
   * hyphen is matched once, by `^-`.
   */
  function StripEdgeHyphens(s: String): String {
    var a := if |s| > 0 && s[0] == '-' then 1 else 0;
    var b := if |s| > a && s[|s| - 1] == '-' then |s| - 1 else |s|;
    s[a..b]
  }

  /** The chain of `buildProvisionRef` that turns a section label into a slug. */
  function Slug(section: String): (r: String)
    ensures IsSlug(r)
  {
    var lowered := Lower(NormalizeArabicDigits(section));
    var bis := ReplaceAll(lowered, "مكرر", "bis");
    var dashed := CollapseSpaces(bis, '-');
    var kept := Filter(dashed, IsSlugChar);
    CollapseHyphensKeeps(kept, (ch: char) => !IsSlugChar(ch));
    CollapseHyphensSingle(kept);
    StripEdgeHyphensSlug(CollapseHyphens(kept));
    StripEdgeHyphens(CollapseHyphens(kept))
  }

  /**
   * `buildProvisionRef`: "art" and the slug, or "art" and the heading's index
   * when the slug is empty; either way "art" and a non-empty slug.
   */
  function BuildProvisionRef(section: String, ordinal: nat): (r: String)
    ensures |r| > 3 && r[..3] == "art" && IsSlug(r[3..])
    ensures Slug(section) != [] ==> r[3..] == Slug(section)
    ensures Slug(section) == [] ==> AllDigits(r[3..]) && ParseDigits(r[3..]) == ordinal
  {
    var core := Slug(section);
    if core != [] then
      assert ("art" + core)[3..] == core;
      "art" + core
    else
      var n := NatToString(ordinal);
      assert ("art" + n)[3..] == n;
      ParseNatToString(ordinal);
      "art" + n
  }

  /** A slug: lower-case letters, digits and single inner hyphens. */
  predicate IsSlug(s: String) {
    (forall i | 0 <= i < |s| :: IsSlugChar(s[i])) &&
    (forall i | 0 <= i < |s| - 1 :: !(s[i] == '-' && s[i + 1] == '-')) &&
    (s != [] ==> s[0] != '-' && s[|s| - 1] != '-')
  }

  lemma {:induction false} CollapseHyphensKeeps(s: String, f: char -> bool)
    requires NoneSatisfy(s, f) && !f('-')
    ensures NoneSatisfy(CollapseHyphens(s), f)
    decreases |s|
  {
    if s != [] {
      if s[0] == '-' {
        CollapseHyphensKeeps(s[Span(s, 0, IsHyphen)..], f);
      } else {
        CollapseHyphensKeeps(s[1..], f);
      }
    }
  }

  /** After the collapse no two hyphens are adjacent, and the first character is kept. */
  lemma {:induction false} CollapseHyphensSingle(s: String)
    ensures var r := CollapseHyphens(s);
      (forall i | 0 <= i < |r| - 1 :: !(r[i] == '-' && r[i + 1] == '-')) &&
      (s != [] ==> r != [] && r[0] == s[0])
    decreases |s|
  {
    if s != [] {
      if s[0] == '-' {
        var k := Span(s, 0, IsHyphen);
        CollapseHyphensSingle(s[k..]);
        if k < |s| {
          assert s[k..][0] == s[k];
        }
      } else {
        CollapseHyphensSingle(s[1..]);
      }
    }
  }

  /** A prefix without hyphens passes through the collapse unchanged. */
  lemma {:induction false} CollapseHyphensPrefix(d: String, t: String)
    requires NoneSatisfy(d, IsHyphen)
    ensures CollapseHyphens(d + t) == d + CollapseHyphens(t)
    decreases |d|
  {
    if d == [] {
      assert d + t == t;
    } else {
      assert (d + t)[1..] == d[1..] + t;
      CollapseHyphensPrefix(d[1..], t);
    }
  }

  /** The edge strip turns a hyphen-collapsed string of slug characters into a slug. */
  lemma StripEdgeHyphensSlug(c: String)
    requires forall i | 0 <= i < |c| :: IsSlugChar(c[i])
    requires forall i | 0 <= i < |c| - 1 :: !(c[i] == '-' && c[i + 1] == '-')
    ensures IsSlug(StripEdgeHyphens(c))
  {
    var a := if |c| > 0 && c[0] == '-' then 1 else 0;
    var b := if |c| > a && c[|c| - 1] == '-' then |c| - 1 else |c|;
    var r := StripEdgeHyphens(c);
    assert r == c[a..b];
    forall i | 0 <= i < |r| ensures IsSlugChar(r[i]) {
      assert r[i] == c[a + i];
    }
    forall i | 0 <= i < |r| - 1 ensures !(r[i] == '-' && r[i + 1] == '-') {
      assert r[i] == c[a + i] && r[i + 1] == c[a + i + 1];
    }
    if r != [] {
      if a == 1 {
        assert c[1] != '-';
      }
      if b == |c| - 1 {
        assert c[|c| - 2] != '-';
      }
    }
  }

  /** `s` starts with the non-empty digit run `d` and holds no ASCII digit after it. */
  predicate DigitsThen(s: String, d: String) {
    |d| > 0 && AllDigits(d) && IsPrefix(d, s) && NoneSatisfy(s[|d|..], IsAsciiDigit)
  }

  /** A digit run is kept by each stage of the slug chain that follows the lowering. */
  lemma DigitsThenSplit(s: String, d: String)
    requires DigitsThen(s, d)
    ensures s == d + s[|d|..]
  {
  }

  /** The first two stages: digit folding and lowering keep the label's digit run. */
  lemma LoweredLabel(section: String, k: nat) returns (d: String)
    requires LabelSplit(section, k)
    ensures d == section[..k]
    ensures DigitsThen(Lower(NormalizeArabicDigits(section)), d)
  {
    d := section[..k];
    var t := NormalizeArabicDigits(section);
    DigitsByOffset(section);
    forall i | 0 <= i < k ensures t[i] == section[i] {
      assert section[..k][i] == section[i];
    }
    forall i | k <= i < |section| ensures !IsAsciiDigit(t[i]) {
      assert section[k..][i - k] == section[i];
    }
    var l := Lower(t);
    assert l[..k] == d;
    forall i | 0 <= i < |l| - k ensures !IsAsciiDigit(l[k..][i]) {
      assert l[k..][i] == l[k + i];
    }
  }

  /** The replacement of مكرر and the whitespace collapse keep the digit run. */
  lemma DashedLabel(lowered: String, d: String)
    requires DigitsThen(lowered, d)
    ensures DigitsThen(CollapseSpaces(ReplaceAll(lowered, "مكرر", "bis"), '-'), d)
  {
    var rest := lowered[|d|..];
    DigitsThenSplit(lowered, d);
    ReplaceAllPrefix(d, rest, "مكرر", "bis");
    var bis := ReplaceAll(rest, "مكرر", "bis");
    ReplaceAllChars(rest, "مكرر", "bis", IsAsciiDigit);
    assert NoneSatisfy(d, IsSpace);
    CollapseSpacesPrefix(d, bis, '-');
    CollapseSpacesChars(bis, '-', IsAsciiDigit);
    var dashed := d + CollapseSpaces(bis, '-');
    assert dashed[|d|..] == CollapseSpaces(bis, '-');
    assert dashed[..|d|] == d;
  }

  /** The filter and the hyphen collapse keep the digit run. */
  lemma CollapsedLabel(dashed: String, d: String)
    requires DigitsThen(dashed, d)
    ensures DigitsThen(CollapseHyphens(Filter(dashed, IsSlugChar)), d)
  {
    var rest := dashed[|d|..];
    DigitsThenSplit(dashed, d);
    FilterConcat(d, rest, IsSlugChar);
    FilterKeepsAll(d, IsSlugChar);
    var kept := Filter(rest, IsSlugChar);
    FilterNone(rest, IsSlugChar, IsAsciiDigit);
    CollapseHyphensPrefix(d, kept);
    CollapseHyphensKeeps(kept, IsAsciiDigit);
    var c := d + CollapseHyphens(kept);
    assert c[..|d|] == d && c[|d|..] == CollapseHyphens(kept);
  }

  /** The edge strip keeps a leading digit run. */
  lemma StrippedLabel(c: String, d: String)
    requires DigitsThen(c, d)
    ensures DigitsThen(StripEdgeHyphens(c), d)
  {
    assert c[0] == d[0];
    var b := if |c| > 0 && c[|c| - 1] == '-' then |c| - 1 else |c|;
    var r := StripEdgeHyphens(c);
    assert r == c[..b];
    assert r[..|d|] == d;
    forall i | 0 <= i < |r| - |d| ensures !IsAsciiDigit(r[|d|..][i]) {
      assert r[|d|..][i] == c[|d|..][i];
    }
  }

  /** The slug of a recognised section label begins with the label's own digits. */
  lemma SlugOfLabel(section: String) returns (d: String)
    requires IsSectionLabel(section)
    ensures DigitsThen(Slug(section), d)
    ensures IsPrefix(d, section)
  {
    var k :| 0 < k <= |section| && LabelSplit(section, k);
    d := LoweredLabel(section, k);
    var lowered := Lower(NormalizeArabicDigits(section));
    DashedLabel(lowered, d);
    var dashed := CollapseSpaces(ReplaceAll(lowered, "مكرر", "bis"), '-');
    CollapsedLabel(dashed, d);
    StrippedLabel(CollapseHyphens(Filter(dashed, IsSlugChar)), d);
  }

  /** `r` ends with a hyphen followed by digits only, the shape of a `-k` suffix. */
  predicate EndsWithHyphenNumber(r: String) {
    exists j | 0 <= j < |r| - 1 :: r[j] == '-' && AllDigits(r[j + 1..])
  }

  /**
   * The reference of a recognised section is "art" and a well-formed slug that
   * starts with the section's digits and never ends in a `-k` suffix.
   */
  lemma ProvisionRefOfLabel(section: String, ordinal: nat) returns (d: String)
    requires IsSectionLabel(section)
    ensures BuildProvisionRef(section, ordinal) == "art" + Slug(section)
    ensures IsSlug(Slug(section))
    ensures DigitsThen(Slug(section), d) && IsPrefix(d, section)
    ensures !EndsWithHyphenNumber(BuildProvisionRef(section, ordinal))
  {
    d := SlugOfLabel(section);
    var s := Slug(section);
    var r := "art" + s;
    forall j | 0 <= j < |r| - 1 && r[j] == '-' ensures !AllDigits(r[j + 1..]) {
      if j >= 3 + |d| {
        assert r[j + 1..][0] == s[|d|..][j - 2 - |d|];
      }
    }
  }

  // ---------------------------------------------------------------------
  // Unique references within one act
  // ---------------------------------------------------------------------

  /**
   * The reference of the `count`-th provision with base reference `base`:
   * the base itself the first time, then `base-2`, `base-3`, ...
   */
  function ProvisionRef(base: String, count: nat): (r: String)
    ensures count <= 1 ==> r == base
    ensures count > 1 ==> IsPrefix(base + "-", r) && AllDigits(r[|base| + 1..])
  {
    if count <= 1 then base else base + "-" + NatToString(count)
  }

  /**
   * For bases that do not end in a `-k` suffix themselves, distinct
   * (base, count) pairs give distinct references.
   */
  lemma ProvisionRefInjective(b1: String, c1: nat, b2: String, c2: nat)
    requires 1 <= c1 && 1 <= c2
    requires !EndsWithHyphenNumber(b1) && !EndsWithHyphenNumber(b2)
    requires ProvisionRef(b1, c1) == ProvisionRef(b2, c2)
    ensures b1 == b2 && c1 == c2
  {
    if c1 == 1 && c2 > 1 {
      SuffixedIsHyphenNumbered(b2, c2);
    } else if c1 > 1 && c2 == 1 {
      SuffixedIsHyphenNumbered(b1, c1);
    } else if c1 > 1 && c2 > 1 {
      var n1 := NatToString(c1);
      var n2 := NatToString(c2);
      var r := b1 + "-" + n1;
      assert r == b2 + "-" + n2;
      assert r[|b1|] == '-' && r[|b2|] == '-';
      assert forall i | |b1| < i < |r| :: r[i] == n1[i - |b1| - 1];
      assert forall i | |b2| < i < |r| :: r[i] == n2[i - |b2| - 1];
      assert |b1| == |b2|;
      assert b1 == r[..|b1|] == b2;
      assert n1 == r[|b1| + 1..] == n2;
      NatToStringInjective(c1, c2);
    }
  }

  /** A suffixed reference always ends in a `-k` suffix. */
  lemma SuffixedIsHyphenNumbered(base: String, count: nat)
    requires count > 1
    ensures EndsWithHyphenNumber(ProvisionRef(base, count))
  {
    var r := ProvisionRef(base, count);
    assert r[|base|] == '-' && r[|base| + 1..] == NatToString(count);
  }
}
