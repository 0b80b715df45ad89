/**
 * The helpers of the investment-portal parser: its date normaliser, the
 * choice of a law's main attachment, and the law ids of a category page.
 */
module Portal {
  import opened TextBasics
  import opened Dates
  import opened Laws

  // ---------------------------------------------------------------------
  // normalizeDate
  // ---------------------------------------------------------------------

  /**
   * A date of the form `YYYY/M/D` or `YYYY.M.D`, surrounded by nothing but
   * whitespace, written `YYYY-MM-DD`; nothing for a missing or empty value
   * or any other form.
   */
  function NormalizeDate(value: Option<String>): (r: Option<String>)
    ensures r.Some? ==> IsIsoDate(r.value)
  {
    if value.None? || value.value == [] then None
    else YearFirstDate(Trim(value.value))
  }

  /** Every year, month and day separated by slashes or dots, amid whitespace, is read with its month and day padded. */
  lemma NormalizeDateReads(value: String, year: String, sep: char, month: String, sep2: char, day: String)
    requires IsYear(year) && IsShortNumber(month) && IsShortNumber(day)
    requires IsDateSeparator(sep) && IsDateSeparator(sep2)
    requires Trim(value) == year + [sep] + month + [sep2] + day
    ensures NormalizeDate(Some(value)) == Some(IsoDate(year, Pad2(month), Pad2(day)))
  {
    assert value != [] by {
      if value == [] {
        TrimEmpty(value);
      }
    }
    YearFirstDateReads(year, sep, month, sep2, day);
  }

  /** A date already written `YYYY-MM-DD` is not recognised: normalising is not idempotent. */
  lemma NormalizeDateRejectsIso(value: String)
    requires IsIsoDate(value)
    ensures NormalizeDate(Some(value)) == None
  {
    assert !IsSpace(value[0]) && !IsSpace(value[9]);
    TrimUnique(value, 0, |value|);
    assert value[0..|value|] == value;
    YearFirstDateRejectsIso(value);
  }

  // ---------------------------------------------------------------------
  // selectPrimaryAttachment
  // ---------------------------------------------------------------------

  /** The attachment's title names an update, executive regulations or an amendment. */
  predicate IsSecondaryAttachment(a: LawAttachment) {
    var name := Lower(a.title);
    Contains(name, "update") || Contains(name, "executive") || Contains(name, "regulation") ||
    Contains(name, "لائحة") || Contains(name, "تعديل")
  }

  /** The index of the first attachment from `from` on that is not secondary. */
  function FirstPrimary(attachments: seq<LawAttachment>, from: nat): (r: Option<nat>)
    requires from <= |attachments|
    ensures r.Some? ==> from <= r.value < |attachments| && !IsSecondaryAttachment(attachments[r.value])
    ensures forall j | from <= j < |attachments| && (r.None? || j < r.value) :: IsSecondaryAttachment(attachments[j])
    decreases |attachments| - from
  {
    if from == |attachments| then None
    else if !IsSecondaryAttachment(attachments[from]) then Some(from)
    else FirstPrimary(attachments, from + 1)
  }

  /** The first attachment that is not secondary, else the first one; nothing when there are none. */
  function SelectPrimaryAttachment(attachments: seq<LawAttachment>): (r: Option<LawAttachment>)
    ensures r.Some? <==> |attachments| > 0
    ensures r.Some? ==> r.value in attachments
  {
    if |attachments| == 0 then None
    else
      var k := FirstPrimary(attachments, 0);
      if k.Some? then Some(attachments[k.value]) else Some(attachments[0])
  }

  /** The first attachment that is not secondary is the one chosen. */
  lemma SelectPrimaryPrefersPrimary(attachments: seq<LawAttachment>, k: nat)
    requires k < |attachments| && !IsSecondaryAttachment(attachments[k])
    requires forall j | 0 <= j < k :: IsSecondaryAttachment(attachments[j])
    ensures SelectPrimaryAttachment(attachments) == Some(attachments[k])
  {
    var f := FirstPrimary(attachments, 0);
    assert f.Some? && f.value == k;
  }

  /** When every attachment is secondary the first one is chosen. */
  lemma SelectPrimaryFallsBack(attachments: seq<LawAttachment>)
    requires |attachments| > 0
    requires forall j | 0 <= j < |attachments| :: IsSecondaryAttachment(attachments[j])
    ensures SelectPrimaryAttachment(attachments) == Some(attachments[0])
  {
    var f := FirstPrimary(attachments, 0);
    assert f.None?;
  }

  // ---------------------------------------------------------------------
  // extractLawIdsFromCategoryHtml
  // ---------------------------------------------------------------------

  const DetailsPath: String := "/publiclaws/details/"

  /** The match of `\/publiclaws\/details\/(\d+)` at `i`: where its digits end. */
  function LawIdAt(s: String, i: nat): (r: Option<nat>)
    ensures r.Some? ==> OccursAt(s, DetailsPath, i) && i + |DetailsPath| < r.value <= |s|
    ensures r.Some? ==> AllDigits(s[i + |DetailsPath|..r.value])
  {
    DigitsAfter(s, DetailsPath, i)
  }

  /** The law id a match starting at `i` and ending at `e` names. */
  function LawIdOf(s: String, i: nat, e: nat): nat
    requires i + |DetailsPath| <= e <= |s| && AllDigits(s[i + |DetailsPath|..e])
  {
    ParseDigits(s[i + |DetailsPath|..e])
  }

  /** The ids the global pattern finds from `from` on, each search resuming where the last match ended. */
  function LawIdsFrom(s: String, from: nat): set<nat>
    requires from <= |s|
    decreases |s| - from
  {
    var m := FirstMatch(s, from, LawIdAt);
    if m.None? then {} else {LawIdOf(s, m.value.0, m.value.1)} + LawIdsFrom(s, m.value.1)
  }

  /** The only slashes of the path are its first character, the 12th and the last. */
  lemma DetailsPathSlashes(k: nat)
    requires k < |DetailsPath| && k != 0 && k != 11 && k != 19
    ensures DetailsPath[k] != '/'
  {
  }

  /** A match cannot start inside another one. */
  lemma LawIdMatchesApart(s: String, p: nat, j: nat)
    requires LawIdAt(s, p).Some? && p < j < LawIdAt(s, p).value
    ensures LawIdAt(s, j).None?
  {
    var n := |DetailsPath|;
    var k := j - p;
    if k >= n {
      assert IsAsciiDigit(s[j]) && s[j] != DetailsPath[0];
    } else if k == 11 {
      assert s[j + 1] == DetailsPath[12] != DetailsPath[1];
    } else if k == 19 {
      assert IsAsciiDigit(s[j + 1]) && s[j + 1] != DetailsPath[1];
    } else {
      DetailsPathSlashes(k);
      assert s[j] == DetailsPath[k] != DetailsPath[0];
    }
  }

  /** Every id found is the id of a match. */
  lemma {:induction false} LawIdsSound(s: String, from: nat, x: nat) returns (i: nat, e: nat)
    requires from <= |s| && x in LawIdsFrom(s, from)
    ensures from <= i <= |s| && LawIdAt(s, i) == Some(e) && x == LawIdOf(s, i, e)
    decreases |s| - from
  {
    var m := FirstMatch(s, from, LawIdAt);
    if x == LawIdOf(s, m.value.0, m.value.1) {
      i, e := m.value.0, m.value.1;
    } else {
      i, e := LawIdsSound(s, m.value.1, x);
    }
  }

  /** The id of every match is found. */
  lemma {:induction false} LawIdsComplete(s: String, from: nat, i: nat)
    requires from <= i <= |s| && LawIdAt(s, i).Some?
    ensures LawIdOf(s, i, LawIdAt(s, i).value) in LawIdsFrom(s, from)
    decreases |s| - from
  {
    var m := FirstMatch(s, from, LawIdAt);
    assert m.Some?;
    var p, e := m.value.0, m.value.1;
    if p != i {
      assert p < i;
      if i < e {
        LawIdMatchesApart(s, p, i);
      }
      LawIdsComplete(s, e, i);
    }
  }

  predicate Increasing(s: seq<nat>) {
    forall i, j | 0 <= i < j < |s| :: s[i] < s[j]
  }

  /** The least element of a non-empty set. */
  method SetMin(s: set<nat>) returns (m: nat)
    requires s != {}
    ensures m in s && forall x | x in s :: m <= x
  {
    m :| m in s;
    var rest := s - {m};
    while rest != {}
      invariant rest <= s && m in s
      invariant forall x | x in s && x !in rest :: m <= x
      decreases |rest|
    {
      var x :| x in rest;
      if x < m {
        m := x;
      }
      rest := rest - {x};
    }
  }

  /** `[...ids].sort((a, b) => a - b)`: the ids in increasing order. */
  method SortIds(ids: set<nat>) returns (r: seq<nat>)
    ensures Increasing(r)
    ensures forall x :: x in r <==> x in ids
  {
    r := [];
    var rest := ids;
    while rest != {}
      invariant rest <= ids && Increasing(r)
      invariant forall x :: x in r <==> x in ids && x !in rest
      invariant forall x, y | x in r && y in rest :: x < y
      decreases |rest|
    {
      var m := SetMin(rest);
      forall i | 0 <= i < |r| ensures r[i] < m {
        assert r[i] in r;
      }
      r := r + [m];
      rest := rest - {m};
    }
  }

  /**
   * The law ids linked from a category page, each once, in increasing
   * order: every `exec` of the pattern resumes where the last match ended.
   */
  method ExtractLawIdsFromCategoryHtml(html: String) returns (ids: seq<nat>)
    ensures Increasing(ids)
    ensures forall x :: x in ids <==> x in LawIdsFrom(html, 0)
  {
    var found: set<nat> := {};
    var pos := 0;
    while true
      invariant pos <= |html|
      invariant found + LawIdsFrom(html, pos) == LawIdsFrom(html, 0)
      decreases |html| - pos
    {
      var m := FirstMatch(html, pos, LawIdAt);
      if m.None? {
        break;
      }
      found := found + {LawIdOf(html, m.value.0, m.value.1)};
      pos := m.value.1;
    }
    ids := SortIds(found);
  }
}
