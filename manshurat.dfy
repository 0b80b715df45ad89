/**
 * The parser for the legal archive's pages: the law paths of a listing
 * page, the number of its last page, its dates, a law's status and node
 * id, and the record read from a law's page.
 */
module Manshurat {
  import opened TextBasics
  import opened ArabicNormalizer
  import opened Dates
  import opened Html
  import opened Laws
  import Titles

  // ---------------------------------------------------------------------
  // extractLawPathsFromListingHtml
  // ---------------------------------------------------------------------

  const HrefOpen: String := "href=\""
  const ContentDir: String := "/content/"
  const NodeDir: String := "/node/"

  predicate IsNotQuote(c: char) {
    c != '"'
  }

  /** No character of `s[i..j]` is `c`. */
  predicate Lacks(s: String, i: nat, j: nat, c: char)
    requires i <= j <= |s|
  {
    forall k | i <= k < j :: s[k] != c
  }

  /** Where `[^c]*` run greedily from `i` stops: the first `c` from `i` on, or the end of the text. */
  function RunUntil(s: String, i: nat, c: char): (j: nat)
    requires i <= |s|
    ensures i <= j <= |s| && Lacks(s, i, j, c) && (j < |s| ==> s[j] == c)
    decreases |s| - i
  {
    if i == |s| || s[i] == c then i else RunUntil(s, i + 1, c)
  }

  /** The run stops at the only place it can. */
  lemma RunUntilUnique(s: String, i: nat, c: char, j: nat)
    requires i <= j <= |s| && Lacks(s, i, j, c) && (j < |s| ==> s[j] == c)
    ensures RunUntil(s, i, c) == j
  {
  }

  /** The run reaches past every stretch free of `c`. */
  lemma RunUntilReaches(s: String, i: nat, c: char, j: nat)
    requires i <= j <= |s| && Lacks(s, i, j, c)
    ensures j <= RunUntil(s, i, c)
  {
  }

  /** `\/(?:content|node)\/[^"]+`: a content or node path without quotes. */
  predicate IsLawPath(p: String) {
    ((IsPrefix(ContentDir, p) && |p| > |ContentDir|) || (IsPrefix(NodeDir, p) && |p| > |NodeDir|)) &&
    forall k | 0 <= k < |p| :: IsNotQuote(p[k])
  }

  /** The directory `s` holds at `j`: where what follows it starts. */
  function DirEnd(s: String, j: nat): (k: Option<nat>)
    ensures k.Some? ==> (OccursAt(s, ContentDir, j) && k.value == j + |ContentDir|) ||
                        (OccursAt(s, NodeDir, j) && k.value == j + |NodeDir|)
  {
    if OccursAt(s, ContentDir, j) then Some(j + |ContentDir|)
    else if OccursAt(s, NodeDir, j) then Some(j + |NodeDir|)
    else None
  }

  /** The match of `href="(\/(?:content|node)\/[^"]+)"` at `i`: where the path ends, at the closing quote. */
  function PathAt(s: String, i: nat): (r: Option<nat>)
    ensures r.Some? ==> OccursAt(s, HrefOpen, i) && i + |HrefOpen| < r.value < |s| && s[r.value] == '"'
  {
    if !OccursAt(s, HrefOpen, i) then None
    else
      var j := i + |HrefOpen|;
      var k := DirEnd(s, j);
      if k.None? then None
      else
        var e := RunUntil(s, k.value, '"');
        if e == k.value || e == |s| then None
        else Some(e)
  }

  /** What a match captures is a content or node path. */
  lemma PathAtIsLawPath(s: String, i: nat)
    requires PathAt(s, i).Some?
    ensures IsLawPath(s[i + |HrefOpen|..PathAt(s, i).value])
  {
    var j := i + |HrefOpen|;
    var e := PathAt(s, i).value;
    var k := DirEnd(s, j).value;
    assert j < k < e && Lacks(s, k, e, '"');
    var p := s[j..e];
    if OccursAt(s, ContentDir, j) {
      OccursAtOpensSlice(s, ContentDir, j, e);
    } else {
      OccursAtOpensSlice(s, NodeDir, j, e);
    }
    forall x | 0 <= x < |p| ensures IsNotQuote(p[x]) {
      if x < k - j {
        assert p[x] == s[j..k][x];
      } else {
        assert p[x] == s[j + x];
      }
    }
  }

  /** Wherever `href="` is followed by a path and a quote, the match starting there captures that path. */
  lemma PathFound(s: String, i: nat, path: String)
    requires IsLawPath(path) && OccursAt(s, HrefOpen, i) && OccursAt(s, path, i + |HrefOpen|)
    requires i + |HrefOpen| + |path| < |s| && s[i + |HrefOpen| + |path|] == '"'
    ensures PathAt(s, i) == Some(i + |HrefOpen| + |path|)
  {
    var j := i + |HrefOpen|;
    var e := j + |path|;
    if IsPrefix(ContentDir, path) {
      OccurrenceStarts(s, path, j, |ContentDir|);
      assert OccursAt(s, ContentDir, j);
      assert path[1] == 'c';
      assert path[..|NodeDir|][1] != NodeDir[1];
    } else {
      OccurrenceStarts(s, path, j, |NodeDir|);
      assert OccursAt(s, NodeDir, j);
      assert s[j + 1] == path[1] == 'n';
      NotOccursAt(s, ContentDir, j, 1);
    }
    var k := DirEnd(s, j);
    assert k.Some? && k.value < e;
    forall x | k.value <= x < e ensures s[x] != '"' {
      assert s[x] == s[j..e][x - j] == path[x - j];
    }
    RunUntilUnique(s, k.value, '"', e);
  }

  /** A character that differs from the pattern's rules out an occurrence. */
  lemma NotOccursAt(s: String, p: String, j: nat, k: nat)
    requires k < |p| && j + k < |s| && s[j + k] != p[k]
    ensures !OccursAt(s, p, j)
  {
    if j + |p| <= |s| {
      assert s[j..j + |p|][k] == s[j + k];
    }
  }

  /** The first `n` characters of an occurrence of `p` are those of `p`. */
  lemma OccurrenceStarts(s: String, p: String, j: nat, n: nat)
    requires OccursAt(s, p, j) && n <= |p|
    ensures s[j..j + n] == p[..n]
  {
    assert s[j..j + n] == s[j..j + |p|][..n];
  }

  /** The recurring link to the "participate in development" page. */
  const ExcludedSlug: String := "shrk-fy-ttwyr"

  /** The path a match from `i` to the closing quote at `e` captures. */
  function PathOf(s: String, i: nat, e: nat): String
    requires i + |HrefOpen| <= e <= |s|
  {
    s[i + |HrefOpen|..e]
  }

  /** The set of paths after one more match: the excluded link is skipped, a path already held is not added again. */
  function Record(seen: seq<String>, path: String): seq<String> {
    if Contains(path, ExcludedSlug) || path in seen then seen else seen + [path]
  }

  /** A matcher of the pattern: where the match starting at a position ends, at its closing quote. */
  type Matcher = (String, nat) -> Option<nat>

  /** Every match `m` finds in `s` ends past `href="` and before the end of the text. */
  predicate EndsInside(s: String, m: Matcher) {
    forall i | 0 <= i <= |s| :: m(s, i).Some? ==> i + |HrefOpen| <= m(s, i).value < |s|
  }

  /**
   * The paths held after the global search with `m` has run from `from`
   * on, given those held before: where a match starts, its path is
   * recorded and the search resumes after its closing quote; elsewhere it
   * moves on by one.
   */
  function ListingFrom(s: String, from: nat, seen: seq<String>, m: Matcher): seq<String>
    requires from <= |s| && EndsInside(s, m)
    decreases |s| - from
  {
    if from == |s| then seen
    else
      var e := m(s, from);
      if e.None? then ListingFrom(s, from + 1, seen, m)
      else ListingFrom(s, e.value + 1, Record(seen, PathOf(s, from, e.value)), m)
  }

  /** The matches of `href="(\/(?:content|node)\/[^"]+)"` end inside the text. */
  lemma PathsEndInside(s: String)
    ensures EndsInside(s, PathAt)
  {
  }

  /** The paths the listing's global search records, from the start, with none held. */
  function Listing(html: String): seq<String> {
    PathsEndInside(html);
    ListingFrom(html, 0, [], PathAt)
  }

  predicate NoDuplicates(s: seq<String>) {
    forall i, j | 0 <= i < j < |s| :: s[i] != s[j]
  }

  predicate IsPrefixSeq(p: seq<String>, s: seq<String>) {
    |p| <= |s| && s[..|p|] == p
  }

  /** Recording a path keeps what was held, in front and without repeats. */
  lemma RecordKeeps(seen: seq<String>, path: String)
    ensures IsPrefixSeq(seen, Record(seen, path))
    ensures NoDuplicates(seen) ==> NoDuplicates(Record(seen, path))
  {
    assert (seen + [path])[..|seen|] == seen;
  }

  /** Recording adds the path unless it is the excluded link, and nothing else. */
  lemma RecordAdds(seen: seq<String>, path: String)
    ensures forall x | x in Record(seen, path) :: x in seen || (x == path && !Contains(path, ExcludedSlug))
    ensures !Contains(path, ExcludedSlug) ==> path in Record(seen, path)
  {
    assert (seen + [path])[|seen|] == path;
  }

  /** Where a match starts, its path is recorded and the search resumes after its closing quote. */
  lemma ListingMatched(s: String, pos: nat, e: nat, seen: seq<String>, m: Matcher)
    requires pos < |s| && EndsInside(s, m) && m(s, pos) == Some(e)
    ensures ListingFrom(s, pos, seen, m) == ListingFrom(s, e + 1, Record(seen, PathOf(s, pos, e)), m)
  {
  }

  /** Where no match starts, the search moves on by one. */
  lemma ListingUnmatched(s: String, pos: nat, seen: seq<String>, m: Matcher)
    requires pos < |s| && EndsInside(s, m) && m(s, pos).None?
    ensures ListingFrom(s, pos, seen, m) == ListingFrom(s, pos + 1, seen, m)
  {
  }

  /** The search keeps what was held, in front and in order, and adds no path twice. */
  lemma {:induction false} ListingKeeps(s: String, from: nat, seen: seq<String>, m: Matcher)
    requires from <= |s| && EndsInside(s, m)
    ensures IsPrefixSeq(seen, ListingFrom(s, from, seen, m))
    ensures NoDuplicates(seen) ==> NoDuplicates(ListingFrom(s, from, seen, m))
    decreases |s| - from
  {
    if from < |s| {
      var e := m(s, from);
      if e.None? {
        ListingKeeps(s, from + 1, seen, m);
      } else {
        var next := Record(seen, PathOf(s, from, e.value));
        RecordKeeps(seen, PathOf(s, from, e.value));
        ListingKeeps(s, e.value + 1, next, m);
        var r := ListingFrom(s, e.value + 1, next, m);
        assert r[..|seen|] == r[..|next|][..|seen|];
      }
    }
  }

  /** A path held is still held when the search ends. */
  lemma ListingHolds(s: String, from: nat, seen: seq<String>, x: String, m: Matcher)
    requires from <= |s| && EndsInside(s, m) && x in seen
    ensures x in ListingFrom(s, from, seen, m)
  {
    ListingKeeps(s, from, seen, m);
    var r := ListingFrom(s, from, seen, m);
    assert x in r[..|seen|];
  }

  /** Every path the search adds is the capture of a match, other than the excluded link. */
  lemma {:induction false} ListingSound(s: String, from: nat, seen: seq<String>, x: String, m: Matcher) returns (i: nat, e: nat)
    requires from <= |s| && EndsInside(s, m) && x in ListingFrom(s, from, seen, m) && x !in seen
    ensures from <= i < |s| && m(s, i) == Some(e) && x == PathOf(s, i, e) && !Contains(x, ExcludedSlug)
    ensures Reaches(s, from, i, m)
    decreases |s| - from
  {
    var f := m(s, from);
    if f.None? {
      i, e := ListingSound(s, from + 1, seen, x, m);
    } else {
      var path := PathOf(s, from, f.value);
      var next := Record(seen, path);
      RecordAdds(seen, path);
      if x in next {
        i, e := from, f.value;
      } else {
        i, e := ListingSound(s, f.value + 1, next, x, m);
      }
    }
  }

  /**
   * The global search with `m`, started at `from`, tries a match at `i`:
   * it steps over positions where no match starts and jumps past the
   * closing quote of every match it takes.
   */
  predicate Reaches(s: String, from: nat, i: nat, m: Matcher)
    requires from <= |s| && EndsInside(s, m)
    decreases |s| - from
  {
    from == i ||
    (from < i && from < |s| &&
     var e := m(s, from);
     if e.None? then Reaches(s, from + 1, i, m) else Reaches(s, e.value + 1, i, m))
  }

  /** No match starts at `j`, or the one there closes before `i`. */
  predicate ClosesBefore(s: String, j: nat, i: nat, m: Matcher) {
    m(s, j).None? || m(s, j).value < i
  }

  /** The search reaches `i` when every match that starts before `i` closes before it. */
  lemma {:induction false} ReachedWhenEarlierClose(s: String, from: nat, i: nat, m: Matcher)
    requires from <= i <= |s| && EndsInside(s, m)
    requires forall j | from <= j < i :: ClosesBefore(s, j, i, m)
    ensures Reaches(s, from, i, m)
    decreases |s| - from
  {
    if from < i {
      assert ClosesBefore(s, from, i, m);
      var e := m(s, from);
      if e.None? {
        ReachedWhenEarlierClose(s, from + 1, i, m);
      } else {
        ReachedWhenEarlierClose(s, e.value + 1, i, m);
      }
    }
  }

  /** A position the search does not reach lies inside a match it takes: after its start, up to its closing quote. */
  lemma {:induction false} SkippedInsideMatch(s: String, from: nat, i: nat, m: Matcher) returns (j: nat)
    requires from <= i <= |s| && EndsInside(s, m) && !Reaches(s, from, i, m)
    ensures from <= j < i && Reaches(s, from, j, m) && m(s, j).Some? && i <= m(s, j).value
    decreases |s| - from
  {
    var e := m(s, from);
    var next := if e.None? then from + 1 else e.value + 1;
    if e.Some? && i <= e.value {
      j := from;
    } else {
      assert next < i;
      j := SkippedInsideMatch(s, next, i, m);
    }
  }

  /** The path of every match the search reaches is held at the end, unless it is the excluded link. */
  lemma {:induction false} ListingComplete(s: String, from: nat, seen: seq<String>, i: nat, e: nat, m: Matcher)
    requires from <= i < |s| && EndsInside(s, m) && m(s, i) == Some(e) && Reaches(s, from, i, m)
    requires !Contains(PathOf(s, i, e), ExcludedSlug)
    ensures PathOf(s, i, e) in ListingFrom(s, from, seen, m)
    decreases |s| - from
  {
    if from == i {
      ListingRecords(s, i, e, seen, m);
    } else if m(s, from).None? {
      ListingUnmatched(s, from, seen, m);
      ListingComplete(s, from + 1, seen, i, e, m);
    } else {
      var f := m(s, from).value;
      ListingMatched(s, from, f, seen, m);
      ListingComplete(s, f + 1, Record(seen, PathOf(s, from, f)), i, e, m);
    }
  }

  /** The path of a match the search stops at is held at the end, unless it is the excluded link. */
  lemma ListingRecords(s: String, i: nat, e: nat, seen: seq<String>, m: Matcher)
    requires i < |s| && EndsInside(s, m) && m(s, i) == Some(e)
    requires !Contains(PathOf(s, i, e), ExcludedSlug)
    ensures PathOf(s, i, e) in ListingFrom(s, i, seen, m)
  {
    var path := PathOf(s, i, e);
    ListingMatched(s, i, e, seen, m);
    RecordAdds(seen, path);
    ListingHolds(s, e + 1, Record(seen, path), path, m);
  }

  /**
   * The law paths linked from a listing page, each once, in the order
   * they first appear, without the excluded link.
   */
  method ExtractLawPathsFromListingHtml(html: String) returns (paths: seq<String>)
    ensures paths == Listing(html)
  {
    PathsEndInside(html);
    paths := [];
    var pos := 0;
    while pos < |html|
      invariant pos <= |html|
      invariant ListingFrom(html, pos, paths, PathAt) == Listing(html)
      decreases |html| - pos
    {
      pos, paths := SearchStep(html, pos, paths);
    }
  }

  /** One step of the search at `pos`: a match's path is recorded and the search resumes after its quote. */
  method SearchStep(html: String, pos: nat, paths: seq<String>) returns (pos': nat, paths': seq<String>)
    requires pos < |html| && EndsInside(html, PathAt)
    ensures pos < pos' <= |html|
    ensures ListingFrom(html, pos', paths', PathAt) == ListingFrom(html, pos, paths, PathAt)
  {
    var e := PathAt(html, pos);
    if e.Some? {
      var path := PathOf(html, pos, e.value);
      ListingMatched(html, pos, e.value, paths, PathAt);
      paths' := AddPath(paths, path);
      pos' := e.value + 1;
    } else {
      ListingUnmatched(html, pos, paths, PathAt);
      pos', paths' := pos + 1, paths;
    }
  }

  /** The listing's paths are content or node paths, none of them the excluded link, each captured by a match the search reaches. */
  lemma ListingPathsSound(html: String, x: String) returns (i: nat, e: nat)
    requires x in Listing(html)
    ensures PathAt(html, i) == Some(e) && x == PathOf(html, i, e) && ReachesFromStart(html, i)
    ensures IsLawPath(x) && !Contains(x, ExcludedSlug)
  {
    PathsEndInside(html);
    i, e := ListingSound(html, 0, [], x, PathAt);
    PathAtIsLawPath(html, i);
  }

  /** The search over a listing page, from its start, tries a match at `i`. */
  predicate ReachesFromStart(html: String, i: nat) {
    PathsEndInside(html);
    Reaches(html, 0, i, PathAt)
  }

  /** The path of every match the search reaches is in the listing unless it is the excluded link. */
  lemma ListingPathsComplete(html: String, i: nat)
    requires i < |html| && PathAt(html, i).Some? && ReachesFromStart(html, i)
    requires !Contains(PathOf(html, i, PathAt(html, i).value), ExcludedSlug)
    ensures PathOf(html, i, PathAt(html, i).value) in Listing(html)
  {
    PathsEndInside(html);
    ListingComplete(html, 0, [], i, PathAt(html, i).value, PathAt);
  }

  /** Every position at or before which all earlier matches have closed is reached. */
  lemma ListingReachesClosed(html: String, i: nat)
    requires i <= |html| && forall j | 0 <= j < i :: ClosesBefore(html, j, i, PathAt)
    ensures ReachesFromStart(html, i)
  {
    PathsEndInside(html);
    ReachedWhenEarlierClose(html, 0, i, PathAt);
  }

  /**
   * A match the search does not reach starts inside a match it does
   * reach, at or before that one's closing quote, so its path is not
   * taken from there.
   */
  lemma ListingSkipsInside(html: String, i: nat) returns (j: nat)
    requires i <= |html| && !ReachesFromStart(html, i)
    ensures j < i && ReachesFromStart(html, j) && PathAt(html, j).Some? && i <= PathAt(html, j).value
  {
    PathsEndInside(html);
    j := SkippedInsideMatch(html, 0, i, PathAt);
  }

  /** The listing holds no path twice. */
  lemma ListingDistinct(html: String)
    ensures NoDuplicates(Listing(html))
  {
    PathsEndInside(html);
    ListingKeeps(html, 0, [], PathAt);
  }

  /** `if (path.includes('shrk-fy-ttwyr')) continue; paths.add(path)` on a set kept in insertion order. */
  method AddPath(paths: seq<String>, path: String) returns (paths': seq<String>)
    ensures paths' == Record(paths, path)
  {
    paths' := paths;
    if !Contains(path, ExcludedSlug) && path !in paths {
      paths' := paths + [path];
    }
  }


  // ---------------------------------------------------------------------
  // extractLastPageNumber
  // ---------------------------------------------------------------------

  const PagerLast: String := "class=\"pager-last\""
  const AnchorOpen: String := "><a"
  const PageParam: String := "?page="

  /** The start of the run of digits that ends at `u`, not going below `lo`. */
  function DigitsBefore(s: String, lo: nat, u: nat): (d: nat)
    requires lo <= u <= |s|
    ensures lo <= d <= u && forall k | d <= k < u :: IsAsciiDigit(s[k])
    ensures d > lo ==> !IsAsciiDigit(s[d - 1])
    decreases u - lo
  {
    if u > lo && IsAsciiDigit(s[u - 1]) then DigitsBefore(s, lo, u - 1) else u
  }

  /**
   * `href="`, then quote-free text ending in `?page=` and digits, then a
   * quote: the link starts at `h` and its digits are `s[d..u]`.
   */
  predicate IsPageHref(s: String, h: nat, d: nat, u: nat) {
    OccursAt(s, HrefOpen, h) && h + |HrefOpen| + |PageParam| <= d < u < |s| &&
    OccursAt(s, PageParam, d - |PageParam|) && s[u] == '"' &&
    Lacks(s, h + |HrefOpen|, u, '"') && forall k | d <= k < u :: IsAsciiDigit(s[k])
  }

  /**
   * `href="[^"]*\?page=(\d+)"` at `h`. The quote-free run reaches the first
   * quote, and `?page=` ends in a non-digit, so the digits are the whole run
   * of digits before that quote.
   */
  function PageHrefAt(s: String, h: nat): (r: Option<(nat, nat)>)
    ensures r.Some? ==> h < r.value.0 < r.value.1 < |s| && AllDigits(s[r.value.0..r.value.1])
  {
    if !OccursAt(s, HrefOpen, h) then None
    else
      var u := RunUntil(s, h + |HrefOpen|, '"');
      if u == |s| then None
      else
        var d := DigitsBefore(s, h + |HrefOpen|, u);
        if d == u || d < h + |HrefOpen| + |PageParam| || !OccursAt(s, PageParam, d - |PageParam|) then None
        else Some((d, u))
  }

  /** What the link recogniser finds is a page link. */
  lemma PageHrefSound(s: String, h: nat)
    requires PageHrefAt(s, h).Some?
    ensures IsPageHref(s, h, PageHrefAt(s, h).value.0, PageHrefAt(s, h).value.1)
  {
  }

  /** A page link's digits are unique: the match at `h` finds exactly them. */
  lemma PageHrefFound(s: String, h: nat, d: nat, u: nat)
    requires IsPageHref(s, h, d, u)
    ensures PageHrefAt(s, h) == Some((d, u))
  {
    RunUntilUnique(s, h + |HrefOpen|, '"', u);
    assert s[d - 1] == PageParam[|PageParam| - 1];
    assert !IsAsciiDigit(s[d - 1]);
  }

  /**
   * `class="pager-last"`, text up to the first `>`, `<a`, text without `>`
   * and a page link at `h` with digits `s[d..u]`.
   */
  predicate IsPagerMatch(s: String, i: nat, g: nat, h: nat, d: nat, u: nat) {
    OccursAt(s, PagerLast, i) && i + |PagerLast| <= g && OccursAt(s, AnchorOpen, g) &&
    Lacks(s, i + |PagerLast|, g, '>') &&
    g + |AnchorOpen| <= h <= |s| && Lacks(s, g + |AnchorOpen|, h, '>') &&
    IsPageHref(s, h, d, u)
  }

  /** `class="pager-last"[^>]*><a` at `i`: where the `><a` starts. */
  function AnchorAt(s: String, i: nat): (g: Option<nat>)
    ensures g.Some? ==> OccursAt(s, PagerLast, i) && i + |PagerLast| <= g.value && OccursAt(s, AnchorOpen, g.value) &&
                        Lacks(s, i + |PagerLast|, g.value, '>')
  {
    if !OccursAt(s, PagerLast, i) then None
    else
      var g := RunUntil(s, i + |PagerLast|, '>');
      if OccursAt(s, AnchorOpen, g) then Some(g) else None
  }

  /** A recogniser of page links: where one starting at a position has its digits. */
  type LinkMatcher = (String, nat) -> Option<(nat, nat)>

  /** The pager pattern at `i` with `link` for its page links: `[^>]*` after `<a` backtracks to the last link it reaches. */
  function PagerWith(s: String, i: nat, link: LinkMatcher): (r: Option<(nat, nat, nat, nat)>)
    ensures r.Some? ==> AnchorAt(s, i) == Some(r.value.0) && r.value.0 + |AnchorOpen| <= r.value.1 <= |s| &&
                        Lacks(s, r.value.0 + |AnchorOpen|, r.value.1, '>') &&
                        link(s, r.value.1) == Some((r.value.2, r.value.3))
  {
    var g := AnchorAt(s, i);
    if g.None? || g.value + |AnchorOpen| > |s| then None
    else
      var lo := g.value + |AnchorOpen|;
      var m := LastMatch(s, lo, RunUntil(s, lo, '>'), link);
      if m.None? then None else Some((g.value, m.value.0, m.value.1.0, m.value.1.1))
  }

  /** The match of the pager pattern at `i`: the `>` before `<a`, the link, and its digits. */
  function PagerAt(s: String, i: nat): (r: Option<(nat, nat, nat, nat)>)
    ensures r.Some? ==> r.value.2 < r.value.3 < |s| && AllDigits(s[r.value.2..r.value.3])
  {
    PagerWith(s, i, PageHrefAt)
  }

  /** What the pager recogniser finds is a pager match. */
  lemma PagerSound(s: String, i: nat)
    requires PagerAt(s, i).Some?
    ensures var r := PagerAt(s, i).value; IsPagerMatch(s, i, r.0, r.1, r.2, r.3)
  {
    var r := PagerAt(s, i).value;
    PageHrefSound(s, r.1);
  }

  /** The anchor is the first `>` after the marker when `<a` follows it. */
  lemma AnchorFound(s: String, i: nat, g: nat)
    requires OccursAt(s, PagerLast, i) && i + |PagerLast| <= g && OccursAt(s, AnchorOpen, g)
    requires Lacks(s, i + |PagerLast|, g, '>')
    ensures AnchorAt(s, i) == Some(g)
  {
    RunUntilUnique(s, i + |PagerLast|, '>', g);
  }

  /** The link found is the last one the `>`-free run after the anchor reaches. */
  lemma PagerWithFound(s: String, i: nat, g: nat, h: nat, v: (nat, nat), link: LinkMatcher)
    requires AnchorAt(s, i) == Some(g) && g + |AnchorOpen| <= h <= |s| && Lacks(s, g + |AnchorOpen|, h, '>')
    requires link(s, h) == Some(v)
    requires forall h2 | h < h2 <= RunUntil(s, g + |AnchorOpen|, '>') :: link(s, h2).None?
    ensures PagerWith(s, i, link) == Some((g, h, v.0, v.1))
  {
    var lo := g + |AnchorOpen|;
    RunUntilReaches(s, lo, '>', h);
    LastMatchFound(s, lo, RunUntil(s, lo, '>'), h, link);
  }

  /** Where the pager matches with its last link before the next `>`, the match at `i` finds that link. */
  lemma PagerFound(s: String, i: nat, g: nat, h: nat, d: nat, u: nat)
    requires IsPagerMatch(s, i, g, h, d, u)
    requires forall h2 | h < h2 <= RunUntil(s, g + |AnchorOpen|, '>') :: PageHrefAt(s, h2).None?
    ensures PagerAt(s, i) == Some((g, h, d, u))
  {
    AnchorFound(s, i, g);
    PageHrefFound(s, h, d, u);
    PagerWithFound(s, i, g, h, (d, u), PageHrefAt);
  }

  /**
   * The page number of the last-page link of a listing's pager, or 0 when
   * there is none: without the `pager-last` marker the number is 0.
   */
  function ExtractLastPageNumber(html: String): (r: nat)
    ensures !Contains(html, PagerLast) ==> r == 0
  {
    var m := FirstMatch(html, 0, PagerAt);
    if m.None? then 0
    else
      PagerSound(html, m.value.0);
      OccursContains(html, PagerLast, m.value.0);
      var d, u := m.value.1.2, m.value.1.3;
      ParseDigits(html[d..u])
  }

  /** The number read is that of the leftmost pager match, with its last link. */
  lemma LastPageNumberOfMatch(html: String, i: nat, g: nat, h: nat, d: nat, u: nat)
    requires IsPagerMatch(html, i, g, h, d, u)
    requires forall h2 | h < h2 <= RunUntil(html, g + |AnchorOpen|, '>') :: PageHrefAt(html, h2).None?
    requires forall j | 0 <= j < i :: PagerAt(html, j).None?
    ensures ExtractLastPageNumber(html) == ParseDigits(html[d..u])
  {
    PagerFound(html, i, g, h, d, u);
    var m := FirstMatch(html, 0, PagerAt);
    assert m.Some? && m.value.0 == i;
  }
}
