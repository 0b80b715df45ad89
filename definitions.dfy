/**
 * `extractDefinitions`: the definitions a provision gives ("يقصد بكلمة X : ..."),
 * found by a global regular expression and kept when both halves are long
 * enough. The expression is modelled as a hand-written backtracking search
 * that tries the alternatives in the order a JavaScript engine does.
 */
module Definitions {
  import opened TextBasics
  import opened Headings

  datatype Definition = Definition(term: String, definition: String, sourceProvision: String)

  /**
   * One match of the expression: `s[start..termEnd]` is group 1,
   * `s[defStart..defEnd]` group 2, and `s[termStart..termEnd]` is what
   * `[^\n،:]{1,80}` took.
   */
  datatype Match = Match(start: nat, termStart: nat, termEnd: nat, defStart: nat, defEnd: nat)

  const Yuqsad: String := "يقصد"
  const Tani: String := "تعني"
  const Almaqsud: String := "المقصود"

  /** `[^\n،:]`, a character of the defined term. */
  predicate IsTermChar(c: char) {
    c != '\n' && c != '،' && c != ':'
  }

  /** `[،:\-]`, the separator between term and definition. */
  predicate IsSeparator(c: char) {
    c == '،' || c == ':' || c == '-'
  }

  /** The part of a match from the separator on: `[،:\-]\s*([^\n]{8,600})`. */
  predicate TailMatches(s: String, m: Match) {
    m.termStart < m.termEnd <= m.termStart + 80 &&
    m.termEnd < |s| && (forall k | m.termStart <= k < m.termEnd :: IsTermChar(s[k])) &&
    IsSeparator(s[m.termEnd]) &&
    m.termEnd < m.defStart && m.defStart + 8 <= m.defEnd <= |s| && m.defEnd - m.defStart <= 600 &&
    (forall k | m.termEnd < k < m.defStart :: IsSpace(s[k])) &&
    (forall k | m.defStart <= k < m.defEnd :: IsNotNewline(s[k]))
  }

  /** What every match of the expression looks like in `s`. */
  predicate IsMatch(s: String, m: Match) {
    OccursAt(s, Yuqsad, m.start) && m.start + |Yuqsad| <= m.termStart && TailMatches(s, m)
  }

  /**
   * `\s*([^\n]{8,600})` after the separator: the greedy `\s*` gives back one
   * character at a time, from `p` down to `lo`, until eight non-newline
   * characters follow; the group then takes up to 600 of them.
   */
  function DefinitionFrom(s: String, lo: nat, p: nat): (r: Option<(nat, nat)>)
    requires lo <= p <= |s|
    ensures r.Some? ==> lo <= r.value.0 <= p && r.value.0 + 8 <= r.value.1 <= |s|
    ensures r.Some? ==> r.value.1 - r.value.0 <= 600
    ensures r.Some? ==> forall k | r.value.0 <= k < r.value.1 :: IsNotNewline(s[k])
    decreases p - lo
  {
    var run := Span(s, p, IsNotNewline) - p;
    if run >= 8 then Some((p, p + Min(600, run)))
    else if p == lo then None
    else DefinitionFrom(s, lo, p - 1)
  }

  /**
   * `[^\n،:]{1,n}` at `t`, then a separator and a definition: the greedy
   * count gives back one character at a time. The match's start is filled
   * in by the caller.
   */
  function TermOfLength(s: String, t: nat, n: nat): (r: Option<Match>)
    requires t + n <= |s| && n <= 80
    requires forall k | t <= k < t + n :: IsTermChar(s[k])
    ensures r.Some? ==> r.value.termStart == t && TailMatches(s, r.value)
    decreases n
  {
    if n == 0 then None
    else
      var q := t + n;
      var def := if q < |s| && IsSeparator(s[q]) then DefinitionFrom(s, q + 1, Span(s, q + 1, IsSpace)) else None;
      if def.Some? then Some(Match(0, t, q, def.value.0, def.value.1))
      else TermOfLength(s, t, n - 1)
  }

  /** The longest term the greedy `[^\n،:]{1,80}` can take at `t`. */
  function TermRun(s: String, t: nat): (n: nat)
    requires t <= |s|
    ensures t + n <= |s| && n <= 80
    ensures forall k | t <= k < t + n :: IsTermChar(s[k])
  {
    Min(80, Span(s, t, IsTermChar) - t)
  }

  /** The `\s*` before the term, giving back from `t` down to `lo`. */
  function TermFrom(s: String, lo: nat, t: nat): (r: Option<Match>)
    requires lo <= t <= |s|
    ensures r.Some? ==> lo <= r.value.termStart && TailMatches(s, r.value)
    decreases t - lo
  {
    var m := TermOfLength(s, t, TermRun(s, t));
    if m.Some? then m
    else if t == lo then None
    else TermFrom(s, lo, t - 1)
  }

  /** `\s*[^\n،:]{1,80}[،:\-]\s*([^\n]{8,600})` from `a` on. */
  function TermSearch(s: String, a: nat): (r: Option<Match>)
    requires a <= |s|
    ensures r.Some? ==> a <= r.value.termStart && TailMatches(s, r.value)
  {
    TermFrom(s, a, Span(s, a, IsSpace))
  }

  /** `(?:به|بكلمة|بعبارة)?` at `b`: each alternative in turn, then none. */
  function AfterKeyword(s: String, b: nat): (r: Option<Match>)
    requires b <= |s|
    ensures r.Some? ==> b <= r.value.termStart && TailMatches(s, r.value)
  {
    var bih := if OccursAt(s, "به", b) then TermSearch(s, b + 2) else None;
    var bikalima := if OccursAt(s, "بكلمة", b) then TermSearch(s, b + 5) else None;
    var biibara := if OccursAt(s, "بعبارة", b) then TermSearch(s, b + 6) else None;
    if bih.Some? then bih
    else if bikalima.Some? then bikalima
    else if biibara.Some? then biibara
    else TermSearch(s, b)
  }

  /** The `\s*` after the keyword, giving back from `b` down to `lo`. */
  function KeywordGap(s: String, lo: nat, b: nat): (r: Option<Match>)
    requires lo <= b <= |s|
    ensures r.Some? ==> lo <= r.value.termStart && TailMatches(s, r.value)
    decreases b - lo
  {
    var m := AfterKeyword(s, b);
    if m.Some? then m
    else if b == lo then None
    else KeywordGap(s, lo, b - 1)
  }

  /** The match of the whole expression that starts at `i`, if any. */
  function MatchAt(s: String, i: nat): (r: Option<Match>)
    ensures r.Some? ==> r.value.start == i && IsMatch(s, r.value)
  {
    if OccursAt(s, Yuqsad, i) then
      var m := KeywordGap(s, i + 4, Span(s, i + 4, IsSpace));
      if m.Some? then Some(m.value.(start := i)) else None
    else None
  }

  /** `regex.exec` from `lastIndex` = `from`: the leftmost match starting at or after `from`. */
  function NextMatch(s: String, from: nat): (r: Option<Match>)
    requires from <= |s|
    ensures r.Some? ==> from <= r.value.start && IsMatch(s, r.value) && MatchAt(s, r.value.start) == r
    ensures r.Some? ==> forall j | from <= j < r.value.start :: MatchAt(s, j).None?
    ensures r.None? ==> forall j | from <= j <= |s| :: MatchAt(s, j).None?
  {
    var f := FirstMatch(s, from, MatchAt);
    if f.Some? then Some(f.value.1) else None
  }

  /** The definition a match yields, when both trimmed groups are long enough. */
  function Kept(s: String, m: Match, src: String): (r: seq<Definition>)
    requires m.start <= m.termEnd <= |s| && m.defStart <= m.defEnd <= |s|
  {
    var term := Trim(s[m.start..m.termEnd]);
    var definition := Trim(s[m.defStart..m.defEnd]);
    if |term| > 2 && |definition| > 8 then [Definition(term, definition, src)] else []
  }

  /** Every definition the global search finds from `from` on. */
  function DefinitionsFrom(s: String, from: nat, src: String): (r: seq<Definition>)
    requires from <= |s|
    decreases |s| - from
  {
    match NextMatch(s, from)
    case None => []
    case Some(m) => Kept(s, m, src) + DefinitionsFrom(s, m.defEnd, src)
  }

  /** The content names one of the three cue words. */
  predicate HasCue(content: String) {
    Contains(content, Yuqsad) || Contains(content, Tani) || Contains(content, Almaqsud)
  }

  /**
   * `extractDefinitions`: nothing unless one of the three cue words occurs.
   * Only well-formed definitions are returned, and none unless the content
   * holds يقصد: the cue words تعني and المقصود let the content past the guard,
   * but the expression only matches يقصد.
   */
  function Definitions(content: String, src: String): (r: seq<Definition>)
    ensures forall d | d in r :: IsDefinitionOf(d, src)
    ensures !HasCue(content) ==> r == []
    ensures !Contains(content, Yuqsad) ==> r == []
  {
    if !HasCue(content) then []
    else
      DefinitionsFromShape(content, 0, src);
      var m := NextMatch(content, 0);
      if m.Some? then
        OccursContains(content, Yuqsad, m.value.start);
        DefinitionsFrom(content, 0, src)
      else DefinitionsFrom(content, 0, src)
  }

  /** The `regex.exec` loop of `extractDefinitions`. */
  method ExtractDefinitions(content: String, src: String) returns (defs: seq<Definition>)
    ensures defs == Definitions(content, src)
  {
    if !HasCue(content) {
      return [];
    }
    defs := [];
    var lastIndex: nat := 0;
    var m := NextMatch(content, lastIndex);
    while m.Some?
      invariant lastIndex <= |content| && m == NextMatch(content, lastIndex)
      invariant defs + DefinitionsFrom(content, lastIndex, src) == DefinitionsFrom(content, 0, src)
      decreases |content| - lastIndex
    {
      ghost var before := defs;
      DefinitionsFromMatch(content, lastIndex, src, m.value);
      var kept := KeepMatch(content, m.value, src);
      defs := defs + kept;
      AppendAssoc(before, kept, DefinitionsFrom(content, m.value.defEnd, src));
      lastIndex := m.value.defEnd;
      m := NextMatch(content, lastIndex);
    }
    DefinitionsFromEnd(content, lastIndex, src);
  }

  /** The body of the `regex.exec` loop: both groups trimmed, kept when long enough. */
  method KeepMatch(content: String, m: Match, src: String) returns (kept: seq<Definition>)
    requires m.start <= m.termEnd <= |content| && m.defStart <= m.defEnd <= |content|
    ensures kept == Kept(content, m, src)
  {
    var term := Trim(content[m.start..m.termEnd]);
    var definition := Trim(content[m.defStart..m.defEnd]);
    kept := [];
    if |term| > 2 && |definition| > 8 {
      kept := [Definition(term, definition, src)];
    }
  }

  lemma AppendAssoc<T>(a: seq<T>, b: seq<T>, c: seq<T>)
    ensures (a + b) + c == a + (b + c)
  {
  }

  /** Once no match is left, the search yields nothing more. */
  lemma DefinitionsFromEnd(content: String, from: nat, src: String)
    requires from <= |content| && NextMatch(content, from).None?
    ensures DefinitionsFrom(content, from, src) == []
  {
  }

  /** The search from `from` yields the next match's definition and then the search from that match's end. */
  lemma DefinitionsFromMatch(content: String, from: nat, src: String, m: Match)
    requires from <= |content| && NextMatch(content, from) == Some(m)
    ensures from <= m.start <= m.termEnd <= |content| && m.defStart <= m.defEnd <= |content| && m.start < m.defEnd
    ensures DefinitionsFrom(content, from, src) == Kept(content, m, src) + DefinitionsFrom(content, m.defEnd, src)
  {
  }

  /**
   * What every returned definition satisfies: both halves trimmed and long
   * enough, the definition one line of at most 600 characters, the term
   * opening with the cue word, and the owning provision's reference attached.
   */
  predicate IsDefinitionOf(d: Definition, src: String) {
    |d.term| > 2 && |d.definition| > 8 && |d.definition| <= 600 &&
    d.sourceProvision == src && IsPrefix(Yuqsad, d.term) &&
    Trim(d.term) == d.term && Trim(d.definition) == d.definition &&
    (forall k | 0 <= k < |d.definition| :: IsNotNewline(d.definition[k]))
  }

  /** The term of a match opens with the cue word. */
  lemma CueOpensTerm(s: String, m: Match)
    requires IsMatch(s, m)
    ensures IsPrefix(Yuqsad, s[m.start..m.termEnd])
  {
    assert s[m.start..m.termEnd][..|Yuqsad|] == s[m.start..m.start + |Yuqsad|];
  }

  /** The trimmed second group is trimmed, one line and at most 600 characters long. */
  lemma DefinitionGroupShape(g: String)
    requires |g| <= 600 && forall k | 0 <= k < |g| :: IsNotNewline(g[k])
    ensures var t := Trim(g);
      Trim(t) == t && |t| <= 600 && forall k | 0 <= k < |t| :: IsNotNewline(t[k])
  {
    TrimIdempotent(g);
    var a, b := TrimIsSlice(g);
    forall k | 0 <= k < |Trim(g)| ensures IsNotNewline(Trim(g)[k]) {
      assert Trim(g)[k] == g[a + k];
    }
  }

  /** The trimmed first group is trimmed and opens with the cue word. */
  lemma TermGroupShape(s: String, m: Match)
    requires IsMatch(s, m)
    ensures var t := Trim(s[m.start..m.termEnd]);
      Trim(t) == t && IsPrefix(Yuqsad, t)
  {
    var g1 := s[m.start..m.termEnd];
    CueOpensTerm(s, m);
    assert !IsSpace(Yuqsad[0]) && !IsSpace(Yuqsad[|Yuqsad| - 1]);
    TrimKeepsPrefix(g1, Yuqsad);
    TrimIdempotent(g1);
  }

  /** The definition a match yields is well formed. */
  lemma KeptShape(s: String, m: Match, src: String)
    requires IsMatch(s, m)
    ensures forall d | d in Kept(s, m, src) :: IsDefinitionOf(d, src)
  {
    TermGroupShape(s, m);
    var g := s[m.defStart..m.defEnd];
    assert forall k | 0 <= k < |g| :: g[k] == s[m.defStart + k];
    DefinitionGroupShape(g);
    var t1 := Trim(s[m.start..m.termEnd]);
    var t2 := Trim(g);
    if |t1| > 2 && |t2| > 8 {
      assert IsDefinitionOf(Definition(t1, t2, src), src);
    }
  }

  /** Every definition the global search returns is well formed. */
  lemma {:induction false} DefinitionsFromShape(s: String, from: nat, src: String)
    requires from <= |s|
    ensures forall d | d in DefinitionsFrom(s, from, src) :: IsDefinitionOf(d, src)
    decreases |s| - from
  {
    var m := NextMatch(s, from);
    if m.Some? {
      KeptShape(s, m.value, src);
      DefinitionsFromShape(s, m.value.defEnd, src);
    }
  }
}
