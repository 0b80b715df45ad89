/**
 * Character classes and string operations shared by the parsers: the
 * JavaScript notions of whitespace (`\s`, `trim`), ASCII word characters
 * (`\w`, `\d`), substring search (`includes`), global literal replacement,
 * `split`/`join` on a separator and decimal conversion.
 *
 * Strings are sequences of Unicode scalar values.  Every character the
 * parsers act on lies in the Basic Multilingual Plane, where this agrees
 * with JavaScript's UTF-16 code units.
 */
module TextBasics {

  datatype Option<T> = None | Some(value: T)

  type String = seq<char>

  // ---------------------------------------------------------------------
  // Character classes
  // ---------------------------------------------------------------------

  /** JavaScript `\s`: WhiteSpace and LineTerminator (also what `trim` strips). */
  predicate IsSpace(c: char) {
    c == '\t' || c == '\n' || c == '\U{000B}' || c == '\U{000C}' || c == '\r' || c == ' ' ||
    c == '\U{00A0}' || c == '\U{1680}' || ('\U{2000}' <= c <= '\U{200A}') ||
    c == '\U{2028}' || c == '\U{2029}' || c == '\U{202F}' || c == '\U{205F}' ||
    c == '\U{3000}' || c == '\U{FEFF}'
  }

  /** Whitespace other than the plain space does not occur. */
  predicate IsPlainSpaced(c: char) {
    IsSpace(c) ==> c == ' '
  }

  /** JavaScript `\d` (ASCII only, with or without the `u` flag). */
  predicate IsAsciiDigit(c: char) {
    '0' <= c <= '9'
  }

  /** `[^\n]` */
  predicate IsNotNewline(c: char) {
    c != '\n'
  }

  predicate IsAsciiLetter(c: char) {
    ('a' <= c <= 'z') || ('A' <= c <= 'Z')
  }

  predicate IsAsciiAlnum(c: char) {
    IsAsciiDigit(c) || IsAsciiLetter(c)
  }

  /** JavaScript `\w` without the `i` flag: ASCII letters, digits and `_`. */
  predicate IsWordChar(c: char) {
    IsAsciiAlnum(c) || c == '_'
  }

  predicate AllDigits(s: String) {
    forall i | 0 <= i < |s| :: IsAsciiDigit(s[i])
  }

  predicate NoneSatisfy(s: String, f: char -> bool) {
    forall i | 0 <= i < |s| :: !f(s[i])
  }

  // ---------------------------------------------------------------------
  // Substrings
  // ---------------------------------------------------------------------

  predicate IsPrefix(p: String, s: String) {
    |p| <= |s| && s[..|p|] == p
  }

  /** `p` occurs in `s` starting at index `i`. */
  predicate OccursAt(s: String, p: String, i: int) {
    0 <= i && i + |p| <= |s| && s[i..i + |p|] == p
  }

  /** JavaScript `s.includes(p)`. */
  predicate Contains(s: String, p: String)
    decreases |s|
  {
    if IsPrefix(p, s) then true
    else if |s| == 0 then false
    else Contains(s[1..], p)
  }

  lemma {:induction false} ContainsIffOccurs(s: String, p: String)
    ensures Contains(s, p) <==> exists i :: OccursAt(s, p, i)
    decreases |s|
  {
    if IsPrefix(p, s) {
      assert OccursAt(s, p, 0);
    } else if |s| == 0 {
      assert forall i :: !OccursAt(s, p, i);
    } else {
      ContainsIffOccurs(s[1..], p);
      if exists i :: OccursAt(s[1..], p, i) {
        var i :| OccursAt(s[1..], p, i);
        assert s[i + 1..i + 1 + |p|] == s[1..][i..i + |p|];
        assert OccursAt(s, p, i + 1);
      }
      if exists i :: OccursAt(s, p, i) {
        var i :| OccursAt(s, p, i);
        assert i != 0;
        assert s[1..][i - 1..i - 1 + |p|] == s[i..i + |p|];
        assert OccursAt(s[1..], p, i - 1);
      }
    }
  }

  lemma OccursContains(s: String, p: String, i: int)
    requires OccursAt(s, p, i)
    ensures Contains(s, p)
  {
    ContainsIffOccurs(s, p);
  }

  /** Text put in front of `s` moves every occurrence in it by its length. */
  lemma OccursAtShift(p: String, s: String, w: String, i: nat)
    ensures OccursAt(p + s, w, |p| + i) == OccursAt(s, w, i)
  {
    if i + |w| <= |s| {
      assert (p + s)[|p| + i..|p| + i + |w|] == s[i..i + |w|];
    }
  }

  /** A slice that starts where `p` occurs and reaches past it opens with `p`. */
  lemma OccursAtOpensSlice(s: String, p: String, i: nat, e: nat)
    requires OccursAt(s, p, i) && i + |p| <= e <= |s|
    ensures IsPrefix(p, s[i..e])
  {
    assert s[i..e][..|p|] == s[i..i + |p|];
  }

  /** `includes` is transitive. */
  lemma ContainsTrans(s: String, p: String, q: String)
    requires Contains(s, p) && Contains(p, q)
    ensures Contains(s, q)
  {
    ContainsIffOccurs(s, p);
    ContainsIffOccurs(p, q);
    var i :| OccursAt(s, p, i);
    var j :| OccursAt(p, q, j);
    assert forall k | 0 <= k < |q| :: s[i + j + k] == s[i..i + |p|][j + k] == q[k];
    assert s[i + j..i + j + |q|] == q;
    OccursContains(s, q, i + j);
  }

  lemma ContainsInConcat(a: String, b: String, c: String, p: String)
    requires Contains(b, p)
    ensures Contains(a + b + c, p)
  {
    ContainsIffOccurs(b, p);
    var i :| OccursAt(b, p, i);
    assert (a + b + c)[|a| + i..|a| + i + |p|] == b[i..i + |p|];
    OccursContains(a + b + c, p, |a| + i);
  }

  // ---------------------------------------------------------------------
  // Whitespace: trim and `replace(/\s+/g, rep)`
  // ---------------------------------------------------------------------

  /** Leading whitespace removed (JavaScript `trimStart`). */
  function TrimStart(s: String): (r: String)
    ensures |r| <= |s| && r == s[|s| - |r|..]
    ensures r == [] || !IsSpace(r[0])
    ensures forall i | 0 <= i < |s| - |r| :: IsSpace(s[i])
    decreases |s|
  {
    if |s| > 0 && IsSpace(s[0]) then TrimStart(s[1..]) else s
  }

  /** Trailing whitespace removed (JavaScript `trimEnd`). */
  function TrimEnd(s: String): (r: String)
    ensures |r| <= |s| && r == s[..|r|]
    ensures r == [] || !IsSpace(r[|r| - 1])
    ensures forall i | |r| <= i < |s| :: IsSpace(s[i])
    decreases |s|
  {
    if |s| > 0 && IsSpace(s[|s| - 1]) then TrimEnd(s[..|s| - 1]) else s
  }

  /** JavaScript `trim`. */
  function Trim(s: String): (r: String)
  {
    TrimEnd(TrimStart(s))
  }

  /** `Trim` yields the slice `s[a..b]` between the whitespace edges of `s`. */
  lemma TrimIsSlice(s: String) returns (a: nat, b: nat)
    ensures a <= b <= |s| && Trim(s) == s[a..b]
    ensures forall i | 0 <= i < a :: IsSpace(s[i])
    ensures forall i | b <= i < |s| :: IsSpace(s[i])
    ensures a < b ==> !IsSpace(s[a]) && !IsSpace(s[b - 1])
  {
    var t := TrimStart(s);
    a := |s| - |t|;
    TrimEndOfSuffix(s, a);
    b := a + |TrimEnd(t)|;
    if a < b {
      assert s[a] == t[0];
    }
  }

  /** Trimming the end of the suffix `s[a..]` leaves the slice `s[a..b]`, with only whitespace after `b`. */
  lemma TrimEndOfSuffix(s: String, a: nat)
    requires a <= |s|
    ensures var b := a + |TrimEnd(s[a..])|;
      b <= |s| && TrimEnd(s[a..]) == s[a..b] &&
      (forall i | b <= i < |s| :: IsSpace(s[i])) &&
      (a < b ==> !IsSpace(s[b - 1]))
  {
    var t := s[a..];
    var r := TrimEnd(t);
    forall i | a + |r| <= i < |s| ensures IsSpace(s[i]) {
      assert s[i] == t[i - a];
    }
  }

  /** `Trim` is determined by where the first and the last non-space characters are. */
  lemma TrimUnique(s: String, a: nat, b: nat)
    requires a <= b <= |s|
    requires forall i | 0 <= i < a :: IsSpace(s[i])
    requires forall i | b <= i < |s| :: IsSpace(s[i])
    requires a < b ==> !IsSpace(s[a]) && !IsSpace(s[b - 1])
    ensures Trim(s) == s[a..b]
  {
    var a2, b2 := TrimIsSlice(s);
    if a < b {
      assert a2 <= a;
      assert b2 >= b;
    }
  }

  /** A text is blank exactly when every character is whitespace. */
  lemma TrimEmpty(s: String)
    ensures Trim(s) == [] <==> forall i | 0 <= i < |s| :: IsSpace(s[i])
  {
    var a, b := TrimIsSlice(s);
    if Trim(s) == [] {
      assert a == b;
    } else {
      assert !IsSpace(s[a]);
    }
  }

  lemma TrimIdempotent(s: String)
    ensures Trim(Trim(s)) == Trim(s)
  {
    var a, b := TrimIsSlice(s);
    var t := Trim(s);
    var a2, b2 := TrimIsSlice(t);
    if t != [] {
      assert !IsSpace(t[0]) && !IsSpace(t[|t| - 1]);
    }
  }

  /** Trimming a text that opens with a word without edge spaces keeps the word in front. */
  lemma TrimKeepsPrefix(g: String, w: String)
    requires IsPrefix(w, g) && |w| > 0 && !IsSpace(w[0]) && !IsSpace(w[|w| - 1])
    ensures IsPrefix(w, Trim(g))
  {
    var a, b := TrimIsSlice(g);
    assert g[0] == w[0] && g[|w| - 1] == w[|w| - 1];
    assert Trim(g)[..|w|] == g[..|w|];
  }

  /** Every character of the trimmed text is a character of the text. */
  lemma TrimKeepsAll(s: String, f: char -> bool)
    requires forall k | 0 <= k < |s| :: f(s[k])
    ensures forall k | 0 <= k < |Trim(s)| :: f(Trim(s)[k])
  {
    var a, b := TrimIsSlice(s);
    assert forall k | 0 <= k < |Trim(s)| :: Trim(s)[k] == s[a + k];
  }

  lemma SliceSplit(s: String, d: nat, e: nat, f: nat)
    requires d <= e <= f <= |s|
    ensures s[d..f] == s[d..e] + s[e..f]
  {
  }

  /** The end of the longest run of characters satisfying `f` that starts at `i`. */
  function Span(s: String, i: nat, f: char -> bool): (j: nat)
    requires i <= |s|
    ensures i <= j <= |s|
    ensures forall k | i <= k < j :: f(s[k])
    ensures j < |s| ==> !f(s[j])
    decreases |s| - i
  {
    if i < |s| && f(s[i]) then Span(s, i + 1, f) else i
  }

  /** `Span` is the only index with its two properties. */
  lemma SpanUnique(s: String, i: nat, f: char -> bool, j: nat)
    requires i <= j <= |s|
    requires forall k | i <= k < j :: f(s[k])
    requires j < |s| ==> !f(s[j])
    ensures Span(s, i, f) == j
  {
  }

  /** A span that starts inside a suffix does not look at the prefix. */
  lemma SpanShift(p: String, s: String, i: nat, f: char -> bool)
    requires i <= |s|
    ensures Span(p + s, |p| + i, f) == |p| + Span(s, i, f)
  {
    var j := Span(s, i, f);
    assert forall k | |p| + i <= k < |p| + j :: (p + s)[k] == s[k - |p|];
    SpanUnique(p + s, |p| + i, f, |p| + j);
  }

  /** A span may start anywhere inside a run it would cross anyway. */
  lemma SpanSkip(s: String, i: nat, j: nat, f: char -> bool)
    requires i <= j <= |s| && forall k | i <= k < j :: f(s[k])
    ensures Span(s, i, f) == Span(s, j, f)
  {
    SpanUnique(s, i, f, Span(s, j, f));
  }

  /** A span that ends before the end of a prefix is not affected by what follows. */
  lemma SpanExtend(s: String, t: String, i: nat, f: char -> bool)
    requires i <= |s| && Span(s, i, f) < |s|
    ensures Span(s + t, i, f) == Span(s, i, f)
  {
    var j := Span(s, i, f);
    assert forall k | i <= k <= j :: (s + t)[k] == s[k];
    SpanUnique(s + t, i, f, j);
  }

  /**
   * The leftmost position from `from` on where the matcher `m` succeeds,
   * with what it found there: how a regular expression without the `g`
   * flag, or the next `exec` of one with it, scans the text.
   */
  function FirstMatch<T>(s: String, from: nat, m: (String, nat) -> Option<T>): (r: Option<(nat, T)>)
    requires from <= |s|
    ensures r.Some? ==> from <= r.value.0 <= |s| && m(s, r.value.0) == Some(r.value.1)
    ensures forall j | from <= j <= |s| && (r.None? || j < r.value.0) :: m(s, j).None?
    decreases |s| - from
  {
    var here := m(s, from);
    if here.Some? then Some((from, here.value))
    else if from == |s| then None
    else FirstMatch(s, from + 1, m)
  }

  /** The last position in `[lo, hi]` where `m` matches, tried from `hi` down: a greedy run giving characters back. */
  function LastMatch<T>(s: String, lo: nat, hi: nat, m: (String, nat) -> Option<T>): (r: Option<(nat, T)>)
    requires lo <= hi
    ensures r.Some? ==> lo <= r.value.0 <= hi && m(s, r.value.0) == Some(r.value.1)
    ensures forall j | lo <= j <= hi && (r.None? || r.value.0 < j) :: m(s, j).None?
    decreases hi - lo
  {
    var here := m(s, hi);
    if here.Some? then Some((hi, here.value))
    else if hi == lo then None
    else LastMatch(s, lo, hi - 1, m)
  }

  /** The first position that matches is the one found. */
  lemma FirstMatchFound<T>(s: String, from: nat, i: nat, m: (String, nat) -> Option<T>)
    requires from <= i <= |s| && m(s, i).Some?
    requires forall j | from <= j < i :: m(s, j).None?
    ensures FirstMatch(s, from, m) == Some((i, m(s, i).value))
  {
  }

  /** The last position that matches is the one found. */
  lemma LastMatchFound<T>(s: String, lo: nat, hi: nat, h: nat, m: (String, nat) -> Option<T>)
    requires lo <= h <= hi && m(s, h).Some?
    requires forall j | h < j <= hi :: m(s, j).None?
    ensures LastMatch(s, lo, hi, m) == Some((h, m(s, h).value))
  {
  }

  /** The match of the literal `p` followed by `(\d+)` at `i`: where the digits end. */
  function DigitsAfter(s: String, p: String, i: nat): (r: Option<nat>)
    ensures r.Some? ==> OccursAt(s, p, i) && i + |p| < r.value <= |s| && AllDigits(s[i + |p|..r.value])
    ensures r.Some? ==> r.value == |s| || !IsAsciiDigit(s[r.value])
  {
    if !OccursAt(s, p, i) then None
    else
      var e := Span(s, i + |p|, IsAsciiDigit);
      if e == i + |p| then None else Some(e)
  }

  /**
   * JavaScript `s.replace(/\s+/g, [rep])`: every maximal run of whitespace
   * becomes the single character `rep`.
   */
  function CollapseSpaces(s: String, rep: char): (r: String)
    ensures |r| <= |s|
    decreases |s|
  {
    if s == [] then []
    else if IsSpace(s[0]) then [rep] + CollapseSpaces(TrimStart(s), rep)
    else [s[0]] + CollapseSpaces(s[1..], rep)
  }

  /** A prefix free of whitespace passes through the collapse untouched. */
  lemma {:induction false} CollapseSpacesPrefix(d: String, t: String, rep: char)
    requires NoneSatisfy(d, IsSpace)
    ensures CollapseSpaces(d + t, rep) == d + CollapseSpaces(t, rep)
    decreases |d|
  {
    if d == [] {
      assert d + t == t;
    } else {
      assert (d + t)[0] == d[0] && !IsSpace(d[0]);
      assert (d + t)[1..] == d[1..] + t;
      CollapseSpacesPrefix(d[1..], t, rep);
      assert CollapseSpaces(d + t, rep) == [d[0]] + CollapseSpaces(d[1..] + t, rep);
      assert d == [d[0]] + d[1..];
    }
  }

  /** The collapse introduces nothing but `rep` and keeps everything else. */
  lemma {:induction false} CollapseSpacesChars(s: String, rep: char, f: char -> bool)
    requires NoneSatisfy(s, f) && !f(rep)
    ensures NoneSatisfy(CollapseSpaces(s, rep), f)
    decreases |s|
  {
    if s == [] {
    } else if IsSpace(s[0]) {
      CollapseSpacesChars(TrimStart(s), rep, f);
    } else {
      CollapseSpacesChars(s[1..], rep, f);
    }
  }

  /** After the collapse, the only whitespace left is `rep`. */
  lemma {:induction false} CollapseSpacesSpaces(s: String, rep: char)
    ensures forall k | 0 <= k < |CollapseSpaces(s, rep)| ::
      IsSpace(CollapseSpaces(s, rep)[k]) ==> CollapseSpaces(s, rep)[k] == rep
    decreases |s|
  {
    if s == [] {
    } else if IsSpace(s[0]) {
      CollapseSpacesSpaces(TrimStart(s), rep);
    } else {
      CollapseSpacesSpaces(s[1..], rep);
    }
  }

  /** No two whitespace characters stand next to each other. */
  predicate SingleSpaced(s: String) {
    forall k | 0 <= k < |s| - 1 :: !(IsSpace(s[k]) && IsSpace(s[k + 1]))
  }

  /** After the collapse no two whitespace characters are adjacent. */
  lemma {:induction false} CollapseSpacesSingle(s: String, rep: char)
    ensures SingleSpaced(CollapseSpaces(s, rep))
    decreases |s|
  {
    if s == [] {
    } else if IsSpace(s[0]) {
      var t := TrimStart(s);
      CollapseSpacesSingle(t, rep);
      var r := CollapseSpaces(t, rep);
      if t != [] {
        assert r == [t[0]] + CollapseSpaces(t[1..], rep);
      }
      assert CollapseSpaces(s, rep) == [rep] + r;
    } else {
      CollapseSpacesSingle(s[1..], rep);
      assert CollapseSpaces(s, rep) == [s[0]] + CollapseSpaces(s[1..], rep);
    }
  }

  /** Trimming keeps a text single-spaced. */
  lemma TrimKeepsSingle(s: String)
    requires SingleSpaced(s)
    ensures SingleSpaced(Trim(s))
  {
    var a, b := TrimIsSlice(s);
    assert forall k | 0 <= k < |Trim(s)| :: Trim(s)[k] == s[a + k];
  }

  /** Whitespace runs collapsed to one space and the ends trimmed leave a trimmed, single-spaced text. */
  lemma TidySpaces(d: String)
    ensures var t := Trim(CollapseSpaces(d, ' '));
      Trim(t) == t && SingleSpaced(t) && forall k | 0 <= k < |t| :: IsPlainSpaced(t[k])
  {
    var c := CollapseSpaces(d, ' ');
    CollapseSpacesSpaces(d, ' ');
    CollapseSpacesSingle(d, ' ');
    assert forall k | 0 <= k < |c| :: IsPlainSpaced(c[k]);
    TrimKeepsAll(c, IsPlainSpaced);
    TrimKeepsSingle(c);
    TrimIdempotent(c);
  }

  /** Collapsing and trimming add no character but the plain space. */
  lemma TidyKeeps(d: String, f: char -> bool)
    requires NoneSatisfy(d, f) && !f(' ')
    ensures NoneSatisfy(Trim(CollapseSpaces(d, ' ')), f)
  {
    var c := CollapseSpaces(d, ' ');
    CollapseSpacesChars(d, ' ', f);
    var a, b := TrimIsSlice(c);
    var t := Trim(c);
    forall k | 0 <= k < |t| ensures !f(t[k]) {
      assert t[k] == c[a + k];
    }
  }

  /** A text without whitespace is left as it is by the collapse and the trim. */
  lemma TidyWord(w: String)
    requires w != [] && NoneSatisfy(w, IsSpace)
    ensures Trim(CollapseSpaces(w, ' ')) == w
  {
    assert w + [] == w;
    CollapseSpacesPrefix(w, [], ' ');
    TrimUnique(w, 0, |w|);
  }

  /** A single-spaced text whose only whitespace is `rep` is left as it is by the collapse. */
  lemma {:induction false} CollapseSpacesKeeps(s: String, rep: char)
    requires SingleSpaced(s) && forall k | 0 <= k < |s| :: IsSpace(s[k]) ==> s[k] == rep
    ensures CollapseSpaces(s, rep) == s
    decreases |s|
  {
    if s != [] {
      var t := s[1..];
      assert SingleSpaced(t) by {
        forall k | 0 <= k < |t| - 1 ensures !(IsSpace(t[k]) && IsSpace(t[k + 1])) {
          assert t[k] == s[k + 1] && t[k + 1] == s[k + 2];
        }
      }
      CollapseSpacesKeeps(t, rep);
      if IsSpace(s[0]) {
        var r := TrimStart(s);
        assert r == t;
      }
    }
  }

  // ---------------------------------------------------------------------
  // Per-character rewriting
  // ---------------------------------------------------------------------

  /** Keep the characters satisfying `keep`, in order. */
  function Filter(s: String, keep: char -> bool): (r: String)
    ensures |r| <= |s|
    ensures forall i | 0 <= i < |r| :: keep(r[i])
    decreases |s|
  {
    if s == [] then []
    else if keep(s[0]) then [s[0]] + Filter(s[1..], keep)
    else Filter(s[1..], keep)
  }

  lemma {:induction false} FilterConcat(a: String, b: String, keep: char -> bool)
    ensures Filter(a + b, keep) == Filter(a, keep) + Filter(b, keep)
    decreases |a|
  {
    if a == [] {
      assert a + b == b;
    } else {
      assert (a + b)[1..] == a[1..] + b;
      FilterConcat(a[1..], b, keep);
    }
  }

  lemma {:induction false} FilterKeepsAll(s: String, keep: char -> bool)
    requires forall i | 0 <= i < |s| :: keep(s[i])
    ensures Filter(s, keep) == s
    decreases |s|
  {
    if s != [] {
      FilterKeepsAll(s[1..], keep);
    }
  }

  lemma {:induction false} FilterNone(s: String, keep: char -> bool, f: char -> bool)
    requires NoneSatisfy(s, f)
    ensures NoneSatisfy(Filter(s, keep), f)
    decreases |s|
  {
    if s != [] {
      FilterNone(s[1..], keep, f);
    }
  }

  /** Each character replaced by the string `f` gives for it, in order. */
  function FlatMap(s: String, f: char -> String): String
    decreases |s|
  {
    if s == [] then [] else f(s[0]) + FlatMap(s[1..], f)
  }

  lemma {:induction false} FlatMapConcat(a: String, b: String, f: char -> String)
    ensures FlatMap(a + b, f) == FlatMap(a, f) + FlatMap(b, f)
    decreases |a|
  {
    if a == [] {
      assert a + b == b;
    } else {
      assert (a + b)[1..] == a[1..] + b;
      FlatMapConcat(a[1..], b, f);
    }
  }

  /** When every character maps to itself the text is unchanged. */
  lemma {:induction false} FlatMapIdentity(s: String, f: char -> String)
    requires forall j | 0 <= j < |s| :: f(s[j]) == [s[j]]
    ensures FlatMap(s, f) == s
    decreases |s|
  {
    if s != [] {
      FlatMapIdentity(s[1..], f);
    }
  }

  /** A property of every character `f` emits holds of every character of the result. */
  lemma {:induction false} FlatMapAll(s: String, f: char -> String, p: char -> bool)
    requires forall j | 0 <= j < |s| :: forall k | 0 <= k < |f(s[j])| :: p(f(s[j])[k])
    ensures forall k | 0 <= k < |FlatMap(s, f)| :: p(FlatMap(s, f)[k])
    decreases |s|
  {
    if s != [] {
      FlatMapAll(s[1..], f, p);
      var e, t := f(s[0]), FlatMap(s[1..], f);
      assert forall k | 0 <= k < |e| :: p(e[k]);
      forall k | 0 <= k < |e + t| ensures p((e + t)[k]) {
        if k < |e| { assert (e + t)[k] == e[k]; } else { assert (e + t)[k] == t[k - |e|]; }
      }
    }
  }

  lemma {:induction false} FlatMapLength(s: String, f: char -> String, n: nat)
    requires forall j | 0 <= j < |s| :: |f(s[j])| <= n
    ensures |FlatMap(s, f)| <= n * |s|
    decreases |s|
  {
    if s != [] {
      FlatMapLength(s[1..], f, n);
    }
  }

  /** JavaScript `toLowerCase` on ASCII letters. */
  function AsciiLower(c: char): (r: char)
    ensures IsAsciiDigit(r) <==> IsAsciiDigit(c)
    ensures ('a' <= r <= 'z') <==> IsAsciiLetter(c)
  {
    if 'A' <= c <= 'Z' then (c as int + 32) as char else c
  }

  function Lower(s: String): (r: String)
    ensures |r| == |s|
    ensures forall i | 0 <= i < |s| :: r[i] == AsciiLower(s[i])
  {
    seq(|s|, i requires 0 <= i < |s| => AsciiLower(s[i]))
  }

  // ---------------------------------------------------------------------
  // Global literal replacement: `s.replace(/pat/g, rep)`
  // ---------------------------------------------------------------------

  /** Left-to-right, non-overlapping replacement of every occurrence of `pat`. */
  function ReplaceAll(s: String, pat: String, rep: String): (r: String)
    requires |pat| > 0
    decreases |s|
  {
    if s == [] then []
    else if IsPrefix(pat, s) then rep + ReplaceAll(s[|pat|..], pat, rep)
    else [s[0]] + ReplaceAll(s[1..], pat, rep)
  }

  lemma {:induction false} ReplaceAllAbsent(s: String, pat: String, rep: String)
    requires |pat| > 0 && !Contains(s, pat)
    ensures ReplaceAll(s, pat, rep) == s
    decreases |s|
  {
    if s != [] {
      ReplaceAllAbsent(s[1..], pat, rep);
    }
  }

  /** A replacement no longer than the pattern never lengthens the text. */
  lemma {:induction false} ReplaceAllShorter(s: String, pat: String, rep: String)
    requires |pat| > 0 && |rep| <= |pat|
    ensures |ReplaceAll(s, pat, rep)| <= |s|
    decreases |s|
  {
    if s == [] {
    } else if IsPrefix(pat, s) {
      ReplaceAllShorter(s[|pat|..], pat, rep);
    } else {
      ReplaceAllShorter(s[1..], pat, rep);
    }
  }

  /** Replacing a one-character pattern distributes over concatenation. */
  lemma {:induction false} ReplaceCharConcat(a: String, b: String, c: char, rep: String)
    ensures ReplaceAll(a + b, [c], rep) == ReplaceAll(a, [c], rep) + ReplaceAll(b, [c], rep)
    decreases |a|
  {
    if a == [] {
      assert a + b == b;
    } else {
      assert (a + b)[1..] == a[1..] + b;
      assert IsPrefix([c], a + b) <==> IsPrefix([c], a);
      ReplaceCharConcat(a[1..], b, c, rep);
    }
  }

  /** Replacing every `c` by text without `c` leaves no `c`. */
  lemma {:induction false} ReplaceCharRemoves(s: String, c: char, rep: String)
    requires c !in rep
    ensures c !in ReplaceAll(s, [c], rep)
    decreases |s|
  {
    if s != [] {
      ReplaceCharRemoves(s[1..], c, rep);
    }
  }

  /** A prefix that cannot start the pattern passes through untouched. */
  lemma {:induction false} ReplaceAllPrefix(d: String, t: String, pat: String, rep: String)
    requires |pat| > 0 && forall i | 0 <= i < |d| :: d[i] != pat[0]
    ensures ReplaceAll(d + t, pat, rep) == d + ReplaceAll(t, pat, rep)
    decreases |d|
  {
    if d == [] {
      assert d + t == t;
    } else {
      assert (d + t)[1..] == d[1..] + t;
      ReplaceAllPrefix(d[1..], t, pat, rep);
    }
  }

  lemma {:induction false} ReplaceAllChars(s: String, pat: String, rep: String, f: char -> bool)
    requires |pat| > 0 && NoneSatisfy(s, f) && NoneSatisfy(rep, f)
    ensures NoneSatisfy(ReplaceAll(s, pat, rep), f)
    decreases |s|
  {
    if s == [] {
    } else if IsPrefix(pat, s) {
      ReplaceAllChars(s[|pat|..], pat, rep, f);
    } else {
      ReplaceAllChars(s[1..], pat, rep, f);
    }
  }

  // ---------------------------------------------------------------------
  // split and join on one separator character
  // ---------------------------------------------------------------------

  /** JavaScript `s.split(sep)` for a one-character separator. */
  function Split(s: String, sep: char): (r: seq<String>)
    ensures |r| >= 1
    ensures forall k, i | 0 <= k < |r| && 0 <= i < |r[k]| :: r[k][i] != sep
    decreases |s|
  {
    if s == [] then [[]]
    else if s[0] == sep then [[]] + Split(s[1..], sep)
    else
      var rest := Split(s[1..], sep);
      [[s[0]] + rest[0]] + rest[1..]
  }

  /** JavaScript `lines.join(sep)`. */
  function Join(lines: seq<String>, sep: String): (r: String)
    decreases |lines|
  {
    if lines == [] then []
    else if |lines| == 1 then lines[0]
    else lines[0] + sep + Join(lines[1..], sep)
  }

  /** Splitting and joining again gives the text back. */
  lemma {:induction false} JoinSplit(s: String, sep: char)
    ensures Join(Split(s, sep), [sep]) == s
    decreases |s|
  {
    if s != [] {
      JoinSplit(s[1..], sep);
      if s[0] == sep {
        JoinSplitSeparator(s, sep);
      } else {
        JoinSplitChar(s, sep);
      }
    }
  }

  /** A leading separator opens an empty line. */
  lemma JoinSplitSeparator(s: String, sep: char)
    requires s != [] && s[0] == sep
    requires Join(Split(s[1..], sep), [sep]) == s[1..]
    ensures Join(Split(s, sep), [sep]) == s
  {
    var rest := Split(s[1..], sep);
    var r := Split(s, sep);
    assert r == [[]] + rest;
    assert r[1..] == rest;
    assert Join(r, [sep]) == [] + [sep] + Join(rest, [sep]);
    assert s == [sep] + s[1..];
  }

  /** Any other leading character opens the first line. */
  lemma JoinSplitChar(s: String, sep: char)
    requires s != [] && s[0] != sep
    requires Join(Split(s[1..], sep), [sep]) == s[1..]
    ensures Join(Split(s, sep), [sep]) == s
  {
    var rest := Split(s[1..], sep);
    assert Split(s, sep) == [[s[0]] + rest[0]] + rest[1..];
    JoinPrepend(s[0], rest, [sep]);
    assert s == [s[0]] + s[1..];
  }

  /** A character put in front of the first line is put in front of the joined text. */
  lemma JoinPrepend(c: char, lines: seq<String>, sep: String)
    requires |lines| >= 1
    ensures Join([[c] + lines[0]] + lines[1..], sep) == [c] + Join(lines, sep)
  {
    var r := [[c] + lines[0]] + lines[1..];
    if |lines| > 1 {
      assert r[1..] == lines[1..];
    }
  }

  // ---------------------------------------------------------------------
  // Decimal numerals
  // ---------------------------------------------------------------------

  function DigitChar(d: nat): (c: char)
    requires d < 10
    ensures IsAsciiDigit(c)
  {
    ('0' as int + d) as char
  }

  /** `String(n)` for a natural number. */
  function NatToString(n: nat): (r: String)
    ensures |r| > 0 && AllDigits(r)
    decreases n
  {
    if n < 10 then [DigitChar(n)] else NatToString(n / 10) + [DigitChar(n % 10)]
  }

  /** `Number.parseInt(s, 10)` on a string of ASCII digits. */
  function ParseDigits(s: String): (n: nat)
    requires AllDigits(s)
    decreases |s|
  {
    if s == [] then 0 else 10 * ParseDigits(s[..|s| - 1]) + (s[|s| - 1] as int - '0' as int)
  }

  lemma {:induction false} ParseNatToString(n: nat)
    ensures ParseDigits(NatToString(n)) == n
    decreases n
  {
    if n >= 10 {
      ParseNatToString(n / 10);
      var s := NatToString(n);
      assert s[..|s| - 1] == NatToString(n / 10);
    }
  }

  lemma NatToStringInjective(m: nat, n: nat)
    requires NatToString(m) == NatToString(n)
    ensures m == n
  {
    ParseNatToString(m);
    ParseNatToString(n);
  }
}
