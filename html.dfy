/**
 * `decodeHtmlEntities` and `stripTags`, which both parsers define the same
 * way, and the escaping the decoder is meant to undo.
 */
module Html {
  import opened TextBasics

  /**
   * The named entities as `decodeHtmlEntities` decodes them: each entity
   * is replaced throughout the text before the next one is looked for.
   */
  function DecodeNamedEntities(text: String): (r: String)
    ensures |r| <= |text|
  {
    var s1 := ReplaceAll(text, "&nbsp;", " ");
    var s2 := ReplaceAll(s1, "&amp;", "&");
    var s3 := ReplaceAll(s2, "&lt;", "<");
    var s4 := ReplaceAll(s3, "&gt;", ">");
    var s5 := ReplaceAll(s4, "&quot;", "\"");
    var s6 := ReplaceAll(s5, "&#39;", "'");
    ReplaceAllShorter(text, "&nbsp;", " ");
    ReplaceAllShorter(s1, "&amp;", "&");
    ReplaceAllShorter(s2, "&lt;", "<");
    ReplaceAllShorter(s3, "&gt;", ">");
    ReplaceAllShorter(s4, "&quot;", "\"");
    ReplaceAllShorter(s5, "&#39;", "'");
    ReplaceAllShorter(s6, "&apos;", "'");
    ReplaceAll(s6, "&apos;", "'")
  }

  predicate IsAmpersand(c: char) {
    c == '&'
  }

  /** A text without an ampersand is left as it is. */
  lemma DecodeNamedEntitiesPlain(text: String)
    requires NoneSatisfy(text, IsAmpersand)
    ensures DecodeNamedEntities(text) == text
  {
    assert text + [] == text;
    ReplaceAllPrefix(text, [], "&nbsp;", " ");
    ReplaceAllPrefix(text, [], "&amp;", "&");
    ReplaceAllPrefix(text, [], "&lt;", "<");
    ReplaceAllPrefix(text, [], "&gt;", ">");
    ReplaceAllPrefix(text, [], "&quot;", "\"");
    ReplaceAllPrefix(text, [], "&#39;", "'");
    ReplaceAllPrefix(text, [], "&apos;", "'");
  }

  /** How a character is written in HTML text: the five reserved ones as entities. */
  function EscapeChar(c: char): (r: String)
    ensures |r| >= 1 && (r[0] == '&' <==> c in "&<>\"'")
  {
    if c == '&' then "&amp;"
    else if c == '<' then "&lt;"
    else if c == '>' then "&gt;"
    else if c == '"' then "&quot;"
    else if c == '\'' then "&#39;"
    else [c]
  }

  /** Text escaped for HTML. */
  function EscapeHtml(s: String): String {
    FlatMap(s, EscapeChar)
  }

  /** The entity `s` opens with, if any: its length and the character it stands for. */
  function EntityAt(s: String): (r: Option<(nat, char)>)
    ensures r.Some? ==> 0 < r.value.0 <= |s| && s[0] == '&'
  {
    if IsPrefix("&nbsp;", s) then Some((6, ' '))
    else if IsPrefix("&amp;", s) then Some((5, '&'))
    else if IsPrefix("&lt;", s) then Some((4, '<'))
    else if IsPrefix("&gt;", s) then Some((4, '>'))
    else if IsPrefix("&quot;", s) then Some((6, '"'))
    else if IsPrefix("&#39;", s) then Some((5, '\''))
    else if IsPrefix("&apos;", s) then Some((6, '\''))
    else None
  }

  /**
   * The named entities decoded in one pass from left to right: what an
   * entity decodes to is never itself decoded again.
   */
  function DecodeEntities(s: String): (r: String)
    ensures |r| <= |s|
    decreases |s|
  {
    if s == [] then []
    else
      var e := EntityAt(s);
      if e.Some? then [e.value.1] + DecodeEntities(s[e.value.0..])
      else [s[0]] + DecodeEntities(s[1..])
  }

  /** An escaped character in front of a text is read back as the entity for it. */
  lemma EntityOfEscape(c: char, t: String)
    requires c in "&<>\"'"
    ensures EntityAt(EscapeChar(c) + t) == Some((|EscapeChar(c)|, c))
  {
    var e := EscapeChar(c);
    var s := e + t;
    assert s[..|e|] == e;
    if c == '&' {
      assert s[1] == 'a';
    } else if c == '<' {
      assert s[1] == 'l';
    } else if c == '>' {
      assert s[1] == 'g';
    } else if c == '"' {
      assert s[1] == 'q';
    } else {
      assert s[1] == '#';
    }
  }

  /** Decoding an escaped character in front of a text gives the character back. */
  lemma DecodeEscapedChar(c: char, t: String)
    ensures DecodeEntities(EscapeChar(c) + t) == [c] + DecodeEntities(t)
  {
    var e := EscapeChar(c);
    var s := e + t;
    assert s[|e|..] == t;
    if c in "&<>\"'" {
      EntityOfEscape(c, t);
    } else {
      assert s[0] == c;
    }
  }

  /** Decoding undoes escaping. */
  lemma {:induction false} DecodeEscape(s: String)
    ensures DecodeEntities(EscapeHtml(s)) == s
    decreases |s|
  {
    if s != [] {
      DecodeEscape(s[1..]);
      DecodeEscapedChar(s[0], EscapeHtml(s[1..]));
    }
  }

  /** Text without an ampersand is left as it is. */
  lemma {:induction false} DecodeEntitiesPlain(s: String)
    requires NoneSatisfy(s, IsAmpersand)
    ensures DecodeEntities(s) == s
    decreases |s|
  {
    if s != [] {
      assert s[0] != '&';
      DecodeEntitiesPlain(s[1..]);
    }
  }

  /** Replacing a pattern in a text that lacks its first character changes nothing. */
  lemma ReplaceAllMissing(s: String, pat: String, rep: String)
    requires |pat| > 0 && forall i | 0 <= i < |s| :: s[i] != pat[0]
    ensures ReplaceAll(s, pat, rep) == s
  {
    assert s + [] == s;
    ReplaceAllPrefix(s, [], pat, rep);
  }

  /** The one-pass decoder reads the escaped form of the text `&lt;` back as `&lt;`. */
  lemma EscapedEntityText()
    ensures EscapeHtml("&lt;") == "&amp;lt;"
    ensures DecodeEntities("&amp;lt;") == "&lt;"
  {
    DecodeEscape("&lt;");
    assert EscapeHtml("&lt;") == EscapeChar('&') + EscapeHtml("lt;");
    assert FlatMap("lt;", EscapeChar) == "lt;";
  }

  /**
   * The chained replacement decodes twice: the escaped form of the text
   * `&lt;` comes back as `<`, where the one-pass decoder gives `&lt;`.
   */
  lemma DecodeNamedEntitiesTwice()
    ensures DecodeNamedEntities(EscapeHtml("&lt;")) == "<"
    ensures DecodeEntities(EscapeHtml("&lt;")) == "&lt;"
  {
    EscapedEntityText();
    var s := "&amp;lt;";
    assert !IsPrefix("&nbsp;", s) by { assert s[1] != "&nbsp;"[1]; }
    ReplaceAllMissing(s[1..], "&nbsp;", " ");
    var s1 := ReplaceAll(s, "&nbsp;", " ");
    assert s1 == s;
    assert IsPrefix("&amp;", s);
    ReplaceAllMissing(s[5..], "&amp;", "&");
    var s2 := ReplaceAll(s1, "&amp;", "&");
    assert s2 == "&lt;";
    assert IsPrefix("&lt;", s2) && s2[4..] == [];
    var s3 := ReplaceAll(s2, "&lt;", "<");
    assert s3 == "<";
    ReplaceAllMissing(s3, "&gt;", ">");
    ReplaceAllMissing(s3, "&quot;", "\"");
    ReplaceAllMissing(s3, "&#39;", "'");
    ReplaceAllMissing(s3, "&apos;", "'");
  }

  // ---------------------------------------------------------------------
  // stripTags
  // ---------------------------------------------------------------------

  predicate IsNotCloseAngle(c: char) {
    c != '>'
  }

  /** `html.replace(/<[^>]+>/g, ' ')`: every tag, leftmost first, becomes one space. */
  function RemoveTags(s: String): (r: String)
    ensures |r| <= |s|
    decreases |s|
  {
    if s == [] then []
    else if s[0] == '<' && Span(s, 1, IsNotCloseAngle) > 1 && Span(s, 1, IsNotCloseAngle) < |s| then
      " " + RemoveTags(s[Span(s, 1, IsNotCloseAngle) + 1..])
    else [s[0]] + RemoveTags(s[1..])
  }

  predicate IsOpenAngle(c: char) {
    c == '<'
  }

  /** Text without `<` holds no tag and is left as it is. */
  lemma {:induction false} RemoveTagsPlain(s: String)
    requires NoneSatisfy(s, IsOpenAngle)
    ensures RemoveTags(s) == s
    decreases |s|
  {
    if s != [] {
      RemoveTagsPlain(s[1..]);
    }
  }

  /** A tag after plain text becomes one space, and what follows is handled in turn. */
  lemma {:induction false} RemoveTagsTag(a: String, tag: String, b: String)
    requires NoneSatisfy(a, IsOpenAngle)
    requires |tag| > 0 && forall k | 0 <= k < |tag| :: IsNotCloseAngle(tag[k])
    ensures RemoveTags(a + "<" + tag + ">" + b) == a + " " + RemoveTags(b)
    decreases |a|
  {
    var s := a + "<" + tag + ">" + b;
    if a == [] {
      assert s == "<" + tag + ">" + b;
      assert forall k | 1 <= k < 1 + |tag| :: s[k] == tag[k - 1];
      SpanUnique(s, 1, IsNotCloseAngle, 1 + |tag|);
      assert s[2 + |tag|..] == b;
    } else {
      assert s[0] == a[0] && s[1..] == a[1..] + "<" + tag + ">" + b;
      RemoveTagsTag(a[1..], tag, b);
    }
  }

  /** Tags are replaced by spaces and nothing else is added. */
  lemma {:induction false} RemoveTagsKeeps(s: String, f: char -> bool)
    requires NoneSatisfy(s, f) && !f(' ')
    ensures NoneSatisfy(RemoveTags(s), f)
    decreases |s|
  {
    if s != [] {
      if s[0] == '<' && Span(s, 1, IsNotCloseAngle) > 1 && Span(s, 1, IsNotCloseAngle) < |s| {
        RemoveTagsKeeps(s[Span(s, 1, IsNotCloseAngle) + 1..], f);
      } else {
        RemoveTagsKeeps(s[1..], f);
      }
    }
  }

  /**
   * `stripTags` with the one-pass decoder: tags become spaces, entities are
   * decoded, whitespace runs become one space, and the ends are trimmed.
   * The result is trimmed and its only whitespace is single plain spaces.
   */
  function StripTags(html: String): (r: String)
    ensures Trim(r) == r && SingleSpaced(r)
    ensures forall k | 0 <= k < |r| :: IsPlainSpaced(r[k])
  {
    TidySpaces(DecodeEntities(RemoveTags(html)));
    Trim(CollapseSpaces(DecodeEntities(RemoveTags(html)), ' '))
  }

  /** `stripTags` as written, over the chained decoder; its result has the same shape. */
  function StripTagsAsWritten(html: String): (r: String)
    ensures Trim(r) == r && SingleSpaced(r)
    ensures forall k | 0 <= k < |r| :: IsPlainSpaced(r[k])
  {
    TidySpaces(DecodeNamedEntities(RemoveTags(html)));
    Trim(CollapseSpaces(DecodeNamedEntities(RemoveTags(html)), ' '))
  }

  /** Markup without an ampersand is stripped the same way by both decoders. */
  lemma StripTagsAgree(html: String)
    requires NoneSatisfy(html, IsAmpersand)
    ensures StripTags(html) == StripTagsAsWritten(html)
  {
    RemoveTagsKeeps(html, IsAmpersand);
    DecodeEntitiesPlain(RemoveTags(html));
    DecodeNamedEntitiesPlain(RemoveTags(html));
  }

  /** On markup without `<` both strip functions only decode, collapse and trim. */
  lemma StripTagsNoTags(e: String)
    requires NoneSatisfy(e, IsOpenAngle)
    ensures StripTags(e) == Trim(CollapseSpaces(DecodeEntities(e), ' '))
    ensures StripTagsAsWritten(e) == Trim(CollapseSpaces(DecodeNamedEntities(e), ' '))
  {
    RemoveTagsPlain(e);
  }

  lemma TidyEntityWords()
    ensures Trim(CollapseSpaces("&lt;", ' ')) == "&lt;"
    ensures Trim(CollapseSpaces("<", ' ')) == "<"
  {
    TidyWord("&lt;");
    TidyWord("<");
  }

  /** The two differ on the escaped form of the text `&lt;`. */
  lemma StripTagsDiffer()
    ensures StripTags(EscapeHtml("&lt;")) == "&lt;"
    ensures StripTagsAsWritten(EscapeHtml("&lt;")) == "<"
  {
    DecodeNamedEntitiesTwice();
    EscapedEntityText();
    StripTagsNoTags("&amp;lt;");
    TidyEntityWords();
  }
}
