/**
 * The two character-level escapers of the reader page: `escapeRegExp`, which
 * makes a search query or a highlight text match literally inside a regular
 * expression, and `escapeHTML`, which makes a note's text safe inside markup.
 */
module Escape {
  import opened Wrappers
  import opened Text

  // ---------------------------------------------------------------------------
  // escapeRegExp

  /** The characters the escaper's class `[.*+?^${}()|[\]\\]` names. */
  predicate IsRegExpSpecial(c: char) {
    c == '.' || c == '*' || c == '+' || c == '?' || c == '^' || c == '$' || c == '{' || c == '}'
    || c == '(' || c == ')' || c == '|' || c == '[' || c == ']' || c == '\\'
  }

  function EscapeRegExpChar(c: char): string {
    if IsRegExpSpecial(c) then ['\\', c] else [c]
  }

  /** `string.replace(/[.*+?^${}()|[\]\\]/g, "\\$&")`. */
  function EscapeRegExp(s: string): string {
    if s == [] then [] else EscapeRegExpChar(s[0]) + EscapeRegExp(s[1..])
  }

  /**
   * The escaper works character by character: the text of a concatenation is
   * the concatenation of the texts, so each special character gets exactly one
   * backslash in front and every other character is copied.
   */
  lemma {:induction false} EscapeRegExpAppend(a: string, b: string)
    ensures EscapeRegExp(a + b) == EscapeRegExp(a) + EscapeRegExp(b)
    decreases a
  {
    if a == [] {
      assert a + b == b;
    } else {
      assert (a + b)[1..] == a[1..] + b;
      EscapeRegExpAppend(a[1..], b);
    }
  }

  /** The escaped text is one character longer for each special character. */
  lemma {:induction false} EscapeRegExpLength(s: string)
    ensures |EscapeRegExp(s)| == |s| + SpecialCount(s)
    decreases s
  {
    if s != [] {
      EscapeRegExpLength(s[1..]);
    }
  }

  function SpecialCount(s: string): nat {
    if s == [] then 0 else (if IsRegExpSpecial(s[0]) then 1 else 0) + SpecialCount(s[1..])
  }

  /**
   * The literal text a regular-expression source matches when it is made only
   * of ordinary characters and backslash-escaped special characters; `None`
   * when it holds a bare special character or a backslash before anything else.
   */
  function PatternLiteral(p: string): (r: Option<string>)
    ensures r.Some? ==> |r.value| <= |p|
  {
    if p == [] then Some([])
    else if p[0] == '\\' then
      if |p| >= 2 && IsRegExpSpecial(p[1]) then
        match PatternLiteral(p[2..])
        case None => None
        case Some(t) => Some([p[1]] + t)
      else None
    else if IsRegExpSpecial(p[0]) then None
    else
      match PatternLiteral(p[1..])
      case None => None
      case Some(t) => Some([p[0]] + t)
  }

  /** An escaped text, read as a pattern, matches exactly the original text. */
  lemma {:induction false} PatternOfEscaped(s: string)
    ensures PatternLiteral(EscapeRegExp(s)) == Some(s)
    decreases s
  {
    if s != [] {
      var p := EscapeRegExp(s);
      PatternOfEscaped(s[1..]);
      if IsRegExpSpecial(s[0]) {
        assert p[2..] == EscapeRegExp(s[1..]);
      } else {
        assert p[1..] == EscapeRegExp(s[1..]);
      }
      assert [s[0]] + s[1..] == s;
    }
  }

  // ---------------------------------------------------------------------------
  // escapeHTML

  /** `s.replace(/c/g, rep)` for a single character `c`. */
  function ReplaceChar(s: string, c: char, rep: string): string {
    if s == [] then []
    else (if s[0] == c then rep else [s[0]]) + ReplaceChar(s[1..], c, rep)
  }

  /** `&`, then `<`, then `>`, each replaced everywhere by its entity. */
  function EscapeHTML(s: string): string {
    ReplaceChar(ReplaceChar(ReplaceChar(s, '&', "&amp;"), '<', "&lt;"), '>', "&gt;")
  }

  /** What the three passes make of one character. */
  function Entity(c: char): string {
    if c == '&' then "&amp;" else if c == '<' then "&lt;" else if c == '>' then "&gt;" else [c]
  }

  /** The reference escaper: every character replaced by its entity in one pass. */
  function EscapeOnce(s: string): string {
    if s == [] then [] else Entity(s[0]) + EscapeOnce(s[1..])
  }

  lemma {:induction false} ReplaceCharAppend(a: string, b: string, c: char, rep: string)
    ensures ReplaceChar(a + b, c, rep) == ReplaceChar(a, c, rep) + ReplaceChar(b, c, rep)
    decreases a
  {
    if a == [] {
      assert a + b == b;
    } else {
      assert (a + b)[1..] == a[1..] + b;
      ReplaceCharAppend(a[1..], b, c, rep);
    }
  }

  /** A text without `c` is left alone by the pass that replaces `c`. */
  lemma {:induction false} ReplaceCharAbsent(s: string, c: char, rep: string)
    requires forall i :: 0 <= i < |s| ==> s[i] != c
    ensures ReplaceChar(s, c, rep) == s
    decreases s
  {
    if s != [] {
      ReplaceCharAbsent(s[1..], c, rep);
    }
  }

  lemma {:induction false} ReplaceSingle(c: char, x: char, rep: string)
    ensures ReplaceChar([c], x, rep) == if c == x then rep else [c]
  {
    assert [c][1..] == [];
  }

  /**
   * Because `&` is replaced first, the three passes never touch the entities an
   * earlier pass wrote: they equal the one-pass escaper.
   */
  lemma {:induction false} EscapeHTMLIsOnePass(s: string)
    ensures EscapeHTML(s) == EscapeOnce(s)
    decreases s
  {
    if s != [] {
      assert s == [s[0]] + s[1..];
      EscapeHTMLAppend([s[0]], s[1..]);
      EscapeHTMLChar(s[0]);
      EscapeHTMLIsOnePass(s[1..]);
    }
  }

  lemma EscapeHTMLAppend(a: string, b: string)
    ensures EscapeHTML(a + b) == EscapeHTML(a) + EscapeHTML(b)
  {
    ReplaceCharAppend(a, b, '&', "&amp;");
    var a1 := ReplaceChar(a, '&', "&amp;");
    var b1 := ReplaceChar(b, '&', "&amp;");
    ReplaceCharAppend(a1, b1, '<', "&lt;");
    ReplaceCharAppend(ReplaceChar(a1, '<', "&lt;"), ReplaceChar(b1, '<', "&lt;"), '>', "&gt;");
  }

  /** On one character the three passes write its entity. */
  lemma EscapeHTMLChar(c: char)
    ensures EscapeHTML([c]) == Entity(c)
  {
    ReplaceSingle(c, '&', "&amp;");
    if c == '&' {
      ReplaceCharAbsent("&amp;", '<', "&lt;");
      ReplaceCharAbsent("&amp;", '>', "&gt;");
    } else if c == '<' {
      ReplaceSingle(c, '<', "&lt;");
      ReplaceCharAbsent("&lt;", '>', "&gt;");
    } else {
      ReplaceSingle(c, '<', "&lt;");
      ReplaceSingle(c, '>', "&gt;");
    }
  }

  /** `&`, `<` and `>` are exactly the characters the escaper rewrites. */
  predicate IsMarkupChar(c: char) {
    c == '&' || c == '<' || c == '>'
  }

  /** Every `&` starts one of the three entities. */
  predicate AmpersandsAreEntities(r: string) {
    forall i :: 0 <= i < |r| && r[i] == '&' ==>
      StartsWith(r[i..], "&amp;") || StartsWith(r[i..], "&lt;") || StartsWith(r[i..], "&gt;")
  }

  lemma {:induction false} AmpersandsAppend(a: string, b: string)
    requires AmpersandsAreEntities(a) && AmpersandsAreEntities(b)
    ensures AmpersandsAreEntities(a + b)
  {
    var r := a + b;
    forall i | 0 <= i < |r| && r[i] == '&'
      ensures StartsWith(r[i..], "&amp;") || StartsWith(r[i..], "&lt;") || StartsWith(r[i..], "&gt;")
    {
      if i < |a| {
        assert a[i] == '&';
        var w :| w in ["&amp;", "&lt;", "&gt;"] && StartsWith(a[i..], w);
        assert r[i..][..|w|] == a[i..][..|w|];
      } else {
        assert r[i..] == b[i - |a|..];
        assert b[i - |a|] == '&';
      }
    }
  }

  /**
   * The escaped text holds no `<` and no `>`, every `&` in it begins `&amp;`,
   * `&lt;` or `&gt;`, and a text without `&`, `<` and `>` (quotes included) is
   * returned unchanged.
   */
  lemma {:induction false} EscapeHTMLSafe(s: string)
    ensures forall i :: 0 <= i < |EscapeHTML(s)| ==> EscapeHTML(s)[i] != '<' && EscapeHTML(s)[i] != '>'
    ensures AmpersandsAreEntities(EscapeHTML(s))
    ensures (forall i :: 0 <= i < |s| ==> !IsMarkupChar(s[i])) ==> EscapeHTML(s) == s
  {
    EscapeHTMLIsOnePass(s);
    EscapeOnceNoAngles(s);
    EscapeOnceAmpersands(s);
    if forall i :: 0 <= i < |s| ==> !IsMarkupChar(s[i]) {
      EscapeOncePlain(s);
    }
  }

  lemma {:induction false} EscapeOnceNoAngles(s: string)
    ensures forall i :: 0 <= i < |EscapeOnce(s)| ==> EscapeOnce(s)[i] != '<' && EscapeOnce(s)[i] != '>'
    decreases s
  {
    if s != [] {
      EscapeOnceNoAngles(s[1..]);
      var e := Entity(s[0]);
      assert forall i :: 0 <= i < |e| ==> e[i] != '<' && e[i] != '>';
    }
  }

  lemma {:induction false} EscapeOnceAmpersands(s: string)
    ensures AmpersandsAreEntities(EscapeOnce(s))
    decreases s
  {
    if s != [] {
      EscapeOnceAmpersands(s[1..]);
      EntityAmpersands(s[0]);
      AmpersandsAppend(Entity(s[0]), EscapeOnce(s[1..]));
    }
  }

  /** The only `&` an entity holds is its first character. */
  lemma EntityAmpersands(c: char)
    ensures AmpersandsAreEntities(Entity(c))
  {
    var e := Entity(c);
    if IsMarkupChar(c) {
      forall i | 0 <= i < |e| && e[i] == '&'
        ensures StartsWith(e[i..], "&amp;") || StartsWith(e[i..], "&lt;") || StartsWith(e[i..], "&gt;")
      {
        assert i == 0;
        assert e[0..] == e;
      }
    } else {
      assert e == [c];
    }
  }

  lemma {:induction false} EscapeOncePlain(s: string)
    requires forall i :: 0 <= i < |s| ==> !IsMarkupChar(s[i])
    ensures EscapeOnce(s) == s
    decreases s
  {
    if s != [] {
      assert !IsMarkupChar(s[0]);
      assert forall i :: 0 <= i < |s| - 1 ==> s[1..][i] == s[i + 1];
      EscapeOncePlain(s[1..]);
      assert [s[0]] + s[1..] == s;
    }
  }

  /** Decodes the three entities the escaper writes. */
  function UnescapeHTML(r: string): string
    decreases |r|
  {
    if r == [] then []
    else if StartsWith(r, "&amp;") then "&" + UnescapeHTML(r[5..])
    else if StartsWith(r, "&lt;") then "<" + UnescapeHTML(r[4..])
    else if StartsWith(r, "&gt;") then ">" + UnescapeHTML(r[4..])
    else [r[0]] + UnescapeHTML(r[1..])
  }

  /** Escaping loses nothing: decoding the entities gives back the text. */
  lemma {:induction false} UnescapeEscapeHTML(s: string)
    ensures UnescapeHTML(EscapeHTML(s)) == s
  {
    EscapeHTMLIsOnePass(s);
    UnescapeEscapeOnce(s);
  }

  lemma {:induction false} UnescapeEscapeOnce(s: string)
    ensures UnescapeHTML(EscapeOnce(s)) == s
    decreases s
  {
    if s != [] {
      UnescapeEscapeOnce(s[1..]);
      UnescapeEntity(s[0], EscapeOnce(s[1..]));
      assert [s[0]] + s[1..] == s;
    }
  }

  /** Decoding reads an entity back as the one character it stands for. */
  lemma UnescapeEntity(c: char, rest: string)
    ensures UnescapeHTML(Entity(c) + rest) == [c] + UnescapeHTML(rest)
  {
    if c == '&' {
      UnescapeNamed("&amp;", '&', rest);
    } else if c == '<' {
      UnescapeNamed("&lt;", '<', rest);
    } else if c == '>' {
      UnescapeNamed("&gt;", '>', rest);
    } else {
      UnescapeOther(c, rest);
    }
  }

  lemma UnescapeNamed(e: string, c: char, rest: string)
    requires (e == "&amp;" && c == '&') || (e == "&lt;" && c == '<') || (e == "&gt;" && c == '>')
    ensures UnescapeHTML(e + rest) == [c] + UnescapeHTML(rest)
  {
    var r := e + rest;
    assert r[..|e|] == e;
    assert r[|e|..] == rest;
    assert r[1] == e[1];
  }

  lemma UnescapeOther(c: char, rest: string)
    requires !IsMarkupChar(c)
    ensures UnescapeHTML([c] + rest) == [c] + UnescapeHTML(rest)
  {
    var r := [c] + rest;
    assert r[0] == c;
    assert r[1..] == rest;
  }
}
