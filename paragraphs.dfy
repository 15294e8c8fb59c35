/**
 * The chapter container as a list of paragraphs, each a list of segments:
 * plain text, a search `<mark>` or a restored highlight `<span>`. The reader
 * renders chapter strings into it, wraps search matches in marks, clears
 * them again, and wraps stored highlight texts in spans.
 */
module Paragraphs {
  import opened Text

  datatype Segment = Plain(text: string) | Mark(text: string) | Span(id: string, text: string)

  type Paragraph = seq<Segment>

  /** `p.textContent`. */
  function TextOf(p: Paragraph): string
    decreases |p|
  {
    if p == [] then [] else p[0].text + TextOf(p[1..])
  }

  lemma {:induction false} TextOfAppend(a: Paragraph, b: Paragraph)
    ensures TextOf(a + b) == TextOf(a) + TextOf(b)
    decreases |a|
  {
    if a == [] {
      assert a + b == b;
    } else {
      assert (a + b)[1..] == a[1..] + b;
      TextOfAppend(a[1..], b);
    }
  }

  /** What `Node.normalize()` leaves: no empty text node, no two text nodes side by side. */
  predicate Normalized(p: Paragraph) {
    && (forall i :: 0 <= i < |p| && p[i].Plain? ==> p[i].text != [])
    && (forall i :: 0 <= i < |p| - 1 ==> !(p[i].Plain? && p[i + 1].Plain?))
  }

  predicate AllPlain(p: Paragraph) {
    forall i :: 0 <= i < |p| ==> p[i].Plain?
  }

  predicate NoMarks(p: Paragraph) {
    forall i :: 0 <= i < |p| ==> !p[i].Mark?
  }

  /** A text node holding `s`, or no node at all when `s` is empty. */
  function PlainPiece(s: string): (r: Paragraph)
    ensures TextOf(r) == s && Normalized(r) && AllPlain(r)
  {
    if s == [] then [] else [Plain(s)]
  }

  /**
   * The chapter effect: one `<p>` per content string, its text set through
   * `textContent`, so each paragraph holds exactly that string as plain text.
   */
  function Render(content: seq<string>): (r: seq<Paragraph>)
    ensures |r| == |content|
    ensures forall i :: 0 <= i < |r| ==> TextOf(r[i]) == content[i] && AllPlain(r[i]) && Normalized(r[i])
  {
    seq(|content|, i requires 0 <= i < |content| => PlainPiece(content[i]))
  }

  // ---------------------------------------------------------------------
  // Wrapping every occurrence of a literal
  // ---------------------------------------------------------------------

  /**
   * What a replace-all wraps each match in: a search mark (the pattern has
   * the `i` flag) or a highlight span with its id (case-sensitive).
   */
  datatype Wrapper = SearchMark | Highlight(id: string)

  predicate Matches(w: Wrapper, x: string, q: string) {
    if w.SearchMark? then Lower(x) == Lower(q) else x == q
  }

  function Wrap(w: Wrapper, x: string): Segment {
    if w.SearchMark? then Mark(x) else Span(w.id, x)
  }

  predicate MatchAt(w: Wrapper, t: string, q: string, p: int) {
    0 <= p && p + |q| <= |t| && Matches(w, t[p..p + |q|], q)
  }

  /** No match of `q` starts in `t` at a position in `[a, b)`. */
  predicate NoMatchIn(w: Wrapper, t: string, q: string, a: int, b: int) {
    forall p :: a <= p < b ==> !MatchAt(w, t, q, p)
  }

  /** `s` contains no match of `q` anywhere. */
  predicate Free(w: Wrapper, s: string, q: string) {
    NoMatchIn(w, s, q, 0, |s|)
  }

  /**
   * The global replace scanning `t` from position `i`, with the text since
   * `start` not yet emitted: the leftmost match is wrapped, scanning resumes
   * after it, and the text between matches stays plain.
   */
  function WrapFrom(w: Wrapper, t: string, q: string, start: nat, i: nat): (r: Paragraph)
    requires q != [] && start <= i <= |t|
    ensures TextOf(r) == t[start..]
    decreases |t| - i
  {
    if i + |q| > |t| then PlainPiece(t[start..])
    else if Matches(w, t[i..i + |q|], q) then
      var rest := WrapFrom(w, t, q, i + |q|, i + |q|);
      PieceText(t, start, i, i + |q|, Wrap(w, t[i..i + |q|]), rest);
      PlainPiece(t[start..i]) + [Wrap(w, t[i..i + |q|])] + rest
    else WrapFrom(w, t, q, start, i + 1)
  }

  /** `t.replace(/q/g, wrapper)` on the text `t`, for a literal non-empty `q`. */
  function WrapAll(w: Wrapper, t: string, q: string): Paragraph
    requires q != []
  {
    WrapFrom(w, t, q, 0, 0)
  }

  /** A segment the wrapper produced around a match of `q`. */
  predicate IsMatchSegment(w: Wrapper, s: Segment, q: string) {
    s == Wrap(w, s.text) && Matches(w, s.text, q)
  }

  /** Every segment is either match-free plain text or a wrapped match. */
  predicate Wrapped(w: Wrapper, p: Paragraph, q: string) {
    forall k :: 0 <= k < |p| ==> if p[k].Plain? then Free(w, p[k].text, q) else IsMatchSegment(w, p[k], q)
  }

  predicate HasWrap(p: Paragraph) {
    exists k :: 0 <= k < |p| && !p[k].Plain?
  }

  /** Text before a match, the wrapped match and the rest spell out `t` from `a`. */
  lemma PieceText(t: string, a: int, b: int, c: int, s: Segment, rest: Paragraph)
    requires 0 <= a <= b <= c <= |t|
    requires s.text == t[b..c] && TextOf(rest) == t[c..]
    ensures TextOf(PlainPiece(t[a..b]) + [s] + rest) == t[a..]
  {
    var pre := PlainPiece(t[a..b]);
    assert pre + [s] + rest == pre + ([s] + rest);
    TextOfAppend(pre, [s] + rest);
    ConsText(s, rest);
    SliceSplit(t, a, b, c);
  }

  /** Merging a text node into the text node after it keeps `textContent`. */
  lemma MergeText(x: string, rest: Paragraph)
    requires rest != [] && rest[0].Plain?
    ensures TextOf([Plain(x + rest[0].text)] + rest[1..]) == x + TextOf(rest)
  {
    ConsText(Plain(x + rest[0].text), rest[1..]);
    ConsText(rest[0], rest[1..]);
    assert [rest[0]] + rest[1..] == rest;
    ConcatAssoc(x, rest[0].text, TextOf(rest[1..]));
  }

  lemma ConcatAssoc(a: string, b: string, c: string)
    ensures (a + b) + c == a + (b + c)
  {
  }

  /** `textContent` of a node followed by more nodes. */
  lemma ConsText(s: Segment, rest: Paragraph)
    ensures TextOf([s] + rest) == s.text + TextOf(rest)
  {
    assert ([s] + rest)[1..] == rest;
  }

  lemma SliceSplit(t: string, a: int, b: int, c: int)
    requires 0 <= a <= b <= c <= |t|
    ensures t[a..b] + (t[b..c] + t[c..]) == t[a..]
  {
    assert t[b..c] + t[c..] == t[b..];
    assert t[a..b] + t[b..] == t[a..];
  }

  lemma SliceOfSlice(t: string, a: int, b: int, c: int, d: int)
    requires 0 <= a <= b <= |t| && 0 <= c <= d <= b - a
    ensures t[a..b][c..d] == t[a + c..a + d]
  {
    assert |t[a..b][c..d]| == |t[a + c..a + d]|;
    forall k | 0 <= k < d - c
      ensures t[a..b][c..d][k] == t[a + c..a + d][k]
    {
    }
  }

  /** A match-free stretch of `t` stays match-free when cut out. */
  lemma FreeSlice(w: Wrapper, t: string, q: string, a: int, b: int)
    requires 0 <= a <= b <= |t|
    requires NoMatchIn(w, t, q, a, b)
    ensures Free(w, t[a..b], q)
  {
    forall p | 0 <= p < b - a
      ensures !MatchAt(w, t[a..b], q, p)
    {
      if p + |q| <= b - a {
        SliceOfSlice(t, a, b, p, p + |q|);
        assert !MatchAt(w, t, q, a + p);
      }
    }
  }

  lemma {:induction false} WrapFromWrapped(w: Wrapper, t: string, q: string, start: nat, i: nat)
    requires q != [] && start <= i <= |t|
    requires NoMatchIn(w, t, q, start, i)
    ensures Wrapped(w, WrapFrom(w, t, q, start, i), q)
    decreases |t| - i
  {
    if i + |q| > |t| {
      EndWrapped(w, t, q, start, i);
    } else if Matches(w, t[i..i + |q|], q) {
      WrapFromWrapped(w, t, q, i + |q|, i + |q|);
      MatchWrapped(w, t, q, start, i);
    } else {
      assert !MatchAt(w, t, q, i);
      WrapFromWrapped(w, t, q, start, i + 1);
      SkipStep(w, t, q, start, i);
    }
  }

  /** Without a match at `i` the scanner moves on without emitting anything. */
  lemma SkipStep(w: Wrapper, t: string, q: string, start: nat, i: nat)
    requires q != [] && start <= i && i + |q| <= |t| && !Matches(w, t[i..i + |q|], q)
    ensures WrapFrom(w, t, q, start, i) == WrapFrom(w, t, q, start, i + 1)
  {
  }

  lemma EndWrapped(w: Wrapper, t: string, q: string, start: nat, i: nat)
    requires q != [] && start <= i <= |t| && i + |q| > |t|
    requires NoMatchIn(w, t, q, start, i)
    ensures Wrapped(w, WrapFrom(w, t, q, start, i), q)
  {
    TailFree(w, t, q, start, i);
    WrappedCons(w, q, t[start..], [], []);
    assert PlainPiece(t[start..]) + [] + [] == PlainPiece(t[start..]);
  }

  lemma MatchWrapped(w: Wrapper, t: string, q: string, start: nat, i: nat)
    requires q != [] && start <= i && i + |q| <= |t| && Matches(w, t[i..i + |q|], q)
    requires NoMatchIn(w, t, q, start, i)
    requires Wrapped(w, WrapFrom(w, t, q, i + |q|, i + |q|), q)
    ensures Wrapped(w, WrapFrom(w, t, q, start, i), q)
  {
    FreeSlice(w, t, q, start, i);
    var m := Wrap(w, t[i..i + |q|]);
    assert m.text == t[i..i + |q|];
    WrappedCons(w, q, t[start..i], [m], WrapFrom(w, t, q, i + |q|, i + |q|));
  }

  /** Past the last position a match could start, the rest of `t` is match-free. */
  lemma TailFree(w: Wrapper, t: string, q: string, start: nat, i: nat)
    requires q != [] && start <= i <= |t| && i + |q| > |t|
    requires NoMatchIn(w, t, q, start, i)
    ensures Free(w, t[start..], q)
  {
    forall p | start <= p < |t|
      ensures !MatchAt(w, t, q, p)
    {
      if p >= i {
        assert p + |q| > |t|;
      }
    }
    FreeSlice(w, t, q, start, |t|);
    assert t[start..|t|] == t[start..];
  }

  /** Match-free text, then at most one wrapped match, then a wrapped paragraph. */
  lemma WrappedCons(w: Wrapper, q: string, x: string, m: Paragraph, rest: Paragraph)
    requires Free(w, x, q) && |m| <= 1 && Wrapped(w, m, q) && AllWraps(m) && Wrapped(w, rest, q)
    ensures Wrapped(w, PlainPiece(x) + m + rest, q)
  {
    var piece := PlainPiece(x);
    var r := piece + m + rest;
    forall k | 0 <= k < |r|
      ensures if r[k].Plain? then Free(w, r[k].text, q) else IsMatchSegment(w, r[k], q)
    {
      if k < |piece| {
        assert r[k] == Plain(x);
      } else if k < |piece| + |m| {
        assert r[k] == m[k - |piece|];
      } else {
        assert r[k] == rest[k - |piece| - |m|];
      }
    }
  }

  predicate AllWraps(p: Paragraph) {
    forall k :: 0 <= k < |p| ==> !p[k].Plain?
  }

  /** Some match is wrapped exactly when a match starts at or after `i`. */
  lemma {:induction false} WrapFromHasWrap(w: Wrapper, t: string, q: string, start: nat, i: nat)
    requires q != [] && start <= i <= |t|
    ensures HasWrap(WrapFrom(w, t, q, start, i)) <==> exists p :: i <= p && MatchAt(w, t, q, p)
    decreases |t| - i
  {
    var r := WrapFrom(w, t, q, start, i);
    if i + |q| > |t| {
      assert !HasWrap(r);
    } else if Matches(w, t[i..i + |q|], q) {
      var piece := PlainPiece(t[start..i]);
      assert r[|piece|] == Wrap(w, t[i..i + |q|]);
      assert MatchAt(w, t, q, i);
    } else {
      WrapFromHasWrap(w, t, q, start, i + 1);
      assert !MatchAt(w, t, q, i);
      if exists p :: i <= p && MatchAt(w, t, q, p) {
        var p :| i <= p && MatchAt(w, t, q, p);
        assert i + 1 <= p;
      }
    }
  }

  /** Where no match starts at or after `i`, the rest of `t` stays one text node. */
  lemma {:induction false} WrapFromNone(w: Wrapper, t: string, q: string, start: nat, i: nat)
    requires q != [] && start <= i <= |t|
    requires forall p :: i <= p ==> !MatchAt(w, t, q, p)
    ensures WrapFrom(w, t, q, start, i) == PlainPiece(t[start..])
    decreases |t| - i
  {
    if i + |q| <= |t| {
      assert !MatchAt(w, t, q, i);
      WrapFromNone(w, t, q, start, i + 1);
    }
  }

  /**
   * Replace-all wraps every match and nothing else: the text is unchanged,
   * each wrapped segment is a match, no plain stretch left behind contains a
   * match, and something is wrapped exactly when `t` has a match.
   */
  lemma WrapAllSpec(w: Wrapper, t: string, q: string)
    requires q != []
    ensures TextOf(WrapAll(w, t, q)) == t
    ensures Wrapped(w, WrapAll(w, t, q), q)
    ensures Normalized(WrapAll(w, t, q)) && Leftmost(w, WrapAll(w, t, q), t, q, 0)
    ensures HasWrap(WrapAll(w, t, q)) <==> exists p :: MatchAt(w, t, q, p)
    ensures !HasWrap(WrapAll(w, t, q)) ==> WrapAll(w, t, q) == PlainPiece(t)
  {
    WrapFromWrapped(w, t, q, 0, 0);
    WrapFromLeftmost(w, t, q, 0, 0);
    WrapFromNormalized(w, t, q, 0, 0);
    WrapFromHasWrap(w, t, q, 0, 0);
    if !HasWrap(WrapAll(w, t, q)) {
      WrapFromNone(w, t, q, 0, 0);
    }
  }

  /**
   * The scan is leftmost-first: reading `p` as the text of `t` from offset
   * `o` on, no plain segment covers a position where a match starts.
   */
  predicate Leftmost(w: Wrapper, p: Paragraph, t: string, q: string, o: int)
    decreases |p|
  {
    p == [] ||
      ((p[0].Plain? ==> NoMatchIn(w, t, q, o, o + |p[0].text|)) && Leftmost(w, p[1..], t, q, o + |p[0].text|))
  }

  /** A text that matches the query has the query's length. */
  lemma MatchLength(w: Wrapper, x: string, q: string)
    requires Matches(w, x, q)
    ensures |x| == |q|
  {
    if w.SearchMark? {
      assert |Lower(x)| == |Lower(q)|;
    }
  }

  /** Plain text, at most one wrapped match, then a normalized rest, stays normalized. */
  lemma NormalizedWrapCons(x: Paragraph, m: Segment, rest: Paragraph)
    requires Normalized(x) && AllPlain(x) && |x| <= 1 && !m.Plain? && Normalized(rest)
    ensures Normalized(x + [m] + rest)
  {
    var r := x + [m] + rest;
    forall k | 0 <= k < |r|
      ensures r[k] == if k < |x| then x[k] else if k == |x| then m else rest[k - |x| - 1]
    {
    }
  }

  lemma {:induction false} WrapFromLeftmost(w: Wrapper, t: string, q: string, start: nat, i: nat)
    requires q != [] && start <= i <= |t|
    requires NoMatchIn(w, t, q, start, i)
    ensures Leftmost(w, WrapFrom(w, t, q, start, i), t, q, start)
    decreases |t| - i, 1
  {
    if i + |q| > |t| {
      EndLeftmost(w, t, q, start, i);
    } else if Matches(w, t[i..i + |q|], q) {
      MatchLeftmost(w, t, q, start, i);
    } else {
      NoMatchExtend(w, t, q, start, i);
      WrapFromLeftmost(w, t, q, start, i + 1);
      SkipLeftmost(w, t, q, start, i);
    }
  }

  lemma NoMatchExtend(w: Wrapper, t: string, q: string, start: nat, i: nat)
    requires i + |q| <= |t| && !Matches(w, t[i..i + |q|], q)
    requires NoMatchIn(w, t, q, start, i)
    ensures NoMatchIn(w, t, q, start, i + 1)
  {
  }

  lemma SkipLeftmost(w: Wrapper, t: string, q: string, start: nat, i: nat)
    requires q != [] && start <= i && i + |q| <= |t| && !Matches(w, t[i..i + |q|], q)
    requires Leftmost(w, WrapFrom(w, t, q, start, i + 1), t, q, start)
    ensures Leftmost(w, WrapFrom(w, t, q, start, i), t, q, start)
  {
    SkipStep(w, t, q, start, i);
  }

  lemma {:induction false} WrapFromNormalized(w: Wrapper, t: string, q: string, start: nat, i: nat)
    requires q != [] && start <= i <= |t|
    ensures Normalized(WrapFrom(w, t, q, start, i))
    decreases |t| - i
  {
    if i + |q| > |t| {
    } else if Matches(w, t[i..i + |q|], q) {
      WrapFromNormalized(w, t, q, i + |q|, i + |q|);
      MatchNormalized(w, t, q, start, i);
    } else {
      WrapFromNormalized(w, t, q, start, i + 1);
      SkipStep(w, t, q, start, i);
    }
  }

  /** A match: the plain text before it is match-free, and the scan after it is leftmost too. */
  lemma {:induction false} MatchLeftmost(w: Wrapper, t: string, q: string, start: nat, i: nat)
    requires q != [] && start <= i && i + |q| <= |t| && Matches(w, t[i..i + |q|], q)
    requires NoMatchIn(w, t, q, start, i)
    ensures Leftmost(w, WrapFrom(w, t, q, start, i), t, q, start)
    decreases |t| - i, 0
  {
    var j := i + |q|;
    WrapFromLeftmost(w, t, q, j, j);
    MatchShape(w, t, q, start, i);
    var m := Wrap(w, t[i..j]);
    assert |m.text| == |q|;
    PieceLeftmost(w, t, q, start, i, m, WrapFrom(w, t, q, j, j), j);
  }

  lemma MatchNormalized(w: Wrapper, t: string, q: string, start: nat, i: nat)
    requires q != [] && start <= i && i + |q| <= |t| && Matches(w, t[i..i + |q|], q)
    requires Normalized(WrapFrom(w, t, q, i + |q|, i + |q|))
    ensures Normalized(WrapFrom(w, t, q, start, i))
  {
    MatchShape(w, t, q, start, i);
    NormalizedWrapCons(PlainPiece(t[start..i]), Wrap(w, t[i..i + |q|]), WrapFrom(w, t, q, i + |q|, i + |q|));
  }

  lemma EndLeftmost(w: Wrapper, t: string, q: string, start: nat, i: nat)
    requires q != [] && start <= i <= |t| && i + |q| > |t|
    requires NoMatchIn(w, t, q, start, i)
    ensures Leftmost(w, WrapFrom(w, t, q, start, i), t, q, start)
  {
    var r := WrapFrom(w, t, q, start, i);
    assert r == PlainPiece(t[start..]);
    if start < |t| {
      TailFree(w, t, q, start, i);
      assert NoMatchIn(w, t, q, start, |t|);
      assert r[1..] == [];
    }
  }

  lemma PieceLeftmost(w: Wrapper, t: string, q: string, start: int, i: int, m: Segment, rest: Paragraph, j: int)
    requires 0 <= start <= i <= |t| && !m.Plain? && j == i + |m.text|
    requires NoMatchIn(w, t, q, start, i)
    requires Leftmost(w, rest, t, q, j)
    ensures Leftmost(w, PlainPiece(t[start..i]) + [m] + rest, t, q, start)
  {
    var piece := PlainPiece(t[start..i]);
    LeftmostCons(w, m, rest, t, q, i);
    if start < i {
      LeftmostCons(w, Plain(t[start..i]), [m] + rest, t, q, start);
      assert piece + [m] + rest == [Plain(t[start..i])] + ([m] + rest);
    } else {
      assert piece + [m] + rest == [m] + rest;
    }
  }

  /** The scanner at a match: the plain text before it, the match, then a fresh scan. */
  lemma MatchShape(w: Wrapper, t: string, q: string, start: nat, i: nat)
    requires q != [] && start <= i && i + |q| <= |t| && Matches(w, t[i..i + |q|], q)
    ensures WrapFrom(w, t, q, start, i)
      == PlainPiece(t[start..i]) + [Wrap(w, t[i..i + |q|])] + WrapFrom(w, t, q, i + |q|, i + |q|)
  {
  }

  lemma LeftmostCons(w: Wrapper, s: Segment, rest: Paragraph, t: string, q: string, o: int)
    requires s.Plain? ==> NoMatchIn(w, t, q, o, o + |s.text|)
    requires Leftmost(w, rest, t, q, o + |s.text|)
    ensures Leftmost(w, [s] + rest, t, q, o)
  {
    assert ([s] + rest)[1..] == rest;
  }

  /** A wrapped match at the head of `a` is a match of `t` at offset `o`. */
  lemma WrapHead(w: Wrapper, a: Paragraph, t: string, q: string, o: int)
    requires 0 <= o <= |t| && a != [] && !a[0].Plain? && Wrapped(w, a, q)
    requires TextOf(a) == t[o..]
    ensures |a[0].text| == |q| && MatchAt(w, t, q, o) && a[0] == Wrap(w, a[0].text)
  {
    var x := a[0].text;
    assert IsMatchSegment(w, a[0], q);
    MatchLength(w, x, q);
    assert TextOf(a) == x + TextOf(a[1..]);
    assert t[o..][..|x|] == x;
    assert t[o..o + |q|] == t[o..][..|x|];
  }

  /** What the head segment of a normalized, wrapped, leftmost paragraph says about `t`. */
  lemma HeadFacts(w: Wrapper, a: Paragraph, t: string, q: string, o: int)
    requires q != [] && 0 <= o <= |t| && a != []
    requires TextOf(a) == t[o..] && Normalized(a) && Wrapped(w, a, q) && Leftmost(w, a, t, q, o)
    ensures var n := |a[0].text|;
      && 0 < n <= |t| - o
      && a[0].text == t[o..o + n]
      && TextOf(a[1..]) == t[o + n..]
      && (!a[0].Plain? ==> n == |q| && MatchAt(w, t, q, o) && a[0] == Wrap(w, a[0].text))
      && (a[0].Plain? ==> NoMatchIn(w, t, q, o, o + n))
      && (a[0].Plain? && |a| > 1 ==> MatchAt(w, t, q, o + n))
      && (a[0].Plain? && |a| == 1 ==> o + n == |t|)
      && Normalized(a[1..]) && Wrapped(w, a[1..], q) && Leftmost(w, a[1..], t, q, o + n)
  {
    var x := a[0].text;
    var n := |x|;
    assert TextOf(a) == x + TextOf(a[1..]);
    assert t[o..][..n] == x;
    assert t[o..][..n] == t[o..o + n];
    assert t[o..][n..] == t[o + n..];
    if !a[0].Plain? {
      WrapHead(w, a, t, q, o);
    }
    var tail := a[1..];
    assert forall k :: 0 <= k < |tail| ==> tail[k] == a[k + 1];
    if a[0].Plain? && |a| > 1 {
      assert !a[1].Plain?;
      WrapHead(w, tail, t, q, o + n);
    }
    if |a| == 1 {
      assert tail == [];
    }
  }

  /**
   * Leftmost-first wrapping is unique: two normalized paragraphs that spell
   * out `t` from `o`, wrap only matches and leave no match start in plain
   * text are the same paragraph.
   */
  lemma {:induction false} LeftmostUnique(w: Wrapper, a: Paragraph, b: Paragraph, t: string, q: string, o: int)
    requires q != [] && 0 <= o <= |t|
    requires TextOf(a) == t[o..] && Normalized(a) && Wrapped(w, a, q) && Leftmost(w, a, t, q, o)
    requires TextOf(b) == t[o..] && Normalized(b) && Wrapped(w, b, q) && Leftmost(w, b, t, q, o)
    ensures a == b
    decreases |a|
  {
    if a != [] {
      HeadFacts(w, a, t, q, o);
    }
    if b != [] {
      HeadFacts(w, b, t, q, o);
    }
    if a != [] && b != [] {
      assert a[0] == b[0];
      LeftmostUnique(w, a[1..], b[1..], t, q, o + |a[0].text|);
      assert a == [a[0]] + a[1..];
      assert b == [b[0]] + b[1..];
    }
  }

  /**
   * `t.replace(/q/g, ...)` is the one normalized paragraph spelling out `t`
   * whose wrapped segments are matches and whose plain text covers no match
   * start: matches are taken leftmost first, and scanning resumes after each.
   */
  lemma WrapAllUnique(w: Wrapper, t: string, q: string, p: Paragraph)
    requires q != []
    requires TextOf(p) == t && Normalized(p) && Wrapped(w, p, q) && Leftmost(w, p, t, q, 0)
    ensures p == WrapAll(w, t, q)
  {
    WrapAllSpec(w, t, q);
    assert t[0..] == t;
    LeftmostUnique(w, p, WrapAll(w, t, q), t, q, 0);
  }

  // ---------------------------------------------------------------------
  // Search marks
  // ---------------------------------------------------------------------

  /** `new RegExp("(" + escapeRegExp(q) + ")", "gi").test(t)`. */
  predicate ContainsFolded(t: string, q: string) {
    Includes(Lower(t), Lower(q))
  }

  lemma MatchAtFolded(t: string, q: string, p: int)
    ensures MatchAt(SearchMark, t, q, p) <==> OccursAt(Lower(t), Lower(q), p)
  {
    if 0 <= p && p + |q| <= |t| {
      LowerSlice(t, p, p + |q|);
    }
  }

  lemma SearchMatchIffContains(t: string, q: string)
    ensures (exists p :: MatchAt(SearchMark, t, q, p)) <==> ContainsFolded(t, q)
  {
    if exists p :: MatchAt(SearchMark, t, q, p) {
      var p :| MatchAt(SearchMark, t, q, p);
      MatchAtFolded(t, q, p);
    }
    if ContainsFolded(t, q) {
      var p :| OccursAt(Lower(t), Lower(q), p);
      MatchAtFolded(t, q, p);
    }
  }

  /**
   * One paragraph of the search: a paragraph whose text contains the query
   * (ASCII case-insensitively) is replaced by its text with every match
   * marked; any other paragraph is left as it is.
   */
  function SearchParagraph(p: Paragraph, q: string): Paragraph
    requires q != []
  {
    var t := TextOf(p);
    if ContainsFolded(t, q) then WrapAll(SearchMark, t, q) else p
  }

  /**
   * A searched paragraph keeps its text; it gains marks exactly when its text
   * contains the query, each mark is a case-insensitive match, and no plain
   * stretch of a marked paragraph still contains one.
   */
  lemma {:induction false} SearchParagraphSpec(p: Paragraph, q: string)
    requires q != []
    ensures TextOf(SearchParagraph(p, q)) == TextOf(p)
    ensures ContainsFolded(TextOf(p), q) ==> HasWrap(SearchParagraph(p, q)) && Wrapped(SearchMark, SearchParagraph(p, q), q)
    ensures !ContainsFolded(TextOf(p), q) ==> SearchParagraph(p, q) == p
  {
    var t := TextOf(p);
    WrapAllSpec(SearchMark, t, q);
    SearchMatchIffContains(t, q);
  }

  /** A mark produced by a search for `q` spells `q` up to ASCII case. */
  lemma MarkSpellsQuery(p: Paragraph, q: string, k: int)
    requires Wrapped(SearchMark, p, q) && 0 <= k < |p| && p[k].Mark?
    ensures Lower(p[k].text) == Lower(q)
  {
  }

  // ---------------------------------------------------------------------
  // Clearing marks
  // ---------------------------------------------------------------------

  /** Each `<mark>` replaced by a text node with its text. */
  function Unmark(p: Paragraph): (r: Paragraph)
    ensures |r| == |p|
    ensures forall i :: 0 <= i < |p| ==> r[i].text == p[i].text
    ensures NoMarks(r)
  {
    seq(|p|, i requires 0 <= i < |p| => if p[i].Mark? then Plain(p[i].text) else p[i])
  }

  lemma {:induction false} UnmarkText(p: Paragraph)
    ensures TextOf(Unmark(p)) == TextOf(p)
    decreases |p|
  {
    if p != [] {
      assert Unmark(p)[1..] == Unmark(p[1..]);
      UnmarkText(p[1..]);
    }
  }

  /** `Node.normalize()`: adjacent text nodes merged, empty ones dropped. */
  function Normalize(p: Paragraph): (r: Paragraph)
    ensures TextOf(r) == TextOf(p)
    decreases |p|
  {
    if p == [] then []
    else
      var rest := Normalize(p[1..]);
      ConsText(p[0], p[1..]);
      assert [p[0]] + p[1..] == p;
      if !p[0].Plain? then
        ConsText(p[0], rest);
        [p[0]] + rest
      else if p[0].text == [] then rest
      else if rest != [] && rest[0].Plain? then
        MergeText(p[0].text, rest);
        [Plain(p[0].text + rest[0].text)] + rest[1..]
      else
        ConsText(p[0], rest);
        [p[0]] + rest
  }

  lemma {:induction false} NormalizeShape(p: Paragraph)
    ensures Normalized(Normalize(p))
    ensures NoMarks(p) ==> NoMarks(Normalize(p))
    decreases |p|
  {
    if p != [] {
      NormalizeShape(p[1..]);
      var rest := Normalize(p[1..]);
      var r := Normalize(p);
      if !p[0].Plain? || (p[0].text != [] && (rest == [] || !rest[0].Plain?)) {
        assert r == [p[0]] + rest;
        assert forall k :: 1 <= k < |r| ==> r[k] == rest[k - 1];
      } else if p[0].text != [] {
        assert r == [Plain(p[0].text + rest[0].text)] + rest[1..];
        assert forall k :: 1 <= k < |r| ==> r[k] == rest[k];
      }
    }
  }

  predicate HasMark(p: Paragraph) {
    exists k :: 0 <= k < |p| && p[k].Mark?
  }

  /**
   * Clearing the search marks of one paragraph: each mark becomes text and
   * the paragraph is normalized; a paragraph without marks is not touched.
   */
  function ClearParagraph(p: Paragraph): (r: Paragraph)
    ensures TextOf(r) == TextOf(p)
    ensures NoMarks(r)
    ensures !HasMark(p) ==> r == p
  {
    UnmarkText(p);
    NormalizeShape(Unmark(p));
    if HasMark(p) then Normalize(Unmark(p)) else p
  }

  function ClearMarks(ps: seq<Paragraph>): (r: seq<Paragraph>)
    ensures |r| == |ps|
    ensures forall i :: 0 <= i < |r| ==> TextOf(r[i]) == TextOf(ps[i]) && NoMarks(r[i])
  {
    seq(|ps|, i requires 0 <= i < |ps| => ClearParagraph(ps[i]))
  }

  /** A normalized paragraph of text only is a single text node, or none. */
  lemma {:induction false} NormalizePlain(p: Paragraph)
    requires AllPlain(p)
    ensures Normalize(p) == PlainPiece(TextOf(p))
    decreases |p|
  {
    if p != [] {
      assert AllPlain(p[1..]);
      NormalizePlain(p[1..]);
      assert TextOf(p) == p[0].text + TextOf(p[1..]);
      if p[0].text == [] {
        assert TextOf(p) == TextOf(p[1..]);
      } else if TextOf(p[1..]) == [] {
        assert p[0] == Plain(p[0].text);
        assert TextOf(p) == p[0].text;
      } else {
        assert Normalize(p[1..]) == [Plain(TextOf(p[1..]))];
      }
    }
  }

  lemma {:induction false} UnmarkSearch(p: Paragraph, q: string)
    requires Wrapped(SearchMark, p, q)
    ensures AllPlain(Unmark(p))
  {
    forall k | 0 <= k < |p|
      ensures Unmark(p)[k].Plain?
    {
      if !p[k].Plain? {
        assert p[k] == Mark(p[k].text);
      }
    }
  }

  lemma SearchWrapsAreMarks(p: Paragraph, q: string)
    requires Wrapped(SearchMark, p, q)
    ensures HasWrap(p) ==> HasMark(p)
  {
    if HasWrap(p) {
      var k :| 0 <= k < |p| && !p[k].Plain?;
      assert p[k] == Mark(p[k].text);
    }
  }

  /** Clearing the marks of a search undoes it: the paragraph is its text again. */
  lemma {:induction false} ClearUndoesSearch(t: string, q: string)
    requires q != []
    ensures ClearParagraph(WrapAll(SearchMark, t, q)) == PlainPiece(t)
  {
    var r := WrapAll(SearchMark, t, q);
    WrapAllSpec(SearchMark, t, q);
    SearchWrapsAreMarks(r, q);
    if HasMark(r) {
      UnmarkSearch(r, q);
      NormalizePlain(Unmark(r));
      UnmarkText(r);
    }
  }

  // ---------------------------------------------------------------------
  // Highlight spans
  // ---------------------------------------------------------------------

  /**
   * A highlight text whose replace-all on the container's HTML acts like a
   * replace on its text: it is not empty, has no character that HTML
   * serialization turns into an entity, and no `$` pattern the replacement
   * string would expand.
   */
  predicate Restorable(text: string) {
    && text != []
    && (forall i :: 0 <= i < |text| ==> text[i] !in "&<>\U{00A0}")
    && (forall i :: 0 <= i < |text| - 1 ==> !(text[i] == '$' && text[i + 1] in "$&`'"))
  }

  /**
   * `container.innerHTML.replace(new RegExp(escapeRegExp(text), "g"), span)`
   * on one paragraph: every case-sensitive occurrence of `text` inside a text
   * node becomes a span with the given id; marks and earlier spans stay.
   */
  function RestoreParagraph(p: Paragraph, text: string, id: string): Paragraph
    requires text != []
    decreases |p|
  {
    if p == [] then [] else RestoreSegment(p[0], text, id) + RestoreParagraph(p[1..], text, id)
  }

  /** One node of the paragraph after the replace: a text node is split around the matches, other nodes stay. */
  function RestoreSegment(s: Segment, text: string, id: string): Paragraph
    requires text != []
  {
    if s.Plain? then WrapAll(Highlight(id), s.text, text) else [s]
  }

  /** Every segment after a restore is plain and free of `text`, the new span, or an old segment. */
  predicate RestoredShape(r: Paragraph, p: Paragraph, text: string, id: string) {
    forall k :: 0 <= k < |r| ==>
      if r[k].Plain? then Free(Highlight(id), r[k].text, text)
      else r[k] == Span(id, text) || r[k] in p
  }

  lemma {:induction false} RestoreParagraphSpec(p: Paragraph, text: string, id: string)
    requires text != []
    ensures TextOf(RestoreParagraph(p, text, id)) == TextOf(p)
    ensures RestoredShape(RestoreParagraph(p, text, id), p, text, id)
    ensures NoMarks(p) ==> NoMarks(RestoreParagraph(p, text, id))
    decreases |p|
  {
    if p != [] {
      var head := RestoreSegment(p[0], text, id);
      var tail := RestoreParagraph(p[1..], text, id);
      RestoreParagraphSpec(p[1..], text, id);
      TextOfAppend(head, tail);
      if p[0].Plain? {
        WrapAllSpec(Highlight(id), p[0].text, text);
      }
      assert TextOf(p) == p[0].text + TextOf(p[1..]);
      assert TextOf(head) == p[0].text;
      var r := head + tail;
      forall k | 0 <= k < |r|
        ensures if r[k].Plain? then Free(Highlight(id), r[k].text, text) else r[k] == Span(id, text) || r[k] in p
        ensures !r[k].Mark? || (NoMarks(p) ==> false)
      {
        if k < |head| {
          assert r[k] == head[k];
          if !p[0].Plain? {
            assert r[k] == p[0];
          }
        } else {
          assert r[k] == tail[k - |head|];
          if !r[k].Plain? && r[k] != Span(id, text) {
            assert r[k] in p[1..];
          }
        }
      }
    }
  }

  /** A paragraph with `text` inside one of its text nodes gains a span for it. */
  lemma {:induction false} RestoreAddsSpan(p: Paragraph, text: string, id: string, j: int)
    requires text != [] && 0 <= j < |p| && p[j].Plain?
    requires exists x :: MatchAt(Highlight(id), p[j].text, text, x)
    ensures Span(id, text) in RestoreParagraph(p, text, id)
    decreases |p|
  {
    var head := RestoreSegment(p[0], text, id);
    var tail := RestoreParagraph(p[1..], text, id);
    assert RestoreParagraph(p, text, id) == head + tail;
    if j == 0 {
      SegmentAddsSpan(p[0], text, id);
      InLeft(Span(id, text), head, tail);
    } else {
      assert p[1..][j - 1] == p[j];
      RestoreAddsSpan(p[1..], text, id, j - 1);
      InRight(Span(id, text), head, tail);
    }
  }

  lemma SegmentAddsSpan(s: Segment, text: string, id: string)
    requires text != [] && s.Plain?
    requires exists x :: MatchAt(Highlight(id), s.text, text, x)
    ensures Span(id, text) in RestoreSegment(s, text, id)
  {
    var r := WrapAll(Highlight(id), s.text, text);
    WrapAllSpec(Highlight(id), s.text, text);
    var k :| 0 <= k < |r| && !r[k].Plain?;
    assert r[k] == Span(id, r[k].text);
  }

  lemma InLeft(x: Segment, a: Paragraph, b: Paragraph)
    requires x in a
    ensures x in a + b
  {
    var k :| 0 <= k < |a| && a[k] == x;
    assert (a + b)[k] == x;
  }

  lemma InRight(x: Segment, a: Paragraph, b: Paragraph)
    requires x in b
    ensures x in a + b
  {
    var k :| 0 <= k < |b| && b[k] == x;
    assert (a + b)[|a| + k] == x;
  }
}
