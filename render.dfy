/**
 * The text patches `main` (ar/views.py) wraps around `md.convert`: one
 * replace before rendering, then the `<code>` wrap, the `<br>` unescape,
 * the list-marker strip and the anchored `re.sub` on the HTML.
 */
module MarkdownPatches {
  import opened Wrappers
  import opened PyStrings

  const NestedItem: string := "   - "
  const CodeOpen: string := "<code>"
  const CodeClose: string := "</code>"
  const PreOpen: string := "<pre><code>"
  const PreClose: string := "</code></pre>"
  const EscapedBreak: string := "&lt;br&gt;"
  const MarkedBlock: string := "- <pre><code>"
  const InlineHead: string := "- `"

  /** A position where one character of `pat` disagrees with `t` is no match. */
  lemma NoMatchOnMismatch(t: string, pat: string, i: nat, k: nat)
    requires k < |pat| && i + k < |t| && t[i + k] != pat[k]
    ensures !MatchAt(t, pat, i)
  {
    assert t[i..][k] == t[i + k];
  }

  /** Before rendering, `"   - "` (a nested list item) becomes `">"`; none is left. */
  function PreRender(s: string): (r: string)
    ensures !Contains(r, NestedItem)
    ensures !Contains(s, NestedItem) ==> r == s
  {
    ReplaceLeavesNoOccurrence(s, NestedItem, ">");
    if Contains(s, NestedItem) then ReplaceAll(s, NestedItem, ">")
    else ReplaceAbsent(s, NestedItem, ">"); ReplaceAll(s, NestedItem, ">")
  }

  /**
   * Every `<code>` becomes `<pre><code>`, then every `</code>` becomes
   * `</code></pre>`; the wrap only ever adds text.
   */
  function WrapCode(h: string): (r: string)
    ensures |r| >= |h|
  {
    ReplaceAll(ReplaceAll(h, CodeOpen, PreOpen), CodeClose, PreClose)
  }

  /** Every `&lt;br&gt;` becomes a newline; none is left afterwards. */
  function UnescapeBreaks(h: string): (r: string)
    ensures !Contains(r, EscapedBreak)
    ensures !Contains(h, EscapedBreak) ==> r == h
  {
    ReplaceLeavesNoOccurrence(h, EscapedBreak, "\n");
    if Contains(h, EscapedBreak) then ReplaceAll(h, EscapedBreak, "\n")
    else ReplaceAbsent(h, EscapedBreak, "\n"); ReplaceAll(h, EscapedBreak, "\n")
  }

  /** A list marker in front of a code block is dropped; nothing else changes length. */
  function StripListMarker(h: string): (r: string)
    ensures |r| <= |h|
    ensures !Contains(h, MarkedBlock) ==> r == h
  {
    if Contains(h, MarkedBlock) then ReplaceAll(h, MarkedBlock, PreOpen)
    else ReplaceAbsent(h, MarkedBlock, PreOpen); ReplaceAll(h, MarkedBlock, PreOpen)
  }

  /** The wrap is the identity on HTML holding neither tag. */
  lemma WrapCodeIdentity(h: string)
    requires !Contains(h, CodeOpen) && !Contains(h, CodeClose)
    ensures WrapCode(h) == h
  {
    ReplaceAbsent(h, CodeOpen, PreOpen);
    ReplaceAbsent(h, CodeClose, PreClose);
  }

  /**
   * A pattern whose only `<` is its first character, absent from `a`,
   * cannot start inside `a` when the text after `a` begins with `<`: it
   * would have to run into that `<`.
   */
  lemma NoMatchBeforeTag(a: string, y: string, pat: string)
    requires pat != [] && !Contains(a, pat)
    requires forall k :: 1 <= k < |pat| ==> pat[k] != '<'
    requires y != [] && y[0] == '<'
    ensures forall i :: 0 <= i < |a| ==> !MatchAt(a + y, pat, i)
  {
    forall i | 0 <= i < |a| ensures !MatchAt(a + y, pat, i) {
      if i + |pat| <= |a| {
        assert !MatchAt(a, pat, i);
        assert (a + y)[i..][..|pat|] == a[i..][..|pat|];
      } else {
        NoMatchOnMismatch(a + y, pat, i, |a| - i);
      }
    }
  }

  /** First pass of the wrap: the first opening tag becomes `<pre><code>`, the text before it is copied. */
  lemma OpenTagFirstPass(a: string, b: string)
    requires !Contains(a, CodeOpen)
    ensures ReplaceAll(a + CodeOpen + b, CodeOpen, PreOpen) == a + PreOpen + ReplaceAll(b, CodeOpen, PreOpen)
  {
    NoMatchBeforeTag(a, CodeOpen + b, CodeOpen);
    assert a + CodeOpen + b == a + (CodeOpen + b);
    ReplaceFirstOccurrence(a, b, CodeOpen, PreOpen);
  }

  /** Second pass of the wrap: no closing tag starts inside `<pre><code>` or the text before it. */
  lemma OpenTagSecondPass(a: string, y: string)
    requires !Contains(a, CodeClose)
    ensures ReplaceAll(a + PreOpen + y, CodeClose, PreClose) == a + PreOpen + ReplaceAll(y, CodeClose, PreClose)
  {
    var t := a + PreOpen + y;
    NoMatchBeforeTag(a, PreOpen + y, CodeClose);
    assert t == a + (PreOpen + y);
    forall i | |a| <= i < |a| + |PreOpen| ensures !MatchAt(t, CodeClose, i) {
      if i == |a| || i == |a| + 5 {
        NoMatchOnMismatch(t, CodeClose, i, 1);
      } else {
        NoMatchOnMismatch(t, CodeClose, i, 0);
      }
    }
    ReplaceSkipsPrefix(t, |a| + |PreOpen|, CodeClose, PreClose);
    assert t[..|a| + |PreOpen|] == a + PreOpen;
    assert t[|a| + |PreOpen|..] == y;
  }

  /**
   * After text holding neither tag, the first `<code>` becomes
   * `<pre><code>` and the rest is wrapped on its own.
   */
  lemma WrapOpenTag(a: string, b: string)
    requires !Contains(a, CodeOpen) && !Contains(a, CodeClose)
    ensures WrapCode(a + CodeOpen + b) == a + PreOpen + WrapCode(b)
  {
    OpenTagFirstPass(a, b);
    OpenTagSecondPass(a, ReplaceAll(b, CodeOpen, PreOpen));
  }

  /** First pass of the wrap: a closing tag after text without an opening tag is left alone. */
  lemma CloseTagFirstPass(a: string, b: string)
    requires !Contains(a, CodeOpen)
    ensures ReplaceAll(a + CodeClose + b, CodeOpen, PreOpen) == a + CodeClose + ReplaceAll(b, CodeOpen, PreOpen)
  {
    var s := a + CodeClose + b;
    NoMatchBeforeTag(a, CodeClose + b, CodeOpen);
    assert s == a + (CodeClose + b);
    forall i | |a| <= i < |a| + |CodeClose| ensures !MatchAt(s, CodeOpen, i) {
      if i == |a| {
        NoMatchOnMismatch(s, CodeOpen, i, 1);
      } else {
        NoMatchOnMismatch(s, CodeOpen, i, 0);
      }
    }
    ReplaceSkipsPrefix(s, |a| + |CodeClose|, CodeOpen, PreOpen);
    assert s[..|a| + |CodeClose|] == a + CodeClose;
    assert s[|a| + |CodeClose|..] == b;
  }

  /**
   * After text holding neither tag, the first `</code>` becomes
   * `</code></pre>` and the rest is wrapped on its own.
   */
  lemma WrapCloseTag(a: string, b: string)
    requires !Contains(a, CodeOpen) && !Contains(a, CodeClose)
    ensures WrapCode(a + CodeClose + b) == a + PreClose + WrapCode(b)
  {
    CloseTagFirstPass(a, b);
    var b1 := ReplaceAll(b, CodeOpen, PreOpen);
    NoMatchBeforeTag(a, CodeClose + b1, CodeClose);
    assert a + CodeClose + b1 == a + (CodeClose + b1);
    ReplaceFirstOccurrence(a, b1, CodeClose, PreClose);
  }

  /** Rendered inline code inside a paragraph is wrapped in `<pre>` around its `<code>` element. */
  lemma WrapParagraphCode(x: string)
    requires !Contains(x, CodeOpen) && !Contains(x, CodeClose)
    ensures WrapCode("<p>" + CodeOpen + x + CodeClose + "</p>") == "<p>" + PreOpen + x + PreClose + "</p>"
  {
    assert !Contains("<p>", CodeOpen) && !Contains("<p>", CodeClose);
    assert !Contains("</p>", CodeOpen) && !Contains("</p>", CodeClose);
    assert "<p>" + CodeOpen + x + CodeClose + "</p>" == "<p>" + CodeOpen + (x + CodeClose + "</p>");
    WrapOpenTag("<p>", x + CodeClose + "</p>");
    WrapCloseTag(x, "</p>");
    WrapCodeIdentity("</p>");
  }

  /**
   * The strip only finds `- <pre><code>` because the wrap made it: on a
   * code span after a list marker, wrapping first removes the marker,
   * while stripping first leaves it in front of the block.
   */
  lemma PatchOrderMatters(b: string)
    ensures StripListMarker(WrapCode("- " + CodeOpen + b)) == PreOpen + StripListMarker(WrapCode(b))
    ensures WrapCode(StripListMarker("- " + CodeOpen + b)) == "- " + PreOpen + WrapCode(StripListMarker(b))
  {
    ShortTextHoldsNoTag("- ");
    WrapOpenTag("- ", b);
    assert "- " + PreOpen + WrapCode(b) == MarkedBlock + WrapCode(b);
    MarkerStripped(WrapCode(b));
    MarkerNotYetFormed(b);
    WrapOpenTag("- ", StripListMarker(b));
  }

  /** Text shorter than both tags holds neither. */
  lemma ShortTextHoldsNoTag(a: string)
    requires |a| < |CodeOpen|
    ensures !Contains(a, CodeOpen) && !Contains(a, CodeClose)
  {
  }

  /** The strip drops the marker in front of a wrapped block. */
  lemma MarkerStripped(w: string)
    ensures StripListMarker(MarkedBlock + w) == PreOpen + StripListMarker(w)
  {
    assert MatchAt(MarkedBlock + w, MarkedBlock, 0);
    assert (MarkedBlock + w)[|MarkedBlock|..] == w;
  }

  /** Before the wrap, `- <code>` holds no `- <pre><code>` for the strip to find. */
  lemma MarkerNotYetFormed(b: string)
    ensures StripListMarker("- " + CodeOpen + b) == "- " + CodeOpen + StripListMarker(b)
  {
    var s := "- " + CodeOpen + b;
    forall i | 0 <= i < 8 ensures !MatchAt(s, MarkedBlock, i) {
      if i == 0 {
        NoMatchOnMismatch(s, MarkedBlock, i, 3);
      } else {
        NoMatchOnMismatch(s, MarkedBlock, i, 0);
      }
    }
    ReplaceSkipsPrefix(s, 8, MarkedBlock, PreOpen);
    assert s[..8] == "- " + CodeOpen;
    assert s[8..] == b;
  }

  /**
   * `m` is a backtick reachable from `i` by the lazy `(.*?)`: every
   * character before it from `i` on is a character `.` matches (not a newline).
   */
  ghost predicate Reachable(s: string, i: nat, m: nat) {
    i <= m < |s| && s[m] == '`' && forall j :: i <= j < m ==> s[j] != '\n'
  }

  /**
   * Where `(.*?)` followed by a backtick ends when started at `i`: the first
   * backtick, unless a newline or the end of the text comes first.
   */
  function LazyBacktick(s: string, i: nat): (k: Option<nat>)
    requires i <= |s|
    decreases |s| - i
    ensures k.Some? ==> Reachable(s, i, k.value) && forall j :: i <= j < k.value ==> s[j] != '`'
    ensures k.None? ==> forall m :: !Reachable(s, i, m)
  {
    if i == |s| then None
    else if s[i] == '`' then Some(i)
    else if s[i] == '\n' then None
    else
      assert forall m :: Reachable(s, i, m) ==> Reachable(s, i + 1, m);
      LazyBacktick(s, i + 1)
  }

  /** The pattern `(^- `)(.*?)`` matches: the text starts with the head and a backtick is reachable after it. */
  ghost predicate InlineCodeMatch(s: string) {
    InlineHead <= s && exists m :: Reachable(s, |InlineHead|, m)
  }

  /**
   * `re.sub(r'(^- `)(.*?)`', r'\1\2', h)`. Without flags `^` matches only at
   * the start, so there is at most one match; the replacement keeps both
   * groups and so drops exactly the backtick that closes the match.
   */
  function PatchInlineCode(h: string): (r: string)
    ensures r != h <==> InlineCodeMatch(h)
    ensures r != h ==> exists k: nat :: Reachable(h, |InlineHead|, k)
                                   && (forall j :: |InlineHead| <= j < k ==> h[j] != '`')
                                   && r == h[..k] + h[k + 1..]
  {
    if InlineHead <= h then
      match LazyBacktick(h, |InlineHead|)
      case Some(k) =>
        var r := h[..|InlineHead|] + h[|InlineHead|..k] + h[k + 1..];
        assert r == h[..k] + h[k + 1..];
        r
      case None => h
    else
      h
  }

  /** The post-processing of one answer, with `md.convert` supplied by the caller. */
  function RenderAnswer(convert: string -> string, text: string): (r: string)
    ensures var h := convert(PreRender(text));
      (!Contains(h, CodeOpen) && !Contains(h, CodeClose) && !Contains(h, EscapedBreak)
       && !Contains(h, MarkedBlock) && !InlineCodeMatch(h)) ==> r == h
  {
    var h := convert(PreRender(text));
    if !Contains(h, CodeOpen) && !Contains(h, CodeClose) then
      WrapCodeIdentity(h);
      PatchInlineCode(StripListMarker(UnescapeBreaks(WrapCode(h))))
    else
      PatchInlineCode(StripListMarker(UnescapeBreaks(WrapCode(h))))
  }
}
