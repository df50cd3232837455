/**
 * DocumentPreprocessor: the ordered chain of rewrite passes applied to every
 * fetched document, the length-50 rejection filter, and the quality predicates.
 * Each regular expression of the class is a matcher for Regex.ReplaceAll.
 */
module Preprocessor {
  import opened Wrappers
  import opened JString
  import opened Regex
  import opened Documents

  // ---------------------------------------------------------------------------
  // Step 1: HTML_TAGS = <[^>]+>, replaced by "".

  function MatchTag(s: string): (m: Match)
    ensures m.Matched? ==> m.replacement == [] && 3 <= m.len <= |s|
    ensures m.Matched? ==> s[0] == '<' && s[m.len - 1] == '>' && '>' !in s[1..m.len - 1]
  {
    if s != [] && s[0] == '<' then
      var j := IndexOf(s[1..], '>');
      if j >= 1 then
        assert s[1..][..j] == s[1..j + 1];
        Matched(j + 2, "")
      else NoMatch
    else NoMatch
  }

  function StripTags(s: string): string {
    ReplaceAll(s, MatchTag)
  }

  /** No `<...>` tag is left after the pass: every '<' that stays is either
      never followed by a '>' or followed by one at once. */
  lemma {:induction false} StripTagsLeavesNoTag(s: string)
    ensures MatchesNowhere(StripTags(s), MatchTag)
    decreases |s|
  {
    if s != [] {
      if MatchTag(s).Matched? {
        StripTagsLeavesNoTag(s[MatchTag(s).len..]);
        SkipTagStep(s);
      } else {
        StripTagsLeavesNoTag(s[1..]);
        CopyCharStep(s);
      }
    }
  }

  lemma SkipTagStep(s: string)
    requires s != [] && MatchTag(s).Matched?
    requires MatchesNowhere(StripTags(s[MatchTag(s).len..]), MatchTag)
    ensures MatchesNowhere(StripTags(s), MatchTag)
  {
    ReplaceAtMatch(s, MatchTag);
    assert StripTags(s) == StripTags(s[MatchTag(s).len..]);
  }

  lemma CopyCharStep(s: string)
    requires s != [] && MatchTag(s).NoMatch?
    requires MatchesNowhere(StripTags(s[1..]), MatchTag)
    ensures MatchesNowhere(StripTags(s), MatchTag)
  {
    ReplaceAtNoMatch(s, MatchTag);
    var rest := StripTags(s[1..]);
    if s[0] == '<' {
      HeadTagNoMatch(s, rest);
    }
    NowhereCons(s[0], rest, MatchTag);
  }

  /** A '<' the pass keeps cannot start a tag in the output. */
  lemma HeadTagNoMatch(s: string, rest: string)
    requires s != [] && s[0] == '<' && MatchTag(s).NoMatch?
    requires rest == StripTags(s[1..])
    ensures MatchTag([s[0]] + rest).NoMatch?
  {
    var r := [s[0]] + rest;
    assert r[1..] == rest;
    if '>' !in s[1..] {
      ReplaceDeletes(s[1..], MatchTag);
      assert '>' !in rest;
    } else {
      assert IndexOf(s[1..], '>') == 0;
      assert s[1..][0] == '>';
      ReplaceAtNoMatch(s[1..], MatchTag);
      assert rest[0] == '>';
      assert IndexOf(rest, '>') == 0;
    }
  }

  // ---------------------------------------------------------------------------
  // Step 2: MARKDOWN_LINKS = \[([^\]]+)\]\([^\)]+\), replaced by group 1.

  function MatchLink(s: string): (m: Match)
    ensures m.Matched? ==> 0 < m.len <= |s|
  {
    if s != [] && s[0] == '[' then
      var j := IndexOf(s[1..], ']');
      if j >= 1 && j + 2 < |s| && s[j + 2] == '(' then
        var k := IndexOf(s[j + 3..], ')');
        if k >= 1 then Matched(j + 4 + k, s[1..j + 1]) else NoMatch
      else NoMatch
    else NoMatch
  }

  function ReplaceLinks(s: string): string {
    ReplaceAll(s, MatchLink)
  }

  /** `[label](target)` becomes `label`. */
  lemma LinkBecomesLabel(caption: string, target: string, rest: string)
    requires caption != [] && ']' !in caption
    requires target != [] && ')' !in target
    ensures ReplaceLinks("[" + caption + "](" + target + ")" + rest) == caption + ReplaceLinks(rest)
  {
    var s := "[" + caption + "](" + target + ")" + rest;
    var t3 := target + (")" + rest);
    var t1 := caption + ("](" + t3);
    assert s == "[" + t1 by {
      ConcatAssoc(target, ")", rest);
      ConcatAssoc("[" + caption + "](", target, ")" + rest);
      ConcatAssoc("[" + caption, "](", t3);
      ConcatAssoc("[", caption, "](" + t3);
    }
    LinkShape(caption, target, rest, s);
    MatchLinkAt(s, |caption|, |target|);
    ReplaceAtMatch(s, MatchLink);
  }

  /** The index of the first `c` in `a + b`, when `a` holds none and `b` starts with one. */
  lemma IndexOfAfter(a: string, b: string, c: char)
    requires c !in a && b != [] && b[0] == c
    ensures IndexOf(a + b, c) == |a|
  {
    IndexOfIs(a + b, c, |a|);
  }

  /** The caption of a rendered link runs from its `[` to the first `]`. */
  lemma CaptionShape(caption: string, t2: string, s: string)
    requires ']' !in caption && t2 != [] && t2[0] == ']'
    requires s == "[" + (caption + t2)
    ensures s[0] == '[' && IndexOf(s[1..], ']') == |caption|
    ensures s[1..|caption| + 1] == caption && s[|caption| + 1..] == t2
  {
    assert s[1..] == caption + t2;
    IndexOfAfter(caption, t2, ']');
  }

  /** The target of a rendered link runs from its `(` to the first `)`. */
  lemma TargetShape(target: string, rest: string, t2: string)
    requires ')' !in target
    requires t2 == "](" + (target + (")" + rest))
    ensures t2[1] == '(' && IndexOf(t2[2..], ')') == |target|
    ensures t2[|target| + 3..] == rest
  {
    assert t2[2..] == target + (")" + rest);
    IndexOfAfter(target, ")" + rest, ')');
  }

  /** Where the brackets and the parentheses of a rendered link sit. */
  lemma LinkShape(caption: string, target: string, rest: string, s: string)
    requires caption != [] && ']' !in caption
    requires target != [] && ')' !in target
    requires s == "[" + (caption + ("](" + (target + (")" + rest))))
    ensures |s| == |caption| + |target| + 4 + |rest|
    ensures s[0] == '[' && IndexOf(s[1..], ']') == |caption| && s[|caption| + 2] == '('
    ensures IndexOf(s[|caption| + 3..], ')') == |target|
    ensures s[1..|caption| + 1] == caption && s[|caption| + 4 + |target|..] == rest
  {
    var t2 := "](" + (target + (")" + rest));
    var j := |caption|;
    CaptionShape(caption, t2, s);
    TargetShape(target, rest, t2);
    DropDrop(s, j + 1, 2);
    DropDrop(s, j + 1, 1);
    DropDrop(s, j + 1, |target| + 3);
  }

  lemma MatchLinkAt(s: string, j: int, k: int)
    requires s != [] && s[0] == '['
    requires IndexOf(s[1..], ']') == j >= 1 && j + 2 < |s| && s[j + 2] == '('
    requires IndexOf(s[j + 3..], ')') == k >= 1
    ensures MatchLink(s) == Matched(j + 4 + k, s[1..j + 1])
  {
  }

  lemma IndexOfIs(t: string, c: char, k: int)
    requires 0 <= k < |t| && t[k] == c
    requires forall i :: 0 <= i < k ==> t[i] != c
    ensures IndexOf(t, c) == k
  {
  }

  // ---------------------------------------------------------------------------
  // Step 4: FOOTNOTE_REFS = \[\d+\], replaced by "".

  /** Length of the run of digits at the head of `s`. */
  function DigitRun(s: string): (n: nat)
    ensures n <= |s| && (n < |s| ==> !IsDigit(s[n]))
    ensures forall i :: 0 <= i < n ==> IsDigit(s[i])
  {
    if s != [] && IsDigit(s[0]) then 1 + DigitRun(s[1..]) else 0
  }

  lemma {:induction false} DigitRunOf(d: string, rest: string)
    requires AllDigits(d) && (rest == [] || !IsDigit(rest[0]))
    ensures DigitRun(d + rest) == |d|
  {
    if |d| > 1 {
      assert (d + rest)[1..] == d[1..] + rest;
      DigitRunOf(d[1..], rest);
    } else {
      assert (d + rest)[1..] == rest;
    }
  }

  function MatchFootnote(s: string): (m: Match)
    ensures m.Matched? ==> m.replacement == [] && 0 < m.len <= |s|
  {
    if s != [] && s[0] == '[' then
      var d := DigitRun(s[1..]);
      if d >= 1 && d + 1 < |s| && s[d + 1] == ']' then Matched(d + 2, "") else NoMatch
    else NoMatch
  }

  function StripFootnotes(s: string): string {
    ReplaceAll(s, MatchFootnote)
  }

  /** A marker `[digits]` is dropped. */
  lemma FootnoteDropped(d: string, rest: string)
    requires AllDigits(d)
    ensures StripFootnotes("[" + d + "]" + rest) == StripFootnotes(rest)
  {
    var s := "[" + d + "]" + rest;
    assert s[1..] == d + ("]" + rest);
    DigitRunOf(d, "]" + rest);
    assert s[|d| + 2..] == rest;
  }

  // ---------------------------------------------------------------------------
  // Step 5: PAGE_REFERENCES = (?i)(page\s+\d+|\d+\s*$), replaced by "".
  // Without MULTILINE, `$` matches only at the end of the whole text or just
  // before a final line terminator; `\s*` already swallows '\n' and '\r', so
  // only the terminators outside `\s` (U+0085, U+2028, U+2029) can be left.

  predicate IsOtherLineTerminator(c: char) {
    c == '\U{0085}' || c == '\U{2028}' || c == '\U{2029}'
  }

  /** The second alternative, `\d+\s*$`: a digit run, a space run, then the end. */
  function MatchTrailingNumber(s: string): (m: Match)
    ensures m.Matched? ==> m.replacement == [] && 0 < m.len <= |s| && IsDigit(s[0])
    ensures m.Matched? ==> m.len == |s| || (m.len == |s| - 1 && IsOtherLineTerminator(s[m.len]))
    ensures m.Matched? ==> forall i :: 0 <= i < m.len ==> IsDigit(s[i]) || IsSpace(s[i])
  {
    var d := DigitRun(s);
    if d == 0 then NoMatch
    else
      var w := SpaceRun(s[d..]);
      if d + w == |s| || (d + w == |s| - 1 && IsOtherLineTerminator(s[|s| - 1])) then
        assert forall i :: 0 <= i < w ==> IsSpace(s[d..][i]);
        assert forall i :: 0 <= i < w ==> s[d..][i] == s[d + i];
        Matched(d + w, "")
      else NoMatch
  }

  /** The first alternative, `page\s+\d+` with ASCII case folding. */
  function MatchPageWord(s: string): (m: Match)
    ensures m.Matched? ==> m.replacement == [] && 5 < m.len <= |s|
  {
    if |s| >= 4 && LowerChar(s[0]) == 'p' && LowerChar(s[1]) == 'a' && LowerChar(s[2]) == 'g' && LowerChar(s[3]) == 'e' then
      var w := SpaceRun(s[4..]);
      if w >= 1 then
        var d := DigitRun(s[4 + w..]);
        if d >= 1 then Matched(4 + w + d, "") else NoMatch
      else NoMatch
    else NoMatch
  }

  function MatchPageRef(s: string): (m: Match)
    ensures m.Matched? ==> m.replacement == [] && 0 < m.len <= |s|
  {
    if MatchPageWord(s).Matched? then MatchPageWord(s) else MatchTrailingNumber(s)
  }

  function StripPageRefs(s: string): string {
    ReplaceAll(s, MatchPageRef)
  }

  /** A number at the very end of the text, with trailing whitespace, is removed. */
  lemma TrailingNumberRemoved(d: string, w: string)
    requires AllDigits(d)
    requires forall i :: 0 <= i < |w| ==> IsSpace(w[i])
    ensures StripPageRefs(d + w) == ""
  {
    var s := d + w;
    assert MatchTrailingNumber(s) == Matched(|s|, "") by {
      DigitRunOf(d, w);
      assert s[|d|..] == w;
      SpaceRunAll(w);
    }
    NotPageWord(s);
    ReplaceAtMatch(s, MatchPageRef);
    assert s[|s|..] == [];
  }

  /** `page`, in any letter case, followed by whitespace and a number is
      removed wherever it occurs. */
  lemma PageWordRemoved(p: string, w: string, d: string, rest: string)
    requires |p| == 4 && LowerChar(p[0]) == 'p' && LowerChar(p[1]) == 'a' && LowerChar(p[2]) == 'g' && LowerChar(p[3]) == 'e'
    requires w != [] && forall i :: 0 <= i < |w| ==> IsSpace(w[i])
    requires AllDigits(d) && (rest == [] || !IsDigit(rest[0]))
    ensures StripPageRefs(p + w + d + rest) == StripPageRefs(rest)
  {
    var s := p + w + d + rest;
    PageWordMatch(p, w, d, rest);
    ReplaceAtMatch(s, MatchPageRef);
    assert s[|p| + |w| + |d|..] == rest;
  }

  lemma PageWordMatch(p: string, w: string, d: string, rest: string)
    requires |p| == 4 && LowerChar(p[0]) == 'p' && LowerChar(p[1]) == 'a' && LowerChar(p[2]) == 'g' && LowerChar(p[3]) == 'e'
    requires w != [] && forall i :: 0 <= i < |w| ==> IsSpace(w[i])
    requires AllDigits(d) && (rest == [] || !IsDigit(rest[0]))
    ensures MatchPageRef(p + w + d + rest) == Matched(4 + |w| + |d|, "")
  {
    var s := p + w + d + rest;
    assert s[..4] == p;
    assert SpaceRun(s[4..]) == |w| by {
      assert s[4..] == w + (d + rest);
      SpaceRunOf(w, d + rest);
    }
    assert DigitRun(s[4 + |w|..]) == |d| by {
      assert s[4 + |w|..] == d + rest;
      DigitRunOf(d, rest);
    }
  }

  /** Text that starts with a digit or a space cannot start `page\s+\d+`. */
  lemma NotPageWord(s: string)
    requires s != [] && (IsDigit(s[0]) || IsSpace(s[0]))
    ensures MatchPageWord(s).NoMatch?
  {
  }

  lemma {:induction false} SpaceRunAll(w: string)
    requires forall i :: 0 <= i < |w| ==> IsSpace(w[i])
    ensures SpaceRun(w) == |w|
  {
    if w != [] { SpaceRunAll(w[1..]); }
  }

  lemma {:induction false} SpaceRunOf(w: string, rest: string)
    requires forall i :: 0 <= i < |w| ==> IsSpace(w[i])
    requires rest == [] || !IsSpace(rest[0])
    ensures SpaceRun(w + rest) == |w|
  {
    if w != [] {
      assert (w + rest)[1..] == w[1..] + rest;
      SpaceRunOf(w[1..], rest);
    } else {
      assert w + rest == rest;
    }
  }

  /** A number at the end of a line that is followed by more text is kept:
      `$` does not match at line ends. */
  lemma LineEndNumberKept(d: string, w: string, c: char, rest: string)
    requires AllDigits(d)
    requires forall i :: 0 <= i < |w| ==> IsSpace(w[i])
    requires !IsSpace(c) && !IsDigit(c) && !IsOtherLineTerminator(c)
    ensures StripPageRefs(d + w + [c] + rest) == d + w + StripPageRefs([c] + rest)
  {
    var t := w + ([c] + rest);
    assert SpaceRun(t) == |w| && t[|w|] == c by {
      SpaceRunOf(w, [c] + rest);
    }
    DigitsKept(d, t);
    SpacesKept(w, [c] + rest);
    ConcatAssoc(d, w, [c]);
    ConcatAssoc(d + w + [c], [], rest);
    ConcatAssoc(d, w, [c] + rest);
    ConcatAssoc(d + w, [c], rest);
  }

  /** Whitespace never starts a page reference, so it is always copied. */
  lemma SpacesKept(w: string, t: string)
    requires forall i :: 0 <= i < |w| ==> IsSpace(w[i])
    ensures StripPageRefs(w + t) == w + StripPageRefs(t)
  {
    forall k | 0 <= k < |w|
      ensures MatchPageRef(w[k..] + t).NoMatch?
    {
      SpaceNoMatch(w[k..] + t);
    }
    ReplaceCopies(w, t, MatchPageRef);
  }

  lemma SpaceNoMatch(s: string)
    requires s != [] && IsSpace(s[0])
    ensures MatchPageRef(s).NoMatch?
  {
    NotPageWord(s);
    assert DigitRun(s) == 0;
  }

  /** A digit run is copied when what follows its whitespace is neither the
      end of the text nor a final line terminator. */
  lemma DigitsKept(d: string, t: string)
    requires AllDigits(d) || d == []
    requires t != [] && !IsDigit(t[0])
    requires SpaceRun(t) < |t| && !(SpaceRun(t) == |t| - 1 && IsOtherLineTerminator(t[|t| - 1]))
    ensures StripPageRefs(d + t) == d + StripPageRefs(t)
  {
    forall k | 0 <= k < |d|
      ensures MatchPageRef(d[k..] + t).NoMatch?
    {
      DigitsNoMatch(d[k..], t);
    }
    ReplaceCopies(d, t, MatchPageRef);
  }

  lemma DigitsNoMatch(d: string, t: string)
    requires AllDigits(d)
    requires t != [] && !IsDigit(t[0])
    requires SpaceRun(t) < |t| && !(SpaceRun(t) == |t| - 1 && IsOtherLineTerminator(t[|t| - 1]))
    ensures MatchPageRef(d + t).NoMatch?
  {
    var s := d + t;
    ConcatParts(d, t);
    NotPageWord(s);
    DigitRunOf(d, t);
    TrailingNumberNoMatch(s, |d|);
    PageRefNoMatch(s);
  }

  lemma ConcatParts(d: string, t: string)
    requires d != [] && t != []
    ensures (d + t)[0] == d[0] && (d + t)[|d|..] == t && (d + t)[|d + t| - 1] == t[|t| - 1]
  {
  }

  /** Neither alternative matching means the pattern does not match. */
  lemma PageRefNoMatch(s: string)
    requires MatchPageWord(s).NoMatch? && MatchTrailingNumber(s).NoMatch?
    ensures MatchPageRef(s).NoMatch?
  {
  }

  /** After the digit run and its whitespace, something other than a final
      line terminator remains. */
  lemma TrailingNumberNoMatch(s: string, d: nat)
    requires d <= |s| && DigitRun(s) == d
    requires var w := SpaceRun(s[d..]);
      d + w < |s| && !(d + w == |s| - 1 && IsOtherLineTerminator(s[|s| - 1]))
    ensures MatchTrailingNumber(s).NoMatch?
  {
  }

  // ---------------------------------------------------------------------------
  // Step 6: EXCESSIVE_WHITESPACE = \s{3,} replaced by " ", then
  // MULTIPLE_NEWLINES = \n{3,} replaced by "\n\n".

  /** `\s{3,}` is greedy: it takes the whole run of whitespace, if that is at least 3 long. */
  function MatchWsRun(s: string): (m: Match)
    ensures m.Matched? <==> SpaceRun(s) >= 3
    ensures m.Matched? ==> m.len == SpaceRun(s) && m.replacement == " "
  {
    var n := SpaceRun(s);
    if n >= 3 then Matched(n, " ") else NoMatch
  }

  function CollapseWs(s: string): string {
    ReplaceAll(s, MatchWsRun)
  }

  /** Length of the run of '\n' at the head of `s`. */
  function NewlineRun(s: string): (n: nat)
    ensures n <= |s| && forall i :: 0 <= i < n ==> s[i] == '\n'
  {
    if s != [] && s[0] == '\n' then 1 + NewlineRun(s[1..]) else 0
  }

  function MatchNewlines(s: string): (m: Match)
    ensures m.Matched? <==> NewlineRun(s) >= 3
  {
    var n := NewlineRun(s);
    if n >= 3 then Matched(n, "\n\n") else NoMatch
  }

  function CollapseNewlines(s: string): string {
    ReplaceAll(s, MatchNewlines)
  }

  lemma SpaceRunCons(c: char, x: string)
    ensures SpaceRun([c] + x) == if IsSpace(c) then 1 + SpaceRun(x) else 0
  {
    assert ([c] + x)[1..] == x;
  }

  /** After the whitespace pass no run of three or more whitespace characters
      is left anywhere; the run at the head is cut to one character when it
      was replaced and kept otherwise. */
  lemma {:induction false} CollapseWsRuns(s: string)
    ensures MatchesNowhere(CollapseWs(s), MatchWsRun)
    ensures SpaceRun(CollapseWs(s)) == if SpaceRun(s) >= 3 then 1 else SpaceRun(s)
    decreases |s|
  {
    if s != [] {
      var n := SpaceRun(s);
      if n >= 3 {
        CollapseWsRuns(s[n..]);
        CollapseRunStep(s);
      } else {
        CollapseWsRuns(s[1..]);
        CollapseCopyStep(s);
      }
    }
  }

  lemma CollapseRunStep(s: string)
    requires SpaceRun(s) >= 3
    requires MatchesNowhere(CollapseWs(s[SpaceRun(s)..]), MatchWsRun)
    requires SpaceRun(CollapseWs(s[SpaceRun(s)..])) == if SpaceRun(s[SpaceRun(s)..]) >= 3 then 1 else SpaceRun(s[SpaceRun(s)..])
    ensures MatchesNowhere(CollapseWs(s), MatchWsRun)
    ensures SpaceRun(CollapseWs(s)) == 1
  {
    var n := SpaceRun(s);
    var x := CollapseWs(s[n..]);
    ReplaceAtMatch(s, MatchWsRun);
    assert CollapseWs(s) == [' '] + x;
    assert SpaceRun(s[n..]) == 0 by {
      if n < |s| { assert s[n..][0] == s[n]; }
    }
    SpaceRunCons(' ', x);
    NowhereCons(' ', x, MatchWsRun);
  }

  lemma CollapseCopyStep(s: string)
    requires s != [] && SpaceRun(s) < 3
    requires MatchesNowhere(CollapseWs(s[1..]), MatchWsRun)
    requires SpaceRun(CollapseWs(s[1..])) == if SpaceRun(s[1..]) >= 3 then 1 else SpaceRun(s[1..])
    ensures MatchesNowhere(CollapseWs(s), MatchWsRun)
    ensures SpaceRun(CollapseWs(s)) == SpaceRun(s)
  {
    var x := CollapseWs(s[1..]);
    ReplaceAtNoMatch(s, MatchWsRun);
    assert CollapseWs(s) == [s[0]] + x;
    SpaceRunCons(s[0], s[1..]);
    assert [s[0]] + s[1..] == s;
    SpaceRunCons(s[0], x);
    NowhereCons(s[0], x, MatchWsRun);
  }

  lemma {:induction false} NewlineRunBound(s: string)
    ensures NewlineRun(s) <= SpaceRun(s)
  {
    if s != [] && s[0] == '\n' {
      NewlineRunBound(s[1..]);
    }
  }

  /** `\s{3,}` runs first and `\n` is in `\s`, so `\n{3,}` finds nothing left
      to replace: the newline pass never changes the text. */
  lemma NewlinePassIsIdentity(s: string)
    ensures CollapseNewlines(CollapseWs(s)) == CollapseWs(s)
  {
    var t := CollapseWs(s);
    CollapseWsRuns(s);
    forall k | 0 <= k < |t|
      ensures MatchNewlines(t[k..]).NoMatch?
    {
      NewlineRunBound(t[k..]);
    }
    ReplaceNowhere(t, MatchNewlines);
  }

  // ---------------------------------------------------------------------------
  // Step 7: lines(), trim each, drop the empty ones, join with "\n", trim.

  /** The trimmed, non-empty lines, in order. */
  function KeptLines(lines: seq<string>): (r: seq<string>)
    requires forall k :: 0 <= k < |lines| ==> forall j :: 0 <= j < |lines[k]| ==> !IsLineBreak(lines[k][j])
    ensures |r| <= |lines|
    ensures forall k :: 0 <= k < |r| ==> r[k] != [] && IsTrimmed(r[k]) && '\n' !in r[k] && '\r' !in r[k]
  {
    if lines == [] then []
    else
      var t := Trim(lines[0]);
      var rest := KeptLines(lines[1..]);
      if t == [] then rest
      else
        assert '\n' !in t && '\r' !in t by {
          var off := TrimOffset(lines[0]);
          TrimIsSlice(lines[0]);
          forall i | 0 <= i < |t| ensures !IsLineBreak(t[i]) {
            assert t[i] == lines[0][off + i];
          }
        }
        [t] + rest
  }

  function TidyLines(s: string): string {
    Trim(Join(KeptLines(Lines(s)), "\n"))
  }

  /** No two line feeds in a row: the text has no empty line. */
  predicate NoEmptyLine(s: string) {
    forall i :: 0 <= i < |s| - 1 ==> !(s[i] == '\n' && s[i + 1] == '\n')
  }

  /** The text is a sequence of lines, each non-empty and trimmed, with no '\r'. */
  predicate WellFormedLines(s: string) {
    s == [] ||
    forall k :: 0 <= k < |SplitAll(s, '\n')| ==>
      SplitAll(s, '\n')[k] != [] && IsTrimmed(SplitAll(s, '\n')[k]) && '\r' !in SplitAll(s, '\n')[k]
  }

  /** Joining non-empty trimmed lines with '\n' gives a trimmed text with no empty line. */
  lemma {:induction false} JoinLines(parts: seq<string>)
    requires forall k :: 0 <= k < |parts| ==> parts[k] != [] && IsTrimmed(parts[k]) && '\n' !in parts[k]
    ensures IsTrimmed(Join(parts, "\n")) && NoEmptyLine(Join(parts, "\n"))
    ensures parts != [] ==> Join(parts, "\n") != [] && Join(parts, "\n")[0] == parts[0][0]
  {
    if |parts| > 1 {
      var p := parts[0];
      var rest := Join(parts[1..], "\n");
      JoinLines(parts[1..]);
      var j := Join(parts, "\n");
      assert j == p + "\n" + rest;
      assert j[|j| - 1] == rest[|rest| - 1];
      forall i | 0 <= i < |j| - 1
        ensures !(j[i] == '\n' && j[i + 1] == '\n')
      {
        if i < |p| {
          assert j[i] == p[i];
        } else if i > |p| {
          assert j[i] == rest[i - |p| - 1] && j[i + 1] == rest[i - |p|];
        } else {
          assert j[i + 1] == rest[0] == parts[1][0];
        }
      }
    }
  }

  /** Step 7 leaves a trimmed text with no empty line, every line of it trimmed. */
  lemma TidyLinesShape(s: string)
    ensures IsTrimmed(TidyLines(s)) && NoEmptyLine(TidyLines(s)) && WellFormedLines(TidyLines(s))
  {
    var parts := KeptLines(Lines(s));
    var j := Join(parts, "\n");
    JoinLines(parts);
    TrimOfTrimmed(j);
    if parts != [] {
      JoinSplitAll(parts, '\n');
    }
  }

  // ---------------------------------------------------------------------------
  // Step 3: table rows are flattened into their meaningful cells.

  /** `t.matches("[\\s\\-_=\\*]+")`: only whitespace and the marks - _ = *. */
  predicate IsFormattingCell(t: string) {
    t != [] && forall i :: 0 <= i < |t| ==> IsSpace(t[i]) || t[i] == '-' || t[i] == '_' || t[i] == '=' || t[i] == '*'
  }

  /** A trimmed cell worth keeping: non-empty, longer than one UTF-16 unit,
      not a bare number and not made of formatting marks. */
  predicate KeepCell(t: string) {
    t != [] && !AllDigits(t) && !IsFormattingCell(t) && JavaLength(t) > 1
  }

  /** The trimmed cells worth keeping, in order. */
  function KeptCells(cells: seq<string>): (r: seq<string>)
    ensures forall k :: 0 <= k < |r| ==> KeepCell(r[k]) && IsTrimmed(r[k])
  {
    if cells == [] then []
    else
      var t := Trim(cells[|cells| - 1]);
      KeptCells(cells[..|cells| - 1]) + (if KeepCell(t) then [t] else [])
  }

  /** `extractFromTableRow`: the kept cells of the row joined by single spaces. */
  function RowText(line: string): string {
    Join(KeptCells(Split(line, '|')), " ")
  }

  /** The row text as the loop builds it: each kept cell followed by a space. */
  ghost function Padded(kept: seq<string>): string {
    if kept == [] then "" else Join(kept, " ") + " "
  }

  lemma PaddedSnoc(kept: seq<string>, t: string)
    ensures Padded(kept + [t]) == Padded(kept) + t + " "
  {
    if kept != [] {
      JoinSnoc(kept, t, " ");
    } else {
      assert kept + [t] == [t];
    }
  }

  lemma KeptCellsStep(cells: seq<string>, i: nat)
    requires i < |cells|
    ensures KeptCells(cells[..i + 1])
         == KeptCells(cells[..i]) + (if KeepCell(Trim(cells[i])) then [Trim(cells[i])] else [])
  {
    assert cells[..i + 1][..i] == cells[..i];
  }

  method ExtractFromTableRow(line: string) returns (r: string)
    ensures r == RowText(line)
  {
    var cells := Split(line, '|');
    var content := "";
    ghost var kept: seq<string> := [];
    var i := 0;
    while i < |cells|
      invariant 0 <= i <= |cells|
      invariant kept == KeptCells(cells[..i])
      invariant content == Padded(kept)
    {
      var trimmed := Trim(cells[i]);
      KeptCellsStep(cells, i);
      if KeepCell(trimmed) {
        PaddedSnoc(kept, trimmed);
        content := content + trimmed + " ";
        kept := kept + [trimmed];
      } else {
        ConcatEmpty(kept);
      }
      i := i + 1;
    }
    assert cells[..|cells|] == cells;
    if kept != [] {
      JoinTrimmed(kept, " ");
      JoinEnds(kept, " ");
      TrimTrailingSpace(Join(kept, " "));
    }
    r := Trim(content);
  }

  /** The flattened row is trimmed and holds no '|': every pipe of the row is gone. */
  lemma RowTextShape(line: string)
    ensures IsTrimmed(RowText(line)) && '|' !in RowText(line)
  {
    var cells := Split(line, '|');
    forall k | 0 <= k < |cells| ensures '|' !in cells[k] {
      if '|' in line {
        SplitAllJoin(line, '|');
        assert cells[k] == SplitAll(line, '|')[k];
      }
    }
    KeptCellsNoPipe(cells);
    var kept := KeptCells(cells);
    JoinTrimmed(kept, " ");
    JoinNoChar(kept, " ", '|');
  }

  lemma {:induction false} KeptCellsNoPipe(cells: seq<string>)
    requires forall k :: 0 <= k < |cells| ==> '|' !in cells[k]
    ensures forall k :: 0 <= k < |KeptCells(cells)| ==> '|' !in KeptCells(cells)[k]
  {
    if cells != [] {
      var init := cells[..|cells| - 1];
      var t := Trim(cells[|cells| - 1]);
      assert forall k :: 0 <= k < |init| ==> init[k] == cells[k];
      KeptCellsNoPipe(init);
      TrimNoChar(cells[|cells| - 1], '|');
      var tail: seq<string> := if KeepCell(t) then [t] else [];
      assert KeptCells(cells) == KeptCells(init) + tail;
    }
  }

  /** `TABLE_SEPARATORS` = `\\|[-:]+\\|` found at index i. */
  predicate SeparatorAt(line: string, i: int) {
    0 <= i < |line| && line[i] == '|' &&
    var k := DashRun(line[i + 1..]);
    k >= 1 && i + 1 + k < |line| && line[i + 1 + k] == '|'
  }

  /** Length of the run of '-' and ':' at the head of `s`. */
  function DashRun(s: string): (n: nat)
    ensures n <= |s|
  {
    if s != [] && (s[0] == '-' || s[0] == ':') then 1 + DashRun(s[1..]) else 0
  }

  predicate HasSeparator(line: string) {
    exists i | 0 <= i < |line| :: SeparatorAt(line, i)
  }

  /** The trimmed line starts and ends with '|'. */
  predicate IsTableRow(line: string) {
    StartsWith(Trim(line), "|") && EndsWith(Trim(line), "|")
  }

  /** What one line contributes: nothing for a separator line, the row's
      cells (or nothing when none are kept) for a table row, the line itself
      otherwise; each contribution ends with '\n'. */
  function LineOutput(line: string): string {
    if HasSeparator(line) then ""
    else if IsTableRow(line) then
      var e := RowText(line);
      if IsBlank(e) then "" else e + "\n"
    else line + "\n"
  }

  /** The body of the line loop of `extractTableContent`. */
  method ExtractLine(line: string) returns (out: string)
    ensures out == LineOutput(line)
  {
    out := "";
    if HasSeparator(line) {
    } else if IsTableRow(line) {
      var extracted := ExtractFromTableRow(line);
      if !IsBlank(extracted) {
        out := extracted + "\n";
      }
    } else {
      out := line + "\n";
    }
  }

  function TableLines(lines: seq<string>): string {
    if lines == [] then "" else TableLines(lines[..|lines| - 1]) + LineOutput(lines[|lines| - 1])
  }

  function TableContent(content: string): string {
    TableLines(Split(content, '\n'))
  }

  method ExtractTableContent(content: string) returns (r: string)
    ensures r == TableContent(content)
  {
    var lines := Split(content, '\n');
    r := "";
    var i := 0;
    assert TableLines(lines[..0]) == "" by { assert lines[..0] == []; }
    while i < |lines|
      invariant 0 <= i <= |lines|
      invariant r == TableLines(lines[..i])
    {
      TableLinesStep(lines, i);
      var out := ExtractLine(lines[i]);
      r := r + out;
      assert r == TableLines(lines[..i + 1]);
      i := i + 1;
    }
    assert lines[..|lines|] == lines;
  }

  /** A line with no '|' is neither a separator nor a row: it is kept as it is. */
  lemma PlainLineKept(line: string)
    requires '|' !in line
    ensures LineOutput(line) == line + "\n"
  {
    assert !HasSeparator(line) by {
      forall i | 0 <= i < |line|
        ensures !SeparatorAt(line, i)
      {
        assert line[i] in line;
      }
    }
    assert !IsTableRow(line) by {
      var t := Trim(line);
      if t != [] {
        TrimIsSlice(line);
        assert t[..1] == [t[0]] && t[0] == line[TrimOffset(line)];
      }
    }
  }

  /** Text without any '|' passes through the table step unchanged, apart from
      the '\n' that ends its last line. */
  lemma TextWithoutPipesKept(s: string)
    requires '|' !in s && s != [] && s[|s| - 1] != '\n'
    ensures TableContent(s) == s + "\n"
  {
    var pieces := SplitAll(s, '\n');
    SplitAllJoin(s, '\n');
    SplitAllLastNonEmpty(s, '\n');
    assert Split(s, '\n') == pieces;
    forall k | 0 <= k < |pieces| ensures '|' !in pieces[k] {
      SplitAllChars(s, '\n', k);
    }
    PlainLinesKept(pieces);
  }

  lemma {:induction false} PlainLinesKept(lines: seq<string>)
    requires lines != [] && forall k :: 0 <= k < |lines| ==> '|' !in lines[k]
    ensures TableLines(lines) == Join(lines, "\n") + "\n"
  {
    var n := |lines|;
    var init := lines[..n - 1];
    var last := lines[n - 1];
    assert lines == init + [last] by { InitLast(lines); }
    if n > 1 {
      assert forall k :: 0 <= k < |init| ==> '|' !in init[k] by {
        assert forall k :: 0 <= k < |init| ==> init[k] == lines[k];
      }
      PlainLinesKept(init);
      PlainLineSnoc(init, last);
    } else {
      PlainLineSnoc([], last);
    }
  }

  /** One more plain line after lines already copied with their terminators. */
  lemma PlainLineSnoc(init: seq<string>, last: string)
    requires '|' !in last
    requires init != [] ==> TableLines(init) == Join(init, "\n") + "\n"
    ensures TableLines(init + [last]) == Join(init + [last], "\n") + "\n"
  {
    var lines := init + [last];
    assert lines[..|lines| - 1] == init && lines[|lines| - 1] == last;
    PlainLineKept(last);
    assert TableLines(lines) == TableLines(init) + (last + "\n");
    if init != [] {
      JoinSnoc(init, last, "\n");
      LineAfterJoin(TableLines(init), Join(init, "\n"), last, Join(lines, "\n"));
    } else {
      assert lines == [last];
    }
  }

  lemma LineAfterJoin(done: string, j: string, last: string, joined: string)
    requires done == j + "\n" && joined == j + "\n" + last
    ensures done + (last + "\n") == joined + "\n"
  {
  }

  /** Every character of every piece comes from the text. */
  lemma {:induction false} SplitAllChars(s: string, c: char, k: int)
    requires 0 <= k < |SplitAll(s, c)|
    ensures forall x :: x in SplitAll(s, c)[k] ==> x in s
  {
    if s != [] {
      var rest := SplitAll(s[1..], c);
      if s[0] == c {
        if k > 0 { SplitAllChars(s[1..], c, k - 1); }
      } else if k == 0 {
        SplitAllChars(s[1..], c, 0);
      } else {
        SplitAllChars(s[1..], c, k);
      }
    }
  }

  /** When the text does not end with the separator, its last piece is not empty. */
  lemma {:induction false} SplitAllLastNonEmpty(s: string, c: char)
    requires s != [] && s[|s| - 1] != c
    ensures SplitAll(s, c)[|SplitAll(s, c)| - 1] != []
  {
    if |s| > 1 {
      SplitAllLastNonEmpty(s[1..], c);
    }
  }

  lemma TableLinesStep(lines: seq<string>, i: int)
    requires 0 <= i < |lines|
    ensures TableLines(lines[..i + 1]) == TableLines(lines[..i]) + LineOutput(lines[i])
  {
    assert lines[..i + 1][..i] == lines[..i];
  }

  // ---------------------------------------------------------------------------
  // cleanContent and preprocessDocuments.

  /** `cleanContent`: null or blank text gives ""; otherwise the seven steps
      in order. The result is trimmed and made of non-empty trimmed lines. */
  function CleanContent(content: Option<string>): (r: string)
    ensures content.None? || IsBlank(content.value) ==> r == ""
    ensures IsTrimmed(r) && NoEmptyLine(r) && WellFormedLines(r)
  {
    if content.None? || IsBlank(content.value) then ""
    else
      var s1 := StripTags(content.value);
      var s2 := ReplaceLinks(s1);
      var s3 := TableContent(s2);
      var s4 := StripFootnotes(s3);
      var s5 := StripPageRefs(s4);
      var s6 := CollapseNewlines(CollapseWs(s5));
      TidyLinesShape(s6);
      TidyLines(s6)
  }

  /** The cleaned text of a document's content. */
  function CleanText(content: string): string {
    CleanContent(Some(content))
  }

  /** The documents whose text `clean` leaves at least 50 UTF-16 units long,
      with that text as content and their own metadata, in input order. */
  function Survivors(docs: seq<Document>, clean: string -> string): seq<Document> {
    if docs == [] then []
    else
      var d := docs[|docs| - 1];
      var c := clean(d.content);
      Survivors(docs[..|docs| - 1], clean) + (if JavaLength(c) >= 50 then [Document(c, d.metadata)] else [])
  }

  function Preprocessed(docs: seq<Document>): seq<Document> {
    Survivors(docs, CleanText)
  }

  method PreprocessDocuments(documents: seq<Document>) returns (processedDocs: seq<Document>)
    ensures processedDocs == Preprocessed(documents)
  {
    processedDocs := [];
    var i := 0;
    while i < |documents|
      invariant 0 <= i <= |documents|
      invariant processedDocs == Survivors(documents[..i], CleanText)
    {
      var doc := documents[i];
      SurvivorsStep(documents, CleanText, i);
      var cleanedContent := CleanContent(Some(doc.content));
      assert cleanedContent == CleanText(doc.content);
      if JavaLength(cleanedContent) < 50 {
        i := i + 1;
        continue;
      }
      var cleanedDoc := Document(cleanedContent, doc.metadata);
      processedDocs := processedDocs + [cleanedDoc];
      i := i + 1;
    }
    assert documents[..|documents|] == documents;
  }

  /** One more input document adds itself, cleaned, when it is long enough. */
  lemma SurvivorsStep(docs: seq<Document>, clean: string -> string, i: nat)
    requires i < |docs|
    ensures var c := clean(docs[i].content);
      Survivors(docs[..i + 1], clean) ==
        Survivors(docs[..i], clean) + (if JavaLength(c) >= 50 then [Document(c, docs[i].metadata)] else [])
  {
    assert docs[..i + 1][..i] == docs[..i];
  }

  /** The input positions whose document survives, in increasing order. */
  function KeptIndices(docs: seq<Document>, clean: string -> string): (r: seq<nat>)
    ensures forall j :: 0 <= j < |r| ==> r[j] < |docs|
  {
    if docs == [] then []
    else KeptIndices(docs[..|docs| - 1], clean) + (if JavaLength(clean(docs[|docs| - 1].content)) >= 50 then [|docs| - 1] else [])
  }

  /** `preprocessDocuments` returns, in input order, exactly the documents
      whose cleaned content is at least 50 UTF-16 units long, each with its
      cleaned content and its original metadata. */
  lemma SurvivorsExactly(docs: seq<Document>, clean: string -> string)
    ensures var ks := KeptIndices(docs, clean);
      && |Survivors(docs, clean)| == |ks|
      && (forall j :: 0 <= j < |ks| ==>
            Survivors(docs, clean)[j] == Document(clean(docs[ks[j]].content), docs[ks[j]].metadata))
      && (forall j, l :: 0 <= j < l < |ks| ==> ks[j] < ks[l])
      && (forall i :: 0 <= i < |docs| ==> (i in ks <==> JavaLength(clean(docs[i].content)) >= 50))
  {
    SurvivorsAtKept(docs, clean);
    KeptIndicesExactly(docs, clean);
  }

  /** The j-th survivor is the input at the j-th kept position, cleaned. */
  lemma {:induction false} SurvivorsAtKept(docs: seq<Document>, clean: string -> string)
    ensures var ks := KeptIndices(docs, clean);
      && |Survivors(docs, clean)| == |ks|
      && (forall j :: 0 <= j < |ks| ==>
            0 <= ks[j] < |docs| &&
            Survivors(docs, clean)[j] == Document(clean(docs[ks[j]].content), docs[ks[j]].metadata))
  {
    if docs != [] {
      var n := |docs|;
      var init := docs[..n - 1];
      SurvivorsAtKept(init, clean);
      var ks0 := KeptIndices(init, clean);
      var ks := KeptIndices(docs, clean);
      var s0 := Survivors(init, clean);
      var c := clean(docs[n - 1].content);
      var sv := Survivors(docs, clean);
      if JavaLength(c) >= 50 {
        assert ks == ks0 + [n - 1];
        assert sv == s0 + [Document(c, docs[n - 1].metadata)];
        forall j | 0 <= j < |ks|
          ensures 0 <= ks[j] < n && sv[j] == Document(clean(docs[ks[j]].content), docs[ks[j]].metadata)
        {
          if j < |ks0| {
            assert sv[j] == s0[j] && ks[j] == ks0[j];
            assert init[ks0[j]] == docs[ks0[j]];
          }
        }
      } else {
        assert ks == ks0 && sv == s0 by { ConcatEmpty(ks0); ConcatEmpty(s0); }
        forall j | 0 <= j < |ks0|
          ensures init[ks0[j]] == docs[ks0[j]]
        {
        }
      }
    }
  }

  /** The kept positions are increasing, and a position is kept exactly when
      its cleaned content is long enough. */
  lemma {:induction false} KeptIndicesExactly(docs: seq<Document>, clean: string -> string)
    ensures var ks := KeptIndices(docs, clean);
      && (forall j, l :: 0 <= j < l < |ks| ==> ks[j] < ks[l])
      && (forall i :: 0 <= i < |docs| ==> (i in ks <==> JavaLength(clean(docs[i].content)) >= 50))
  {
    if docs != [] {
      var n := |docs|;
      var init := docs[..n - 1];
      KeptIndicesExactly(init, clean);
      var ks0 := KeptIndices(init, clean);
      var ks := KeptIndices(docs, clean);
      if JavaLength(clean(docs[n - 1].content)) >= 50 {
        assert ks == ks0 + [n - 1];
      } else {
        assert ks == ks0 by { ConcatEmpty(ks0); }
      }
      forall i | 0 <= i < n
        ensures i in ks <==> JavaLength(clean(docs[i].content)) >= 50
      {
        if i < n - 1 {
          assert init[i] == docs[i];
          assert i in ks <==> i in ks0;
        }
      }
    }
  }

  /** Every document kept is long enough and carries the metadata of an input. */
  lemma SurvivorsKeepMetadata(docs: seq<Document>, clean: string -> string, j: int)
    requires 0 <= j < |Survivors(docs, clean)|
    ensures JavaLength(Survivors(docs, clean)[j].content) >= 50
    ensures exists i :: 0 <= i < |docs| && Survivors(docs, clean)[j].metadata == docs[i].metadata
  {
    SurvivorsExactly(docs, clean);
    var i := KeptIndices(docs, clean)[j];
    assert JavaLength(clean(docs[i].content)) >= 50 by { assert i in KeptIndices(docs, clean); }
  }

  // ---------------------------------------------------------------------------
  // Quality predicates.

  /** `\\p{Punct}`: the ASCII punctuation characters. */
  predicate IsPunct(c: char) {
    ('!' <= c <= '/') || (':' <= c <= '@') || ('[' <= c <= '`') || ('{' <= c <= '~')
  }

  predicate AllPunct(w: string) {
    w != [] && forall i :: 0 <= i < |w| ==> IsPunct(w[i])
  }

  /** A word `isQualityChunk` counts: longer than one UTF-16 unit, not a number,
      not only punctuation. */
  predicate IsMeaningfulWord(w: string) {
    JavaLength(w) > 1 && !AllDigits(w) && !AllPunct(w)
  }

  function CountMeaningful(words: seq<string>): (n: nat)
    ensures n <= |words|
  {
    if words == [] then 0
    else CountMeaningful(words[..|words| - 1]) + (if IsMeaningfulWord(words[|words| - 1]) then 1 else 0)
  }

  /** The formatting characters `isQualityChunk` counts. */
  predicate IsChunkFormatChar(c: char) {
    c in "|-_=*+~^<>[]{}()"
  }

  function CountChunkFormat(s: string): (n: nat)
    ensures n <= |s|
  {
    if s == [] then 0
    else CountChunkFormat(s[..|s| - 1]) + (if IsChunkFormatChar(s[|s| - 1]) then 1 else 0)
  }

  /** `isQualityChunk`: trimmed length at least 50 UTF-16 units, at least 10 meaningful
      words, and formatting characters at most 60% of the text (as 5f <= 3n). */
  predicate QualityChunk(content: Option<string>) {
    content.Some? &&
    var t := Trim(content.value);
    JavaLength(t) >= 50 && CountMeaningful(SplitSpaces(t)) >= 10 && 5 * CountChunkFormat(t) <= 3 * JavaLength(t)
  }

  lemma CountMeaningfulStep(words: seq<string>, i: nat)
    requires i < |words|
    ensures CountMeaningful(words[..i + 1])
         == CountMeaningful(words[..i]) + (if IsMeaningfulWord(words[i]) then 1 else 0)
  {
    assert words[..i + 1][..i] == words[..i];
  }

  method IsQualityChunk(content: Option<string>) returns (b: bool)
    ensures b == QualityChunk(content)
  {
    if content.None? || JavaLength(Trim(content.value)) < 50 {
      return false;
    }
    var trimmed := Trim(content.value);
    var words := SplitSpaces(trimmed);
    var meaningfulWords := CountMeaningfulWords(words);
    if meaningfulWords < 10 {
      return false;
    }
    var formatChars := CountChunkFormat(trimmed);
    if 5 * formatChars > 3 * JavaLength(trimmed) {
      return false;
    }
    return true;
  }

  /** The word loop of `isQualityChunk`. */
  method CountMeaningfulWords(words: seq<string>) returns (meaningfulWords: nat)
    ensures meaningfulWords == CountMeaningful(words)
  {
    meaningfulWords := 0;
    var i := 0;
    while i < |words|
      invariant 0 <= i <= |words|
      invariant meaningfulWords == CountMeaningful(words[..i])
    {
      var word := words[i];
      CountMeaningfulStep(words, i);
      if IsMeaningfulWord(word) {
        meaningfulWords := meaningfulWords + 1;
      }
      i := i + 1;
    }
    assert words[..|words|] == words;
  }

  /** `Character.isWhitespace`. */
  predicate IsJavaWhitespace(c: char) {
    c == ' ' || ('\t' <= c <= '\r') || ('\U{001C}' <= c <= '\U{001F}') ||
    c == '\U{1680}' || ('\U{2000}' <= c <= '\U{2006}') || ('\U{2008}' <= c <= '\U{200A}') ||
    c == '\U{2028}' || c == '\U{2029}' || c == '\U{205F}' || c == '\U{3000}'
  }

  /** The formatting characters `isFormattingOnlyLine` counts. */
  predicate IsLineFormatChar(c: char) {
    c in "|-_=*+~^<>[]{}().,;:!?\"'`" || IsJavaWhitespace(c)
  }

  function CountLineFormat(s: string): (n: nat)
    ensures n <= |s|
  {
    if s == [] then 0
    else CountLineFormat(s[..|s| - 1]) + (if IsLineFormatChar(s[|s| - 1]) then 1 else 0)
  }

  /** `isFormattingOnlyLine`: null or blank, or formatting characters are more
      than 80% of the trimmed line (as 5f > 4n). */
  predicate IsFormattingOnlyLine(line: Option<string>) {
    line.None? ||
    var t := Trim(line.value);
    t == [] || 5 * CountLineFormat(t) > 4 * JavaLength(t)
  }

  lemma {:induction false} CountLineFormatAll(s: string)
    requires forall i :: 0 <= i < |s| ==> IsLineFormatChar(s[i])
    ensures CountLineFormat(s) == |s|
  {
    if s != [] {
      CountLineFormatAll(s[..|s| - 1]);
    }
  }

  /** A line whose trimmed text is made of formatting characters only is a formatting line. */
  lemma FormattingCharsOnly(s: string)
    requires forall i :: 0 <= i < |Trim(s)| ==> IsLineFormatChar(Trim(s)[i])
    ensures IsFormattingOnlyLine(Some(s))
  {
    var t := Trim(s);
    CountLineFormatAll(t);
    FormatCharsOneUnit(t);
  }

  /** Formatting characters are ASCII, one UTF-16 unit each. */
  lemma FormatCharsOneUnit(t: string)
    requires forall i :: 0 <= i < |t| ==> IsLineFormatChar(t[i])
    ensures JavaLength(t) == |t|
  {
    forall i | 0 <= i < |t|
      ensures t[i] as int <= 0xFFFF
    {
      LineFormatCharOneUnit(t[i]);
    }
  }

  lemma LineFormatCharOneUnit(c: char)
    requires IsLineFormatChar(c)
    ensures c as int <= 0xFFFF
  {
  }

  /** `hasMinimumContent`: at least 3 UTF-16 units once trimmed, and two
      words or one word longer than 10 units. */
  predicate HasMinimumContent(line: Option<string>) {
    line.Some? &&
    var t := Trim(line.value);
    JavaLength(t) >= 3 &&
    var wordCount := |SplitSpaces(t)|;
    wordCount >= 2 || (wordCount == 1 && JavaLength(t) > 10)
  }

  /** Two words means some whitespace inside the trimmed line: the line has
      minimum content iff it is at least 3 long and holds whitespace, or is
      longer than 10. */
  lemma MinimumContentIff(s: string)
    ensures HasMinimumContent(Some(s)) <==>
      JavaLength(Trim(s)) >= 3 && ((exists k :: 0 <= k < |Trim(s)| && IsSpace(Trim(s)[k])) || JavaLength(Trim(s)) > 10)
  {
    var t := Trim(s);
    if JavaLength(t) >= 3 {
      if k :| 0 <= k < |t| && IsSpace(t[k]) {
        TrimmedSpaceTwoWords(t, k);
      } else {
        assert SplitSpaces(t) == [t];
      }
    }
  }

  /** A trimmed line with whitespace inside splits into two words or more. */
  lemma TrimmedSpaceTwoWords(t: string, k: int)
    requires IsTrimmed(t) && 0 <= k < |t| && IsSpace(t[k])
    ensures |SplitSpaces(t)| >= 2
  {
    SplitAllSpacesTwo(t, k);
    SplitAllSpacesLast(t);
    var ps := SplitAllSpaces(t);
    assert DropTrailingEmpty(ps) == ps;
  }

  lemma {:induction false} SplitAllSpacesTwo(s: string, k: int)
    requires 0 <= k < |s| && IsSpace(s[k])
    ensures |SplitAllSpaces(s)| >= 2
  {
    if !IsSpace(s[0]) {
      SplitAllSpacesTwo(s[1..], k - 1);
    }
  }

  lemma {:induction false} SplitAllSpacesLast(s: string)
    requires s != [] && !IsSpace(s[|s| - 1])
    ensures SplitAllSpaces(s)[|SplitAllSpaces(s)| - 1] != []
    decreases |s|
  {
    if IsSpace(s[0]) {
      var n := SpaceRun(s);
      assert s[n..][|s[n..]| - 1] == s[|s| - 1];
      SplitAllSpacesLast(s[n..]);
    } else if |s| > 1 {
      SplitAllSpacesLast(s[1..]);
    }
  }
}
