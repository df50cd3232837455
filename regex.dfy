/**
 * java.util.regex.Matcher.replaceAll, for patterns that never match the empty
 * string: the text is scanned from left to right; where the pattern matches at
 * the current position the replacement is emitted and the scan resumes after
 * the match, otherwise one character is copied and the scan moves on by one.
 * Each pattern is given as a matcher: what it matches at the head of a suffix.
 */
module Regex {

  /** The outcome of trying a pattern at the head of a string: the length of
      the match and the text it is replaced by. */
  datatype Match = NoMatch | Matched(len: nat, replacement: string)

  function ReplaceAll(s: string, m: string -> Match): string
    decreases |s|
  {
    if s == [] then []
    else match m(s)
      case Matched(n, rep) =>
        if 0 < n <= |s| then rep + ReplaceAll(s[n..], m) else [s[0]] + ReplaceAll(s[1..], m)
      case NoMatch => [s[0]] + ReplaceAll(s[1..], m)
  }

  /** The characters `.` does not match: the line terminators of java.util.regex. */
  predicate IsLineTerminator(c: char) {
    c == '\n' || c == '\r' || c == '\U{0085}' || c == '\U{2028}' || c == '\U{2029}'
  }

  /** Where the pattern matches, the match is replaced and the scan resumes after it. */
  lemma ReplaceAtMatch(s: string, m: string -> Match)
    requires m(s).Matched? && 0 < m(s).len <= |s|
    ensures ReplaceAll(s, m) == m(s).replacement + ReplaceAll(s[m(s).len..], m)
  {
  }

  /** Where the pattern does not match, one character is copied. */
  lemma ReplaceAtNoMatch(s: string, m: string -> Match)
    requires s != [] && m(s).NoMatch?
    ensures ReplaceAll(s, m) == [s[0]] + ReplaceAll(s[1..], m)
  {
  }

  /** A prefix at none of whose positions the pattern matches is copied as it is. */
  lemma {:induction false} ReplaceCopies(d: string, t: string, m: string -> Match)
    requires forall k :: 0 <= k < |d| ==> m(d[k..] + t).NoMatch?
    ensures ReplaceAll(d + t, m) == d + ReplaceAll(t, m)
  {
    if d != [] {
      var s := d + t;
      assert d[0..] == d;
      ReplaceAtNoMatch(s, m);
      assert s[1..] == d[1..] + t;
      forall k | 0 <= k < |d[1..]|
        ensures m(d[1..][k..] + t).NoMatch?
      {
        assert d[1..][k..] == d[k + 1..];
      }
      ReplaceCopies(d[1..], t, m);
      assert [d[0]] + (d[1..] + ReplaceAll(t, m)) == d + ReplaceAll(t, m);
    } else {
      assert d + t == t;
    }
  }

  /** The pattern matches nowhere in `s`. */
  predicate MatchesNowhere(s: string, m: string -> Match) {
    forall k :: 0 <= k < |s| ==> m(s[k..]).NoMatch?
  }

  /** A character the pattern cannot start a match at, put in front of text
      it matches nowhere in, gives text it matches nowhere in. */
  lemma NowhereCons(c: char, rest: string, m: string -> Match)
    requires MatchesNowhere(rest, m)
    requires m([c] + rest).NoMatch?
    ensures MatchesNowhere([c] + rest, m)
  {
    var r := [c] + rest;
    forall k | 0 <= k < |r|
      ensures m(r[k..]).NoMatch?
    {
      if k > 0 {
        assert r[k..] == rest[k - 1..];
      } else {
        assert r[0..] == r;
      }
    }
  }

  /** Every match the pattern could make in `s` is replaced by nothing. */
  predicate OnlyDeletes(s: string, m: string -> Match) {
    forall k :: 0 <= k < |s| ==> m(s[k..]).Matched? ==> m(s[k..]).replacement == []
  }

  /** A pattern that matches nowhere leaves the text unchanged. */
  lemma {:induction false} ReplaceNowhere(s: string, m: string -> Match)
    requires MatchesNowhere(s, m)
    ensures ReplaceAll(s, m) == s
  {
    if s != [] {
      assert m(s[0..]).NoMatch? && s[0..] == s;
      forall k | 0 <= k < |s| - 1
        ensures m(s[1..][k..]).NoMatch?
      {
        assert s[1..][k..] == s[k + 1..];
      }
      ReplaceNowhere(s[1..], m);
    }
  }

  /** `r` is `s` with some characters dropped: taking characters of `s` in
      order, each character of `r` is found in turn. */
  predicate IsSubsequence(r: string, s: string)
    decreases |s|
  {
    if r == [] then true
    else if s == [] then false
    else if r[0] == s[0] then IsSubsequence(r[1..], s[1..])
    else IsSubsequence(r, s[1..])
  }

  /** Dropping characters from text that lies after a prefix still drops
      characters from the whole. */
  lemma {:induction false} SubsequenceAfter(r: string, d: string, t: string)
    requires IsSubsequence(r, t)
    ensures IsSubsequence(r, d + t)
  {
    if d != [] {
      SubsequenceAfter(r, d[1..], t);
      assert (d + t)[1..] == d[1..] + t;
      if r != [] && r[0] == d[0] {
        SubsequenceWeaken(r, d[1..] + t);
      }
    } else {
      assert d + t == t;
    }
  }

  /** Dropping the first character of a subsequence keeps it a subsequence. */
  lemma {:induction false} SubsequenceWeaken(r: string, s: string)
    requires r != [] && IsSubsequence(r, s)
    ensures IsSubsequence(r[1..], s)
    decreases |s|
  {
    if r[0] != s[0] {
      SubsequenceWeaken(r, s[1..]);
      if r[1..] != [] && r[1..][0] == s[0] {
        SubsequenceWeaken(r[1..], s[1..]);
      }
    } else if r[1..] != [] && r[1..][0] == s[0] {
      SubsequenceWeaken(r[1..], s[1..]);
    }
  }

  /** A subsequence is no longer than the text, and each of its characters
      occurs in the text. */
  lemma {:induction false} SubsequenceBounds(r: string, s: string)
    requires IsSubsequence(r, s)
    ensures |r| <= |s|
    ensures forall c :: c in r ==> c in s
    decreases |s|
  {
    if r != [] {
      if r[0] == s[0] {
        SubsequenceBounds(r[1..], s[1..]);
        forall c | c in r ensures c in s {
          if c != r[0] {
            var i :| 0 <= i < |r| && r[i] == c;
            assert r[1..][i - 1] == c && c in r[1..];
            var j :| 0 <= j < |s[1..]| && s[1..][j] == c;
            assert s[j + 1] == c;
          }
        }
      } else {
        SubsequenceBounds(r, s[1..]);
        forall c | c in r ensures c in s {
          var j :| 0 <= j < |s[1..]| && s[1..][j] == c;
          assert s[j + 1] == c;
        }
      }
    }
  }

  /** A deleting pattern only drops characters: the result is the input with
      some characters left out, in their order; so it is no longer than the
      input and every character of it comes from the input. */
  lemma {:induction false} ReplaceDeletes(s: string, m: string -> Match)
    requires OnlyDeletes(s, m)
    ensures IsSubsequence(ReplaceAll(s, m), s)
    ensures |ReplaceAll(s, m)| <= |s|
    ensures forall c :: c in ReplaceAll(s, m) ==> c in s
  {
    if s != [] {
      assert s[0..] == s;
      var n := if m(s).Matched? && 0 < m(s).len <= |s| then m(s).len else 1;
      forall k | 0 <= k < |s| - n
        ensures m(s[n..][k..]).Matched? ==> m(s[n..][k..]).replacement == []
      {
        assert s[n..][k..] == s[k + n..];
      }
      ReplaceDeletes(s[n..], m);
      var rest := ReplaceAll(s[n..], m);
      if m(s).Matched? && 0 < m(s).len <= |s| {
        assert ReplaceAll(s, m) == rest;
        SubsequenceAfter(rest, s[..n], s[n..]);
        assert s[..n] + s[n..] == s;
      } else {
        assert ReplaceAll(s, m) == [s[0]] + rest;
        assert ([s[0]] + rest)[1..] == rest;
      }
    }
    SubsequenceBounds(ReplaceAll(s, m), s);
  }
}
