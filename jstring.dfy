/**
 * The parts of java.lang.String that the pipeline relies on, with Java's
 * semantics: `trim()`, `split(...)` (which drops trailing empty strings),
 * `contains`, `equalsIgnoreCase` and the character classes `\s` and `\d`
 * of java.util.regex.
 */
module JString {

  /** The regex class `\s`: [ \t\n\x0B\f\r]. */
  predicate IsSpace(c: char) {
    c == ' ' || c == '\t' || c == '\n' || c == 11 as char || c == 12 as char || c == '\r'
  }

  /** The characters `String.trim()` removes from both ends: every code point up to U+0020. */
  predicate IsTrimmable(c: char) {
    c <= ' '
  }

  /** The regex class `\d`: [0-9]. */
  predicate IsDigit(c: char) {
    '0' <= c <= '9'
  }

  /** `s.matches("\\d+")`. */
  predicate AllDigits(s: string) {
    |s| > 0 && forall i :: 0 <= i < |s| ==> IsDigit(s[i])
  }

  /** The UTF-16 code units a character takes in a Java string: two for a
      character above U+FFFF (a surrogate pair), one for any other. */
  function CharUnits(c: char): nat {
    if c as int > 0xFFFF then 2 else 1
  }

  /** `String.length()`: the number of UTF-16 code units. */
  function JavaLength(s: string): (n: nat)
    ensures |s| <= n <= 2 * |s|
    ensures n == |s| <==> forall i :: 0 <= i < |s| ==> s[i] as int <= 0xFFFF
  {
    if s == [] then 0
    else
      var n := CharUnits(s[0]) + JavaLength(s[1..]);
      assert forall i :: 1 <= i < |s| ==> s[i] == s[1..][i - 1];
      n
  }

  /** A string `trim()` leaves unchanged. */
  predicate IsTrimmed(s: string) {
    s == [] || (!IsTrimmable(s[0]) && !IsTrimmable(s[|s| - 1]))
  }

  /** A string whose `trim()` is empty. */
  predicate IsBlank(s: string) {
    forall i :: 0 <= i < |s| ==> IsTrimmable(s[i])
  }

  /** The first index at or after `k` that holds a character `trim()` keeps, or |s|. */
  function LeadFrom(s: string, k: nat): (r: nat)
    requires k <= |s|
    ensures k <= r <= |s|
    ensures forall i :: k <= i < r ==> IsTrimmable(s[i])
    ensures r < |s| ==> !IsTrimmable(s[r])
    decreases |s| - k
  {
    if k < |s| && IsTrimmable(s[k]) then LeadFrom(s, k + 1) else k
  }

  /** The end of `s[..k]` once its trailing trimmable characters are dropped. */
  function EndFrom(s: string, k: nat): (r: nat)
    requires k <= |s|
    ensures r <= k
    ensures forall i :: r <= i < k ==> IsTrimmable(s[i])
    ensures r > 0 ==> !IsTrimmable(s[r - 1])
  {
    if k > 0 && IsTrimmable(s[k - 1]) then EndFrom(s, k - 1) else k
  }

  /** Where the result of `trim()` starts in `s`. */
  function TrimOffset(s: string): nat {
    LeadFrom(s, 0)
  }

  /** `s.trim()`: the slice of `s` between its leading and its trailing runs
      of trimmable characters. */
  function Trim(s: string): (r: string)
    ensures IsTrimmed(r) && |r| <= |s|
    ensures r == [] <==> IsBlank(s)
  {
    var a := LeadFrom(s, 0);
    var b := EndFrom(s, |s|);
    if b <= a then
      assert a == |s| by {
        if a < |s| {
          assert false;
        }
      }
      []
    else
      assert !IsTrimmable(s[a]);
      s[a..b]
  }

  /** `trim()` cuts a slice out of `s`, starting at `TrimOffset(s)`. */
  lemma TrimIsSlice(s: string)
    ensures TrimOffset(s) + |Trim(s)| <= |s|
    ensures forall i :: 0 <= i < |Trim(s)| ==> Trim(s)[i] == s[TrimOffset(s) + i]
  {
  }

  lemma TrimOfTrimmed(s: string)
    requires IsTrimmed(s)
    ensures Trim(s) == s
  {
    if s != [] {
      assert LeadFrom(s, 0) == 0;
      assert EndFrom(s, |s|) == |s|;
      assert s[0..|s|] == s;
    }
  }

  /** `trim()` keeps a leading `p` whole when `p` starts and ends with
      characters it does not remove. */
  lemma TrimKeepsPrefix(p: string, q: string)
    requires p != [] && !IsTrimmable(p[0]) && !IsTrimmable(p[|p| - 1])
    ensures StartsWith(Trim(p + q), p)
  {
    var s := p + q;
    assert s[0] == p[0];
    assert LeadFrom(s, 0) == 0;
    var b := EndFrom(s, |s|);
    assert s[|p| - 1] == p[|p| - 1];
    assert b >= |p|;
    assert Trim(s) == s[0..b];
    assert s[0..b][..|p|] == p;
  }

  /** ASCII case folding (the pipeline only compares against ASCII words). */
  function LowerChar(c: char): char {
    if 'A' <= c <= 'Z' then (c as int + 32) as char else c
  }

  function Lower(s: string): (r: string)
    ensures |r| == |s| && forall i :: 0 <= i < |s| ==> r[i] == LowerChar(s[i])
  {
    seq(|s|, i requires 0 <= i < |s| => LowerChar(s[i]))
  }

  /** `a.equalsIgnoreCase(b)` on ASCII letters. */
  predicate EqualsIgnoreCase(a: string, b: string) {
    Lower(a) == Lower(b)
  }

  predicate StartsWith(s: string, p: string) {
    |p| <= |s| && s[..|p|] == p
  }

  predicate EndsWith(s: string, p: string) {
    |p| <= |s| && s[|s| - |p|..] == p
  }

  /** `s.contains(t)`. */
  predicate Contains(s: string, t: string) {
    exists i | 0 <= i <= |s| - |t| :: OccursAt(s, t, i)
  }

  predicate OccursAt(s: string, t: string, i: int) {
    0 <= i <= |s| - |t| && s[i..i + |t|] == t
  }

  lemma ContainsMiddle(a: string, t: string, b: string)
    ensures Contains(a + t + b, t)
  {
    assert OccursAt(a + t + b, t, |a|) by {
      assert (a + t + b)[|a|..|a| + |t|] == t;
    }
  }

  /** Glue `parts` together with `sep` between neighbours. */
  function Join(parts: seq<string>, sep: string): string {
    if parts == [] then ""
    else if |parts| == 1 then parts[0]
    else parts[0] + sep + Join(parts[1..], sep)
  }

  /** Every piece between occurrences of `c`, empty ones included. */
  function SplitAll(s: string, c: char): (r: seq<string>)
    ensures |r| >= 1
  {
    if s == [] then [""]
    else if s[0] == c then [""] + SplitAll(s[1..], c)
    else
      var rest := SplitAll(s[1..], c);
      [[s[0]] + rest[0]] + rest[1..]
  }

  /** Splitting and joining again gives back the input, and no piece holds the separator. */
  lemma {:induction false} SplitAllJoin(s: string, c: char)
    ensures Join(SplitAll(s, c), [c]) == s
    ensures forall k :: 0 <= k < |SplitAll(s, c)| ==> c !in SplitAll(s, c)[k]
  {
    if s == [] {
    } else if s[0] == c {
      SplitAllJoin(s[1..], c);
      var rest := SplitAll(s[1..], c);
      assert SplitAll(s, c)[1..] == rest;
    } else {
      SplitAllJoin(s[1..], c);
      var rest := SplitAll(s[1..], c);
      var r := SplitAll(s, c);
      assert r[1..] == rest[1..];
      forall k | 0 <= k < |r|
        ensures c !in r[k]
      {
        if k > 0 { assert r[k] == rest[k]; }
      }
    }
  }

  /** Index of the first `c` in `s`, or -1 (`String.indexOf`). */
  function IndexOf(s: string, c: char): (r: int)
    ensures -1 <= r < |s|
    ensures r == -1 <==> c !in s
    ensures r >= 0 ==> s[r] == c && forall i :: 0 <= i < r ==> s[i] != c
  {
    if s == [] then -1
    else if s[0] == c then 0
    else
      var r := IndexOf(s[1..], c);
      if r == -1 then
        assert s == [s[0]] + s[1..];
        -1
      else r + 1
  }

  lemma {:induction false} SplitAllNoSep(a: string, c: char)
    requires c !in a
    ensures SplitAll(a, c) == [a]
  {
    if a != [] {
      assert a[0] != c && c !in a[1..];
      SplitAllNoSep(a[1..], c);
      assert [a[0]] + a[1..] == a;
    }
  }

  lemma {:induction false} SplitAllPrefix(a: string, rest: string, c: char)
    requires c !in a
    ensures SplitAll(a + [c] + rest, c) == [a] + SplitAll(rest, c)
  {
    if a == [] {
      assert a + [c] + rest == [c] + rest;
    } else {
      var s := a + [c] + rest;
      assert s[0] == a[0] != c;
      assert s[1..] == a[1..] + [c] + rest;
      SplitAllPrefix(a[1..], rest, c);
      var tail := SplitAll(s[1..], c);
      assert tail == [a[1..]] + SplitAll(rest, c);
      assert [s[0]] + tail[0] == a;
    }
  }

  /** Joining with `c` and splitting at `c` again gives back the pieces,
      when no piece holds `c`. */
  lemma {:induction false} JoinSplitAll(parts: seq<string>, c: char)
    requires |parts| >= 1
    requires forall k :: 0 <= k < |parts| ==> c !in parts[k]
    ensures SplitAll(Join(parts, [c]), c) == parts
  {
    if |parts| == 1 {
      SplitAllNoSep(parts[0], c);
    } else {
      JoinSplitAll(parts[1..], c);
      SplitAllPrefix(parts[0], Join(parts[1..], [c]), c);
    }
  }

  function DropTrailingEmpty(ps: seq<string>): (r: seq<string>)
    ensures |r| <= |ps| && r == ps[..|r|]
    ensures r == [] || r[|r| - 1] != ""
    ensures forall k :: |r| <= k < |ps| ==> ps[k] == ""
  {
    if ps != [] && ps[|ps| - 1] == "" then DropTrailingEmpty(ps[..|ps| - 1]) else ps
  }

  /** Splitting at a separator splits each side on its own. */
  lemma {:induction false} SplitAllConcat(x: string, y: string, c: char)
    ensures SplitAll(x + [c] + y, c) == SplitAll(x, c) + SplitAll(y, c)
  {
    if x == [] {
      assert x + [c] + y == [c] + y;
      SplitAllCons(c, y, c);
    } else {
      var t := x[1..];
      SplitAllConcat(t, y, c);
      SplitAllConcatStep(x[0], t, y, c);
      assert x == [x[0]] + t;
      assert x + [c] + y == [x[0]] + (t + [c] + y);
    }
  }

  lemma SplitAllConcatStep(h: char, t: string, y: string, c: char)
    requires SplitAll(t + [c] + y, c) == SplitAll(t, c) + SplitAll(y, c)
    ensures SplitAll([h] + (t + [c] + y), c) == SplitAll([h] + t, c) + SplitAll(y, c)
  {
    SplitAllCons(h, t + [c] + y, c);
    SplitAllCons(h, t, c);
    var a := SplitAll(t, c);
    var b := SplitAll(y, c);
    if h == c {
      ConcatAssoc([""], a, b);
    } else {
      assert (a + b)[0] == a[0] && (a + b)[1..] == a[1..] + b;
      ConcatAssoc([[h] + a[0]], a[1..], b);
    }
  }

  /** One step of `SplitAll`. */
  lemma SplitAllCons(h: char, t: string, c: char)
    ensures SplitAll([h] + t, c) ==
      if h == c then [""] + SplitAll(t, c)
      else [[h] + SplitAll(t, c)[0]] + SplitAll(t, c)[1..]
  {
    assert ([h] + t)[0] == h && ([h] + t)[1..] == t;
  }

  /** A text of separators only splits into empty pieces. */
  lemma {:induction false} SplitAllOnlySeparators(s: string, c: char)
    requires forall i :: 0 <= i < |s| ==> s[i] == c
    ensures forall k :: 0 <= k < |SplitAll(s, c)| ==> SplitAll(s, c)[k] == ""
  {
    if s != [] {
      SplitAllOnlySeparators(s[1..], c);
    }
  }

  /** A character other than the separator lands in some non-empty piece. */
  lemma {:induction false} SplitAllNonEmptyPiece(s: string, c: char, i: int)
    requires 0 <= i < |s| && s[i] != c
    ensures exists k :: 0 <= k < |SplitAll(s, c)| && SplitAll(s, c)[k] != ""
  {
    if s[0] == c {
      SplitAllNonEmptyPiece(s[1..], c, i - 1);
      var k :| 0 <= k < |SplitAll(s[1..], c)| && SplitAll(s[1..], c)[k] != "";
      assert SplitAll(s, c)[k + 1] == SplitAll(s[1..], c)[k];
    } else {
      assert SplitAll(s, c)[0][0] == s[0];
    }
  }

  /** `s.split(regex)` for a one-character separator: with no separator the
      array is `[s]`; otherwise every piece, less the trailing empty ones. */
  function Split(s: string, c: char): (r: seq<string>)
    ensures c !in s ==> r == [s]
  {
    if c !in s then [s] else DropTrailingEmpty(SplitAll(s, c))
  }

  /** `split` of a non-empty text gives no piece at all exactly when the
      text is made of separators only. */
  lemma SplitEmptyIff(s: string, c: char)
    requires s != []
    ensures Split(s, c) == [] <==> forall i :: 0 <= i < |s| ==> s[i] == c
  {
    if forall i :: 0 <= i < |s| ==> s[i] == c {
      assert s[0] == c;
      SplitAllOnlySeparators(s, c);
    } else {
      var i :| 0 <= i < |s| && s[i] != c;
      SplitAllNonEmptyPiece(s, c, i);
    }
  }

  /** No piece of `split` holds the separator. */
  lemma SplitPiecesNoSeparator(s: string, c: char, k: int)
    requires 0 <= k < |Split(s, c)|
    ensures c !in Split(s, c)[k]
  {
    if c in s {
      SplitAllJoin(s, c);
      assert Split(s, c)[k] == SplitAll(s, c)[k];
    }
  }

  /** Pieces between maximal runs of `\s`, empty ones included. */
  function SplitAllSpaces(s: string): (r: seq<string>)
    ensures |r| >= 1
    ensures forall k :: 0 <= k < |r| ==> forall j :: 0 <= j < |r[k]| ==> !IsSpace(r[k][j])
  {
    if s == [] then [""]
    else if IsSpace(s[0]) then
      var k := SpaceRun(s);
      [""] + SplitAllSpaces(s[k..])
    else
      var rest := SplitAllSpaces(s[1..]);
      assert forall k :: 1 <= k < |rest| ==> rest[k] == (rest[1..])[k - 1];
      [[s[0]] + rest[0]] + rest[1..]
  }

  /** Length of the run of `\s` at the head of `s`. */
  function SpaceRun(s: string): (n: nat)
    ensures n <= |s| && (n < |s| ==> !IsSpace(s[n]))
    ensures forall i :: 0 <= i < n ==> IsSpace(s[i])
  {
    if s != [] && IsSpace(s[0]) then 1 + SpaceRun(s[1..]) else 0
  }

  /** `s.split("\\s+")`. */
  function SplitSpaces(s: string): seq<string> {
    if forall i :: 0 <= i < |s| ==> !IsSpace(s[i]) then [s] else DropTrailingEmpty(SplitAllSpaces(s))
  }

  /** Decimal rendering of an integer, as `Long.toString`. */
  function DecimalString(n: int): (r: string)
    ensures r != []
    decreases if n < 0 then 1 - n else n
  {
    if n < 0 then "-" + DecimalString(-n)
    else if n < 10 then ['0' + n as char]
    else DecimalString(n / 10) + ['0' + (n % 10) as char]
  }

  /** The line terminators of `String.lines()`: '\n', '\r' (and "\r\n" as one). */
  predicate IsLineBreak(c: char) {
    c == '\n' || c == '\r'
  }

  /** Index of the first line terminator, or |s| when there is none. */
  function BreakIndex(s: string): (i: nat)
    ensures i <= |s| && (i < |s| ==> IsLineBreak(s[i]))
    ensures forall j :: 0 <= j < i ==> !IsLineBreak(s[j])
  {
    if s == [] || IsLineBreak(s[0]) then 0 else 1 + BreakIndex(s[1..])
  }

  /** `s.lines()`: the text between terminators; a final terminator does not
      start another (empty) line, and the empty text has no lines. */
  function Lines(s: string): (r: seq<string>)
    ensures forall k :: 0 <= k < |r| ==> forall j :: 0 <= j < |r[k]| ==> !IsLineBreak(r[k][j])
    decreases |s|
  {
    if s == [] then []
    else
      var i := BreakIndex(s);
      if i == |s| then [s]
      else
        var next := if s[i] == '\r' && i + 1 < |s| && s[i + 1] == '\n' then i + 2 else i + 1;
        [s[..i]] + Lines(s[next..])
  }

  /** The first character of a join is that of the first part, the last that of the last part. */
  lemma {:induction false} JoinEnds(parts: seq<string>, sep: string)
    requires parts != [] && forall k :: 0 <= k < |parts| ==> parts[k] != []
    ensures Join(parts, sep) != []
    ensures Join(parts, sep)[0] == parts[0][0]
    ensures Join(parts, sep)[|Join(parts, sep)| - 1] == parts[|parts| - 1][|parts[|parts| - 1]| - 1]
  {
    if |parts| > 1 {
      JoinEnds(parts[1..], sep);
    }
  }

  /** Joining one more part at the end. */
  lemma {:induction false} JoinSnoc(parts: seq<string>, x: string, sep: string)
    requires parts != []
    ensures Join(parts + [x], sep) == Join(parts, sep) + sep + x
  {
    if |parts| == 1 {
      assert parts + [x] == [parts[0], x];
    } else {
      assert (parts + [x])[1..] == parts[1..] + [x];
      JoinSnoc(parts[1..], x, sep);
    }
  }

  /** Joining trimmed non-empty parts gives a trimmed text. */
  lemma JoinTrimmed(parts: seq<string>, sep: string)
    requires forall k :: 0 <= k < |parts| ==> parts[k] != [] && IsTrimmed(parts[k])
    ensures IsTrimmed(Join(parts, sep))
  {
    if parts != [] {
      JoinEnds(parts, sep);
    }
  }

  /** Trimming a trimmed text followed by one space gives the text back. */
  lemma TrimTrailingSpace(t: string)
    requires t != [] && IsTrimmed(t)
    ensures Trim(t + " ") == t
  {
    var x := t + " ";
    assert x[0] == t[0] && x[|t| - 1] == t[|t| - 1];
    assert LeadFrom(x, 0) == 0;
    assert EndFrom(x, |x|) == EndFrom(x, |t|) == |t|;
    assert x[0..|t|] == t;
  }

  /** A character in neither the parts nor the separator is not in the join. */
  lemma {:induction false} JoinNoChar(parts: seq<string>, sep: string, c: char)
    requires c !in sep && forall k :: 0 <= k < |parts| ==> c !in parts[k]
    ensures c !in Join(parts, sep)
  {
    if |parts| > 1 {
      JoinNoChar(parts[1..], sep, c);
    }
  }

  /** Trimming adds no character. */
  lemma TrimNoChar(s: string, c: char)
    requires c !in s
    ensures c !in Trim(s)
  {
    var t := Trim(s);
    var off := TrimOffset(s);
    TrimIsSlice(s);
    forall i | 0 <= i < |t| ensures t[i] != c {
      assert t[i] == s[off + i];
    }
  }

  lemma ConcatAssoc<T>(a: seq<T>, b: seq<T>, c: seq<T>)
    ensures (a + b) + c == a + (b + c)
  {
  }

  lemma ConcatEmpty<T>(a: seq<T>)
    ensures a + [] == a && [] + a == a
  {
  }

  lemma InitLast<T>(s: seq<T>)
    requires s != []
    ensures s[..|s| - 1] + [s[|s| - 1]] == s
  {
  }

  lemma DropDrop<T>(s: seq<T>, a: nat, b: nat)
    requires a + b <= |s|
    ensures s[a..][b..] == s[a + b..]
    ensures b < |s| - a ==> s[a..][b] == s[a + b]
  {
  }

  /** How many times `c` occurs in `s`. */
  function CountChar(s: string, c: char): (n: nat)
    ensures n <= |s|
  {
    if s == [] then 0 else (if s[0] == c then 1 else 0) + CountChar(s[1..], c)
  }

  lemma {:induction false} CountCharAppend(a: string, b: string, c: char)
    ensures CountChar(a + b, c) == CountChar(a, c) + CountChar(b, c)
  {
    if a == [] {
      assert a + b == b;
    } else {
      assert (a + b)[0] == a[0];
      assert (a + b)[1..] == a[1..] + b;
      CountCharAppend(a[1..], b, c);
    }
  }

  lemma {:induction false} CountCharNone(s: string, c: char)
    requires c !in s
    ensures CountChar(s, c) == 0
  {
    if s != [] {
      CountCharNone(s[1..], c);
    }
  }
}
