/**
 * The few `java.lang.String` operations the ingestion gate and the lockout
 * table rely on: `trim`, `toLowerCase` (ASCII letters), `endsWith` and
 * `split("\\R")`.
 */
module Text {

  /** `String.trim` removes every leading and trailing character whose code is at most U+0020. */
  predicate IsTrimmed(c: char) {
    c <= ' '
  }

  /** Index of the first character at or after `i` that `trim` keeps. */
  function SkipLeading(s: string, i: nat): (k: nat)
    requires i <= |s|
    ensures i <= k <= |s|
    ensures forall j :: i <= j < k ==> IsTrimmed(s[j])
    ensures k < |s| ==> !IsTrimmed(s[k])
    decreases |s| - i
  {
    if i < |s| && IsTrimmed(s[i]) then SkipLeading(s, i + 1) else i
  }

  /** End (exclusive) of the part of `s[..j]` that `trim` keeps at the right. */
  function SkipTrailing(s: string, j: nat): (k: nat)
    requires j <= |s|
    ensures k <= j
    ensures forall m :: k <= m < j ==> IsTrimmed(s[m])
    ensures k > 0 ==> !IsTrimmed(s[k - 1])
  {
    if j > 0 && IsTrimmed(s[j - 1]) then SkipTrailing(s, j - 1) else j
  }

  /** `String.trim`. */
  function Trim(s: string): (r: string)
    ensures r == [] <==> forall j :: 0 <= j < |s| ==> IsTrimmed(s[j])
    ensures r != [] ==> !IsTrimmed(r[0]) && !IsTrimmed(r[|r| - 1])
    ensures |r| <= |s|
  {
    var e := SkipTrailing(s, |s|);
    var b := SkipLeading(s[..e], 0);
    assert forall j :: 0 <= j < b ==> s[..e][j] == s[j];
    assert s[..e][b..] == s[b..e];
    s[b..e]
  }

  /** `trim` cuts only characters at most U+0020, and only from the two ends. */
  lemma TrimInfix(s: string)
    ensures exists b, e :: 0 <= b <= e <= |s| && Trim(s) == s[b..e]
              && (forall j :: 0 <= j < b ==> IsTrimmed(s[j])) && (forall j :: e <= j < |s| ==> IsTrimmed(s[j]))
  {
    var e := SkipTrailing(s, |s|);
    var b := SkipLeading(s[..e], 0);
    assert forall j :: 0 <= j < b ==> s[..e][j] == s[j];
    assert Trim(s) == s[b..e];
  }

  /** A string that neither starts nor ends with a trimmed character is its own `trim`. */
  lemma TrimUnpadded(s: string)
    requires s != [] && !IsTrimmed(s[0]) && !IsTrimmed(s[|s| - 1])
    ensures Trim(s) == s
  {
    assert SkipTrailing(s, |s|) == |s|;
    assert s[..|s|] == s;
    assert SkipLeading(s, 0) == 0;
  }

  /** Lower-casing of one character, restricted to the ASCII letters. */
  function LowerChar(c: char): char {
    if 'A' <= c <= 'Z' then (c as int + 32) as char else c
  }

  /** `String.toLowerCase` on ASCII letters. */
  function Lower(s: string): (r: string)
    ensures |r| == |s|
    ensures forall i :: 0 <= i < |s| ==> r[i] == LowerChar(s[i])
  {
    seq(|s|, i requires 0 <= i < |s| => LowerChar(s[i]))
  }

  /** Two characters that are equal, or an ASCII capital and its small letter. */
  predicate SameLetter(c: char, d: char) {
    c == d || ('A' <= c <= 'Z' && d as int == c as int + 32) || ('A' <= d <= 'Z' && c as int == d as int + 32)
  }

  /** The two strings differ at most in the case of ASCII letters. */
  predicate DifferOnlyInCase(a: string, b: string) {
    |a| == |b| && forall i :: 0 <= i < |a| ==> SameLetter(a[i], b[i])
  }

  /** Lower-casing identifies exactly the strings that differ only in the case of their letters. */
  lemma LowerIdentifiesCaseVariants(a: string, b: string)
    ensures Lower(a) == Lower(b) <==> DifferOnlyInCase(a, b)
  {
    if Lower(a) == Lower(b) {
      forall i | 0 <= i < |a| ensures SameLetter(a[i], b[i]) {
        assert LowerChar(a[i]) == Lower(a)[i] == Lower(b)[i] == LowerChar(b[i]);
      }
    }
    if DifferOnlyInCase(a, b) {
      forall i | 0 <= i < |a| ensures Lower(a)[i] == Lower(b)[i] {
        assert SameLetter(a[i], b[i]);
      }
    }
  }

  /** Lower-casing twice is lower-casing once. */
  lemma LowerIdempotent(s: string)
    ensures Lower(Lower(s)) == Lower(s)
  {
  }

  /** `String.endsWith`. */
  predicate EndsWith(s: string, suffix: string) {
    |suffix| <= |s| && s[|s| - |suffix|..] == suffix
  }

  /** The single characters matched by `\R`. */
  predicate IsLineBreakChar(c: char) {
    c == '\n' || c == '\U{000B}' || c == '\U{000C}' || c == '\r'
    || c == '\U{0085}' || c == '\U{2028}' || c == '\U{2029}'
  }

  /** Length of the `\R` match at the start of `s` (`\r\n` counts as one break), or 0. */
  function BreakLength(s: string): (n: nat)
    ensures n <= |s|
  {
    if |s| >= 2 && s[0] == '\r' && s[1] == '\n' then 2
    else if |s| >= 1 && IsLineBreakChar(s[0]) then 1
    else 0
  }

  /** The pieces of `s` between the leftmost successive `\R` matches, empty pieces kept. */
  function Pieces(s: string): (r: seq<string>)
    ensures |r| >= 1
    ensures |r| == 1 ==> r[0] == s
    decreases |s|
  {
    if s == [] then [""]
    else if BreakLength(s) > 0 then [""] + Pieces(s[BreakLength(s)..])
    else
      var t := Pieces(s[1..]);
      [[s[0]] + t[0]] + t[1..]
  }

  /** The successive leftmost `\R` matches of `s`: each is `\r\n` or one line-break character. */
  function Breaks(s: string): (r: seq<string>)
    ensures forall k :: 0 <= k < |r| ==> r[k] == "\r\n" || (|r[k]| == 1 && IsLineBreakChar(r[k][0]))
    decreases |s|
  {
    if s == [] then []
    else if BreakLength(s) > 0 then [s[..BreakLength(s)]] + Breaks(s[BreakLength(s)..])
    else Breaks(s[1..])
  }

  /** `p[0] + b[0] + p[1] + ... + b[|b| - 1] + p[|b|]`. */
  function Interleave(p: seq<string>, b: seq<string>): string
    requires |p| == |b| + 1
    decreases |b|
  {
    if b == [] then p[0] else p[0] + b[0] + Interleave(p[1..], b[1..])
  }

  lemma InterleaveCons(c: char, p: seq<string>, b: seq<string>)
    requires |p| == |b| + 1
    ensures Interleave([[c] + p[0]] + p[1..], b) == [c] + Interleave(p, b)
  {
    var q := [[c] + p[0]] + p[1..];
    assert q[1..] == p[1..];
  }

  /** One step of `Pieces` and `Breaks` at a line break. */
  lemma PiecesAtBreak(s: string)
    requires s != [] && BreakLength(s) > 0
    ensures Pieces(s) == [""] + Pieces(s[BreakLength(s)..])
    ensures Breaks(s) == [s[..BreakLength(s)]] + Breaks(s[BreakLength(s)..])
  {
  }

  /** One step of `Pieces` and `Breaks` at an ordinary character. */
  lemma PiecesAtChar(s: string)
    requires s != [] && BreakLength(s) == 0
    ensures Pieces(s) == [[s[0]] + Pieces(s[1..])[0]] + Pieces(s[1..])[1..]
    ensures Breaks(s) == Breaks(s[1..])
  {
  }

  lemma InterleaveBreak(head: string, p: seq<string>, b: seq<string>)
    requires |p| == |b| + 1
    ensures Interleave([""] + p, [head] + b) == head + Interleave(p, b)
  {
    assert ([""] + p)[1..] == p;
    assert ([head] + b)[1..] == b;
  }

  /** The pieces, joined with the breaks matched between them, give back the text. */
  lemma {:induction false} PiecesJoin(s: string)
    ensures |Pieces(s)| == |Breaks(s)| + 1
    ensures Interleave(Pieces(s), Breaks(s)) == s
    decreases |s|
  {
    if s == [] {
    } else if BreakLength(s) > 0 {
      var n := BreakLength(s);
      PiecesAtBreak(s);
      PiecesJoin(s[n..]);
      InterleaveBreak(s[..n], Pieces(s[n..]), Breaks(s[n..]));
      assert s == s[..n] + s[n..];
    } else {
      PiecesAtChar(s);
      PiecesJoin(s[1..]);
      InterleaveCons(s[0], Pieces(s[1..]), Breaks(s[1..]));
      assert s == [s[0]] + s[1..];
    }
  }

  /** Removes the empty strings at the end of `p`, as `split` with limit 0 does. */
  function DropTrailingEmpty(p: seq<string>): (r: seq<string>)
    ensures r <= p
    ensures r != [] ==> r[|r| - 1] != ""
    ensures forall i :: |r| <= i < |p| ==> p[i] == ""
  {
    if p == [] || p[|p| - 1] != "" then p else DropTrailingEmpty(p[..|p| - 1])
  }

  /** `s.split("\\R")`: without any line break the whole string is the one element (even when empty). */
  function SplitLines(s: string): (r: seq<string>)
    ensures |Pieces(s)| == 1 ==> r == [s]
    ensures |Pieces(s)| > 1 ==> r <= Pieces(s) && (r != [] ==> r[|r| - 1] != "")
    ensures |Pieces(s)| > 1 ==> forall i :: |r| <= i < |Pieces(s)| ==> Pieces(s)[i] == ""
  {
    var p := Pieces(s);
    if |p| == 1 then p else DropTrailingEmpty(p)
  }

  /** The line contains no line-break character. */
  predicate NoBreaks(line: string) {
    forall i :: 0 <= i < |line| ==> !IsLineBreakChar(line[i])
  }

  /** No piece contains a line-break character. */
  lemma {:induction false} PiecesHaveNoBreaks(s: string)
    ensures forall k :: 0 <= k < |Pieces(s)| ==> NoBreaks(Pieces(s)[k])
    decreases |s|
  {
    if s != [] {
      if BreakLength(s) > 0 {
        var p := Pieces(s[BreakLength(s)..]);
        PiecesAtBreak(s);
        PiecesHaveNoBreaks(s[BreakLength(s)..]);
        forall k | 0 <= k < |[""] + p| ensures NoBreaks(([""] + p)[k]) {
          if k > 0 {
            assert ([""] + p)[k] == p[k - 1];
          }
        }
      } else {
        var t := Pieces(s[1..]);
        PiecesAtChar(s);
        PiecesHaveNoBreaks(s[1..]);
        var first := [s[0]] + t[0];
        assert NoBreaks(first) by {
          assert NoBreaks(t[0]) && !IsLineBreakChar(s[0]);
          forall i | 0 <= i < |first| ensures !IsLineBreakChar(first[i]) {
            if i > 0 {
              assert first[i] == t[0][i - 1];
            }
          }
        }
        forall k | 0 <= k < |[first] + t[1..]| ensures NoBreaks(([first] + t[1..])[k]) {
          if k > 0 {
            assert ([first] + t[1..])[k] == t[k];
          }
        }
      }
    }
  }

  /** The lines `split("\\R")` yields contain no line-break character. */
  lemma SplitLinesHaveNoBreaks(s: string)
    ensures forall k :: 0 <= k < |SplitLines(s)| ==> NoBreaks(SplitLines(s)[k])
  {
    PiecesHaveNoBreaks(s);
    var p := Pieces(s);
    var r := SplitLines(s);
    assert forall k :: 0 <= k < |r| ==> r[k] == p[k];
  }
}
