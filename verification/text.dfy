/**
 * The string operations of Python's `str` that the extractor relies on,
 * restricted to ASCII: `isspace`, `strip`, `lower`, `in` (substring),
 * `endswith`, `rfind` and the line splitting of a text file's `readlines`.
 */
module Text {

  /** `c.isspace()` for an ASCII character: tab to carriage return, the four
      information separators 0x1C-0x1F, and the space. */
  predicate IsSpace(c: char) {
    9 <= c as int <= 13 || 28 <= c as int <= 31 || c == ' '
  }

  predicate AllSpace(s: string) {
    forall k | 0 <= k < |s| :: IsSpace(s[k])
  }

  /** Number of whitespace characters at the start of `s`. */
  function LeadingSpaces(s: string): (n: nat)
    ensures n <= |s|
    ensures forall k | 0 <= k < n :: IsSpace(s[k])
    ensures n < |s| ==> !IsSpace(s[n])
  {
    if s == [] || !IsSpace(s[0]) then 0 else 1 + LeadingSpaces(s[1..])
  }

  /** Number of whitespace characters at the end of `s`. */
  function TrailingSpaces(s: string): (n: nat)
    ensures n <= |s|
    ensures forall k | |s| - n <= k < |s| :: IsSpace(s[k])
    ensures n < |s| ==> !IsSpace(s[|s| - 1 - n])
  {
    if s == [] || !IsSpace(s[|s| - 1]) then 0 else 1 + TrailingSpaces(s[..|s| - 1])
  }

  /** `s.strip()`: `s` without its leading and trailing whitespace. */
  function Strip(s: string): (r: string)
    ensures LeadingSpaces(s) + |r| <= |s|
    ensures forall k | 0 <= k < |r| :: r[k] == s[LeadingSpaces(s) + k]
    ensures AllSpace(s[LeadingSpaces(s) + |r|..])
    ensures r == [] <==> AllSpace(s)
    ensures r != [] ==> !IsSpace(r[0]) && !IsSpace(r[|r| - 1])
  {
    var i := LeadingSpaces(s);
    if i == |s| then [] else s[i..|s| - TrailingSpaces(s)]
  }

  /** What `Strip` removes is whitespace only: `s` is `Strip(s)` surrounded by
      two all-whitespace strings. */
  lemma StripRemovesOnlySpace(s: string)
    ensures var i, r := LeadingSpaces(s), Strip(s);
            i + |r| <= |s| && s[i..i + |r|] == r && AllSpace(s[..i]) && AllSpace(s[i + |r|..])
  {
    var i, r := LeadingSpaces(s), Strip(s);
    if r != [] {
      var t := TrailingSpaces(s);
      assert i + |r| == |s| - t;
    }
  }

  lemma StripIdempotent(s: string)
    ensures Strip(Strip(s)) == Strip(s)
  {
    var r := Strip(s);
    if r != [] {
      assert LeadingSpaces(r) == 0;
      assert TrailingSpaces(r) == 0;
    }
  }

  function LowerChar(c: char): (d: char)
  {
    if 'A' <= c <= 'Z' then (c as int + 32) as char else c
  }

  /** `s.lower()` on ASCII: upper-case letters become lower-case, nothing else
      changes. */
  function Lower(s: string): (r: string)
    ensures |r| == |s|
  {
    if s == [] then [] else [LowerChar(s[0])] + Lower(s[1..])
  }

  lemma {:induction false} LowerAt(s: string, k: nat)
    requires k < |s|
    ensures Lower(s)[k] == LowerChar(s[k])
    ensures !('A' <= Lower(s)[k] <= 'Z')
    ensures Lower(s)[k] == s[k] <==> !('A' <= s[k] <= 'Z')
  {
    if k > 0 {
      LowerAt(s[1..], k - 1);
    }
  }

  /** Lower-casing commutes with taking a slice. */
  lemma {:induction false} LowerSlice(s: string, i: int, j: int)
    requires 0 <= i <= j <= |s|
    ensures Lower(s)[i..j] == Lower(s[i..j])
  {
    forall k | 0 <= k < j - i
      ensures Lower(s)[i..j][k] == Lower(s[i..j])[k]
    {
      LowerAt(s, i + k);
      LowerAt(s[i..j], k);
    }
  }

  /** `s.startswith(pat)` */
  predicate StartsWith(s: string, pat: string) {
    pat == [] || (s != [] && s[0] == pat[0] && StartsWith(s[1..], pat[1..]))
  }

  lemma {:induction false} StartsWithIff(s: string, pat: string)
    ensures StartsWith(s, pat) <==> |pat| <= |s| && s[..|pat|] == pat
  {
    if pat != [] && s != [] {
      StartsWithIff(s[1..], pat[1..]);
      if |pat| <= |s| && s[..|pat|] == pat {
        assert s[1..][..|pat| - 1] == pat[1..];
      }
      if StartsWith(s, pat) {
        assert s[..|pat|] == [s[0]] + s[1..][..|pat| - 1];
      }
    }
  }

  /** `pat in s` for strings. */
  predicate Contains(s: string, pat: string)
    decreases |s|
  {
    StartsWith(s, pat) || (s != [] && Contains(s[1..], pat))
  }

  /** `pat` occurs in `s` starting at index `i`. */
  predicate OccursAt(s: string, pat: string, i: nat) {
    i + |pat| <= |s| && s[i..i + |pat|] == pat
  }

  lemma OccursAtShift(s: string, pat: string, i: nat)
    requires s != []
    ensures OccursAt(s[1..], pat, i) <==> OccursAt(s, pat, i + 1)
  {
    if i + 1 + |pat| <= |s| {
      assert s[1..][i..i + |pat|] == s[i + 1..i + 1 + |pat|];
    }
  }

  /** `Contains` holds exactly when `pat` occurs at some position of `s`. */
  lemma {:induction false} ContainsIff(s: string, pat: string)
    ensures Contains(s, pat) <==> exists i: nat :: OccursAt(s, pat, i)
    decreases |s|
  {
    StartsWithIff(s, pat);
    if StartsWith(s, pat) {
      assert OccursAt(s, pat, 0);
    } else if s == [] {
      assert forall i: nat :: !OccursAt(s, pat, i);
    } else {
      ContainsIff(s[1..], pat);
      if Contains(s, pat) {
        var i: nat :| OccursAt(s[1..], pat, i);
        OccursAtShift(s, pat, i);
      }
      if exists i: nat :: OccursAt(s, pat, i) {
        var i: nat :| OccursAt(s, pat, i);
        assert i != 0;
        OccursAtShift(s, pat, i - 1);
      }
    }
  }

  /** `s.endswith(suffix)`. */
  predicate EndsWith(s: string, suffix: string) {
    |suffix| <= |s| && s[|s| - |suffix|..] == suffix
  }

  /** `s.rfind(c)` for a single character: the last index holding `c`, or -1. */
  function RFind(s: string, c: char): (i: int)
    ensures -1 <= i < |s|
    ensures i >= 0 ==> s[i] == c
    ensures forall k | i < k < |s| :: s[k] != c
  {
    if s == [] then -1
    else if s[|s| - 1] == c then |s| - 1
    else RFind(s[..|s| - 1], c)
  }

  /** Length of the first line of `text` without its newline. */
  function LineBreak(text: string): (n: nat)
    ensures n <= |text|
    ensures forall k | 0 <= k < n :: text[k] != '\n'
    ensures n < |text| ==> text[n] == '\n'
  {
    if text == [] || text[0] == '\n' then 0 else 1 + LineBreak(text[1..])
  }

  function Concat(lines: seq<string>): string {
    if lines == [] then [] else lines[0] + Concat(lines[1..])
  }

  /** A line as `readlines` yields it: not empty, with a newline at most as its
      last character. */
  predicate IsLine(line: string) {
    line != [] && forall k | 0 <= k < |line| - 1 :: line[k] != '\n'
  }

  predicate EndsInNewline(line: string) {
    line != [] && line[|line| - 1] == '\n'
  }

  lemma ConcatCons(line: string, rest: seq<string>)
    ensures Concat([line] + rest) == line + Concat(rest)
  {
    assert ([line] + rest)[1..] == rest;
  }

  lemma ConsLine(line: string, rest: seq<string>)
    requires IsLine(line) && EndsInNewline(line)
    requires forall i | 0 <= i < |rest| :: IsLine(rest[i])
    requires forall i | 0 <= i < |rest| - 1 :: EndsInNewline(rest[i])
    ensures forall i | 0 <= i < |rest| + 1 :: IsLine(([line] + rest)[i])
    ensures forall i | 0 <= i < |rest| :: EndsInNewline(([line] + rest)[i])
  {
    var lines := [line] + rest;
    forall i | 0 < i < |lines|
      ensures lines[i] == rest[i - 1]
    {
    }
  }

  /** `f.readlines()` on a text file whose newlines are already `'\n'`: the
      text cut after every newline, each piece keeping its newline. */
  function ReadLines(text: string): (lines: seq<string>)
    ensures Concat(lines) == text
    ensures forall i | 0 <= i < |lines| :: IsLine(lines[i])
    ensures forall i | 0 <= i < |lines| - 1 :: EndsInNewline(lines[i])
    decreases |text|
  {
    if text == [] then []
    else
      var n := LineBreak(text);
      if n == |text| then [text]
      else
        var line, rest := text[..n + 1], ReadLines(text[n + 1..]);
        assert line + text[n + 1..] == text;
        assert IsLine(line) && EndsInNewline(line);
        ConcatCons(line, rest);
        ConsLine(line, rest);
        [line] + rest
  }
}
