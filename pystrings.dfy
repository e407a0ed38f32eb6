/**
 * The three operations of Python's `str` that the downloader relies on:
 * `sub in s`, `s.endswith(suffix)` and `s.splitlines()`.
 * Strings are Python's `str` restricted to Unicode scalar values (no lone
 * surrogates).
 */
module PyStrings {

  /** `s.startswith(prefix)` */
  predicate StartsWith(s: string, prefix: string) {
    |prefix| <= |s| && s[..|prefix|] == prefix
  }

  /** `s.endswith(suffix)`; every string ends with the empty string */
  predicate EndsWith(s: string, suffix: string) {
    |suffix| <= |s| && s[|s| - |suffix|..] == suffix
  }

  /** A string ends with `suffix` exactly when it is some string followed by `suffix`. */
  lemma EndsWithIff(s: string, suffix: string)
    ensures EndsWith(s, suffix) <==> exists p: string :: s == p + suffix
  {
    if EndsWith(s, suffix) {
      var p := s[..|s| - |suffix|];
      assert s == p + suffix;
    }
    if exists p: string :: s == p + suffix {
      var p: string :| s == p + suffix;
      assert s[|s| - |suffix|..] == suffix;
    }
  }

  /** `sub` occurs in `s` starting at position `i` */
  predicate OccursAt(s: string, sub: string, i: nat) {
    i + |sub| <= |s| && s[i..i + |sub|] == sub
  }

  /** `sub in s`: a left-to-right substring search */
  predicate Contains(s: string, sub: string)
    decreases |s|
  {
    StartsWith(s, sub) || (s != [] && Contains(s[1..], sub))
  }

  /** The search finds `sub` exactly when `sub` occurs at some position. */
  lemma {:induction false} ContainsIff(s: string, sub: string)
    ensures Contains(s, sub) <==> exists i: nat :: OccursAt(s, sub, i)
    decreases |s|
  {
    if Contains(s, sub) {
      if StartsWith(s, sub) {
        assert OccursAt(s, sub, 0);
      } else {
        ContainsIff(s[1..], sub);
        var i: nat :| OccursAt(s[1..], sub, i);
        assert s[1..][i..i + |sub|] == s[i + 1..i + 1 + |sub|];
        assert OccursAt(s, sub, i + 1);
      }
    }
    if exists i: nat :: OccursAt(s, sub, i) {
      var i: nat :| OccursAt(s, sub, i);
      if i == 0 {
        assert StartsWith(s, sub);
      } else {
        assert s[1..][i - 1..i - 1 + |sub|] == s[i..i + |sub|];
        assert OccursAt(s[1..], sub, i - 1);
        ContainsIff(s[1..], sub);
      }
    }
  }

  /** Whatever surrounds it, a string contains itself. */
  lemma {:induction false} ContainsMiddle(a: string, sub: string, b: string)
    ensures Contains(a + sub + b, sub)
  {
    if a == [] {
      assert (a + sub + b)[..|sub|] == sub;
    } else {
      ContainsMiddle(a[1..], sub, b);
      assert (a + sub + b)[1..] == a[1..] + sub + b;
    }
  }

  /**
   * The characters `str.splitlines` treats as line boundaries: line feed,
   * carriage return, line tabulation, form feed, the file, group and record
   * separators, next line, line separator and paragraph separator.
   */
  predicate IsLineBreak(c: char) {
    c == '\n' || c == '\r' || c == '\U{0B}' || c == '\U{0C}'
    || c == '\U{1C}' || c == '\U{1D}' || c == '\U{1E}'
    || c == '\U{85}' || c == '\U{2028}' || c == '\U{2029}'
  }

  predicate NoLineBreak(s: string) {
    forall j :: 0 <= j < |s| ==> !IsLineBreak(s[j])
  }

  /** The length of the first line of `s`: the index of its first line boundary, or `|s|` */
  function LineEnd(s: string): (k: nat)
    ensures k <= |s|
    ensures NoLineBreak(s[..k])
    ensures k < |s| ==> IsLineBreak(s[k])
  {
    if s == [] || IsLineBreak(s[0]) then 0
    else
      var k := 1 + LineEnd(s[1..]);
      assert s[..k] == [s[0]] + s[1..][..k - 1];
      k
  }

  /** How many characters the boundary at `k` takes: a CR LF pair counts as one boundary */
  function BreakWidth(s: string, k: nat): (w: nat)
    requires k < |s|
    ensures 1 <= w && k + w <= |s|
  {
    if s[k] == '\r' && k + 1 < |s| && s[k + 1] == '\n' then 2 else 1
  }

  /**
   * `s.splitlines()`: the lines of `s` without their boundaries; a final
   * boundary does not start an empty last line, and the empty string has
   * no lines.
   */
  function SplitLines(s: string): (lines: seq<string>)
    ensures forall i :: 0 <= i < |lines| ==> NoLineBreak(lines[i])
    ensures |lines| <= |s|
    ensures s == [] <==> lines == []
    decreases |s|
  {
    if s == [] then []
    else
      var k := LineEnd(s);
      var next := if k == |s| then |s| else k + BreakWidth(s, k);
      [s[..k]] + SplitLines(s[next..])
  }

  /** The text made of `lines`, each followed by a line feed */
  function Terminated(lines: seq<string>): string {
    if lines == [] then [] else lines[0] + "\n" + Terminated(lines[1..])
  }

  lemma TerminatedCons(line: string, lines: seq<string>)
    ensures Terminated([line] + lines) == line + "\n" + Terminated(lines)
  {
    assert ([line] + lines)[1..] == lines;
  }

  lemma {:induction false} LineEndOf(line: string, rest: string)
    requires NoLineBreak(line)
    requires rest != [] && IsLineBreak(rest[0])
    ensures LineEnd(line + rest) == |line|
  {
    if line != [] {
      assert (line + rest)[1..] == line[1..] + rest;
      LineEndOf(line[1..], rest);
    }
  }

  /** Splitting undoes terminating: `"".join(l + "\n" for l in ls).splitlines() == ls`. */
  lemma {:induction false} SplitTerminated(lines: seq<string>)
    requires forall i :: 0 <= i < |lines| ==> NoLineBreak(lines[i])
    ensures SplitLines(Terminated(lines)) == lines
  {
    if lines != [] {
      var s := Terminated(lines);
      var rest := Terminated(lines[1..]);
      assert s == lines[0] + ("\n" + rest);
      LineEndOf(lines[0], "\n" + rest);
      var k := |lines[0]|;
      assert s[..k] == lines[0];
      assert s[k + 1..] == rest;
      SplitTerminated(lines[1..]);
    }
  }

  /** A non-empty text without boundaries is one line. */
  lemma SplitSingleLine(line: string)
    requires NoLineBreak(line) && line != []
    ensures SplitLines(line) == [line]
  {
    LineEndWhole(line);
    assert line[..|line|] == line;
    assert line[|line|..] == [];
  }

  lemma {:induction false} LineEndWhole(line: string)
    requires NoLineBreak(line)
    ensures LineEnd(line) == |line|
    decreases |line|
  {
    if line != [] {
      LineEndWhole(line[1..]);
    }
  }

  /** Splitting terminated lines followed by any text gives those lines, then the lines of that text. */
  lemma {:induction false} SplitTerminatedThen(lines: seq<string>, tail: string)
    requires forall i :: 0 <= i < |lines| ==> NoLineBreak(lines[i])
    ensures SplitLines(Terminated(lines) + tail) == lines + SplitLines(tail)
  {
    if lines == [] {
      assert Terminated(lines) + tail == tail;
    } else {
      var rest := lines[1..];
      var c := SplitLines(tail);
      var b := SplitLines(Terminated(rest) + tail);
      assert SplitLines(Terminated(lines) + tail) == [lines[0]] + b by { SplitTerminatedStep(lines, tail); }
      assert b == rest + c by {
        assert forall i :: 0 <= i < |rest| ==> NoLineBreak(rest[i]);
        SplitTerminatedThen(rest, tail);
      }
      ConsThenAppend(lines, c);
    }
  }

  lemma ConsThenAppend<T>(xs: seq<T>, ys: seq<T>)
    requires xs != []
    ensures xs + ys == [xs[0]] + (xs[1..] + ys)
  {
    assert xs == [xs[0]] + xs[1..];
  }

  lemma SplitTerminatedStep(lines: seq<string>, tail: string)
    requires lines != [] && NoLineBreak(lines[0])
    ensures SplitLines(Terminated(lines) + tail) == [lines[0]] + SplitLines(Terminated(lines[1..]) + tail)
  {
    TerminatedThen(lines, tail);
    SplitAfterLineFeed(lines[0], Terminated(lines[1..]) + tail);
  }

  /** A last line without a line ending is still a line: `"a\nb".splitlines() == ["a", "b"]`. */
  lemma SplitUnterminatedLast(lines: seq<string>, last: string)
    requires forall i :: 0 <= i < |lines| ==> NoLineBreak(lines[i])
    requires NoLineBreak(last) && last != []
    ensures SplitLines(Terminated(lines) + last) == lines + [last]
  {
    SplitTerminatedThen(lines, last);
    SplitSingleLine(last);
  }

  lemma TerminatedThen(lines: seq<string>, last: string)
    requires lines != []
    ensures Terminated(lines) + last == lines[0] + ("\n" + (Terminated(lines[1..]) + last))
  {
  }

  /** A line feed ends the line before it. */
  lemma SplitAfterLineFeed(line: string, rest: string)
    requires NoLineBreak(line)
    ensures SplitLines(line + ("\n" + rest)) == [line] + SplitLines(rest)
  {
    var s := line + ("\n" + rest);
    LineEndOf(line, "\n" + rest);
    assert s[|line|] == '\n';
    assert BreakWidth(s, |line|) == 1;
    assert s[..|line|] == line;
    assert s[|line| + 1..] == rest;
  }

  /** A CR not followed by LF is a boundary of its own: `"a\rb".splitlines() == ["a", "b"]`. */
  lemma LoneCrIsBoundary(line: string, rest: string)
    requires NoLineBreak(line)
    requires rest == [] || rest[0] != '\n'
    ensures SplitLines(line + "\r" + rest) == [line] + SplitLines(rest)
  {
    var s := line + "\r" + rest;
    assert s == line + ("\r" + rest);
    LineEndOf(line, "\r" + rest);
    assert s[..|line|] == line;
    assert s[|line| + 1..] == rest;
  }

  /** A CR LF pair ends one line, without an empty line between CR and LF. */
  lemma CrLfIsOneBoundary(line: string, rest: string)
    requires NoLineBreak(line)
    ensures SplitLines(line + "\r\n" + rest) == [line] + SplitLines(rest)
  {
    var s := line + "\r\n" + rest;
    assert s == line + ("\r\n" + rest);
    LineEndOf(line, "\r\n" + rest);
    assert s[..|line|] == line;
    assert s[|line| + 2..] == rest;
  }
}
