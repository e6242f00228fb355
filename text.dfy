/**
  The pieces of Python's `str` behaviour the application relies on:
  `str.isspace`, `str.strip`, `str.replace` of one character and
  `str.splitlines`.
*/
module Text {

  /** Python's `str.isspace`: the fixed set of characters CPython treats as whitespace. */
  predicate IsSpace(c: char) {
    ('\t' <= c <= '\r') || ('\U{1C}' <= c <= '\U{1F}') || c == ' ' || c == '\U{85}' || c == '\U{A0}'
    || c == '\U{1680}' || ('\U{2000}' <= c <= '\U{200A}') || c == '\U{2028}' || c == '\U{2029}'
    || c == '\U{202F}' || c == '\U{205F}' || c == '\U{3000}'
  }

  /** The characters at which `str.splitlines` ends a line. */
  predicate IsLineBreak(c: char) {
    c == '\n' || c == '\r' || c == '\U{0B}' || c == '\U{0C}' || ('\U{1C}' <= c <= '\U{1E}')
    || c == '\U{85}' || c == '\U{2028}' || c == '\U{2029}'
  }

  predicate AllSpace(s: string) {
    forall i :: 0 <= i < |s| ==> IsSpace(s[i])
  }

  /**
    Drops the leading and trailing characters that satisfy `sp`: what is
    left is empty or starts and ends with a character outside `sp`.
  */
  function StripBy(s: string, sp: char -> bool): (r: string)
    ensures |r| <= |s|
    ensures r == [] || (!sp(r[0]) && !sp(r[|r| - 1]))
    decreases |s|
  {
    if s != [] && sp(s[0]) then StripBy(s[1..], sp)
    else if s != [] && sp(s[|s| - 1]) then StripBy(s[..|s| - 1], sp)
    else s
  }

  /** Python's `str.strip()` with no argument: drops leading and trailing `isspace` characters. */
  function Strip(s: string): string {
    StripBy(s, IsSpace)
  }

  /**
    The stripped text is what lies between a run of leading and a run of
    trailing characters of `sp`, and it neither starts nor ends with one.
  */
  lemma {:induction false} StripShape(s: string, sp: char -> bool) returns (i: nat, j: nat)
    ensures i <= j <= |s| && StripBy(s, sp) == s[i..j]
    ensures forall k :: 0 <= k < i ==> sp(s[k])
    ensures forall k :: j <= k < |s| ==> sp(s[k])
    ensures StripBy(s, sp) == [] || (!sp(s[i]) && !sp(s[j - 1]))
    decreases |s|
  {
    if s != [] && sp(s[0]) {
      var i', j' := StripShape(s[1..], sp);
      i, j := i' + 1, j' + 1;
      assert s[1..][i'..j'] == s[i..j];
      forall k | 0 <= k < i ensures sp(s[k]) {
        if k > 0 { assert s[k] == s[1..][k - 1]; }
      }
      forall k | j <= k < |s| ensures sp(s[k]) {
        assert s[k] == s[1..][k - 1];
      }
    } else if s != [] && sp(s[|s| - 1]) {
      i, j := StripShape(s[..|s| - 1], sp);
      assert s[..|s| - 1][i..j] == s[i..j];
      forall k | j <= k < |s| ensures sp(s[k]) {
        if k < |s| - 1 { assert s[k] == s[..|s| - 1][k]; }
      }
    } else {
      i, j := 0, |s|;
    }
  }

  /** Stripping leaves nothing exactly when every character is in `sp`. */
  lemma StripEmptyIffAll(s: string, sp: char -> bool)
    ensures StripBy(s, sp) == [] <==> forall k :: 0 <= k < |s| ==> sp(s[k])
  {
    var i, j := StripShape(s, sp);
  }

  /** `s.strip()` is falsy exactly when every character of `s` is whitespace. */
  lemma StripEmptyIffAllSpace(s: string)
    ensures Strip(s) == [] <==> AllSpace(s)
  {
    StripEmptyIffAll(s, IsSpace);
  }

  /** Every character of `s` outside `sp` survives the stripping. */
  lemma StripKeeps(s: string, p: nat, sp: char -> bool)
    requires p < |s| && !sp(s[p])
    ensures s[p] in StripBy(s, sp)
  {
    var i, j := StripShape(s, sp);
    assert StripBy(s, sp)[p - i] == s[p];
  }

  /** Python's `s.replace(c, rep)` for a one-character pattern `c`. */
  function ReplaceChar(s: string, c: char, rep: string): string {
    if s == [] then []
    else (if s[0] == c then rep else [s[0]]) + ReplaceChar(s[1..], c, rep)
  }

  /** Number of occurrences of `c` in `s`. */
  function Count(s: string, c: char): nat {
    if s == [] then 0 else (if s[0] == c then 1 else 0) + Count(s[1..], c)
  }

  /** Replacement works character by character: it distributes over concatenation. */
  lemma {:induction false} ReplaceCharAppend(a: string, b: string, c: char, rep: string)
    ensures ReplaceChar(a + b, c, rep) == ReplaceChar(a, c, rep) + ReplaceChar(b, c, rep)
  {
    if a == [] {
      assert a + b == b;
    } else {
      assert (a + b)[1..] == a[1..] + b;
      ReplaceCharAppend(a[1..], b, c, rep);
    }
  }

  /** A string without `c` is left as it is. */
  lemma {:induction false} ReplaceCharAbsent(s: string, c: char, rep: string)
    requires c !in s
    ensures ReplaceChar(s, c, rep) == s
  {
    if s != [] {
      assert c !in s[1..] by { assert forall x :: x in s[1..] ==> x in s; }
      ReplaceCharAbsent(s[1..], c, rep);
    }
  }

  /** When the replacement does not contain `c`, no `c` is left afterwards. */
  lemma {:induction false} ReplaceCharRemoves(s: string, c: char, rep: string)
    requires c !in rep
    ensures c !in ReplaceChar(s, c, rep)
  {
    if s != [] {
      ReplaceCharRemoves(s[1..], c, rep);
    }
  }

  /** Each occurrence of `c` grows the string by `|rep| - 1`. */
  lemma {:induction false} ReplaceCharLength(s: string, c: char, rep: string)
    ensures |ReplaceChar(s, c, rep)| == |s| + Count(s, c) * (|rep| - 1)
  {
    if s != [] {
      ReplaceCharLength(s[1..], c, rep);
    }
  }

  /** Any other character is untouched: each position of the input maps to a position in the output. */
  lemma {:induction false} ReplaceCharSameLength(s: string, c: char, rep: string)
    requires |rep| == 1
    ensures |ReplaceChar(s, c, rep)| == |s|
    ensures forall i :: 0 <= i < |s| ==> ReplaceChar(s, c, rep)[i] == if s[i] == c then rep[0] else s[i]
  {
    if s != [] {
      ReplaceCharSameLength(s[1..], c, rep);
    }
  }

  /** The index of the first line break in `t`, or `|t|`. */
  function FirstBreak(t: string): (k: nat)
    ensures k <= |t|
    ensures k < |t| ==> IsLineBreak(t[k])
    ensures forall i :: 0 <= i < k ==> !IsLineBreak(t[i])
  {
    if t == [] || IsLineBreak(t[0]) then 0 else 1 + FirstBreak(t[1..])
  }

  /** The length of the line terminator at `k`: `\r\n` counts as one terminator. */
  function BreakLength(t: string, k: nat): nat
    requires k < |t|
  {
    if t[k] == '\r' && k + 1 < |t| && t[k + 1] == '\n' then 2 else 1
  }

  /**
    Python's `str.splitlines()`: the lines of `t`, without their line
    terminators. Empty text has no lines, and there is at most one line per
    character.
  */
  function SplitLines(t: string): (r: seq<string>)
    ensures (r == []) == (t == [])
    ensures |r| <= |t|
    decreases |t|
  {
    if t == [] then []
    else
      var k := FirstBreak(t);
      if k == |t| then [t] else [t[..k]] + SplitLines(t[k + BreakLength(t, k)..])
  }

  predicate NoLineBreak(s: string) {
    forall i :: 0 <= i < |s| ==> !IsLineBreak(s[i])
  }

  /** No line produced by `splitlines` contains a line break. */
  lemma {:induction false} SplitLinesNoBreaks(t: string)
    ensures forall j :: 0 <= j < |SplitLines(t)| ==> NoLineBreak(SplitLines(t)[j])
    decreases |t|
  {
    if t != [] {
      var k := FirstBreak(t);
      if k < |t| {
        var rest := SplitLines(t[k + BreakLength(t, k)..]);
        SplitLinesNoBreaks(t[k + BreakLength(t, k)..]);
        assert SplitLines(t) == [t[..k]] + rest;
        assert NoLineBreak(t[..k]);
      } else {
        assert NoLineBreak(t);
      }
    }
  }

  /** Writes each line followed by `\n`: the inverse of `splitlines` on `\n`-separated text. */
  function JoinLines(lines: seq<string>): string {
    if lines == [] then [] else lines[0] + "\n" + JoinLines(lines[1..])
  }

  /** The `\n` that `JoinLines` adds when `t` does not already end with one. */
  function MissingNewline(t: string): string {
    if t == [] || t[|t| - 1] == '\n' then [] else "\n"
  }

  /** Every line break in `t` is a plain `\n`. */
  predicate OnlyNewlines(t: string) {
    forall i :: 0 <= i < |t| ==> IsLineBreak(t[i]) ==> t[i] == '\n'
  }

  lemma JoinLinesCons(line: string, rest: seq<string>)
    ensures JoinLines([line] + rest) == line + "\n" + JoinLines(rest)
  {
    assert ([line] + rest)[1..] == rest;
  }

  /**
    On text whose line breaks are all `\n`, writing the lines back with a
    `\n` after each gives the text again, plus a final `\n` if it lacked one.
  */
  lemma {:induction false} SplitLinesRoundTrip(t: string)
    requires OnlyNewlines(t)
    ensures JoinLines(SplitLines(t)) == t + MissingNewline(t)
    decreases |t|
  {
    if t != [] {
      var k := FirstBreak(t);
      if k == |t| {
        JoinLinesCons(t, []);
        assert !IsLineBreak(t[|t| - 1]);
      } else {
        assert t[k] == '\n';
        SplitLinesAtNewline(t, k);
        OnlyNewlinesSuffix(t, k + 1);
        SplitLinesRoundTrip(t[k + 1..]);
        RoundTripStep(t, k, SplitLines(t[k + 1..]));
      }
    }
  }

  lemma SplitLinesAtNewline(t: string, k: nat)
    requires k == FirstBreak(t) < |t| && t[k] == '\n'
    ensures SplitLines(t) == [t[..k]] + SplitLines(t[k + 1..])
  {
    assert BreakLength(t, k) == 1;
  }

  lemma RoundTripStep(t: string, k: nat, lines: seq<string>)
    requires k < |t| && t[k] == '\n'
    requires JoinLines(lines) == t[k + 1..] + MissingNewline(t[k + 1..])
    ensures JoinLines([t[..k]] + lines) == t + MissingNewline(t)
  {
    var tail := t[k + 1..];
    JoinAfterBreak(t[..k], tail, lines);
    assert t[k..] == [t[k]] + tail;
    assert t[..k] + t[k..] == t;
  }

  lemma OnlyNewlinesSuffix(t: string, n: nat)
    requires OnlyNewlines(t) && n <= |t|
    ensures OnlyNewlines(t[n..])
  {
    forall i | 0 <= i < |t[n..]| && IsLineBreak(t[n..][i]) ensures t[n..][i] == '\n' {
      assert t[n..][i] == t[n + i];
    }
  }

  /** Ending the line `line` at a `\n` and joining the lines of what follows. */
  lemma JoinAfterBreak(line: string, tail: string, rest: seq<string>)
    requires JoinLines(rest) == tail + MissingNewline(tail)
    ensures JoinLines([line] + rest) == line + ("\n" + tail) + MissingNewline(line + ("\n" + tail))
  {
    JoinLinesCons(line, rest);
    var x := line + ("\n" + tail);
    assert x[|x| - 1] == if tail == [] then '\n' else tail[|tail| - 1];
    assert MissingNewline(x) == MissingNewline(tail);
  }

  /** ASCII lower-casing, as CPython uses for comparing `inf` and `nan` case-insensitively. */
  function AsciiLowerChar(c: char): char {
    if 'A' <= c <= 'Z' then (c as int + 32) as char else c
  }

  function AsciiLower(s: string): (r: string)
    ensures |r| == |s| && forall i :: 0 <= i < |s| ==> r[i] == AsciiLowerChar(s[i])
  {
    seq(|s|, i requires 0 <= i < |s| => AsciiLowerChar(s[i]))
  }
}
