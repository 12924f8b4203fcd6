/** Python's string semantics that the subtitle script relies on: what counts as
    whitespace (`str.isspace`, the regex class `\s`, `str.strip`), where
    `str.splitlines` breaks a text, `'\n'.join`, and the "is a subsequence of"
    relation used to say that a step only deletes characters. */
module Text {

  datatype Option<T> = None | Some(value: T)

  /** `str.isspace()` for one character; `\s`, `str.strip()` and pandas'
      `str.strip()` all use this set. */
  predicate IsSpace(c: char) {
    || ('\t' <= c <= '\r')
    || ('\U{1c}' <= c <= ' ')
    || c == '\U{85}' || c == '\U{a0}' || c == '\U{1680}'
    || ('\U{2000}' <= c <= '\U{200a}')
    || c == '\U{2028}' || c == '\U{2029}' || c == '\U{202f}' || c == '\U{205f}'
    || c == '\U{3000}'
  }

  /** The characters at which `str.splitlines()` ends a line. */
  predicate IsLineBoundary(c: char) {
    || c == '\n' || c == '\r' || c == '\U{0b}' || c == '\U{0c}'
    || c == '\U{1c}' || c == '\U{1d}' || c == '\U{1e}' || c == '\U{85}'
    || c == '\U{2028}' || c == '\U{2029}'
  }

  predicate AllSpace(s: string) {
    forall k | 0 <= k < |s| :: IsSpace(s[k])
  }

  /** `str.lstrip()`: the longest suffix that does not start with whitespace. */
  function TrimStart(s: string): (r: string)
    ensures |r| <= |s| && r == s[|s| - |r|..]
    ensures AllSpace(s[..|s| - |r|])
    ensures r != [] ==> !IsSpace(r[0])
    ensures r == [] <==> AllSpace(s)
  {
    if s != [] && IsSpace(s[0]) then
      var r := TrimStart(s[1..]);
      TrimStartStep(s, r);
      r
    else
      TrimStartDone(s);
      s
  }

  /** Nothing to trim when s does not start with whitespace. */
  lemma TrimStartDone(s: string)
    requires s == [] || !IsSpace(s[0])
    ensures s == s[|s| - |s|..] && AllSpace(s[..|s| - |s|])
    ensures s == [] <==> AllSpace(s)
  {
    assert s[..0] == [] && s[0..] == s;
  }

  /** One more leading whitespace character is trimmed along with the rest. */
  lemma TrimStartStep(s: string, r: string)
    requires s != [] && IsSpace(s[0])
    requires var t := s[1..];
      && |r| <= |t| && r == t[|t| - |r|..]
      && AllSpace(t[..|t| - |r|])
      && (r != [] ==> !IsSpace(r[0]))
      && (r == [] <==> AllSpace(t))
    ensures |r| <= |s| && r == s[|s| - |r|..]
    ensures AllSpace(s[..|s| - |r|])
    ensures r == [] <==> AllSpace(s)
  {
    var t := s[1..];
    assert t[|t| - |r|..] == s[|s| - |r|..];
    var p, q := s[..|s| - |r|], t[..|t| - |r|];
    forall k | 1 <= k < |p| ensures IsSpace(p[k]) {
      assert p[k] == q[k - 1];
    }
    forall k | 1 <= k < |s| ensures s[k] == t[k - 1] {
    }
  }

  /** `str.rstrip()`: the longest prefix that does not end with whitespace. */
  function TrimEnd(s: string): (r: string)
    ensures |r| <= |s| && r == s[..|r|]
    ensures AllSpace(s[|r|..])
    ensures r != [] ==> !IsSpace(r[|r| - 1])
    ensures r == [] <==> AllSpace(s)
  {
    if s != [] && IsSpace(s[|s| - 1]) then
      var r := TrimEnd(s[..|s| - 1]);
      TrimEndStep(s, r);
      r
    else
      TrimEndDone(s);
      s
  }

  /** Nothing to trim when s does not end with whitespace. */
  lemma TrimEndDone(s: string)
    requires s == [] || !IsSpace(s[|s| - 1])
    ensures s == s[..|s|] && AllSpace(s[|s|..])
    ensures s == [] <==> AllSpace(s)
  {
    assert s[..|s|] == s && s[|s|..] == [];
  }

  /** One more trailing whitespace character is trimmed along with the rest. */
  lemma TrimEndStep(s: string, r: string)
    requires s != [] && IsSpace(s[|s| - 1])
    requires var t := s[..|s| - 1];
      && |r| <= |t| && r == t[..|r|]
      && AllSpace(t[|r|..])
      && (r != [] ==> !IsSpace(r[|r| - 1]))
      && (r == [] <==> AllSpace(t))
    ensures |r| <= |s| && r == s[..|r|]
    ensures AllSpace(s[|r|..])
    ensures r == [] <==> AllSpace(s)
  {
    var t := s[..|s| - 1];
    assert t[..|r|] == s[..|r|];
    var p, q := s[|r|..], t[|r|..];
    forall k | 0 <= k < |p| - 1 ensures IsSpace(p[k]) {
      assert p[k] == q[k];
    }
    forall k | 0 <= k < |t| ensures s[k] == t[k] {
    }
  }

  /** `str.strip()`. */
  function Strip(s: string): (r: string)
    ensures |r| <= |s|
    ensures r == [] <==> AllSpace(s)
    ensures r != [] ==> !IsSpace(r[0]) && !IsSpace(r[|r| - 1])
  {
    TrimEnd(TrimStart(s))
  }

  /** All characters of s that are not whitespace, in order. */
  function RemoveSpace(s: string): (r: string)
    ensures forall k | 0 <= k < |r| :: !IsSpace(r[k])
  {
    if s == [] then []
    else if IsSpace(s[0]) then RemoveSpace(s[1..])
    else [s[0]] + RemoveSpace(s[1..])
  }

  /** Index of the first line boundary in s, or |s| when there is none. */
  function LineEnd(s: string): (i: nat)
    ensures i <= |s|
    ensures forall k | 0 <= k < i :: !IsLineBoundary(s[k])
    ensures i < |s| ==> IsLineBoundary(s[i])
  {
    if s == [] || IsLineBoundary(s[0]) then 0 else 1 + LineEnd(s[1..])
  }

  /** `str.splitlines()`: "\r\n" is one boundary, and a boundary at the very
      end does not start an empty last line. */
  function SplitLines(s: string): (lines: seq<string>)
    decreases |s|
  {
    if s == [] then []
    else
      var i := LineEnd(s);
      if i == |s| then [s]
      else
        [s[..i]] + SplitLines(s[i + BoundaryWidth(s, i)..])
  }

  /** "\r\n" is one boundary of two characters; every other boundary is one. */
  function BoundaryWidth(s: string, i: nat): nat
    requires i < |s|
  {
    if s[i] == '\r' && i + 1 < |s| && s[i + 1] == '\n' then 2 else 1
  }

  /** `'\n'.join(lines)`. */
  function JoinLines(lines: seq<string>): string {
    if lines == [] then []
    else if |lines| == 1 then lines[0]
    else lines[0] + "\n" + JoinLines(lines[1..])
  }

  predicate NoBoundary(l: string) {
    forall k | 0 <= k < |l| :: !IsLineBoundary(l[k])
  }

  lemma NoBoundaryConcat(a: string, b: string)
    requires NoBoundary(a) && NoBoundary(b)
    ensures NoBoundary(a + b)
  {
    forall k | 0 <= k < |a + b| ensures !IsLineBoundary((a + b)[k]) {
      if k < |a| {
        assert (a + b)[k] == a[k];
      } else {
        assert (a + b)[k] == b[k - |a|];
      }
    }
  }

  lemma LineEndAt(a: string, b: string)
    requires NoBoundary(a)
    requires b != [] ==> IsLineBoundary(b[0])
    ensures LineEnd(a + b) == |a|
  {
    if a != [] {
      assert (a + b)[1..] == a[1..] + b;
      LineEndAt(a[1..], b);
    }
  }

  /** A line without boundaries, then "\n", then the rest splits into that
      line and the lines of the rest. */
  lemma SplitFirstLine(first: string, rest: string)
    requires NoBoundary(first)
    ensures SplitLines(first + ("\n" + rest)) == [first] + SplitLines(rest)
  {
    var s := first + ("\n" + rest);
    LineEndAt(first, "\n" + rest);
    assert s[..|first|] == first;
    assert s[|first| + 1..] == rest;
  }

  /** No line that splitlines returns holds a boundary character. */
  lemma {:induction false} SplitLinesNoBoundary(s: string)
    ensures forall j | 0 <= j < |SplitLines(s)| :: NoBoundary(SplitLines(s)[j])
    decreases |s|
  {
    if s != [] {
      var i := LineEnd(s);
      assert NoBoundary(s[..i]);
      if i < |s| {
        var w := BoundaryWidth(s, i);
        SplitLinesNoBoundary(s[i + w..]);
        assert SplitLines(s) == [s[..i]] + SplitLines(s[i + w..]);
        ConsNoBoundary(s[..i], SplitLines(s[i + w..]));
      }
    }
  }

  lemma ConsNoBoundary(line: string, rest: seq<string>)
    requires NoBoundary(line)
    requires forall j | 0 <= j < |rest| :: NoBoundary(rest[j])
    ensures forall j | 0 <= j < |[line] + rest| :: NoBoundary(([line] + rest)[j])
  {
    var lines := [line] + rest;
    forall j | 0 <= j < |lines| ensures NoBoundary(lines[j]) {
      if j > 0 {
        assert lines[j] == rest[j - 1];
      }
    }
  }

  /** Splitting undoes joining, as long as no line holds a boundary itself and
      the last line is not empty (splitlines drops a trailing empty line). */
  lemma {:induction false} SplitJoinedLines(lines: seq<string>)
    requires forall i | 0 <= i < |lines| :: NoBoundary(lines[i])
    requires lines != [] ==> lines[|lines| - 1] != []
    ensures SplitLines(JoinLines(lines)) == lines
  {
    if lines == [] {
    } else if |lines| == 1 {
      LineEndAt(lines[0], []);
      assert lines[0] + [] == lines[0];
    } else {
      var tail := lines[1..];
      forall i | 0 <= i < |tail| ensures NoBoundary(tail[i]) {
        assert tail[i] == lines[i + 1];
      }
      assert tail[|tail| - 1] == lines[|lines| - 1];
      SplitJoinedLines(tail);
      SplitJoinedStep(lines);
    }
  }

  lemma SplitJoinedStep(lines: seq<string>)
    requires |lines| >= 2 && NoBoundary(lines[0])
    requires SplitLines(JoinLines(lines[1..])) == lines[1..]
    ensures SplitLines(JoinLines(lines)) == lines
  {
    var first, tail := lines[0], lines[1..];
    calc {
      SplitLines(JoinLines(lines));
      { assert JoinLines(lines) == first + ("\n" + JoinLines(tail)); }
      SplitLines(first + ("\n" + JoinLines(tail)));
      { SplitFirstLine(first, JoinLines(tail)); }
      [first] + tail;
      { assert lines == [first] + tail; }
      lines;
    }
  }

  /** Joining undoes splitting for a text whose only boundary character is
      '\n', up to the final newline that splitlines drops. */
  lemma {:induction false} JoinSplitLines(s: string)
    requires forall k | 0 <= k < |s| :: IsLineBoundary(s[k]) ==> s[k] == '\n'
    ensures JoinLines(SplitLines(s)) + (if s != [] && s[|s| - 1] == '\n' then "\n" else "") == s
    decreases |s|
  {
    if s != [] {
      var i := LineEnd(s);
      if i < |s| {
        var rest := s[i + 1..];
        forall k | 0 <= k < |rest| && IsLineBoundary(rest[k]) ensures rest[k] == '\n' {
          assert rest[k] == s[i + 1 + k];
        }
        JoinSplitLines(rest);
        JoinSplitStep(s, i);
      } else {
        assert SplitLines(s) == [s];
        assert !IsLineBoundary(s[|s| - 1]);
      }
    }
  }

  /** The first line, its '\n' and the rest, joined back. */
  lemma JoinSplitStep(s: string, i: nat)
    requires i == LineEnd(s) && i < |s| && s[i] == '\n'
    requires var rest := s[i + 1..];
      JoinLines(SplitLines(rest)) + (if rest != [] && rest[|rest| - 1] == '\n' then "\n" else "") == rest
    ensures JoinLines(SplitLines(s)) + (if s[|s| - 1] == '\n' then "\n" else "") == s
  {
    var rest := s[i + 1..];
    var line := s[..i];
    Pivot(s, i);
    assert [s[i]] == "\n";
    var lines := SplitLines(rest);
    SplitAtNewline(s, i);
    if rest != [] {
      var tail := if rest[|rest| - 1] == '\n' then "\n" else "";
      JoinStep(line, rest, lines, tail);
      assert s[|s| - 1] == rest[|rest| - 1];
    } else {
      assert JoinLines([line]) == line;
      assert s == line + "\n";
    }
  }

  /** A '\n' ends the first line, and what follows it is split on its own. */
  lemma SplitAtNewline(s: string, i: nat)
    requires i == LineEnd(s) && i < |s| && s[i] == '\n'
    ensures SplitLines(s) == [s[..i]] + SplitLines(s[i + 1..])
  {
    assert BoundaryWidth(s, i) == 1;
  }

  lemma JoinStep(line: string, rest: string, lines: seq<string>, tail: string)
    requires lines != [] && JoinLines(lines) + tail == rest
    ensures JoinLines([line] + lines) + tail == line + ("\n" + rest)
  {
    JoinCons(line, lines);
    assert line + "\n" + JoinLines(lines) + tail == line + ("\n" + (JoinLines(lines) + tail));
  }

  lemma JoinCons(line: string, lines: seq<string>)
    requires lines != []
    ensures JoinLines([line] + lines) == line + "\n" + JoinLines(lines)
  {
    assert ([line] + lines)[1..] == lines;
  }

  /** A sequence is its prefix followed by the rest. */
  lemma SplitAt<T>(s: seq<T>, k: nat)
    requires k <= |s|
    ensures s == s[..k] + s[k..]
  {
  }

  /** A sequence is what lies before position i, the element at i, and what lies after. */
  lemma Pivot<T>(b: seq<T>, i: nat)
    requires i < |b|
    ensures b == b[..i] + ([b[i]] + b[i + 1..])
  {
  }

  /** a can be obtained from b by deleting elements. */
  predicate IsSubseq<T(==)>(a: seq<T>, b: seq<T>) {
    a == [] || (b != [] && ((a[0] == b[0] && IsSubseq(a[1..], b[1..])) || IsSubseq(a, b[1..])))
  }

  lemma {:induction false} SubseqTransitive<T>(a: seq<T>, b: seq<T>, c: seq<T>)
    requires IsSubseq(a, b) && IsSubseq(b, c)
    ensures IsSubseq(a, c)
    decreases |c|
  {
    if a != [] {
      if b[0] == c[0] && IsSubseq(b[1..], c[1..]) {
        if a[0] == b[0] && IsSubseq(a[1..], b[1..]) {
          SubseqTransitive(a[1..], b[1..], c[1..]);
        } else {
          SubseqTransitive(a, b[1..], c[1..]);
        }
      } else {
        SubseqTransitive(a, b, c[1..]);
      }
    }
  }

  lemma {:induction false} SubseqReflexive<T>(a: seq<T>)
    ensures IsSubseq(a, a)
  {
    if a != [] {
      SubseqReflexive(a[1..]);
    }
  }
}
