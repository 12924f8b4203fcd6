/** `clean_text`: the format-specific step (timing blocks out of an SRT file,
    dialogue payloads out of an ASS file) followed by the three shared steps
    (tag removal, newline/tab collapse with strip, deletion of the excluded
    characters). Each regular expression of the script is its own function. */
module Cleaner {
  import opened Text

  // ---------------------------------------------------------------------
  // SRT: removal of the timing blocks (subtitle_parser.py:17)
  // ---------------------------------------------------------------------

  /** A decimal digit, restricted to ASCII '0' to '9'. */
  predicate IsDigit(c: char) {
    '0' <= c <= '9'
  }

  /** A timestamp: two digits, ':', two digits, ':', two digits, ',' and three digits. */
  predicate IsTimestamp(t: string) {
    && |t| == 12
    && t[2] == ':' && t[5] == ':' && t[8] == ','
    && forall k | 0 <= k < 12 && k != 2 && k != 5 && k != 8 :: IsDigit(t[k])
  }

  /** A whole SRT timing block: a newline, the cue number (one or more digits),
      a newline, "start --> end" and a newline. The cue number takes all but
      the 32 fixed characters. */
  predicate IsTimingBlock(b: string) {
    && |b| >= 33
    && b[0] == '\n'
    && (forall k | 1 <= k < |b| - 31 :: IsDigit(b[k]))
    && b[|b| - 31] == '\n'
    && IsTimestamp(b[|b| - 30..|b| - 18])
    && b[|b| - 18..|b| - 13] == " --> "
    && IsTimestamp(b[|b| - 13..|b| - 1])
    && b[|b| - 1] == '\n'
  }

  /** Length of the leading run of digits of s: what the greedy cue-number part takes. */
  function DigitRun(s: string): (n: nat)
    ensures n <= |s|
    ensures forall k | 0 <= k < n :: IsDigit(s[k])
    ensures n < |s| ==> !IsDigit(s[n])
  {
    if s != [] && IsDigit(s[0]) then 1 + DigitRun(s[1..]) else 0
  }

  /** The length of the timing block the SRT pattern matches at the start of s,
      if it matches there. The match, when there is one, is unique. */
  function BlockAt(s: string): (r: Option<nat>)
    ensures r.Some? ==> r.value <= |s| && IsTimingBlock(s[..r.value])
    ensures forall n | 0 <= n <= |s| && IsTimingBlock(s[..n]) :: r == Some(n)
  {
    if |s| < 2 || s[0] != '\n' then
      None
    else
      var d := DigitRun(s[1..]);
      var n := d + 32;
      if && d >= 1 && n <= |s|
         && s[d + 1] == '\n'
         && IsTimestamp(s[d + 2..d + 14])
         && s[d + 14..d + 19] == " --> "
         && IsTimestamp(s[d + 19..d + 31])
         && s[d + 31] == '\n'
      then
        BlockShape(s, d);
        Some(n)
      else
        BlockUnique(s, d);
        None
  }

  lemma BlockShape(s: string, d: nat)
    requires 1 <= d && d + 32 <= |s| && s[0] == '\n'
    requires forall k | 0 <= k < d :: IsDigit(s[1..][k])
    requires s[d + 1] == '\n'
    requires IsTimestamp(s[d + 2..d + 14]) && s[d + 14..d + 19] == " --> "
    requires IsTimestamp(s[d + 19..d + 31]) && s[d + 31] == '\n'
    ensures IsTimingBlock(s[..d + 32])
  {
    var b := s[..d + 32];
    assert b[d + 2..d + 14] == s[d + 2..d + 14];
    assert b[d + 14..d + 19] == s[d + 14..d + 19];
    assert b[d + 19..d + 31] == s[d + 19..d + 31];
    forall k | 1 <= k < |b| - 31 ensures IsDigit(b[k]) {
      assert b[k] == s[1..][k - 1];
    }
  }

  lemma BlockUnique(s: string, d: nat)
    requires |s| >= 2 && s[0] == '\n'
    requires d == DigitRun(s[1..])
    ensures forall n | 0 <= n <= |s| && IsTimingBlock(s[..n]) ::
      && d >= 1 && n == d + 32
      && s[d + 1] == '\n'
      && IsTimestamp(s[d + 2..d + 14])
      && s[d + 14..d + 19] == " --> "
      && IsTimestamp(s[d + 19..d + 31])
      && s[d + 31] == '\n'
  {
    forall n | 0 <= n <= |s| && IsTimingBlock(s[..n])
      ensures && d >= 1 && n == d + 32
              && s[d + 1] == '\n'
              && IsTimestamp(s[d + 2..d + 14])
              && s[d + 14..d + 19] == " --> "
              && IsTimestamp(s[d + 19..d + 31])
              && s[d + 31] == '\n'
    {
      BlockLength(s, d, n);
      BlockParts(s, n);
    }
  }

  /** A timing block at the start of s ends 32 characters after the digit run. */
  lemma BlockLength(s: string, d: nat, n: nat)
    requires |s| >= 2 && d == DigitRun(s[1..])
    requires n <= |s| && IsTimingBlock(s[..n])
    ensures d >= 1 && n == d + 32
  {
    var b := s[..n];
    var e := n - 32;
    forall k | 0 <= k < e ensures IsDigit(s[1..][k]) {
      assert s[1..][k] == b[k + 1];
    }
    assert s[1..][e] == b[e + 1];
  }

  /** The fixed parts of a timing block at the start of s, read off s. */
  lemma BlockParts(s: string, n: nat)
    requires 33 <= n <= |s| && IsTimingBlock(s[..n])
    ensures var d := n - 32;
      && s[d + 1] == '\n'
      && IsTimestamp(s[d + 2..d + 14])
      && s[d + 14..d + 19] == " --> "
      && IsTimestamp(s[d + 19..d + 31])
      && s[d + 31] == '\n'
  {
    var b := s[..n];
    var d := n - 32;
    assert b[|b| - 30..|b| - 18] == s[d + 2..d + 14];
    assert b[|b| - 18..|b| - 13] == s[d + 14..d + 19];
    assert b[|b| - 13..|b| - 1] == s[d + 19..d + 31];
  }

  /** The SRT substitution: scanning left to right, each timing block that
      matches becomes a single '\n' and scanning resumes after the block;
      every other character is copied. */
  function StripTimingBlocks(s: string): (r: string)
    ensures IsSubseq(r, s)
    decreases |s|
  {
    if s == [] then []
    else
      match BlockAt(s)
      case Some(n) =>
        var rest := StripTimingBlocks(s[n..]);
        assert IsSubseq(rest, s[1..]) by {
          KeepsOnlyTail(rest, s[n..], s[1..]);
        }
        "\n" + rest
      case None =>
        [s[0]] + StripTimingBlocks(s[1..])
  }

  /** A subsequence of a suffix of t is a subsequence of a longer suffix of t. */
  lemma {:induction false} KeepsOnlyTail(a: string, b: string, c: string)
    requires IsSubseq(a, b)
    requires |b| <= |c| && b == c[|c| - |b|..]
    ensures IsSubseq(a, c)
    decreases |c|
  {
    if |b| < |c| && a != [] {
      assert c[1..][|c| - 1 - |b|..] == b;
      KeepsOnlyTail(a, b, c[1..]);
    } else if |b| == |c| {
      assert b == c;
    }
  }

  /** Every cue number and pair of timestamps make a timing block. */
  lemma TimingBlockShape(cue: string, start: string, end: string)
    requires cue != [] && forall k | 0 <= k < |cue| :: IsDigit(cue[k])
    requires IsTimestamp(start) && IsTimestamp(end)
    ensures IsTimingBlock("\n" + cue + "\n" + start + " --> " + end + "\n")
  {
    var b := "\n" + cue + "\n" + start + " --> " + end + "\n";
    var c := |cue|;
    assert |b| == c + 32;
    forall k | 1 <= k < |b| - 31 ensures IsDigit(b[k]) {
      assert b[k] == cue[k - 1];
    }
    assert b[c + 2..c + 14] == start;
    assert b[c + 14..c + 19] == " --> ";
    assert b[c + 19..c + 31] == end;
  }

  /** A timing block followed by anything collapses to one newline. */
  lemma BlockBecomesNewline(b: string, rest: string)
    requires IsTimingBlock(b)
    ensures StripTimingBlocks(b + rest) == "\n" + StripTimingBlocks(rest)
  {
    var s := b + rest;
    assert s[..|b|] == b;
    assert BlockAt(s) == Some(|b|);
    assert s[|b|..] == rest;
  }

  /** Text in which no timing block occurs is left unchanged. */
  lemma {:induction false} NoBlockUnchanged(s: string)
    requires forall i, j | 0 <= i <= j <= |s| :: !IsTimingBlock(s[i..j])
    ensures StripTimingBlocks(s) == s
    decreases |s|
  {
    if s != [] {
      forall n | 0 <= n <= |s| ensures !IsTimingBlock(s[..n]) {
        assert s[..n] == s[0..n];
      }
      assert BlockAt(s).None?;
      forall i, j | 0 <= i <= j <= |s[1..]| ensures !IsTimingBlock(s[1..][i..j]) {
        assert s[1..][i..j] == s[i + 1..j + 1];
      }
      NoBlockUnchanged(s[1..]);
      assert s == [s[0]] + s[1..];
    }
  }

  // ---------------------------------------------------------------------
  // ASS: extraction of the dialogue payloads (subtitle_parser.py:20-21)
  // ---------------------------------------------------------------------

  /** The number of commas in s. */
  function Commas(s: string): nat {
    if s == [] then 0 else (if s[0] == ',' then 1 else 0) + Commas(s[1..])
  }

  lemma {:induction false} CommasPositive(s: string)
    ensures Commas(s) > 0 <==> ',' in s
  {
    if s != [] {
      CommasPositive(s[1..]);
      assert s == [s[0]] + s[1..];
    }
  }

  function Min(a: nat, b: nat): nat {
    if a <= b then a else b
  }

  /** Where the last field of a split on ',' limited to n splits begins:
      just after the n-th comma, or after the last comma when there are
      fewer, or at 0 when there is none. */
  function FieldsEnd(line: string, n: nat): (k: nat)
    ensures k <= |line|
    ensures Commas(line[..k]) == Min(n, Commas(line))
    ensures k == 0 || line[k - 1] == ','
    ensures Commas(line) < n ==> Commas(line[k..]) == 0
    decreases |line|
  {
    if n == 0 || ',' !in line then
      CommasPositive(line);
      assert line[..0] == [];
      assert line[0..] == line;
      0
    else
      var m := if line[0] == ',' then n - 1 else n;
      var k := FieldsEnd(line[1..], m);
      FieldsEndStep(line, n, m, k);
      k + 1
  }

  lemma FieldsEndStep(line: string, n: nat, m: nat, k: nat)
    requires line != [] && ',' in line && n > 0 && m == (if line[0] == ',' then n - 1 else n)
    requires var t := line[1..];
      && k <= |t|
      && Commas(t[..k]) == Min(m, Commas(t))
      && (k == 0 || t[k - 1] == ',')
      && (Commas(t) < m ==> Commas(t[k..]) == 0)
    ensures Commas(line[..k + 1]) == Min(n, Commas(line))
    ensures line[k] == ','
    ensures Commas(line) < n ==> Commas(line[k + 1..]) == 0
  {
    var x, t := line[0], line[1..];
    assert line[..k + 1] == [x] + t[..k];
    assert line[k + 1..] == t[k..];
    CommasCons(x, t[..k]);
    CommasCons(x, t);
    assert line == [x] + t;
    CommasPositive(line);
  }

  /** `line.split(',', n)[-1]`. */
  function AfterCommas(line: string, n: nat): string {
    line[FieldsEnd(line, n)..]
  }

  lemma CommasCons(x: char, s: string)
    ensures Commas([x] + s) == (if x == ',' then 1 else 0) + Commas(s)
  {
    assert ([x] + s)[1..] == s;
  }

  lemma {:induction false} CommasConcat(a: string, b: string)
    ensures Commas(a + b) == Commas(a) + Commas(b)
  {
    if a == [] {
      assert a + b == b;
    } else {
      assert (a + b)[1..] == a[1..] + b;
      CommasConcat(a[1..], b);
    }
  }

  /** What follows exactly n comma-terminated fields comes back whole, commas
      and all. */
  lemma AfterCommasOfFields(fields: string, payload: string, n: nat)
    requires Commas(fields) == n && (fields == [] || fields[|fields| - 1] == ',')
    ensures AfterCommas(fields + payload, n) == payload
  {
    FieldsEndOfFields(fields, payload, n);
    assert (fields + payload)[|fields|..] == payload;
  }

  lemma {:induction false} FieldsEndOfFields(fields: string, payload: string, n: nat)
    requires Commas(fields) == n && (fields == [] || fields[|fields| - 1] == ',')
    ensures FieldsEnd(fields + payload, n) == |fields|
    decreases |fields|
  {
    var line := fields + payload;
    if fields != [] {
      var tail := fields[1..];
      assert fields == [fields[0]] + tail;
      CommasCons(fields[0], tail);
      CommasPositive(fields);
      assert line[0] == fields[0];
      assert line[1..] == tail + payload;
      assert ',' in line by { assert line[|fields| - 1] == ','; }
      assert tail != [] ==> tail[|tail| - 1] == ',';
      var m := if fields[0] == ',' then n - 1 else n;
      FieldsEndOfFields(tail, payload, m);
    }
  }

  /** The line starts with "Dialogue". */
  predicate IsDialogue(line: string) {
    |line| >= 8 && line[..8] == "Dialogue"
  }

  /** The lines that start with "Dialogue", in their original order. */
  function DialogueLines(lines: seq<string>): (r: seq<string>)
    ensures IsSubseq(r, lines)
    ensures forall i | 0 <= i < |r| :: IsDialogue(r[i])
    ensures forall l | IsDialogue(l) :: multiset(r)[l] == multiset(lines)[l]
  {
    if lines == [] then []
    else
      assert lines == [lines[0]] + lines[1..];
      var rest := DialogueLines(lines[1..]);
      if IsDialogue(lines[0]) then
        [lines[0]] + rest
      else
        assert IsSubseq(rest, lines[1..]);
        rest
  }

  /** The spoken text of each dialogue line: what follows its 9th comma. */
  function Payloads(lines: seq<string>): (r: seq<string>)
    ensures |r| == |DialogueLines(lines)|
    ensures forall i | 0 <= i < |r| :: r[i] == AfterCommas(DialogueLines(lines)[i], 9)
  {
    var d := DialogueLines(lines);
    seq(|d|, i requires 0 <= i < |d| => AfterCommas(d[i], 9))
  }

  /** The ASS step: dialogue payloads joined by newlines. */
  function ExtractDialogue(text: string): string {
    JoinLines(Payloads(SplitLines(text)))
  }

  /** One output line per dialogue line, in order: splitting the extracted
      text gives back exactly the payloads (when the last one is not empty,
      since splitlines drops a trailing empty line). */
  lemma DialogueLinePerPayload(text: string)
    requires var p := Payloads(SplitLines(text)); p != [] ==> p[|p| - 1] != []
    ensures SplitLines(ExtractDialogue(text)) == Payloads(SplitLines(text))
  {
    var lines := SplitLines(text);
    var d := DialogueLines(lines);
    var p := Payloads(lines);
    SplitLinesNoBoundary(text);
    forall i | 0 <= i < |p| ensures NoBoundary(p[i]) {
      assert d[i] in multiset(d);
      assert multiset(d)[d[i]] == multiset(lines)[d[i]];
      assert d[i] in lines;
      var j :| 0 <= j < |lines| && lines[j] == d[i];
      forall k | 0 <= k < |p[i]| ensures !IsLineBoundary(p[i][k]) {
        assert p[i][k] == d[i][|d[i]| - |p[i]| + k];
      }
    }
    SplitJoinedLines(p);
  }

  // ---------------------------------------------------------------------
  // Shared step 1: tag removal (subtitle_parser.py:23)
  // ---------------------------------------------------------------------

  /** A tag: '<', at least one character other than '>', then '>'. */
  predicate IsTag(t: string) {
    && |t| >= 3
    && t[0] == '<' && t[|t| - 1] == '>'
    && forall k | 1 <= k < |t| - 1 :: t[k] != '>'
  }

  /** Index of the first '>' in s, or |s|. */
  function CloseAt(s: string): (i: nat)
    ensures i <= |s|
    ensures forall k | 0 <= k < i :: s[k] != '>'
    ensures i < |s| ==> s[i] == '>'
  {
    if s == [] || s[0] == '>' then 0 else 1 + CloseAt(s[1..])
  }

  /** The length of the tag the pattern matches at the start of s, if any. */
  function TagAt(s: string): (r: Option<nat>)
    ensures r.Some? ==> r.value <= |s| && IsTag(s[..r.value])
    ensures forall n | 0 <= n <= |s| && IsTag(s[..n]) :: r == Some(n)
  {
    if s == [] || s[0] != '<' then
      None
    else
      var j := 1 + CloseAt(s[1..]);
      forall n | 0 <= n <= |s| && IsTag(s[..n]) ensures j == n - 1 {
        var t := s[..n];
        forall k | 0 <= k < n - 2 ensures s[1..][k] != '>' {
          assert s[1..][k] == t[k + 1];
        }
        assert s[1..][n - 2] == t[n - 1];
      }
      if 2 <= j < |s| then
        var t := s[..j + 1];
        forall k | 1 <= k < |t| - 1 ensures t[k] != '>' {
          assert t[k] == s[1..][k - 1];
        }
        Some(j + 1)
      else
        None
  }

  /** No position of r starts a tag: a second pass of the pattern finds nothing. */
  predicate TagFree(r: string) {
    forall i | 0 <= i < |r| :: TagAt(r[i..]).None?
  }

  /** The tag substitution: each tag found scanning left to right is deleted. */
  function StripTags(s: string): (r: string)
    ensures IsSubseq(r, s)
    ensures TagFree(r)
    ensures r != [] && s != [] && s[0] != '<' ==> r[0] == s[0]
    ensures '>' !in s ==> '>' !in r
    decreases |s|
  {
    if s == [] then []
    else
      match TagAt(s)
      case Some(n) =>
        var rest := StripTags(s[n..]);
        KeepsOnlyTail(rest, s[n..], s);
        assert '>' !in s ==> '>' !in s[n..] by {
          if '>' in s[n..] {
            var k :| 0 <= k < |s[n..]| && s[n..][k] == '>';
            assert s[n + k] == '>';
          }
        }
        rest
      case None =>
        var rest := StripTags(s[1..]);
        var r := [s[0]] + rest;
        assert '>' !in s ==> '>' !in s[1..];
        TagFreeAfterMiss(s, rest);
        r
  }

  lemma TagFreeAfterMiss(s: string, rest: string)
    requires s != [] && TagAt(s).None?
    requires TagFree(rest)
    requires rest != [] && s[1..] != [] && s[1] != '<' ==> rest[0] == s[1]
    requires '>' !in s[1..] ==> '>' !in rest
    ensures TagFree([s[0]] + rest)
  {
    var r := [s[0]] + rest;
    forall i | 0 <= i < |r| ensures TagAt(r[i..]).None? {
      if i == 0 {
        forall n | 0 <= n <= |r| ensures !IsTag(r[..n]) {
          if n >= 3 && s[0] == '<' {
            if '>' in s[1..] {
              assert CloseAt(s[1..]) < |s[1..]|;
              assert s[1] == '>';
              assert r[..n][1] == '>';
            } else {
              assert r[..n][n - 1] == rest[n - 2];
            }
          }
        }
      } else {
        assert r[i..] == rest[i - 1..];
      }
    }
  }

  /** Without '<' there is nothing to delete. */
  lemma {:induction false} StripTagsNoOpen(s: string)
    requires '<' !in s
    ensures StripTags(s) == s
    decreases |s|
  {
    if s != [] {
      assert '<' !in s[1..];
      StripTagsNoOpen(s[1..]);
      assert s == [s[0]] + s[1..];
    }
  }

  /** A tag at the scan position is deleted, and the scan resumes after it. */
  lemma TagDeleted(t: string, rest: string)
    requires IsTag(t)
    ensures StripTags(t + rest) == StripTags(rest)
  {
    var s := t + rest;
    assert s[..|t|] == t;
    assert TagAt(s) == Some(|t|);
    assert s[|t|..] == rest;
  }

  /** Where no tag starts, the first character is kept. */
  lemma KeptUnlessTag(s: string)
    requires s != [] && TagAt(s).None?
    ensures StripTags(s) == [s[0]] + StripTags(s[1..])
  {
  }

  /** Text before the first '<' is kept as it is, and the scan carries on after it. */
  lemma {:induction false} PrefixWithoutOpen(a: string, b: string)
    requires '<' !in a
    ensures StripTags(a + b) == a + StripTags(b)
    decreases |a|
  {
    if a == [] {
      assert a + b == b;
    } else {
      var s := a + b;
      assert s[0] == a[0];
      assert s[1..] == a[1..] + b;
      assert '<' !in a[1..];
      PrefixWithoutOpen(a[1..], b);
      ConsAppend(a[0], a[1..], StripTags(b));
      assert [a[0]] + a[1..] == a;
    }
  }

  /** `"<i>" + w + "</i>"` comes out as w when w holds no '<'. */
  lemma ItalicWord(w: string)
    requires '<' !in w
    ensures StripTags("<i>" + (w + "</i>")) == w
  {
    calc {
      StripTags("<i>" + (w + "</i>"));
    == { TagDeleted("<i>", w + "</i>"); }
      StripTags(w + "</i>");
    == { PrefixWithoutOpen(w, "</i>"); }
      w + StripTags("</i>");
    == { TagAlone("</i>"); }
      w + [];
    }
  }

  lemma TagAlone(t: string)
    requires IsTag(t)
    ensures StripTags(t) == []
  {
    TagDeleted(t, []);
    assert t + [] == t;
  }

  // ---------------------------------------------------------------------
  // Shared step 2: newline and tab runs to one space, then strip (subtitle_parser.py:24)
  // ---------------------------------------------------------------------

  predicate IsBreak(c: char) {
    c == '\n' || c == '\t'
  }

  /** Length of the leading run of newlines and tabs. */
  function BreakRun(s: string): (n: nat)
    ensures n <= |s|
    ensures forall k | 0 <= k < n :: IsBreak(s[k])
    ensures n < |s| ==> !IsBreak(s[n])
  {
    if s != [] && IsBreak(s[0]) then 1 + BreakRun(s[1..]) else 0
  }

  /** Each maximal run of newlines and tabs becomes one space. */
  function CollapseBreaks(s: string): (r: string)
    ensures |r| <= |s|
    ensures forall k | 0 <= k < |r| :: !IsBreak(r[k])
    ensures RemoveSpace(r) == RemoveSpace(s)
    ensures r != [] && s != [] && !IsBreak(s[0]) ==> r[0] == s[0]
    decreases |s|
  {
    if s == [] then []
    else if IsBreak(s[0]) then
      var n := BreakRun(s);
      assert s == s[..n] + s[n..];
      RemoveSpaceOfSpaces(s[..n], s[n..]);
      " " + CollapseBreaks(s[n..])
    else
      assert s == [s[0]] + s[1..];
      [s[0]] + CollapseBreaks(s[1..])
  }

  /** A maximal run of newlines and tabs becomes exactly one space. */
  lemma RunBecomesSpace(run: string, b: string)
    requires run != [] && forall k | 0 <= k < |run| :: IsBreak(run[k])
    requires b == [] || !IsBreak(b[0])
    ensures CollapseBreaks(run + b) == " " + CollapseBreaks(b)
  {
    var s := run + b;
    assert forall k | 0 <= k < |run| :: s[k] == run[k];
    assert |run| < |s| ==> s[|run|] == b[0];
    assert BreakRun(s) == |run|;
    assert s[|run|..] == b;
  }

  /** Text without newlines and tabs is kept as it is, and the scan carries on after it. */
  lemma {:induction false} PrefixWithoutBreak(a: string, b: string)
    requires forall k | 0 <= k < |a| :: !IsBreak(a[k])
    ensures CollapseBreaks(a + b) == a + CollapseBreaks(b)
    decreases |a|
  {
    if a == [] {
      assert a + b == b;
    } else {
      var s := a + b;
      assert s[0] == a[0];
      assert s[1..] == a[1..] + b;
      PrefixWithoutBreak(a[1..], b);
      ConsAppend(a[0], a[1..], CollapseBreaks(b));
      assert [a[0]] + a[1..] == a;
    }
  }

  /** Two lines joined by a newline become the two lines joined by a space. */
  lemma LinesJoinedBySpace(a: string, b: string)
    requires forall k | 0 <= k < |a| :: !IsBreak(a[k])
    requires forall k | 0 <= k < |b| :: !IsBreak(b[k])
    ensures CollapseBreaks(a + ("\n" + b)) == a + (" " + b)
  {
    calc {
      CollapseBreaks(a + ("\n" + b));
    == { PrefixWithoutBreak(a, "\n" + b); }
      a + CollapseBreaks("\n" + b);
    == { RunBecomesSpace("\n", b); }
      a + (" " + CollapseBreaks(b));
    == { NoBreakUnchanged(b); }
      a + (" " + b);
    }
  }

  lemma NoBreakUnchanged(b: string)
    requires forall k | 0 <= k < |b| :: !IsBreak(b[k])
    ensures CollapseBreaks(b) == b
  {
    PrefixWithoutBreak(b, []);
    assert b + [] == b;
  }

  lemma {:induction false} RemoveSpaceOfSpaces(a: string, b: string)
    requires AllSpace(a)
    ensures RemoveSpace(a + b) == RemoveSpace(b)
    decreases |a|
  {
    if a != [] {
      assert (a + b)[0] == a[0];
      assert (a + b)[1..] == a[1..] + b;
      RemoveSpaceOfSpaces(a[1..], b);
    } else {
      assert a + b == b;
    }
  }

  // ---------------------------------------------------------------------
  // Shared step 3: deletion of the excluded characters (subtitle_parser.py:26)
  // ---------------------------------------------------------------------

  /** The ASCII members of the character class of the last substitution:
      every ASCII punctuation character except the backslash. */
  const AsciiPunctuation: set<char> := {
    ':', ';', '.', ',', '<', '>', '[', ']', '{', '}', '(', ')', '!', '"',
    '#', '$', '%', '&', '\'', '*', '+', '-', '/', '=', '?', '@', '^', '_',
    '`', '|', '~'
  }

  /** Membership in the character class: the ASCII punctuation above, the
      full-width and CJK punctuation given as `cjk`, and `\s`. */
  predicate Excluded(c: char, cjk: set<char>) {
    c in AsciiPunctuation || c in cjk || IsSpace(c)
  }

  /** Deletes every excluded character and keeps the rest in order. */
  function RemoveExcluded(s: string, cjk: set<char>): (r: string)
    ensures IsSubseq(r, s)
    ensures forall k | 0 <= k < |r| :: !Excluded(r[k], cjk)
    ensures forall c | !Excluded(c, cjk) :: multiset(r)[c] == multiset(s)[c]
  {
    if s == [] then []
    else
      assert s == [s[0]] + s[1..];
      var rest := RemoveExcluded(s[1..], cjk);
      if Excluded(s[0], cjk) then rest else [s[0]] + rest
  }

  lemma {:induction false} RemoveExcludedIgnoresSpace(s: string, cjk: set<char>)
    ensures RemoveExcluded(RemoveSpace(s), cjk) == RemoveExcluded(s, cjk)
  {
    if s != [] {
      RemoveExcludedIgnoresSpace(s[1..], cjk);
    }
  }

  lemma {:induction false} RemoveExcludedOfClean(s: string, cjk: set<char>)
    requires forall k | 0 <= k < |s| :: !Excluded(s[k], cjk)
    ensures RemoveExcluded(s, cjk) == s
  {
    if s != [] {
      RemoveExcludedOfClean(s[1..], cjk);
      assert s == [s[0]] + s[1..];
    }
  }

  // ---------------------------------------------------------------------
  // clean_text
  // ---------------------------------------------------------------------

  /** The three shared steps, in the script's order. */
  function SharedCleanup(s: string, cjk: set<char>): string {
    RemoveExcluded(Strip(CollapseBreaks(StripTags(s))), cjk)
  }

  /** `clean_text`: the step chosen by the file extension, then the shared steps. */
  function CleanText(text: string, extension: string, cjk: set<char>): (r: string)
    ensures forall k | 0 <= k < |r| :: !Excluded(r[k], cjk)
  {
    var t :=
      if extension == ".srt" then StripTimingBlocks(text)
      else if extension == ".ass" then ExtractDialogue(text)
      else text;
    SharedCleanup(t, cjk)
  }

  /** The whitespace step changes nothing the last step would keep, so the
      shared cleanup is exactly: drop the tags, then drop the excluded
      characters. */
  lemma SharedCleanupIsTagsThenExcluded(s: string, cjk: set<char>)
    ensures SharedCleanup(s, cjk) == RemoveExcluded(StripTags(s), cjk)
  {
    var t := StripTags(s);
    var c := CollapseBreaks(t);
    var u := Strip(c);
    StripKeepsNonSpace(c);
    calc {
      RemoveExcluded(u, cjk);
      { RemoveExcludedIgnoresSpace(u, cjk); }
      RemoveExcluded(RemoveSpace(u), cjk);
      RemoveExcluded(RemoveSpace(t), cjk);
      { RemoveExcludedIgnoresSpace(t, cjk); }
      RemoveExcluded(t, cjk);
    }
  }

  /** Stripping only removes whitespace. */
  lemma StripKeepsNonSpace(s: string)
    ensures RemoveSpace(Strip(s)) == RemoveSpace(s)
  {
    var t := TrimStart(s);
    var lead := s[..|s| - |t|];
    SplitAt(s, |s| - |t|);
    RemoveSpaceOfSpaces(lead, t);
    assert RemoveSpace(s) == RemoveSpace(t);
    var u := TrimEnd(t);
    var trail := t[|u|..];
    SplitAt(t, |u|);
    RemoveSpaceOfTrailingSpaces(u, trail);
    assert RemoveSpace(t) == RemoveSpace(u);
    assert Strip(s) == u;
  }

  lemma {:induction false} RemoveSpaceOfTrailingSpaces(a: string, b: string)
    requires AllSpace(b)
    ensures RemoveSpace(a + b) == RemoveSpace(a)
    decreases |a|
  {
    if a == [] {
      RemoveSpaceOfSpaces(b, []);
      assert b + [] == b && a + b == b;
    } else {
      assert (a + b)[1..] == a[1..] + b;
      RemoveSpaceOfTrailingSpaces(a[1..], b);
    }
  }

  /** Characters are only deleted, never reordered or introduced. */
  lemma SharedCleanupIsSubsequence(s: string, cjk: set<char>)
    ensures IsSubseq(SharedCleanup(s, cjk), s)
  {
    SharedCleanupIsTagsThenExcluded(s, cjk);
    var t := StripTags(s);
    SubseqTransitive(RemoveExcluded(t, cjk), t, s);
  }

  /** Every character that is not excluded and survives tag removal survives
      the cleanup, as often as it occurred; nothing excluded survives. */
  lemma SharedCleanupKeepsWordCharacters(s: string, cjk: set<char>, c: char)
    ensures !Excluded(c, cjk) ==> multiset(SharedCleanup(s, cjk))[c] == multiset(StripTags(s))[c]
    ensures Excluded(c, cjk) ==> c !in SharedCleanup(s, cjk)
  {
    SharedCleanupIsTagsThenExcluded(s, cjk);
  }

  /** Cleaning cleaned text changes nothing. */
  lemma SharedCleanupIdempotent(s: string, cjk: set<char>)
    ensures SharedCleanup(SharedCleanup(s, cjk), cjk) == SharedCleanup(s, cjk)
  {
    var r := RemoveExcluded(StripTags(s), cjk);
    SharedCleanupIsTagsThenExcluded(s, cjk);
    NoOpenAfterRemoval(r, cjk);
    StripTagsNoOpen(r);
    RemoveExcludedOfClean(r, cjk);
    SharedCleanupIsTagsThenExcluded(r, cjk);
  }

  lemma NoOpenAfterRemoval(r: string, cjk: set<char>)
    requires forall k | 0 <= k < |r| :: !Excluded(r[k], cjk)
    ensures '<' !in r
  {
    assert '<' in AsciiPunctuation;
  }

  // ---------------------------------------------------------------------
  // Worked examples
  // ---------------------------------------------------------------------

  /** A cue (number, times, one line of text) preceded by a newline loses its
      number and times: "\n1\n00:00:01,000 --> 00:00:02,000\nこんにちは\n"
      becomes "\nこんにちは\n". */
  lemma SrtCueRemoved(cue: string, start: string, end: string, line: string)
    requires cue != [] && forall k | 0 <= k < |cue| :: IsDigit(cue[k])
    requires IsTimestamp(start) && IsTimestamp(end)
    requires '\n' !in line
    ensures var block := "\n" + cue + "\n" + start + " --> " + end + "\n";
      StripTimingBlocks(block + (line + "\n")) == "\n" + line + "\n"
  {
    var block := "\n" + cue + "\n" + start + " --> " + end + "\n";
    TimingBlockShape(cue, start, end);
    BlockBecomesNewline(block, line + "\n");
    PrefixWithoutNewline(line, "\n");
    ShortTextUnchanged("\n");
  }

  /** A line between two newlines holds no timing block. */
  lemma LineUnchanged(line: string)
    requires '\n' !in line
    ensures StripTimingBlocks("\n" + line + "\n") == "\n" + line + "\n"
  {
    var s := "\n" + line + "\n";
    forall n | 0 <= n <= |s| ensures !IsTimingBlock(s[..n]) {
      if n >= 33 {
        assert s[..n][n - 31] == line[n - 32];
      }
    }
    assert BlockAt(s).None?;
    assert s[1..] == line + "\n";
    PrefixWithoutNewline(line, "\n");
    ShortTextUnchanged("\n");
  }

  /** After the cue number's newline come the times, whose third character
      is ':', so no timing block starts at that newline. */
  lemma NoBlockAtTimes(start: string, rest: string)
    requires IsTimestamp(start)
    ensures BlockAt("\n" + start + rest).None?
  {
    var t := "\n" + start + rest;
    assert t[1] == start[0] && t[2] == start[1] && t[3] == start[2];
    forall n | 0 <= n <= |t| ensures !IsTimingBlock(t[..n]) {
      if n >= 33 {
        assert t[..n][1] == t[1] && t[..n][2] == t[2] && t[..n][3] == t[3];
      }
    }
  }

  /** The times "start --> end" hold no newline. */
  lemma TimesOnOneLine(start: string, end: string)
    requires IsTimestamp(start) && IsTimestamp(end)
    ensures '\n' !in start + " --> " + end
  {
    var times := start + " --> " + end;
    forall k | 0 <= k < |times| ensures times[k] != '\n' {
      if k < 12 {
        assert times[k] == start[k];
      } else if k >= 17 {
        assert times[k] == end[k - 17];
      }
    }
  }

  /** The first cue of a file has no newline before it, so the pattern does
      not match it and its number and times stay in the text. */
  lemma SrtLeadingCueKept(cue: string, start: string, end: string, line: string)
    requires cue != [] && forall k | 0 <= k < |cue| :: IsDigit(cue[k])
    requires IsTimestamp(start) && IsTimestamp(end)
    requires '\n' !in line
    ensures var text := cue + ("\n" + ((start + " --> " + end) + ("\n" + line + "\n")));
      StripTimingBlocks(text) == text
  {
    var times := start + " --> " + end;
    var last := "\n" + line + "\n";
    var t := "\n" + (times + last);
    assert t == "\n" + start + (" --> " + end + last);
    NoBlockAtTimes(start, " --> " + end + last);
    TimesOnOneLine(start, end);
    assert '\n' !in cue;
    calc {
      StripTimingBlocks(cue + t);
      { PrefixWithoutNewline(cue, t); }
      cue + StripTimingBlocks(t);
      { CopiedAt(t); ConsTail('\n', times + last); }
      cue + ("\n" + StripTimingBlocks(times + last));
      { PrefixWithoutNewline(times, last); }
      cue + ("\n" + (times + StripTimingBlocks(last)));
      { LineUnchanged(line); }
      cue + t;
    }
  }

  lemma ConsTail<T>(x: T, u: seq<T>)
    ensures ([x] + u)[0] == x && ([x] + u)[1..] == u
  {
  }

  /** Where no timing block starts, the first character is copied. */
  lemma CopiedAt(s: string)
    requires s != [] && BlockAt(s).None?
    ensures StripTimingBlocks(s) == [s[0]] + StripTimingBlocks(s[1..])
  {
  }

  /** A text too short to hold a timing block is left unchanged. */
  lemma ShortTextUnchanged(s: string)
    requires |s| < 33
    ensures StripTimingBlocks(s) == s
  {
    NoBlockUnchanged(s);
  }

  /** Characters before the first newline are copied as they are. */
  lemma {:induction false} PrefixWithoutNewline(a: string, b: string)
    requires '\n' !in a
    ensures StripTimingBlocks(a + b) == a + StripTimingBlocks(b)
    decreases |a|
  {
    if a == [] {
      assert a + b == b;
    } else {
      var x, u := a[0], a[1..];
      NotInTail('\n', a);
      calc {
        StripTimingBlocks(a + b);
        { CopiedWithoutNewline(a, b); }
        [x] + StripTimingBlocks(u + b);
        { PrefixWithoutNewline(u, b); }
        [x] + (u + StripTimingBlocks(b));
        { ConsAppend(x, u, StripTimingBlocks(b)); assert [x] + u == a; }
        a + StripTimingBlocks(b);
      }
    }
  }

  lemma NotInTail<T>(x: T, a: seq<T>)
    requires a != [] && x !in a
    ensures x !in a[1..]
  {
    forall i | 0 <= i < |a| - 1 ensures a[1..][i] != x {
      assert a[1..][i] == a[i + 1];
    }
  }

  lemma ConsAppend<T>(x: T, u: seq<T>, v: seq<T>)
    ensures [x] + (u + v) == ([x] + u) + v
  {
  }

  lemma CopiedWithoutNewline(a: string, b: string)
    requires a != [] && a[0] != '\n'
    ensures StripTimingBlocks(a + b) == [a[0]] + StripTimingBlocks(a[1..] + b)
  {
    var s := a + b;
    assert s[0] == a[0];
    assert s[1..] == a[1..] + b;
    assert BlockAt(s) == None;
  }

  /** Fields each followed by a comma, as they stand before the text of an
      ASS dialogue line. */
  function Fields(fs: seq<string>): (r: string)
    ensures fs == [] <==> r == []
    ensures fs != [] ==> |r| > |fs[0]| && r[..|fs[0]|] == fs[0] && r[|r| - 1] == ','
    ensures (forall i | 0 <= i < |fs| :: ',' !in fs[i]) ==> Commas(r) == |fs|
    ensures (forall i | 0 <= i < |fs| :: NoBoundary(fs[i])) ==> NoBoundary(r)
  {
    if fs == [] then []
    else
      var rest := Fields(fs[1..]);
      FieldsStep(fs, rest);
      fs[0] + ("," + rest)
  }

  /** The contract of Fields for fs, from the contract for its tail. */
  lemma FieldsStep(fs: seq<string>, rest: string)
    requires fs != []
    requires fs[1..] == [] <==> rest == []
    requires rest != [] ==> rest[|rest| - 1] == ','
    requires (forall i | 0 <= i < |fs[1..]| :: ',' !in fs[1..][i]) ==> Commas(rest) == |fs| - 1
    requires (forall i | 0 <= i < |fs[1..]| :: NoBoundary(fs[1..][i])) ==> NoBoundary(rest)
    ensures var r := fs[0] + ("," + rest);
      |r| > |fs[0]| && r[..|fs[0]|] == fs[0] && r[|r| - 1] == ','
    ensures (forall i | 0 <= i < |fs| :: ',' !in fs[i]) ==> Commas(fs[0] + ("," + rest)) == |fs|
    ensures (forall i | 0 <= i < |fs| :: NoBoundary(fs[i])) ==> NoBoundary(fs[0] + ("," + rest))
  {
    var r := fs[0] + ("," + rest);
    assert r[..|fs[0]|] == fs[0];
    assert r[|r| - 1] == ',' by {
      if rest == [] {
        assert r[|r| - 1] == ("," + rest)[0];
      } else {
        assert r[|r| - 1] == rest[|rest| - 1];
      }
    }
    if forall i | 0 <= i < |fs| :: ',' !in fs[i] {
      assert forall i | 0 <= i < |fs[1..]| :: ',' !in fs[1..][i] by {
        forall i | 0 <= i < |fs[1..]| ensures ',' !in fs[1..][i] {
          assert fs[1..][i] == fs[i + 1];
        }
      }
      CommasPositive(fs[0]);
      CommasConcat(fs[0], "," + rest);
      CommasCons(',', rest);
    }
    if forall i | 0 <= i < |fs| :: NoBoundary(fs[i]) {
      assert NoBoundary(fs[0]);
      assert forall i | 0 <= i < |fs[1..]| :: NoBoundary(fs[1..][i]) by {
        forall i | 0 <= i < |fs[1..]| ensures NoBoundary(fs[1..][i]) {
          assert fs[1..][i] == fs[i + 1];
        }
      }
      assert NoBoundary(",");
      NoBoundaryConcat(",", rest);
      NoBoundaryConcat(fs[0], "," + rest);
    }
  }

  /** A dialogue line of the ASS format: nine metadata fields (Layer, Start,
      End, Style, Name, MarginL, MarginR, MarginV, Effect; the first one begins
      with "Dialogue") and then the text, which may itself hold commas. Such a
      line alone extracts to exactly its text. */
  lemma DialogueLineExtraction(fs: seq<string>, text: string)
    requires |fs| == 9 && IsDialogue(fs[0])
    requires forall i | 0 <= i < 9 :: ',' !in fs[i] && NoBoundary(fs[i])
    requires NoBoundary(text)
    ensures ExtractDialogue(Fields(fs) + text) == text
  {
    var f := Fields(fs);
    assert Commas(f) == 9 && NoBoundary(f);
    AfterCommasOfFields(f, text, 9);
    FieldsKeepDialogue(fs, text);
    NoBoundaryConcat(f, text);
    SingleDialogueLine(f + text);
  }

  lemma FieldsKeepDialogue(fs: seq<string>, text: string)
    requires fs != [] && IsDialogue(fs[0])
    ensures IsDialogue(Fields(fs) + text)
  {
    var f := Fields(fs);
    var line := f + text;
    assert line[..8] == f[..8];
    assert f[..8] == f[..|fs[0]|][..8];
  }

  /** The example dialogue line: its spoken text is all that is left. */
  lemma AssDialogueExample(fs: seq<string>, text: string, cjk: set<char>)
    requires fs == ["Dialogue: 0", "0:00:01.00", "0:00:02.00", "Default", "", "0", "0", "0", ""]
    requires text == "こんにちは"
    requires forall c | c in text :: c !in cjk
    ensures CleanText(Fields(fs) + text, ".ass", cjk) == text
  {
    ExampleExtraction(fs, text);
    ExampleText(text, cjk);
    AssCleaning(Fields(fs) + text, cjk);
  }

  lemma ExampleExtraction(fs: seq<string>, text: string)
    requires fs == ["Dialogue: 0", "0:00:01.00", "0:00:02.00", "Default", "", "0", "0", "0", ""]
    requires text == "こんにちは"
    ensures ExtractDialogue(Fields(fs) + text) == text
  {
    assert fs[0][..8] == "Dialogue";
    assert forall i | 0 <= i < 9 :: ',' !in fs[i];
    assert forall i | 0 <= i < 9 :: NoBoundary(fs[i]);
    assert NoBoundary(text);
    DialogueLineExtraction(fs, text);
  }

  lemma ExampleText(text: string, cjk: set<char>)
    requires text == "こんにちは"
    requires forall c | c in text :: c !in cjk
    ensures SharedCleanup(text, cjk) == text
  {
    assert forall k | 0 <= k < |text| :: !Excluded(text[k], cjk);
    CleanWordUnchanged(text, cjk);
  }

  lemma AssCleaning(text: string, cjk: set<char>)
    ensures CleanText(text, ".ass", cjk) == SharedCleanup(ExtractDialogue(text), cjk)
  {
    assert ".ass" != ".srt";
  }

  /** A text that is one dialogue line extracts to that line's payload. */
  lemma SingleDialogueLine(line: string)
    requires IsDialogue(line) && NoBoundary(line)
    ensures ExtractDialogue(line) == AfterCommas(line, 9)
  {
    LineEndAt(line, []);
    assert line + [] == line;
    assert SplitLines(line) == [line];
    assert DialogueLines([line]) == [line];
  }

  /** Text with no excluded character comes through the shared steps unchanged. */
  lemma CleanWordUnchanged(w: string, cjk: set<char>)
    requires forall k | 0 <= k < |w| :: !Excluded(w[k], cjk)
    ensures SharedCleanup(w, cjk) == w
  {
    SharedCleanupIsTagsThenExcluded(w, cjk);
    NoOpenAfterRemoval(w, cjk);
    StripTagsNoOpen(w);
    RemoveExcludedOfClean(w, cjk);
  }
}
