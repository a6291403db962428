/** String operations the gates share: search, split on one character and strip,
    with the meaning their callers rely on stated in the contract. */
module Text {

  datatype Option<+T> = None | Some(value: T)

  /** `pat` occurs in `s` at index `i`. */
  predicate OccursAt(s: string, pat: string, i: nat) {
    i + |pat| <= |s| && s[i..i + |pat|] == pat
  }

  predicate Contains(s: string, pat: string) {
    exists i: nat | i <= |s| :: OccursAt(s, pat, i)
  }

  /** The first occurrence of `pat` at or after `from`, or -1. */
  function Find(s: string, pat: string, from: nat): (r: int)
    ensures r == -1 || from <= r <= |s|
    ensures r >= 0 ==> OccursAt(s, pat, r)
    ensures forall k: nat | from <= k && (r == -1 || k < r) :: !OccursAt(s, pat, k)
    decreases |s| - from
  {
    if from > |s| then -1
    else if OccursAt(s, pat, from) then from
    else Find(s, pat, from + 1)
  }

  /** Whitespace as Python's `str.strip` and `\s` see it. */
  predicate IsSpace(c: char) {
    var n := c as int;
    || 9 <= n <= 13 || 28 <= n <= 32 || n == 0x85 || n == 0xA0 || n == 0x1680
    || 0x2000 <= n <= 0x200A || n == 0x2028 || n == 0x2029 || n == 0x202F
    || n == 0x205F || n == 0x3000
  }

  predicate AllOf(s: string, p: char -> bool) {
    forall c | c in s :: p(c)
  }

  function LStrip(s: string, p: char -> bool): (r: string)
    ensures |r| <= |s| && r == s[|s| - |r|..] && AllOf(s[..|s| - |r|], p)
    ensures r == "" || !p(r[0])
  {
    if s == "" || !p(s[0]) then s
    else
      var r := LStrip(s[1..], p);
      assert s[..|s| - |r|] == [s[0]] + s[1..][..|s| - 1 - |r|];
      r
  }

  function RStrip(s: string, p: char -> bool): (r: string)
    ensures r <= s && AllOf(s[|r|..], p)
    ensures r == "" || !p(r[|r| - 1])
  {
    if s == "" || !p(s[|s| - 1]) then s
    else
      var r := RStrip(s[..|s| - 1], p);
      assert s[|r|..] == s[..|s| - 1][|r|..] + [s[|s| - 1]];
      r
  }

  function Strip(s: string): string {
    RStrip(LStrip(s, IsSpace), IsSpace)
  }

  predicate Trimmed(s: string) {
    s == "" || (!IsSpace(s[0]) && !IsSpace(s[|s| - 1]))
  }

  lemma StripTrimmed(s: string)
    requires Trimmed(s)
    ensures Strip(s) == s
  {
  }

  lemma {:induction false} LStripPadding(pad: string, s: string, p: char -> bool)
    requires AllOf(pad, p) && (s == "" || !p(s[0]))
    ensures LStrip(pad + s, p) == s
  {
    if pad == "" {
      assert pad + s == s;
    } else {
      assert (pad + s)[1..] == pad[1..] + s;
      assert (pad + s)[0] == pad[0] && pad[0] in pad;
      LStripPadding(pad[1..], s, p);
    }
  }

  lemma {:induction false} RStripPadding(s: string, pad: string, p: char -> bool)
    requires AllOf(pad, p) && (s == "" || !p(s[|s| - 1]))
    ensures RStrip(s + pad, p) == s
  {
    if pad == "" {
      assert s + pad == s;
    } else {
      var init := pad[..|pad| - 1];
      assert (s + pad)[..|s + pad| - 1] == s + init;
      assert pad == init + [pad[|pad| - 1]];
      assert pad[|pad| - 1] in pad;
      RStripPadding(s, init, p);
    }
  }

  /** Stripping a trimmed text that was padded with whitespace gives it back. */
  lemma StripPadded(a: string, s: string, b: string)
    requires AllOf(a, IsSpace) && AllOf(b, IsSpace) && Trimmed(s)
    ensures Strip(a + s + b) == s
  {
    assert a + s + b == a + (s + b);
    if s == "" {
      assert s + b == b;
      assert a + (s + b) == (a + b) + "";
      LStripPadding(a + b, "", IsSpace);
    } else {
      LStripPadding(a, s + b, IsSpace);
      RStripPadding(s, b, IsSpace);
    }
  }

  function Join(parts: seq<string>, c: char): string
    requires |parts| > 0
  {
    if |parts| == 1 then parts[0] else parts[0] + [c] + Join(parts[1..], c)
  }

  /** Splitting on one character: the parts do not carry it, and joined by it they are the text. */
  function Split(s: string, c: char): (parts: seq<string>)
    ensures |parts| > 0
    ensures forall part | part in parts :: c !in part
    ensures Join(parts, c) == s
  {
    if s == "" then [""]
    else
      var rest := Split(s[1..], c);
      if s[0] == c then
        var parts := [""] + rest;
        assert parts[1..] == rest;
        assert "" + [c] + s[1..] == s;
        parts
      else
        var parts := [[s[0]] + rest[0]] + rest[1..];
        assert parts[1..] == rest[1..];
        assert |rest| > 1 ==> Join(parts, c) == [s[0]] + (rest[0] + [c] + Join(rest[1..], c));
        assert [s[0]] + s[1..] == s;
        parts
  }

  lemma {:induction false} SplitAddsNothing(s: string, c: char, x: char)
    requires x !in s
    ensures forall part | part in Split(s, c) :: x !in part
  {
    if s != "" {
      assert s[0] in s;
      SplitAddsNothing(s[1..], c, x);
    }
  }

  /** Splitting is the only inverse of joining parts that carry no separator. */
  lemma {:induction false} SplitJoin(parts: seq<string>, c: char)
    requires |parts| > 0
    requires forall part | part in parts :: c !in part
    ensures Split(Join(parts, c), c) == parts
    decreases |parts|, |parts[0]|
  {
    var s := Join(parts, c);
    var first := parts[0];
    if first == "" {
      if |parts| > 1 {
        assert s == [c] + Join(parts[1..], c);
        assert s[1..] == Join(parts[1..], c);
        SplitJoin(parts[1..], c);
        assert [""] + parts[1..] == parts;
      } else {
        assert parts == [""];
      }
    } else {
      var shorter := [first[1..]] + parts[1..];
      assert first[0] in first;
      assert forall part | part in shorter :: c !in part by {
        forall part | part in shorter ensures c !in part {
          if part == first[1..] {
            assert c !in first;
          } else {
            assert part in parts[1..];
          }
        }
      }
      assert shorter[1..] == parts[1..];
      assert s[1..] == Join(shorter, c);
      SplitJoin(shorter, c);
      assert s[0] == first[0];
      assert [first[0]] + first[1..] == first;
      assert [first] + parts[1..] == parts;
    }
  }

  /** Stripping a text adds no character to it. */
  lemma StripAddsNothing(s: string, c: char)
    requires c !in s
    ensures c !in Strip(s)
  {
    hide LStrip, RStrip;
  }

  // ----- lines ------------------------------------------------------------------------

  /** Where Python's `splitlines` breaks a text. */
  predicate IsBreak(c: char) {
    var n := c as int;
    10 <= n <= 13 || 28 <= n <= 30 || n == 0x85 || n == 0x2028 || n == 0x2029
  }

  predicate NoBreaks(s: string) {
    forall c | c in s :: !IsBreak(c)
  }

  function FirstBreak(s: string): (n: nat)
    ensures n <= |s| && NoBreaks(s[..n]) && (n < |s| ==> IsBreak(s[n]))
  {
    if s == "" || IsBreak(s[0]) then 0
    else
      var n := 1 + FirstBreak(s[1..]);
      assert s[..n] == [s[0]] + s[1..][..n - 1];
      n
  }

  /** The lines of a text, without their breaks; a carriage return and a line feed are one
      break, and a break at the end opens no further line. */
  function SplitLines(s: string): (lines: seq<string>)
    ensures forall line | line in lines :: NoBreaks(line)
  {
    if s == "" then []
    else
      var n := FirstBreak(s);
      if n == |s| then
        assert s[..n] == s;
        [s]
      else [s[..n]] + SplitLines(s[(if s[n] == '\r' && n + 1 < |s| && s[n + 1] == '\n' then n + 2 else n + 1)..])
  }

  /** The text with these lines, each ended by a line feed. */
  function Terminated(lines: seq<string>): string {
    if lines == [] then "" else lines[0] + ['\n'] + Terminated(lines[1..])
  }

  lemma {:induction false} FirstBreakBefore(line: string, rest: string)
    requires NoBreaks(line)
    ensures FirstBreak(line + ['\n'] + rest) == |line|
  {
    if line == "" {
      assert (line + ['\n'] + rest)[0] == '\n';
    } else {
      assert line[0] in line;
      assert (line + ['\n'] + rest)[1..] == line[1..] + ['\n'] + rest;
      FirstBreakBefore(line[1..], rest);
    }
  }

  lemma SplitFirstLine(line: string, rest: string)
    requires NoBreaks(line)
    ensures SplitLines(line + ['\n'] + rest) == [line] + SplitLines(rest)
  {
    var s := line + ['\n'] + rest;
    FirstBreakBefore(line, rest);
    assert s[|line|] == '\n' && s[..|line|] == line && s[|line| + 1..] == rest;
  }

  lemma {:induction false} SplitTerminated(lines: seq<string>)
    requires forall line | line in lines :: NoBreaks(line)
    ensures SplitLines(Terminated(lines)) == lines
  {
    hide SplitLines, NoBreaks;
    if lines == [] {
      NoLines();
    } else {
      assert lines[0] in lines && forall line | line in lines[1..] :: line in lines;
      SplitTerminated(lines[1..]);
      SplitFirstLine(lines[0], Terminated(lines[1..]));
    }
  }

  lemma NoLines()
    ensures SplitLines("") == []
  {
  }
}
