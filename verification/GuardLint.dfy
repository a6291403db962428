/** The guard lint of tools/blink_guard_lint.py: one counter per hunk stands in for the
    stack of open conditionals. */
module GuardLint {
  import opened Text

  // ----- patch lines ----------------------------------------------------------------

  /** An added line: a conditional on an XR-owned macro, any other conditional, an #endif,
      a comment or include, a seam call, or other code. */
  datatype Kind = XrOpen | ForeignOpen | Endif | NonCode | Call | OtherCode

  /** `patchId` is the id a comment on the line names. */
  datatype Line = FileHeader | HunkHeader | NotAdded | Added(patchId: Option<string>, kind: Kind)

  datatype Violation = Unguarded(foreign: bool) | Unnamed | Spanned

  datatype Report = Report(hooks: nat, guarded: nat, violations: seq<Violation>, ids: set<string>, spanned: nat)

  // ----- the scan as a fold ---------------------------------------------------------

  /** What the scan carries from line to line; `depth` is its only notion of nesting. */
  datatype Scan = Scan(inFile: bool, depth: nat, foreign: bool, named: bool, report: Report)

  const START := Scan(false, 0, false, false, Report(0, 0, [], {}, 0))

  function Count(s: Scan, hooks: nat, guarded: nat, found: seq<Violation>): Scan {
    var r := s.report;
    s.(report := r.(hooks := r.hooks + hooks, guarded := r.guarded + guarded, violations := r.violations + found))
  }

  function Span(s: Scan): Scan {
    s.(report := s.report.(spanned := s.report.spanned + 1))
  }

  function Name(s: Scan, patchId: Option<string>): Scan {
    if patchId.None? then s
    else s.(named := true, report := s.report.(ids := s.report.ids + {patchId.value}))
  }

  function AfterAdded(s: Scan, kind: Kind): Scan {
    match kind
    case XrOpen => s.(depth := s.depth + 1)
    case ForeignOpen => s.(foreign := true)
    case Endif => if s.depth == 0 then Span(s) else s.(depth := s.depth - 1)
    case NonCode => s
    case OtherCode => s
    case Call =>
      if s.depth == 0 then Count(s, 1, 0, [Unguarded(s.foreign)])
      else if !s.named then Count(s, 1, 0, [Unnamed])
      else Count(s, 1, 1, [])
  }

  function After(s: Scan, line: Line): Scan {
    match line
    case FileHeader => s.(inFile := true, depth := 0, named := false)
    case HunkHeader => (if s.depth > 0 then Span(s) else s).(depth := 0, foreign := false)
    case NotAdded => s
    case Added(patchId, kind) => if s.inFile then AfterAdded(Name(s, patchId), kind) else s
  }

  function ScanOf(lines: seq<Line>): Scan {
    if lines == [] then START else After(ScanOf(lines[..|lines| - 1]), lines[|lines| - 1])
  }

  /** The report of a finished scan: an open guard at the end, and any spanned guard at all,
      is a violation of its own. */
  function Finish(s: Scan): Report {
    var r := (if s.depth > 0 then Span(s) else s).report;
    if r.spanned > 0 then r.(violations := r.violations + [Spanned]) else r
  }

  method ScanPatch(lines: seq<Line>) returns (r: Report)
    ensures r == Finish(ScanOf(lines))
  {
    var hooks, guarded, spanned, depth := 0, 0, 0, 0;
    var violations: seq<Violation> := [];
    var ids: set<string> := {};
    var inFile, named, foreign := false, false, false;
    var i := 0;
    while i < |lines|
      invariant 0 <= i <= |lines| && 0 <= hooks && 0 <= guarded && 0 <= spanned && 0 <= depth
      invariant ScanOf(lines[..i]) == Scan(inFile, depth, foreign, named, Report(hooks, guarded, violations, ids, spanned))
    {
      var line := lines[i];
      assert lines[..i + 1][..i] == lines[..i];
      i := i + 1;
      if line.FileHeader? {
        inFile, depth, named := true, 0, false;
        continue;
      }
      if line.HunkHeader? {
        if depth > 0 {
          spanned := spanned + 1;
        }
        depth, foreign := 0, false;
        continue;
      }
      if !inFile || line.NotAdded? {
        continue;
      }
      if line.patchId.Some? {
        named := true;
        ids := ids + {line.patchId.value};
      }
      if line.kind == XrOpen {
        depth := depth + 1;
        continue;
      }
      if line.kind == ForeignOpen {
        foreign := true;
        continue;
      }
      if line.kind == Endif {
        if depth == 0 {
          spanned := spanned + 1;
        } else {
          depth := depth - 1;
        }
        continue;
      }
      if line.kind == NonCode {
        continue;
      }
      if line.kind == Call {
        hooks := hooks + 1;
        if depth == 0 {
          violations := violations + [Unguarded(foreign)];
          continue;
        }
        if !named {
          violations := violations + [Unnamed];
          continue;
        }
        guarded := guarded + 1;
      }
    }
    assert lines[..|lines|] == lines;
    if depth > 0 {
      spanned := spanned + 1;
    }
    if spanned > 0 {
      violations := violations + [Spanned];
    }
    r := Report(hooks, guarded, violations, ids, spanned);
  }

  predicate IsHeader(line: Line) {
    line.FileHeader? || line.HunkHeader?
  }

  // ----- the true nesting -----------------------------------------------------------

  datatype Frame = Xr | Foreign

  predicate InFile(lines: seq<Line>) {
    FileHeader in lines
  }

  /** The conditionals open after `lines`, innermost last, as far as the current hunk's added
      lines tell. */
  function Nesting(lines: seq<Line>): seq<Frame> {
    if lines == [] then []
    else NestLine(Nesting(lines[..|lines| - 1]), InFile(lines), lines[|lines| - 1])
  }

  function NestLine(stack: seq<Frame>, inFile: bool, line: Line): seq<Frame> {
    if IsHeader(line) then []
    else if line.Added? && inFile then Nest(stack, line.kind)
    else stack
  }

  function Nest(stack: seq<Frame>, kind: Kind): seq<Frame> {
    match kind
    case XrOpen => stack + [Xr]
    case ForeignOpen => stack + [Foreign]
    case Endif => if stack == [] then [] else stack[..|stack| - 1]
    case NonCode => stack
    case OtherCode => stack
    case Call => stack
  }

  function XrFrames(stack: seq<Frame>): nat {
    if stack == [] then 0 else XrFrames(stack[..|stack| - 1]) + (if stack[|stack| - 1] == Xr then 1 else 0)
  }

  /** A patch id has been named in the current file. */
  predicate Named(lines: seq<Line>) {
    lines != [] &&
    var line := lines[|lines| - 1];
    !line.FileHeader? &&
    ((line.Added? && line.patchId.Some? && InFile(lines)) || Named(lines[..|lines| - 1]))
  }

  lemma {:induction false} ScanTracksFile(lines: seq<Line>)
    ensures ScanOf(lines).inFile == InFile(lines) && ScanOf(lines).named == Named(lines)
  {
    if lines != [] {
      var before, line := lines[..|lines| - 1], lines[|lines| - 1];
      ScanTracksFile(before);
      assert lines == before + [line];
    }
  }

  lemma XrFramesPush(stack: seq<Frame>, f: Frame)
    ensures XrFrames(stack + [f]) == XrFrames(stack) + (if f == Xr then 1 else 0)
  {
    assert (stack + [f])[..|stack|] == stack;
  }

  lemma NestAgainstCounter(s: Scan, kind: Kind, stack: seq<Frame>)
    requires s.depth <= XrFrames(stack)
    ensures AfterAdded(s, kind).depth <= XrFrames(Nest(stack, kind))
  {
    XrFramesPush(stack, Xr);
    XrFramesPush(stack, Foreign);
    if stack != [] {
      XrFramesPop(stack);
    }
    hide XrFrames, Count, Span;
  }

  lemma XrFramesPop(stack: seq<Frame>)
    requires stack != []
    ensures XrFrames(stack) - 1 <= XrFrames(stack[..|stack| - 1]) <= XrFrames(stack)
  {
  }

  lemma NestingStep(before: seq<Line>, line: Line)
    ensures Nesting(before + [line]) == NestLine(Nesting(before), InFile(before), line)
  {
    assert (before + [line])[..|before|] == before;
    assert InFile(before + [line]) <==> InFile(before) || line.FileHeader?;
  }

  lemma ScanStepAfter(before: seq<Line>, line: Line)
    ensures ScanOf(before + [line]) == After(ScanOf(before), line)
  {
    hide After;
    assert (before + [line])[..|before|] == before;
  }

  /** The counter never exceeds the number of XR frames on the real stack, however foreign
      conditionals are interleaved. */
  lemma {:induction false} CounterIsSound(lines: seq<Line>)
    ensures ScanOf(lines).depth <= XrFrames(Nesting(lines))
  {
    if lines != [] {
      hide ScanOf, Nesting, XrFrames, Nest, AfterAdded;
      var before, line := lines[..|lines| - 1], lines[|lines| - 1];
      assert lines == before + [line];
      CounterIsSound(before);
      ScanTracksFile(before);
      ScanStepAfter(before, line);
      NestingStep(before, line);
      if line.Added? && InFile(before) {
        NestAgainstCounter(Name(ScanOf(before), line.patchId), line.kind, Nesting(before));
      }
    }
  }

  /** Without foreign conditionals the counter is the stack height. */
  lemma {:induction false} CounterIsExactWithoutForeign(lines: seq<Line>)
    requires forall l | l in lines :: l.Added? ==> l.kind != ForeignOpen
    ensures ScanOf(lines).depth == |Nesting(lines)|
  {
    if lines != [] {
      var before, line := lines[..|lines| - 1], lines[|lines| - 1];
      assert line in lines && forall l | l in before :: l in lines;
      CounterIsExactWithoutForeign(before);
      ScanTracksFile(before);
      hide ScanOf, Nesting, InFile;
      assert lines == before + [line];
      ScanStepAfter(before, line);
      NestingStep(before, line);
    }
  }

  // ----- what the counts mean -------------------------------------------------------

  predicate IsCall(lines: seq<Line>, i: nat) {
    i < |lines| && lines[i].Added? && lines[i].kind == Call && InFile(lines[..i])
  }

  /** Line `i` lies inside an XR-owned conditional of its hunk. */
  predicate UnderXr(lines: seq<Line>, i: nat)
    requires i < |lines|
  {
    Xr in Nesting(lines[..i])
  }

  /** The lint counts the call at `i` as guarded. */
  predicate CountedGuarded(lines: seq<Line>, i: nat) {
    IsCall(lines, i) && ScanOf(lines[..i]).depth > 0 && Named(lines[..i + 1])
  }

  function Calls(lines: seq<Line>, n: nat): nat
    requires n <= |lines|
  {
    if n == 0 then 0 else Calls(lines, n - 1) + (if IsCall(lines, n - 1) then 1 else 0)
  }

  function GuardedCalls(lines: seq<Line>, n: nat): nat
    requires n <= |lines|
  {
    if n == 0 then 0 else GuardedCalls(lines, n - 1) + (if CountedGuarded(lines, n - 1) then 1 else 0)
  }

  lemma {:induction false} XrFrameIsOpen(stack: seq<Frame>)
    ensures XrFrames(stack) > 0 <==> Xr in stack
  {
    if stack != [] {
      XrFrameIsOpen(stack[..|stack| - 1]);
      assert stack == stack[..|stack| - 1] + [stack[|stack| - 1]];
    }
  }

  /** Every call counted as guarded really is under an XR conditional, with a comment naming
      a patch id before it in the same file. */
  lemma GuardedIsUnderXr(lines: seq<Line>, i: nat)
    requires CountedGuarded(lines, i)
    ensures UnderXr(lines, i) && Named(lines[..i + 1])
  {
    CounterIsSound(lines[..i]);
    XrFrameIsOpen(Nesting(lines[..i]));
  }

  lemma StepCounts(s: Scan, line: Line)
    ensures var t := After(s, line);
      var call := s.inFile && line.Added? && line.kind == Call;
      && t.report.hooks == s.report.hooks + (if call then 1 else 0)
      && t.report.guarded == s.report.guarded + (if call && s.depth > 0 && t.named then 1 else 0)
      && |t.report.violations| - |s.report.violations| == (t.report.hooks - s.report.hooks) - (t.report.guarded - s.report.guarded)
  {
  }

  /** The counters count exactly the calls and the guarded calls, and every other call left
      a violation. */
  lemma {:induction false} CountsAreExact(lines: seq<Line>, n: nat)
    requires n <= |lines|
    ensures var r := ScanOf(lines[..n]).report;
      && r.hooks == Calls(lines, n) && r.guarded == GuardedCalls(lines, n)
      && |r.violations| == r.hooks - r.guarded
    decreases n
  {
    if n > 0 {
      var before, line := lines[..n - 1], lines[n - 1];
      hide After, Named, Nesting;
      CountsAreExact(lines, n - 1);
      ScanTracksFile(before);
      ScanTracksFile(lines[..n]);
      assert lines[..n][..n - 1] == before;
      StepCounts(ScanOf(before), line);
    }
  }

  lemma {:induction false} AllCallsGuarded(lines: seq<Line>, n: nat)
    requires n <= |lines| && Calls(lines, n) == GuardedCalls(lines, n)
    ensures forall i | 0 <= i < n :: IsCall(lines, i) ==> CountedGuarded(lines, i)
  {
    if n > 0 {
      GuardedAtMostCalls(lines, n - 1);
      AllCallsGuarded(lines, n - 1);
    }
  }

  lemma {:induction false} GuardedAtMostCalls(lines: seq<Line>, n: nat)
    requires n <= |lines|
    ensures GuardedCalls(lines, n) <= Calls(lines, n)
  {
    if n > 0 {
      GuardedAtMostCalls(lines, n - 1);
    }
  }

  /** A report without violations: as many hooks as guarded calls, no guard spanned, and
      every call of the patch under an XR conditional and after a comment naming a patch. */
  lemma CleanReportMeansGuarded(lines: seq<Line>)
    requires Finish(ScanOf(lines)).violations == []
    ensures var r := Finish(ScanOf(lines));
      r.hooks == r.guarded == Calls(lines, |lines|) && r.spanned == 0
    ensures forall i | 0 <= i < |lines| :: IsCall(lines, i) ==> UnderXr(lines, i) && Named(lines[..i + 1])
  {
    assert lines[..|lines|] == lines;
    CountsAreExact(lines, |lines|);
    AllCallsGuarded(lines, |lines|);
    forall i | 0 <= i < |lines| && IsCall(lines, i) ensures UnderXr(lines, i) && Named(lines[..i + 1]) {
      GuardedIsUnderXr(lines, i);
    }
  }

  /** For any patch, hooks less guarded is the number of calls reported. */
  lemma ReportAccountsForEveryCall(lines: seq<Line>)
    ensures var r := Finish(ScanOf(lines));
      && r.hooks == Calls(lines, |lines|) && r.guarded == GuardedCalls(lines, |lines|)
      && |r.violations| == r.hooks - r.guarded + (if r.spanned > 0 then 1 else 0)
  {
    assert lines[..|lines|] == lines;
    CountsAreExact(lines, |lines|);
  }

  // ----- when a hunk is called unbalanced -------------------------------------------

  /** Opening minus closing conditionals among the added lines. */
  function Height(body: seq<Line>): int {
    if body == [] then 0
    else
      Height(body[..|body| - 1]) + HeightOf(body[|body| - 1])
  }

  function ForeignOpens(body: seq<Line>): nat {
    if body == [] then 0
    else
      ForeignOpens(body[..|body| - 1]) + ForeignOf(body[|body| - 1])
  }

  /** Lines of one hunk whose conditionals close exactly what they open. */
  ghost predicate BalancedHunk(body: seq<Line>) {
    && (forall l | l in body :: l.Added? || l.NotAdded?)
    && (forall n | 0 <= n <= |body| :: Height(body[..n]) >= 0)
    && Height(body) == 0
  }

  /** Spans counted between two points of the scan. */
  function Spans(pre: seq<Line>, body: seq<Line>): int {
    ScanOf(pre + body).report.spanned - ScanOf(pre).report.spanned
  }

  lemma ScanAppend(pre: seq<Line>, body: seq<Line>)
    requires body != []
    ensures ScanOf(pre + body) == After(ScanOf(pre + body[..|body| - 1]), body[|body| - 1])
  {
    hide ScanOf, After;
    var shorter, line := body[..|body| - 1], body[|body| - 1];
    ScanStepAfter(pre + shorter, line);
    assert pre + body == (pre + shorter) + [line];
  }

  /** The effect of one line of a hunk on the height and on the foreign opens. */
  function HeightOf(line: Line): int {
    if !line.Added? then 0
    else if line.kind == XrOpen || line.kind == ForeignOpen then 1
    else if line.kind == Endif then -1 else 0
  }

  function ForeignOf(line: Line): nat {
    if line.Added? && line.kind == ForeignOpen then 1 else 0
  }

  lemma StepInHunk(s: Scan, line: Line)
    requires s.inFile && (line.Added? || line.NotAdded?)
    ensures var t := After(s, line);
      && t.inFile && t.report.spanned >= s.report.spanned
      && (t.report.spanned == s.report.spanned ==> t.depth == s.depth + HeightOf(line) - ForeignOf(line))
      && (s.depth + HeightOf(line) - ForeignOf(line) >= 0 ==> t.report.spanned == s.report.spanned)
  {
  }

  /** Lines inside one hunk. */
  predicate InHunk(body: seq<Line>) {
    forall l | l in body :: l.Added? || l.NotAdded?
  }

  /** XR opens minus closing lines: an #endif counts whatever it closes. */
  function XrHeight(body: seq<Line>): int {
    if body == [] then 0
    else
      XrHeight(body[..|body| - 1]) + HeightOf(body[|body| - 1]) - ForeignOf(body[|body| - 1])
  }

  /** No #endif of the body comes when every XR conditional has been given back. */
  predicate NeverShort(body: seq<Line>) {
    forall n | 0 <= n <= |body| :: XrHeight(body[..n]) >= 0
  }

  lemma NeverShortStep(body: seq<Line>)
    requires body != []
    ensures NeverShort(body) <==> NeverShort(body[..|body| - 1]) && XrHeight(body) >= 0
  {
    hide XrHeight;
    var m := |body| - 1;
    forall n: nat | n <= m ensures body[..m][..n] == body[..n] {
      PrefixOfPrefix(body, m, n);
    }
    assert body[..|body|] == body;
    if NeverShort(body[..m]) && XrHeight(body) >= 0 {
      forall n | 0 <= n <= |body| ensures XrHeight(body[..n]) >= 0 {
        assert n <= m ==> XrHeight(body[..m][..n]) >= 0;
      }
    }
    if NeverShort(body) {
      forall n | 0 <= n <= m ensures XrHeight(body[..m][..n]) >= 0 {
        assert XrHeight(body[..n]) >= 0;
      }
    }
  }

  lemma PrefixOfPrefix(body: seq<Line>, m: nat, n: nat)
    requires n <= m <= |body|
    ensures body[..m][..n] == body[..n]
  {
  }

  /** The lines of a hunk count as spanning exactly when some #endif finds no XR conditional
      open; while none does, the counter is the number of XR opens less the #endifs. */
  lemma {:induction false} HunkSpansExactly(pre: seq<Line>, body: seq<Line>)
    requires InFile(pre) && ScanOf(pre).depth == 0 && InHunk(body)
    ensures Spans(pre, body) >= 0 && ScanOf(pre + body).inFile
    ensures Spans(pre, body) == 0 <==> NeverShort(body)
    ensures Spans(pre, body) == 0 ==> ScanOf(pre + body).depth == XrHeight(body)
  {
    if body == [] {
      assert pre + body == pre;
      ScanTracksFile(pre);
    } else {
      hide After, HeightOf, ForeignOf, ScanOf, NeverShort;
      var shorter, line := body[..|body| - 1], body[|body| - 1];
      assert line in body && forall l | l in shorter :: l in body;
      HunkSpansExactly(pre, shorter);
      ScanAppend(pre, body);
      StepInHunk(ScanOf(pre + shorter), line);
      NeverShortStep(body);
    }
  }

  lemma {:induction false} HeightParts(body: seq<Line>)
    ensures Height(body) == XrHeight(body) + ForeignOpens(body)
  {
    if body != [] {
      HeightParts(body[..|body| - 1]);
    }
  }

  /** A hunk that does not span is balanced exactly when it opens no foreign conditional and
      closes every XR one. */
  lemma UnspannedIsBalancedExactly(body: seq<Line>)
    requires InHunk(body) && NeverShort(body)
    ensures BalancedHunk(body) <==> ForeignOpens(body) == 0 && XrHeight(body) == 0
  {
    hide Height, XrHeight, ForeignOpens;
    assert body[..|body|] == body;
    HeightParts(body);
    forall n | 0 <= n <= |body| ensures Height(body[..n]) >= 0 {
      HeightParts(body[..n]);
    }
  }

  lemma {:induction false} NoForeignAnywhere(body: seq<Line>, n: nat)
    requires n <= |body| && ForeignOpens(body) == 0
    ensures ForeignOpens(body[..n]) == 0
  {
    if n < |body| {
      var shorter := body[..|body| - 1];
      assert shorter[..n] == body[..n];
      NoForeignAnywhere(shorter, n);
    } else {
      assert body[..n] == body;
    }
  }

  /** A balanced hunk is reported as spanning its boundary exactly when it opens a foreign
      conditional: the counter has no frame to give that conditional's #endif back to. */
  lemma BalancedHunkSpansIffForeign(pre: seq<Line>, body: seq<Line>)
    requires InFile(pre) && ScanOf(pre).depth == 0 && BalancedHunk(body)
    ensures Spans(pre, body) == 0 && ScanOf(pre + body).depth == 0 <==> ForeignOpens(body) == 0
  {
    hide ScanOf, Height, XrHeight, ForeignOpens;
    HunkSpansExactly(pre, body);
    HeightParts(body);
    if ForeignOpens(body) == 0 {
      forall n | 0 <= n <= |body| ensures XrHeight(body[..n]) >= 0 {
        NoForeignAnywhere(body, n);
        HeightParts(body[..n]);
      }
    }
  }

  // ----- when a whole patch is called balanced ----------------------------------------

  /** What ends a stretch of added lines. */
  datatype Ending = ByHunk | ByFile | ByEnd

  datatype Hunk = Hunk(body: seq<Line>, end: Ending)

  /** The lines since the last header, once a file has begun. */
  function Open(lines: seq<Line>): seq<Line> {
    if lines == [] || IsHeader(lines[|lines| - 1]) || !InFile(lines) then []
    else Open(lines[..|lines| - 1]) + [lines[|lines| - 1]]
  }

  /** The stretches that a header has ended. */
  function Closed(lines: seq<Line>): seq<Hunk> {
    if lines == [] then []
    else
      var before, line := lines[..|lines| - 1], lines[|lines| - 1];
      if IsHeader(line) && InFile(before)
      then Closed(before) + [Hunk(Open(before), if line.HunkHeader? then ByHunk else ByFile)]
      else Closed(before)
  }

  function Hunks(lines: seq<Line>): seq<Hunk> {
    if InFile(lines) then Closed(lines) + [Hunk(Open(lines), ByEnd)] else []
  }

  /** The stretches as they stand in the patch, each with the header that ends it. */
  function Shown(hunks: seq<Hunk>): seq<Line> {
    if hunks == [] then []
    else
      var last := hunks[|hunks| - 1];
      Shown(hunks[..|hunks| - 1]) + last.body +
      (match last.end case ByHunk => [HunkHeader] case ByFile => [FileHeader] case ByEnd => [])
  }

  lemma ShownSnoc(hunks: seq<Hunk>, h: Hunk)
    ensures Shown(hunks + [h]) == Shown(hunks) + h.body +
              (match h.end case ByHunk => [HunkHeader] case ByFile => [FileHeader] case ByEnd => [])
  {
    assert (hunks + [h])[..|hunks|] == hunks;
  }

  lemma OpenStep(before: seq<Line>, line: Line)
    ensures Open(before + [line]) == if IsHeader(line) || !InFile(before) then [] else Open(before) + [line]
    ensures Closed(before + [line]) ==
              if IsHeader(line) && InFile(before)
              then Closed(before) + [Hunk(Open(before), if line.HunkHeader? then ByHunk else ByFile)]
              else Closed(before)
  {
    var lines := before + [line];
    assert lines[..|lines| - 1] == before && lines[|lines| - 1] == line;
    assert InFile(lines) <==> InFile(before) || line.FileHeader?;
  }

  /** The stretches are the patch from its first file header on, cut at the headers. */
  lemma {:induction false} HunksCoverThePatch(lines: seq<Line>) returns (pre: seq<Line>)
    requires InFile(lines)
    ensures !InFile(pre) && lines == pre + [FileHeader] + Shown(Hunks(lines))
    ensures forall h | h in Hunks(lines) :: InHunk(h.body)
  {
    hide Open, Closed, Shown;
    var before, line := lines[..|lines| - 1], lines[|lines| - 1];
    assert lines == before + [line];
    OpenStep(before, line);
    ShownSnoc(Closed(lines), Hunk(Open(lines), ByEnd));
    if InFile(before) {
      pre := HunksCoverThePatch(before);
      EarlierHunksStay(before, line);
      OneMoreLineShown(before, line);
      Regroup(pre + [FileHeader], Shown(Hunks(before)), [line]);
    } else {
      pre := before;
      NothingClosed(before);
      NothingShown();
    }
  }

  lemma Regroup(a: seq<Line>, b: seq<Line>, c: seq<Line>)
    ensures (a + b) + c == a + (b + c)
  {
  }

  lemma OneMoreLineShown(before: seq<Line>, line: Line)
    requires InFile(before)
    ensures Shown(Hunks(before + [line])) == Shown(Hunks(before)) + [line]
  {
    hide Open, Closed, Shown;
    var closed, open := Closed(before), Open(before);
    OpenStep(before, line);
    assert InFile(before + [line]);
    ShownSnoc(closed, Hunk(open, ByEnd));
    if IsHeader(line) {
      var ended := Hunk(open, if line.HunkHeader? then ByHunk else ByFile);
      ShownSnoc(closed, ended);
      ShownSnoc(closed + [ended], Hunk([], ByEnd));
    } else {
      ShownSnoc(closed, Hunk(open + [line], ByEnd));
      Regroup(Shown(closed), open, [line]);
    }
  }

  lemma NothingShown()
    ensures Shown([]) == []
  {
  }

  lemma {:induction false} NothingClosed(lines: seq<Line>)
    requires !InFile(lines)
    ensures Closed(lines) == [] && Open(lines) == []
  {
    if lines != [] {
      assert lines[|lines| - 1] in lines && forall l | l in lines[..|lines| - 1] :: l in lines;
      NothingClosed(lines[..|lines| - 1]);
    }
  }

  lemma EarlierHunksStay(before: seq<Line>, line: Line)
    requires InFile(before) && forall h | h in Hunks(before) :: InHunk(h.body)
    ensures forall h | h in Hunks(before + [line]) :: InHunk(h.body)
  {
    hide Open, Closed;
    OpenStep(before, line);
    var open := Hunk(Open(before), ByEnd);
    assert open in Hunks(before);
    forall h | h in Closed(before) ensures InHunk(h.body) {
      assert h in Hunks(before);
    }
  }

  /** A stretch counts as unspanned: no #endif is short of an XR conditional, and none is left
      open, except before a file header, which forgets it. */
  predicate Unspanned(h: Hunk) {
    NeverShort(h.body) && (!h.end.ByFile? ==> XrHeight(h.body) == 0)
  }

  predicate AllUnspanned(hunks: seq<Hunk>) {
    forall h | h in hunks :: Unspanned(h)
  }

  lemma OneMoreUnspanned(hunks: seq<Hunk>, h: Hunk)
    ensures AllUnspanned(hunks + [h]) <==> AllUnspanned(hunks) && Unspanned(h)
  {
    hide Unspanned;
    assert h in hunks + [h];
    assert forall g | g in hunks :: g in hunks + [h];
  }

  /** What the scan knows while it goes on. */
  ghost predicate ScanMatches(lines: seq<Line>) {
    var s := ScanOf(lines);
    && (s.report.spanned == 0 <==> AllUnspanned(Closed(lines)) && NeverShort(Open(lines)))
    && (s.report.spanned == 0 ==> s.depth == XrHeight(Open(lines)))
  }

  lemma AfterHeader(s: Scan, line: Line)
    requires IsHeader(line)
    ensures After(s, line).depth == 0
    ensures After(s, line).report.spanned == s.report.spanned + if line.HunkHeader? && s.depth > 0 then 1 else 0
  {
  }

  lemma NothingIsNeverShort()
    ensures NeverShort([]) && XrHeight([]) == 0
  {
  }

  lemma MatchesAfterHeader(before: seq<Line>, line: Line)
    requires ScanMatches(before) && IsHeader(line) && InFile(before)
    ensures ScanMatches(before + [line])
  {
    hide ScanOf, Open, Closed, After, NeverShort, XrHeight;
    var closed := Hunk(Open(before), if line.HunkHeader? then ByHunk else ByFile);
    OpenStep(before, line);
    ScanStepAfter(before, line);
    AfterHeader(ScanOf(before), line);
    NothingIsNeverShort();
    OneMoreUnspanned(Closed(before), closed);
    if NeverShort(Open(before)) {
      HeightOfWhole(Open(before));
    }
    hide AllUnspanned;
  }

  lemma HeightOfWhole(body: seq<Line>)
    requires NeverShort(body)
    ensures XrHeight(body) >= 0
  {
    assert body[..|body|] == body;
  }

  lemma MatchesAfterLine(before: seq<Line>, line: Line)
    requires ScanMatches(before) && !IsHeader(line) && InFile(before)
    ensures ScanMatches(before + [line])
  {
    hide ScanOf, Open, Closed, After, NeverShort, HeightOf, ForeignOf;
    ScanTracksFile(before);
    OpenStep(before, line);
    ScanStepAfter(before, line);
    StepInHunk(ScanOf(before), line);
    var body := Open(before) + [line];
    assert body[..|body| - 1] == Open(before);
    NeverShortStep(body);
    if NeverShort(Open(before)) {
      HeightOfWhole(Open(before));
    }
  }

  lemma {:induction false} NothingSpansOutsideFiles(lines: seq<Line>)
    requires !InFile(lines)
    ensures ScanOf(lines).depth == 0 && ScanOf(lines).report.spanned == 0
  {
    if lines != [] {
      var before, line := lines[..|lines| - 1], lines[|lines| - 1];
      assert line in lines && forall l | l in before :: l in lines;
      NothingSpansOutsideFiles(before);
      ScanTracksFile(before);
    }
  }

  lemma {:induction false} ScanAlwaysMatches(lines: seq<Line>)
    ensures ScanMatches(lines)
  {
    hide ScanMatches;
    if !InFile(lines) {
      MatchesOutsideFiles(lines);
    } else {
      var before, line := lines[..|lines| - 1], lines[|lines| - 1];
      assert lines == before + [line];
      ScanAlwaysMatches(before);
      if !InFile(before) {
        MatchesAtFirstFile(before, line);
      } else if IsHeader(line) {
        MatchesAfterHeader(before, line);
      } else {
        MatchesAfterLine(before, line);
      }
    }
  }

  lemma MatchesOutsideFiles(lines: seq<Line>)
    requires !InFile(lines)
    ensures ScanMatches(lines)
  {
    NothingSpansOutsideFiles(lines);
    NothingClosed(lines);
    NothingIsNeverShort();
  }

  lemma MatchesAtFirstFile(before: seq<Line>, line: Line)
    requires !InFile(before) && line.FileHeader?
    ensures ScanMatches(before + [line])
  {
    hide ScanOf, Open, Closed;
    NothingSpansOutsideFiles(before);
    NothingClosed(before);
    NothingIsNeverShort();
    OpenStep(before, line);
    ScanStepAfter(before, line);
  }

  /** A patch is reported as spanning exactly when one of its stretches is not unspanned. */
  lemma PatchSpansExactly(lines: seq<Line>)
    ensures Finish(ScanOf(lines)).spanned == 0 <==> AllUnspanned(Hunks(lines))
  {
    hide ScanOf, Open, Closed, NeverShort, XrHeight, AllUnspanned;
    ScanAlwaysMatches(lines);
    if InFile(lines) {
      var open := Hunk(Open(lines), ByEnd);
      OneMoreUnspanned(Closed(lines), open);
      if NeverShort(Open(lines)) {
        HeightOfWhole(Open(lines));
      }
    } else {
      NothingSpansOutsideFiles(lines);
      NothingSpans();
    }
  }

  lemma NothingSpans()
    ensures AllUnspanned([])
  {
  }

  /** What a clean report says about balance: every stretch is balanced exactly when none
      opens a foreign conditional and none that a file header ends leaves an XR one open. */
  lemma CleanReportBalancesExactly(lines: seq<Line>)
    requires InFile(lines) && Finish(ScanOf(lines)).violations == []
    ensures (forall h | h in Hunks(lines) :: BalancedHunk(h.body)) <==>
              forall h | h in Hunks(lines) :: ForeignOpens(h.body) == 0 && (h.end.ByFile? ==> XrHeight(h.body) == 0)
  {
    ReportAccountsForEveryCall(lines);
    GuardedAtMostCalls(lines, |lines|);
    hide ScanOf, Hunks, BalancedHunk, ForeignOpens, XrHeight, NeverShort;
    PatchSpansExactly(lines);
    var _ := HunksCoverThePatch(lines);
    forall h | h in Hunks(lines)
      ensures BalancedHunk(h.body) <==> ForeignOpens(h.body) == 0 && (h.end.ByFile? ==> XrHeight(h.body) == 0)
    {
      assert Unspanned(h);
      UnspannedIsBalancedExactly(h.body);
    }
  }

  /** A file header forgets an open guard without counting it: any patch text without findings
      so far that ends inside an XR conditional is reported when the patch ends there, and not
      when another file begins. */
  lemma FileHeaderForgetsAnOpenGuard(lines: seq<Line>)
    requires ScanOf(lines).report.violations == [] && ScanOf(lines).report.spanned == 0 && ScanOf(lines).depth > 0
    ensures Xr in Nesting(lines) && Finish(ScanOf(lines)).violations == [Spanned]
    ensures Finish(ScanOf(lines + [FileHeader])).violations == []
  {
    CounterIsSound(lines);
    XrFrameIsOpen(Nesting(lines));
    hide ScanOf, Nesting;
    ScanStepAfter(lines, FileHeader);
  }

  /** Such a patch: a guarded call, and the guard left open before the next file. */
  lemma OpenGuardExample(lines: seq<Line>)
    requires lines == [FileHeader, HunkHeader, Added(Some("0300"), XrOpen), Added(None, Call)]
    ensures Finish(ScanOf(lines + [FileHeader])).violations == [] && Finish(ScanOf(lines + [FileHeader])).hooks == 1
    ensures Nesting(lines) == [Xr]
  {
    hide ScanOf, Nesting;
    Begins(lines);
    ScanStep(lines, 0);
    ScanStep(lines, 1);
    ScanStep(lines, 2);
    ScanStep(lines, 3);
    assert lines[..4] == lines;
    FileHeaderForgetsAnOpenGuard(lines);
    ScanStepAfter(lines, FileHeader);
  }

  lemma {:induction false} NestingHeight(pre: seq<Line>, body: seq<Line>)
    requires InFile(pre) && Nesting(pre) == [] && InHunk(body)
    requires forall n | 0 <= n <= |body| :: Height(body[..n]) >= 0
    ensures |Nesting(pre + body)| == Height(body)
  {
    if body == [] {
      assert pre + body == pre;
    } else {
      var shorter, line := body[..|body| - 1], body[|body| - 1];
      assert line in body && forall l | l in shorter :: l in body;
      assert forall n | 0 <= n <= |shorter| :: shorter[..n] == body[..n];
      assert body[..|body|] == body;
      NestingHeight(pre, shorter);
      assert pre + body == (pre + shorter) + [line];
      assert InFile(pre + shorter);
      hide Nesting;
      NestingStep(pre + shorter, line);
    }
  }

  /** A foreign conditional left open is never seen: an XR conditional's own #endif may be
      spent on it, and the hunk ends with the counter at zero and conditionals still open. */
  lemma ForeignLeftOpenIsNotSeen(pre: seq<Line>, body: seq<Line>)
    requires InFile(pre) && Nesting(pre) == [] && InHunk(body)
    requires NeverShort(body) && XrHeight(body) == 0 && ForeignOpens(body) > 0
    ensures Spans(pre, body) == 0 && ScanOf(pre + body).depth == 0
    ensures |Nesting(pre + body)| == ForeignOpens(body)
  {
    CounterIsSound(pre);
    hide ScanOf, Nesting, Height, XrHeight, ForeignOpens;
    HunkSpansExactly(pre, body);
    forall n | 0 <= n <= |body| ensures Height(body[..n]) >= 0 {
      HeightParts(body[..n]);
    }
    HeightParts(body);
    NestingHeight(pre, body);
  }

  lemma Begins(lines: seq<Line>)
    ensures ScanOf(lines[..0]) == START && Nesting(lines[..0]) == []
  {
  }

  lemma ScanStep(lines: seq<Line>, n: nat)
    requires n < |lines|
    ensures ScanOf(lines[..n + 1]) == After(ScanOf(lines[..n]), lines[n])
    ensures Nesting(lines[..n + 1]) == NestLine(Nesting(lines[..n]), InFile(lines[..n + 1]), lines[n])
  {
    assert lines[..n + 1][..n] == lines[..n];
  }

  // ----- all patches ----------------------------------------------------------------

  /** A blink-seams patch: the numeric prefix of its id, and its lines. */
  datatype Patch = Patch(number: string, lines: seq<Line>)

  datatype Finding = InPatch(number: string, violation: Violation) | ZeroCalls(number: string) | OwnIdMissing(number: string)

  /** The lint has nothing to say about the patch. */
  predicate Accepted(p: Patch) {
    var r := Finish(ScanOf(p.lines));
    r.violations == [] && r.hooks > 0 && p.number in r.ids
  }

  // ----- acceptance in terms of the lines alone ---------------------------------------

  /** A comment on an added line before or at `i` names a patch, in the same file. */
  predicate NamedBefore(lines: seq<Line>, i: nat)
    requires i < |lines|
  {
    exists j | 0 <= j <= i ::
      && lines[j].Added? && lines[j].patchId.Some? && FileHeader in lines[..j]
      && forall k | j < k <= i :: !lines[k].FileHeader?
  }

  lemma {:induction false} NamedMeans(lines: seq<Line>, i: nat)
    requires i < |lines|
    ensures Named(lines[..i + 1]) <==> NamedBefore(lines, i)
  {
    var upTo, line := lines[..i + 1], lines[i];
    assert upTo[..i] == lines[..i];
    assert upTo == lines[..i] + [line];
    if line.Added? {
      assert InFile(upTo) <==> FileHeader in lines[..i];
    }
    if i > 0 {
      NamedMeans(lines, i - 1);
      assert lines[..i - 1 + 1] == lines[..i];
      NamedStep(lines, i);
    }
  }

  lemma NamedStep(lines: seq<Line>, i: nat)
    requires 0 < i < |lines|
    ensures NamedBefore(lines, i) <==>
              !lines[i].FileHeader? &&
              ((lines[i].Added? && lines[i].patchId.Some? && FileHeader in lines[..i]) || NamedBefore(lines, i - 1))
  {
    if NamedBefore(lines, i) {
      var j :| 0 <= j <= i && lines[j].Added? && lines[j].patchId.Some? && FileHeader in lines[..j]
               && forall k | j < k <= i :: !lines[k].FileHeader?;
      assert !lines[i].FileHeader?;
    }
  }

  /** The ids that comments on added lines of the patch's files name. */
  ghost predicate IdNamed(lines: seq<Line>, id: string) {
    exists i | 0 <= i < |lines| :: lines[i].Added? && lines[i].patchId == Some(id) && FileHeader in lines[..i]
  }

  lemma IdNamedStep(before: seq<Line>, line: Line, id: string)
    ensures IdNamed(before + [line], id) <==>
              IdNamed(before, id) || (line.Added? && line.patchId == Some(id) && FileHeader in before)
  {
    var lines := before + [line];
    assert lines[..|before|] == before;
    forall i | 0 <= i < |before| ensures lines[..i] == before[..i] && lines[i] == before[i] {
    }
  }

  lemma IdsStep(s: Scan, line: Line)
    ensures forall id :: id in After(s, line).report.ids <==>
              id in s.report.ids || (line.Added? && line.patchId == Some(id) && s.inFile)
  {
  }

  /** The reported ids are exactly the named ones. */
  lemma {:induction false} IdsAreNamed(lines: seq<Line>)
    ensures forall id :: id in ScanOf(lines).report.ids <==> IdNamed(lines, id)
  {
    if lines != [] {
      var before, line := lines[..|lines| - 1], lines[|lines| - 1];
      assert lines == before + [line];
      IdsAreNamed(before);
      ScanTracksFile(before);
      ScanStepAfter(before, line);
      IdsStep(ScanOf(before), line);
      hide ScanOf, IdNamed, After;
      forall id ensures id in ScanOf(lines).report.ids <==> IdNamed(lines, id) {
        IdNamedStep(before, line, id);
      }
    }
  }

  /** More XR conditionals were opened than conditionals closed since the last header. */
  predicate XrOpenAt(lines: seq<Line>, i: nat)
    requires i < |lines|
  {
    XrHeight(Open(lines[..i])) > 0
  }

  lemma {:induction false} SpansNeverGoDown(lines: seq<Line>, n: nat)
    requires n <= |lines|
    ensures ScanOf(lines[..n]).report.spanned <= ScanOf(lines).report.spanned
  {
    if n < |lines| {
      hide After;
      var before := lines[..|lines| - 1];
      assert before[..n] == lines[..n];
      SpansNeverGoDown(before, n);
      SpansStep(ScanOf(before), lines[|lines| - 1]);
    } else {
      assert lines[..n] == lines;
    }
  }

  lemma SpansStep(s: Scan, line: Line)
    ensures s.report.spanned <= After(s, line).report.spanned
  {
  }

  lemma CountedExactly(lines: seq<Line>, i: nat)
    requires i < |lines| && ScanOf(lines).report.spanned == 0
    ensures CountedGuarded(lines, i) <==> IsCall(lines, i) && XrOpenAt(lines, i) && NamedBefore(lines, i)
  {
    hide ScanOf, NamedBefore, Named, Open, XrHeight;
    SpansNeverGoDown(lines, i);
    ScanAlwaysMatches(lines[..i]);
    NamedMeans(lines, i);
  }

  lemma {:induction false} AllCounted(lines: seq<Line>, n: nat)
    requires n <= |lines|
    ensures Calls(lines, n) == GuardedCalls(lines, n) <==>
              forall i | 0 <= i < n :: IsCall(lines, i) ==> CountedGuarded(lines, i)
    ensures Calls(lines, n) > 0 <==> exists i | 0 <= i < n :: IsCall(lines, i)
  {
    hide IsCall, CountedGuarded;
    if n > 0 {
      GuardedAtMostCalls(lines, n - 1);
      AllCounted(lines, n - 1);
      GuardedIsCall(lines, n - 1);
    }
  }

  lemma GuardedIsCall(lines: seq<Line>, i: nat)
    ensures CountedGuarded(lines, i) ==> IsCall(lines, i)
  {
  }

  /** When the lint accepts a patch, in terms of its lines alone: it has a call and a comment
      that names its own id; no stretch is short of an #endif's conditional or leaves an XR one
      open before a hunk header or the end; and every call stands where more XR conditionals
      were opened than closed, behind a comment that names a patch in the file. */
  lemma AcceptedExactly(p: Patch)
    ensures Accepted(p) <==>
              && (exists i | 0 <= i < |p.lines| :: IsCall(p.lines, i))
              && IdNamed(p.lines, p.number)
              && AllUnspanned(Hunks(p.lines))
              && (forall i | 0 <= i < |p.lines| && IsCall(p.lines, i) :: XrOpenAt(p.lines, i) && NamedBefore(p.lines, i))
  {
    var lines := p.lines;
    ReportAccountsForEveryCall(lines);
    PatchSpansExactly(lines);
    IdsAreNamed(lines);
    AllCounted(lines, |lines|);
    GuardedAtMostCalls(lines, |lines|);
    FinishKeeps(ScanOf(lines));
    hide ScanOf, Finish, IsCall, CountedGuarded, XrOpenAt, NamedBefore, IdNamed, AllUnspanned, Hunks, Calls, GuardedCalls;
    if Finish(ScanOf(lines)).spanned == 0 {
      forall i | 0 <= i < |lines|
        ensures CountedGuarded(lines, i) <==> IsCall(lines, i) && XrOpenAt(lines, i) && NamedBefore(lines, i)
      {
        CountedExactly(lines, i);
      }
    }
  }

  lemma FinishKeeps(s: Scan)
    ensures Finish(s).ids == s.report.ids && Finish(s).spanned >= s.report.spanned
    ensures Finish(s).spanned > 0 ==> Finish(s).violations != []
  {
  }

  method Check(patches: seq<Patch>) returns (fails: seq<Finding>, hooks: nat, guarded: nat)
    ensures fails == [] <==> forall p | p in patches :: Accepted(p)
    ensures guarded <= hooks
    ensures fails == [] ==> hooks == guarded
    ensures fails == [] ==> forall p, i | p in patches && 0 <= i < |p.lines| ::
      IsCall(p.lines, i) ==> UnderXr(p.lines, i) && Named(p.lines[..i + 1])
  {
    hide ScanOf, Finish, IsCall, UnderXr, Named;
    fails, hooks, guarded := [], 0, 0;
    for k := 0 to |patches|
      invariant fails == [] <==> forall j | 0 <= j < k :: Accepted(patches[j])
      invariant guarded <= hooks && (fails == [] ==> hooks == guarded)
    {
      var p := patches[k];
      var r := ScanPatch(p.lines);
      ReportAccountsForEveryCall(p.lines);
      GuardedAtMostCalls(p.lines, |p.lines|);
      hooks := hooks + r.hooks;
      guarded := guarded + r.guarded;
      for v := 0 to |r.violations|
        invariant fails == [] <==> v == 0 && forall j | 0 <= j < k :: Accepted(patches[j])
      {
        fails := fails + [InPatch(p.number, r.violations[v])];
      }
      if r.hooks == 0 {
        fails := fails + [ZeroCalls(p.number)];
      }
      if p.number !in r.ids {
        fails := fails + [OwnIdMissing(p.number)];
      }
    }
    if fails == [] {
      forall p | p in patches ensures Finish(ScanOf(p.lines)).violations == [] {
        assert Accepted(p);
      }
      forall p, i | p in patches && 0 <= i < |p.lines| && IsCall(p.lines, i)
        ensures UnderXr(p.lines, i) && Named(p.lines[..i + 1])
      {
        CleanReportMeansGuarded(p.lines);
      }
    }
  }
}
