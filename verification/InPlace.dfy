/** Mode-preserving in-place rewrites (tools/inplace.py): one call against a file system
    that may fail at any step, and any number of calls racing on one path. */
module InPlace {
  import opened Text

  datatype File = File(content: string, mode: nat)

  const DEFAULT_MODE: nat := 0x1A4  // 0o644
  const TEMP_MODE: nat := 0x180     // 0o600, what mkstemp creates

  // ----- one call -------------------------------------------------------------------

  /** Whether the system call `n` steps ahead fails; beyond the list none does. */
  predicate FailsAt(failures: seq<bool>, n: nat) {
    n < |failures| && failures[n]
  }

  function Behind(failures: seq<bool>): seq<bool> {
    if failures == [] then [] else failures[1..]
  }

  /** The files of one directory, and which of the coming system calls fail; a failing write
      may leave any prefix of the text behind. */
  class Directory {
    var files: map<string, File>
    var failures: seq<bool>

    constructor (files: map<string, File>, failures: seq<bool>)
      ensures this.files == files && this.failures == failures
    {
      this.files, this.failures := files, failures;
    }

    /** One system call: does it succeed? */
    method Attempt() returns (ok: bool)
      modifies this`failures
      ensures ok <==> !FailsAt(old(failures), 0)
      ensures failures == Behind(old(failures))
    {
      ok := failures == [] || !failures[0];
      failures := if failures == [] then [] else failures[1..];
    }

    method Write(name: string, text: string) returns (ok: bool)
      requires name in files
      modifies this
      ensures files.Keys == old(files).Keys
      ensures forall other | other in files && other != name :: files[other] == old(files)[other]
      ensures files[name].mode == old(files)[name].mode && files[name].content <= text
      ensures ok ==> files[name].content == text
      ensures (ok <==> !FailsAt(old(failures), 0)) && failures == Behind(old(failures))
    {
      ok := Attempt();
      var n: int := *;
      var got := if !ok && 0 <= n < |text| then text[..n] else text;
      files := files[name := files[name].(content := got)];
    }

    method Chmod(name: string, mode: nat) returns (ok: bool)
      requires name in files
      modifies this
      ensures files == if ok then old(files)[name := old(files)[name].(mode := mode)] else old(files)
      ensures (ok <==> !FailsAt(old(failures), 0)) && failures == Behind(old(failures))
    {
      ok := Attempt();
      if ok {
        files := files[name := files[name].(mode := mode)];
      }
    }

    /** POSIX rename: atomic, and the mode travels with the file that is moved. */
    method Replace(from: string, to: string) returns (ok: bool)
      requires from in files && from != to
      modifies this
      ensures files == if ok then (old(files) - {from})[to := old(files)[from]] else old(files)
      ensures (ok <==> !FailsAt(old(failures), 0)) && failures == Behind(old(failures))
    {
      ok := Attempt();
      if ok {
        var file := files[from];
        files := (files - {from})[to := file];
      }
    }

    method Unlink(name: string) returns (ok: bool)
      modifies this
      ensures files == if ok then old(files) - {name} else old(files)
      ensures (ok <==> !FailsAt(old(failures), 0)) && failures == Behind(old(failures))
    {
      ok := Attempt();
      if ok {
        files := files - {name};
      }
    }

    /** `temp` is the unused name mkstemp picked, or None when it failed. The call succeeds
        exactly when mkstemp, the write, the chmod and the rename do: it publishes exactly the
        text, under the given mode, else the mode the file had, else the default, and says
        which. A failed call changes nothing but the temporary file, and that one is left
        exactly when removing it failed too. */
    method RewriteInPlace(path: string, text: string, mode: Option<nat>, temp: Option<string>)
      returns (published: Option<nat>, left: Option<string>)
      requires temp.Some? ==> temp.value !in files && temp.value != path
      modifies this
      ensures published.Some? <==>
        temp.Some? && !FailsAt(old(failures), 0) && !FailsAt(old(failures), 1) && !FailsAt(old(failures), 2)
      ensures published.Some? ==>
        && left == None
        && files == old(files)[path := File(text, published.value)]
        && published.value == (if mode.Some? then mode.value
                               else if path in old(files) then old(files)[path].mode else 0x1A4)
      ensures published.None? && left.None? ==> files == old(files)
      ensures left.Some? ==> left == temp && left.value in files && files - {left.value} == old(files)
      ensures left.Some? <==>
        && temp.Some?
        && (|| (FailsAt(old(failures), 0) && FailsAt(old(failures), 1))
            || (!FailsAt(old(failures), 0) && FailsAt(old(failures), 1) && FailsAt(old(failures), 2))
            || (!FailsAt(old(failures), 0) && !FailsAt(old(failures), 1) && FailsAt(old(failures), 2) && FailsAt(old(failures), 3)))
    {
      var outMode := if mode.Some? then mode.value
                     else if path in files then files[path].mode else DEFAULT_MODE;
      if temp.None? {
        return None, None;
      }
      var name := temp.value;
      ghost var ahead, done := failures, 0;
      files := files[name := File("", TEMP_MODE)];
      var ok := Write(name, text);
      if ok {
        ok := Chmod(name, outMode);
        done := 1;
      }
      if ok {
        ok := Replace(name, path);
        done := 2;
      }
      if !ok {
        assert files - {name} == old(files);
        assert FailsAt(ahead, done);
        var removed := Unlink(name);
        assert removed <==> !FailsAt(ahead, done + 1);
        return None, if removed then None else temp;
      }
      assert files == old(files)[path := File(text, outMode)];
      return Some(outMode), None;
    }

    /** The defect shape: remove, then open and write afresh with the ambient mode. A call of
        which no step fails has lost the target's mode; a failed one may have removed the
        target, or left any part of the text in its place. */
    method NaiveRewrite(path: string, text: string, umaskMode: nat) returns (ok: bool)
      modifies this
      ensures var steps := if path in old(files) then 3 else 2;
              ok <==> forall n | 0 <= n < steps :: !FailsAt(old(failures), n)
      ensures ok ==> files == old(files)[path := File(text, umaskMode)]
      ensures !ok ==>
        || files == old(files)
        || files == old(files) - {path}
        || exists got :: got <= text && files == old(files)[path := File(got, umaskMode)]
    {
      ghost var ahead := failures;
      if path in files {
        ok := Unlink(path);
        if !ok {
          return;
        }
      }
      ghost var first := if path in old(files) then 1 else 0;
      ok := Attempt();
      assert ok <==> !FailsAt(ahead, first);
      if !ok {
        return;
      }
      files := files[path := File("", umaskMode)];
      ok := Attempt();
      assert ok <==> !FailsAt(ahead, first + 1);
      var n: int := *;
      var got := if !ok && 0 <= n < |text| then text[..n] else text;
      files := files[path := File(got, umaskMode)];
      assert got <= text && files == old(files)[path := File(got, umaskMode)];
    }
  }

  // ----- racing calls ---------------------------------------------------------------

  /** What a caller asked for; `mode` overrides the mode of the file being replaced. */
  datatype Call = Call(text: string, mode: Option<nat>)

  /** How far a call has come. It is Failed when it raised with its temporary file removed or
      never made, and Stranded when removing that file failed as well. */
  datatype Phase =
    | Idle
    | Ready
    | Writing
    | Written
    | Chmodded
    | Published
    | Cleanup
    | Done
    | Failed
    | Stranded
    | Crashed

  /** The target, the temporary file of each call, the mode each call worked out when it
      began, and the calls that published, in order. */
  datatype State = State(target: Option<File>, temps: map<nat, File>, modes: map<nat, nat>, phases: seq<Phase>, log: seq<nat>)

  ghost predicate Init(calls: seq<Call>, before: File, s: State) {
    && s.target == Some(before) && s.temps == map[] && s.modes == map[] && s.log == []
    && |s.phases| == |calls| && forall w | 0 <= w < |calls| :: s.phases[w] == Idle
  }

  function ReadMode(call: Call, target: Option<File>): nat {
    if call.mode.Some? then call.mode.value
    else if target.Some? then target.value.mode else DEFAULT_MODE
  }

  function At(s: State, w: nat, p: Phase): State
    requires w < |s.phases|
  {
    s.(phases := s.phases[w := p])
  }

  predicate CanFail(p: Phase) {
    p.Writing? || p.Written? || p.Chmodded? || p.Published?
  }

  predicate Halted(p: Phase) {
    p.Done? || p.Failed? || p.Stranded? || p.Crashed?
  }

  /** One step of call `w`: the next system call, a handled failure, or a crash. */
  ghost predicate Step(calls: seq<Call>, s: State, w: nat, t: State)
    requires |s.phases| == |calls|
  {
    w < |calls| &&
    var p, call := s.phases[w], calls[w];
    || (p.Idle? && t == At(s, w, Ready).(modes := s.modes[w := ReadMode(call, s.target)]))
    || (p.Ready? && t == At(s, w, Writing).(temps := s.temps[w := File("", TEMP_MODE)]))
    || (p.Ready? && t == At(s, w, Failed))
    || (p.Writing? && w in s.temps && exists got ::
          got <= call.text && t == s.(temps := s.temps[w := s.temps[w].(content := got)]))
    || (p.Writing? && w in s.temps &&
          t == At(s, w, Written).(temps := s.temps[w := s.temps[w].(content := call.text)]))
    || (p.Written? && w in s.temps && w in s.modes &&
          t == At(s, w, Chmodded).(temps := s.temps[w := s.temps[w].(mode := s.modes[w])]))
    || (p.Chmodded? && w in s.temps &&
          t == At(s, w, Published).(target := Some(s.temps[w]), temps := s.temps - {w}, log := s.log + [w]))
    || (p.Published? && t == At(s, w, Done))
    || (CanFail(p) && t == At(s, w, Cleanup))
    || (p.Cleanup? && t == At(s, w, Failed).(temps := s.temps - {w}))
    || (p.Cleanup? && t == At(s, w, Stranded))
    || (!Halted(p) && t == At(s, w, Crashed))
  }

  /** A schedule: which call moves, and the state it leads to. */
  datatype Move = Move(who: nat, to: State)

  ghost predicate Run(calls: seq<Call>, s: State, moves: seq<Move>)
    requires |s.phases| == |calls|
    decreases |moves|
  {
    moves != [] ==>
      && |moves[0].to.phases| == |calls|
      && Step(calls, s, moves[0].who, moves[0].to)
      && Run(calls, moves[0].to, moves[1..])
  }

  function Last(s: State, moves: seq<Move>): State {
    if moves == [] then s else moves[|moves| - 1].to
  }

  /** The modes anybody asked for: the file's own, and every override. */
  ghost predicate Wanted(calls: seq<Call>, before: File, mode: nat) {
    mode == before.mode || exists w | 0 <= w < |calls| :: calls[w].mode == Some(mode)
  }

  /** The mode a call works out: its override, or the mode the target had at that time, which
      is the original one or one that a call published. */
  ghost predicate ModeInv(calls: seq<Call>, before: File, s: State, w: nat)
    requires w < |calls|
  {
    w in s.modes ==>
      && (calls[w].mode.Some? ==> s.modes[w] == calls[w].mode.value)
      && (calls[w].mode.None? ==> s.modes[w] == before.mode || exists v :: v in s.log && v != w && v in s.modes && s.modes[v] == s.modes[w])
      && Wanted(calls, before, s.modes[w])
  }

  ghost predicate PhaseInv(calls: seq<Call>, s: State, w: nat)
    requires w < |calls| == |s.phases|
  {
    var p := s.phases[w];
    && (w !in s.modes ==> p.Idle? || p.Crashed?)
    && (p.Writing? || p.Written? || p.Chmodded? ==> w in s.temps)
    && (p.Written? || p.Chmodded? ==> s.temps[w].content == calls[w].text)
    && (p.Chmodded? ==> s.temps[w].mode == s.modes[w])
    && (p.Idle? ==> w !in s.modes)
    && (p.Idle? || p.Ready? || p.Published? || p.Done? || p.Failed? ==> w !in s.temps)
    && (w in s.log ==> p.Published? || p.Cleanup? || Halted(p))
    && (w in s.log ==> w in s.modes)
    && (p.Published? || p.Done? ==> w in s.log)
  }

  /** What the target must be, given who published: the original file, or the text of the last
      call that published, under the mode that call worked out. */
  ghost predicate TargetInv(calls: seq<Call>, before: File, s: State) {
    if s.log == [] then s.target == Some(before)
    else
      var last := s.log[|s.log| - 1];
      last < |calls| && last in s.modes && s.target == Some(File(calls[last].text, s.modes[last]))
  }

  ghost predicate LogInv(calls: seq<Call>, s: State) {
    && (forall w | w in s.log :: w < |calls|)
    && (forall i, j | 0 <= i < j < |s.log| :: s.log[i] != s.log[j])
  }

  ghost predicate Inv(calls: seq<Call>, before: File, s: State) {
    && |s.phases| == |calls|
    && LogInv(calls, s)
    && TargetInv(calls, before, s)
    && (forall w: nat | w < |calls| :: PhaseInv(calls, s, w) && ModeInv(calls, before, s, w))
  }

  /** What one step leaves alone: the other calls' phases, files and modes. */
  ghost predicate Frame(calls: seq<Call>, s: State, w: nat, t: State)
    requires w < |s.phases| == |calls|
  {
    && |t.phases| == |calls|
    && (forall v: nat | v < |calls| && v != w :: t.phases[v] == s.phases[v])
    && (forall v: nat | v != w :: (v in t.temps <==> v in s.temps) && (v in t.temps ==> t.temps[v] == s.temps[v]))
    && (forall v: nat | v != w :: (v in t.modes <==> v in s.modes) && (v in t.modes ==> t.modes[v] == s.modes[v]))
    && (forall v: nat | v != w :: v in t.log <==> v in s.log)
    && s.log <= t.log
    && (!s.phases[w].Idle? ==> t.modes == s.modes)
  }

  lemma StepFramesFiles(calls: seq<Call>, s: State, w: nat, t: State)
    requires |s.phases| == |calls| && w < |calls| && |t.phases| == |calls| && Step(calls, s, w, t)
    ensures forall v: nat | v < |calls| && v != w :: t.phases[v] == s.phases[v]
    ensures forall v: nat | v != w :: (v in t.temps <==> v in s.temps) && (v in t.temps ==> t.temps[v] == s.temps[v])
  {
  }

  lemma StepFramesModes(calls: seq<Call>, s: State, w: nat, t: State)
    requires |s.phases| == |calls| && w < |calls| && |t.phases| == |calls| && Step(calls, s, w, t)
    ensures forall v: nat | v != w :: (v in t.modes <==> v in s.modes) && (v in t.modes ==> t.modes[v] == s.modes[v])
    ensures !s.phases[w].Idle? ==> t.modes == s.modes
  {
  }

  lemma StepFramesLog(calls: seq<Call>, s: State, w: nat, t: State)
    requires |s.phases| == |calls| && w < |calls| && |t.phases| == |calls| && Step(calls, s, w, t)
    ensures s.log <= t.log && forall v: nat | v != w :: v in t.log <==> v in s.log
  {
  }

  lemma StepFrames(calls: seq<Call>, s: State, w: nat, t: State)
    requires |s.phases| == |calls| && w < |calls| && |t.phases| == |calls| && Step(calls, s, w, t)
    ensures Frame(calls, s, w, t)
  {
    hide Step;
    StepFramesFiles(calls, s, w, t);
    StepFramesModes(calls, s, w, t);
    StepFramesLog(calls, s, w, t);
  }

  lemma OthersKeepTheirPhase(calls: seq<Call>, s: State, w: nat, t: State, v: nat)
    requires w < |s.phases| == |calls| && v < |calls| && v != w && Frame(calls, s, w, t)
    requires PhaseInv(calls, s, v)
    ensures PhaseInv(calls, t, v)
  {
  }

  lemma StepKeepsOwnPhase(calls: seq<Call>, s: State, w: nat, t: State)
    requires |s.phases| == |calls| == |t.phases| && w < |calls| && PhaseInv(calls, s, w) && Step(calls, s, w, t)
    ensures PhaseInv(calls, t, w)
  {
  }

  lemma StepKeepsLog(calls: seq<Call>, before: File, s: State, w: nat, t: State)
    requires Inv(calls, before, s) && w < |calls| && |t.phases| == |calls| && Step(calls, s, w, t)
    ensures LogInv(calls, t)
  {
    assert PhaseInv(calls, s, w);
    if t.log != s.log {
      assert t.log == s.log + [w] && w !in s.log;
    }
  }

  /** Only a call that renames changes the log and the target. */
  lemma StepPublishes(calls: seq<Call>, s: State, w: nat, t: State)
    requires |s.phases| == |calls| == |t.phases| && w < |calls| && PhaseInv(calls, s, w) && Step(calls, s, w, t)
    ensures s.phases[w].Idle? ==> t.log == s.log
    ensures (t.log == s.log && t.target == s.target) ||
              (t.log == s.log + [w] && w in t.modes && t.target == Some(File(calls[w].text, t.modes[w])))
  {
  }

  lemma StepKeepsTarget(calls: seq<Call>, before: File, s: State, w: nat, t: State)
    requires Inv(calls, before, s) && w < |calls| && |t.phases| == |calls| && Step(calls, s, w, t)
    ensures TargetInv(calls, before, t)
  {
    assert PhaseInv(calls, s, w);
    StepPublishes(calls, s, w, t);
    StepFrames(calls, s, w, t);
    hide Step;
    if t.log == s.log && s.log != [] {
      var last := s.log[|s.log| - 1];
      assert last in s.log && PhaseInv(calls, s, last);
    }
  }

  /** The target's mode is the original one, or the one the last publisher worked out. */
  lemma TargetModeIsPublished(calls: seq<Call>, before: File, s: State)
    requires Inv(calls, before, s)
    ensures s.target.Some? && Wanted(calls, before, s.target.value.mode)
    ensures s.target.value.mode == before.mode ||
              exists v :: v in s.log && v in s.modes && s.modes[v] == s.target.value.mode
  {
    if s.log != [] {
      var last := s.log[|s.log| - 1];
      assert last in s.log && ModeInv(calls, before, s, last);
    }
  }

  lemma StepKeepsModes(calls: seq<Call>, before: File, s: State, w: nat, t: State, v: nat)
    requires Inv(calls, before, s) && w < |calls| && v < |calls| && |t.phases| == |calls| && Step(calls, s, w, t)
    ensures ModeInv(calls, before, t, v)
  {
    assert PhaseInv(calls, s, w) && ModeInv(calls, before, s, v);
    if v == w && s.phases[w].Idle? && v in t.modes {
      assert w !in s.log && t.log == s.log;
      if t.modes == s.modes[w := ReadMode(calls[w], s.target)] {
        NewModeIsKnown(calls, before, s, w, t);
      }
    } else if v in t.modes {
      StepFrames(calls, s, w, t);
      hide Step;
      KnownModeStays(calls, before, s, w, t, v);
    }
  }

  lemma NewModeIsKnown(calls: seq<Call>, before: File, s: State, w: nat, t: State)
    requires Inv(calls, before, s) && w < |calls| && w !in s.log && w !in s.modes && t.log == s.log
    requires t.modes == s.modes[w := ReadMode(calls[w], s.target)]
    ensures ModeInv(calls, before, t, w)
  {
    TargetModeIsPublished(calls, before, s);
    hide Inv;
    if calls[w].mode.Some? {
      assert Wanted(calls, before, calls[w].mode.value);
    } else if s.target.value.mode != before.mode {
      var v :| v in s.log && v in s.modes && s.modes[v] == s.target.value.mode;
      assert v in t.log && v != w && v in t.modes && t.modes[v] == t.modes[w];
    }
  }

  lemma KnownModeStays(calls: seq<Call>, before: File, s: State, w: nat, t: State, v: nat)
    requires Inv(calls, before, s) && w < |calls| && v < |calls| && Frame(calls, s, w, t) && v in t.modes
    requires v == w ==> !s.phases[w].Idle?
    ensures ModeInv(calls, before, t, v)
  {
    assert PhaseInv(calls, s, w) && ModeInv(calls, before, s, v);
    if v in s.modes && calls[v].mode.None? && s.modes[v] != before.mode {
      var u :| u in s.log && u != v && u in s.modes && s.modes[u] == s.modes[v];
      assert u in t.log && u in t.modes && t.modes[u] == t.modes[v];
    }
  }

  lemma StepKeepsInv(calls: seq<Call>, before: File, s: State, w: nat, t: State)
    requires Inv(calls, before, s) && |t.phases| == |calls| && Step(calls, s, w, t)
    ensures Inv(calls, before, t)
  {
    assert w < |calls|;
    hide PhaseInv, ModeInv, TargetInv, LogInv, Step, Frame;
    StepFrames(calls, s, w, t);
    StepKeepsLog(calls, before, s, w, t);
    StepKeepsTarget(calls, before, s, w, t);
    forall v: nat | v < |calls| ensures PhaseInv(calls, t, v) && ModeInv(calls, before, t, v) {
      StepKeepsModes(calls, before, s, w, t, v);
      if v == w {
        StepKeepsOwnPhase(calls, s, w, t);
      } else {
        OthersKeepTheirPhase(calls, s, w, t, v);
      }
    }
  }

  lemma {:induction false} RunKeepsInv(calls: seq<Call>, before: File, s: State, moves: seq<Move>)
    requires Inv(calls, before, s) && Run(calls, s, moves)
    ensures Inv(calls, before, Last(s, moves))
    decreases |moves|
  {
    if moves != [] {
      StepKeepsInv(calls, before, s, moves[0].who, moves[0].to);
      RunKeepsInv(calls, before, moves[0].to, moves[1..]);
      assert Last(s, moves) == Last(moves[0].to, moves[1..]);
    }
  }

  /** Whatever the interleaving, failures and crashes: the target always exists; it is the
      original file until somebody publishes, and then the complete text of the call that
      published last, under its override or else the mode it had read; each call publishes at
      most once; the mode is the original one or an override, hence the original one when no
      call overrides it. */
  lemma TargetIsAlwaysWhole(calls: seq<Call>, before: File, s: State, moves: seq<Move>)
    requires Init(calls, before, s) && Run(calls, s, moves)
    ensures var end := Last(s, moves);
      && end.target.Some? && LogInv(calls, end)
      && TargetInv(calls, before, end)
      && (forall w: nat | w < |calls| :: ModeInv(calls, before, end, w))
      && Wanted(calls, before, end.target.value.mode)
      && ((forall w | 0 <= w < |calls| :: calls[w].mode == None) ==> end.target.value.mode == before.mode)
  {
    StartKeepsInv(calls, before, s);
    hide Run, Init, PhaseInv, ModeInv, TargetInv, LogInv;
    RunKeepsInv(calls, before, s, moves);
    TargetModeIsPublished(calls, before, Last(s, moves));
  }

  lemma StartKeepsInv(calls: seq<Call>, before: File, s: State)
    requires Init(calls, before, s)
    ensures Inv(calls, before, s)
  {
  }

  /** A call that is over has a temporary file only if it crashed or could not remove it; a
      call that returned did publish. */
  lemma OnlyCrashOrFailedRemovalLeavesTemp(calls: seq<Call>, before: File, s: State, moves: seq<Move>, w: nat)
    requires Init(calls, before, s) && Run(calls, s, moves) && w < |calls|
    ensures var end := Last(s, moves);
      && |end.phases| == |calls|
      && (Halted(end.phases[w]) && w in end.temps ==> end.phases[w].Crashed? || end.phases[w].Stranded?)
      && (end.phases[w].Done? ==> w in end.log)
  {
    StartKeepsInv(calls, before, s);
    hide Run, Init, ModeInv, TargetInv, LogInv;
    RunKeepsInv(calls, before, s, moves);
    assert PhaseInv(calls, Last(s, moves), w);
  }

  /** The states a call goes through when nothing disturbs it. */
  function Undisturbed(calls: seq<Call>, s: State, w: nat): (moves: seq<Move>)
    requires w < |s.phases| == |calls|
    ensures |moves| == 6 && forall i | 0 <= i < 6 :: moves[i].who == w
  {
    var text, mode := calls[w].text, ReadMode(calls[w], s.target);
    var ready := At(s, w, Ready).(modes := s.modes[w := mode]);
    var writing := At(ready, w, Writing).(temps := s.temps[w := File("", TEMP_MODE)]);
    var written := At(writing, w, Written).(temps := s.temps[w := File(text, TEMP_MODE)]);
    var chmodded := At(written, w, Chmodded).(temps := s.temps[w := File(text, mode)]);
    var published := At(chmodded, w, Published).(target := Some(File(text, mode)), temps := chmodded.temps - {w}, log := s.log + [w]);
    [Move(w, ready), Move(w, writing), Move(w, written), Move(w, chmodded), Move(w, published), Move(w, At(published, w, Done))]
  }

  /** The move leads on from `s`. */
  ghost predicate Follows(calls: seq<Call>, s: State, move: Move) {
    |s.phases| == |calls| == |move.to.phases| && Step(calls, s, move.who, move.to)
  }

  ghost predicate AllFollow(calls: seq<Call>, s: State, moves: seq<Move>) {
    (moves != [] ==> Follows(calls, s, moves[0])) && forall i | 0 < i < |moves| :: Follows(calls, moves[i - 1].to, moves[i])
  }

  lemma UndisturbedBegins(calls: seq<Call>, s: State, w: nat)
    requires w < |s.phases| == |calls| && s.phases[w].Idle?
    ensures var moves := Undisturbed(calls, s, w);
            Follows(calls, s, moves[0]) && Follows(calls, moves[0].to, moves[1]) && Follows(calls, moves[1].to, moves[2])
  {
  }

  lemma UndisturbedEnds(calls: seq<Call>, s: State, w: nat)
    requires w < |s.phases| == |calls| && s.phases[w].Idle?
    ensures var moves := Undisturbed(calls, s, w);
            && Follows(calls, moves[2].to, moves[3]) && Follows(calls, moves[3].to, moves[4])
            && Follows(calls, moves[4].to, moves[5])
  {
  }

  lemma UndisturbedFollows(calls: seq<Call>, s: State, w: nat)
    requires w < |s.phases| == |calls| && s.phases[w].Idle?
    ensures AllFollow(calls, s, Undisturbed(calls, s, w))
  {
    UndisturbedBegins(calls, s, w);
    UndisturbedEnds(calls, s, w);
    hide Follows, Undisturbed;
  }

  lemma {:induction false} FollowingIsRun(calls: seq<Call>, s: State, moves: seq<Move>)
    requires |s.phases| == |calls| && AllFollow(calls, s, moves)
    ensures Run(calls, s, moves)
    decreases |moves|
  {
    if moves != [] {
      var first, rest := moves[0], moves[1..];
      assert Follows(calls, s, first);
      assert AllFollow(calls, first.to, rest) by {
        RestFollows(calls, s, moves);
      }
      FollowingIsRun(calls, first.to, rest);
    }
  }

  lemma RestFollows(calls: seq<Call>, s: State, moves: seq<Move>)
    requires moves != [] && AllFollow(calls, s, moves)
    ensures AllFollow(calls, moves[0].to, moves[1..])
  {
    hide Follows;
    var rest := moves[1..];
    assert |moves| > 1 ==> Follows(calls, moves[1 - 1].to, moves[1]);
    forall i | 0 < i < |rest| ensures Follows(calls, rest[i - 1].to, rest[i]) {
      assert Follows(calls, moves[(i + 1) - 1].to, moves[i + 1]);
    }
  }

  /** Wherever the others stand, a call that has not begun can go through: it publishes its
      whole text under its override, else the mode the target has, else 0644. */
  lemma ACallCanPublish(calls: seq<Call>, s: State, w: nat)
    requires w < |s.phases| == |calls| && s.phases[w].Idle?
    ensures exists moves :: Run(calls, s, moves) &&
              var end := Last(s, moves);
              && |end.phases| == |calls| && end.phases == s.phases[w := Done] && end.log == s.log + [w]
              && end.target == Some(File(calls[w].text,
                   if calls[w].mode.Some? then calls[w].mode.value else if s.target.Some? then s.target.value.mode else 0x1A4))
  {
    hide Run, AllFollow;
    UndisturbedFollows(calls, s, w);
    var moves := Undisturbed(calls, s, w);
    FollowingIsRun(calls, s, moves);
    assert Last(s, moves).phases == s.phases[w := Done];
  }

  lemma OneMove(calls: seq<Call>, s: State, w: nat, t: State)
    requires |s.phases| == |calls| == |t.phases| && Step(calls, s, w, t)
    ensures Run(calls, s, [Move(w, t)]) && Last(s, [Move(w, t)]) == t
  {
    assert [Move(w, t)][1..] == [];
  }

  lemma TwoMoves(calls: seq<Call>, s: State, w: nat, t: State, u: State)
    requires |s.phases| == |calls| == |t.phases| == |u.phases| && Step(calls, s, w, t) && Step(calls, t, w, u)
    ensures Run(calls, s, [Move(w, t), Move(w, u)]) && Last(s, [Move(w, t), Move(w, u)]) == u
  {
    OneMove(calls, t, w, u);
    assert [Move(w, t), Move(w, u)][1..] == [Move(w, u)];
    hide Step;
  }

  /** Whatever state a call is in before it is over, it may crash and leave all files as they are. */
  lemma ACallCanCrash(calls: seq<Call>, s: State, w: nat)
    requires w < |s.phases| == |calls| && s.phases[w] !in {Done, Failed, Stranded, Crashed}
    ensures exists moves :: Run(calls, s, moves) && Last(s, moves) == s.(phases := s.phases[w := Crashed])
  {
    var t := At(s, w, Crashed);
    OneMove(calls, s, w, t);
  }

  /** Once its temporary file is there, it may fail at any system call: the file is then removed,
      or left when removing it fails too; nothing else changes. */
  lemma ACallCanFail(calls: seq<Call>, s: State, w: nat)
    requires w < |s.phases| == |calls| && s.phases[w] in {Writing, Written, Chmodded, Published}
    ensures exists moves :: Run(calls, s, moves) &&
              Last(s, moves) == s.(phases := s.phases[w := Failed], temps := s.temps - {w})
    ensures exists moves :: Run(calls, s, moves) && Last(s, moves) == s.(phases := s.phases[w := Stranded])
  {
    var cleanup := At(s, w, Cleanup);
    var failed := At(cleanup, w, Failed).(temps := s.temps - {w});
    var stranded := At(cleanup, w, Stranded);
    assert failed.phases == s.phases[w := Failed] && stranded.phases == s.phases[w := Stranded];
    TwoMoves(calls, s, w, cleanup, failed);
    TwoMoves(calls, s, w, cleanup, stranded);
  }

  /** While it writes, any beginning of its text may stand in the temporary file; and mkstemp
      may fail, which leaves no file at all. */
  lemma AWriteCanBePartial(calls: seq<Call>, s: State, w: nat, got: string)
    requires w < |s.phases| == |calls| && got <= calls[w].text
    ensures s.phases[w] == Writing && w in s.temps ==>
              exists moves :: Run(calls, s, moves) && Last(s, moves) == s.(temps := s.temps[w := s.temps[w].(content := got)])
    ensures s.phases[w] == Ready ==>
              exists moves :: Run(calls, s, moves) && Last(s, moves) == s.(phases := s.phases[w := Failed])
  {
    if s.phases[w] == Writing && w in s.temps {
      OneMove(calls, s, w, s.(temps := s.temps[w := s.temps[w].(content := got)]));
    }
    if s.phases[w] == Ready {
      OneMove(calls, s, w, At(s, w, Failed));
    }
  }

  // ----- the naive variant ----------------------------------------------------------

  datatype NaivePhase = NotStarted | Removed | Emptied | Rewritten | Dead

  datatype NaiveState = NaiveState(target: Option<File>, phase: NaivePhase)

  /** Remove, open, write; a failure or a crash at any point leaves what is there, and a
      failing write any part of the text. */
  ghost predicate NaiveStep(text: string, umaskMode: nat, s: NaiveState, t: NaiveState) {
    || (s.phase.NotStarted? && t == NaiveState(None, Removed))
    || (s.phase.Removed? && t == NaiveState(Some(File("", umaskMode)), Emptied))
    || (s.phase.Emptied? && t == NaiveState(Some(File(text, umaskMode)), Rewritten))
    || (s.phase.Emptied? && exists got :: got <= text && t == NaiveState(Some(File(got, umaskMode)), Dead))
    || ((s.phase.NotStarted? || s.phase.Removed?) && t == s.(phase := Dead))
  }

  ghost predicate NaiveRun(text: string, umaskMode: nat, states: seq<NaiveState>) {
    forall i | 0 < i < |states| :: NaiveStep(text, umaskMode, states[i - 1], states[i])
  }

  /** Every naive rewrite that gets anywhere passes through a state with no target, a crash
      there leaves it so, a crash behind it leaves any part of the text, and a completed one
      has the ambient mode. */
  lemma NaiveRewriteLosesTheTarget(before: File, text: string, umaskMode: nat, states: seq<NaiveState>)
    requires |states| > 0 && states[0] == NaiveState(Some(before), NotStarted)
    requires NaiveRun(text, umaskMode, states)
    ensures states[|states| - 1].phase.Rewritten? ==>
      (exists i | 0 <= i < |states| :: states[i].target.None?) &&
      states[|states| - 1].target == Some(File(text, umaskMode))
    ensures var gone := [states[0], NaiveState(None, Removed), NaiveState(None, Dead)];
      NaiveRun(text, umaskMode, gone)
    ensures forall got | got <= text ::
      NaiveRun(text, umaskMode, Torn(states[0], got, umaskMode))
  {
    var n := |states|;
    if states[n - 1].phase.Rewritten? {
      assert n > 1 && NaiveStep(text, umaskMode, states[n - 2], states[n - 1]);
      assert states[n - 2].phase.Emptied?;
      assert n > 2 && NaiveStep(text, umaskMode, states[n - 3], states[n - 2]);
      assert states[n - 3].phase.Removed?;
      assert n > 3 && NaiveStep(text, umaskMode, states[n - 4], states[n - 3]);
      assert states[n - 3].target.None?;
    }
  }

  function Torn(first: NaiveState, got: string, umaskMode: nat): seq<NaiveState> {
    [first, NaiveState(None, Removed), NaiveState(Some(File("", umaskMode)), Emptied), NaiveState(Some(File(got, umaskMode)), Dead)]
  }
}
