/** The interference reproduction of tools/neg_interference_repro.py: two concurrent runs
    of one case body, a barrier between writing an owner marker and reading it back. */
module Barrier {

  datatype Who = A | B

  function Other(w: Who): Who {
    if w == A then B else A
  }

  /** One value for each of the two runs. */
  datatype Pair<T> = Pair(a: T, b: T) {
    function At(w: Who): T {
      if w == A then a else b
    }

    function With(w: Who, value: T): (p: Pair<T>)
      ensures p.At(w) == value && p.At(Other(w)) == At(Other(w))
    {
      if w == A then Pair(value, b) else Pair(a, value)
    }
  }

  const POLL_LIMIT: nat := 2000

  /** Where a run of the body is. Exit codes: 0 clean, 1 collision, 3 setup or barrier failure. */
  datatype Phase =
    | Start
    | HasDir
    | Truncated
    | Marked
    | Polling(tries: nat)
    | Passed
    | Exited(code: nat)

  /** The owner file of a directory: `>` empties it before printf writes the tag. */
  datatype File = Missing | Empty | Holds(tag: Who)

  /** A directory is named by the run it was made for; with a shared one both runs use A's. */
  datatype State = State(phase: Pair<Phase>, ready: Pair<bool>, owner: Pair<File>)

  function Dir(shared: bool, w: Who): Who {
    if shared then A else w
  }

  const INITIAL := State(Pair(Start, Start), Pair(false, false), Pair(Missing, Missing))

  function Goto(s: State, w: Who, p: Phase): State {
    s.(phase := s.phase.With(w, p))
  }

  function Poll(otherReady: bool, tries: nat): Phase {
    if otherReady then Passed else if tries + 1 > POLL_LIMIT then Exited(3) else Polling(tries + 1)
  }

  /** One step of run `w`. mkdir may fail; every other step is determined by the files. */
  predicate Step(shared: bool, s: State, w: Who, t: State) {
    var dir := Dir(shared, w);
    match s.phase.At(w)
    case Start => t == Goto(s, w, HasDir) || t == Goto(s, w, Exited(3))
    case HasDir => t == Goto(s, w, Truncated).(owner := s.owner.With(dir, Empty))
    case Truncated => t == Goto(s, w, Marked).(owner := s.owner.With(dir, Holds(w)))
    case Marked => t == Goto(s, w, Polling(0)).(ready := s.ready.With(w, true))
    case Polling(tries) => t == Goto(s, w, Poll(s.ready.At(Other(w)), tries))
    case Passed => t == Goto(s, w, Exited(if s.owner.At(dir) == Holds(w) then 0 else 1))
    case Exited(_) => false
  }

  datatype Move = Move(who: Who, to: State)

  /** A schedule: any interleaving of steps of the two runs. */
  predicate Run(shared: bool, s: State, moves: seq<Move>)
    decreases |moves|
  {
    moves != [] ==> Step(shared, s, moves[0].who, moves[0].to) && Run(shared, moves[0].to, moves[1..])
  }

  function Last(s: State, moves: seq<Move>): State {
    if moves == [] then s else moves[|moves| - 1].to
  }

  predicate Halted(s: State) {
    s.phase.a.Exited? && s.phase.b.Exited?
  }

  function Codes(s: State): seq<nat>
    requires Halted(s)
  {
    [s.phase.a.code, s.phase.b.code]
  }

  /** The verdict on the pair: some run exited with a code other than 0. */
  predicate Collided(codes: seq<nat>) {
    exists i | 0 <= i < |codes| :: codes[i] != 0
  }

  // ----- what every step keeps ------------------------------------------------------

  /** The run saw the other one ready. */
  predicate PassedBarrier(p: Phase) {
    p.Passed? || p == Exited(0) || p == Exited(1)
  }

  predicate HasMarked(p: Phase) {
    p.Marked? || p.Polling? || PassedBarrier(p)
  }

  /** What holds of one run: ready only after its marker is written, polls within the limit,
      past the barrier only when both are ready. */
  predicate PhaseInv(s: State, w: Who) {
    var p := s.phase.At(w);
    && (s.ready.At(w) ==> HasMarked(p) || p == Exited(3))
    && (p.Polling? ==> s.ready.At(w) && p.tries <= POLL_LIMIT)
    && (PassedBarrier(p) ==> s.ready.At(w) && s.ready.At(Other(w)))
    && (p.Exited? ==> p.code in {0, 1, 3})
  }

  /** The owner file of w's directory once w has written it: the tag of a run that uses the
      directory, or empty because the other run is about to write there. */
  predicate OwnerInv(shared: bool, s: State, w: Who) {
    var f := s.owner.At(Dir(shared, w));
    s.ready.At(w) || HasMarked(s.phase.At(w)) ==>
      || f == Holds(w)
      || (shared && f == Holds(Other(w)))
      || (shared && f == Empty && s.phase.At(Other(w)).Truncated?)
  }

  /** The run finished reading and found the other run's marker. */
  predicate ReadTheOther(shared: bool, s: State, w: Who) {
    s.phase.At(w) == Exited(1) && s.owner.At(Dir(shared, w)) == Holds(Other(w))
  }

  /** The verdict of a run that finished reading agrees with the file, which can no longer change:
      its own marker, or the other's, never an empty file. */
  predicate VerdictInv(shared: bool, s: State, w: Who) {
    && (s.phase.At(w) == Exited(0) ==> s.owner.At(Dir(shared, w)) == Holds(w))
    && (s.phase.At(w) == Exited(1) ==> ReadTheOther(shared, s, w))
  }

  predicate RunInv(shared: bool, s: State, w: Who) {
    PhaseInv(s, w) && OwnerInv(shared, s, w) && VerdictInv(shared, s, w)
  }

  predicate Inv(shared: bool, s: State) {
    RunInv(shared, s, A) && RunInv(shared, s, B)
  }

  lemma StepKeepsPhase(shared: bool, s: State, w: Who, t: State, v: Who)
    requires PhaseInv(s, v) && Step(shared, s, w, t)
    ensures PhaseInv(t, v)
  {
  }

  lemma StepKeepsOwner(shared: bool, s: State, w: Who, t: State, v: Who)
    requires PhaseInv(s, v) && OwnerInv(shared, s, v) && Step(shared, s, w, t)
    ensures OwnerInv(shared, t, v)
  {
  }

  lemma StepKeepsVerdict(shared: bool, s: State, w: Who, t: State, v: Who)
    requires Inv(shared, s) && Step(shared, s, w, t)
    ensures VerdictInv(shared, t, v)
  {
  }

  /** Every step of either run keeps the invariant. */
  lemma StepKeepsInv(shared: bool, s: State, w: Who, t: State)
    requires Inv(shared, s) && Step(shared, s, w, t)
    ensures Inv(shared, t)
  {
    hide Step, PhaseInv, OwnerInv, VerdictInv;
    StepKeepsPhase(shared, s, w, t, A);
    StepKeepsPhase(shared, s, w, t, B);
    StepKeepsOwner(shared, s, w, t, A);
    StepKeepsOwner(shared, s, w, t, B);
    StepKeepsVerdict(shared, s, w, t, A);
    StepKeepsVerdict(shared, s, w, t, B);
  }

  lemma {:induction false} RunKeepsInv(shared: bool, s: State, moves: seq<Move>)
    requires Inv(shared, s) && Run(shared, s, moves)
    ensures Inv(shared, Last(s, moves))
    decreases |moves|
  {
    hide Step, Inv;
    if moves != [] {
      StepKeepsInv(shared, s, moves[0].who, moves[0].to);
      RunKeepsInv(shared, moves[0].to, moves[1..]);
      assert Last(s, moves) == Last(moves[0].to, moves[1..]);
    }
  }

  // ----- the verdicts ---------------------------------------------------------------

  /** Two runs in one directory: in every schedule, if both pass the barrier and finish,
      exactly one of them read the other's marker and exits with 1, the other read its own; and
      every schedule in which both finish is judged a collision, a missed barrier included. */
  lemma SharedDirectoryAlwaysCollides(moves: seq<Move>)
    requires Run(true, INITIAL, moves) && Halted(Last(INITIAL, moves))
    ensures var end := Last(INITIAL, moves);
            && (PassedBarrier(end.phase.a) && PassedBarrier(end.phase.b) ==>
                  || (ReadTheOther(true, end, A) && end.phase.b == Exited(0))
                  || (ReadTheOther(true, end, B) && end.phase.a == Exited(0)))
            && Collided(Codes(end))
  {
    RunKeepsInv(true, INITIAL, moves);
    HaltedShared(Last(INITIAL, moves));
  }

  lemma HaltedShared(end: State)
    requires Inv(true, end) && Halted(end)
    ensures PassedBarrier(end.phase.a) && PassedBarrier(end.phase.b) ==>
              || (ReadTheOther(true, end, A) && end.phase.b == Exited(0))
              || (ReadTheOther(true, end, B) && end.phase.a == Exited(0))
    ensures Collided(Codes(end))
  {
    var codes := Codes(end);
    assert codes[0] != 0 || codes[1] != 0;
  }

  /** Each run in a directory of its own: nobody who passes the barrier collides, so the
      pair is judged a collision exactly when a run failed its setup or its barrier. */
  lemma OwnDirectoriesNeverCollide(moves: seq<Move>)
    requires Run(false, INITIAL, moves)
    ensures var end := Last(INITIAL, moves);
            && end.phase.a != Exited(1) && end.phase.b != Exited(1)
            && (Halted(end) ==>
                  (Collided(Codes(end)) <==> end.phase.a == Exited(3) || end.phase.b == Exited(3)))
  {
    RunKeepsInv(false, INITIAL, moves);
    SeparateInv(Last(INITIAL, moves));
  }

  lemma SeparateInv(end: State)
    requires Inv(false, end)
    ensures end.phase.a != Exited(1) && end.phase.b != Exited(1)
    ensures Halted(end) ==>
              (Collided(Codes(end)) <==> end.phase.a == Exited(3) || end.phase.b == Exited(3))
  {
    if Halted(end) {
      var codes := Codes(end);
      assert Collided(codes) <==> codes[0] != 0 || codes[1] != 0;
    }
  }

  // ----- why a run fails, and that it need not --------------------------------------

  /** Somewhere in the schedule the run could not make its directory. */
  predicate MkdirFailed(s: State, moves: seq<Move>, w: Who)
    decreases |moves|
  {
    moves != [] && ((moves[0].who == w && s.phase.At(w) == Start && moves[0].to.phase.At(w) == Exited(3))
                    || MkdirFailed(moves[0].to, moves[1..], w))
  }

  /** How often the run looked for the other one's ready file while there was none. */
  function VainPolls(s: State, moves: seq<Move>, w: Who): nat
    decreases |moves|
  {
    if moves == [] then 0
    else (if moves[0].who == w && s.phase.At(w).Polling? && !s.ready.At(Other(w)) then 1 else 0)
         + VainPolls(moves[0].to, moves[1..], w)
  }

  /** A run that looks while the other one is ready gets past the barrier. */
  lemma PollWhenReadyPasses(shared: bool, s: State, w: Who, t: State)
    requires Step(shared, s, w, t) && s.phase.At(w).Polling? && s.ready.At(Other(w))
    ensures t.phase.At(w) == Passed
  {
  }

  function Tries(p: Phase): nat {
    if p.Polling? then p.tries else 0
  }

  lemma OneStepTowardsFailure(shared: bool, s: State, w: Who, v: Who, t: State)
    requires Step(shared, s, v, t) && PhaseInv(s, w) && !s.phase.At(w).Exited?
    ensures v != w ==> t.phase.At(w) == s.phase.At(w)
    ensures t.phase.At(w) == Exited(3) ==>
              v == w && (s.phase.At(w) == Start || (Tries(s.phase.At(w)) == 2000 && s.phase.At(w).Polling? && !s.ready.At(Other(w))))
    ensures v == w && !t.phase.At(w).Exited? && t.phase.At(w) != Passed ==>
              Tries(t.phase.At(w)) ==
                Tries(s.phase.At(w)) + if s.phase.At(w).Polling? && !s.ready.At(Other(w)) then 1 else 0
    ensures v == w && s.phase.At(w) == Passed ==> t.phase.At(w) == Exited(0) || t.phase.At(w) == Exited(1)
  {
  }

  lemma {:induction false} ExitedStays(shared: bool, s: State, moves: seq<Move>, w: Who)
    requires Run(shared, s, moves) && s.phase.At(w).Exited?
    ensures Last(s, moves).phase.At(w) == s.phase.At(w)
    ensures VainPolls(s, moves, w) == 0 && !MkdirFailed(s, moves, w)
    decreases |moves|
  {
    if moves != [] {
      ExitedStays(shared, moves[0].to, moves[1..], w);
      assert Last(s, moves) == Last(moves[0].to, moves[1..]);
    }
  }

  lemma {:induction false} FailureFrom(shared: bool, s: State, moves: seq<Move>, w: Who)
    requires Inv(shared, s) && Run(shared, s, moves) && !s.phase.At(w).Exited?
    requires Last(s, moves).phase.At(w) == Exited(3)
    ensures s.phase.At(w) != Passed
    ensures MkdirFailed(s, moves, w) || VainPolls(s, moves, w) + Tries(s.phase.At(w)) == 2001
    decreases |moves|
  {
    hide Step, PhaseInv, OwnerInv, VerdictInv;
    var v, t := moves[0].who, moves[0].to;
    assert Last(s, moves) == Last(t, moves[1..]);
    StepKeepsInv(shared, s, v, t);
    assert w == A || w == B;
    assert RunInv(shared, s, w);
    OneStepTowardsFailure(shared, s, w, v, t);
    if t.phase.At(w).Exited? {
      ExitedStays(shared, t, moves[1..], w);
    } else {
      FailureFrom(shared, t, moves[1..], w);
    }
  }

  /** A run exits with 3 only if its mkdir failed, or if it looked 2001 times for a ready file
      that was not there yet. */
  lemma FailureHasACause(shared: bool, moves: seq<Move>, w: Who)
    requires Run(shared, INITIAL, moves) && Last(INITIAL, moves).phase.At(w) == Exited(3)
    ensures MkdirFailed(INITIAL, moves, w) || VainPolls(INITIAL, moves, w) == 2001
  {
    FailureFrom(shared, INITIAL, moves, w);
  }

  /** When no mkdir fails and neither run waits in vain too long, the verdict is as intended:
      clean in directories of their own, one collision in a shared one. */
  lemma MetRunsAreJudged(shared: bool, moves: seq<Move>)
    requires Run(shared, INITIAL, moves) && Halted(Last(INITIAL, moves))
    requires forall w: Who :: !MkdirFailed(INITIAL, moves, w) && VainPolls(INITIAL, moves, w) <= 2000
    ensures var codes := Codes(Last(INITIAL, moves));
            if shared then codes == [0, 1] || codes == [1, 0] else codes == [0, 0]
  {
    assert Inv(shared, INITIAL);
    hide Run, MkdirFailed, VainPolls, Inv;
    var end := Last(INITIAL, moves);
    RunKeepsInv(shared, INITIAL, moves);
    if end.phase.a == Exited(3) {
      FailureHasACause(shared, moves, A);
    }
    if end.phase.b == Exited(3) {
      FailureHasACause(shared, moves, B);
    }
    assert end.phase.At(A) == end.phase.a && end.phase.At(B) == end.phase.b;
    JudgedByInv(shared, end);
  }

  lemma JudgedByInv(shared: bool, end: State)
    requires Inv(shared, end) && Halted(end) && end.phase.a != Exited(3) && end.phase.b != Exited(3)
    ensures if shared then Codes(end) == [0, 1] || Codes(end) == [1, 0] else Codes(end) == [0, 0]
  {
  }

  /** The next state of a run whose mkdir works. */
  function Next(shared: bool, s: State, w: Who): (t: State)
    requires !s.phase.At(w).Exited?
    ensures Step(shared, s, w, t)
  {
    var dir := Dir(shared, w);
    match s.phase.At(w)
    case Start => Goto(s, w, HasDir)
    case HasDir => Goto(s, w, Truncated).(owner := s.owner.With(dir, Empty))
    case Truncated => Goto(s, w, Marked).(owner := s.owner.With(dir, Holds(w)))
    case Marked => Goto(s, w, Polling(0)).(ready := s.ready.With(w, true))
    case Polling(tries) => Goto(s, w, Poll(s.ready.At(Other(w)), tries))
    case Passed => Goto(s, w, Exited(if s.owner.At(dir) == Holds(w) then 0 else 1))
  }

  /** A schedule given by who moves when, no mkdir failing. */
  function Scheduled(shared: bool, s: State, order: seq<Who>): (moves: seq<Move>)
    ensures Run(shared, s, moves)
    decreases |order|
  {
    if order == [] || s.phase.At(order[0]).Exited? then []
    else
      var t := Next(shared, s, order[0]);
      [Move(order[0], t)] + Scheduled(shared, t, order[1..])
  }

  function AfterAll(shared: bool, s: State, order: seq<Who>): State
    decreases |order|
  {
    if order == [] || s.phase.At(order[0]).Exited? then s else AfterAll(shared, Next(shared, s, order[0]), order[1..])
  }

  lemma {:induction false} ScheduledEnds(shared: bool, s: State, order: seq<Who>)
    ensures Last(s, Scheduled(shared, s, order)) == AfterAll(shared, s, order)
    decreases |order|
  {
    if order != [] && !s.phase.At(order[0]).Exited? {
      ScheduledEnds(shared, Next(shared, s, order[0]), order[1..]);
    }
  }

  /** A run writes its marker and is ready. */
  lemma Writes(shared: bool, s: State, w: Who, order: seq<Who>)
    requires s.phase.At(w) == Start
    ensures var dir := Dir(shared, w);
            AfterAll(shared, s, [w, w, w, w] + order) ==
              AfterAll(shared, State(s.phase.With(w, Polling(0)), s.ready.With(w, true), s.owner.With(dir, Holds(w))), order)
  {
    var dir := Dir(shared, w);
    var made := Goto(s, w, HasDir);
    var emptied := Goto(made, w, Truncated).(owner := s.owner.With(dir, Empty));
    var marked := Goto(emptied, w, Marked).(owner := s.owner.With(dir, Holds(w)));
    assert ([w, w, w, w] + order)[1..] == [w, w, w] + order;
    assert ([w, w, w] + order)[1..] == [w, w] + order;
    assert ([w, w] + order)[1..] == [w] + order;
    assert ([w] + order)[1..] == order;
    assert AfterAll(shared, s, [w, w, w, w] + order) == AfterAll(shared, made, [w, w, w] + order);
    assert AfterAll(shared, made, [w, w, w] + order) == AfterAll(shared, emptied, [w, w] + order);
    assert AfterAll(shared, emptied, [w, w] + order) == AfterAll(shared, marked, [w] + order);
  }

  /** There is a schedule in which both runs write, meet, look once and read; in directories of
      their own both are clean, in a shared one the second writer's marker is read by both. */
  lemma RunsCanMeet(shared: bool)
    ensures exists moves :: Run(shared, INITIAL, moves) && Halted(Last(INITIAL, moves)) &&
              Codes(Last(INITIAL, moves)) == if shared then [1, 0] else [0, 0]
  {
    var end := [A, B, A, B];
    var order := [A, A, A, A] + ([B, B, B, B] + end);
    Writes(shared, INITIAL, A, [B, B, B, B] + end);
    var aReady := State(Pair(Polling(0), Start), Pair(true, false), Pair(Holds(A), Missing));
    Writes(shared, aReady, B, end);
    MeetAndRead(shared, State(Pair(Polling(0), Polling(0)), Pair(true, true),
                              if shared then Pair(Holds(B), Missing) else Pair(Holds(A), Holds(B))));
    ScheduledEnds(shared, INITIAL, order);
    assert Run(shared, INITIAL, Scheduled(shared, INITIAL, order));
  }

  lemma MeetAndRead(shared: bool, s: State)
    requires s.phase == Pair(Polling(0), Polling(0)) && s.ready == Pair(true, true)
    requires s.owner == if shared then Pair(Holds(B), Missing) else Pair(Holds(A), Holds(B))
    ensures AfterAll(shared, s, [A, B, A, B]).phase == Pair(Exited(if shared then 1 else 0), Exited(0))
  {
    var one := Next(shared, s, A);
    var two := Next(shared, one, B);
    var three := Next(shared, two, A);
    assert [A, B, A, B][1..] == [B, A, B] && [B, A, B][1..] == [A, B] && [A, B][1..] == [B] && [B][1..] == [];
    assert AfterAll(shared, three, [B]) == Next(shared, three, B);
    assert AfterAll(shared, two, [A, B]) == AfterAll(shared, three, [B]);
    assert AfterAll(shared, one, [B, A, B]) == AfterAll(shared, two, [A, B]);
  }

  // ----- every schedule ends --------------------------------------------------------

  /** The steps a run may still take, polls included. */
  function Rank(p: Phase): nat {
    match p
    case Start => POLL_LIMIT + 7
    case HasDir => POLL_LIMIT + 6
    case Truncated => POLL_LIMIT + 5
    case Marked => POLL_LIMIT + 4
    case Polling(tries) => if tries <= POLL_LIMIT then POLL_LIMIT - tries + 2 else 2
    case Passed => 1
    case Exited(_) => 0
  }

  function TotalRank(s: State): nat {
    Rank(s.phase.a) + Rank(s.phase.b)
  }

  lemma StepLowersRank(shared: bool, s: State, w: Who, t: State)
    requires Step(shared, s, w, t) && PhaseInv(s, w)
    ensures TotalRank(t) < TotalRank(s)
  {
    assert t.phase.At(Other(w)) == s.phase.At(Other(w));
    assert Rank(t.phase.At(w)) < Rank(s.phase.At(w));
  }

  /** Progress: a run that has not exited can always take a step. */
  lemma CanMove(shared: bool, s: State, w: Who)
    requires !s.phase.At(w).Exited?
    ensures exists t :: Step(shared, s, w, t)
  {
    var t := Next(shared, s, w);
    assert Step(shared, s, w, t);
  }

  /** No schedule is longer than the two runs' steps and polls together. */
  lemma {:induction false} SchedulesAreBounded(shared: bool, s: State, moves: seq<Move>)
    requires Inv(shared, s) && Run(shared, s, moves)
    ensures |moves| <= TotalRank(s)
    decreases |moves|
  {
    hide Step, PhaseInv, OwnerInv, VerdictInv, TotalRank;
    if moves != [] {
      var first := moves[0];
      assert first.who == A || first.who == B;
      assert RunInv(shared, s, first.who);
      StepKeepsInv(shared, s, first.who, first.to);
      StepLowersRank(shared, s, first.who, first.to);
      SchedulesAreBounded(shared, first.to, moves[1..]);
    }
  }

  /** Every schedule is finite, and one that cannot be continued has both runs finished. */
  lemma SchedulesEnd(shared: bool, moves: seq<Move>)
    requires Run(shared, INITIAL, moves)
    ensures |moves| <= 2 * (POLL_LIMIT + 7)
    ensures var end := Last(INITIAL, moves);
            Halted(end) || exists w: Who, t :: Step(shared, end, w, t)
  {
    hide Step, Run;
    SchedulesAreBounded(shared, INITIAL, moves);
    var end := Last(INITIAL, moves);
    if !end.phase.At(A).Exited? {
      CanMove(shared, end, A);
    } else if !end.phase.At(B).Exited? {
      CanMove(shared, end, B);
    }
  }

  /** The verdict on the pair as the driver computes it from the exit codes. */
  method Verdict(codes: seq<nat>) returns (collided: bool)
    ensures collided <==> Collided(codes)
  {
    collided := false;
    for i := 0 to |codes|
      invariant collided <==> exists k | 0 <= k < i :: codes[k] != 0
    {
      if codes[i] != 0 {
        collided := true;
      }
    }
  }
}
