/** Generations the tailer never reads: exactly those no poll lands on while they are at the log path. */
module TailerGaps {
  import opened Wrappers
  import opened Bytes
  import opened Lines
  import opened Tailer
  import opened Bulk
  import opened TailerRuns

  // ---- Which generations are read ----

  /** The poll ends on the file at the log path: it finds the file, no batch is in flight, and no older
      generation is left to read. */
  ghost predicate LandsOn(s: Sys, io: PollIo, gen: Gen)
    requires s.dir.Valid()
  {
    && s.view.inflight.None? && io.stat && s.dir.current == Some(gen)
    && (s.view.state.None? || s.view.state.value.gen == gen
        || (io.list && Aim(s.dir, s.view.state.value) == Restart(gen)))
  }

  ghost predicate LandingStep(s: Sys, step: Step, gen: Gen) {
    step.Poll? && s.dir.Valid() && LandsOn(s, step.io, gen)
  }

  /** Some poll before state `i` landed on the generation. */
  ghost predicate Visited(states: seq<Sys>, steps: seq<Step>, gen: Gen, i: nat)
    requires i <= |steps| < |states|
  {
    exists j :: 0 <= j < i && LandingStep(states[j], steps[j], gen)
  }

  ghost predicate InTrail(trail: Trail, gen: Gen) { exists k :: 0 <= k < |trail| && trail[k].gen == gen }

  ghost predicate Reading(s: Sys, gen: Gen) { InTrail(s.stateTrail, gen) || InTrail(s.savedTrail, gen) }

  /** The generation has been read from at some moment up to state `i`. */
  ghost predicate EverRead(states: seq<Sys>, gen: Gen, i: nat)
    requires i < |states|
  {
    exists j :: 0 <= j <= i && Reading(states[j], gen)
  }

  /** A poll that lands on a generation puts it in the trail. */
  lemma {:induction false} LandingReads(src: Source, s: Sys, step: Step, gen: Gen)
    requires Inv(src, s) && Enabled(s, step) && LandingStep(s, step, gen)
    ensures Reading(Do(src, s, step), gen)
  {
    var s' := Do(src, s, step);
    LandingState(src, s, step.session, step.io, gen);
    PollKeepsInv(src, s, step.session, step.io);
    assert CheckpointOk(src, s'.dir, s'.store, s'.stateTrail, s'.view.state);
    assert s'.stateTrail[|s'.stateTrail| - 1].gen == gen;
  }

  lemma {:induction false} LandingState(src: Source, s: Sys, session: Session, io: PollIo, gen: Gen)
    requires Inv(src, s) && s.driver.Idle? && LandsOn(s, io, gen)
    ensures var v := PollSpec(src, s.dir, session, io, s.view).view; v.state.Some? && v.state.value.gen == gen
  {
    hide ReadSpec;
    var v := s.view;
    if v.state.Some? {
      var last := s.stateTrail[|s.stateTrail| - 1];
      assert SegmentOk(src, s.dir.content, s.store, last);
      match Aim(s.dir, v.state.value) {
        case Stay(g) => ReadStays(src, s.dir, session, io, v, g);
        case Restart(g) => ReadStays(src, s.dir, session, io, Move(v, TailState(g, 0), io.relocate).view, g);
      }
    }
  }

  /** Reading never leaves the generation. */
  lemma {:induction false} ReadStays(src: Source, dir: LogDir, session: Session, io: PollIo, v: View, gen: Gen)
    requires gen in dir.content && v.state.Some? && v.state.value.gen == gen && v.state.value.offset <= dir.Len(gen)
    ensures var p := ReadSpec(src, dir, session, io, v, gen).view;
      && p.state.Some? && p.state.value.gen == gen
      && (p.saved == v.saved || (p.saved.Some? && p.saved.value.gen == gen))
  {
  }

  /** A checkpoint that a poll moves to another generation has landed there. */
  lemma {:induction false} MovesLand(src: Source, s: Sys, session: Session, io: PollIo, cp: Option<TailState>)
    requires Inv(src, s) && s.driver.Idle? && cp.Some?
    requires var v := PollSpec(src, s.dir, session, io, s.view).view;
             cp == v.state || (cp == v.saved && cp != s.view.saved)
    requires s.view.state.Some? ==> s.view.state.value.gen != cp.value.gen
    ensures LandsOn(s, io, cp.value.gen)
  {
    hide ReadSpec;
    var v := s.view;
    if v.state.Some? {
      var last := s.stateTrail[|s.stateTrail| - 1];
      assert SegmentOk(src, s.dir.content, s.store, last);
      if v.inflight.None? && io.stat && s.dir.current.Some? && (v.state.value.gen == s.dir.current.value || io.list) {
        match Aim(s.dir, v.state.value) {
          case Stay(g) => ReadStays(src, s.dir, session, io, v, g);
          case Restart(g) => ReadStays(src, s.dir, session, io, Move(v, TailState(g, 0), io.relocate).view, g);
        }
      }
    }
  }

  lemma InExtended(trail: Trail, content: map<Gen, bytes>, cp: Option<TailState>, gen: Gen)
    requires InTrail(Extend(trail, content, cp), gen)
    ensures InTrail(trail, gen) || (cp.Some? && cp.value.gen == gen)
  {
  }

  /** A generation enters the trails only by a poll that lands on it. */
  lemma {:induction false} OnlyLandingReads(src: Source, s: Sys, step: Step, gen: Gen)
    requires Inv(src, s) && Enabled(s, step) && Reading(Do(src, s, step), gen) && !Reading(s, gen)
    ensures LandingStep(s, step, gen)
  {
    hide PollSpec;
    hide AckSpec;
    hide Extend;
    hide InTrail;
    hide TrailOk;
    var s' := Do(src, s, step);
    CurrentInTrail(src, s);
    match step {
      case Poll(session, io) =>
        var v := PollSpec(src, s.dir, session, io, s.view).view;
        if InTrail(s'.stateTrail, gen) {
          InExtended(s.stateTrail, s.dir.content, v.state, gen);
          MovesLand(src, s, session, io, v.state);
        } else {
          InExtended(s.stateTrail, s.dir.content, v.saved, gen);
          MovesLand(src, s, session, io, v.saved);
        }
      case Settle(write) =>
        SettleMoves(src, s, write);
        InExtendedTarget(s, gen);
      case _ =>
    }
  }

  /** The checkpoint's own generation is in the trail. */
  lemma CurrentInTrail(src: Source, s: Sys)
    requires Inv(src, s)
    ensures s.view.state.Some? ==> InTrail(s.stateTrail, s.view.state.value.gen)
  {
    if s.view.state.Some? { assert s.stateTrail[|s.stateTrail| - 1].gen == s.view.state.value.gen; }
  }

  lemma InExtendedTarget(s: Sys, gen: Gen)
    requires s.driver.Answered?
    ensures InTrail(Extend(s.stateTrail, s.dir.content, AckTarget(s)), gen)
      ==> InTrail(s.stateTrail, gen) || s.driver.token.gen == gen
  {
    if InTrail(Extend(s.stateTrail, s.dir.content, AckTarget(s)), gen) {
      InExtended(s.stateTrail, s.dir.content, AckTarget(s), gen);
    }
  }

  /** A generation has been read from exactly when some poll landed on it. */
  lemma {:induction false} ReadExactlyIfVisited(
    src: Source, states: seq<Sys>, steps: seq<Step>, gen: Gen, i: nat)
    requires IsRun(src, states, steps) && i < |states|
    ensures EverRead(states, gen, i) <==> Visited(states, steps, gen, i)
  {
    hide Do;
    hide Enabled;
    hide Inv;
    hide Reading;
    hide LandingStep;
    if i > 0 {
      var s, step := states[i - 1], steps[i - 1];
      ReadExactlyIfVisited(src, states, steps, gen, i - 1);
      RunKeepsInv(src, states, steps, i - 1);
      EverReadStep(states, gen, i);
      VisitedStep(states, steps, gen, i);
      if LandingStep(s, step, gen) { LandingReads(src, s, step, gen); }
      if Reading(states[i], gen) && !Reading(s, gen) { OnlyLandingReads(src, s, step, gen); }
    } else {
      NothingReadYet(src, states, steps, gen);
    }
  }

  lemma NothingReadYet(src: Source, states: seq<Sys>, steps: seq<Step>, gen: Gen)
    requires IsRun(src, states, steps)
    ensures !EverRead(states, gen, 0)
  {
    hide Do;
  }

  lemma EverReadStep(states: seq<Sys>, gen: Gen, i: nat)
    requires 0 < i < |states|
    ensures EverRead(states, gen, i) <==> EverRead(states, gen, i - 1) || Reading(states[i], gen)
    ensures Reading(states[i - 1], gen) ==> EverRead(states, gen, i - 1)
  {
    hide Reading;
  }

  lemma VisitedStep(states: seq<Sys>, steps: seq<Step>, gen: Gen, i: nat)
    requires 0 < i <= |steps| < |states|
    ensures Visited(states, steps, gen, i)
       <==> Visited(states, steps, gen, i - 1) || LandingStep(states[i - 1], steps[i - 1], gen)
  {
    hide LandingStep;
  }

  // ---- What is never read is never stored ----

  lemma {:induction false} NotReadNotStored(src: Source, states: seq<Sys>, steps: seq<Step>, gen: Gen, i: nat)
    requires IsRun(src, states, steps) && i < |states| && !EverRead(states, gen, i)
    ensures forall at :: CountLine(states[i].store, gen, at) == 0
  {
    hide Inv;
    hide Do;
    if i > 0 {
      var s, step := states[i - 1], steps[i - 1];
      assert !EverRead(states, gen, i - 1) && !Reading(s, gen);
      NotReadNotStored(src, states, steps, gen, i - 1);
      RunKeepsInv(src, states, steps, i - 1);
      CurrentInTrail(src, s);
      if step.Ship? { SkippedShip(src, s, step.attempts, gen); }
      StoreChangesByShip(src, s, step);
    }
  }

  lemma StoreChangesByShip(src: Source, s: Sys, step: Step)
    requires Enabled(s, step)
    ensures Do(src, s, step).store == if step.Ship? then Apply(s.store, s.driver.events, step.attempts).0 else s.store
  {
  }

  /** The exact condition. A generation that is off the log path at state `i` is read, in the rest of the
      run or before, if and only if some poll before `i` landed on it; otherwise none of it is ever stored. */
  lemma {:induction false} MissedExactly(
    src: Source, states: seq<Sys>, steps: seq<Step>, gen: Gen, i: nat, j: nat)
    requires IsRun(src, states, steps) && i <= j < |states|
    requires gen in states[i].dir.content && states[i].dir.current != Some(gen)
    ensures EverRead(states, gen, j) <==> Visited(states, steps, gen, i)
    ensures !Visited(states, steps, gen, i) ==> forall at :: CountLine(states[j].store, gen, at) == 0
  {
    ReadExactlyIfVisited(src, states, steps, gen, j);
    forall k | i <= k < j ensures !LandingStep(states[k], steps[k], gen) { StaysOff(src, states, steps, gen, i, k); }
    if !Visited(states, steps, gen, i) { NotReadNotStored(src, states, steps, gen, j); }
  }

  /** A generation that is off the log path never comes back to it. */
  lemma {:induction false} StaysOff(src: Source, states: seq<Sys>, steps: seq<Step>, gen: Gen, i: nat, k: nat)
    requires IsRun(src, states, steps) && i <= k < |states|
    requires gen in states[i].dir.content && states[i].dir.current != Some(gen)
    ensures gen in states[k].dir.content && states[k].dir.current != Some(gen)
    decreases k
  {
    hide Do;
    hide Enabled;
    if i < k {
      StaysOff(src, states, steps, gen, i, k - 1);
      OffAfterStep(src, states[k - 1], steps[k - 1], gen);
      assert states[k] == Do(src, states[k - 1], steps[k - 1]);
    }
  }

  lemma OffAfterStep(src: Source, s: Sys, step: Step, gen: Gen)
    requires Enabled(s, step) && gen in s.dir.content && s.dir.current != Some(gen)
    ensures gen in Do(src, s, step).dir.content && Do(src, s, step).dir.current != Some(gen)
  {
    hide PollSpec;
    hide AckSpec;
    hide Extend;
    hide Apply;
    hide Failures;
  }

  // ---- A run that misses a generation ----

  const QUIET := PollIo(true, true, Durable, Some(READ_WINDOW), Durable)

  ghost function DirAt(current: Option<Gen>, rotated: seq<Gen>, content: map<Gen, bytes>, cp: TailState): Sys {
    Sys(LogDir(current, rotated, content), View(Some(cp), Some(cp), None), Idle, [],
        [Segment(cp.gen, 0, cp.offset, [])], [Segment(cp.gen, 0, cp.offset, [])])
  }

  /** The first poll finds `g0` empty; then `g1` comes, gets one line and goes before the next poll. */
  ghost function MissingSteps(g0: Gen, g1: Gen, g2: Gen, line: bytes, session: Session): seq<Step> {
    [ Step.Poll(session, QUIET), Rotate([g0]), NewLog(g1), Step.Append(g1, line + [NEWLINE]), Rotate([g0, g1]),
      NewLog(g2), Step.Poll(session, QUIET) ]
  }

  ghost function MissingStates(g0: Gen, g1: Gen, g2: Gen, line: bytes): seq<Sys> {
    var cp, b := TailState(g0, 0), line + [NEWLINE];
    [ Sys(LogDir(Some(g0), [], map[g0 := []]), RestartSpec(None), Idle, [], [], []),
      DirAt(Some(g0), [], map[g0 := []], cp),
      DirAt(None, [g0], map[g0 := []], cp),
      DirAt(Some(g1), [g0], map[g0 := [], g1 := []], cp),
      DirAt(Some(g1), [g0], map[g0 := [], g1 := b], cp),
      DirAt(None, [g0, g1], map[g0 := [], g1 := b], cp),
      DirAt(Some(g2), [g0, g1], map[g0 := [], g1 := b, g2 := []], cp) ]
  }

  /** A real loss: whatever wanted line the middle generation holds, the run above leaves the checkpoint on
      the last one, and by the exact condition the line is never stored, however the run goes on. */
  lemma {:induction false} GenerationMissed(
    src: Source, g0: Gen, g1: Gen, g2: Gen, line: bytes, session: Session)
    returns (states: seq<Sys>, steps: seq<Step>)
    requires GenFits(g0) && GenFits(g1) && GenFits(g2) && g0 != g1 && g0 != g2 && g1 != g2
    requires NEWLINE !in line && Wanted(src, Line(0, line))
    ensures IsRun(src, states, steps) && |steps| == 7
    ensures var s := states[7];
      && s.view.state.Some? && s.view.state.value.gen == g2 && s.view.saved == s.view.state
      && g1 in s.dir.content && LineOf(s.dir.content[g1], Line(0, line)) && s.dir.current != Some(g1)
      && !Visited(states, steps, g1, 7) && !EverRead(states, g1, 7) && CountLine(s.store, g1, 0) == 0
  {
    hide Do;
    hide EverRead;
    hide InTrail;
    hide PollSpec;
    hide Pow256;
    hide CountLine;
    steps := MissingSteps(g0, g1, g2, line, session);
    var first := MissingStates(g0, g1, g2, line);
    assert Fits64(|line| + 1) by { FitsSmall(|line| + 1); }
    FirstPoll(src, g0, session);
    MissingRun(src, g0, g1, g2, line, session);
    states := first + [Do(src, first[6], steps[6])];
    LastPoll(src, g0, g1, g2, line, session);
    LineStands(line);
    assert !Visited(states, steps, g1, 7);
    ReadExactlyIfVisited(src, states, steps, g1, 7);
    NotReadNotStored(src, states, steps, g1, 7);
  }

  lemma FitsSmall(n: nat)
    requires n <= 0x1_0000_0000
    ensures Fits64(n)
  {
    assert Pow256(2) == 0x1_0000 && Pow256(4) == 0x1_0000_0000;
    assert Pow256(5) == 256 * Pow256(4) && Pow256(6) == 256 * Pow256(5);
    assert Pow256(7) == 256 * Pow256(6) && Pow256(8) == 256 * Pow256(7);
  }

  lemma LineStands(line: bytes)
    requires NEWLINE !in line
    ensures LineOf(line + [NEWLINE], Line(0, line))
  {
    var b := line + [NEWLINE];
    forall k | 0 <= k < |line| ensures b[k] != NEWLINE { assert b[k] == line[k] && line[k] in line; }
    NextNewlineIs(b, 0, |b|, |line|);
  }

  lemma FirstPoll(src: Source, g0: Gen, session: Session)
    requires GenFits(g0)
    ensures var s := Sys(LogDir(Some(g0), [], map[g0 := []]), RestartSpec(None), Idle, [], [], []);
      Enabled(s, Step.Poll(session, QUIET))
      && Do(src, s, Step.Poll(session, QUIET)) == DirAt(Some(g0), [], map[g0 := []], TailState(g0, 0))
  {
  }

  lemma RotateAt(src: Source, g: Gen, rotated: seq<Gen>, listing: seq<Gen>, content: map<Gen, bytes>, cp: TailState)
    requires forall x :: x in listing <==> x in rotated || x == g
    ensures var s := DirAt(Some(g), rotated, content, cp);
      Enabled(s, Rotate(listing)) && Do(src, s, Rotate(listing)) == DirAt(None, listing, content, cp)
  {
  }

  lemma NewLogAt(src: Source, g: Gen, rotated: seq<Gen>, content: map<Gen, bytes>, cp: TailState)
    requires g !in content && GenFits(g)
    ensures var s := DirAt(None, rotated, content, cp);
      Enabled(s, NewLog(g)) && Do(src, s, NewLog(g)) == DirAt(Some(g), rotated, content[g := []], cp)
  {
  }

  lemma AppendAt(src: Source, g: Gen, rotated: seq<Gen>, content: map<Gen, bytes>, cp: TailState, more: bytes)
    requires g in content && content[g] == [] && Fits64(|more|)
    ensures var s, step := DirAt(Some(g), rotated, content, cp), Step.Append(g, more);
      Enabled(s, step) && Do(src, s, step) == DirAt(Some(g), rotated, content[g := more], cp)
  {
    assert [] + more == more;
  }

  /** The five steps between the polls. */
  lemma MissingRun(src: Source, g0: Gen, g1: Gen, g2: Gen, line: bytes, session: Session)
    requires GenFits(g0) && GenFits(g1) && GenFits(g2) && g0 != g1 && g0 != g2 && g1 != g2 && Fits64(|line| + 1)
    ensures var states, steps := MissingStates(g0, g1, g2, line), MissingSteps(g0, g1, g2, line, session);
      forall i :: 1 <= i < 6 ==> Enabled(states[i], steps[i]) && states[i + 1] == Do(src, states[i], steps[i])
  {
    hide Do;
    hide Enabled;
    hide DirAt;
    hide Pow256;
    var cp, b := TailState(g0, 0), line + [NEWLINE];
    var none: bytes := [];
    var m0: map<Gen, bytes>, m1: map<Gen, bytes> := map[g0 := none], map[g0 := none, g1 := none];
    var m2: map<Gen, bytes> := map[g0 := none, g1 := b];
    RotateAt(src, g0, [], [g0], m0, cp);
    NewLogAt(src, g1, [g0], m0, cp);
    assert m0[g1 := none] == m1;
    AppendAt(src, g1, [g0], m1, cp, b);
    assert m1[g1 := b] == m2;
    RotateAt(src, g1, [g0], [g0, g1], m2, cp);
    NewLogAt(src, g2, [g0, g1], m2, cp);
    assert m2[g2 := none] == map[g0 := none, g1 := b, g2 := none];
  }

  lemma LastPoll(src: Source, g0: Gen, g1: Gen, g2: Gen, line: bytes, session: Session)
    requires g0 != g1 && g0 != g2 && g1 != g2
    ensures var s, step := MissingStates(g0, g1, g2, line)[6], Step.Poll(session, QUIET);
      && Enabled(s, step) && Aim(s.dir, s.view.state.value) == Restart(g2)
      && Do(src, s, step).view == View(Some(TailState(g2, 0)), Some(TailState(g2, 0)), None)
      && Do(src, s, step).dir == s.dir && Do(src, s, step).store == []
  {
    var nothing: bytes := [];
    assert Split(nothing, 0, 0) == [];
  }

  // ---- Nothing more of it ----

  /** Leaving a generation always lands on the file now at the log path. So nothing more is stored of a
      generation that is off the log path and that no checkpoint or batch refers to. */
  lemma {:induction false} SkippedForever(src: Source, states: seq<Sys>, steps: seq<Step>, i: nat, j: nat, gen: Gen)
    requires IsRun(src, states, steps) && i <= j < |states|
    requires Skipped(states[i], gen)
    ensures Skipped(states[j], gen)
    ensures forall at :: CountLine(states[j].store, gen, at) == CountLine(states[i].store, gen, at)
    decreases j
  {
    hide Do;
    hide Inv;
    hide CountLine;
    if i < j {
      SkippedForever(src, states, steps, i, j - 1, gen);
      RunKeepsInv(src, states, steps, j - 1);
      SkippedStep(src, states[j - 1], steps[j - 1], gen);
    }
  }

  lemma {:induction false} SkippedStep(src: Source, s: Sys, step: Step, gen: Gen)
    requires Inv(src, s) && Enabled(s, step) && Skipped(s, gen)
    ensures Skipped(Do(src, s, step), gen)
    ensures forall at :: CountLine(Do(src, s, step).store, gen, at) == CountLine(s.store, gen, at)
  {
    var s' := Do(src, s, step);
    match step {
      case Poll(session, io) => SkippedPoll(src, s, session, io, gen);
      case Ship(attempts, errors, answered) =>
        SkippedShip(src, s, attempts, gen);
        assert s'.view == s.view && s'.dir == s.dir;
      case Settle(write) => SkippedSettle(src, s, write, gen);
      case Crash => assert s'.store == s.store;
      case _ => assert s'.store == s.store && s'.view == s.view;
    }
  }

  lemma {:induction false} SkippedPoll(src: Source, s: Sys, session: Session, io: PollIo, gen: Gen)
    requires Inv(src, s) && s.driver.Idle? && Skipped(s, gen)
    ensures var s' := Do(src, s, Poll(session, io)); Skipped(s', gen) && s'.store == s.store
  {
    PollMoves(src, s, session, io);
    var p, s' := PollSpec(src, s.dir, session, io, s.view), Do(src, s, Poll(session, io));
    assert s'.view == p.view && s'.store == s.store && s'.dir == s.dir;
  }

  lemma {:induction false} SkippedSettle(src: Source, s: Sys, write: WriteOutcome, gen: Gen)
    requires Inv(src, s) && s.driver.Answered? && Skipped(s, gen)
    ensures var s' := Do(src, s, Settle(write)); Skipped(s', gen) && s'.store == s.store
  {
    SettleMoves(src, s, write);
  }

  lemma {:induction false} SkippedShip(src: Source, s: Sys, attempts: seq<Attempt>, gen: Gen)
    requires Inv(src, s) && s.driver.Holding? && (s.view.state.Some? ==> s.view.state.value.gen != gen)
    requires |attempts| == |s.driver.events| && forall a :: a in attempts ==> Honest(a)
    ensures forall at :: CountLine(Apply(s.store, s.driver.events, attempts).0, gen, at) == CountLine(s.store, gen, at)
  {
    var store' := Apply(s.store, s.driver.events, attempts).0;
    ApplyEffect(s.store, s.driver.events, attempts);
    forall k | |s.store| <= k < |store'| ensures store'[k].gen != gen {
      assert FromEvents(s.driver.events, store'[k]);
    }
    forall at ensures CountLine(store', gen, at) == CountLine(s.store, gen, at) {
      CountOther(s.store, store', gen, at);
    }
  }

  /** No checkpoint, batch or log path refers to this generation any more. */
  ghost predicate Skipped(s: Sys, gen: Gen) {
    && gen in s.dir.content && s.dir.current != Some(gen)
    && (s.view.state.Some? ==> s.view.state.value.gen != gen)
    && (s.view.saved.Some? ==> s.view.saved.value.gen != gen)
  }

  lemma {:induction false} CountOther(store: seq<Entry>, store': seq<Entry>, gen: Gen, at: nat)
    requires store <= store' && forall k :: |store| <= k < |store'| ==> store'[k].gen != gen
    ensures CountLine(store', gen, at) == CountLine(store, gen, at)
    decreases |store'|
  {
    if store' != [] {
      if store != [] {
        CountOther(store[1..], store'[1..], gen, at);
      } else {
        CountOther([], store'[1..], gen, at);
      }
    }
  }
}
