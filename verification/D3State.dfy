/** The D3 detector's persistent state machine: baseline, pending finding, and verdicts over runs. */
module D3State {
  import opened Wrappers

  // ---- Text forms ----

  predicate HexDigit(c: char) { '0' <= c <= '9' || 'a' <= c <= 'f' || 'A' <= c <= 'F' }

  function LowerChar(c: char): char { if 'A' <= c <= 'Z' then (c as int + 32) as char else c }

  function Lower(s: string): (r: string)
    ensures |r| == |s| && forall i :: 0 <= i < |s| ==> r[i] == LowerChar(s[i])
  {
    seq(|s|, i requires 0 <= i < |s| => LowerChar(s[i]))
  }

  function DropHyphens(s: string): string {
    if s == "" then "" else (if s[0] == '-' then "" else [s[0]]) + DropHyphens(s[1..])
  }

  function NormalizeBootId(value: string): Option<string> {
    var compact := DropHyphens(value);
    if |compact| == 32 && (forall i :: 0 <= i < 32 ==> HexDigit(compact[i])) then Some(Lower(compact)) else None
  }

  predicate CanonicalBootId(value: string) { NormalizeBootId(value) == Some(value) }

  predicate ValidBdf(value: string) {
    && |value| == 12 && value[4] == ':' && value[7] == ':' && value[10] == '.'
    && forall i :: 0 <= i < 12 && i != 4 && i != 7 && i != 10 ==> HexDigit(value[i])
  }

  predicate CanonicalBdf(value: string) { ValidBdf(value) && value == Lower(value) }

  predicate CanonicalHexField(value: string, width: nat) {
    && |value| == width + 2 && value[..2] == "0x" && value == Lower(value)
    && forall i :: 2 <= i < |value| ==> HexDigit(value[i])
  }

  function SplitOn(s: string, c: char): seq<string> {
    if s == "" then [""]
    else if s[0] == c then [""] + SplitOn(s[1..], c)
    else
      var rest := SplitOn(s[1..], c);
      [[s[0]] + rest[0]] + rest[1..]
  }

  // ---- Inputs and state ----

  datatype PciDevice = PciDevice(
    bdf: string, vendor: string, device: string, class_: string, parentPath: string, upstreamBridge: Option<string>)

  datatype Baseline = Baseline(
    learnedBootId: string, learnedAt: string, slot: string, vendor: string, device: string, class_: string,
    parentBridgeChain: seq<string>, upstreamBridge: Option<string>)

  datatype PendingFinding = PendingFinding(verdict: string, observationBootId: string, observedAt: string)

  datatype D3State = D3State(baseline: Option<Baseline>, pending: Option<PendingFinding>)

  const EMPTY := D3State(None, None)

  /** Journal evidence, as far as a verdict looks into it. */
  datatype Journal = Journal(noEntries: bool, linkDown: Option<string> -> bool, precursorFires: Baseline -> bool)

  datatype D3Input = D3Input(
    linux: bool, bootId: string, devices: seq<PciDevice>, currentBootId: string,
    bootInventory: Option<seq<string>>, currentJournal: Option<Journal>, priorTail: Option<Journal>,
    priorTimingUnreliable: bool, now: string)

  datatype Operation = Diagnose | Learn(slot: Option<string>) | Reset

  datatype Verdict =
    | NotApplicable | BaselineReset | BaselineLearned | BaselineRequired
    | HardwareChanged | BusAbsent | PrecursorWarning | Recovered | HistoryUnavailable | Healthy

  datatype Refusal =
    | BadBootPairing | CorruptState | BaselineExists | SlotRequired | SlotAbsent | AmbiguousIdentity
    | ContradictoryEvidence | SaveFailed

  type Answer = Reply<Verdict, Refusal>

  predicate Matches(d: PciDevice, b: Baseline) { d.vendor == b.vendor && d.device == b.device && d.class_ == b.class_ }

  predicate SameIdentity(d: PciDevice, e: PciDevice) {
    d.vendor == e.vendor && d.device == e.device && d.class_ == e.class_
  }

  predicate IsBridge(d: PciDevice) { |d.class_| >= 4 && d.class_[..4] == "0x06" }

  function Matching(devices: seq<PciDevice>, b: Baseline): seq<PciDevice> {
    if devices == [] then []
    else (if Matches(devices[0], b) then [devices[0]] else []) + Matching(devices[1..], b)
  }

  function Twins(devices: seq<PciDevice>, d: PciDevice): nat {
    if devices == [] then 0
    else (if SameIdentity(devices[0], d) then 1 else 0) + Twins(devices[1..], d)
  }

  function AtSlot(devices: seq<PciDevice>, slot: string): (d: Option<PciDevice>)
    ensures d.Some? ==> d.value in devices && d.value.bdf == slot
    ensures d.None? ==> forall e :: e in devices ==> e.bdf != slot
  {
    if devices == [] then None
    else if devices[0].bdf == slot then Some(devices[0]) else AtSlot(devices[1..], slot)
  }

  /** What the snapshot parser guarantees of a snapshot it accepts. */
  ghost predicate Parsed(devices: seq<PciDevice>) {
    && (forall d :: d in devices ==>
          && CanonicalBdf(d.bdf) && CanonicalHexField(d.vendor, 4) && CanonicalHexField(d.device, 4)
          && CanonicalHexField(d.class_, 6) && (d.upstreamBridge.Some? ==> CanonicalBdf(d.upstreamBridge.value)))
    && (forall i, j :: 0 <= i < j < |devices| ==> devices[i].bdf != devices[j].bdf)
  }

  // ---- Validation ----

  predicate ValidBaseline(b: Baseline, rfc3339: string -> bool) {
    && CanonicalBootId(b.learnedBootId) && rfc3339(b.learnedAt) && CanonicalBdf(b.slot)
    && CanonicalHexField(b.vendor, 4) && CanonicalHexField(b.device, 4) && CanonicalHexField(b.class_, 6)
    && (forall i :: 0 <= i < |b.parentBridgeChain| ==> CanonicalBdf(b.parentBridgeChain[i]))
    && (b.upstreamBridge.Some? ==> CanonicalBdf(b.upstreamBridge.value))
  }

  predicate ValidateState(s: D3State, rfc3339: string -> bool) {
    if s.baseline.None? then s.pending.None?
    else
      && ValidBaseline(s.baseline.value, rfc3339)
      && (s.pending.Some? ==>
            && s.pending.value.verdict == "bus-absent" && CanonicalBootId(s.pending.value.observationBootId)
            && rfc3339(s.pending.value.observedAt))
  }

  function BridgeChain(parts: seq<string>): (chain: seq<string>)
    ensures forall i :: 0 <= i < |chain| ==> CanonicalBdf(chain[i])
  {
    if parts == [] then []
    else
      LowerBdf(parts[0]);
      (if ValidBdf(parts[0]) then [Lower(parts[0])] else []) + BridgeChain(parts[1..])
  }

  lemma LowerBdf(value: string)
    ensures ValidBdf(value) ==> CanonicalBdf(Lower(value))
  {
  }

  function BaselineFrom(d: PciDevice, bootId: string, now: string): Baseline {
    var chain := BridgeChain(SplitOn(d.parentPath, '/'));
    Baseline(bootId, now, d.bdf, d.vendor, d.device, d.class_,
             if chain == [] then [] else chain[..|chain| - 1], d.upstreamBridge)
  }

  // ---- One evaluation ----

  /** The learned identity is duplicated, has moved, or its slot holds some other endpoint. */
  predicate Relocated(devices: seq<PciDevice>, b: Baseline) {
    var matching, atSlot := Matching(devices, b), AtSlot(devices, b.slot);
    || |matching| > 1
    || (matching != [] && matching[0].bdf != b.slot)
    || (matching == [] && atSlot.Some? && !IsBridge(atSlot.value))
  }

  function PriorFor(inventory: seq<string>, current: string): Option<string> {
    if inventory == [] || inventory[0] == current then None
    else if |inventory| > 1 && inventory[1] == current then Some(inventory[0])
    else PriorFor(inventory[1..], current)
  }

  predicate PriorKnown(input: D3Input) {
    input.bootInventory.Some? && PriorFor(input.bootInventory.value, input.bootId).Some?
  }

  predicate Fires(input: D3Input, b: Baseline) {
    && PriorKnown(input) && input.priorTail.Some? && !input.priorTail.value.noEntries
    && !input.priorTimingUnreliable && input.priorTail.value.precursorFires(b)
  }

  function EvaluateSpec(input: D3Input, s: D3State): (Verdict, Option<PendingFinding>) {
    if s.baseline.None? then (BaselineRequired, s.pending)
    else
      var b := s.baseline.value;
      if Relocated(input.devices, b) then (HardwareChanged, None)
      else if Matching(input.devices, b) == [] then
        (BusAbsent, Some(PendingFinding("bus-absent", input.bootId, input.now)))
      else if Fires(input, b) then (PrecursorWarning, s.pending)
      else if s.pending.Some? && s.pending.value.observationBootId != input.bootId then (Recovered, None)
      else if !PriorKnown(input) || input.priorTail.None? || input.priorTail.value.noEntries then
        (HistoryUnavailable, s.pending)
      else (Healthy, s.pending)
  }

  /** Journal evidence of a dead link beside a healthy snapshot of the same boot. */
  predicate Contradictory(input: D3Input, b: Baseline) {
    && (exists i :: 0 <= i < |input.devices| && input.devices[i].bdf == b.slot && Matches(input.devices[i], b))
    && input.currentJournal.Some? && input.currentJournal.value.linkDown(b.upstreamBridge)
  }

  predicate Paired(input: D3Input) {
    && NormalizeBootId(input.currentBootId) == Some(input.bootId)
    && (input.bootInventory.Some? ==> input.bootId in input.bootInventory.value)
  }

  /** The state an operation would save, or why it is refused. */
  function Proposed(input: D3Input, op: Operation, s: D3State): Reply<(Verdict, D3State), Refusal> {
    match op
    case Reset => Ok((BaselineReset, EMPTY))
    case Learn(slot) =>
      if s.baseline.Some? then Err(BaselineExists)
      else if slot.None? then Err(SlotRequired)
      else
        var d := AtSlot(input.devices, Lower(slot.value));
        if d.None? then Err(SlotAbsent)
        else if Twins(input.devices, d.value) > 1 then Err(AmbiguousIdentity)
        else Ok((BaselineLearned, D3State(Some(BaselineFrom(d.value, input.bootId, input.now)), None)))
    case Diagnose =>
      if s.baseline.Some? && Contradictory(input, s.baseline.value) then Err(ContradictoryEvidence)
      else
        var (verdict, pending) := EvaluateSpec(input, s);
        Ok((verdict, s.(pending := pending)))
  }

  /** One run against the state file: what it answers, and what the file holds afterwards. */
  function RunSpec(saved: Option<D3State>, input: D3Input, op: Operation, saves: bool, rfc3339: string -> bool)
    : (Answer, Option<D3State>)
  {
    if !input.linux then (Ok(NotApplicable), saved)
    else if !Paired(input) then (Err(BadBootPairing), saved)
    else if saved.Some? && !ValidateState(saved.value, rfc3339) then (Err(CorruptState), saved)
    else
      var proposed := Proposed(input, op, if saved.Some? then saved.value else EMPTY);
      if proposed.Err? then (Err(proposed.reason), saved)
      else if !saves then (Err(SaveFailed), saved)
      else (Ok(proposed.value.0), Some(proposed.value.1))
  }

  /** The state file with the detector around it. */
  class Detector {
    const rfc3339: string -> bool
    var saved: Option<D3State>

    constructor (rfc3339: string -> bool)
      ensures saved == None && this.rfc3339 == rfc3339
    {
      this.rfc3339 := rfc3339;
      saved := None;
    }

    /** The verdict, and the pending finding as `evaluate` leaves it. */
    method Evaluate(input: D3Input, state: D3State) returns (verdict: Verdict, state': D3State)
      ensures (verdict, state'.pending) == EvaluateSpec(input, state) && state'.baseline == state.baseline
    {
      state' := state;
      if state.baseline.None? { return BaselineRequired, state; }
      var b := state.baseline.value;
      var matching, atSlot := Matching(input.devices, b), AtSlot(input.devices, b.slot);
      if |matching| > 1 || (|matching| > 0 && matching[0].bdf != b.slot)
         || (|matching| == 0 && atSlot.Some? && !IsBridge(atSlot.value)) {
        state' := state'.(pending := None);
        return HardwareChanged, state';
      }
      if |matching| == 0 {
        state' := state'.(pending := Some(PendingFinding("bus-absent", input.bootId, input.now)));
        return BusAbsent, state';
      }
      var prior := if input.bootInventory.Some? then PriorFor(input.bootInventory.value, input.bootId) else None;
      if prior.Some? && input.priorTail.Some? && !input.priorTail.value.noEntries {
        var fires := input.priorTail.value.precursorFires(b) && !input.priorTimingUnreliable;
        if fires { return PrecursorWarning, state'; }
      }
      if state.pending.Some? && state.pending.value.observationBootId != input.bootId {
        state' := state'.(pending := None);
        return Recovered, state';
      }
      if prior.None? || input.priorTail.None? || input.priorTail.value.noEntries {
        return HistoryUnavailable, state';
      }
      return Healthy, state';
    }

    method Run(input: D3Input, op: Operation, saves: bool) returns (answer: Answer)
      modifies this`saved
      ensures (answer, saved) == RunSpec(old(saved), input, op, saves, rfc3339)
    {
      if !input.linux { return Ok(NotApplicable); }
      if NormalizeBootId(input.currentBootId) != Some(input.bootId) { return Err(BadBootPairing); }
      if input.bootInventory.Some? && input.bootId !in input.bootInventory.value { return Err(BadBootPairing); }
      if saved.Some? && !ValidateState(saved.value, rfc3339) { return Err(CorruptState); }
      var state := if saved.Some? then saved.value else EMPTY;
      var verdict;
      match op {
        case Reset =>
          state, verdict := D3State(None, None), BaselineReset;
        case Learn(slot) =>
          if state.baseline.Some? { return Err(BaselineExists); }
          if slot.None? { return Err(SlotRequired); }
          var device := AtSlot(input.devices, Lower(slot.value));
          if device.None? { return Err(SlotAbsent); }
          if Twins(input.devices, device.value) > 1 { return Err(AmbiguousIdentity); }
          state := D3State(Some(BaselineFrom(device.value, input.bootId, input.now)), None);
          verdict := BaselineLearned;
        case Diagnose =>
          if state.baseline.Some? && Contradictory(input, state.baseline.value) { return Err(ContradictoryEvidence); }
          verdict, state := Evaluate(input, state);
      }
      if !saves { return Err(SaveFailed); }
      saved := Some(state);
      answer := Ok(verdict);
    }
  }

  // ---- Histories of runs ----

  datatype Event = Event(input: D3Input, op: Operation, saves: bool)

  /** `saved[i]` is the state file before run `i`, and `answers[i]` what the run answers. */
  ghost predicate IsHistory(
    events: seq<Event>, saved: seq<Option<D3State>>, answers: seq<Answer>, rfc3339: string -> bool)
  {
    && |saved| == |events| + 1 && |answers| == |events| && saved[0] == None
    && forall i :: 0 <= i < |events| ==>
         (answers[i], saved[i + 1]) == RunSpec(saved[i], events[i].input, events[i].op, events[i].saves, rfc3339)
  }

  lemma HistoryStep(
    events: seq<Event>, saved: seq<Option<D3State>>, answers: seq<Answer>, rfc3339: string -> bool, i: nat)
    requires IsHistory(events, saved, answers, rfc3339) && i < |events|
    ensures (answers[i], saved[i + 1]) == RunSpec(saved[i], events[i].input, events[i].op, events[i].saves, rfc3339)
  {
  }

  function StateOf(saved: Option<D3State>): D3State { if saved.Some? then saved.value else EMPTY }

  lemma {:induction false} DropHyphensHex(s: string)
    requires forall i :: 0 <= i < |s| ==> HexDigit(s[i])
    ensures DropHyphens(s) == s
  {
    if s != "" { DropHyphensHex(s[1..]); }
  }

  lemma {:induction false} NormalizedIsCanonical(value: string)
    requires NormalizeBootId(value).Some?
    ensures CanonicalBootId(NormalizeBootId(value).value)
  {
    var id := NormalizeBootId(value).value;
    DropHyphensHex(id);
    assert Lower(id) == id;
  }

  /** Whatever an operation proposes to save from a valid state is valid again. */
  lemma {:induction false} ProposalsAreValid(input: D3Input, op: Operation, s: D3State, rfc3339: string -> bool)
    requires ValidateState(s, rfc3339) && Paired(input) && Parsed(input.devices) && rfc3339(input.now)
    requires Proposed(input, op, s).Ok?
    ensures ValidateState(Proposed(input, op, s).value.1, rfc3339)
  {
    NormalizedIsCanonical(input.currentBootId);
    if op.Learn? {
      var d := AtSlot(input.devices, Lower(op.slot.value)).value;
      var b := BaselineFrom(d, input.bootId, input.now);
      assert d in input.devices && ValidBaseline(b, rfc3339);
    }
  }

  /** Every state a run leaves in the file passes validation when the next run loads it. */
  lemma {:induction false} EverySavedStateValidates(
    events: seq<Event>, saved: seq<Option<D3State>>, answers: seq<Answer>, rfc3339: string -> bool, i: nat)
    requires IsHistory(events, saved, answers, rfc3339) && i < |saved|
    requires forall k :: 0 <= k < |events| ==> Parsed(events[k].input.devices) && rfc3339(events[k].input.now)
    ensures ValidateState(StateOf(saved[i]), rfc3339)
    ensures i < |events| ==> answers[i] != Err(CorruptState)
  {
    if i > 0 {
      EverySavedStateValidates(events, saved, answers, rfc3339, i - 1);
      HistoryStep(events, saved, answers, rfc3339, i - 1);
      RunKeepsValid(saved[i - 1], events[i - 1], rfc3339);
    }
    if i < |events| {
      HistoryStep(events, saved, answers, rfc3339, i);
      RunKeepsValid(saved[i], events[i], rfc3339);
    }
  }

  lemma {:induction false} RunKeepsValid(saved: Option<D3State>, e: Event, rfc3339: string -> bool)
    requires ValidateState(StateOf(saved), rfc3339) && Parsed(e.input.devices) && rfc3339(e.input.now)
    ensures var (answer, after) := RunSpec(saved, e.input, e.op, e.saves, rfc3339);
            ValidateState(StateOf(after), rfc3339) && answer != Err(CorruptState)
  {
    if Paired(e.input) && Proposed(e.input, e.op, StateOf(saved)).Ok? {
      ProposalsAreValid(e.input, e.op, StateOf(saved), rfc3339);
    }
  }

  /** The baseline only ever goes away by a reset, and only ever appears by learning when there is none. */
  lemma {:induction false} BaselineChangesByResetOrLearn(
    events: seq<Event>, saved: seq<Option<D3State>>, answers: seq<Answer>, rfc3339: string -> bool, i: nat)
    requires IsHistory(events, saved, answers, rfc3339) && i < |events|
    ensures var before, after := StateOf(saved[i]).baseline, StateOf(saved[i + 1]).baseline;
            before != after ==>
              (answers[i] == Ok(BaselineReset) && events[i].op.Reset? && after.None?)
              || (answers[i] == Ok(BaselineLearned) && events[i].op.Learn? && before.None? && after.Some?)
  {
  }

  function CountAnswers(answers: seq<Answer>, verdict: Verdict): nat {
    if answers == [] then 0
    else CountAnswers(answers[..|answers| - 1], verdict) + if answers[|answers| - 1] == Ok(verdict) then 1 else 0
  }

  function Outstanding(s: D3State): nat { if s.pending.Some? then 1 else 0 }

  lemma {:induction false} CountStep(answers: seq<Answer>, i: nat, verdict: Verdict)
    requires i < |answers|
    ensures CountAnswers(answers[..i + 1], verdict)
         == CountAnswers(answers[..i], verdict) + if answers[i] == Ok(verdict) then 1 else 0
  {
    assert answers[..i + 1][..i] == answers[..i];
  }

  /** One run: a recovery uses up a pending finding, and a finding comes from an absence only. */
  lemma {:induction false} RunBalance(saved: Option<D3State>, e: Event, rfc3339: string -> bool)
    ensures var (answer, after) := RunSpec(saved, e.input, e.op, e.saves, rfc3339);
      (if answer == Ok(Recovered) then 1 else 0) + Outstanding(StateOf(after))
        <= Outstanding(StateOf(saved)) + if answer == Ok(BusAbsent) then 1 else 0
    ensures var (answer, after) := RunSpec(saved, e.input, e.op, e.saves, rfc3339);
      StateOf(after).pending.Some? ==>
        || (answer == Ok(BusAbsent) && StateOf(after).pending.value.observationBootId == e.input.bootId)
        || (StateOf(after).pending == StateOf(saved).pending
            && answer !in {Ok(BusAbsent), Ok(Recovered), Ok(HardwareChanged), Ok(BaselineReset), Ok(BaselineLearned)})
  {
    hide ValidateState;
    hide Paired;
    hide BaselineFrom;
    hide Twins;
    hide AtSlot;
    hide Relocated;
    hide Matching;
    hide Fires;
    hide PriorKnown;
    hide Contradictory;
  }

  /** At every point, recoveries answered never outnumber absences answered; a pending finding is
      an absence not yet accounted for. */
  lemma {:induction false} RecoveriesNeverOutnumberAbsences(
    events: seq<Event>, saved: seq<Option<D3State>>, answers: seq<Answer>, rfc3339: string -> bool, i: nat)
    requires IsHistory(events, saved, answers, rfc3339) && i < |saved|
    ensures CountAnswers(answers[..i], Recovered) + Outstanding(StateOf(saved[i]))
         <= CountAnswers(answers[..i], BusAbsent)
  {
    hide RunSpec;
    if i > 0 {
      RecoveriesNeverOutnumberAbsences(events, saved, answers, rfc3339, i - 1);
      HistoryStep(events, saved, answers, rfc3339, i - 1);
      RunBalance(saved[i - 1], events[i - 1], rfc3339);
      CountStep(answers, i - 1, Recovered);
      CountStep(answers, i - 1, BusAbsent);
    }
  }

  /** Run `j` answered bus-absent for boot `boot`, and nothing between `j` and `i` took that back:
      no recovery, no hardware change, no reset, no new baseline. */
  ghost predicate AbsenceStands(events: seq<Event>, answers: seq<Answer>, j: nat, i: nat, boot: string) {
    && j < i <= |answers| == |events| && answers[j] == Ok(BusAbsent) && events[j].input.bootId == boot
    && forall k :: j < k < i ==>
         answers[k] !in {Ok(Recovered), Ok(HardwareChanged), Ok(BaselineReset), Ok(BaselineLearned)}
  }

  /** A pending finding is always the record of one earlier absence that still stands. */
  lemma {:induction false} PendingRecordsAbsence(
    events: seq<Event>, saved: seq<Option<D3State>>, answers: seq<Answer>, rfc3339: string -> bool, i: nat)
    requires IsHistory(events, saved, answers, rfc3339) && i < |saved| && StateOf(saved[i]).pending.Some?
    ensures exists j :: AbsenceStands(events, answers, j, i, StateOf(saved[i]).pending.value.observationBootId)
  {
    hide RunSpec;
    if i > 0 {
      HistoryStep(events, saved, answers, rfc3339, i - 1);
      RunBalance(saved[i - 1], events[i - 1], rfc3339);
      if answers[i - 1] == Ok(BusAbsent) {
        assert AbsenceStands(events, answers, i - 1, i, events[i - 1].input.bootId);
      } else {
        var boot := StateOf(saved[i]).pending.value.observationBootId;
        assert StateOf(saved[i - 1]).pending == StateOf(saved[i]).pending;
        PendingRecordsAbsence(events, saved, answers, rfc3339, i - 1);
        var j :| AbsenceStands(events, answers, j, i - 1, boot);
        assert AbsenceStands(events, answers, j, i, boot);
      }
    }
  }

  /** Each recovery consumes a pending finding: an absence answered earlier, on a different boot. */
  lemma {:induction false} RecoveryConsumesAbsence(
    events: seq<Event>, saved: seq<Option<D3State>>, answers: seq<Answer>, rfc3339: string -> bool, i: nat)
    requires IsHistory(events, saved, answers, rfc3339) && i < |events| && answers[i] == Ok(Recovered)
    ensures StateOf(saved[i]).pending.Some? && StateOf(saved[i + 1]).pending.None?
    ensures var boot := StateOf(saved[i]).pending.value.observationBootId;
            boot != events[i].input.bootId && exists j :: AbsenceStands(events, answers, j, i, boot)
  {
    HistoryStep(events, saved, answers, rfc3339, i);
    PendingRecordsAbsence(events, saved, answers, rfc3339, i);
  }

  /** Device `k` is the one and only device with the learned identity, and sits in the learned slot. */
  ghost predicate SoleDevice(devices: seq<PciDevice>, b: Baseline, k: nat) {
    && k < |devices| && Matches(devices[k], b) && devices[k].bdf == b.slot
    && forall j :: 0 <= j < |devices| && Matches(devices[j], b) ==> j == k
  }

  lemma {:induction false} NoMatching(devices: seq<PciDevice>, b: Baseline)
    requires Matching(devices, b) == []
    ensures forall j :: 0 <= j < |devices| ==> !Matches(devices[j], b)
  {
    if devices != [] {
      NoMatching(devices[1..], b);
      assert forall j :: 1 <= j < |devices| ==> devices[j] == devices[1..][j - 1];
    }
  }

  lemma {:induction false} OneMatching(devices: seq<PciDevice>, b: Baseline) returns (k: nat)
    requires |Matching(devices, b)| == 1 && Matching(devices, b)[0].bdf == b.slot
    ensures SoleDevice(devices, b, k)
  {
    assert forall j :: 1 <= j < |devices| ==> devices[j] == devices[1..][j - 1];
    if Matches(devices[0], b) {
      NoMatching(devices[1..], b);
      k := 0;
    } else {
      k := OneMatching(devices[1..], b);
      k := k + 1;
    }
  }

  /** A diagnosis past the hardware and absence guards is about exactly one device: the only one
      with the learned identity, and it sits in the learned slot. */
  lemma {:induction false} DiagnosisIsAboutOneDevice(
    events: seq<Event>, saved: seq<Option<D3State>>, answers: seq<Answer>, rfc3339: string -> bool, i: nat)
    requires IsHistory(events, saved, answers, rfc3339) && i < |events|
    requires answers[i] in {Ok(PrecursorWarning), Ok(Recovered), Ok(HistoryUnavailable), Ok(Healthy)}
    ensures StateOf(saved[i]).baseline.Some?
    ensures exists k :: SoleDevice(events[i].input.devices, StateOf(saved[i]).baseline.value, k)
  {
    HistoryStep(events, saved, answers, rfc3339, i);
    var k := OneMatching(events[i].input.devices, StateOf(saved[i]).baseline.value);
  }
}
