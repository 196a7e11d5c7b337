/** Whole runs of the tailer, its driver, the log's directory and the index, crashes included. */
module TailerRuns {
  import opened Wrappers
  import opened Bytes
  import opened Lines
  import opened Tailer
  import opened Bulk

  /** What the driver loop holds between two steps: nothing, a batch, or the answer to a batch. */
  datatype Driver = Idle | Holding(events: seq<EventEnvelope>) | Answered(token: TailToken, delivered: bool)

  /** History: a byte range of one generation that the checkpoint moved over, and its lines. */
  datatype Segment = Segment(gen: Gen, from: nat, upto: nat, lines: seq<Line>)
  type Trail = seq<Segment>

  /** `savedTrail` and `stateTrail` record how the checkpoint file and the memory got where they are. */
  datatype Sys = Sys(
    dir: LogDir, view: View, driver: Driver, store: seq<Entry>, savedTrail: Trail, stateTrail: Trail)

  datatype Step =
    | Append(gen: Gen, more: bytes)  // a client appends to a file it has open, rotated or not
    | Rotate(listing: seq<Gen>)      // the log is renamed to a sibling
    | NewLog(gen: Gen)               // a fresh file appears at the log path
    | Forget(listing: seq<Gen>)      // old siblings are deleted
    | Poll(session: Session, io: PollIo)
    | Ship(attempts: seq<Attempt>, errors: bool, answered: bool)
    | Settle(write: WriteOutcome)    // acknowledge or release, as the answer says
    | Crash                          // the process dies and a new one starts

  // ---- Steps ----

  ghost predicate Findable(dir: LogDir, cp: Option<TailState>) {
    cp.Some? ==> dir.current == Some(cp.value.gen) || cp.value.gen in dir.rotated
  }

  ghost predicate Enabled(s: Sys, step: Step) {
    match step
    case Append(gen, more) => gen in s.dir.content && Fits64(|s.dir.content[gen]| + |more|)
    case Rotate(listing) =>
      s.dir.current.Some? && forall g :: g in listing <==> g in s.dir.rotated || g == s.dir.current.value
    case NewLog(gen) => s.dir.current.None? && gen !in s.dir.content && GenFits(gen)
    case Forget(listing) =>
      && (forall g :: g in listing ==> g in s.dir.rotated)
      && Findable(s.dir.(rotated := listing), s.view.saved) && Findable(s.dir.(rotated := listing), s.view.state)
    case Poll(_, _) => s.driver.Idle? && s.dir.Valid()
    case Ship(attempts, _, _) =>
      s.driver.Holding? && |attempts| == |s.driver.events| > 0 && forall a :: a in attempts ==> Honest(a)
    case Settle(_) => s.driver.Answered? && (s.view.inflight.Some? ==> s.view.state.Some?)
    case Crash => true
  }

  /** The trail after the checkpoint moves to `cp`. */
  ghost function Extend(trail: Trail, content: map<Gen, bytes>, cp: Option<TailState>): Trail {
    if cp.None? || cp.value.gen !in content || cp.value.offset > |content[cp.value.gen]| then trail
    else
      var b, gen, offset := content[cp.value.gen], cp.value.gen, cp.value.offset;
      if trail == [] then [Segment(gen, offset, offset, [])]
      else
        var last := trail[|trail| - 1];
        if last.gen == gen && last.upto <= offset then
          trail[..|trail| - 1] + [Segment(gen, last.from, offset, last.lines + Split(b, last.upto, offset))]
        else trail + [Segment(gen, 0, offset, Split(b, 0, offset))]
  }

  ghost function Moved(s: Sys, view: View, driver: Driver): Sys {
    s.(view := view, driver := driver,
       stateTrail := if view.state == s.view.state then s.stateTrail
                     else Extend(s.stateTrail, s.dir.content, view.state),
       savedTrail := if view.saved == s.view.saved then s.savedTrail
                     else Extend(s.stateTrail, s.dir.content, view.saved))
  }

  ghost function Do(src: Source, s: Sys, step: Step): Sys
    requires Enabled(s, step)
  {
    match step
    case Append(gen, more) => s.(dir := s.dir.(content := s.dir.content[gen := s.dir.content[gen] + more]))
    case Rotate(listing) => s.(dir := s.dir.(current := None, rotated := listing))
    case NewLog(gen) => s.(dir := s.dir.(current := Some(gen), content := s.dir.content[gen := []]))
    case Forget(listing) => s.(dir := s.dir.(rotated := listing))
    case Poll(session, io) =>
      var p := PollSpec(src, s.dir, session, io, s.view);
      Moved(s, p.view, if p.reply.Ok? && p.reply.value != [] then Holding(p.reply.value) else Idle)
    case Ship(attempts, errors, answered) =>
      var keyed := seq(|attempts|, _ => true);
      var applied := Apply(s.store, s.driver.events, attempts);
      var failed := FailedCount(keyed, Response(errors, Some(applied.1)));
      s.(store := applied.0, driver := Answered(s.driver.events[0].token, answered && failed == 0))
    case Settle(write) =>
      if s.driver.delivered then Moved(s, AckSpec(s.view, s.driver.token, write).view, Idle)
      else Moved(s, NackSpec(s.view), Idle)
    case Crash => s.(view := RestartSpec(s.view.saved), driver := Idle, stateTrail := s.savedTrail)
  }

  // ---- The invariant ----

  /** The bytes `[from, upto)` end a line, and every wanted line in them is in the index. */
  ghost predicate Committed(
    src: Source, content: map<Gen, bytes>, store: seq<Entry>, gen: Gen, from: nat, upto: nat)
  {
    && gen in content && Aligned(content[gen], from, upto)
    && forall l :: l in Split(content[gen], from, upto) && Wanted(src, l)
         ==> Has(store, LineIdentity(src, gen, l.at, l.raw))
  }

  ghost predicate SegmentOk(src: Source, content: map<Gen, bytes>, store: seq<Entry>, g: Segment) {
    Committed(src, content, store, g.gen, g.from, g.upto) && g.lines == Split(content[g.gen], g.from, g.upto)
  }

  /** The generation is not at the log path, and has been read to what is now its very end. */
  ghost predicate Drained(dir: LogDir, gen: Gen, upto: nat) {
    gen in dir.content && upto == |dir.content[gen]| && dir.current != Some(gen)
  }

  /** The generation has been left behind. A client that still has it open may have appended to it since. */
  ghost predicate LeftBehind(dir: LogDir, gen: Gen, upto: nat) {
    gen in dir.content && upto <= |dir.content[gen]| && dir.current != Some(gen)
  }

  ghost predicate TrailOk(src: Source, dir: LogDir, store: seq<Entry>, trail: Trail) {
    forall i :: 0 <= i < |trail| ==>
      && SegmentOk(src, dir.content, store, trail[i])
      && (i + 1 < |trail| ==> LeftBehind(dir, trail[i].gen, trail[i].upto))
      && (i > 0 ==> trail[i].from == 0)
  }

  ghost predicate CheckpointOk(src: Source, dir: LogDir, store: seq<Entry>, trail: Trail, cp: Option<TailState>) {
    && (cp.None? <==> trail == [])
    && (cp.Some? ==> trail[|trail| - 1].gen == cp.value.gen && trail[|trail| - 1].upto == cp.value.offset)
    && Findable(dir, cp) && TrailOk(src, dir, store, trail)
  }

  /** `e` was read from a complete wanted line of its generation and carries that line's id. */
  ghost predicate FromLine(src: Source, content: map<Gen, bytes>, gen: Gen, at: nat, id: Digest) {
    gen in content && exists l :: LineOf(content[gen], l) && l.at == at && Wanted(src, l)
                                  && id == LineIdentity(src, gen, l.at, l.raw)
  }

  ghost predicate Covers(src: Source, content: map<Gen, bytes>, token: TailToken, events: seq<EventEnvelope>)
    requires token.gen in content && Aligned(content[token.gen], token.start, token.end)
  {
    && (forall e :: e in events ==> e.token == token && FromLine(src, content, token.gen, e.at, e.id))
    && (forall l :: l in Split(content[token.gen], token.start, token.end) && Wanted(src, l)
          ==> exists e :: e in events && e.id == LineIdentity(src, token.gen, l.at, l.raw))
  }

  ghost predicate TokenOk(content: map<Gen, bytes>, view: View, token: TailToken) {
    && view.state == Some(TailState(token.gen, token.start)) && token.start < token.end
    && token.gen in content && Aligned(content[token.gen], token.start, token.end)
  }

  /** A batch in flight starts at the checkpoint, and the driver holds exactly its events or answer. */
  ghost predicate FlightOk(src: Source, content: map<Gen, bytes>, store: seq<Entry>, view: View, driver: Driver) {
    && (view.inflight.Some? ==> TokenOk(content, view, view.inflight.value))
    && match driver
       case Idle => true
       case Holding(events) =>
         view.inflight.Some? && events != [] && Covers(src, content, view.inflight.value, events)
       case Answered(token, delivered) =>
         view.inflight == Some(token)
         && (delivered ==> Committed(src, content, store, token.gen, token.start, token.end))
  }

  ghost predicate StoreOk(src: Source, content: map<Gen, bytes>, store: seq<Entry>) {
    && DistinctIds(store)
    && forall i :: 0 <= i < |store| ==> FromLine(src, content, store[i].gen, store[i].at, store[i].id)
  }

  ghost predicate DirOk(dir: LogDir) {
    && dir.Valid()
    && forall g :: g in dir.content ==> GenFits(g) && Fits64(|dir.content[g]|)
  }

  ghost predicate Inv(src: Source, s: Sys) {
    && DirOk(s.dir)
    && CheckpointOk(src, s.dir, s.store, s.stateTrail, s.view.state)
    && CheckpointOk(src, s.dir, s.store, s.savedTrail, s.view.saved)
    && FlightOk(src, s.dir.content, s.store, s.view, s.driver)
    && StoreOk(src, s.dir.content, s.store)
  }

  ghost predicate Init(s: Sys) {
    DirOk(s.dir) && s.view == RestartSpec(None) && s.driver.Idle? && s.store == []
    && s.savedTrail == [] && s.stateTrail == []
  }

  // ---- Growth: appended bytes and stored documents never undo what holds ----

  ghost predicate Grows(c: map<Gen, bytes>, c': map<Gen, bytes>) {
    forall g :: g in c ==> g in c' && c[g] <= c'[g]
  }

  lemma HasGrows(store: seq<Entry>, store': seq<Entry>, id: Digest)
    requires store <= store' && Has(store, id)
    ensures Has(store', id)
  {
    var i :| 0 <= i < |store| && store[i].id == id;
    assert store'[i].id == id;
  }

  lemma {:induction false} CommittedGrows(
    src: Source, c: map<Gen, bytes>, c': map<Gen, bytes>, store: seq<Entry>, store': seq<Entry>,
    gen: Gen, from: nat, upto: nat)
    requires Grows(c, c') && store <= store' && Committed(src, c, store, gen, from, upto)
    ensures Committed(src, c', store', gen, from, upto)
    ensures Split(c'[gen], from, upto) == Split(c[gen], from, upto)
  {
    SplitSame(c[gen], c'[gen], from, upto);
    forall l | l in Split(c'[gen], from, upto) && Wanted(src, l)
      ensures Has(store', LineIdentity(src, gen, l.at, l.raw))
    {
      HasGrows(store, store', LineIdentity(src, gen, l.at, l.raw));
    }
  }

  lemma {:induction false} TrailGrows(
    src: Source, dir: LogDir, dir': LogDir, store: seq<Entry>, store': seq<Entry>, trail: Trail)
    requires Grows(dir.content, dir'.content) && store <= store' && TrailOk(src, dir, store, trail)
    requires forall gen, n :: LeftBehind(dir, gen, n) ==> LeftBehind(dir', gen, n)
    ensures TrailOk(src, dir', store', trail)
  {
    forall i | 0 <= i < |trail| ensures SegmentOk(src, dir'.content, store', trail[i]) {
      CommittedGrows(src, dir.content, dir'.content, store, store', trail[i].gen, trail[i].from, trail[i].upto);
    }
  }

  lemma FromLineGrows(src: Source, c: map<Gen, bytes>, c': map<Gen, bytes>, gen: Gen, at: nat, id: Digest)
    requires Grows(c, c') && FromLine(src, c, gen, at, id)
    ensures FromLine(src, c', gen, at, id)
  {
    var l :| LineOf(c[gen], l) && l.at == at && Wanted(src, l) && id == LineIdentity(src, gen, l.at, l.raw);
    LineOfGrows(c[gen], c'[gen], l);
  }

  lemma {:induction false} CoversGrows(
    src: Source, c: map<Gen, bytes>, c': map<Gen, bytes>, token: TailToken, events: seq<EventEnvelope>)
    requires token.gen in c && Aligned(c[token.gen], token.start, token.end)
    requires Grows(c, c') && Covers(src, c, token, events)
    ensures Aligned(c'[token.gen], token.start, token.end) && Covers(src, c', token, events)
  {
    SplitSame(c[token.gen], c'[token.gen], token.start, token.end);
    forall e | e in events ensures FromLine(src, c', token.gen, e.at, e.id) {
      FromLineGrows(src, c, c', token.gen, e.at, e.id);
    }
  }

  /** Every change outside the agent keeps the invariant. */
  lemma {:induction false} EnvironmentKeepsInv(src: Source, s: Sys, dir': LogDir)
    requires Inv(src, s) && DirOk(dir') && Grows(s.dir.content, dir'.content)
    requires Findable(dir', s.view.state) && Findable(dir', s.view.saved)
    requires forall gen, n :: LeftBehind(s.dir, gen, n) ==> LeftBehind(dir', gen, n)
    ensures Inv(src, s.(dir := dir'))
  {
    TrailGrows(src, s.dir, dir', s.store, s.store, s.stateTrail);
    TrailGrows(src, s.dir, dir', s.store, s.store, s.savedTrail);
    forall i | 0 <= i < |s.store| ensures FromLine(src, dir'.content, s.store[i].gen, s.store[i].at, s.store[i].id) {
      FromLineGrows(src, s.dir.content, dir'.content, s.store[i].gen, s.store[i].at, s.store[i].id);
    }
    match s.driver {
      case Idle =>
      case Holding(events) => CoversGrows(src, s.dir.content, dir'.content, s.view.inflight.value, events);
      case Answered(token, delivered) =>
        if delivered {
          CommittedGrows(src, s.dir.content, dir'.content, s.store, s.store, token.gen, token.start, token.end);
        }
    }
  }

  // ---- Moves of the checkpoint ----

  /** The moves a checkpoint may make: start at a log's end, advance over committed bytes, or leave
      a drained generation for the start of another and advance there. */
  ghost predicate Legit(src: Source, dir: LogDir, store: seq<Entry>, from: Option<TailState>, cp: Option<TailState>) {
    cp.Some? && Findable(dir, cp) && cp.value.gen in dir.content
    && if from.None? then dir.current == Some(cp.value.gen) && cp.value.offset == |dir.content[cp.value.gen]|
       else if from.value.gen == cp.value.gen then
         Committed(src, dir.content, store, cp.value.gen, from.value.offset, cp.value.offset)
       else
         dir.current == Some(cp.value.gen) && Drained(dir, from.value.gen, from.value.offset)
         && Committed(src, dir.content, store, cp.value.gen, 0, cp.value.offset)
  }

  lemma {:induction false} CommittedConcat(
    src: Source, content: map<Gen, bytes>, store: seq<Entry>, gen: Gen, from: nat, mid: nat, upto: nat)
    requires Committed(src, content, store, gen, from, mid) && Committed(src, content, store, gen, mid, upto)
    ensures Committed(src, content, store, gen, from, upto)
    ensures Split(content[gen], from, upto) == Split(content[gen], from, mid) + Split(content[gen], mid, upto)
  {
    SplitConcat(content[gen], from, mid, upto);
  }

  lemma {:induction false} MoveKeepsCheckpoint(
    src: Source, dir: LogDir, store: seq<Entry>, trail: Trail, from: Option<TailState>, cp: Option<TailState>)
    requires CheckpointOk(src, dir, store, trail, from) && Legit(src, dir, store, from, cp)
    ensures CheckpointOk(src, dir, store, Extend(trail, dir.content, cp), cp)
  {
    hide Split;
    hide Span;
    var trail' := Extend(trail, dir.content, cp);
    var b, gen, offset := dir.content[cp.value.gen], cp.value.gen, cp.value.offset;
    SplitNil(b, offset);
    if from.Some? {
      var last := trail[|trail| - 1];
      assert SegmentOk(src, dir.content, store, last);
      if last.gen == gen {
        CommittedConcat(src, dir.content, store, gen, last.from, last.upto, offset);
      }
      forall i | 0 <= i < |trail'| ensures SegmentOk(src, dir.content, store, trail'[i]) {
        if i < |trail| - 1 { assert trail'[i] == trail[i]; }
      }
    }
  }

  // ---- One poll ----

  lemma {:induction false} EnvelopesSound(
    src: Source, session: Session, token: TailToken, lines: seq<Line>, e: EventEnvelope)
    requires e in Envelopes(src, session, token, lines)
    ensures exists l :: l in lines && Wanted(src, l) && e == Envelope(src, session, token, l)
  {
    if !(Wanted(src, lines[0]) && e == Envelope(src, session, token, lines[0])) {
      EnvelopesSound(src, session, token, lines[1..], e);
    }
  }

  lemma {:induction false} EnvelopesComplete(src: Source, session: Session, token: TailToken, lines: seq<Line>, l: Line)
    requires l in lines && Wanted(src, l)
    ensures Envelope(src, session, token, l) in Envelopes(src, session, token, lines)
  {
    if l != lines[0] { EnvelopesComplete(src, session, token, lines[1..], l); }
  }

  /** A batch is the split of the bytes it spans, and keeps to the batch limits. */
  lemma {:induction false} BatchIsSplit(content: bytes, offset: nat, read: nat)
    requires offset <= |content|
    ensures var lines := Batch(content, offset, read);
            var end := offset + Span(lines);
            && end <= |content| && Aligned(content, offset, end) && (lines == [] <==> end == offset)
            && Split(content, offset, end) == lines
            && |lines| <= MAX_BATCH_LINES && (Span(lines) <= MAX_BATCH_BYTES || |lines| == 1)
  {
    var stop := WindowEnd(content, offset, read);
    var n := BatchCount(Split(content, offset, stop), 0);
    SplitDrop(content, offset, stop, n);
    SplitTake(content, offset, stop, n);
    if n > 0 {
      assert Fits(Split(content, offset, stop), n - 1);
    }
  }

  lemma {:induction false} EventsCover(
    src: Source, content: map<Gen, bytes>, session: Session, token: TailToken, lines: seq<Line>)
    requires token.gen in content && Aligned(content[token.gen], token.start, token.end)
    requires lines == Split(content[token.gen], token.start, token.end)
    ensures Covers(src, content, token, Envelopes(src, session, token, lines))
  {
    var events := Envelopes(src, session, token, lines);
    forall e | e in events ensures e.token == token && FromLine(src, content, token.gen, e.at, e.id) {
      EnvelopesSound(src, session, token, lines, e);
      var l :| l in lines && Wanted(src, l) && e == Envelope(src, session, token, l);
      SplitLines(content[token.gen], token.start, token.end, l);
    }
    forall l | l in lines && Wanted(src, l)
      ensures exists e :: e in events && e.id == LineIdentity(src, token.gen, l.at, l.raw)
    {
      EnvelopesComplete(src, session, token, lines, l);
    }
  }

  /** A read hands out a covering batch at the checkpoint, or moves over lines nobody wants. */
  lemma {:induction false} ReadMoves(
    src: Source, dir: LogDir, store: seq<Entry>, session: Session, io: PollIo, v: View, gen: Gen)
    requires gen in dir.content && v.inflight.None?
    requires v.state.Some? && v.state.value.gen == gen && v.state.value.offset <= dir.Len(gen)
    ensures var p := ReadSpec(src, dir, session, io, v, gen);
            && (p.view.state == v.state || (p.view.state.Some? && p.view.state.value.gen == gen
                 && Committed(src, dir.content, store, gen, v.state.value.offset, p.view.state.value.offset)))
            && (p.view.saved == v.saved || (p.view.saved.Some? && p.view.saved.value.gen == gen
                 && Committed(src, dir.content, store, gen, v.state.value.offset, p.view.saved.value.offset)))
            && (if p.reply.Ok? && p.reply.value != [] then
                  && p.view.inflight.Some? && TokenOk(dir.content, p.view, p.view.inflight.value)
                  && Covers(src, dir.content, p.view.inflight.value, p.reply.value)
                else p.view.inflight.None?)
  {
    hide Batch;
    hide Split;
    hide Covers;
    if io.read.Some? {
      var offset := v.state.value.offset;
      var lines := Batch(dir.content[gen], offset, io.read.value);
      BatchIsSplit(dir.content[gen], offset, io.read.value);
      var token := TailToken(gen, offset, offset + Span(lines));
      var events := Envelopes(src, session, token, lines);
      EventsCover(src, dir.content, session, token, lines);
      var p := ReadSpec(src, dir, session, io, v, gen);
      if events != [] {
        assert p == Polled(v.(inflight := Some(token)), Ok(events)) && lines != [];
      } else if lines == [] {
        assert p == Polled(v, Ok([]));
      } else {
        assert Committed(src, dir.content, store, gen, offset, token.end);
        var ahead := Some(TailState(gen, token.end));
        match io.settle {
          case Durable => assert p.view == View(ahead, ahead, None);
          case Lost => assert p.view == v;
          case DurableButFailed => assert p.view == v.(saved := ahead);
        }
      }
    }
  }

  lemma {:induction false} PollMoves(src: Source, s: Sys, session: Session, io: PollIo)
    requires Inv(src, s) && s.driver.Idle?
    ensures var p := PollSpec(src, s.dir, session, io, s.view);
            && (p.view.state == s.view.state || Legit(src, s.dir, s.store, s.view.state, p.view.state))
            && (p.view.saved == s.view.saved || Legit(src, s.dir, s.store, s.view.state, p.view.saved))
            && (if p.reply.Ok? && p.reply.value != [] then
                  && p.view.inflight.Some? && TokenOk(s.dir.content, p.view, p.view.inflight.value)
                  && Covers(src, s.dir.content, p.view.inflight.value, p.reply.value)
                else p.view.inflight.None? || p.view == s.view)
  {
    var v, dir := s.view, s.dir;
    if v.inflight.None? && io.stat && dir.current.Some? && v.state.Some?
       && (v.state.value.gen == dir.current.value || io.list)
    {
      var at := v.state.value;
      var last := s.stateTrail[|s.stateTrail| - 1];
      assert SegmentOk(src, dir.content, s.store, last);
      match Aim(dir, at) {
        case Stay(gen) => ReadMoves(src, dir, s.store, session, io, v, gen);
        case Restart(gen) =>
          assert Drained(dir, at.gen, at.offset) && gen == dir.current.value;
          var moved := Move(v, TailState(gen, 0), io.relocate);
          if moved.reply.Ok? { ReadMoves(src, dir, s.store, session, io, moved.view, gen); }
      }
    }
  }

  lemma {:induction false} PollKeepsInv(src: Source, s: Sys, session: Session, io: PollIo)
    requires Inv(src, s) && s.driver.Idle?
    ensures Inv(src, Do(src, s, Poll(session, io)))
  {
    var p := PollSpec(src, s.dir, session, io, s.view);
    PollMoves(src, s, session, io);
    if p.view.state != s.view.state {
      MoveKeepsCheckpoint(src, s.dir, s.store, s.stateTrail, s.view.state, p.view.state);
    }
    if p.view.saved != s.view.saved {
      MoveKeepsCheckpoint(src, s.dir, s.store, s.stateTrail, s.view.state, p.view.saved);
    }
  }

  // ---- Shipping, settling, crashing ----

  lemma {:induction false} ShipKeepsInv(src: Source, s: Sys, attempts: seq<Attempt>, errors: bool, answered: bool)
    requires Inv(src, s) && Enabled(s, Ship(attempts, errors, answered))
    ensures Inv(src, Do(src, s, Ship(attempts, errors, answered)))
  {
    var events, token, content := s.driver.events, s.view.inflight.value, s.dir.content;
    var applied := Apply(s.store, events, attempts);
    var store' := applied.0;
    ApplyEffect(s.store, events, attempts);
    TrailGrows(src, s.dir, s.dir, s.store, store', s.stateTrail);
    TrailGrows(src, s.dir, s.dir, s.store, store', s.savedTrail);
    forall i | 0 <= i < |store'| ensures FromLine(src, content, store'[i].gen, store'[i].at, store'[i].id) {
      if i < |s.store| {
        assert store'[i] == s.store[i];
      } else {
        assert FromEvents(events, store'[i]);
      }
    }
    assert events[0] in events;
    if answered { DeliveredIsCommitted(src, s, attempts, errors); }
  }

  /** When the driver counts no failure, every wanted line of the batch is in the index. */
  lemma {:induction false} DeliveredIsCommitted(src: Source, s: Sys, attempts: seq<Attempt>, errors: bool)
    requires Inv(src, s) && Enabled(s, Ship(attempts, errors, true))
    ensures var s', token := Do(src, s, Ship(attempts, errors, true)), s.view.inflight.value;
            s'.driver.delivered ==> Committed(src, s.dir.content, s'.store, token.gen, token.start, token.end)
  {
    hide CheckpointOk;
    hide StoreOk;
    hide DirOk;
    var events, token, content := s.driver.events, s.view.inflight.value, s.dir.content;
    var applied := Apply(s.store, events, attempts);
    var keyed := seq(|attempts|, _ => true);
    ApplyEffect(s.store, events, attempts);
    ZeroFailuresIsAcknowledgement(keyed, Response(errors, Some(applied.1)));
    if FailedCount(keyed, Response(errors, Some(applied.1))) == 0 {
      forall l | l in Split(content[token.gen], token.start, token.end) && Wanted(src, l)
        ensures Has(applied.0, LineIdentity(src, token.gen, l.at, l.raw))
      {
        var e :| e in events && e.id == LineIdentity(src, token.gen, l.at, l.raw);
        var i :| 0 <= i < |events| && events[i] == e;
        assert BulkItemSuccess(true, applied.1[i]);
      }
    }
  }

  /** Where an acknowledged batch takes the checkpoint. */
  ghost function AckTarget(s: Sys): Option<TailState>
    requires s.driver.Answered?
  {
    Some(TailState(s.driver.token.gen, s.driver.token.end))
  }

  /** Settling moves the memory or the checkpoint file to the end of an acknowledged batch, or not at all. */
  lemma {:induction false} SettleMoves(src: Source, s: Sys, write: WriteOutcome)
    requires Inv(src, s) && s.driver.Answered?
    ensures var s', target := Do(src, s, Settle(write)), AckTarget(s);
      && s' == s.(view := s'.view, driver := Idle, stateTrail := s'.stateTrail, savedTrail := s'.savedTrail)
      && (s.driver.delivered ==> Legit(src, s.dir, s.store, s.view.state, target))
      && ((s'.view.state == s.view.state && s'.stateTrail == s.stateTrail)
          || (s.driver.delivered && s'.view.inflight.None? && s'.view.state == target
              && s'.stateTrail == Extend(s.stateTrail, s.dir.content, target)))
      && ((s'.view.saved == s.view.saved && s'.savedTrail == s.savedTrail)
          || (s.driver.delivered && s'.view.saved == target
              && s'.savedTrail == Extend(s.stateTrail, s.dir.content, target)))
      && (s'.view.inflight.None? || (s'.view.inflight == s.view.inflight && s'.view.state == s.view.state))
  {
  }

  lemma {:induction false} SettleKeepsInv(src: Source, s: Sys, write: WriteOutcome)
    requires Inv(src, s) && s.driver.Answered?
    ensures Inv(src, Do(src, s, Settle(write)))
  {
    SettleMoves(src, s, write);
    if s.driver.delivered {
      MoveKeepsCheckpoint(src, s.dir, s.store, s.stateTrail, s.view.state, AckTarget(s));
    }
  }

  lemma CheckpointsFindable(src: Source, s: Sys)
    requires Inv(src, s)
    ensures Findable(s.dir, s.view.state) && Findable(s.dir, s.view.saved)
  {
  }

  lemma {:induction false} DirStepKeepsInv(src: Source, s: Sys, step: Step)
    requires Inv(src, s) && Enabled(s, step)
    requires step.Append? || step.Rotate? || step.NewLog? || step.Forget?
    ensures Inv(src, Do(src, s, step))
  {
    hide CheckpointOk;
    hide StoreOk;
    hide FlightOk;
    CheckpointsFindable(src, s);
    EnvironmentKeepsInv(src, s, Do(src, s, step).dir);
  }

  lemma {:induction false} StepKeepsInv(src: Source, s: Sys, step: Step)
    requires Inv(src, s) && Enabled(s, step)
    ensures Inv(src, Do(src, s, step))
  {
    match step {
      case Poll(session, io) => PollKeepsInv(src, s, session, io);
      case Ship(attempts, errors, answered) => ShipKeepsInv(src, s, attempts, errors, answered);
      case Settle(write) => SettleKeepsInv(src, s, write);
      case Crash =>
      case _ => DirStepKeepsInv(src, s, step);
    }
  }

  // ---- Whole runs ----

  ghost predicate IsRun(src: Source, states: seq<Sys>, steps: seq<Step>) {
    && |states| == |steps| + 1 && Init(states[0])
    && forall i :: 0 <= i < |steps| ==> Enabled(states[i], steps[i]) && states[i + 1] == Do(src, states[i], steps[i])
  }

  lemma {:induction false} RunKeepsInv(src: Source, states: seq<Sys>, steps: seq<Step>, i: nat)
    requires IsRun(src, states, steps) && i < |states|
    ensures Inv(src, states[i])
  {
    if i > 0 {
      RunKeepsInv(src, states, steps, i - 1);
      StepKeepsInv(src, states[i - 1], steps[i - 1]);
    }
  }

  /** How many stored documents came from the line at offset `at` of generation `gen`. */
  function CountLine(store: seq<Entry>, gen: Gen, at: nat): nat {
    if store == [] then 0
    else (if store[0].gen == gen && store[0].at == at then 1 else 0) + CountLine(store[1..], gen, at)
  }

  lemma {:induction false} CountLineAtMostOne(
    src: Source, content: map<Gen, bytes>, store: seq<Entry>, gen: Gen, at: nat)
    requires StoreOk(src, content, store)
    ensures CountLine(store, gen, at) <= 1
    ensures CountLine(store, gen, at) == 1 <==> exists i :: 0 <= i < |store| && store[i].gen == gen && store[i].at == at
    decreases |store|
  {
    if store != [] {
      var rest := store[1..];
      forall i, j | 0 <= i < j < |rest| ensures rest[i].id != rest[j].id { assert store[i + 1].id != store[j + 1].id; }
      forall i | 0 <= i < |rest| ensures FromLine(src, content, rest[i].gen, rest[i].at, rest[i].id) {
        assert rest[i] == store[i + 1];
      }
      CountLineAtMostOne(src, content, rest, gen, at);
      forall i | 0 < i < |store| && store[i].gen == store[0].gen && store[i].at == store[0].at ensures false {
        SameLineSameId(src, content, store[0], store[i]);
      }
      if exists i :: 0 <= i < |store| && store[i].gen == gen && store[i].at == at {
        var i :| 0 <= i < |store| && store[i].gen == gen && store[i].at == at;
        if i > 0 { assert rest[i - 1] == store[i]; }
      }
    }
  }

  lemma SameLineSameId(src: Source, content: map<Gen, bytes>, x: Entry, y: Entry)
    requires FromLine(src, content, x.gen, x.at, x.id) && FromLine(src, content, y.gen, y.at, y.id)
    requires x.gen == y.gen && x.at == y.at
    ensures x.id == y.id
  {
  }

  /** Exactly-once effect. Whatever the run, no line of any generation ever has two documents, and
      every wanted line that the durable checkpoint moved over has exactly one. */
  lemma {:induction false} ExactlyOnce(src: Source, states: seq<Sys>, steps: seq<Step>, i: nat)
    requires IsRun(src, states, steps) && i < |states|
    ensures forall gen, at :: CountLine(states[i].store, gen, at) <= 1
    ensures forall k, l ::
      0 <= k < |states[i].savedTrail| && Wanted(src, l) && l in states[i].savedTrail[k].lines
      ==> CountLine(states[i].store, states[i].savedTrail[k].gen, l.at) == 1
  {
    RunKeepsInv(src, states, steps, i);
    var s := states[i];
    forall gen, at ensures CountLine(s.store, gen, at) <= 1 {
      CountLineAtMostOne(src, s.dir.content, s.store, gen, at);
    }
    forall k, l | 0 <= k < |s.savedTrail| && Wanted(src, l) && l in s.savedTrail[k].lines
      ensures CountLine(s.store, s.savedTrail[k].gen, l.at) == 1
    {
      CommittedLineStored(src, s, s.savedTrail[k], l);
      CountLineAtMostOne(src, s.dir.content, s.store, s.savedTrail[k].gen, l.at);
    }
  }

  /** The document behind a committed line's id came from that very line: ids do not collide. */
  lemma {:induction false} CommittedLineStored(src: Source, s: Sys, g: Segment, l: Line)
    requires Inv(src, s) && SegmentOk(src, s.dir.content, s.store, g) && l in g.lines && Wanted(src, l)
    ensures exists i :: 0 <= i < |s.store| && s.store[i].gen == g.gen && s.store[i].at == l.at
  {
    var content := s.dir.content;
    SplitLines(content[g.gen], g.from, g.upto, l);
    var i :| 0 <= i < |s.store| && s.store[i].id == LineIdentity(src, g.gen, l.at, l.raw);
    var x := s.store[i];
    assert FromLine(src, content, x.gen, x.at, x.id);
    var m :| LineOf(content[x.gen], m) && m.at == x.at && Wanted(src, m)
             && x.id == LineIdentity(src, x.gen, m.at, m.raw);
    IdentityInjective(src, g.gen, l.at, l.raw, x.gen, m.at, m.raw);
  }

  /** What the durable checkpoint moved over is the newline split of whole generations: from the
      first offset to the end each generation had when it was left, and on to the checkpoint. */
  lemma {:induction false} TrailIsSplit(src: Source, states: seq<Sys>, steps: seq<Step>, i: nat)
    requires IsRun(src, states, steps) && i < |states| && states[i].view.saved.Some?
    ensures var s, trail := states[i], states[i].savedTrail;
      && trail != [] && s.view.saved == Some(TailState(trail[|trail| - 1].gen, trail[|trail| - 1].upto))
      && forall k :: 0 <= k < |trail| ==>
           && SegmentOk(src, s.dir.content, s.store, trail[k])
           && (k > 0 ==> trail[k].from == 0)
           && (k + 1 < |trail| ==> WasTheEnd(states, trail[k], i))
  {
    RunKeepsInv(src, states, steps, i);
    EachLeftAtItsEnd(src, states, steps, i);
  }

  /** At some moment up to state `i` the segment reached to the end of its generation. */
  ghost predicate WasTheEnd(states: seq<Sys>, g: Segment, i: nat)
    requires i < |states|
  {
    exists j :: 0 <= j <= i && Drained(states[j].dir, g.gen, g.upto)
  }

  ghost predicate LeftAtEnds(states: seq<Sys>, trail: Trail, i: nat)
    requires i < |states|
  {
    forall k :: 0 <= k < |trail| - 1 ==> WasTheEnd(states, trail[k], i)
  }

  lemma {:induction false} ExtendLeftAtEnds(
    src: Source, states: seq<Sys>, trail: Trail, cp: Option<TailState>, i: nat)
    requires i < |states| && Inv(src, states[i]) && LeftAtEnds(states, trail, i) && trail == states[i].stateTrail
    requires Legit(src, states[i].dir, states[i].store, states[i].view.state, cp)
    ensures LeftAtEnds(states, Extend(trail, states[i].dir.content, cp), i)
  {
  }

  lemma {:induction false} LeftAtEndsLater(states: seq<Sys>, trail: Trail, i: nat)
    requires i + 1 < |states| && LeftAtEnds(states, trail, i)
    ensures LeftAtEnds(states, trail, i + 1)
  {
    forall k | 0 <= k < |trail| - 1 ensures WasTheEnd(states, trail[k], i + 1) {
      assert WasTheEnd(states, trail[k], i);
    }
  }

  /** Every move of a trail in one step: kept, taken over from the other, or extended by a legitimate move. */
  ghost predicate MovedTrail(src: Source, s: Sys, step: Step, trail: Trail) {
    || trail == s.stateTrail || trail == s.savedTrail
    || ((s.view.state.None? ==> step.Poll?)
        && exists cp ::
             Legit(src, s.dir, s.store, s.view.state, cp) && trail == Extend(s.stateTrail, s.dir.content, cp))
  }

  lemma {:induction false} StepMovesTrails(src: Source, s: Sys, step: Step)
    requires Inv(src, s) && Enabled(s, step)
    ensures MovedTrail(src, s, step, Do(src, s, step).stateTrail)
    ensures MovedTrail(src, s, step, Do(src, s, step).savedTrail)
  {
    hide PollSpec;
    hide AckSpec;
    hide CheckpointOk;
    hide StoreOk;
    hide Legit;
    hide Extend;
    match step {
      case Poll(session, io) => PollMoves(src, s, session, io);
      case Settle(write) => SettleMoves(src, s, write);
      case _ =>
    }
  }

  /** A generation is only ever left at what was then its end. */
  lemma {:induction false} EachLeftAtItsEnd(src: Source, states: seq<Sys>, steps: seq<Step>, i: nat)
    requires IsRun(src, states, steps) && i < |states|
    ensures LeftAtEnds(states, states[i].stateTrail, i) && LeftAtEnds(states, states[i].savedTrail, i)
  {
    hide Inv;
    hide Do;
    if i > 0 {
      var s := states[i - 1];
      EachLeftAtItsEnd(src, states, steps, i - 1);
      RunKeepsInv(src, states, steps, i - 1);
      StepMovesTrails(src, s, steps[i - 1]);
      forall trail | trail in {states[i].stateTrail, states[i].savedTrail} ensures LeftAtEnds(states, trail, i) {
        if trail != s.stateTrail && trail != s.savedTrail {
          var cp :| Legit(src, s.dir, s.store, s.view.state, cp) && trail == Extend(s.stateTrail, s.dir.content, cp);
          ExtendLeftAtEnds(src, states, s.stateTrail, cp, i - 1);
        }
        LeftAtEndsLater(states, trail, i - 1);
      }
    }
  }

  /** The trail starts with the log `gen` at its end, as a first poll just found it. */
  ghost predicate StartsNow(s: Sys, step: Step, trail: Trail) {
    && trail != [] && step.Poll? && s.view.state.None? && s.dir.current == Some(trail[0].gen)
    && trail[0].gen in s.dir.content && trail[0].from == |s.dir.content[trail[0].gen]|
  }

  ghost predicate SameStart(trail: Trail, before: Trail) {
    trail != [] && before != [] && trail[0].gen == before[0].gen && trail[0].from == before[0].from
  }

  ghost predicate StartOk(s: Sys, step: Step, trail: Trail) {
    trail == [] || SameStart(trail, s.stateTrail) || SameStart(trail, s.savedTrail) || StartsNow(s, step, trail)
  }

  lemma {:induction false} ExtendStart(src: Source, s: Sys, step: Step, cp: Option<TailState>)
    requires Inv(src, s) && Legit(src, s.dir, s.store, s.view.state, cp)
    requires s.view.state.None? ==> step.Poll?
    ensures StartOk(s, step, Extend(s.stateTrail, s.dir.content, cp))
  {
  }

  lemma {:induction false} StepStart(src: Source, s: Sys, step: Step)
    requires Inv(src, s) && Enabled(s, step)
    ensures StartOk(s, step, Do(src, s, step).stateTrail) && StartOk(s, step, Do(src, s, step).savedTrail)
  {
    hide Do;
    hide Extend;
    hide Legit;
    hide Inv;
    StepMovesTrails(src, s, step);
    forall trail | MovedTrail(src, s, step, trail) ensures StartOk(s, step, trail) {
      if trail != s.stateTrail && trail != s.savedTrail {
        var cp :| Legit(src, s.dir, s.store, s.view.state, cp) && trail == Extend(s.stateTrail, s.dir.content, cp);
        ExtendStart(src, s, step, cp);
      }
    }
  }

  ghost predicate StartedBy(states: seq<Sys>, steps: seq<Step>, trail: Trail, i: nat)
    requires |states| == |steps| + 1
  {
    trail == [] || exists j, t :: 0 <= j < i && j < |steps| && StartsNow(states[j], steps[j], t) && SameStart(trail, t)
  }

  lemma {:induction false} StartedByStep(states: seq<Sys>, steps: seq<Step>, before: Trail, trail: Trail, i: nat)
    requires |states| == |steps| + 1 && i < |steps| && StartedBy(states, steps, before, i)
    requires SameStart(trail, before)
    ensures StartedBy(states, steps, trail, i + 1)
  {
    var j, t :| 0 <= j < i && j < |steps| && StartsNow(states[j], steps[j], t) && SameStart(before, t);
    assert SameStart(trail, t);
  }

  /** Every trail starts at the end of the log as a first poll found it. */
  lemma {:induction false} TrailStartsAtEof(src: Source, states: seq<Sys>, steps: seq<Step>, i: nat)
    requires IsRun(src, states, steps) && i < |states|
    ensures StartedBy(states, steps, states[i].savedTrail, i) && StartedBy(states, steps, states[i].stateTrail, i)
  {
    hide Inv;
    hide Do;
    hide StartsNow;
    if i > 0 {
      var s, step := states[i - 1], steps[i - 1];
      TrailStartsAtEof(src, states, steps, i - 1);
      RunKeepsInv(src, states, steps, i - 1);
      StepStart(src, s, step);
      forall trail | trail in {states[i].savedTrail, states[i].stateTrail} ensures StartedBy(states, steps, trail, i) {
        if SameStart(trail, s.stateTrail) {
          StartedByStep(states, steps, s.stateTrail, trail, i - 1);
        } else if SameStart(trail, s.savedTrail) {
          StartedByStep(states, steps, s.savedTrail, trail, i - 1);
        } else if trail != [] {
          assert StartsNow(s, step, trail) && SameStart(trail, trail);
        }
      }
    }
  }

  // ---- What one reachable state guarantees ----

  /** While a batch is in flight the checkpoint has its generation and start, so the mismatch error
      of an acknowledgement cannot occur; the driver's own acknowledgement can only fail to persist. */
  lemma {:induction false} MismatchUnreachable(src: Source, states: seq<Sys>, steps: seq<Step>, i: nat, w: WriteOutcome)
    requires IsRun(src, states, steps) && i < |states|
    ensures var v := states[i].view;
      && (v.inflight.Some? ==> v.state == Some(TailState(v.inflight.value.gen, v.inflight.value.start)))
      && (forall token :: AckSpec(v, token, w).reply != Err(GenerationMismatch))
      && (states[i].driver.Answered? ==>
            AckSpec(v, states[i].driver.token, w).reply == if w.Durable? then Ok(()) else Err(PersistFailed))
  {
    RunKeepsInv(src, states, steps, i);
  }

  /** No line of a new generation is handed out before the checkpoint reached the old one's end. */
  lemma {:induction false} OldGenerationDrainedFirst(
    src: Source, states: seq<Sys>, steps: seq<Step>, i: nat, session: Session, io: PollIo)
    requires IsRun(src, states, steps) && i < |states| && states[i].driver.Idle? && states[i].dir.Valid()
    requires var p := PollSpec(src, states[i].dir, session, io, states[i].view);
             p.reply.Ok? && p.reply.value != []
    ensures var s := states[i];
            var token := PollSpec(src, s.dir, session, io, s.view).reply.value[0].token;
            s.view.state.Some?
            && ((token.gen == s.view.state.value.gen && token.start == s.view.state.value.offset)
                || (token.start == 0 && s.dir.current == Some(token.gen)
                    && Drained(s.dir, s.view.state.value.gen, s.view.state.value.offset)))
  {
    RunKeepsInv(src, states, steps, i);
    PollDrainsFirst(src, states[i], session, io);
  }

  /** A read that hands out lines starts at the checkpoint it was given. */
  lemma {:induction false} ReadHandsOut(src: Source, dir: LogDir, session: Session, io: PollIo, v: View, gen: Gen)
    requires gen in dir.content && v.state.Some? && v.state.value.offset <= dir.Len(gen)
    requires var p := ReadSpec(src, dir, session, io, v, gen); p.reply.Ok? && p.reply.value != []
    ensures ReadSpec(src, dir, session, io, v, gen).view.state == v.state
  {
    hide Batch;
    hide Envelopes;
  }

  /** A poll that hands out lines reads where it stands, or from the start of the next generation. */
  lemma {:induction false} PollHandsOut(src: Source, dir: LogDir, session: Session, io: PollIo, v: View)
    requires dir.Valid() && PollSpec(src, dir, session, io, v).reply.Ok?
    requires PollSpec(src, dir, session, io, v).reply.value != []
    ensures v.state.Some? && dir.current.Some?
    ensures PollSpec(src, dir, session, io, v).view.state == match Aim(dir, v.state.value)
      case Stay(_) => v.state
      case Restart(gen) => Some(TailState(gen, 0))
  {
    hide ReadSpec;
    match Aim(dir, v.state.value) {
      case Stay(gen) => ReadHandsOut(src, dir, session, io, v, gen);
      case Restart(gen) => ReadHandsOut(src, dir, session, io, Move(v, TailState(gen, 0), io.relocate).view, gen);
    }
  }

  lemma {:induction false} PollDrainsFirst(src: Source, s: Sys, session: Session, io: PollIo)
    requires Inv(src, s) && s.driver.Idle?
    requires PollSpec(src, s.dir, session, io, s.view).reply.Ok?
    requires PollSpec(src, s.dir, session, io, s.view).reply.value != []
    ensures var token := PollSpec(src, s.dir, session, io, s.view).reply.value[0].token;
            s.view.state.Some?
            && ((token.gen == s.view.state.value.gen && token.start == s.view.state.value.offset)
                || (token.start == 0 && s.dir.current == Some(token.gen)
                    && Drained(s.dir, s.view.state.value.gen, s.view.state.value.offset)))
  {
    hide PollSpec;
    hide Legit;
    PollMoves(src, s, session, io);
    PollHandsOut(src, s.dir, session, io, s.view);
    var p, last := PollSpec(src, s.dir, session, io, s.view), s.stateTrail[|s.stateTrail| - 1];
    assert p.reply.value[0] in p.reply.value;
    assert SegmentOk(src, s.dir.content, s.store, last);
  }

  /** Releasing a batch and polling again on unchanged files hands out the same lines. */
  lemma {:induction false} ReplayIsSame(
    src: Source, dir: LogDir, session: Session, session': Session, io: PollIo, io': PollIo, v: View)
    requires dir.Valid() && v.inflight.None?
    requires io'.stat && io'.list && io'.read == io.read
    requires PollSpec(src, dir, session, io, v).reply.Ok? && PollSpec(src, dir, session, io, v).reply.value != []
    ensures var p := PollSpec(src, dir, session, io, v);
            var q := PollSpec(src, dir, session', io', NackSpec(p.view));
            && q.reply.Ok? && |q.reply.value| == |p.reply.value| && q.view == p.view
            && forall i :: 0 <= i < |p.reply.value| ==>
                 q.reply.value[i].id == p.reply.value[i].id && q.reply.value[i].token == p.reply.value[i].token
  {
    if Aim(dir, v.state.value).Stay? {
      ReadIsSame(src, dir, session, session', io, io', v, Aim(dir, v.state.value).gen);
    } else {
      var current := dir.current.value;
      ReadIsSame(src, dir, session, session', io, io', Move(v, TailState(current, 0), io.relocate).view, current);
    }
  }

  lemma {:induction false} ReadIsSame(
    src: Source, dir: LogDir, session: Session, session': Session, io: PollIo, io': PollIo, v: View, gen: Gen)
    requires gen in dir.content && v.state.Some? && v.state.value.offset <= dir.Len(gen) && v.inflight.None?
    requires io'.read == io.read
    requires var p := ReadSpec(src, dir, session, io, v, gen); p.reply.Ok? && p.reply.value != []
    ensures var p := ReadSpec(src, dir, session, io, v, gen);
            var q := ReadSpec(src, dir, session', io', v, gen);
            && NackSpec(p.view) == v && q.reply.Ok? && |q.reply.value| == |p.reply.value| && q.view == p.view
            && forall i :: 0 <= i < |p.reply.value| ==>
                 q.reply.value[i].id == p.reply.value[i].id && q.reply.value[i].token == p.reply.value[i].token
  {
    var offset := v.state.value.offset;
    var lines := Batch(dir.content[gen], offset, io.read.value);
    SameIds(src, session, session', TailToken(gen, offset, offset + Span(lines)), lines);
  }

  lemma {:induction false} SameIds(src: Source, session: Session, session': Session, token: TailToken, lines: seq<Line>)
    ensures var a, b := Envelopes(src, session, token, lines), Envelopes(src, session', token, lines);
            |a| == |b| && forall i :: 0 <= i < |a| ==> a[i].id == b[i].id && a[i].token == b[i].token
  {
    if lines != [] { SameIds(src, session, session', token, lines[1..]); }
  }

  /** One read of a file that so far holds the first `size` bytes of `whole`. */
  ghost function ReadOf(whole: bytes, size: nat, cap: nat, offset: nat): seq<Line> {
    if offset <= size <= |whole| then Batch(whole[..size], offset, cap) else []
  }

  /** The lines handed out by successive acknowledged batches, and the offset they end at. Read `k`
      sees `sizes[k]` bytes of the file and returns at most `caps[k]` bytes. */
  ghost function Batches(whole: bytes, sizes: seq<nat>, caps: seq<nat>, offset: nat): (seq<Line>, nat)
    requires |sizes| == |caps|
    decreases |sizes|
  {
    if sizes == [] then ([], offset)
    else
      var batch := ReadOf(whole, sizes[0], caps[0], offset);
      var rest := Batches(whole, sizes[1..], caps[1..], offset + Span(batch));
      (batch + rest.0, rest.1)
  }

  lemma {:induction false} ReadOfIsSplit(whole: bytes, size: nat, cap: nat, offset: nat)
    requires offset <= |whole|
    ensures var end := offset + Span(ReadOf(whole, size, cap, offset));
            Aligned(whole, offset, end) && ReadOf(whole, size, cap, offset) == Split(whole, offset, end)
  {
    hide Batch;
    hide Split;
    hide Span;
    SpanNil();
    SplitNil(whole, offset);
    if offset <= size <= |whole| {
      var file := whole[..size];
      BatchIsSplit(file, offset, cap);
      var end := offset + Span(Batch(file, offset, cap));
      assert forall k :: 0 <= k < size ==> file[k] == whole[k];
      SplitSame(file, whole, offset, end);
      assert ReadOf(whole, size, cap, offset) == Batch(file, offset, cap);
    }
  }

  lemma {:induction false} Glue(whole: bytes, from: nat, mid: nat, end: nat, a: seq<Line>, b: seq<Line>)
    requires Aligned(whole, from, mid) && Aligned(whole, mid, end)
    requires a == Split(whole, from, mid) && b == Split(whole, mid, end)
    ensures Aligned(whole, from, end) && a + b == Split(whole, from, end)
  {
    SplitConcat(whole, from, mid, end);
  }

  /** However the reads cut the file into batches, the lines handed out are its one-pass split. */
  lemma {:induction false} BatchesRefineSplit(whole: bytes, sizes: seq<nat>, caps: seq<nat>, offset: nat)
    requires |sizes| == |caps| && offset <= |whole|
    ensures Aligned(whole, offset, Batches(whole, sizes, caps, offset).1)
    ensures Batches(whole, sizes, caps, offset).0 == Split(whole, offset, Batches(whole, sizes, caps, offset).1)
    decreases |sizes|
  {
    hide ReadOf;
    hide Split;
    hide Span;
    SplitNil(whole, offset);
    if sizes != [] {
      var first := ReadOf(whole, sizes[0], caps[0], offset);
      var mid := offset + Span(first);
      ReadOfIsSplit(whole, sizes[0], caps[0], offset);
      var rest := Batches(whole, sizes[1..], caps[1..], mid);
      BatchesRefineSplit(whole, sizes[1..], caps[1..], mid);
      Glue(whole, offset, mid, rest.1, first, rest.0);
      assert Batches(whole, sizes, caps, offset) == (first + rest.0, rest.1);
    }
  }
}
