/** The agent's loop around the tailer: poll, ship, then acknowledge or release. */
module TailerDriver {
  import opened Wrappers
  import opened Lines
  import opened Tailer
  import opened Bulk
  import TailerRuns

  /** What one turn does to the tailer: `ship` is the bulk response to a batch, or a transport error. */
  ghost function TurnSpec(
    src: Source, dir: LogDir, session: Session, io: PollIo, ship: seq<EventEnvelope> -> Option<Response>,
    write: WriteOutcome, v: View): View
    requires dir.Valid()
  {
    var p := PollSpec(src, dir, session, io, v);
    if p.reply.Err? || p.reply.value == [] then p.view
    else
      var events := p.reply.value;
      PollShape(src, dir, session, io, v);
      var response := ship(events);
      if response.Some? && FailedCount(Keyed(events), response.value) == 0 then
        AckSpec(p.view, events[0].token, write).view
      else NackSpec(p.view)
  }

  /** Every tailed document carries an id. */
  function Keyed(events: seq<EventEnvelope>): (keyed: seq<bool>)
    ensures |keyed| == |events| && AllKeyed(keyed)
  {
    seq(|events|, _ => true)
  }

  lemma {:induction false} EnvelopesFit(src: Source, session: Session, token: TailToken, lines: seq<Line>)
    ensures |Envelopes(src, session, token, lines)| <= |lines|
    ensures forall e :: e in Envelopes(src, session, token, lines) ==> e.token == token
  {
    if lines != [] { EnvelopesFit(src, session, token, lines[1..]); }
  }

  lemma {:induction false} ReadShape(src: Source, dir: LogDir, session: Session, io: PollIo, v: View, gen: Gen)
    requires gen in dir.content && v.state.Some? && v.state.value.gen == gen && v.state.value.offset <= dir.Len(gen)
    requires var p := ReadSpec(src, dir, session, io, v, gen); p.reply.Ok? && p.reply.value != []
    ensures var p := ReadSpec(src, dir, session, io, v, gen);
      var token := p.reply.value[0].token;
      && |p.reply.value| <= MAX_BATCH_LINES && p.view.inflight == Some(token)
      && p.view.state == Some(TailState(token.gen, token.start))
  {
    hide Batch;
    hide Envelopes;
    var offset := v.state.value.offset;
    var lines := Batch(dir.content[gen], offset, io.read.value);
    TailerRuns.BatchIsSplit(dir.content[gen], offset, io.read.value);
    var events := Envelopes(src, session, TailToken(gen, offset, offset + Span(lines)), lines);
    EnvelopesFit(src, session, TailToken(gen, offset, offset + Span(lines)), lines);
    assert events != [] ==> events[0] in events;
  }

  /** A batch handed out holds at most a hundred events, and its first one names the batch in flight,
      which starts at the checkpoint. A poll that hands nothing out puts nothing in flight. */
  lemma {:induction false} PollShape(src: Source, dir: LogDir, session: Session, io: PollIo, v: View)
    requires dir.Valid()
    ensures var p := PollSpec(src, dir, session, io, v);
      p.reply.Ok? && p.reply.value != [] ==>
        var token := p.reply.value[0].token;
        && |p.reply.value| <= MAX_BATCH_LINES && p.view.inflight == Some(token)
        && p.view.state == Some(TailState(token.gen, token.start))
    ensures var p := PollSpec(src, dir, session, io, v);
      p.reply.Err? || p.reply.value == [] ==> p.view.inflight == v.inflight
  {
    var p := PollSpec(src, dir, session, io, v);
    if p.reply.Ok? && p.reply.value != [] {
      match Aim(dir, v.state.value) {
        case Stay(gen) => ReadShape(src, dir, session, io, v, gen);
        case Restart(gen) => ReadShape(src, dir, session, io, Move(v, TailState(gen, 0), io.relocate).view, gen);
      }
    }
  }

  /** The response a cluster gives to a batch, in the terms of a run's `Ship` step. */
  ghost function Shipping(store: seq<Entry>, attempts: seq<Attempt>, errors: bool, answered: bool)
    : seq<EventEnvelope> -> Option<Response>
  {
    events =>
      if answered && |events| == |attempts| then Some(Response(errors, Some(Apply(store, events, attempts).1)))
      else None
  }

  /** A turn that has a batch to ship is three steps of a run: poll, ship and settle. */
  lemma {:induction false} TurnIsThreeSteps(
    src: Source, s: TailerRuns.Sys, session: Session, io: PollIo, attempts: seq<Attempt>, errors: bool,
    answered: bool, write: WriteOutcome)
    requires TailerRuns.Inv(src, s) && s.driver.Idle?
    requires var p := PollSpec(src, s.dir, session, io, s.view);
      p.reply.Ok? && p.reply.value != [] && |attempts| == |p.reply.value|
    requires forall a :: a in attempts ==> Honest(a)
    ensures
      var s1 := TailerRuns.Do(src, s, TailerRuns.Poll(session, io));
      && TailerRuns.Enabled(s1, TailerRuns.Ship(attempts, errors, answered))
      && var s2 := TailerRuns.Do(src, s1, TailerRuns.Ship(attempts, errors, answered));
         && TailerRuns.Enabled(s2, TailerRuns.Settle(write))
         && TailerRuns.Do(src, s2, TailerRuns.Settle(write)).view
            == TurnSpec(src, s.dir, session, io, Shipping(s.store, attempts, errors, answered), write, s.view)
  {
    hide PollSpec;
    hide AckSpec;
    hide Failures;
    hide Apply;
    hide TailerRuns.Extend;
    hide TailerRuns.CheckpointOk;
    hide TailerRuns.FlightOk;
    hide TailerRuns.StoreOk;
    PollShape(src, s.dir, session, io, s.view);
    var events := PollSpec(src, s.dir, session, io, s.view).reply.value;
    assert Keyed(events) == seq(|attempts|, _ => true);
  }

  /** After a turn no batch is in flight, unless its acknowledgement could not be written. */
  method Turn(
    tailer: RemoteConnectionsTailer, dir: LogDir, session: Session, io: PollIo,
    ship: seq<EventEnvelope> -> Option<Response>, write: WriteOutcome)
    requires dir.Valid()
    modifies tailer`state, tailer`inflight, tailer.checkpoint
    ensures tailer.Now() == TurnSpec(tailer.source, dir, session, io, ship, write, old(tailer.Now()))
    ensures old(tailer.inflight).None? && tailer.inflight.Some? ==> !write.Durable?
  {
    hide PollSpec;
    hide Failures;
    hide BulkItemSuccess;
    PollShape(tailer.source, dir, session, io, tailer.Now());
    var polled := tailer.Poll(dir, session, io);
    if polled.Err? || polled.value == [] { return; }
    var events := polled.value;
    var token := events[0].token;
    var response := ship(events);
    if response.None? {
      tailer.Nack();
      return;
    }
    var result := CountResponse(Keyed(events), response.value);
    assert Keyed(events)[0];
    if result.failed == 0 {
      var acked := tailer.AckSuccess(token, write);
    } else {
      tailer.Nack();
    }
  }
}
