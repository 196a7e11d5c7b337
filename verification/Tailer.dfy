/** The durable log tailer: what one poll, acknowledgement or release does to its state. */
module Tailer {
  import opened Wrappers
  import opened Bytes
  import opened Lines

  const MAX_LINE_BYTES: nat := 64 * 1024
  const MAX_BATCH_LINES: nat := 100
  const MAX_BATCH_BYTES: nat := 256 * 1024
  const READ_WINDOW: nat := MAX_BATCH_BYTES + MAX_LINE_BYTES + 1

  type Session = string
  type Document = string

  /** A log generation: the file's device and inode. */
  datatype Gen = Gen(dev: nat, ino: nat)

  /** SHA-256 as a collision-free function: a digest remembers its preimage. */
  datatype Digest = Sha256(preimage: bytes)

  /** What stays fixed while an agent runs: the host, and the line parser under one peer key. */
  datatype Source = Source(
    host: bytes,
    parses: bytes -> bool,
    render: (bytes, Session) -> Document,
    sanitized: bytes -> bytes)

  datatype TailState = TailState(gen: Gen, offset: nat)
  datatype TailToken = TailToken(gen: Gen, start: nat, end: nat)
  /** `at` is the offset the event was read from; the agent itself keeps it only inside `id`. */
  datatype EventEnvelope = EventEnvelope(document: Document, id: Digest, token: TailToken, at: nat)

  /** The log's directory at one instant: the file at the log path, its `<name>.*` siblings that
      are regular files in listing order, and the bytes of every generation. */
  datatype LogDir = LogDir(current: Option<Gen>, rotated: seq<Gen>, content: map<Gen, bytes>) {
    ghost predicate Valid() {
      && (current.Some? ==> current.value in content)
      && (forall g :: g in rotated ==> g in content)
    }
    function Len(g: Gen): nat requires g in content { |content[g]| }
  }

  /** A checkpoint write is atomic by rename. It can fail before the rename, or after it. */
  datatype WriteOutcome = Durable | Lost | DurableButFailed

  /** How the operating system answers one poll. `read` caps the bytes one read returns. */
  datatype PollIo = PollIo(
    stat: bool, list: bool, relocate: WriteOutcome, read: Option<nat>, settle: WriteOutcome)

  datatype Failure =
    | StatFailed | ListFailed | ReadFailed | PersistFailed
    | NothingInFlight | OutOfOrder | GenerationMismatch

  /** The tailer as a value: the checkpoint file, the state in memory and the batch in flight. */
  datatype View = View(saved: Option<TailState>, state: Option<TailState>, inflight: Option<TailToken>)

  datatype Polled = Polled(view: View, reply: Reply<seq<EventEnvelope>, Failure>)
  datatype Acked = Acked(view: View, reply: Reply<(), Failure>)

  // ---- Line identity ----

  function IdentityFrame(src: Source, gen: Gen, at: nat, raw: bytes): bytes {
    src.host + LittleEndian(gen.dev, 8) + LittleEndian(gen.ino, 8) + LittleEndian(at, 8)
      + src.sanitized(raw)
  }

  function LineIdentity(src: Source, gen: Gen, at: nat, raw: bytes): Digest {
    Sha256(IdentityFrame(src, gen, at, raw))
  }

  ghost predicate Fits64(n: nat) { n < Pow256(8) }

  ghost predicate GenFits(g: Gen) { Fits64(g.dev) && Fits64(g.ino) }

  /** Two lines share an id only if they are the same position of the same generation. */
  lemma {:induction false} IdentityInjective(src: Source, g: Gen, at: nat, raw: bytes, g': Gen, at': nat, raw': bytes)
    requires GenFits(g) && GenFits(g') && Fits64(at) && Fits64(at')
    requires LineIdentity(src, g, at, raw) == LineIdentity(src, g', at', raw')
    ensures g == g' && at == at'
  {
    var h := |src.host|;
    var f, f' := IdentityFrame(src, g, at, raw), IdentityFrame(src, g', at', raw');
    assert f[h..h + 8] == LittleEndian(g.dev, 8) && f'[h..h + 8] == LittleEndian(g'.dev, 8);
    assert f[h + 8..h + 16] == LittleEndian(g.ino, 8) && f'[h + 8..h + 16] == LittleEndian(g'.ino, 8);
    assert f[h + 16..h + 24] == LittleEndian(at, 8) && f'[h + 16..h + 24] == LittleEndian(at', 8);
    LittleEndianInjective(g.dev, g'.dev, 8);
    LittleEndianInjective(g.ino, g'.ino, 8);
    LittleEndianInjective(at, at', 8);
  }

  // ---- Batches ----

  /** Line `k` may join the batch that already holds the `k` lines before it. */
  predicate Fits(lines: seq<Line>, k: nat)
    requires k < |lines|
  {
    k < MAX_BATCH_LINES && (k == 0 || Span(lines[..k + 1]) <= MAX_BATCH_BYTES)
  }

  /** How many of the available lines one batch takes: up to the first that does not fit. */
  function BatchCount(lines: seq<Line>, k: nat): (n: nat)
    requires k <= |lines|
    ensures k <= n <= |lines|
    ensures forall j :: k <= j < n ==> Fits(lines, j)
    ensures n < |lines| ==> !Fits(lines, n)
    decreases |lines| - k
  {
    if k < |lines| && Fits(lines, k) then BatchCount(lines, k + 1) else k
  }

  function Min(a: nat, b: nat): nat { if a < b then a else b }

  /** Where a read of at most `read` bytes from `offset` stops. */
  function WindowEnd(content: bytes, offset: nat, read: nat): (end: nat)
    requires offset <= |content|
    ensures offset <= end <= |content|
  {
    offset + Min(Min(read, READ_WINDOW), |content| - offset)
  }

  /** The lines one read exposes: complete lines of the window, cut at the batch limits. */
  function Batch(content: bytes, offset: nat, read: nat): seq<Line>
    requires offset <= |content|
  {
    var lines := Split(content, offset, WindowEnd(content, offset, read));
    lines[..BatchCount(lines, 0)]
  }

  /** A line that must reach the index: it parses and is no longer than the cap. */
  predicate Wanted(src: Source, l: Line) {
    |l.raw| <= MAX_LINE_BYTES && src.parses(l.raw)
  }

  function Envelope(src: Source, session: Session, token: TailToken, l: Line): EventEnvelope {
    EventEnvelope(src.render(l.raw, session), LineIdentity(src, token.gen, l.at, l.raw), token, l.at)
  }

  /** The events of a batch: one per wanted line, in file order, all under the same token. */
  function Envelopes(src: Source, session: Session, token: TailToken, lines: seq<Line>): seq<EventEnvelope> {
    if lines == [] then []
    else (if Wanted(src, lines[0]) then [Envelope(src, session, token, lines[0])] else [])
           + Envelopes(src, session, token, lines[1..])
  }

  // ---- What the operations do, as functions of the state before ----

  function Written(v: View, w: WriteOutcome): View {
    if w.Lost? then v else v.(saved := v.state)
  }

  function Move(v: View, to': TailState, w: WriteOutcome): Polled {
    var moved := Written(v.(state := Some(to')), w);
    Polled(moved, if w.Durable? then Ok([]) else Err(PersistFailed))
  }

  function ReadSpec(src: Source, dir: LogDir, session: Session, io: PollIo, v: View, gen: Gen): Polled
    requires gen in dir.content && v.state.Some? && v.state.value.offset <= dir.Len(gen)
  {
    if io.read.None? then Polled(v, Err(ReadFailed))
    else
      var offset := v.state.value.offset;
      var lines := Batch(dir.content[gen], offset, io.read.value);
      var token := TailToken(gen, offset, offset + Span(lines));
      var events := Envelopes(src, session, token, lines);
      if events != [] then Polled(v.(inflight := Some(token)), Ok(events))
      else if lines == [] then Polled(v, Ok([]))
      else
        var ahead := Written(v.(state := Some(v.state.value.(offset := token.end))), io.settle);
        if io.settle.Durable? then Polled(ahead, Ok([]))
        else Polled(ahead.(state := v.state), Err(PersistFailed))
  }

  /** The generation a poll reads, and whether the checkpoint first moves to the start of it. */
  datatype Target = Stay(gen: Gen) | Restart(gen: Gen)

  function Aim(dir: LogDir, at: TailState): Target
    requires dir.Valid() && dir.current.Some?
  {
    var current := dir.current.value;
    if at.gen == current then
      if dir.Len(current) < at.offset then Restart(current) else Stay(current)
    else if at.gen in dir.rotated && at.offset < dir.Len(at.gen) then Stay(at.gen)
    else Restart(current)
  }

  function PollSpec(src: Source, dir: LogDir, session: Session, io: PollIo, v: View): Polled
    requires dir.Valid()
  {
    if v.inflight.Some? then Polled(v, Ok([]))
    else if !io.stat then Polled(v, Err(StatFailed))
    else if dir.current.None? then Polled(v, Ok([]))
    else if v.state.None? then
      Move(v, TailState(dir.current.value, dir.Len(dir.current.value)), io.relocate)
    else if v.state.value.gen != dir.current.value && !io.list then Polled(v, Err(ListFailed))
    else match Aim(dir, v.state.value)
      case Stay(gen) => ReadSpec(src, dir, session, io, v, gen)
      case Restart(gen) =>
        var moved := Move(v, TailState(gen, 0), io.relocate);
        if moved.reply.Err? then moved else ReadSpec(src, dir, session, io, moved.view, gen)
  }

  function AckSpec(v: View, token: TailToken, w: WriteOutcome): Acked
    requires v.inflight.Some? ==> v.state.Some?
  {
    if v.inflight.None? then Acked(v, Err(NothingInFlight))
    else if v.inflight.value != token then Acked(v, Err(OutOfOrder))
    else if v.state.value.gen != token.gen || v.state.value.offset != token.start then
      Acked(v, Err(GenerationMismatch))
    else
      var ahead := Written(v.(state := Some(TailState(token.gen, token.end))), w);
      if w.Durable? then Acked(ahead.(inflight := None), Ok(()))
      else Acked(ahead.(state := v.state), Err(PersistFailed))
  }

  function NackSpec(v: View): View { v.(inflight := None) }

  /** A new process starts from the checkpoint file alone. */
  function RestartSpec(saved: Option<TailState>): View { View(saved, saved, None) }

  // ---- The tailer itself ----

  /** The checkpoint file, which outlives the process. */
  class CheckpointFile {
    var saved: Option<TailState>
    constructor () ensures saved == None { saved := None; }
  }

  class RemoteConnectionsTailer {
    const source: Source
    const checkpoint: CheckpointFile
    var state: Option<TailState>
    var inflight: Option<TailToken>

    function Now(): View
      reads this, checkpoint
    {
      View(checkpoint.saved, state, inflight)
    }

    constructor WithPaths(source: Source, checkpoint: CheckpointFile)
      ensures this.checkpoint == checkpoint && this.source == source
      ensures Now() == RestartSpec(checkpoint.saved)
    {
      this.source := source;
      this.checkpoint := checkpoint;
      state := checkpoint.saved;
      inflight := None;
    }

    method Persist(w: WriteOutcome) returns (ok: bool)
      modifies checkpoint
      ensures ok == w.Durable? && Now() == Written(old(Now()), w)
    {
      if !w.Lost? { checkpoint.saved := state; }
      ok := w.Durable?;
    }

    /** Scans the siblings of the log for the generation of the checkpoint. */
    method FindRotated(dir: LogDir, gen: Gen) returns (found: bool)
      ensures found <==> gen in dir.rotated
    {
      for i := 0 to |dir.rotated|
        invariant gen !in dir.rotated[..i]
      {
        if dir.rotated[i] == gen { return true; }
      }
      return false;
    }

    /** At most one unacknowledged batch is ever handed out. */
    method Poll(dir: LogDir, session: Session, io: PollIo)
      returns (reply: Reply<seq<EventEnvelope>, Failure>)
      requires dir.Valid()
      modifies this`state, this`inflight, checkpoint
      ensures Polled(Now(), reply) == PollSpec(source, dir, session, io, old(Now()))
      decreases if state.Some? && dir.current.Some? && state.value.gen != dir.current.value then 1 else 0
    {
      if inflight.Some? { return Ok([]); }
      if !io.stat { return Err(StatFailed); }
      if dir.current.None? { return Ok([]); }
      var current := dir.current.value;
      if state.None? {
        state := Some(TailState(current, dir.Len(current)));
        var ok := Persist(io.relocate);
        return if ok then Ok([]) else Err(PersistFailed);
      }
      if state.value.gen == current && dir.Len(current) < state.value.offset {
        state := Some(state.value.(offset := 0));
        var ok := Persist(io.relocate);
        if !ok { return Err(PersistFailed); }
      }
      var gen := current;
      if state.value.gen != current {
        if !io.list { return Err(ListFailed); }
        var found := FindRotated(dir, state.value.gen);
        if found {
          gen := state.value.gen;
        } else {
          state := Some(TailState(current, 0));
          var ok := Persist(io.relocate);
          if !ok { return Err(PersistFailed); }
        }
      }
      if gen != current && dir.Len(gen) <= state.value.offset {
        state := Some(TailState(current, 0));
        var ok := Persist(io.relocate);
        if !ok { return Err(PersistFailed); }
        reply := Poll(dir, session, io);
        return;
      }
      reply := ReadBatch(dir, session, io, gen);
    }

    method ReadBatch(dir: LogDir, session: Session, io: PollIo, gen: Gen)
      returns (reply: Reply<seq<EventEnvelope>, Failure>)
      requires gen in dir.content && state.Some? && state.value.offset <= dir.Len(gen)
      modifies this`state, this`inflight, checkpoint
      ensures Polled(Now(), reply) == ReadSpec(source, dir, session, io, old(Now()), gen)
    {
      if io.read.None? { return Err(ReadFailed); }
      var content, offset := dir.content[gen], state.value.offset;
      var end := WindowEnd(content, offset, io.read.value);
      var cursor, lines, events := TakeLines(session, gen, content, offset, end);
      if lines == 0 { return Ok([]); }
      var token := TailToken(gen, offset, offset + cursor);
      RetokenEnvelopes(source, session, TailToken(gen, offset, 0), token, Batch(content, offset, io.read.value));
      events := Retoken(events, token);
      if events == [] {
        state := Some(state.value.(offset := offset + cursor));
        var ok := Persist(io.settle);
        if !ok {
          state := Some(state.value.(offset := offset));
          return Err(PersistFailed);
        }
      } else {
        inflight := Some(token);
      }
      return Ok(events);
    }

    /** The loop of `ReadBatch` over the bytes read; events carry a provisional token. */
    method TakeLines(session: Session, gen: Gen, content: bytes, offset: nat, end: nat)
      returns (cursor: nat, lines: nat, events: seq<EventEnvelope>)
      requires offset <= end <= |content|
      ensures var all := Split(content, offset, end);
              && lines == BatchCount(all, 0) && cursor == Span(all[..lines])
              && events == Envelopes(source, session, TailToken(gen, offset, 0), all[..lines])
    {
      hide Split;
      hide Span;
      hide Envelopes;
      hide LineIdentity;
      hide BatchCount;
      hide NextNewline;
      var window := content[offset..end];
      ghost var all, draft := Split(content, offset, end), TailToken(gen, offset, 0);
      cursor, lines, events := 0, 0, [];
      NoLinesTaken(source, session, draft, all);
      while cursor < |window|
        invariant lines <= |all| && lines <= MAX_BATCH_LINES && cursor == Span(all[..lines]) <= |window|
        invariant forall j :: 0 <= j < lines ==> Fits(all, j)
        invariant events == Envelopes(source, session, draft, all[..lines])
        decreases |window| - cursor
      {
        WindowLine(content, offset, end, all, lines);
        var newline := NextNewline(window, cursor, |window|);
        if newline == |window| { break; }
        var raw, next := window[cursor..newline], newline + 1;
        if lines == MAX_BATCH_LINES || (next > MAX_BATCH_BYTES && lines > 0) { break; }
        EnvelopesSnoc(source, session, draft, all, lines);
        if |raw| <= MAX_LINE_BYTES && source.parses(raw) {
          events := events + [EventEnvelope(source.render(raw, session),
                                LineIdentity(source, gen, offset + cursor, raw),
                                TailToken(gen, offset, 0), offset + cursor)];
        }
        lines, cursor := lines + 1, next;
      }
      WindowLine(content, offset, end, all, lines);
      BatchCountIs(all, 0, lines);
    }

    /** Commits the batch in flight; a failed checkpoint write leaves it in flight. */
    method AckSuccess(token: TailToken, w: WriteOutcome) returns (reply: Reply<(), Failure>)
      requires inflight.Some? ==> state.Some?
      modifies this`state, this`inflight, checkpoint
      ensures Acked(Now(), reply) == AckSpec(old(Now()), token, w)
    {
      if inflight.None? { return Err(NothingInFlight); }
      if inflight.value != token { return Err(OutOfOrder); }
      if state.value.gen != token.gen || state.value.offset != token.start {
        return Err(GenerationMismatch);
      }
      var previous := state.value.offset;
      state := Some(state.value.(offset := token.end));
      var ok := Persist(w);
      if !ok {
        state := Some(state.value.(offset := previous));
        return Err(PersistFailed);
      }
      inflight := None;
      return Ok(());
    }

    method Nack()
      modifies this`inflight
      ensures Now() == NackSpec(old(Now()))
    {
      inflight := None;
    }
  }

  // ---- Steps of the read loop ----

  /** The second pass of `ReadBatch`: every event receives the token of the whole batch. */
  function Retoken(events: seq<EventEnvelope>, token: TailToken): (r: seq<EventEnvelope>)
    ensures |r| == |events|
    ensures forall i :: 0 <= i < |r| ==> r[i] == events[i].(token := token)
  {
    seq(|events|, i requires 0 <= i < |events| => events[i].(token := token))
  }

  lemma {:induction false} RetokenEnvelopes(
    src: Source, session: Session, draft: TailToken, token: TailToken, lines: seq<Line>)
    requires draft.gen == token.gen
    ensures Retoken(Envelopes(src, session, draft, lines), token) == Envelopes(src, session, token, lines)
  {
    if lines != [] { RetokenEnvelopes(src, session, draft, token, lines[1..]); }
  }

  lemma {:induction false} WindowNewline(content: bytes, offset: nat, end: nat, cursor: nat)
    requires offset + cursor <= end <= |content|
    ensures var window := content[offset..end];
            var n := NextNewline(content, offset + cursor, end) - offset;
            NextNewline(window, cursor, |window|) == n && window[cursor..n] == content[offset + cursor..offset + n]
  {
    NoEarlierNewline(content, offset + cursor, end);
    var n := NextNewline(content, offset + cursor, end) - offset;
    NextNewlineIs(content[offset..end], cursor, end - offset, n);
    SliceOfSlice(content, offset, end, cursor, n);
  }

  /** After `k` lines of the window, the next newline found there ends line `k`, if any is left. */
  lemma {:induction false} WindowLine(content: bytes, offset: nat, end: nat, all: seq<Line>, k: nat)
    requires offset <= end <= |content| && all == Split(content, offset, end) && k <= |all|
    ensures var window, cursor := content[offset..end], Span(all[..k]);
            && cursor <= |window|
            && var n := NextNewline(window, cursor, |window|);
            && (n == |window| <==> k == |all|)
            && (k < |all| ==> all[k] == Line(offset + cursor, window[cursor..n]) && Span(all[..k + 1]) == n + 1)
  {
    hide Split;
    hide Span;
    hide Aligned;
    SplitDrop(content, offset, end, k);
    var cursor := Span(all[..k]);
    WindowNewline(content, offset, end, cursor);
    SplitFirst(content, offset + cursor, end);
    if k < |all| {
      assert all[k] == all[k..][0];
      SpanSnoc(all, k);
    }
  }

  lemma NoLinesTaken(src: Source, session: Session, token: TailToken, lines: seq<Line>)
    ensures Span(lines[..0]) == 0 && Envelopes(src, session, token, lines[..0]) == []
  {
  }

  lemma {:induction false} SpanSnoc(lines: seq<Line>, k: nat)
    requires k < |lines|
    ensures Span(lines[..k + 1]) == Span(lines[..k]) + |lines[k].raw| + 1
  {
    if k > 0 {
      SpanSnoc(lines[1..], k - 1);
      assert lines[..k + 1][1..] == lines[1..][..k] && lines[..k][1..] == lines[1..][..k - 1];
    }
  }

  lemma {:induction false} EnvelopesSnoc(src: Source, session: Session, token: TailToken, lines: seq<Line>, k: nat)
    requires k < |lines|
    ensures Envelopes(src, session, token, lines[..k + 1])
         == Envelopes(src, session, token, lines[..k])
            + (if Wanted(src, lines[k]) then [Envelope(src, session, token, lines[k])] else [])
  {
    if k > 0 {
      EnvelopesSnoc(src, session, token, lines[1..], k - 1);
      assert lines[..k + 1][1..] == lines[1..][..k] && lines[..k][1..] == lines[1..][..k - 1];
    } else {
      assert lines[..1][1..] == [] && lines[..0] == [];
    }
  }

  lemma {:induction false} BatchCountIs(lines: seq<Line>, k: nat, n: nat)
    requires k <= n <= |lines| && (forall j :: k <= j < n ==> Fits(lines, j))
    requires n < |lines| ==> !Fits(lines, n)
    ensures BatchCount(lines, k) == n
    decreases n - k
  {
  }
}
