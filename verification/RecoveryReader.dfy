/** The bounded line reader of startup recovery, over a buffered reader that slices as it likes. */
module RecoveryReader {
  import opened Wrappers
  import opened Bytes
  import opened Lines
  import opened RecoveryText

  datatype RecoveryLine = RecoveryLine(content: bytes, terminated: bool, oversize: bool)

  /** A buffered reader over a file: `data[pos..filled]` is buffered, the rest is not read yet. */
  class BufReader {
    const data: bytes
    var pos: nat
    var filled: nat

    ghost predicate Valid()
      reads this
    {
      pos <= filled <= |data|
    }

    constructor (data: bytes)
      ensures Valid() && this.data == data && pos == 0
    {
      this.data := data;
      pos, filled := 0, 0;
    }

    /** The buffered bytes. An empty buffer is refilled by any non-empty amount, or is the end. */
    method FillBuf() returns (buffer: bytes)
      requires Valid()
      modifies this`filled
      ensures Valid() && buffer == data[pos..filled] && (buffer == [] <==> pos == |data|)
      ensures old(filled) > pos ==> filled == old(filled)
    {
      if pos == filled && filled < |data| {
        var stop: nat :| pos < stop <= |data|;
        filled := stop;
      }
      buffer := data[pos..filled];
    }

    method Consume(count: nat)
      requires Valid() && count <= filled - pos
      modifies this`pos
      ensures Valid() && pos == old(pos) + count
    {
      pos := pos + count;
    }
  }

  /** Reads one line. The answer depends on the file and the position alone, never on how the
      reader slices it; only the bytes kept of an oversize line do, and those stay within bounds. */
  method ReadRecoveryLine(reader: BufReader) returns (line: Option<RecoveryLine>)
    requires reader.Valid()
    modifies reader`pos, reader`filled
    ensures reader.Valid()
    ensures var data, start := reader.data, old(reader.pos);
            var n := NextNewline(data, start, |data|);
            if start == |data| then line.None? && reader.pos == start
            else
              && line.Some? && line.value.terminated == (n < |data|)
              && reader.pos == (if n < |data| then n + 1 else n)
              && line.value.oversize == (n - start > RECOVERY_MAX_LINE_BYTES)
              && (if line.value.oversize then |line.value.content| <= RECOVERY_MAX_LINE_BYTES
                  else line.value.content == data[start..n])
  {
    hide NextNewline;
    var content: bytes, oversize := [], false;
    ghost var data, start := reader.data, reader.pos;
    while true
      invariant reader.Valid() && start <= reader.pos
      invariant forall k :: start <= k < reader.pos ==> data[k] != NEWLINE
      invariant oversize == (reader.pos - start > RECOVERY_MAX_LINE_BYTES)
      invariant if oversize then |content| <= RECOVERY_MAX_LINE_BYTES else content == data[start..reader.pos]
      decreases |data| - reader.pos
    {
      var buffer := reader.FillBuf();
      if buffer == [] {
        NextNewlineIs(data, start, |data|, |data|);
        return if content == [] && !oversize then None else Some(RecoveryLine(content, false, oversize));
      }
      var newline := NextNewline(buffer, 0, |buffer|);
      BufferNewline(data, start, reader.pos, reader.filled, newline);
      var terminated := newline < |buffer|;
      if !oversize {
        if |content| + newline > RECOVERY_MAX_LINE_BYTES {
          oversize := true;
        } else {
          content := content + buffer[..newline];
        }
      }
      var seen := reader.pos + newline;
      reader.Consume(if terminated then newline + 1 else newline);
      if terminated {
        NextNewlineIs(data, start, |data|, seen);
        return Some(RecoveryLine(content, true, oversize));
      }
    }
  }

  /** What a buffer adds to the line that started at `start`. */
  lemma {:induction false} BufferNewline(data: bytes, start: nat, pos: nat, filled: nat, n: nat)
    requires start <= pos <= filled <= |data| && n == NextNewline(data[pos..filled], 0, filled - pos)
    ensures forall k :: pos <= k < pos + n ==> data[k] != NEWLINE
    ensures n < filled - pos ==> data[pos + n] == NEWLINE
    ensures data[start..pos] + data[pos..filled][..n] == data[start..pos + n]
  {
    var buffer := data[pos..filled];
    NoEarlierNewline(buffer, 0, |buffer|);
    forall k | pos <= k < pos + n ensures data[k] != NEWLINE { assert data[k] == buffer[k - pos]; }
    if n < |buffer| { assert buffer[n] == data[pos + n]; }
    assert buffer[..n] == data[pos..pos + n];
    Adjoin(data, start, pos, pos + n);
  }

  lemma Adjoin(data: bytes, a: nat, b: nat, c: nat)
    requires a <= b <= c <= |data|
    ensures data[a..b] + data[b..c] == data[a..c]
  {
  }
}
