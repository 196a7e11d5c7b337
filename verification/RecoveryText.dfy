/** What a stranded spool file holds, and the text recovery publishes for it. */
module RecoveryText {
  import opened Bytes
  import opened Lines
  import opened SpoolText

  const RECOVERY_MAX_LINE_BYTES: nat := 1024 * 1024

  /** Whether bytes parse as one JSON value, a pure function of the bytes. */
  type Json = bytes -> bool

  // ---- What a stranded file holds ----

  /** A complete line that recovery republishes. */
  predicate Good(valid: Json, raw: bytes) {
    |raw| <= RECOVERY_MAX_LINE_BYTES && raw != [] && valid(raw)
  }

  /** A complete line that makes the file malformed. Blank lines are neither. */
  predicate Bad(valid: Json, raw: bytes) {
    |raw| > RECOVERY_MAX_LINE_BYTES || (raw != [] && !valid(raw))
  }

  function GoodLines(valid: Json, lines: seq<Line>): seq<bytes> {
    if lines == [] then []
    else (if Good(valid, lines[0].raw) then [lines[0].raw] else []) + GoodLines(valid, lines[1..])
  }

  ghost predicate Malformed(valid: Json, lines: seq<Line>) {
    exists l :: l in lines && Bad(valid, l.raw)
  }

  /** The bytes after the last newline. */
  function Fragment(file: bytes): bytes {
    SplitSpan(file, 0);
    file[Span(Split(file, 0, |file|))..]
  }

  /** The complete valid records of a file, without trailing spaces. */
  function RecordsOf(valid: Json, file: bytes): seq<bytes> {
    Trimmed(GoodLines(valid, Split(file, 0, |file|)))
  }

  function Trimmed(lines: seq<bytes>): (t: seq<bytes>)
    ensures |t| == |lines|
  {
    seq(|lines|, i requires 0 <= i < |lines| => Trim(lines[i]))
  }

  /** The file has a line recovery cannot republish, or an unterminated end. */
  ghost predicate Spoilt(valid: Json, file: bytes) {
    Malformed(valid, Split(file, 0, |file|)) || Fragment(file) != []
  }

  /** Lines written one after another, each with its newline. */
  function Text(lines: seq<bytes>): bytes {
    if lines == [] then [] else Text(lines[..|lines| - 1]) + lines[|lines| - 1] + [NEWLINE]
  }

  lemma {:induction false} SplitSpan(file: bytes, from: nat)
    requires from <= |file|
    ensures from + Span(Split(file, from, |file|)) <= |file|
    ensures Aligned(file, from, from + Span(Split(file, from, |file|)))
  {
    SplitDrop(file, from, |file|, |Split(file, from, |file|)|);
    var lines := Split(file, from, |file|);
    assert lines[..|lines|] == lines;
  }

  lemma {:induction false} SpoiltNotEmpty(valid: Json, source: bytes)
    requires Spoilt(valid, source)
    ensures source != []
  {
    assert Split([], 0, 0) == [];
  }

  lemma DocsOfEmpty()
    ensures DocsOf([]) == []
  {
    assert Split([], 0, 0) == [];
  }

  // ---- The text recovery stages ----

  lemma {:induction false} TextDocs(lines: seq<bytes>)
    requires forall l :: l in lines ==> NEWLINE !in l
    ensures LineAligned(Text(lines)) && (Text(lines) == [] <==> lines == [])
    ensures DocsOf(Text(lines)) == Trimmed(lines)
  {
    if lines == [] {
      DocsOfEmpty();
    } else {
      var init, last := lines[..|lines| - 1], lines[|lines| - 1];
      TextDocs(init);
      TextSnoc(init, last);
      assert init + [last] == lines;
    }
  }

  lemma {:induction false} TextSnoc(init: seq<bytes>, last: bytes)
    requires NEWLINE !in last && LineAligned(Text(init)) && DocsOf(Text(init)) == Trimmed(init)
    ensures LineAligned(Text(init + [last])) && Text(init + [last]) != []
    ensures DocsOf(Text(init + [last])) == Trimmed(init + [last])
  {
    assert (init + [last])[..|init|] == init;
    DocsOfConcat(Text(init), last + [NEWLINE]);
    DocsOfLine(last);
    assert Text(init + [last]) == Text(init) + (last + [NEWLINE]);
  }

  lemma {:induction false} GoodLinesAreLines(valid: Json, file: bytes, from: nat, end: nat)
    requires from <= end <= |file|
    ensures forall r :: r in GoodLines(valid, Split(file, from, end)) ==> NEWLINE !in r && Good(valid, r)
    decreases end - from
  {
    var n := NextNewline(file, from, end);
    NoEarlierNewline(file, from, end);
    if n < end { GoodLinesAreLines(valid, file, n + 1, end); }
  }

  lemma {:induction false} GoodLinesSnoc(valid: Json, lines: seq<Line>, k: nat)
    requires k < |lines|
    ensures GoodLines(valid, lines[..k + 1])
         == GoodLines(valid, lines[..k]) + (if Good(valid, lines[k].raw) then [lines[k].raw] else [])
  {
    if k > 0 {
      GoodLinesSnoc(valid, lines[1..], k - 1);
      assert lines[..k + 1][1..] == lines[1..][..k] && lines[..k][1..] == lines[1..][..k - 1];
    } else {
      assert lines[..1][1..] == [] && lines[..0] == [];
    }
  }

  /** The records a final takes over from a stranded file are exactly that file's. */
  lemma {:induction false} StagedRecords(valid: Json, file: bytes)
    ensures var good := GoodLines(valid, Split(file, 0, |file|));
            && (good != [] ==>
                  DocsOf(Padded(Text(good))) == RecordsOf(valid, file) != [] && AtFloor(Padded(Text(good))))
            && (good == [] <==> RecordsOf(valid, file) == [])
            && LineAligned(Text(good)) && (Text(good) == [] <==> good == [])
  {
    var good := GoodLines(valid, Split(file, 0, |file|));
    GoodLinesAreLines(valid, file, 0, |file|);
    TextDocs(good);
    if good != [] {
      PaddingPreserves(Text(good));
      PaddingKeepsDocs(Text(good));
    }
  }

  /** After `k` lines: where the next one ends, or that only a fragment is left. */
  lemma {:induction false} LineAfter(file: bytes, k: nat)
    requires k <= |Split(file, 0, |file|)|
    ensures var all := Split(file, 0, |file|);
            var pos := Span(all[..k]);
            pos <= |file| && var n := NextNewline(file, pos, |file|);
            && (n < |file| <==> k < |all|)
            && (k < |all| ==> all[k].raw == file[pos..n] && Span(all[..k + 1]) == n + 1)
            && (k == |all| ==> Fragment(file) == file[pos..])
  {
    var all := Split(file, 0, |file|);
    SplitDrop(file, 0, |file|, k);
    if k < |all| {
      assert all[k] == all[k..][0];
      assert all[..k + 1] == all[..k] + [all[k]];
      SpanAppend(all[..k], all[k]);
    } else {
      assert all[..k] == all;
    }
  }

  lemma {:induction false} SpanAppend(lines: seq<Line>, l: Line)
    ensures Span(lines + [l]) == Span(lines) + |l.raw| + 1
  {
    if lines == [] {
      assert lines + [l] == [l];
    } else {
      SpanAppend(lines[1..], l);
      assert (lines + [l])[1..] == lines[1..] + [l];
    }
  }

  /** One more line: what it adds to the staged text, and whether it spoils the file. */
  lemma {:induction false} NextLine(valid: Json, lines: seq<Line>, k: nat)
    requires k < |lines|
    ensures var raw := lines[k].raw;
            && Text(GoodLines(valid, lines[..k + 1]))
                 == (if Good(valid, raw) then Text(GoodLines(valid, lines[..k])) + raw + [NEWLINE]
                     else Text(GoodLines(valid, lines[..k])))
            && Malformed(valid, lines[..k + 1]) == (Malformed(valid, lines[..k]) || Bad(valid, raw))
  {
    GoodLinesSnoc(valid, lines, k);
    var before := GoodLines(valid, lines[..k]);
    assert (before + [lines[k].raw])[..|before|] == before;
    assert before + [] == before;
    assert Text(before + [lines[k].raw]) == Text(before) + lines[k].raw + [NEWLINE];
    MalformedSnoc(valid, lines[..k], lines[k]);
    assert lines[..k + 1] == lines[..k] + [lines[k]];
  }

  lemma MalformedSnoc(valid: Json, lines: seq<Line>, last: Line)
    ensures Malformed(valid, lines + [last]) == (Malformed(valid, lines) || Bad(valid, last.raw))
  {
  }
}
