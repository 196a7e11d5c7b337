/** Spool text: newline-delimited records, and the padding that lifts a file to the reader's floor. */
module SpoolText {
  import opened Bytes
  import opened Lines

  const MIN_PUBLISHED_SPOOL_BYTES: nat := 1024

  function Spaces(k: nat): (s: bytes)
    ensures |s| == k && forall i :: 0 <= i < k ==> s[i] == SPACE
  {
    seq(k, _ => SPACE)
  }

  /** A record without its trailing spaces. Padding is the only source of them. */
  function Trim(raw: bytes): bytes {
    if raw != [] && raw[|raw| - 1] == SPACE then Trim(raw[..|raw| - 1]) else raw
  }

  /** The records of a file: its complete lines, each without trailing spaces. */
  function Docs(lines: seq<Line>): (docs: seq<bytes>)
    ensures |docs| == |lines|
  {
    seq(|lines|, i requires 0 <= i < |lines| => Trim(lines[i].raw))
  }

  function DocsOf(file: bytes): seq<bytes> { Docs(Split(file, 0, |file|)) }

  ghost predicate LineAligned(file: bytes) { Aligned(file, 0, |file|) }

  /** What `pad_spool_final` does to a file it accepts. */
  function Padded(file: bytes): bytes {
    if file == [] || |file| >= MIN_PUBLISHED_SPOOL_BYTES then file
    else file[..|file| - 1] + Spaces(MIN_PUBLISHED_SPOOL_BYTES - |file|) + [NEWLINE]
  }

  /** A file Fleet can fingerprint: at least 1024 bytes, ending in a newline. */
  ghost predicate AtFloor(file: bytes) {
    |file| >= MIN_PUBLISHED_SPOOL_BYTES && file[|file| - 1] == NEWLINE
  }

  datatype PadFault = NoFault | Untouched | Torn(written: nat)

  /** Pads a closed file in place. It refuses an empty file and one without a final newline; a
      fault can leave the file untouched, or torn: truncated, with some spaces but no newline.
      `steps` are the contents of the file after each write to it. */
  method PadSpoolFinal(file: bytes, fault: PadFault) returns (steps: seq<bytes>, after: bytes, ok: bool)
    ensures ok <==> (|file| >= MIN_PUBLISHED_SPOOL_BYTES
                     || (file != [] && file[|file| - 1] == NEWLINE && fault.NoFault?))
    ensures ok ==> after == Padded(file)
    ensures ok && LineAligned(file) ==> AtFloor(after)
    ensures !ok ==> after == file || (fault.Torn? && file != [] && after == TornAt(file, fault.written))
    ensures after == if steps == [] then file else steps[|steps| - 1]
    ensures forall i :: 0 <= i < |steps| ==> PadStep(file, steps[i])
  {
    after, steps := file, [];
    if |file| >= MIN_PUBLISHED_SPOOL_BYTES { return [], file, true; }
    if file == [] || fault.Untouched? { return [], file, false; }
    if file[|file| - 1] != NEWLINE { return [], file, false; }
    after := file[..|file| - 1];
    steps := [after];
    assert after == TornAt(file, 0);
    if fault.Torn? {
      after := after + Spaces(TornSpaces(file, fault.written));
      assert after == TornAt(file, fault.written);
      return steps + [after], after, false;
    }
    after := after + Spaces(MIN_PUBLISHED_SPOOL_BYTES - |file|);
    assert after == TornAt(file, MIN_PUBLISHED_SPOOL_BYTES);
    steps := steps + [after];
    after := after + [NEWLINE];
    steps := steps + [after];
    ok := true;
  }

  /** What a file can hold while it is being padded. */
  ghost predicate PadStep(file: bytes, content: bytes) {
    content == Padded(file) || (file != [] && exists written :: content == TornAt(file, written))
  }

  function TornSpaces(file: bytes, written: nat): nat {
    if |file| >= MIN_PUBLISHED_SPOOL_BYTES then 0
    else if written < MIN_PUBLISHED_SPOOL_BYTES - |file| then written
    else MIN_PUBLISHED_SPOOL_BYTES - |file|
  }

  /** The file after padding stopped between the truncation and the final newline. */
  function TornAt(file: bytes, written: nat): bytes
    requires file != []
  {
    file[..|file| - 1] + Spaces(TornSpaces(file, written))
  }

  // ---- Trimming ----

  lemma {:induction false} TrimSpaces(raw: bytes, k: nat)
    ensures Trim(raw + Spaces(k)) == Trim(raw)
  {
    if k == 0 {
      assert raw + Spaces(0) == raw;
    } else {
      TrimSpaces(raw, k - 1);
      var padded := raw + Spaces(k);
      assert padded[..|padded| - 1] == raw + Spaces(k - 1);
    }
  }

  // ---- Records of concatenated files ----

  lemma {:induction false} SplitShift(a: bytes, b: bytes, from: nat)
    requires from <= |b|
    ensures Docs(Split(a + b, |a| + from, |a + b|)) == Docs(Split(b, from, |b|))
    decreases |b| - from
  {
    hide Docs;
    hide NextNewline;
    var n, whole := NextNewline(b, from, |b|), a + b;
    NewlineShift(a, b, from);
    if n < |b| {
      SplitShift(a, b, n + 1);
      DocsCons(Line(|a| + from, b[from..n]), Split(whole, |a| + n + 1, |whole|));
      DocsCons(Line(from, b[from..n]), Split(b, n + 1, |b|));
    }
  }

  lemma {:induction false} NewlineShift(a: bytes, b: bytes, from: nat)
    requires from <= |b|
    ensures var n := NextNewline(b, from, |b|);
            NextNewline(a + b, |a| + from, |a + b|) == |a| + n && (a + b)[|a| + from..|a| + n] == b[from..n]
  {
    NoEarlierNewline(b, from, |b|);
    NextNewlineIs(a + b, |a| + from, |a + b|, |a| + NextNewline(b, from, |b|));
  }

  lemma DocsCons(l: Line, rest: seq<Line>)
    ensures Docs([l] + rest) == [Trim(l.raw)] + Docs(rest)
  {
  }

  lemma DocsConcat(x: seq<Line>, y: seq<Line>)
    ensures Docs(x + y) == Docs(x) + Docs(y)
  {
  }

  /** The records of one file after another, when the first ends a line. */
  lemma {:induction false} DocsOfConcat(a: bytes, b: bytes)
    requires LineAligned(a)
    ensures DocsOf(a + b) == DocsOf(a) + DocsOf(b)
  {
    assert forall k :: 0 <= k < |a| ==> (a + b)[k] == a[k];
    SplitConcat(a + b, 0, |a|, |a + b|);
    SplitSame(a, a + b, 0, |a|);
    SplitShift(a, b, 0);
    DocsConcat(Split(a, 0, |a|), Split(a + b, |a|, |a + b|));
  }

  /** One more record, written as the spool writes it: the record, then a newline. */
  lemma {:induction false} DocsOfLine(doc: bytes)
    requires NEWLINE !in doc
    ensures DocsOf(doc + [NEWLINE]) == [Trim(doc)]
  {
    var file := doc + [NEWLINE];
    forall k | 0 <= k < |doc| ensures file[k] != NEWLINE { assert file[k] == doc[k] && doc[k] in doc; }
    NextNewlineIs(file, 0, |file|, |doc|);
    assert Split(file, |file|, |file|) == [];
    assert file[0..|doc|] == doc;
    assert Split(file, 0, |file|) == [Line(0, doc)];
  }

  // ---- Padding ----

  /** Where the last line of a non-empty aligned file starts. */
  lemma {:induction false} LastLine(file: bytes) returns (m: nat)
    requires LineAligned(file) && file != []
    ensures m < |file| && Aligned(file, 0, m) && NextNewline(file, m, |file|) == |file| - 1
  {
    m := |file| - 1;
    while m > 0 && file[m - 1] != NEWLINE
      invariant m < |file| && forall k :: m <= k < |file| - 1 ==> file[k] != NEWLINE
    {
      m := m - 1;
    }
    NextNewlineIs(file, m, |file|, |file| - 1);
  }

  lemma {:induction false} SplitLast(file: bytes, m: nat)
    requires m < |file| && Aligned(file, 0, m) && NextNewline(file, m, |file|) == |file| - 1
    ensures Split(file, 0, |file|) == Split(file, 0, m) + [Line(m, file[m..|file| - 1])]
  {
    SplitConcat(file, 0, m, |file|);
    assert Split(file, |file|, |file|) == [];
  }

  /** Padding changes nothing but trailing spaces of the last line: the line count and every
      other line stay, the records are the same, and padding again does nothing. */
  lemma {:induction false} PaddingPreserves(file: bytes)
    requires LineAligned(file) && file != []
    ensures LineAligned(Padded(file)) && AtFloor(Padded(file))
    ensures var x, y := Split(file, 0, |file|), Split(Padded(file), 0, |Padded(file)|);
            |x| == |y| > 0 && x[..|x| - 1] == y[..|y| - 1]
            && exists k :: y[|y| - 1] == Line(x[|x| - 1].at, x[|x| - 1].raw + Spaces(k))
    ensures Padded(Padded(file)) == Padded(file)
  {
    var m := LastLine(file);
    SplitLast(file, m);
    PaddedLines(file, m);
  }

  lemma {:induction false} PaddedLines(file: bytes, m: nat)
    requires LineAligned(file) && m < |file| && Aligned(file, 0, m) && NextNewline(file, m, |file|) == |file| - 1
    ensures var p := Padded(file);
            Split(p, 0, |p|) == Split(file, 0, m) + [Line(m, file[m..|file| - 1] + Spaces(|p| - |file|))]
  {
    var p := Padded(file);
    assert forall i :: 0 <= i < |file| - 1 ==> p[i] == file[i];
    SplitSame(file, p, 0, m);
    NoEarlierNewline(file, m, |file|);
    NextNewlineIs(p, m, |p|, |p| - 1);
    SplitLast(p, m);
    assert p[m..|p| - 1] == file[m..|file| - 1] + Spaces(|p| - |file|);
  }

  lemma {:induction false} PaddingKeepsDocs(file: bytes)
    requires LineAligned(file) && file != []
    ensures DocsOf(Padded(file)) == DocsOf(file)
  {
    PaddingPreserves(file);
    var x, y := Split(file, 0, |file|), Split(Padded(file), 0, |Padded(file)|);
    var k :| y[|y| - 1] == Line(x[|x| - 1].at, x[|x| - 1].raw + Spaces(k));
    TrimSpaces(x[|x| - 1].raw, k);
    forall i | 0 <= i < |x| ensures Trim(x[i].raw) == Trim(y[i].raw) {
      if i < |x| - 1 { assert x[i] == x[..|x| - 1][i] == y[..|y| - 1][i]; }
    }
  }

  /** Padding that stops half way loses the last record, and only that one, as a complete line. */
  lemma {:induction false} TornPaddingDropsLast(file: bytes, written: nat)
    requires LineAligned(file) && file != []
    ensures DocsOf(file) != [] && DocsOf(TornAt(file, written)) == DocsOf(file)[..|DocsOf(file)| - 1]
  {
    var torn := TornAt(file, written);
    var m := LastLine(file);
    var head := Split(file, 0, m);
    SplitLast(file, m);
    assert forall i :: 0 <= i < |file| - 1 ==> torn[i] == file[i];
    SplitSame(file, torn, 0, m);
    NoEarlierNewline(file, m, |file|);
    NextNewlineIs(torn, m, |torn|, |torn|);
    SplitConcat(torn, 0, m, |torn|);
    assert Split(torn, 0, |torn|) == head;
    DocsConcat(head, [Line(m, file[m..|file| - 1])]);
  }
}
