/** The one-pass newline split that every reader in the agent is measured against. */
module Lines {
  import opened Bytes

  /** A complete line: the offset of its first byte, and its bytes without the newline. */
  datatype Line = Line(at: nat, raw: bytes)

  /** Position of the first newline of `b[from..end]`, or `end` when that range has none. */
  function NextNewline(b: bytes, from: nat, end: nat): (i: nat)
    requires from <= end <= |b|
    ensures from <= i <= end
    ensures i < end ==> b[i] == NEWLINE
    decreases end - from
  {
    if from == end || b[from] == NEWLINE then from else NextNewline(b, from + 1, end)
  }

  /** The split: every newline-terminated line of the byte range `[from, end)`. */
  function Split(b: bytes, from: nat, end: nat): seq<Line>
    requires from <= end <= |b|
    decreases end - from
  {
    var n := NextNewline(b, from, end);
    if n == end then [] else [Line(from, b[from..n])] + Split(b, n + 1, end)
  }

  /** Bytes taken up by consecutive lines, newlines included. */
  function Span(lines: seq<Line>): nat {
    if lines == [] then 0 else |lines[0].raw| + 1 + Span(lines[1..])
  }

  /** The range `[from, end)` ends where a line ends. */
  ghost predicate Aligned(b: bytes, from: nat, end: nat) {
    from <= end <= |b| && (from < end ==> b[end - 1] == NEWLINE)
  }

  lemma {:induction false} NextNewlineIs(b: bytes, from: nat, end: nat, i: nat)
    requires from <= i <= end <= |b|
    requires i < end ==> b[i] == NEWLINE
    requires forall k :: from <= k < i ==> b[k] != NEWLINE
    ensures NextNewline(b, from, end) == i
    decreases i - from
  {
    if from < i { NextNewlineIs(b, from + 1, end, i); }
  }

  lemma {:induction false} NoEarlierNewline(b: bytes, from: nat, end: nat)
    requires from <= end <= |b|
    ensures forall k :: from <= k < NextNewline(b, from, end) ==> b[k] != NEWLINE
    decreases end - from
  {
    if from < end && b[from] != NEWLINE { NoEarlierNewline(b, from + 1, end); }
  }

  lemma {:induction false} NextNewlineSame(b: bytes, c: bytes, from: nat, end: nat)
    requires from <= end <= |b| && end <= |c|
    requires forall k :: from <= k < end ==> b[k] == c[k]
    ensures NextNewline(b, from, end) == NextNewline(c, from, end)
    decreases end - from
  {
    if from < end && b[from] != NEWLINE { NextNewlineSame(b, c, from + 1, end); }
  }

  /** Two byte strings that agree on a range split it alike. */
  lemma {:induction false} SplitSame(b: bytes, c: bytes, from: nat, end: nat)
    requires from <= end <= |b| && end <= |c|
    requires forall k :: from <= k < end ==> b[k] == c[k]
    ensures Split(b, from, end) == Split(c, from, end)
    decreases end - from
  {
    NextNewlineSame(b, c, from, end);
    var n := NextNewline(b, from, end);
    if n < end {
      assert b[from..n] == c[from..n];
      SplitSame(b, c, n + 1, end);
    }
  }

  /** Splitting at a line boundary and gluing the two splits changes nothing. */
  lemma {:induction false} SplitConcat(b: bytes, from: nat, mid: nat, end: nat)
    requires mid <= end <= |b| && Aligned(b, from, mid)
    ensures Split(b, from, end) == Split(b, from, mid) + Split(b, mid, end)
    decreases mid - from
  {
    if from < mid {
      var n := NextNewline(b, from, mid);
      NoEarlierNewline(b, from, mid);
      NextNewlineIs(b, from, end, n);
      SplitConcat(b, n + 1, mid, end);
    }
  }

  /** A shorter read sees a prefix of the lines. */
  lemma {:induction false} SplitPrefix(b: bytes, from: nat, mid: nat, end: nat)
    requires from <= mid <= end <= |b|
    ensures Split(b, from, mid) <= Split(b, from, end)
    decreases mid - from
  {
    var n := NextNewline(b, from, mid);
    if n < mid {
      NoEarlierNewline(b, from, mid);
      NextNewlineIs(b, from, end, n);
      SplitPrefix(b, n + 1, mid, end);
    }
  }

  /** Dropping the first `k` lines of a range leaves the split of what follows them. */
  lemma {:induction false} SplitDrop(b: bytes, from: nat, end: nat, k: nat)
    requires from <= end <= |b| && k <= |Split(b, from, end)|
    ensures var mid := from + Span(Split(b, from, end)[..k]);
            mid <= end && Aligned(b, from, mid) && (mid == from <==> k == 0)
            && Split(b, mid, end) == Split(b, from, end)[k..]
    decreases k
  {
    hide NextNewline;
    hide Span;
    SpanNil();
    if k > 0 {
      var n := NextNewline(b, from, end);
      var first, rest := Line(from, b[from..n]), Split(b, n + 1, end);
      SplitDrop(b, n + 1, end, k - 1);
      assert Split(b, from, end) == [first] + rest;
      assert Split(b, from, end)[..k] == [first] + rest[..k - 1];
      assert Split(b, from, end)[k..] == rest[k - 1..];
      SpanCons(first, rest[..k - 1]);
    }
  }

  /** The first `k` lines of a range are exactly the split of the bytes they span. */
  lemma {:induction false} SplitTake(b: bytes, from: nat, end: nat, k: nat)
    requires from <= end <= |b| && k <= |Split(b, from, end)|
    ensures from + Span(Split(b, from, end)[..k]) <= end
    ensures Split(b, from, from + Span(Split(b, from, end)[..k])) == Split(b, from, end)[..k]
  {
    SplitDrop(b, from, end, k);
    SplitConcat(b, from, from + Span(Split(b, from, end)[..k]), end);
  }

  lemma SpanNil()
    ensures Span([]) == 0
  {
  }

  /** The first line of a range, if there is one. */
  lemma SplitFirst(b: bytes, from: nat, end: nat)
    requires from <= end <= |b|
    ensures var n, lines := NextNewline(b, from, end), Split(b, from, end);
      && (lines == [] <==> n == end) && (lines != [] ==> lines[0] == Line(from, b[from..n]))
  {
  }

  lemma SplitNil(b: bytes, i: nat)
    requires i <= |b|
    ensures Split(b, i, i) == []
  {
  }

  lemma {:induction false} SpanCons(first: Line, rest: seq<Line>)
    ensures Span([first] + rest) == |first.raw| + 1 + Span(rest)
  {
    assert ([first] + rest)[1..] == rest;
  }

  /** `l` is a complete line of `b`. */
  ghost predicate LineOf(b: bytes, l: Line) {
    && l.at + |l.raw| < |b|
    && l.raw == b[l.at..l.at + |l.raw|]
    && NextNewline(b, l.at, |b|) == l.at + |l.raw|
  }

  /** Every line of the split is a complete line lying inside the range. */
  lemma {:induction false} SplitLines(b: bytes, from: nat, end: nat, l: Line)
    requires from <= end <= |b| && l in Split(b, from, end)
    ensures LineOf(b, l) && from <= l.at && l.at + |l.raw| < end
    decreases end - from
  {
    var n := NextNewline(b, from, end);
    if l == Split(b, from, end)[0] {
      NoEarlierNewline(b, from, end);
      NextNewlineIs(b, from, |b|, n);
    } else {
      SplitLines(b, n + 1, end, l);
    }
  }

  /** A complete line stays one when bytes are appended. */
  lemma {:induction false} LineOfGrows(b: bytes, c: bytes, l: Line)
    requires b <= c && LineOf(b, l)
    ensures LineOf(c, l)
  {
    NoEarlierNewline(b, l.at, |b|);
    NextNewlineIs(c, l.at, |c|, l.at + |l.raw|);
  }
}
