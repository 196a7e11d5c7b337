/** The D3 detector's journal evidence: the merge of two sources, and the clock-regression test. */
module D3Journal {
  import opened Wrappers

  /** One journal record; instants are nanoseconds, and a line without a time stamp has none. */
  datatype JournalRecord = JournalRecord(timestamp: Option<int>, text: string)

  /** A merged record remembers which source it came from. */
  datatype Merged = Merged(record: JournalRecord, fromKernel: bool)

  function Count(records: seq<JournalRecord>, text: string): nat {
    if records == [] then 0
    else Count(records[..|records| - 1], text) + if records[|records| - 1].text == text then 1 else 0
  }

  function Max(a: nat, b: nat): nat { if a < b then b else a }

  /** The tail records that repeat a text more often than the kernel source has it. */
  function Surplus(kernel: seq<JournalRecord>, tail: seq<JournalRecord>): seq<JournalRecord> {
    if tail == [] then []
    else
      var init, last := tail[..|tail| - 1], tail[|tail| - 1];
      if Count(tail, last.text) > Count(kernel, last.text) then Surplus(kernel, init) + [last]
      else Surplus(kernel, init)
  }

  predicate KernelFirst(kernel: JournalRecord, tail: JournalRecord) {
    kernel.timestamp.Some? && tail.timestamp.Some? ==> kernel.timestamp.value <= tail.timestamp.value
  }

  /** The two-way merge from position `i` of the kernel source and `j` of the tail. */
  function Merge(kernel: seq<JournalRecord>, i: nat, tail: seq<JournalRecord>, j: nat): seq<Merged>
    requires i <= |kernel| && j <= |tail|
    decreases |kernel| - i + |tail| - j
  {
    if i == |kernel| && j == |tail| then []
    else if i < |kernel| && (j == |tail| || KernelFirst(kernel[i], tail[j])) then
      [Merged(kernel[i], true)] + Merge(kernel, i + 1, tail, j)
    else [Merged(tail[j], false)] + Merge(kernel, i, tail, j + 1)
  }

  function Texts(merged: seq<Merged>): (t: seq<string>)
    ensures |t| == |merged|
  {
    seq(|merged|, i requires 0 <= i < |merged| => merged[i].record.text)
  }

  // ---- The merge as the agent runs it ----

  /** Drops from the tail what the kernel source already accounts for. */
  method UniqueTail(kernel: seq<JournalRecord>, tail: seq<JournalRecord>) returns (unique: seq<JournalRecord>)
    ensures unique == Surplus(kernel, tail)
  {
    var kernelCounts: map<string, nat> := map[];
    for i := 0 to |kernel|
      invariant forall t :: Tally(kernelCounts, t) == Count(kernel[..i], t)
    {
      assert kernel[..i + 1][..i] == kernel[..i];
      var text := kernel[i].text;
      kernelCounts := kernelCounts[text := Tally(kernelCounts, text) + 1];
    }
    assert kernel[..|kernel|] == kernel;
    var tailSeen: map<string, nat> := map[];
    unique := [];
    for i := 0 to |tail|
      invariant forall t :: Tally(tailSeen, t) == Count(tail[..i], t)
      invariant unique == Surplus(kernel, tail[..i])
    {
      assert tail[..i + 1][..i] == tail[..i];
      var text := tail[i].text;
      tailSeen := tailSeen[text := Tally(tailSeen, text) + 1];
      if Tally(tailSeen, text) > Tally(kernelCounts, text) { unique := unique + [tail[i]]; }
    }
    assert tail[..|tail|] == tail;
  }

  function Tally(counts: map<string, nat>, text: string): nat { if text in counts then counts[text] else 0 }

  /** The next record of a merge, and where the rest of it starts. */
  lemma MergeNext(kernel: seq<JournalRecord>, i: nat, tail: seq<JournalRecord>, j: nat)
    requires i <= |kernel| && j <= |tail|
    ensures Merge(kernel, i, tail, j)
         == if i == |kernel| && j == |tail| then []
            else if i < |kernel| && (j == |tail| || KernelFirst(kernel[i], tail[j])) then
              [Merged(kernel[i], true)] + Merge(kernel, i + 1, tail, j)
            else [Merged(tail[j], false)] + Merge(kernel, i, tail, j + 1)
  {
  }

  lemma TextsSnoc(taken: seq<Merged>, next: Merged, rest: seq<Merged>)
    ensures Texts(taken + [next]) == Texts(taken) + [next.record.text]
    ensures taken + ([next] + rest) == taken + [next] + rest
  {
  }

  method StableMerge(kernel: seq<JournalRecord>, tail: seq<JournalRecord>) returns (merged: seq<string>)
    ensures merged == Texts(Merge(kernel, 0, tail, 0))
  {
    hide Merge;
    hide KernelFirst;
    hide Texts;
    var i, j := 0, 0;
    merged := [];
    ghost var taken: seq<Merged> := [];
    while i < |kernel| || j < |tail|
      invariant i <= |kernel| && j <= |tail|
      invariant merged == Texts(taken) && taken + Merge(kernel, i, tail, j) == Merge(kernel, 0, tail, 0)
      decreases |kernel| - i + |tail| - j
    {
      MergeNext(kernel, i, tail, j);
      if i < |kernel| && (j == |tail| || KernelFirst(kernel[i], tail[j])) {
        TextsSnoc(taken, Merged(kernel[i], true), Merge(kernel, i + 1, tail, j));
        taken := taken + [Merged(kernel[i], true)];
        merged := merged + [kernel[i].text];
        i := i + 1;
      } else {
        TextsSnoc(taken, Merged(tail[j], false), Merge(kernel, i, tail, j + 1));
        taken := taken + [Merged(tail[j], false)];
        merged := merged + [tail[j].text];
        j := j + 1;
      }
    }
    MergeNext(kernel, i, tail, j);
    assert taken + [] == taken;
  }

  /** The combined prior-boot evidence. Without the end tail there is none at all. */
  method CombinePrior(kernel: Option<seq<JournalRecord>>, tail: Option<seq<JournalRecord>>)
    returns (combined: Option<seq<string>>)
    ensures combined.Some? <==> tail.Some?
    ensures kernel.Some? && tail.Some? ==>
      combined.value == Texts(Merge(kernel.value, 0, Surplus(kernel.value, tail.value), 0))
    ensures tail.Some? ==>
      var k := if kernel.Some? then kernel.value else [];
      forall t :: CountText(combined.value, t) == Max(Count(k, t), Count(tail.value, t))
  {
    if tail.None? { return None; }
    if kernel.None? {
      forall t ensures CountText(TextsOf(tail.value), t) == Count(tail.value, t) { CountTexts(tail.value, t); }
      return Some(TextsOf(tail.value));
    }
    var unique := UniqueTail(kernel.value, tail.value);
    var merged := StableMerge(kernel.value, unique);
    forall t ensures CountText(merged, t) == Max(Count(kernel.value, t), Count(tail.value, t)) {
      MergeIsMultisetMax(kernel.value, tail.value, t);
    }
    combined := Some(merged);
  }

  function TextsOf(records: seq<JournalRecord>): (t: seq<string>)
    ensures |t| == |records|
  {
    seq(|records|, i requires 0 <= i < |records| => records[i].text)
  }

  function CountText(texts: seq<string>, text: string): nat {
    if texts == [] then 0 else CountText(texts[1..], text) + if texts[0] == text then 1 else 0
  }

  // ---- What the merge preserves ----

  /** `m` is an interleaving: its kernel records are `kernel[i..]` and its others `tail[j..]`, each in order. */
  ghost predicate Interleaves(m: seq<Merged>, kernel: seq<JournalRecord>, i: nat, tail: seq<JournalRecord>, j: nat)
    requires i <= |kernel| && j <= |tail|
  {
    if m == [] then i == |kernel| && j == |tail|
    else if m[0].fromKernel then i < |kernel| && m[0].record == kernel[i] && Interleaves(m[1..], kernel, i + 1, tail, j)
    else j < |tail| && m[0].record == tail[j] && Interleaves(m[1..], kernel, i, tail, j + 1)
  }

  lemma {:induction false} MergeInterleaves(kernel: seq<JournalRecord>, i: nat, tail: seq<JournalRecord>, j: nat)
    requires i <= |kernel| && j <= |tail|
    ensures Interleaves(Merge(kernel, i, tail, j), kernel, i, tail, j)
    decreases |kernel| - i + |tail| - j
  {
    var m := Merge(kernel, i, tail, j);
    if m != [] {
      if m[0].fromKernel {
        MergeInterleaves(kernel, i + 1, tail, j);
        assert m[1..] == Merge(kernel, i + 1, tail, j);
      } else {
        MergeInterleaves(kernel, i, tail, j + 1);
        assert m[1..] == Merge(kernel, i, tail, j + 1);
      }
    }
  }

  /** Whatever an interleaving is, no record of either list is lost or repeated. */
  lemma {:induction false} InterleavingCounts(
    m: seq<Merged>, kernel: seq<JournalRecord>, i: nat, tail: seq<JournalRecord>, j: nat, text: string)
    requires i <= |kernel| && j <= |tail| && Interleaves(m, kernel, i, tail, j)
    ensures CountText(Texts(m), text) == CountText(TextsOf(kernel[i..]), text) + CountText(TextsOf(tail[j..]), text)
    decreases |m|
  {
    if m == [] {
      assert TextsOf(kernel[i..]) == [] && TextsOf(tail[j..]) == [];
    } else {
      assert Texts(m)[1..] == Texts(m[1..]);
      if m[0].fromKernel {
        InterleavingCounts(m[1..], kernel, i + 1, tail, j, text);
        assert TextsOf(kernel[i..])[1..] == TextsOf(kernel[i + 1..]);
      } else {
        InterleavingCounts(m[1..], kernel, i, tail, j + 1, text);
        assert TextsOf(tail[j..])[1..] == TextsOf(tail[j + 1..]);
      }
    }
  }

  lemma {:induction false} CountTextSnoc(texts: seq<string>, last: string, text: string)
    ensures CountText(texts + [last], text) == CountText(texts, text) + if last == text then 1 else 0
  {
    if texts == [] {
      assert texts + [last] == [last];
    } else {
      CountTextSnoc(texts[1..], last, text);
      assert (texts + [last])[1..] == texts[1..] + [last];
    }
  }

  lemma {:induction false} CountTexts(records: seq<JournalRecord>, text: string)
    ensures CountText(TextsOf(records), text) == Count(records, text)
  {
    if records != [] {
      var init := records[..|records| - 1];
      CountTexts(init, text);
      CountTextSnoc(TextsOf(init), records[|records| - 1].text, text);
      assert TextsOf(records) == TextsOf(init) + [records[|records| - 1].text];
    }
  }

  lemma {:induction false} SurplusCount(kernel: seq<JournalRecord>, tail: seq<JournalRecord>, text: string)
    ensures Count(kernel, text) + Count(Surplus(kernel, tail), text) == Max(Count(kernel, text), Count(tail, text))
  {
    if tail != [] {
      var init, last := tail[..|tail| - 1], tail[|tail| - 1];
      SurplusCount(kernel, init, text);
      var s := Surplus(kernel, init);
      assert (s + [last])[..|s|] == s;
    }
  }

  /** Each record text occurs in the merge as often as in the source that has it more often. */
  lemma {:induction false} MergeIsMultisetMax(kernel: seq<JournalRecord>, tail: seq<JournalRecord>, text: string)
    ensures CountText(Texts(Merge(kernel, 0, Surplus(kernel, tail), 0)), text)
         == Max(Count(kernel, text), Count(tail, text))
  {
    var surplus := Surplus(kernel, tail);
    MergeInterleaves(kernel, 0, surplus, 0);
    InterleavingCounts(Merge(kernel, 0, surplus, 0), kernel, 0, surplus, 0, text);
    assert kernel[0..] == kernel && surplus[0..] == surplus;
    CountTexts(kernel, text);
    CountTexts(surplus, text);
    SurplusCount(kernel, tail, text);
  }

  ghost predicate Subsequence<T>(xs: seq<T>, ys: seq<T>)
    decreases |ys|
  {
    xs == [] || (ys != [] && ((xs[0] == ys[0] && Subsequence(xs[1..], ys[1..])) || Subsequence(xs, ys[1..])))
  }

  lemma {:induction false} SubsequenceSnoc<T>(xs: seq<T>, ys: seq<T>, y: T, keep: bool)
    requires Subsequence(xs, ys)
    ensures Subsequence(if keep then xs + [y] else xs, ys + [y])
    decreases |ys|
  {
    if ys == [] {
      assert xs + [y] == [y] && ys + [y] == [y];
      assert [y][1..] == [];
    } else {
      assert (ys + [y])[1..] == ys[1..] + [y];
      if xs != [] && xs[0] == ys[0] && Subsequence(xs[1..], ys[1..]) {
        SubsequenceSnoc(xs[1..], ys[1..], y, keep);
        assert (xs + [y])[1..] == xs[1..] + [y];
      } else if xs == [] && !keep {
      } else {
        if xs == [] { assert Subsequence(xs, ys[1..]); }
        SubsequenceSnoc(xs, ys[1..], y, keep);
      }
    }
  }

  /** The surplus keeps the tail's order. */
  lemma {:induction false} SurplusIsSubsequence(kernel: seq<JournalRecord>, tail: seq<JournalRecord>)
    ensures Subsequence(Surplus(kernel, tail), tail)
  {
    if tail != [] {
      var init, last := tail[..|tail| - 1], tail[|tail| - 1];
      SurplusIsSubsequence(kernel, init);
      SubsequenceSnoc(Surplus(kernel, init), init, last, Count(tail, last.text) > Count(kernel, last.text));
      assert init + [last] == tail;
    }
  }

  // ---- Order ----

  ghost predicate Sorted(records: seq<JournalRecord>) {
    && (forall i :: 0 <= i < |records| ==> records[i].timestamp.Some?)
    && (forall i, j :: 0 <= i < j < |records| ==> records[i].timestamp.value <= records[j].timestamp.value)
  }

  /** `x` may stand before `y`: it is earlier, or as early and not a tail record before a kernel one. */
  ghost predicate MayPrecede(x: Merged, y: Merged) {
    && x.record.timestamp.Some? && y.record.timestamp.Some?
    && (x.record.timestamp.value < y.record.timestamp.value
        || (x.record.timestamp.value == y.record.timestamp.value && (x.fromKernel || !y.fromKernel)))
  }

  ghost predicate StablySorted(m: seq<Merged>) {
    forall i, j :: 0 <= i < j < |m| ==> MayPrecede(m[i], m[j])
  }

  /** Every merged record is still to come in its own source. */
  ghost predicate Pending(x: Merged, kernel: seq<JournalRecord>, i: nat, tail: seq<JournalRecord>, j: nat) {
    if x.fromKernel then exists k :: i <= k < |kernel| && kernel[k] == x.record
    else exists k :: j <= k < |tail| && tail[k] == x.record
  }

  lemma {:induction false} MergedArePending(kernel: seq<JournalRecord>, i: nat, tail: seq<JournalRecord>, j: nat)
    requires i <= |kernel| && j <= |tail|
    ensures forall n :: 0 <= n < |Merge(kernel, i, tail, j)| ==>
              Pending(Merge(kernel, i, tail, j)[n], kernel, i, tail, j)
    decreases |kernel| - i + |tail| - j
  {
    var m := Merge(kernel, i, tail, j);
    if m != [] {
      var i', j' := if m[0].fromKernel then i + 1 else i, if m[0].fromKernel then j else j + 1;
      MergedArePending(kernel, i', tail, j');
      forall n | 0 <= n < |m| ensures Pending(m[n], kernel, i, tail, j) {
        if n > 0 {
          assert m[n] == Merge(kernel, i', tail, j')[n - 1];
          assert Pending(m[n], kernel, i', tail, j');
        }
      }
    }
  }

  /** Two sorted sources merge into a sorted list, with kernel records first among equals. */
  lemma {:induction false} MergeIsStablySorted(kernel: seq<JournalRecord>, i: nat, tail: seq<JournalRecord>, j: nat)
    requires i <= |kernel| && j <= |tail| && Sorted(kernel) && Sorted(tail)
    ensures StablySorted(Merge(kernel, i, tail, j))
    decreases |kernel| - i + |tail| - j
  {
    var m := Merge(kernel, i, tail, j);
    if m != [] {
      var i', j' := if m[0].fromKernel then i + 1 else i, if m[0].fromKernel then j else j + 1;
      MergeIsStablySorted(kernel, i', tail, j');
      MergedArePending(kernel, i', tail, j');
      forall b | 0 < b < |m| ensures MayPrecede(m[0], m[b]) {
        assert m[b] == Merge(kernel, i', tail, j')[b - 1];
        assert Pending(m[b], kernel, i', tail, j');
      }
    }
  }

  lemma {:induction false} SurplusStaysSorted(kernel: seq<JournalRecord>, tail: seq<JournalRecord>)
    requires Sorted(tail)
    ensures Sorted(Surplus(kernel, tail)) && forall r :: r in Surplus(kernel, tail) ==> r in tail
  {
    if tail != [] {
      var init, last := tail[..|tail| - 1], tail[|tail| - 1];
      SurplusStaysSorted(kernel, init);
      var s := Surplus(kernel, init);
      forall i | 0 <= i < |s| ensures s[i].timestamp.value <= last.timestamp.value {
        assert s[i] in init;
      }
    }
  }

  /** The combined evidence of two sorted, time-stamped sources is sorted, kernel first among equals. */
  lemma {:induction false} CombinedIsStablySorted(kernel: seq<JournalRecord>, tail: seq<JournalRecord>)
    requires Sorted(kernel) && Sorted(tail)
    ensures StablySorted(Merge(kernel, 0, Surplus(kernel, tail), 0))
  {
    SurplusStaysSorted(kernel, tail);
    MergeIsStablySorted(kernel, 0, Surplus(kernel, tail), 0);
  }

  // ---- Clock regression ----

  const TIMING_REGRESSION_TOLERANCE_NS: int := 100_000_000
  const PRECURSOR_WINDOW_NS: int := 900 * 1_000_000_000

  /** How far the clock moves backwards from one row to the next. */
  function Backward(a: int, b: int): nat { if a > b then a - b else 0 }

  /** The total backward movement over a list of rows. */
  function TotalBackward(rows: seq<int>): nat {
    if |rows| < 2 then 0
    else TotalBackward(rows[..|rows| - 1]) + Backward(rows[|rows| - 2], rows[|rows| - 1])
  }

  lemma {:induction false} TotalBackwardGrows(rows: seq<int>, k: nat)
    requires k <= |rows|
    ensures TotalBackward(rows[..k]) <= TotalBackward(rows)
    decreases |rows| - k
  {
    if k < |rows| {
      TotalBackwardGrows(rows, k + 1);
      assert rows[..k + 1][..k] == rows[..k];
    } else {
      assert rows[..k] == rows;
    }
  }

  /** Flags a journal whose clock moved back too far. The early exits never change the answer. */
  method TimestampsRegress(rows: seq<int>) returns (flagged: bool)
    ensures flagged <==> TotalBackward(rows) > TIMING_REGRESSION_TOLERANCE_NS
  {
    var cumulative: int := 0;
    if |rows| == 0 { return false; }
    for i := 1 to |rows|
      invariant cumulative == TotalBackward(rows[..i]) <= TIMING_REGRESSION_TOLERANCE_NS
    {
      assert rows[..i + 1][..i] == rows[..i];
      var regression := rows[i - 1] - rows[i];
      if regression > 0 {
        cumulative := cumulative + regression;
        if regression > TIMING_REGRESSION_TOLERANCE_NS || cumulative > TIMING_REGRESSION_TOLERANCE_NS {
          TotalBackwardGrows(rows, i + 1);
          return true;
        }
      }
    }
    assert rows[..|rows|] == rows;
    flagged := false;
  }

  lemma {:induction false} TotalBackwardCons(a: int, rows: seq<int>)
    requires rows != []
    ensures TotalBackward([a] + rows) == Backward(a, rows[0]) + TotalBackward(rows)
    decreases |rows|
  {
    if |rows| == 1 {
      assert ([a] + rows)[..1] == [a];
    } else {
      TotalBackwardCons(a, rows[..|rows| - 1]);
      assert ([a] + rows)[..|rows|] == [a] + rows[..|rows| - 1];
    }
  }

  /** Dropping rows never adds backward movement. */
  lemma {:induction false} DroppingRowsNeverAdds(a: int, xs: seq<int>, ys: seq<int>)
    requires Subsequence(xs, ys)
    ensures TotalBackward([a] + xs) <= TotalBackward([a] + ys)
    ensures TotalBackward(xs) <= TotalBackward(ys)
    decreases |ys|
  {
    if ys != [] {
      assert ys == [ys[0]] + ys[1..];
      TotalBackwardCons(a, ys);
      if ys[1..] != [] { TotalBackwardCons(ys[0], ys[1..]); TotalBackwardCons(a, ys[1..]); }
      if xs == [] {
        assert [a] + xs == [a];
      } else {
        TotalBackwardCons(a, xs);
        if xs[0] == ys[0] && Subsequence(xs[1..], ys[1..]) {
          assert xs == [xs[0]] + xs[1..];
          DroppingRowsNeverAdds(ys[0], xs[1..], ys[1..]);
        } else {
          DroppingRowsNeverAdds(a, xs, ys[1..]);
          DroppingRowsNeverAdds(ys[0], xs, ys[1..]);
          TotalBackwardCons(ys[0], xs);
        }
      }
    }
  }

  /** The rows of the precursor window: those at most 900 seconds before the last one. */
  function Window(rows: seq<int>, earliest: int): seq<int> {
    if rows == [] then []
    else
      var init := Window(rows[..|rows| - 1], earliest);
      if rows[|rows| - 1] >= earliest then init + [rows[|rows| - 1]] else init
  }

  lemma {:induction false} WindowIsSubsequence(rows: seq<int>, earliest: int)
    ensures Subsequence(Window(rows, earliest), rows)
  {
    if rows != [] {
      var init, last := rows[..|rows| - 1], rows[|rows| - 1];
      WindowIsSubsequence(init, earliest);
      SubsequenceSnoc(Window(init, earliest), init, last, last >= earliest);
      assert init + [last] == rows;
    }
  }

  /** A precursor window whose timing is unreliable means the whole journal's timing is. */
  lemma {:induction false} FlaggedWindowFlagsJournal(rows: seq<int>)
    requires rows != []
    requires TotalBackward(Window(rows, rows[|rows| - 1] - PRECURSOR_WINDOW_NS)) > TIMING_REGRESSION_TOLERANCE_NS
    ensures TotalBackward(rows) > TIMING_REGRESSION_TOLERANCE_NS
  {
    var earliest := rows[|rows| - 1] - PRECURSOR_WINDOW_NS;
    WindowIsSubsequence(rows, earliest);
    DroppingRowsNeverAdds(0, Window(rows, earliest), rows);
  }

  function Instants(m: seq<Merged>): (rows: seq<int>)
    requires forall x :: x in m ==> x.record.timestamp.Some?
    ensures |rows| == |m|
  {
    seq(|m|, i requires 0 <= i < |m| => m[i].record.timestamp.value)
  }

  lemma {:induction false} SortedNeverRegresses(rows: seq<int>)
    requires forall i, j :: 0 <= i < j < |rows| ==> rows[i] <= rows[j]
    ensures TotalBackward(rows) == 0
  {
    if |rows| >= 2 { SortedNeverRegresses(rows[..|rows| - 1]); }
  }

  /** Merging two sorted sources never raises the flag. */
  lemma {:induction false} MergeNeverFlagged(kernel: seq<JournalRecord>, tail: seq<JournalRecord>)
    requires Sorted(kernel) && Sorted(tail)
    ensures var m := Merge(kernel, 0, Surplus(kernel, tail), 0);
            (forall x :: x in m ==> x.record.timestamp.Some?) && TotalBackward(Instants(m)) == 0
  {
    SurplusStaysSorted(kernel, tail);
    var m := Merge(kernel, 0, Surplus(kernel, tail), 0);
    MergeIsStablySorted(kernel, 0, Surplus(kernel, tail), 0);
    MergedArePending(kernel, 0, Surplus(kernel, tail), 0);
    forall n | 0 <= n < |m| ensures m[n].record.timestamp.Some? {
      assert Pending(m[n], kernel, 0, Surplus(kernel, tail), 0);
    }
    forall i, j | 0 <= i < j < |m| ensures Instants(m)[i] <= Instants(m)[j] { assert MayPrecede(m[i], m[j]); }
    SortedNeverRegresses(Instants(m));
  }
}
