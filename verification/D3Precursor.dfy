/** The precursor test of the D3 detector: a failing tail in the last 900 seconds of the prior boot. */
module D3Precursor {
  import opened D3Journal

  const SMU_UNRESPONSIVE_MIN: nat := 3
  const RESET_ATTEMPT_MIN: nat := 2

  /** A journal row: its instant, whether it is a kernel record of the learned device, and what its text reports. */
  datatype Row = Row(time: int, ours: bool, smu: bool, reset: bool, recovered: bool)

  function Times(rows: seq<Row>): (t: seq<int>)
    ensures |t| == |rows|
  {
    seq(|rows|, i requires 0 <= i < |rows| => rows[i].time)
  }

  function Recent(rows: seq<Row>, earliest: int): seq<Row> {
    if rows == [] then []
    else
      var init, last := Recent(rows[..|rows| - 1], earliest), rows[|rows| - 1];
      if last.time >= earliest then init + [last] else init
  }

  function Ours(rows: seq<Row>): seq<Row> {
    if rows == [] then []
    else
      var init, last := Ours(rows[..|rows| - 1]), rows[|rows| - 1];
      if last.ours then init + [last] else init
  }

  function SmuCount(rows: seq<Row>): nat {
    if rows == [] then 0 else SmuCount(rows[..|rows| - 1]) + if rows[|rows| - 1].smu then 1 else 0
  }

  function ResetCount(rows: seq<Row>): nat {
    if rows == [] then 0 else ResetCount(rows[..|rows| - 1]) + if rows[|rows| - 1].reset then 1 else 0
  }

  ghost predicate RecoveredAfter(rows: seq<Row>, i: nat) { exists j :: i < j < |rows| && rows[j].recovered }

  ghost predicate RecoveredAfterEach(rows: seq<Row>) {
    forall i :: 0 <= i < |rows| && rows[i].reset ==> RecoveredAfter(rows, i)
  }

  ghost predicate Terminal(scoped: seq<Row>) {
    (ResetCount(scoped) != 0 && !RecoveredAfterEach(scoped)) || (scoped != [] && scoped[|scoped| - 1].smu)
  }

  function Horizon(rows: seq<Row>): int
    requires rows != []
  {
    rows[|rows| - 1].time - PRECURSOR_WINDOW_NS
  }

  ghost predicate Fires(rows: seq<Row>) {
    && rows != []
    && var window := Recent(rows, Horizon(rows));
       var scoped := Ours(window);
       && TotalBackward(Times(window)) <= TIMING_REGRESSION_TOLERANCE_NS
       && SmuCount(scoped) >= SMU_UNRESPONSIVE_MIN && ResetCount(scoped) >= RESET_ATTEMPT_MIN
       && Terminal(scoped)
  }

  lemma {:induction false} NoResets(rows: seq<Row>)
    ensures ResetCount(rows) == 0 <==> forall i :: 0 <= i < |rows| ==> !rows[i].reset
  {
    if rows != [] { NoResets(rows[..|rows| - 1]); }
  }

  /** Reset `k` is the last one. */
  ghost predicate LastReset(rows: seq<Row>, k: nat) {
    k < |rows| && rows[k].reset && forall i :: k < i < |rows| ==> !rows[i].reset
  }

  lemma {:induction false} SomeLastReset(rows: seq<Row>) returns (k: nat)
    requires ResetCount(rows) != 0
    ensures LastReset(rows, k)
  {
    var n := |rows| - 1;
    if rows[n].reset { k := n; } else { k := SomeLastReset(rows[..n]); }
  }

  /** "Every reset was recovered from" is only about the last one. */
  lemma {:induction false} OnlyTheLastResetMatters(rows: seq<Row>, k: nat)
    requires LastReset(rows, k)
    ensures RecoveredAfterEach(rows) <==> RecoveredAfter(rows, k)
  {
  }

  /** A tail is terminal exactly when nothing recovers after its last reset, or it ends in an SMU failure. */
  lemma {:induction false} TerminalExactly(scoped: seq<Row>)
    ensures Terminal(scoped)
       <==> || (exists k :: LastReset(scoped, k) && !RecoveredAfter(scoped, k))
            || (scoped != [] && scoped[|scoped| - 1].smu)
  {
    NoResets(scoped);
    if ResetCount(scoped) != 0 {
      var k := SomeLastReset(scoped);
      forall n | LastReset(scoped, n) ensures RecoveredAfterEach(scoped) <==> RecoveredAfter(scoped, n) {
        OnlyTheLastResetMatters(scoped, n);
      }
    }
  }

  /** A recovery logged after everything else silences the precursor, whatever came before it. */
  lemma {:induction false} LateRecoverySilences(rows: seq<Row>, r: Row)
    requires r.ours && r.recovered && !r.smu && !r.reset
    ensures !Fires(rows + [r])
  {
  }

  lemma {:induction false} RecentConcat(past: seq<Row>, rows: seq<Row>, earliest: int)
    ensures Recent(past + rows, earliest) == Recent(past, earliest) + Recent(rows, earliest)
  {
    if rows == [] {
      assert past + rows == past;
    } else {
      assert (past + rows)[..|past + rows| - 1] == past + rows[..|rows| - 1];
      RecentConcat(past, rows[..|rows| - 1], earliest);
    }
  }

  lemma {:induction false} NothingRecent(rows: seq<Row>, earliest: int)
    requires forall i :: 0 <= i < |rows| ==> rows[i].time < earliest
    ensures Recent(rows, earliest) == []
  {
    if rows != [] { NothingRecent(rows[..|rows| - 1], earliest); }
  }

  /** What happened before the window has no say, not even in whether the timing is reliable. */
  lemma OldRowsHaveNoSay(past: seq<Row>, rows: seq<Row>)
    requires rows != [] && forall i :: 0 <= i < |past| ==> past[i].time < Horizon(rows)
    ensures Fires(past + rows) == Fires(rows)
  {
    assert Horizon(past + rows) == Horizon(rows);
    RecentConcat(past, rows, Horizon(rows));
    NothingRecent(past, Horizon(rows));
    assert [] + Recent(rows, Horizon(rows)) == Recent(rows, Horizon(rows));
  }

  lemma {:induction false} TimesOfRecent(rows: seq<Row>, earliest: int)
    ensures Times(Recent(rows, earliest)) == Window(Times(rows), earliest)
  {
    if rows != [] {
      var init := rows[..|rows| - 1];
      TimesOfRecent(init, earliest);
      assert Times(rows)[..|rows| - 1] == Times(init);
      var last := rows[|rows| - 1];
      assert Times(Recent(init, earliest) + [last]) == Times(Recent(init, earliest)) + [last.time];
    }
  }

  /** On a journal whose timing passes the whole-journal test, the precursor's own timing test never objects. */
  lemma {:induction false} ReliableJournalHasReliableWindow(rows: seq<Row>)
    requires rows != [] && TotalBackward(Times(rows)) <= TIMING_REGRESSION_TOLERANCE_NS
    ensures TotalBackward(Times(Recent(rows, Horizon(rows)))) <= TIMING_REGRESSION_TOLERANCE_NS
  {
    TimesOfRecent(rows, Horizon(rows));
    if TotalBackward(Window(Times(rows), Horizon(rows))) > TIMING_REGRESSION_TOLERANCE_NS {
      FlaggedWindowFlagsJournal(Times(rows));
    }
  }
}
