/** Delivery health: rate-limited warnings about an unreachable Elasticsearch, and its recoveries. */
module Health {
  import opened Wrappers

  const REPEAT_SECS: nat := 60

  /** The outage in progress; `announced` once the operator was told about it. */
  datatype Outage = Outage(since: nat, attempts: nat, announced: bool)

  /** `lastSpoke` outlives outages. */
  datatype State = State(outage: Option<Outage>, lastSpoke: Option<nat>)

  const HEALTHY := State(None, None)

  /** What a bulk delivery came to: a response with so many rejected documents, or an error. */
  datatype Outcome = Shipped(failed: nat) | Failed

  /** One delivery as the lock orders it; a failed one carries the clock reading taken before the lock. */
  datatype Event = Failure(now: nat) | Success

  datatype Line = Silent | Warning(since: nat, attempts: nat) | Recovery(failures: nat)

  predicate Due(s: State, now: nat) {
    s.lastSpoke.None? || now < s.lastSpoke.value || now - s.lastSpoke.value >= REPEAT_SECS
  }

  /** The state a delivery leaves, and the line it prints. */
  function Step(s: State, e: Event): (State, Line) {
    match e
    case Failure(now) =>
      var o := s.outage.GetOr(Outage(now, 0, false));
      var counted := o.(attempts := o.attempts + 1);
      if Due(s, now) then (State(Some(counted.(announced := true)), Some(now)), Warning(o.since, counted.attempts))
      else (State(Some(counted), s.lastSpoke), Silent)
    case Success =>
      (State(None, s.lastSpoke),
       if s.outage.Some? && s.outage.value.announced then Recovery(s.outage.value.attempts) else Silent)
  }

  class EsDeliveryHealth {
    var outage: Option<Outage>
    var lastSpoke: Option<nat>

    constructor ()
      ensures Now() == HEALTHY
    {
      outage, lastSpoke := None, None;
    }

    function Now(): State
      reads this
    {
      State(outage, lastSpoke)
    }

    method RecordFailure(now: nat) returns (line: Line)
      modifies this
      ensures (Now(), line) == Step(old(Now()), Failure(now))
    {
      var due: bool;
      match lastSpoke {
        case None => due := true;
        case Some(last) => due := now < last || now - last >= REPEAT_SECS;
      }
      if outage.None? { outage := Some(Outage(now, 0, false)); }
      outage := Some(outage.value.(attempts := outage.value.attempts + 1));
      if !due { return Silent; }
      outage := Some(outage.value.(announced := true));
      line := Warning(outage.value.since, outage.value.attempts);
      lastSpoke := Some(now);
    }

    method RecordSuccess() returns (line: Line)
      modifies this
      ensures (Now(), line) == Step(old(Now()), Success)
    {
      var ended := outage;
      outage := None;
      line := if ended.Some? && ended.value.announced then Recovery(ended.value.attempts) else Silent;
    }

    /** A rejected document makes a delivery a failed one, whatever its status. */
    method Observe(outcome: Outcome, now: nat) returns (line: Line)
      modifies this
      ensures (Now(), line) == Step(old(Now()), if outcome == Shipped(0) then Success else Failure(now))
    {
      if outcome.Shipped? && outcome.failed == 0 {
        line := RecordSuccess();
      } else {
        line := RecordFailure(now);
      }
    }
  }

  // ---- Runs ----

  /** The state after the first `n` deliveries. */
  function After(es: seq<Event>, n: nat): State
    requires n <= |es|
  {
    if n == 0 then HEALTHY else Step(After(es, n - 1), es[n - 1]).0
  }

  /** The line delivery `k` prints. */
  function LineOf(es: seq<Event>, k: nat): Line
    requires k < |es|
  {
    Step(After(es, k), es[k]).1
  }

  function Warnings(es: seq<Event>, n: nat): nat
    requires n <= |es|
  {
    if n == 0 then 0 else Warnings(es, n - 1) + if LineOf(es, n - 1).Warning? then 1 else 0
  }

  function Recoveries(es: seq<Event>, n: nat): nat
    requires n <= |es|
  {
    if n == 0 then 0 else Recoveries(es, n - 1) + if LineOf(es, n - 1).Recovery? then 1 else 0
  }

  // What the deliveries say by themselves: nothing below looks at the tracker's state.

  /** The clock reading of the last failure. */
  function Reading(es: seq<Event>, n: nat): Option<nat>
    requires n <= |es|
  {
    if n == 0 then None else if es[n - 1].Failure? then Some(es[n - 1].now) else Reading(es, n - 1)
  }

  /** How often the clock stepped back from one failure to the next. */
  function StepsBack(es: seq<Event>, n: nat): nat
    requires n <= |es|
  {
    if n == 0 then 0
    else
      var before := Reading(es, n - 1);
      StepsBack(es, n - 1) + if es[n - 1].Failure? && before.Some? && es[n - 1].now < before.value then 1 else 0
  }

  /** How far the clock moved forward in all, from failure to failure. */
  function Forward(es: seq<Event>, n: nat): nat
    requires n <= |es|
  {
    if n == 0 then 0
    else
      var before := Reading(es, n - 1);
      Forward(es, n - 1)
      + if es[n - 1].Failure? && before.Some? && es[n - 1].now > before.value then es[n - 1].now - before.value else 0
  }

  /** Where the current streak of failures began: just after the last success. */
  function StreakStart(es: seq<Event>, n: nat): (k: nat)
    requires n <= |es|
    ensures k <= n && (forall i :: k <= i < n ==> es[i].Failure?) && (k > 0 ==> es[k - 1].Success?)
  {
    if n == 0 || es[n - 1].Success? then n else StreakStart(es, n - 1)
  }

  /** One of the lines from `lo` up to `hi` was a warning. */
  ghost predicate WarnedIn(es: seq<Event>, lo: nat, hi: nat)
    requires hi <= |es|
  {
    exists k :: lo <= k < hi && LineOf(es, k).Warning?
  }

  // ---- Theorems ----

  /** The tracker's state is exactly the streak of failures since the last success. */
  lemma {:induction false} StateIsTheStreak(es: seq<Event>, n: nat)
    requires n <= |es|
    ensures var k := StreakStart(es, n); var o := After(es, n).outage;
      if k == n then o.None?
      else o.Some? && es[k].Failure? && o.value.since == es[k].now && o.value.attempts == n - k
           && (o.value.announced <==> WarnedIn(es, k, n))
  {
    if n > 0 {
      StateIsTheStreak(es, n - 1);
      var k := StreakStart(es, n);
      if k < n {
        assert WarnedIn(es, k, n) <==> WarnedIn(es, k, n - 1) || LineOf(es, n - 1).Warning?;
      }
    }
  }

  /** A warning names the first failure of its streak and counts the streak. */
  lemma WarningDescribesTheStreak(es: seq<Event>, n: nat)
    requires n < |es| && LineOf(es, n).Warning?
    ensures var k := StreakStart(es, n + 1);
      k <= n && es[k].Failure? && LineOf(es, n) == Warning(es[k].now, n + 1 - k)
  {
    StateIsTheStreak(es, n);
  }

  /** A success prints a recovery exactly when its streak was warned about, and then counts the whole streak. */
  lemma RecoveryCountsTheStreak(es: seq<Event>, n: nat)
    requires n < |es| && es[n].Success?
    ensures var k := StreakStart(es, n);
      LineOf(es, n) == if WarnedIn(es, k, n) then Recovery(n - k) else Silent
  {
    StateIsTheStreak(es, n);
  }

  ghost function LatestWarning(es: seq<Event>, n: nat): (k: nat)
    requires n <= |es| && WarnedIn(es, 0, n)
    ensures k < n && es[k].Failure? && LineOf(es, k).Warning? && !WarnedIn(es, k + 1, n)
  {
    if LineOf(es, n - 1).Warning? then n - 1 else LatestWarning(es, n - 1)
  }

  lemma {:induction false} LastSpokeIsLastWarning(es: seq<Event>, n: nat)
    requires n <= |es|
    ensures After(es, n).lastSpoke == if WarnedIn(es, 0, n) then Some(es[LatestWarning(es, n)].now) else None
  {
    if n > 0 {
      LastSpokeIsLastWarning(es, n - 1);
      assert WarnedIn(es, 0, n) <==> WarnedIn(es, 0, n - 1) || LineOf(es, n - 1).Warning?;
    }
  }

  /**
   * A failure is warned about exactly when none was before, the clock is behind the last warning,
   * or the last warning is a whole interval old: no failure past the interval is silent.
   */
  lemma SpeaksExactlyWhenDue(es: seq<Event>, n: nat)
    requires n < |es| && es[n].Failure?
    ensures LineOf(es, n).Warning?
      <==> (WarnedIn(es, 0, n) ==>
              var last := es[LatestWarning(es, n)].now;
              es[n].now < last || es[n].now - last >= REPEAT_SECS)
  {
    LastSpokeIsLastWarning(es, n);
  }

  /** Each warning past the first is paid for by a step back or by a whole interval of forward movement. */
  lemma {:induction false} WarningsAreRateLimited(es: seq<Event>, n: nat)
    requires n <= |es|
    ensures REPEAT_SECS * Warnings(es, n) <= REPEAT_SECS * (1 + StepsBack(es, n)) + Forward(es, n)
    ensures After(es, n).lastSpoke.Some? ==>
      var reading := Reading(es, n);
      && reading.Some? && After(es, n).lastSpoke.value <= reading.value
      && REPEAT_SECS * Warnings(es, n) + reading.value - After(es, n).lastSpoke.value
         <= REPEAT_SECS * (1 + StepsBack(es, n)) + Forward(es, n)
    ensures After(es, n).lastSpoke.None? ==> Warnings(es, n) == 0 && Reading(es, n).None?
  {
    if n > 0 { WarningsAreRateLimited(es, n - 1); }
  }

  /** Every recovery answers a warning of its own. */
  lemma {:induction false} RecoveriesFollowWarnings(es: seq<Event>, n: nat)
    requires n <= |es|
    ensures Recoveries(es, n) <= Warnings(es, n)
    ensures var o := After(es, n).outage;
      o.Some? && o.value.announced ==> Recoveries(es, n) < Warnings(es, n)
  {
    if n > 0 { RecoveriesFollowWarnings(es, n - 1); }
  }

  /** The limit holds across outages: while the clock runs forward, an interval holds at most one warning. */
  lemma WarningsAreApart(es: seq<Event>, i: nat, j: nat)
    requires i < j < |es| && LineOf(es, i).Warning? && LineOf(es, j).Warning?
    requires forall m, k :: i <= m < k <= j && es[m].Failure? && es[k].Failure? ==> es[m].now <= es[k].now
    ensures es[i].Failure? && es[j].Failure? && es[j].now - es[i].now >= REPEAT_SECS
  {
    assert WarnedIn(es, 0, j);
    var k := LatestWarning(es, j);
    assert i <= k;
    LastSpokeIsLastWarning(es, j);
    assert es[k].now <= es[j].now && es[i].now <= es[k].now;
  }
}
