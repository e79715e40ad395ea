/** packages/runtime/src/resilience/circuit-breaker.ts: the breaker object, with the clock passed in. */
module CircuitBreakers {
  import opened Basics
  import opened BreakerSpec
  import opened Rings
  import opened RollingWindows

  datatype Reply = Run | Rejected(retryAfterMs: int)

  datatype Report = Report(mode: Mode, failureRate: real, total: int, failures: int, openedAt: Option<int>, retryAfterMs: int)

  class CircuitBreaker {
    const window: RollingOutcomeWindow
    const failureThreshold: real
    const volumeThreshold: int
    const resetTimeoutMs: int
    const successesToClose: int
    const halfOpenMaxCalls: int
    var mode: Mode
    var openedAt: Option<int>
    var halfOpenSuccesses: int
    var halfOpenInFlight: int
    /** The latest time read from the clock. */
    ghost var clock: int

    ghost predicate Valid()
      reads this, window, window.successes, window.failures
    {
      && window.Valid() && clock >= 0
      && window.lastBucketIndex <= clock / window.bucketMs
    }

    ghost function SettingsOf(): Settings {
      Settings(failureThreshold, volumeThreshold, window.bucketMs, window.successes.Length,
               resetTimeoutMs, successesToClose, halfOpenMaxCalls)
    }

    ghost function State(): Breaker
      reads this, window
    {
      Breaker(mode, openedAt, halfOpenSuccesses, halfOpenInFlight, window.log)
    }

    constructor (windowMs: int, failureThreshold: real, volumeThreshold: int, resetTimeoutMs: int,
                 successesToClose: int, halfOpenMaxCalls: int)
      ensures Valid() && State() == FRESH && clock == 0
      ensures fresh(window) && fresh(window.successes) && fresh(window.failures)
      ensures SettingsOf() == Settings(failureThreshold, volumeThreshold, if windowMs / 10 >= 1 then windowMs / 10 else 1, 10,
                                       resetTimeoutMs, successesToClose, halfOpenMaxCalls)
    {
      this.failureThreshold, this.volumeThreshold := failureThreshold, volumeThreshold;
      this.resetTimeoutMs, this.successesToClose, this.halfOpenMaxCalls := resetTimeoutMs, successesToClose, halfOpenMaxCalls;
      window := new RollingOutcomeWindow(windowMs, 10);
      mode, openedAt, halfOpenSuccesses, halfOpenInFlight, clock := Closed, None, 0, 0, 0;
    }

    method GetState(now: int) returns (m: Mode)
      requires Valid() && now >= clock
      modifies this
      ensures Valid() && clock == now
      ensures State() == MaybeHalfOpen(SettingsOf(), old(State()), now) && m == State().mode
    {
      TurnHalfOpen(now);
      m := mode;
    }

    /** The part of execute up to the call of the operation. */
    method BeginCall(now: int) returns (reply: Reply)
      requires Valid() && now >= clock
      modifies this
      ensures Valid() && clock == now
      ensures State() == Begin(SettingsOf(), old(State()), now).0
      ensures reply.Run? <==> Begin(SettingsOf(), old(State()), now).1
      ensures reply.Rejected? ==> reply.retryAfterMs == RetryAfter(SettingsOf(), State(), now)
    {
      TurnHalfOpen(now);
      if mode == Open {
        var wait := RetryAfterMs(now);
        return Rejected(wait);
      }
      if mode == HalfOpen {
        if halfOpenInFlight >= halfOpenMaxCalls {
          var wait := RetryAfterMs(now);
          return Rejected(wait);
        }
        halfOpenInFlight := halfOpenInFlight + 1;
      }
      return Run;
    }

    /** The part of execute after the operation has ended. */
    method EndCall(failed: bool, now: int)
      requires Valid() && now >= clock
      modifies this, window, window.successes, window.failures
      ensures Valid() && clock == now
      ensures State() == End(SettingsOf(), old(State()), failed, now)
      // A closed circuit opens exactly on a failure that brings the outcomes in the latest buckets to the volume
      // threshold and the failures among them to their share.
      ensures var log, k, n := old(window.log) + [Outcome(now / window.bucketMs, !failed)], now / window.bucketMs, window.successes.Length;
              old(mode) == Closed ==>
                (mode == Open <==> && failed && |Recent(log, k, n)| >= volumeThreshold
                                   && |RecentFailures(log, k, n)| as real >= failureThreshold * |Recent(log, k, n)| as real)
      ensures old(mode) == HalfOpen ==> (mode == Open <==> failed)
    {
      ghost var log := window.log + [Outcome(now / window.bucketMs, !failed)];
      assert |window.log| in Recent(log, now / window.bucketMs, window.successes.Length);
      OverThresholdMeans(SettingsOf(), log, now);
      if failed { NoteFailure(now); } else { NoteSuccess(now); }
      if mode == HalfOpen && halfOpenInFlight > 0 {
        halfOpenInFlight := halfOpenInFlight - 1;
      }
    }

    method NoteSuccess(now: int)
      requires Valid() && now >= clock
      modifies this, window, window.successes, window.failures
      ensures Valid() && clock == now
      ensures State() == RecordSuccess(SettingsOf(), old(State()), now)
    {
      clock := now;
      Later(window.lastBucketIndex, old(clock), now, window.bucketMs);
      window.Record(true, now);
      if mode == HalfOpen {
        halfOpenSuccesses := halfOpenSuccesses + 1;
        if halfOpenSuccesses >= successesToClose { Close(); }
      }
    }

    method NoteFailure(now: int)
      requires Valid() && now >= clock
      modifies this, window, window.successes, window.failures
      ensures Valid() && clock == now
      ensures State() == RecordFailure(SettingsOf(), old(State()), now)
    {
      clock := now;
      Later(window.lastBucketIndex, old(clock), now, window.bucketMs);
      window.Record(false, now);
      if mode == HalfOpen {
        Trip(now);
        return;
      }
      if mode == Closed {
        var r := window.TakeSnapshot(now);
        if r.total >= volumeThreshold && r.failureRate >= failureThreshold { Trip(now); }
      }
    }

    method TakeReport(now: int) returns (r: Report)
      requires Valid() && now >= clock
      modifies this, window, window.successes, window.failures
      ensures Valid() && clock == now
      ensures State() == MaybeHalfOpen(SettingsOf(), old(State()), now)
      ensures var counts := SnapshotOf(window.log, now / window.bucketMs, window.successes.Length);
              r == Report(mode, counts.failureRate, counts.total, counts.failures, openedAt, RetryAfter(SettingsOf(), State(), now))
    {
      Later(window.lastBucketIndex, clock, now, window.bucketMs);
      clock := now;
      var counts := window.TakeSnapshot(now);
      var m := GetState(now);
      var wait := RetryAfterMs(now);
      r := Report(m, counts.failureRate, counts.total, counts.failures, openedAt, wait);
    }

    method Reset()
      requires Valid()
      modifies this, window, window.successes, window.failures
      ensures Valid() && State() == FRESH && clock == old(clock)
    {
      mode, openedAt, halfOpenSuccesses, halfOpenInFlight := Closed, None, 0, 0;
      window.Reset();
    }

    method Trip(now: int)
      requires Valid() && now == clock
      modifies this, window, window.successes, window.failures
      ensures Valid() && clock == now && State() == Tripped(old(State()), now)
    {
      if mode == Open { return; }
      mode, openedAt, halfOpenSuccesses, halfOpenInFlight := Open, Some(now), 0, 0;
      var _ := window.TakeSnapshot(now);
    }

    method Close()
      requires Valid()
      modifies this, window, window.successes, window.failures
      ensures Valid() && clock == old(clock)
      ensures State() == old(State()).(mode := Closed, openedAt := None, successes := 0, log := [])
    {
      mode, openedAt, halfOpenSuccesses := Closed, None, 0;
      window.Reset();
    }

    method TurnHalfOpen(now: int)
      requires Valid() && now >= clock
      modifies this
      ensures Valid() && clock == now
      ensures State() == MaybeHalfOpen(SettingsOf(), old(State()), now)
    {
      Later(window.lastBucketIndex, clock, now, window.bucketMs);
      clock := now;
      if mode != Open || openedAt.None? { return; }
      if now - openedAt.value >= resetTimeoutMs {
        mode, halfOpenSuccesses, halfOpenInFlight := HalfOpen, 0, 0;
      }
    }

    method RetryAfterMs(now: int) returns (wait: int)
      ensures wait == RetryAfter(SettingsOf(), State(), now)
    {
      if mode != Open || openedAt.None? { return 0; }
      wait := resetTimeoutMs - (now - openedAt.value);
      if wait < 0 { wait := 0; }
    }
  }

  /** Bucket indices do not go back when the clock does not. */
  lemma Later(index: int, before: int, now: int, size: int)
    requires size > 0 && 0 <= before <= now && index <= before / size
    ensures index <= now / size
  {
    IndexGrows(before, now, size);
  }
}
