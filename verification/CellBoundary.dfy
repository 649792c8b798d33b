/** Quotas of one cell: lifetime budgets, a sliding-window rate limit, and the latch that exhaustion sets. */
module CellBoundaries {
  import opened Options

  const IO_WINDOW_SECONDS: real := 60.0

  datatype CellQuota = CellQuota(
    cpuSeconds: Option<real>, memoryMb: Option<real>, llmTokenBudget: Option<nat>, ioCallsPerMinute: Option<nat>)

  predicate ValidQuota(q: CellQuota)
  {
    && (q.cpuSeconds.Some? ==> q.cpuSeconds.value >= 0.0) && (q.memoryMb.Some? ==> q.memoryMb.value >= 0.0)
  }

  datatype Quota = CpuSeconds | MemoryMb | LlmTokens | IoCalls

  datatype Outcome = Accepted | ValueError | Exhausted(quota: Quota) | AlreadyApoptosed

  function Recent(times: seq<real>, cutoff: real): seq<real>
  {
    if times == [] then [] else
      Recent(times[..|times| - 1], cutoff) + (if times[|times| - 1] >= cutoff then [times[|times| - 1]] else [])
  }

  ghost predicate Chronological(times: seq<real>)
  {
    forall i, j :: 0 <= i < j < |times| ==> times[i] <= times[j]
  }

  /** `kept` is what remains of `accepted` when some calls older than the window have been dropped. */
  ghost predicate IsRecentPart(kept: seq<real>, accepted: seq<real>, now: real)
  {
    |kept| <= |accepted| && kept == accepted[|accepted| - |kept|..] &&
    forall i :: 0 <= i < |accepted| - |kept| ==> accepted[i] < now - IO_WINDOW_SECONDS
  }

  /** The call `cap` places after call `i` came more than a window later. */
  ghost predicate Far(accepted: seq<real>, cap: nat, i: nat)
    requires i + cap < |accepted|
  {
    accepted[i + cap] > accepted[i] + IO_WINDOW_SECONDS
  }

  /** Of any `cap + 1` consecutive accepted calls the last comes more than a window after the first. */
  ghost predicate Spaced(accepted: seq<real>, cap: nat)
  {
    forall i :: 0 <= i < |accepted| - cap ==> Far(accepted, cap, i)
  }

  lemma AllOld(times: seq<real>, cutoff: real)
    requires forall i :: 0 <= i < |times| ==> times[i] < cutoff
    ensures Recent(times, cutoff) == []
  {
  }

  lemma {:induction false} RecentOfSorted(times: seq<real>, cutoff: real) returns (dropped: nat)
    requires Chronological(times)
    ensures dropped <= |times| && Recent(times, cutoff) == times[dropped..]
    ensures forall i :: 0 <= i < dropped ==> times[i] < cutoff
    ensures forall i :: dropped <= i < |times| ==> times[i] >= cutoff
  {
    if times == [] {
      dropped := 0;
    } else {
      var n := |times| - 1;
      if times[n] < cutoff {
        AllOld(times, cutoff);
        dropped := n + 1;
      } else {
        var earlier := times[..n];
        dropped := RecentOfSorted(earlier, cutoff);
        assert times == earlier + [times[n]];
      }
    }
  }

  lemma PruneKeepsRecentPart(kept: seq<real>, accepted: seq<real>, before: real, now: real)
    requires Chronological(accepted) && IsRecentPart(kept, accepted, before) && before <= now
    ensures var pruned := Recent(kept, now - IO_WINDOW_SECONDS);
            && IsRecentPart(pruned, accepted, now)
            && forall i :: 0 <= i < |pruned| ==> pruned[i] >= now - IO_WINDOW_SECONDS
  {
    var gone := |accepted| - |kept|;
    var dropped := RecentOfSorted(kept, now - IO_WINDOW_SECONDS);
    forall i | 0 <= i < gone + dropped
      ensures accepted[i] < now - IO_WINDOW_SECONDS
    {
      if i >= gone {
        assert accepted[i] == kept[i - gone];
      }
    }
  }

  lemma AcceptKeepsSpaced(pruned: seq<real>, accepted: seq<real>, cap: nat, now: real)
    requires Spaced(accepted, cap) && IsRecentPart(pruned, accepted, now) && |pruned| + 1 <= cap
    ensures Spaced(accepted + [now], cap)
  {
    var longer := accepted + [now];
    forall i | 0 <= i < |longer| - cap
      ensures Far(longer, cap, i)
    {
      if i + cap < |accepted| {
        assert Far(accepted, cap, i);
      }
    }
  }

  /** What the manager knows of its I/O calls: the kept times, all accepted ones, and the time of the latest call. */
  ghost predicate IsHistory(kept: seq<real>, accepted: seq<real>, clock: real, cap: Option<nat>)
  {
    && Chronological(accepted) && (accepted != [] ==> accepted[|accepted| - 1] <= clock)
    && IsRecentPart(kept, accepted, clock)
    && (cap.Some? ==> Spaced(accepted, cap.value))
  }

  lemma AcceptKeepsHistory(kept: seq<real>, accepted: seq<real>, now: real, cap: Option<nat>)
    requires IsHistory(kept, accepted, now, cap) && (cap.Some? ==> |kept| + 1 <= cap.value)
    ensures IsHistory(kept + [now], accepted + [now], now, cap)
  {
    if cap.Some? {
      AcceptKeepsSpaced(kept, accepted, cap.value, now);
    }
    var n := |accepted|;
    forall i | 0 <= i < n
      ensures accepted[i] <= now
    {
      assert i < n - 1 ==> accepted[i] <= accepted[n - 1];
    }
  }

  /** The calls that fall in the closed interval from `lo` to `hi`. */
  function Within(times: seq<real>, lo: real, hi: real): seq<real>
  {
    if times == [] then [] else
      Within(times[..|times| - 1], lo, hi) + (if lo <= times[|times| - 1] <= hi then [times[|times| - 1]] else [])
  }

  lemma {:induction false} RecentOfSuffix(times: seq<real>, from: nat, cutoff: real)
    requires from <= |times| && forall i :: 0 <= i < from ==> times[i] < cutoff
    ensures Recent(times[from..], cutoff) == Recent(times, cutoff)
    decreases |times|
  {
    if from == |times| {
      AllOld(times, cutoff);
    } else {
      var n := |times| - 1;
      assert times[from..][..n - from] == times[..n][from..];
      RecentOfSuffix(times[..n], from, cutoff);
    }
  }

  lemma {:induction false} RecentIsWithin(times: seq<real>, cutoff: real, now: real)
    requires forall i :: 0 <= i < |times| ==> times[i] <= now
    ensures Recent(times, cutoff) == Within(times, cutoff, now)
  {
    if times != [] {
      RecentIsWithin(times[..|times| - 1], cutoff, now);
    }
  }

  /** Of the kept times exactly the accepted calls of the last minute remain after pruning. */
  lemma PrunedIsLastMinute(kept: seq<real>, accepted: seq<real>, clock: real, now: real, cap: Option<nat>)
    requires IsHistory(kept, accepted, clock, cap) && clock <= now
    ensures Recent(kept, now - IO_WINDOW_SECONDS) == Within(accepted, now - IO_WINDOW_SECONDS, now)
  {
    var n := |accepted|;
    RecentOfSuffix(accepted, n - |kept|, now - IO_WINDOW_SECONDS);
    forall i | 0 <= i < n
      ensures accepted[i] <= now
    {
      assert i < n - 1 ==> accepted[i] <= accepted[n - 1];
    }
    RecentIsWithin(accepted, now - IO_WINDOW_SECONDS, now);
  }

  lemma {:induction false} WithinOfSorted(times: seq<real>, lo: real, hi: real) returns (from: nat, to: nat)
    requires Chronological(times)
    ensures from <= to <= |times| && Within(times, lo, hi) == times[from..to]
    ensures forall i :: from <= i < to ==> lo <= times[i] <= hi
  {
    from, to := 0, 0;
    if times != [] {
      var n := |times| - 1;
      if times[n] <= hi {
        RecentIsWithin(times, lo, hi);
        from := RecentOfSorted(times, lo);
        to := n + 1;
      } else {
        var earlier := times[..n];
        from, to := WithinOfSorted(earlier, lo, hi);
        assert times == earlier + [times[n]];
      }
    }
  }

  /** Every closed window of a minute contains at most `cap` accepted calls. */
  lemma WindowNeverExceedsCap(accepted: seq<real>, cap: nat, lo: real)
    requires Chronological(accepted) && Spaced(accepted, cap)
    ensures |Within(accepted, lo, lo + IO_WINDOW_SECONDS)| <= cap
  {
    var from, to := WithinOfSorted(accepted, lo, lo + IO_WINDOW_SECONDS);
    assert from < |accepted| - cap ==> Far(accepted, cap, from);
  }

  class CellBoundaryManager {
    const quota: CellQuota
    const hasCallback: bool
    var consumedCpu: real
    var consumedMemory: real
    var consumedTokens: int
    var ioCalls: seq<real>
    var isApoptosed: bool
    var reason: Option<string>
    var fired: seq<Quota>           // the calls of the exhaustion callback
    ghost var accepted: seq<real>   // the times of all accepted I/O calls
    ghost var clock: real           // the time of the latest I/O call

    ghost predicate Valid()
      reads this
    {
      && ValidQuota(quota)
      && (quota.cpuSeconds.Some? ==> consumedCpu <= quota.cpuSeconds.value)
      && (quota.memoryMb.Some? ==> consumedMemory <= quota.memoryMb.value)
      && (quota.llmTokenBudget.Some? ==> consumedTokens <= quota.llmTokenBudget.value)
      && IsHistory(ioCalls, accepted, clock, quota.ioCallsPerMinute)
      && |fired| == (if isApoptosed && hasCallback then 1 else 0)
      && (reason.Some? <==> isApoptosed)
    }

    constructor (quota: CellQuota, hasCallback: bool, now: real)
      requires quota.cpuSeconds.Some? ==> quota.cpuSeconds.value >= 0.0
      requires quota.memoryMb.Some? ==> quota.memoryMb.value >= 0.0
      ensures Valid() && this.quota == quota && this.hasCallback == hasCallback
      ensures !isApoptosed && accepted == [] && clock == now
      ensures consumedTokens == 0 && consumedCpu == consumedMemory == 0.0
    {
      this.quota := quota;
      this.hasCallback := hasCallback;
      consumedCpu, consumedMemory, consumedTokens := 0.0, 0.0, 0;
      ioCalls, accepted, clock := [], [], now;
      isApoptosed, reason, fired := false, None, [];
    }

    method TriggerApoptose(which: Quota)
      requires Valid()
      modifies this`isApoptosed, this`reason, this`fired
      ensures Valid() && isApoptosed
      ensures old(isApoptosed) ==> fired == old(fired) && reason == old(reason)
      ensures !old(isApoptosed) ==>
                reason == Some("quota_exhausted") && fired == if hasCallback then old(fired) + [which] else old(fired)
    {
      if isApoptosed {
        return;
      }
      isApoptosed := true;
      reason := Some("quota_exhausted");
      if hasCallback {
        fired := fired + [which];
      }
    }

    method ConsumeTokens(n: int) returns (r: Outcome)
      requires Valid()
      modifies this
      ensures Valid() && accepted == old(accepted) && ioCalls == old(ioCalls) && clock == old(clock)
      ensures consumedCpu == old(consumedCpu) && consumedMemory == old(consumedMemory)
      ensures r == ValueError <==> n < 0
      ensures r == AlreadyApoptosed <==> n >= 0 && old(isApoptosed)
      ensures r == Exhausted(LlmTokens) <==>
              n >= 0 && !old(isApoptosed) && quota.llmTokenBudget.Some?
                && old(consumedTokens) + n > quota.llmTokenBudget.value
      ensures r == Accepted || r == ValueError || r == AlreadyApoptosed || r == Exhausted(LlmTokens)
      ensures consumedTokens == old(consumedTokens) + (if r == Accepted then n else 0)
      ensures isApoptosed == (old(isApoptosed) || r.Exhausted?)
      ensures !r.Exhausted? ==> fired == old(fired) && reason == old(reason)
    {
      if n < 0 {
        return ValueError;
      }
      if isApoptosed {
        return AlreadyApoptosed;
      }
      var total := consumedTokens + n;
      if quota.llmTokenBudget.Some? && total > quota.llmTokenBudget.value {
        TriggerApoptose(LlmTokens);
        return Exhausted(LlmTokens);
      }
      consumedTokens := total;
      r := Accepted;
    }

    method ConsumeCpu(seconds: real) returns (r: Outcome)
      requires Valid()
      modifies this
      ensures Valid() && accepted == old(accepted) && ioCalls == old(ioCalls) && clock == old(clock)
      ensures consumedTokens == old(consumedTokens) && consumedMemory == old(consumedMemory)
      ensures r == ValueError <==> seconds < 0.0
      ensures r == AlreadyApoptosed <==> seconds >= 0.0 && old(isApoptosed)
      ensures r == Exhausted(CpuSeconds) <==>
              seconds >= 0.0 && !old(isApoptosed) && quota.cpuSeconds.Some?
                && old(consumedCpu) + seconds > quota.cpuSeconds.value
      ensures r == Accepted || r == ValueError || r == AlreadyApoptosed || r == Exhausted(CpuSeconds)
      ensures consumedCpu == old(consumedCpu) + (if r == Accepted then seconds else 0.0)
      ensures isApoptosed == (old(isApoptosed) || r.Exhausted?)
      ensures !r.Exhausted? ==> fired == old(fired) && reason == old(reason)
    {
      if seconds < 0.0 {
        return ValueError;
      }
      if isApoptosed {
        return AlreadyApoptosed;
      }
      var total := consumedCpu + seconds;
      if quota.cpuSeconds.Some? && total > quota.cpuSeconds.value {
        TriggerApoptose(CpuSeconds);
        return Exhausted(CpuSeconds);
      }
      consumedCpu := total;
      r := Accepted;
    }

    method ConsumeMemory(mb: real) returns (r: Outcome)
      requires Valid()
      modifies this
      ensures Valid() && accepted == old(accepted) && ioCalls == old(ioCalls) && clock == old(clock)
      ensures consumedTokens == old(consumedTokens) && consumedCpu == old(consumedCpu)
      ensures r == ValueError <==> mb < 0.0
      ensures r == AlreadyApoptosed <==> mb >= 0.0 && old(isApoptosed)
      ensures r == Exhausted(MemoryMb) <==>
              mb >= 0.0 && !old(isApoptosed) && quota.memoryMb.Some? && old(consumedMemory) + mb > quota.memoryMb.value
      ensures r == Accepted || r == ValueError || r == AlreadyApoptosed || r == Exhausted(MemoryMb)
      ensures consumedMemory == old(consumedMemory) + (if r == Accepted then mb else 0.0)
      ensures isApoptosed == (old(isApoptosed) || r.Exhausted?)
      ensures !r.Exhausted? ==> fired == old(fired) && reason == old(reason)
    {
      if mb < 0.0 {
        return ValueError;
      }
      if isApoptosed {
        return AlreadyApoptosed;
      }
      var total := consumedMemory + mb;
      if quota.memoryMb.Some? && total > quota.memoryMb.value {
        TriggerApoptose(MemoryMb);
        return Exhausted(MemoryMb);
      }
      consumedMemory := total;
      r := Accepted;
    }

    predicate RateExceeded(calls: seq<real>, now: real)
    {
      quota.ioCallsPerMinute.Some? && |Recent(calls, now - IO_WINDOW_SECONDS)| + 1 > quota.ioCallsPerMinute.value
    }

    method PruneWindow(now: real)
      requires Valid() && clock <= now
      modifies this`ioCalls, this`clock
      ensures Valid() && clock == now
      ensures ioCalls == Recent(old(ioCalls), now - IO_WINDOW_SECONDS)
    {
      PruneKeepsRecentPart(ioCalls, accepted, clock, now);
      clock := now;
      ioCalls := Recent(ioCalls, now - IO_WINDOW_SECONDS);
    }

    method AcceptCall(now: real)
      requires Valid() && clock == now
      requires quota.ioCallsPerMinute.Some? ==> |ioCalls| + 1 <= quota.ioCallsPerMinute.value
      modifies this`ioCalls, this`accepted
      ensures Valid() && ioCalls == old(ioCalls) + [now] && accepted == old(accepted) + [now]
    {
      AcceptKeepsHistory(ioCalls, accepted, now, quota.ioCallsPerMinute);
      ioCalls := ioCalls + [now];
      accepted := accepted + [now];
    }

    /**
     * A call is accepted exactly if, with it, the accepted calls of the last minute stay within the cap. An
     * exhausting call still prunes the window.
     */
    method RecordIoCall(now: real) returns (r: Outcome)
      requires Valid() && clock <= now
      modifies this`ioCalls, this`accepted, this`clock, this`isApoptosed, this`reason, this`fired
      ensures Valid()
      ensures r == AlreadyApoptosed <==> old(isApoptosed)
      ensures old(isApoptosed) ==> unchanged(this)
      ensures !old(isApoptosed) ==> r == if RateExceeded(old(ioCalls), now) then Exhausted(IoCalls) else Accepted
      ensures !old(isApoptosed) ==>
                ioCalls == Recent(old(ioCalls), now - IO_WINDOW_SECONDS) + (if r.Accepted? then [now] else [])
      ensures !old(isApoptosed) ==> accepted == old(accepted) + (if r.Accepted? then [now] else []) && clock == now
      ensures isApoptosed == !r.Accepted?
      ensures !old(isApoptosed) ==>
                (r.Accepted? <==>
                 quota.ioCallsPerMinute.Some? ==>
                   |Within(old(accepted), now - 60.0, now)| < quota.ioCallsPerMinute.value)
    {
      if isApoptosed {
        return AlreadyApoptosed;
      }
      PrunedIsLastMinute(ioCalls, accepted, clock, now, quota.ioCallsPerMinute);
      PruneWindow(now);
      if quota.ioCallsPerMinute.Some? && |ioCalls| + 1 > quota.ioCallsPerMinute.value {
        assert RateExceeded(old(ioCalls), now);
        TriggerApoptose(IoCalls);
        return Exhausted(IoCalls);
      }
      AcceptCall(now);
      r := Accepted;
    }
  }

  /** In every state that a manager reaches, every closed minute holds at most the permitted number of calls. */
  lemma RateLimitHolds(m: CellBoundaryManager, lo: real)
    requires m.Valid() && m.quota.ioCallsPerMinute.Some?
    ensures |Within(m.accepted, lo, lo + 60.0)| <= m.quota.ioCallsPerMinute.value
  {
    WindowNeverExceedsCap(m.accepted, m.quota.ioCallsPerMinute.value, lo);
  }
}
