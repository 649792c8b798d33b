/** The mkdir mutex of the workflow engine, with its take-over of stale locks, used by many processes. */
module WorkflowMutex {
  import opened Options
  import opened StableSorting
  import opened DurableWorkflows

  /** Where a process stands in `transition`. */
  datatype Phase =
    | Outside
    | Blocked                             // mkdir found the lock directory
    | Vanished                            // stat did not find it any more
    | Claiming                            // stat found it older than the limit
    | Holding(since: real)
    | Informed(since: real, next: int)    // has read the end of the log
    | Appended(since: real)

  datatype System = System(now: real, lockDir: Option<real>, phases: map<int, Phase>, log: seq<Event>)

  /** One file operation, or the passing of time. A process that takes no more steps has crashed. */
  datatype Step =
    | Wait(duration: real)
    | Mkdir(p: int)
    | Stat(p: int)
    | Retry(p: int)
    | TakeOver(p: int)
    | ReadTail(p: int)
    | AppendEvent(p: int, eventId: string, eventType: EventType, payload: map<string, Value>)
    | Release(p: int)

  function PhaseOf(s: System, p: int): Phase
  {
    if p in s.phases then s.phases[p] else Outside
  }

  predicate InCritical(phase: Phase)
  {
    phase.Holding? || phase.Informed? || phase.Appended?
  }

  predicate Enabled(s: System, step: Step)
  {
    match step
    case Wait(duration) => duration >= 0.0
    case Mkdir(p) => PhaseOf(s, p).Outside?
    case Stat(p) => PhaseOf(s, p).Blocked?
    case Retry(p) => PhaseOf(s, p).Vanished?
    case TakeOver(p) => PhaseOf(s, p).Claiming?
    case ReadTail(p) => PhaseOf(s, p).Holding?
    case AppendEvent(p, _, _, _) => PhaseOf(s, p).Informed?
    case Release(p) => InCritical(PhaseOf(s, p))
  }

  function Locked(s: System, p: int): System
  {
    s.(lockDir := Some(s.now), phases := s.phases[p := Holding(s.now)])
  }

  function Moved(s: System, p: int, phase: Phase): System
  {
    s.(phases := s.phases[p := phase])
  }

  /** A lost race raises an exception, which puts the process back outside. */
  function After(s: System, step: Step, staleAfter: real): System
    requires Enabled(s, step)
  {
    match step
    case Wait(duration) => s.(now := s.now + duration)
    case Mkdir(p) => if s.lockDir.None? then Locked(s, p) else Moved(s, p, Blocked)
    case Stat(p) =>
      if s.lockDir.None? then Moved(s, p, Vanished)
      else if s.now - s.lockDir.value > staleAfter then Moved(s, p, Claiming)
      else Moved(s, p, Outside)
    case Retry(p) => if s.lockDir.None? then Locked(s, p) else Moved(s, p, Outside)
    case TakeOver(p) => if s.lockDir.Some? then Locked(s, p) else Moved(s, p, Outside)
    case ReadTail(p) => Moved(s, p, Informed(PhaseOf(s, p).since, NextSequence(s.log)))
    case AppendEvent(p, eventId, eventType, payload) =>
      var phase := PhaseOf(s, p);
      Moved(s.(log := s.log + [Event(eventId, eventType, s.now, phase.next, payload)]), p, Appended(phase.since))
    case Release(p) => Moved(s.(lockDir := None), p, Outside)
  }

  /** What each step on the lock directory does, whoever takes it and whenever. */
  lemma LockStepsMean(s: System, staleAfter: real, p: int, duration: real)
    ensures duration >= 0.0 ==>
              Enabled(s, Wait(duration)) && After(s, Wait(duration), staleAfter) == s.(now := s.now + duration)
    ensures PhaseOf(s, p) == Outside ==>
              var t := After(s, Mkdir(p), staleAfter);
              && t.lockDir == Some(if s.lockDir == None then s.now else s.lockDir.value)
              && PhaseOf(t, p) == if s.lockDir == None then Holding(s.now) else Blocked
    ensures PhaseOf(s, p) == Blocked ==>
              var t := After(s, Stat(p), staleAfter);
              && t.lockDir == s.lockDir
              && (PhaseOf(t, p) == Vanished <==> s.lockDir == None)
              && (PhaseOf(t, p) == Claiming <==> s.lockDir.Some? && s.now > s.lockDir.value + staleAfter)
              && (PhaseOf(t, p) == Outside <==> s.lockDir.Some? && s.now <= s.lockDir.value + staleAfter)
    ensures PhaseOf(s, p) == Vanished ==>
              var t := After(s, Retry(p), staleAfter);
              && t.lockDir == Some(if s.lockDir == None then s.now else s.lockDir.value)
              && PhaseOf(t, p) == if s.lockDir == None then Holding(s.now) else Outside
    ensures PhaseOf(s, p) == Claiming ==>
              var t := After(s, TakeOver(p), staleAfter);
              && t.lockDir == (if s.lockDir == None then None else Some(s.now))
              && PhaseOf(t, p) == if s.lockDir == None then Outside else Holding(s.now)
    ensures InCritical(PhaseOf(s, p)) ==>
              var t := After(s, Release(p), staleAfter);
              t.lockDir == None && PhaseOf(t, p) == Outside && t.log == s.log
  {
  }

  ghost predicate IsRun(systems: seq<System>, steps: seq<Step>, staleAfter: real)
  {
    && |systems| == |steps| + 1
    && IsStart(systems[0])
    && forall i :: 0 <= i < |steps| ==> StepAt(systems, steps, staleAfter, i)
  }

  ghost predicate StepAt(systems: seq<System>, steps: seq<Step>, staleAfter: real, i: nat)
    requires i < |steps| < |systems|
  {
    Enabled(systems[i], steps[i]) && systems[i + 1] == After(systems[i], steps[i], staleAfter)
  }

  ghost predicate IsStart(s: System)
  {
    && s.lockDir == None && (forall p :: p in s.phases ==> s.phases[p].Outside?)
    && |s.log| == 1 && s.log[0].sequence == 1 && s.log[0].eventType == WorkflowStarted
  }

  /** Nobody has held the lock for longer than the limit. */
  ghost predicate Prompt(s: System, staleAfter: real)
  {
    forall p :: p in s.phases && InCritical(s.phases[p]) ==> s.now - s.phases[p].since <= staleAfter
  }

  ghost predicate AtMostOneInside(s: System)
  {
    forall p, q :: p in s.phases && q in s.phases && InCritical(s.phases[p]) && InCritical(s.phases[q]) ==> p == q
  }

  /**
   * The lock directory is there exactly while one process is inside, and carries the time at which that one
   * entered.
   */
  ghost predicate Exclusive(s: System)
  {
    && s.log != [] && Numbered(s.log)
    && AtMostOneInside(s)
    && (s.lockDir.None? ==> forall p :: p in s.phases ==> !InCritical(s.phases[p]))
    && (s.lockDir.Some? ==> exists p :: IsHolder(s, p))
    && (forall p :: p in s.phases && s.phases[p].Informed? ==> s.phases[p].next == |s.log| + 1)
  }

  ghost predicate IsHolder(s: System, p: int)
  {
    p in s.phases && InCritical(s.phases[p]) && s.lockDir == Some(s.phases[p].since)
  }

  /** The step takes over a lock directory that is still there. */
  predicate TakesOver(s: System, step: Step)
  {
    step.TakeOver? && s.lockDir.Some?
  }

  lemma {:induction false} NumberedWithKey(log: seq<Event>, offset: int, s: int)
    requires forall i :: 0 <= i < |log| ==> log[i].sequence == i + 1 + offset
    requires 1 <= s - offset <= |log|
    ensures WithKey(log, SequenceOf, s) == [log[s - offset - 1]]
  {
    if s == offset + 1 {
      NoLaterKey(log[1..], s);
    } else {
      NumberedWithKey(log[1..], offset + 1, s);
    }
  }

  lemma NoLaterKey(log: seq<Event>, s: int)
    requires forall i :: 0 <= i < |log| ==> log[i].sequence != s
    ensures WithKey(log, SequenceOf, s) == []
  {
    if WithKey(log, SequenceOf, s) != [] {
      assert WithKey(log, SequenceOf, s)[0] in WithKey(log, SequenceOf, s);
    }
  }

  /** In a log numbered 1, 2, 3, ... in file order, recovery folds every event. */
  lemma NumberedLogLosesNothing(log: seq<Event>)
    requires Numbered(log)
    ensures Contiguous(log, |log|) && Firsts(log, |log|) == log
  {
    forall s | 1 <= s <= |log|
      ensures WithKey(log, SequenceOf, s) == [log[s - 1]]
    {
      NumberedWithKey(log, 0, s);
    }
  }

  lemma NumberedNext(log: seq<Event>)
    requires Numbered(log) && log != []
    ensures NextSequence(log) == |log| + 1
  {
    var events := ReadEvents(log);
    SortOrders(log, SequenceOf);
    var last := log[|log| - 1];
    assert last in multiset(log);
    assert last in multiset(events);
    var i :| 0 <= i < |events| && events[i] == last;
    var top := events[|events| - 1];
    assert SequenceOf(events[i]) <= SequenceOf(top);
    assert top in multiset(events);
    assert top in log;
  }

  lemma MoveKeepsExclusive(s: System, p: int, phase: Phase)
    requires Exclusive(s) && !InCritical(PhaseOf(s, p)) && !InCritical(phase)
    ensures Exclusive(Moved(s, p, phase))
  {
    if s.lockDir.Some? {
      var q :| IsHolder(s, q);
      assert IsHolder(Moved(s, p, phase), q);
    }
  }

  lemma EnteringKeepsExclusive(s: System, p: int, otherwise: Phase)
    requires Exclusive(s) && !InCritical(PhaseOf(s, p)) && !InCritical(otherwise)
    ensures Exclusive(if s.lockDir.None? then Locked(s, p) else Moved(s, p, otherwise))
  {
    if s.lockDir.None? {
      assert IsHolder(Locked(s, p), p);
    } else {
      MoveKeepsExclusive(s, p, otherwise);
    }
  }

  lemma InsideStepKeepsExclusive(s: System, step: Step, staleAfter: real)
    requires Exclusive(s) && Enabled(s, step) && (step.ReadTail? || step.AppendEvent? || step.Release?)
    ensures Exclusive(After(s, step, staleAfter))
  {
    var t := After(s, step, staleAfter);
    NumberedNext(s.log);
    assert s.lockDir.Some?;
    var q :| IsHolder(s, q);
    assert q == step.p;
    assert step.Release? || IsHolder(t, q);
  }

  /** A take-over of a directory that is still there puts a second process inside. */
  lemma TakeOverBreaksExclusion(s: System, step: Step, staleAfter: real)
    requires Exclusive(s) && Enabled(s, step) && TakesOver(s, step)
    ensures !AtMostOneInside(After(s, step, staleAfter))
  {
    var t := After(s, step, staleAfter);
    var q :| IsHolder(s, q);
    assert q != step.p;
    assert q in t.phases && step.p in t.phases && InCritical(t.phases[q]) && InCritical(t.phases[step.p]);
  }

  /** A step keeps the processes apart exactly if it is not such a take-over. */
  lemma StepKeepsExclusiveIff(s: System, step: Step, staleAfter: real)
    requires Exclusive(s) && Enabled(s, step)
    ensures Exclusive(After(s, step, staleAfter)) <==> !TakesOver(s, step)
    ensures AtMostOneInside(After(s, step, staleAfter)) <==> !TakesOver(s, step)
  {
    match step
    case Wait(_) =>
      assert s.lockDir.Some? ==> exists p :: IsHolder(s, p) && IsHolder(After(s, step, staleAfter), p);
    case Mkdir(p) => EnteringKeepsExclusive(s, p, Blocked);
    case Stat(p) =>
      MoveKeepsExclusive(s, p, Vanished);
      MoveKeepsExclusive(s, p, Claiming);
      MoveKeepsExclusive(s, p, Outside);
    case Retry(p) => EnteringKeepsExclusive(s, p, Outside);
    case TakeOver(p) =>
      if s.lockDir.Some? {
        TakeOverBreaksExclusion(s, step, staleAfter);
      } else {
        MoveKeepsExclusive(s, p, Outside);
      }
    case _ => InsideStepKeepsExclusive(s, step, staleAfter);
  }

  lemma {:induction false} UntakenRunIsExclusive(systems: seq<System>, steps: seq<Step>, staleAfter: real, i: nat)
    requires IsRun(systems, steps, staleAfter) && i <= |steps|
    requires forall j :: 0 <= j < i ==> !TakesOver(systems[j], steps[j])
    ensures Exclusive(systems[i])
  {
    if i > 0 {
      UntakenRunIsExclusive(systems, steps, staleAfter, i - 1);
      assert StepAt(systems, steps, staleAfter, i - 1);
      StepKeepsExclusiveIff(systems[i - 1], steps[i - 1], staleAfter);
    }
  }

  ghost predicate NeverTakesOver(systems: seq<System>, steps: seq<Step>)
    requires |systems| == |steps| + 1
  {
    forall i :: 0 <= i < |steps| ==> !TakesOver(systems[i], steps[i])
  }

  /** The earliest take-over among the first `n` steps. */
  lemma {:induction false} FirstTakeOver(systems: seq<System>, steps: seq<Step>, n: nat) returns (first: nat)
    requires |systems| == |steps| + 1 && n <= |steps|
    requires exists j :: 0 <= j < n && TakesOver(systems[j], steps[j])
    ensures first < n && TakesOver(systems[first], steps[first])
    ensures forall j :: 0 <= j < first ==> !TakesOver(systems[j], steps[j])
  {
    if exists j :: 0 <= j < n - 1 && TakesOver(systems[j], steps[j]) {
      first := FirstTakeOver(systems, steps, n - 1);
    } else {
      first := n - 1;
    }
  }

  /**
   * The mutex keeps the processes apart in exactly the runs in which no lock directory is ever taken over: then at
   * most one process is inside in every state and the file is numbered 1, 2, 3, ... in its own order; otherwise
   * two are inside at some moment.
   */
  lemma ExclusionIffNoTakeOver(systems: seq<System>, steps: seq<Step>, staleAfter: real)
    requires IsRun(systems, steps, staleAfter)
    ensures (forall i :: 0 <= i <= |steps| ==> AtMostOneInside(systems[i])) <==> NeverTakesOver(systems, steps)
    ensures NeverTakesOver(systems, steps) ==> forall i :: 0 <= i <= |steps| ==> Numbered(systems[i].log)
  {
    if NeverTakesOver(systems, steps) {
      forall i | 0 <= i <= |steps|
        ensures AtMostOneInside(systems[i]) && Numbered(systems[i].log)
      {
        UntakenRunIsExclusive(systems, steps, staleAfter, i);
      }
    } else {
      var first := FirstTakeOver(systems, steps, |steps|);
      UntakenRunIsExclusive(systems, steps, staleAfter, first);
      assert StepAt(systems, steps, staleAfter, first);
      StepKeepsExclusiveIff(systems[first], steps[first], staleAfter);
      assert !AtMostOneInside(systems[first + 1]);
    }
  }

  /** While processes are apart, the holder is late exactly when the directory is older than the limit. */
  lemma LateIffStale(s: System, staleAfter: real)
    requires Exclusive(s)
    ensures !Prompt(s, staleAfter) <==> s.lockDir.Some? && s.now - s.lockDir.value > staleAfter
  {
    if s.lockDir.Some? {
      var q :| IsHolder(s, q);
    }
  }

  /** By its next three steps the process outside gets in beside the holder. */
  ghost predicate CanBreakIn(s: System, staleAfter: real, p: int)
    requires PhaseOf(s, p).Outside?
  {
    var blocked := After(s, Mkdir(p), staleAfter);
    && Enabled(blocked, Stat(p))
    && var claiming := After(blocked, Stat(p), staleAfter);
       && Enabled(claiming, TakeOver(p))
       && !AtMostOneInside(After(claiming, TakeOver(p), staleAfter))
  }

  /** Promptness is the exact boundary: while processes are apart, an outsider can break in iff the holder is late. */
  lemma OutsiderBreaksInIffLate(s: System, staleAfter: real, p: int)
    requires Exclusive(s) && PhaseOf(s, p).Outside?
    ensures CanBreakIn(s, staleAfter, p) <==> !Prompt(s, staleAfter)
  {
    LateIffStale(s, staleAfter);
    var blocked := After(s, Mkdir(p), staleAfter);
    StepKeepsExclusiveIff(s, Mkdir(p), staleAfter);
    if !Prompt(s, staleAfter) {
      StepKeepsExclusiveIff(blocked, Stat(p), staleAfter);
      TakeOverBreaksExclusion(After(blocked, Stat(p), staleAfter), TakeOver(p), staleAfter);
    }
  }

  ghost predicate NobodyClaims(s: System)
  {
    forall p :: p in s.phases ==> !s.phases[p].Claiming?
  }

  lemma StepKeepsNobodyClaiming(s: System, step: Step, staleAfter: real)
    requires Exclusive(s) && NobodyClaims(s) && Prompt(s, staleAfter) && Enabled(s, step)
    ensures !step.TakeOver? && NobodyClaims(After(s, step, staleAfter))
  {
    LateIffStale(s, staleAfter);
  }

  lemma {:induction false} PromptRunIsOrderly(systems: seq<System>, steps: seq<Step>, staleAfter: real, i: nat)
    requires IsRun(systems, steps, staleAfter) && i <= |steps|
    requires forall j :: 0 <= j <= |steps| ==> Prompt(systems[j], staleAfter)
    ensures Exclusive(systems[i]) && NobodyClaims(systems[i])
  {
    if i > 0 {
      PromptRunIsOrderly(systems, steps, staleAfter, i - 1);
      assert StepAt(systems, steps, staleAfter, i - 1);
      StepKeepsNobodyClaiming(systems[i - 1], steps[i - 1], staleAfter);
      StepKeepsExclusiveIff(systems[i - 1], steps[i - 1], staleAfter);
    }
  }

  /**
   * If every holder releases within the staleness limit, no lock is ever taken over, at most one process is
   * between acquire and release, the file is numbered 1, 2, 3, ... in its own order, and recovery folds every
   * event that was appended.
   */
  lemma PromptHoldersExcludeEachOther(systems: seq<System>, steps: seq<Step>, staleAfter: real, i: nat, p: int, q: int)
    requires IsRun(systems, steps, staleAfter) && i <= |steps|
    requires forall j :: 0 <= j <= |steps| ==> Prompt(systems[j], staleAfter)
    ensures InCritical(PhaseOf(systems[i], p)) && InCritical(PhaseOf(systems[i], q)) ==> p == q
    ensures i < |steps| ==> !steps[i].TakeOver?
    ensures Numbered(systems[i].log)
    ensures Contiguous(systems[i].log, |systems[i].log|) && Firsts(systems[i].log, |systems[i].log|) == systems[i].log
  {
    PromptRunIsOrderly(systems, steps, staleAfter, i);
    if i < |steps| {
      assert StepAt(systems, steps, staleAfter, i);
      StepKeepsNobodyClaiming(systems[i], steps[i], staleAfter);
    }
    NumberedLogLosesNothing(systems[i].log);
  }

  /** Three processes: process 0 crashes while it holds the lock, 1 and 2 contend for it. */
  function Three(now: real, lockDir: Option<real>, a: Phase, b: Phase, c: Phase, log: seq<Event>): System
  {
    System(now, lockDir, map[0 := a, 1 := b, 2 := c], log)
  }

  function CrashSteps(staleAfter: real): seq<Step>
  {
    [Mkdir(0), Wait(staleAfter + 1.0), Mkdir(1), Mkdir(2), Stat(1), Stat(2), TakeOver(1), TakeOver(2),
     ReadTail(1), ReadTail(2),
     AppendEvent(1, "first", StateTransition, map[]), AppendEvent(2, "second", StateTransition, map[])]
  }

  function CrashState(staleAfter: real, start: Event, i: nat): System
    requires i <= 12
  {
    var t := staleAfter + 1.0;
    var held := Holding(0.0);
    var e1 := Event("first", StateTransition, t, 2, map[]);
    var e2 := Event("second", StateTransition, t, 2, map[]);
    if i == 0 then Three(0.0, None, Outside, Outside, Outside, [start])
    else if i == 1 then Three(0.0, Some(0.0), held, Outside, Outside, [start])
    else if i == 2 then Three(t, Some(0.0), held, Outside, Outside, [start])
    else if i == 3 then Three(t, Some(0.0), held, Blocked, Outside, [start])
    else if i == 4 then Three(t, Some(0.0), held, Blocked, Blocked, [start])
    else if i == 5 then Three(t, Some(0.0), held, Claiming, Blocked, [start])
    else if i == 6 then Three(t, Some(0.0), held, Claiming, Claiming, [start])
    else if i == 7 then Three(t, Some(t), held, Holding(t), Claiming, [start])
    else if i == 8 then Three(t, Some(t), held, Holding(t), Holding(t), [start])
    else if i == 9 then Three(t, Some(t), held, Informed(t, 2), Holding(t), [start])
    else if i == 10 then Three(t, Some(t), held, Informed(t, 2), Informed(t, 2), [start])
    else if i == 11 then Three(t, Some(t), held, Appended(t), Informed(t, 2), [start, e1])
    else Three(t, Some(t), held, Appended(t), Appended(t), [start, e1, e2])
  }

  lemma CrashStepHappens(staleAfter: real, start: Event, i: nat)
    requires staleAfter >= 0.0 && start.sequence == 1 && i < 12
    ensures var s := CrashState(staleAfter, start, i);
            var step := CrashSteps(staleAfter)[i];
            Enabled(s, step) && CrashState(staleAfter, start, i + 1) == After(s, step, staleAfter)
  {
    NumberedNext([start]);
  }

  /**
   * Without that premise the mutex fails: when a holder crashes, two contenders can both find its lock stale,
   * both take it over, and append two events with one number, of which recovery drops the second.
   */
  lemma CrashedHolderBreaksExclusion(staleAfter: real, start: Event)
    returns (systems: seq<System>, steps: seq<Step>)
    requires staleAfter >= 0.0 && start.sequence == 1 && start.eventType == WorkflowStarted
    ensures IsRun(systems, steps, staleAfter)
    ensures var s := systems[|steps|];
            && InCritical(PhaseOf(s, 1)) && InCritical(PhaseOf(s, 2))
            && |s.log| == 3 && s.log[1] != s.log[2] && s.log[1].sequence == s.log[2].sequence == 2
            && Covers(s.log, 2) && Firsts(s.log, 2) == s.log[..2]
  {
    steps := CrashSteps(staleAfter);
    systems := seq(13, i requires 0 <= i < 13 => CrashState(staleAfter, start, i));
    forall i | 0 <= i < 12
      ensures StepAt(systems, steps, staleAfter, i)
    {
      CrashStepHappens(staleAfter, start, i);
    }
    DuplicateIsDropped(systems[12].log);
  }

  lemma DuplicateIsDropped(log: seq<Event>)
    requires |log| == 3 && log[0].sequence == 1 && log[1].sequence == 2 && log[2].sequence == 2
    ensures Covers(log, 2) && Firsts(log, 2) == log[..2]
  {
    var kept := log[..2];
    assert log == kept + [log[2]];
    NumberedLogLosesNothing(kept);
    WithKeyOfAppend(kept, log[2], SequenceOf, 1);
    WithKeyOfAppend(kept, log[2], SequenceOf, 2);
  }
}
