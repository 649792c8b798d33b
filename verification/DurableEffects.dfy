/** What one more event does to a workflow, spelled out by the kinds of its values. */
module DurableEffects {
  import opened Options
  import opened StableSorting
  import opened DurableWorkflows
  import opened DurableRecovery
  import opened DurableMeaning

  lemma NewestIsFirst(log: seq<Event>, n: nat, e: Event)
    requires Contiguous(log, n) && e.sequence == n + 1
    ensures WithKey(log + [e], SequenceOf, n + 1) == [e]
  {
    WithKeyOfAppend(log, e, SequenceOf, n + 1);
    NothingBeyond(log, n);
  }

  lemma {:induction false} NothingBeyond(log: seq<Event>, n: nat)
    requires forall e :: e in log ==> e.sequence <= n
    ensures WithKey(log, SequenceOf, n + 1) == []
  {
    if log != [] {
      NothingBeyond(log[1..], n);
    }
  }

  lemma FirstsGrow(log: seq<Event>, n: nat, e: Event)
    requires Contiguous(log, n) && e.sequence == n + 1
    ensures Contiguous(log + [e], n + 1) && Firsts(log + [e], n + 1) == Firsts(log, n) + [e]
  {
    FirstsIgnoreAppends(log, e, n);
    NewestIsFirst(log, n, e);
    forall s | 1 <= s <= n + 1
      ensures WithKey(log + [e], SequenceOf, s) != []
    {
      assert s <= n ==> WithKey(log, SequenceOf, s) != [];
      WithKeyOfAppend(log, e, SequenceOf, s);
    }
    var grown, firsts := Firsts(log + [e], n + 1), Firsts(log, n);
    forall i | 0 <= i < n + 1
      ensures grown[i] == (firsts + [e])[i]
    {
      assert i < n ==> FirstAppended(log + [e], i + 1) == Firsts(log + [e], n)[i];
    }
  }

  lemma GrownIsWellFormed(disk: Disk, n: nat, e: Event)
    requires WellFormed(disk, n) && e.sequence == n + 1
    ensures WellFormed(disk.(log := disk.log + [e]), n + 1)
  {
    var grown := disk.(log := disk.log + [e]);
    AppendKeepsInvariant(World(disk, map[]), n, 0, e, World(grown, map[0 := Idle]));
  }

  lemma PlainFoldGrows(log: seq<Event>, n: nat, e: Event)
    requires Contiguous(log, n) && e.sequence == n + 1 && PlainFold(log, n).Some?
    ensures Contiguous(log + [e], n + 1) && PlainFold(log + [e], n + 1) == Apply(PlainFold(log, n).value, e)
  {
    FirstsGrow(log, n, e);
    FoldOfLonger(Firsts(log, n), e, 0.0);
  }

  /** Appending the next event applies it to the run that recovery yielded before. */
  lemma RecoveredAfterNext(disk: Disk, n: nat, e: Event, before: WorkflowRun, now: real, later: real)
    requires WellFormed(disk, n) && e.sequence == n + 1
    requires Recovered(disk.snapshots, disk.log, now) == Some(before)
    ensures WellFormed(disk.(log := disk.log + [e]), n + 1)
    ensures Recovered(disk.snapshots, disk.log + [e], later) == Apply(before, e)
  {
    GrownIsWellFormed(disk, n, e);
    RecoverIsPlainFold(disk, n, now);
    RecoverIsPlainFold(disk.(log := disk.log + [e]), n + 1, later);
    PlainFoldGrows(disk.log, n, e);
  }

  /**
   * A transition takes the phase named in it, if there is one: a non-empty text, or any other value that counts as
   * true. Without the key, with null, and with an empty or zero value the phase stays.
   */
  predicate PhaseFollows(before: Value, payload: map<string, Value>, after: Value)
  {
    if "to_phase" !in payload then after == before else
      match payload["to_phase"]
      case Text(p) => after == (if p == "" then before else Text(p))
      case Null => after == before
      case Flag(on) => after == (if on then Flag(true) else before)
      case Int(i) => after == (if i == 0 then before else Int(i))
      case Number(x) => after == (if x == 0.0 then before else Number(x))
      case List(items) => after == (if |items| == 0 then before else List(items))
      case Dict(fields) => after == (if |fields| == 0 then before else Dict(fields))
  }

  /** A patch overwrites the data key by key, and its `__status`, if it is the name of a status, the status. */
  ghost predicate PatchFollows(before: WorkflowRun, payload: map<string, Value>, after: WorkflowRun)
  {
    if "state_patch" in payload && payload["state_patch"].Dict? then
      var patch := payload["state_patch"].fields;
      && after.stateData == before.stateData + patch
      && (forall i :: 0 <= i < 6 && "__status" in patch && patch["__status"] == Text(StatusNames()[i].0) ==>
                        after.status == StatusNames()[i].1)
      && ((forall i :: 0 <= i < 6 ==> "__status" !in patch || patch["__status"] != Text(StatusNames()[i].0)) ==>
            after.status == before.status)
    else
      after.stateData == before.stateData && after.status == before.status
  }

  lemma TransitionSetsPhase(run: WorkflowRun, e: Event)
    requires e.eventType == StateTransition
    ensures Apply(run, e).Some? && PhaseFollows(run.currentPhase, e.payload, Apply(run, e).value.currentPhase)
  {
  }

  function StatusNames(): seq<(string, Status)>
  {
    [("PENDING", PENDING), ("RUNNING", RUNNING), ("PAUSED", PAUSED),
     ("DONE", DONE), ("FAILED", FAILED), ("ABORTED", ABORTED)]
  }

  lemma TransitionPatches(run: WorkflowRun, e: Event)
    requires e.eventType == StateTransition
    ensures Apply(run, e).Some? && PatchFollows(run, e.payload, Apply(run, e).value)
    ensures var after := Apply(run, e).value;
            after.sequence == e.sequence && after.updatedAt == e.timestamp && after.createdAt == run.createdAt
  {
    PatchChanges(run, e);
    PatchSetsStatus(run, e);
    if "state_patch" in e.payload && e.payload["state_patch"].Dict? && "__status" in e.payload["state_patch"].fields {
      StatusIsNamed(e.payload["state_patch"].fields["__status"]);
    }
  }

  lemma PatchChanges(run: WorkflowRun, e: Event)
    requires e.eventType == StateTransition
    ensures var after := Apply(run, e);
            && after.Some?
            && after.value.updatedAt == e.timestamp && after.value.createdAt == run.createdAt
            && ("state_patch" in e.payload && e.payload["state_patch"].Dict? ==>
                  after.value.stateData == run.stateData + e.payload["state_patch"].fields)
            && (!("state_patch" in e.payload && e.payload["state_patch"].Dict?) ==>
                  after.value.stateData == run.stateData)
  {
    if "state_patch" in e.payload && e.payload["state_patch"].Dict? && e.payload["state_patch"].fields == map[] {
      assert run.stateData + e.payload["state_patch"].fields == run.stateData;
    }
  }

  lemma PatchSetsStatus(run: WorkflowRun, e: Event)
    requires e.eventType == StateTransition
    ensures var after := Apply(run, e);
            && after.Some?
            && ("state_patch" in e.payload && e.payload["state_patch"].Dict? ==>
                  var patch := e.payload["state_patch"].fields;
                  after.value.status ==
                  if "__status" in patch && ParseStatus(patch["__status"]).Some?
                  then ParseStatus(patch["__status"]).value else run.status)
            && (!("state_patch" in e.payload && e.payload["state_patch"].Dict?) ==> after.value.status == run.status)
  {
  }

  /** The names of the table, and no other value, denote a status. */
  lemma StatusIsNamed(v: Value)
    ensures forall i :: 0 <= i < 6 && v == Text(StatusNames()[i].0) ==> ParseStatus(v) == Some(StatusNames()[i].1)
    ensures (forall i :: 0 <= i < 6 ==> v != Text(StatusNames()[i].0)) ==> ParseStatus(v) == None
  {
    var names := StatusNames();
    assert names[0].0 == "PENDING" && names[1].0 == "RUNNING" && names[2].0 == "PAUSED";
    assert names[3].0 == "DONE" && names[4].0 == "FAILED" && names[5].0 == "ABORTED";
  }

  /** The four recorded kinds add one audit record and change neither phase nor status; a snapshot marker adds none. */
  lemma RecordedEventIsListed(disk: Disk, n: nat, e: Event, before: WorkflowRun, now: real, later: real)
    requires WellFormed(disk, n) && e.sequence == n + 1
    requires Recovered(disk.snapshots, disk.log, now) == Some(before)
    requires e.eventType != WorkflowStarted && e.eventType != StateTransition
    ensures var result := Recovered(disk.snapshots, disk.log + [e], later);
            && (result.Some? ==>
                  && result.value.currentPhase == before.currentPhase && result.value.status == before.status
                  && result.value.createdAt == before.createdAt && result.value.updatedAt == e.timestamp
                  && result.value.sequence == n + 1
                  && forall k :: k != "__events_seen" ==>
                       && (k in result.value.stateData <==> k in before.stateData)
                       && (k in before.stateData ==> result.value.stateData[k] == before.stateData[k]))
            && (e.eventType == SnapshotTaken ==> result.Some? && result.value.stateData == before.stateData)
            && (e.eventType != SnapshotTaken ==>
                  && (result.Some? <==>
                      "__events_seen" !in before.stateData || before.stateData["__events_seen"].List?)
                  && (result.Some? ==>
                        var seen := if "__events_seen" in before.stateData
                                    then before.stateData["__events_seen"].items else [];
                        var name := match e.eventType
                                    case RoutingDecision => "ROUTING_DECISION"
                                    case DfStatusChange => "DF_STATUS_CHANGE"
                                    case StopFlagTransition => "STOP_FLAG_TRANSITION"
                                    case _ => "APPROVAL_STATE";
                        "__events_seen" in result.value.stateData &&
                        result.value.stateData["__events_seen"] == List(seen + [Dict(map[
                          "event_id" := Text(e.eventId), "type" := Text(name),
                          "ts" := Number(e.timestamp), "seq" := Int(n + 1)])])))
  {
    RecoveredAfterNext(disk, n, e, before, now, later);
  }

  /** A transition of a started workflow whose replay succeeds: what its caller gets back. */
  method TransitState(
    machine: DurableStateMachine, n: nat, before: WorkflowRun, eventId: string, payload: map<string, Value>, now: real)
    returns (found: bool, run: Outcome)
    requires WellFormed(Disk(machine.log, machine.snapshots), n)
    requires Recovered(machine.snapshots, machine.log, now) == Some(before)
    modifies machine
    ensures found && WellFormed(Disk(machine.log, machine.snapshots), n + 1)
    ensures run.Some? && run.value.sequence == n + 1 && run.value.updatedAt == now
    ensures PhaseFollows(before.currentPhase, payload, run.value.currentPhase)
    ensures PatchFollows(before, payload, run.value)
  {
    ghost var disk := Disk(machine.log, machine.snapshots);
    ghost var e := Event(eventId, StateTransition, now, n + 1, payload);
    LogEndsAt(disk, n);
    ghost var grown := AfterTransition(disk, n, e, before, now);
    found, run := machine.Transition(eventId, StateTransition, payload, now);
    ghost var log, taken := disk.log + [e], WithSnapshot(disk.snapshots, Some(grown));
    assert machine.log == log && (machine.snapshots == disk.snapshots || machine.snapshots == taken);
    assert run == Recovered(machine.snapshots, log, now);
  }

  /** The convenience that emits a transition to a named phase. */
  method TransitionPhase(
    machine: DurableStateMachine, n: nat, before: WorkflowRun, eventId: string, fromPhase: string, toPhase: string,
    statePatch: map<string, Value>, now: real)
    returns (found: bool, run: Outcome)
    requires WellFormed(Disk(machine.log, machine.snapshots), n)
    requires Recovered(machine.snapshots, machine.log, now) == Some(before)
    modifies machine
    ensures found && WellFormed(Disk(machine.log, machine.snapshots), n + 1)
    ensures run.Some? && run.value.sequence == n + 1 && run.value.updatedAt == now
    ensures run.value.currentPhase == if toPhase == "" then before.currentPhase else Text(toPhase)
    ensures run.value.stateData == before.stateData + statePatch
  {
    var payload := map[
      "from_phase" := Text(fromPhase), "to_phase" := Text(toPhase), "state_patch" := Dict(statePatch)];
    found, run := TransitState(machine, n, before, eventId, payload, now);
  }

  lemma LogEndsAt(disk: Disk, n: nat)
    requires WellFormed(disk, n)
    ensures disk.log != [] && NextSequence(disk.log) == n + 1
  {
    NextSequenceFollows(disk.log, n);
    StartedLogIsNotEmpty(disk.log, n);
  }

  lemma StartedLogIsNotEmpty(log: seq<Event>, n: nat)
    requires 1 <= n && Covers(log, n)
    ensures log != []
  {
    assert WithKey(log, SequenceOf, 1) != [];
  }

  lemma AfterTransition(disk: Disk, n: nat, e: Event, before: WorkflowRun, now: real) returns (after: WorkflowRun)
    requires WellFormed(disk, n) && Recovered(disk.snapshots, disk.log, now) == Some(before)
    requires e.sequence == n + 1 && e.eventType == StateTransition
    ensures var log, taken := disk.log + [e], WithSnapshot(disk.snapshots, Some(after));
            && Recovered(disk.snapshots, log, now) == Some(after) && Recovered(taken, log, now) == Some(after)
            && WellFormed(Disk(log, disk.snapshots), n + 1) && WellFormed(Disk(log, taken), n + 1)
    ensures after.sequence == n + 1 && after.updatedAt == e.timestamp
    ensures PhaseFollows(before.currentPhase, e.payload, after.currentPhase) && PatchFollows(before, e.payload, after)
  {
    RecoveredAfterNext(disk, n, e, before, now, now);
    TransitionSetsPhase(before, e);
    TransitionPatches(before, e);
    after := Apply(before, e).value;
    TakingSnapshotChangesNothing(disk.(log := disk.log + [e]), n + 1, now);
    assert Disk(disk.log + [e], disk.snapshots) == disk.(log := disk.log + [e]);
  }

  /** A snapshot of the recovered run keeps the disk well-formed, and recovery yields the same run again. */
  lemma TakingSnapshotChangesNothing(disk: Disk, n: nat, now: real)
    requires WellFormed(disk, n) && Recovered(disk.snapshots, disk.log, now).Some?
    ensures var taken := disk.(snapshots := WithSnapshot(disk.snapshots, Recovered(disk.snapshots, disk.log, now)));
            && WellFormed(taken, n)
            && Recovered(taken.snapshots, taken.log, now) == Recovered(disk.snapshots, disk.log, now)
  {
    RecoverIsPlainFold(disk, n, now);
    assert Firsts(disk.log, n)[..n] == Firsts(disk.log, n);
    FoldInTwoParts(Blank(0.0), Firsts(disk.log, n), n);
    var taken := disk.(snapshots := WithSnapshot(disk.snapshots, Recovered(disk.snapshots, disk.log, now)));
    RecoverIsPlainFold(taken, n, now);
  }
}
