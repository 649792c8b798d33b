/** The event-sourced workflow engine: one workflow's event file, its snapshots, and recovery. */
module DurableWorkflows {
  import opened Options
  import opened StableSorting
  import opened FiniteSets

  datatype Value =
    | Null
    | Flag(on: bool)
    | Int(n: int)
    | Number(x: real)
    | Text(text: string)
    | List(items: seq<Value>)
    | Dict(fields: map<string, Value>)

  /** Python's truth value. */
  function Truthy(v: Value): bool
  {
    match v
    case Null => false
    case Flag(on) => on
    case Int(n) => n != 0
    case Number(x) => x != 0.0
    case Text(text) => text != ""
    case List(items) => items != []
    case Dict(fields) => fields != map[]
  }

  datatype Status = PENDING | RUNNING | PAUSED | DONE | FAILED | ABORTED

  function ParseStatus(v: Value): Option<Status>
  {
    match v
    case Text("PENDING") => Some(PENDING)
    case Text("RUNNING") => Some(RUNNING)
    case Text("PAUSED") => Some(PAUSED)
    case Text("DONE") => Some(DONE)
    case Text("FAILED") => Some(FAILED)
    case Text("ABORTED") => Some(ABORTED)
    case _ => None
  }

  datatype EventType =
    | RoutingDecision | DfStatusChange | StopFlagTransition | ApprovalState
    | WorkflowStarted | StateTransition | SnapshotTaken

  function TypeName(t: EventType): string
  {
    match t
    case RoutingDecision => "ROUTING_DECISION"
    case DfStatusChange => "DF_STATUS_CHANGE"
    case StopFlagTransition => "STOP_FLAG_TRANSITION"
    case ApprovalState => "APPROVAL_STATE"
    case WorkflowStarted => "WORKFLOW_STARTED"
    case StateTransition => "STATE_TRANSITION"
    case SnapshotTaken => "SNAPSHOT_TAKEN"
  }

  datatype Event = Event(
    eventId: string, eventType: EventType, timestamp: real, sequence: int, payload: map<string, Value>)

  datatype WorkflowRun = WorkflowRun(
    currentPhase: Value, status: Status, stateData: map<string, Value>, sequence: int, createdAt: real, updatedAt: real)

  /** `None` stands for the exception that ends a replay. */
  type Outcome = Option<WorkflowRun>

  function SequenceOf(e: Event): int
  {
    e.sequence
  }

  function Get(m: map<string, Value>, key: string): Value
  {
    if key in m then m[key] else Null
  }

  /** A run without history, as recovery builds it when it finds no snapshot. */
  function Blank(now: real): WorkflowRun
  {
    WorkflowRun(Text("init"), PENDING, map[], 0, now, now)
  }

  // ---- one event -------------------------------------------------------------------------------

  function ApplyStarted(run: WorkflowRun, e: Event): Outcome
  {
    var initial := Get(e.payload, "initial_state");
    if Truthy(initial) && !initial.Dict? then None else
      Some(run.(
           status := RUNNING,
           createdAt := e.timestamp,
           currentPhase := if "initial_phase" in e.payload then e.payload["initial_phase"] else Text("init"),
           stateData := if Truthy(initial) then initial.fields else map[]))
  }

  function ApplyTransition(run: WorkflowRun, e: Event): Outcome
  {
    var toPhase := Get(e.payload, "to_phase");
    var patch := Get(e.payload, "state_patch");
    var phase := if Truthy(toPhase) then toPhase else run.currentPhase;
    if Truthy(patch) && patch.Dict? then
      var status := ParseStatus(Get(patch.fields, "__status"));
      Some(run.(
           currentPhase := phase,
           stateData := run.stateData + patch.fields,
           status := if status.Some? then status.value else run.status))
    else
      Some(run.(currentPhase := phase))
  }

  function Seen(e: Event): Value
  {
    Dict(map[
           "event_id" := Text(e.eventId), "type" := Text(TypeName(e.eventType)),
           "ts" := Number(e.timestamp), "seq" := Int(e.sequence)])
  }

  /** Fails when `__events_seen` has been overwritten with something that is not a list. */
  function ApplyRecorded(run: WorkflowRun, e: Event): Outcome
  {
    var history := if "__events_seen" in run.stateData then run.stateData["__events_seen"] else List([]);
    if !history.List? then None else
      Some(run.(stateData := run.stateData["__events_seen" := List(history.items + [Seen(e)])]))
  }

  function Apply(run: WorkflowRun, e: Event): (r: Outcome)
    ensures r.Some? ==> r.value.sequence == e.sequence
  {
    var changed :=
      match e.eventType
      case WorkflowStarted => ApplyStarted(run, e)
      case StateTransition => ApplyTransition(run, e)
      case SnapshotTaken => Some(run)
      case _ => ApplyRecorded(run, e);
    if changed.None? then None else Some(changed.value.(sequence := e.sequence, updatedAt := e.timestamp))
  }

  // ---- the simple meaning of a log ---------------------------------------------------------------

  /** The event file holds every sequence number from 1 to `n`, possibly several times, and no other. */
  ghost predicate Contiguous(log: seq<Event>, n: nat)
  {
    Covers(log, n) && forall e :: e in log ==> 1 <= e.sequence <= n
  }

  ghost predicate Covers(log: seq<Event>, n: nat)
  {
    forall s :: 1 <= s <= n ==> WithKey(log, SequenceOf, s) != []
  }

  /** The event that was appended first among those with sequence number `s`. */
  ghost function FirstAppended(log: seq<Event>, s: int): (e: Event)
    requires WithKey(log, SequenceOf, s) != []
    ensures e in log && e.sequence == s
  {
    assert WithKey(log, SequenceOf, s)[0] in WithKey(log, SequenceOf, s);
    WithKey(log, SequenceOf, s)[0]
  }

  /** For each sequence number up to `n`, the event that was appended first with it. */
  ghost function Firsts(log: seq<Event>, n: nat): (firsts: seq<Event>)
    requires Covers(log, n)
    ensures |firsts| == n && Numbered(firsts)
    ensures forall i :: 0 <= i < n ==> firsts[i] == FirstAppended(log, i + 1)
  {
    seq(n, i requires 0 <= i < n => FirstAppended(log, i + 1))
  }

  ghost predicate Numbered(events: seq<Event>)
  {
    forall i :: 0 <= i < |events| ==> events[i].sequence == i + 1
  }

  /** The plain fold: from `run`, apply each following event in turn. */
  ghost function Fold(run: WorkflowRun, events: seq<Event>): Outcome
    requires Numbered(events) && run.sequence >= 0
    decreases |events| - run.sequence
  {
    if run.sequence >= |events| then Some(run) else
      var next := Apply(run, events[run.sequence]);
      if next.None? then None else Fold(next.value, events)
  }

  // ---- what recovery computes --------------------------------------------------------------------

  function ReadEvents(log: seq<Event>): seq<Event>
  {
    StableSort(log, SequenceOf)
  }

  /** The replay loop: events that the run has already seen are skipped. */
  function Replay(run: WorkflowRun, events: seq<Event>): Outcome
    decreases |events|
  {
    if events == [] then Some(run)
    else if events[0].sequence <= run.sequence then Replay(run, events[1..])
    else
      var next := Apply(run, events[0]);
      if next.None? then None else Replay(next.value, events[1..])
  }

  function NextSequence(log: seq<Event>): int
  {
    var events := ReadEvents(log);
    if events == [] then 1 else events[|events| - 1].sequence + 1
  }

  /** A snapshot file holds a run, or bytes that do not parse. */
  type Snapshots = map<int, Option<WorkflowRun>>

  ghost predicate IsLatest(snapshots: Snapshots, k: int)
  {
    k in snapshots && forall j :: j in snapshots ==> j <= k
  }

  /** Only the newest file is tried; when it does not parse there is no snapshot. */
  ghost function LatestSnapshot(snapshots: Snapshots): Option<WorkflowRun>
  {
    if exists k :: IsLatest(snapshots, k) then
      var k :| IsLatest(snapshots, k);
      snapshots[k]
    else None
  }

  function BaseRun(base: Option<WorkflowRun>, now: real): WorkflowRun
  {
    if base.Some? then base.value else Blank(now)
  }

  /** Recovery: the newest snapshot, then the events that it does not cover. */
  ghost function Recovered(snapshots: Snapshots, log: seq<Event>, now: real): Outcome
  {
    Replay(BaseRun(LatestSnapshot(snapshots), now), ReadEvents(log))
  }

  /** A snapshot that covers the whole log is what recovery returns. */
  lemma {:induction false} CoveringSnapshotIsReplayed(run: WorkflowRun, events: seq<Event>)
    requires forall e :: e in events ==> e.sequence <= run.sequence
    ensures Replay(run, events) == Some(run)
    decreases |events|
  {
    if events != [] {
      CoveringSnapshotIsReplayed(run, events[1..]);
    }
  }

  lemma CoveringSnapshotIsRecovered(snapshots: Snapshots, log: seq<Event>, k: int, run: WorkflowRun, now: real)
    requires k in snapshots && snapshots[k] == Some(run) && forall j :: j in snapshots ==> j <= k
    requires forall e :: e in log ==> e.sequence <= run.sequence
    ensures Recovered(snapshots, log, now) == Some(run)
  {
    HighestIsLatest(snapshots, k);
    SortingKeepsBound(log, run.sequence);
    CoveringSnapshotIsReplayed(run, ReadEvents(log));
  }

  lemma HighestIsLatest(snapshots: Snapshots, k: int)
    requires k in snapshots && forall j :: j in snapshots ==> j <= k
    ensures LatestSnapshot(snapshots) == snapshots[k]
  {
    assert IsLatest(snapshots, k);
  }

  lemma SortingKeepsBound(log: seq<Event>, n: int)
    requires forall e :: e in log ==> e.sequence <= n
    ensures forall e :: e in ReadEvents(log) ==> e.sequence <= n
  {
    SortOrders(log, SequenceOf);
    forall e | e in ReadEvents(log)
      ensures e.sequence <= n
    {
      assert e in multiset(ReadEvents(log));
      assert e in log;
    }
  }

  ghost function WithSnapshot(snapshots: Snapshots, run: Outcome): Snapshots
  {
    if run.Some? then snapshots[run.value.sequence := run] else snapshots
  }

  type Positive = n: int | 1 <= n witness 1

  /** The engine for one workflow. `log` is the event file; an empty log means that it does not exist. */
  class DurableStateMachine {
    const snapshotEveryNEvents: Positive
    var log: seq<Event>
    var snapshots: Snapshots

    /** Opens the state directory, which may hold the workflow already. */
    constructor (snapshotEveryNEvents: int, existingLog: seq<Event>, existingSnapshots: Snapshots)
      ensures this.snapshotEveryNEvents == (if snapshotEveryNEvents < 1 then 1 else snapshotEveryNEvents)
      ensures log == existingLog && snapshots == existingSnapshots
    {
      this.snapshotEveryNEvents := if snapshotEveryNEvents < 1 then 1 else snapshotEveryNEvents;
      log := existingLog;
      snapshots := existingSnapshots;
    }

    method ReadLatestSnapshot() returns (base: Option<WorkflowRun>)
      ensures base == LatestSnapshot(snapshots)
    {
      var rest := snapshots.Keys;
      if rest == {} {
        return None;
      }
      ghost var member := SomeMember(rest);
      var latest :| latest in rest;
      rest := rest - {latest};
      while rest != {}
        invariant rest <= snapshots.Keys && latest in snapshots
        invariant forall k :: k in snapshots && k !in rest ==> k <= latest
      {
        member := SomeMember(rest);
        var k :| k in rest;
        latest := if latest < k then k else latest;
        rest := rest - {k};
      }
      assert IsLatest(snapshots, latest);
      base := snapshots[latest];
    }

    /** `found` is false for a workflow that was never started. */
    method Recover(now: real) returns (found: bool, run: Outcome)
      ensures found <==> log != []
      ensures run == if found then Recovered(snapshots, log, now) else None
    {
      if log == [] {
        return false, None;
      }
      found := true;
      var base := ReadLatestSnapshot();
      var current := BaseRun(base, now);
      var events := ReadEvents(log);
      var i := 0;
      while i < |events|
        invariant 0 <= i <= |events|
        invariant Replay(BaseRun(base, now), events) == Replay(current, events[i..])
      {
        assert events[i..][1..] == events[i + 1..];
        if events[i].sequence > current.sequence {
          var next := Apply(current, events[i]);
          if next.None? {
            return true, None;
          }
          current := next.value;
        }
        i := i + 1;
      }
      run := Some(current);
    }

    method Snapshot(now: real) returns (found: bool, run: Outcome)
      modifies this`snapshots
      ensures found <==> log != []
      ensures run == if found then Recovered(old(snapshots), log, now) else None
      ensures snapshots == WithSnapshot(old(snapshots), run)
    {
      found, run := Recover(now);
      if run.Some? {
        snapshots := snapshots[run.value.sequence := run];
      }
    }

    method StartWorkflow(eventId: string, initialState: map<string, Value>, initialPhase: string, now: real)
      returns (started: bool, run: Outcome)
      modifies this`log
      ensures started <==> old(log) == []
      ensures log == if started then [StartEvent(eventId, initialState, initialPhase, now)] else old(log)
      ensures run == if started then Recovered(snapshots, log, now) else None
      ensures started && snapshots == map[] ==>
                run == Some(WorkflowRun(Text(initialPhase), RUNNING, initialState, 1, now, now))
      ensures started ==> |log| == 1 && log[0].sequence == 1 && log[0].eventType == WorkflowStarted
    {
      if log != [] {
        return false, None;
      }
      log := [StartEvent(eventId, initialState, initialPhase, now)];
      if snapshots == map[] {
        StartedRun(snapshots, eventId, initialState, initialPhase, now);
      }
      started, run := Recover(now);
    }

    /** What `transition` does while it holds the workflow's lock. */
    method Transition(eventId: string, eventType: EventType, payload: map<string, Value>, now: real)
      returns (found: bool, run: Outcome)
      modifies this`log, this`snapshots
      ensures found <==> old(log) != []
      ensures !found ==> log == old(log) && snapshots == old(snapshots) && run == None
      ensures found ==> log == old(log) + [Event(eventId, eventType, now, NextSequence(old(log)), payload)]
      ensures found && NextSequence(old(log)) % snapshotEveryNEvents != 0 ==>
                snapshots == old(snapshots) && run == Recovered(snapshots, log, now)
      ensures found && NextSequence(old(log)) % snapshotEveryNEvents == 0 ==>
                var taken := Recovered(old(snapshots), log, now);
                && snapshots == WithSnapshot(old(snapshots), taken)
                && run == if taken.None? then None else Recovered(snapshots, log, now)
    {
      if log == [] {
        return false, None;
      }
      found := true;
      var events := ReadEvents(log);
      var next := if events == [] then 1 else events[|events| - 1].sequence + 1;
      log := log + [Event(eventId, eventType, now, next, payload)];
      if next % snapshotEveryNEvents == 0 {
        var _, taken := Snapshot(now);
        if taken.None? {
          return true, None;
        }
      }
      var _, current := Recover(now);
      run := current;
    }
  }

  lemma StartedRun(
    snapshots: Snapshots, eventId: string, initialState: map<string, Value>, initialPhase: string, now: real)
    requires snapshots == map[]
    ensures Recovered(snapshots, [StartEvent(eventId, initialState, initialPhase, now)], now) ==
            Some(WorkflowRun(Text(initialPhase), RUNNING, initialState, 1, now, now))
  {
    var log := [StartEvent(eventId, initialState, initialPhase, now)];
    assert log[1..] == [] && StableSort(log[1..], SequenceOf) == [];
    assert ReadEvents(log) == Insert(log[0], [], SequenceOf) == log;
    assert LatestSnapshot(snapshots) == None;
    assert Replay(Blank(now), log) == Apply(Blank(now), log[0]);
  }

  function StartEvent(eventId: string, initialState: map<string, Value>, initialPhase: string, now: real): Event
  {
    Event(eventId, WorkflowStarted, now, 1,
          map["initial_state" := Dict(initialState), "initial_phase" := Text(initialPhase)])
  }
}

/** Recovery means the plain fold, under every interleaving of writers and snapshot takers. */
module DurableRecovery {
  import opened Options
  import opened StableSorting
  import opened DurableWorkflows

  lemma FirstsIgnoreAppends(log: seq<Event>, e: Event, n: nat)
    requires Covers(log, n)
    ensures Covers(log + [e], n) && Firsts(log + [e], n) == Firsts(log, n)
  {
    forall s | 1 <= s <= n
      ensures WithKey(log + [e], SequenceOf, s) != [] && FirstAppended(log + [e], s) == FirstAppended(log, s)
    {
      WithKeyOfAppend(log, e, SequenceOf, s);
    }
  }

  lemma {:induction false} FoldInTwoParts(run: WorkflowRun, events: seq<Event>, m: nat)
    requires Numbered(events) && 0 <= run.sequence <= m <= |events|
    requires Fold(run, events[..m]).Some?
    ensures var middle := Fold(run, events[..m]).value;
            middle.sequence == m && Fold(run, events) == Fold(middle, events)
    decreases m - run.sequence
  {
    if run.sequence < m {
      FoldInTwoParts(Apply(run, events[run.sequence]).value, events, m);
    }
  }

  lemma HeadOfSorted(events: seq<Event>, s: int)
    requires SortedBy(events, SequenceOf) && events != [] && WithKey(events, SequenceOf, s) != []
    requires events[0].sequence >= s
    ensures events[0] == FirstAppended(events, s)
  {
    var first := FirstAppended(events, s);
    var i :| 0 <= i < |events| && events[i] == first;
    assert SequenceOf(events[0]) <= SequenceOf(events[i]);
  }

  ghost predicate FirstIs(events: seq<Event>, firsts: seq<Event>, s: int)
    requires 1 <= s <= |firsts|
  {
    WithKey(events, SequenceOf, s) != [] && FirstAppended(events, s) == firsts[s - 1]
  }

  /** The sorted events hold `firsts` after number `from`, and nothing beyond. */
  ghost predicate Holds(events: seq<Event>, firsts: seq<Event>, from: int)
    requires from >= 0
  {
    && SortedBy(events, SequenceOf)
    && (forall e :: e in events ==> e.sequence <= |firsts|)
    && (forall s :: from < s <= |firsts| ==> FirstIs(events, firsts, s))
  }

  lemma TailHolds(events: seq<Event>, firsts: seq<Event>, from: int, later: int)
    requires 0 <= from <= later && events != [] && Holds(events, firsts, from) && events[0].sequence <= later
    ensures Holds(events[1..], firsts, later)
  {
    forall s | later < s <= |firsts|
      ensures FirstIs(events[1..], firsts, s)
    {
      assert FirstIs(events, firsts, s);
    }
  }

  /** Replaying the sorted events, duplicates included, is folding the first-appended ones. */
  lemma {:induction false} ReplayIsFold(run: WorkflowRun, events: seq<Event>, firsts: seq<Event>)
    requires Numbered(firsts) && run.sequence >= 0 && Holds(events, firsts, run.sequence)
    ensures Replay(run, events) == Fold(run, firsts)
    decreases |events|
  {
    var s := run.sequence + 1;
    if s <= |firsts| {
      assert FirstIs(events, firsts, s);
    }
    if events == [] {
    } else if events[0].sequence < s {
      TailHolds(events, firsts, run.sequence, run.sequence);
      ReplayIsFold(run, events[1..], firsts);
    } else {
      HeadOfSorted(events, s);
      var next := Apply(run, events[0]);
      if next.Some? {
        TailHolds(events, firsts, run.sequence, s);
        ReplayIsFold(next.value, events[1..], firsts);
      }
    }
  }

  /** The disk state that the writers of one workflow share. */
  datatype Disk = Disk(log: seq<Event>, snapshots: Snapshots)

  /** The last sequence number that the event file holds. */
  ghost predicate WellFormed(disk: Disk, n: nat)
  {
    && 1 <= n && Contiguous(disk.log, n)
    && FirstAppended(disk.log, 1).eventType == WorkflowStarted
    && forall k :: k in disk.snapshots ==> IsGoodBase(disk.snapshots[k], disk.log, n)
  }

  /** A base is missing, or it is the fold up to its own sequence number. */
  ghost predicate IsGoodBase(base: Option<WorkflowRun>, log: seq<Event>, n: nat)
    requires Covers(log, n)
  {
    base.Some? ==> 1 <= base.value.sequence <= n && PlainFold(log, base.value.sequence) == base
  }

  ghost function PlainFold(log: seq<Event>, n: nat): Outcome
    requires Covers(log, n)
  {
    Fold(Blank(0.0), Firsts(log, n))
  }

  /** The start event overwrites whatever blank run the replay began with. */
  lemma BlankDoesNotMatter(log: seq<Event>, n: nat, now: real)
    requires 1 <= n && Covers(log, n) && FirstAppended(log, 1).eventType == WorkflowStarted
    ensures Fold(Blank(now), Firsts(log, n)) == PlainFold(log, n)
  {
    var first := Firsts(log, n)[0];
    assert Apply(Blank(now), first) == Apply(Blank(0.0), first);
  }

  lemma SortedLogHolds(log: seq<Event>, n: nat)
    requires Contiguous(log, n)
    ensures Holds(ReadEvents(log), Firsts(log, n), 0)
  {
    var events := ReadEvents(log);
    SortOrders(log, SequenceOf);
    forall e | e in events
      ensures e.sequence <= n
    {
      assert e in multiset(events);
      assert e in log;
    }
    forall s | 1 <= s <= n
      ensures FirstIs(events, Firsts(log, n), s)
    {
      SortIsStable(log, SequenceOf, s);
    }
  }

  lemma FoldFromGoodBase(log: seq<Event>, n: nat, base: Option<WorkflowRun>, now: real)
    requires 1 <= n && Covers(log, n) && FirstAppended(log, 1).eventType == WorkflowStarted
    requires IsGoodBase(base, log, n)
    ensures Fold(BaseRun(base, now), Firsts(log, n)) == PlainFold(log, n)
  {
    if base.Some? {
      var firsts := Firsts(log, n);
      assert firsts[..base.value.sequence] == Firsts(log, base.value.sequence);
      FoldInTwoParts(Blank(0.0), firsts, base.value.sequence);
    } else {
      BlankDoesNotMatter(log, n, now);
    }
  }

  lemma ReplayFromGoodBase(log: seq<Event>, n: nat, base: Option<WorkflowRun>, now: real)
    requires 1 <= n && Contiguous(log, n) && FirstAppended(log, 1).eventType == WorkflowStarted
    requires IsGoodBase(base, log, n)
    ensures Replay(BaseRun(base, now), ReadEvents(log)) == PlainFold(log, n)
  {
    SortedLogHolds(log, n);
    ReplayIsFold(BaseRun(base, now), ReadEvents(log), Firsts(log, n));
    FoldFromGoodBase(log, n, base, now);
  }

  /** The fast path, newest snapshot plus tail, and the plain fold of the whole log agree. */
  lemma RecoverIsPlainFold(disk: Disk, n: nat, now: real)
    requires WellFormed(disk, n)
    ensures Recovered(disk.snapshots, disk.log, now) == PlainFold(disk.log, n)
  {
    ReplayFromGoodBase(disk.log, n, LatestSnapshot(disk.snapshots), now);
  }

  lemma SortedHasSameEvents(log: seq<Event>, e: Event)
    ensures e in ReadEvents(log) <==> e in log
  {
    SortOrders(log, SequenceOf);
    assert e in multiset(ReadEvents(log)) <==> e in multiset(log);
  }

  lemma LastOfSorted(events: seq<Event>, e: Event)
    requires SortedBy(events, SequenceOf) && e in events
    requires forall other :: other in events ==> other.sequence <= e.sequence
    ensures events[|events| - 1].sequence == e.sequence
  {
    var i :| 0 <= i < |events| && events[i] == e;
    assert i < |events| - 1 ==> SequenceOf(events[i]) <= SequenceOf(events[|events| - 1]);
  }

  lemma NextSequenceFollows(log: seq<Event>, n: nat)
    requires 1 <= n && Contiguous(log, n)
    ensures NextSequence(log) == n + 1
  {
    var events := ReadEvents(log);
    var e := FirstAppended(log, n);
    SortOrders(log, SequenceOf);
    forall other
      ensures other in events <==> other in log
    {
      SortedHasSameEvents(log, other);
    }
    LastOfSorted(events, e);
  }

  // ---- interleavings -----------------------------------------------------------------------------

  /** What a process remembers between two of its file operations. */
  datatype Local = Idle | TailRead(next: int) | BaseRead(base: Option<WorkflowRun>) | Materialized(run: WorkflowRun)

  datatype World = World(disk: Disk, locals: map<int, Local>)

  /** File operations of process `p`. No lock is assumed, and a process may stop after any of them. */
  datatype FileStep =
    | ReadTail(p: int)
    | AppendEvent(p: int, eventId: string, eventType: EventType, timestamp: real, payload: map<string, Value>)
    | ReadBase(p: int)
    | ReplayTail(p: int, now: real)
    | WriteSnapshot(p: int)
    | DamageSnapshot(k: int)

  ghost function LocalOf(w: World, p: int): Local
  {
    if p in w.locals then w.locals[p] else Idle
  }

  ghost predicate Next(w: World, step: FileStep, v: World)
  {
    match step
    case ReadTail(p) => v == w.(locals := w.locals[p := TailRead(NextSequence(w.disk.log))])
    case AppendEvent(p, eventId, eventType, timestamp, payload) =>
      && LocalOf(w, p).TailRead?
      && var e := Event(eventId, eventType, timestamp, LocalOf(w, p).next, payload);
      && v == World(w.disk.(log := w.disk.log + [e]), w.locals[p := Idle])
    case ReadBase(p) => v == w.(locals := w.locals[p := BaseRead(LatestSnapshot(w.disk.snapshots))])
    case ReplayTail(p, now) =>
      && LocalOf(w, p).BaseRead?
      && var run := Replay(BaseRun(LocalOf(w, p).base, now), ReadEvents(w.disk.log));
      && v == w.(locals := w.locals[p := if run.Some? then Materialized(run.value) else Idle])
    case WriteSnapshot(p) =>
      && LocalOf(w, p).Materialized?
      && var run := LocalOf(w, p).run;
      && v == World(w.disk.(snapshots := w.disk.snapshots[run.sequence := Some(run)]), w.locals[p := Idle])
    case DamageSnapshot(k) =>
      k in w.disk.snapshots && v == w.(disk := w.disk.(snapshots := w.disk.snapshots[k := None]))
  }

  /** Every file operation can happen: what `transition`, `snapshot` and `recover` do is among the interleavings. */
  lemma FileStepsHappen(
    w: World, p: int, eventId: string, eventType: EventType, timestamp: real, payload: map<string, Value>, now: real)
    ensures Next(w, ReadTail(p), World(w.disk, w.locals[p := TailRead(NextSequence(w.disk.log))]))
    ensures LocalOf(w, p).TailRead? ==>
              var e := Event(eventId, eventType, timestamp, LocalOf(w, p).next, payload);
              Next(
                w, AppendEvent(p, eventId, eventType, timestamp, payload),
                World(Disk(w.disk.log + [e], w.disk.snapshots), w.locals[p := Idle]))
    ensures Next(w, ReadBase(p), World(w.disk, w.locals[p := BaseRead(LatestSnapshot(w.disk.snapshots))]))
    ensures LocalOf(w, p).BaseRead? ==>
              var run := Replay(BaseRun(LocalOf(w, p).base, now), ReadEvents(w.disk.log));
              && (run.Some? ==> Next(w, ReplayTail(p, now), World(w.disk, w.locals[p := Materialized(run.value)])))
              && (run.None? ==> Next(w, ReplayTail(p, now), World(w.disk, w.locals[p := Idle])))
    ensures LocalOf(w, p).Materialized? ==>
              var run := LocalOf(w, p).run;
              Next(
                w, WriteSnapshot(p),
                World(Disk(w.disk.log, w.disk.snapshots[run.sequence := Some(run)]), w.locals[p := Idle]))
    ensures forall k :: k in w.disk.snapshots ==>
              Next(w, DamageSnapshot(k), World(Disk(w.disk.log, w.disk.snapshots[k := None]), w.locals))
  {
  }

  /** One `start_workflow` has completed and nothing else has happened. */
  ghost predicate Started(w: World)
  {
    exists eventId, initialState, initialPhase, now ::
      w == World(Disk([StartEvent(eventId, initialState, initialPhase, now)], map[]), map[])
  }

  ghost predicate IsInterleaving(worlds: seq<World>, steps: seq<FileStep>)
  {
    && |worlds| == |steps| + 1
    && Started(worlds[0])
    && forall i :: 0 <= i < |steps| ==> Next(worlds[i], steps[i], worlds[i + 1])
  }

  ghost predicate IsGoodLocal(local: Local, log: seq<Event>, n: nat)
    requires Covers(log, n)
  {
    match local
    case Idle => true
    case TailRead(next) => 2 <= next <= n + 1
    case BaseRead(base) => IsGoodBase(base, log, n)
    case Materialized(run) => IsGoodBase(Some(run), log, n)
  }

  ghost predicate Invariant(w: World, n: nat)
  {
    WellFormed(w.disk, n) && forall p :: p in w.locals ==> IsGoodLocal(w.locals[p], w.disk.log, n)
  }

  lemma GoodBaseSurvivesAppend(base: Option<WorkflowRun>, log: seq<Event>, e: Event, n: nat, m: nat)
    requires Covers(log, n) && n <= m && Covers(log + [e], m)
    requires IsGoodBase(base, log, n)
    ensures IsGoodBase(base, log + [e], m)
  {
    if base.Some? {
      FirstsIgnoreAppends(log, e, base.value.sequence);
    }
  }

  /** A writer's number is taken or the next one, so the sequence numbers stay contiguous. */
  lemma AppendKeepsInvariant(w: World, n: nat, p: int, e: Event, v: World)
    requires Invariant(w, n) && 2 <= e.sequence <= n + 1
    requires v == World(w.disk.(log := w.disk.log + [e]), w.locals[p := Idle])
    ensures Invariant(v, if e.sequence == n + 1 then n + 1 else n)
  {
    var log := w.disk.log;
    var m := if e.sequence == n + 1 then n + 1 else n;
    forall s | 1 <= s <= m
      ensures WithKey(log + [e], SequenceOf, s) != []
      ensures s == 1 ==> FirstAppended(log + [e], s) == FirstAppended(log, s)
    {
      WithKeyOfAppend(log, e, SequenceOf, s);
    }
    forall k | k in w.disk.snapshots
      ensures IsGoodBase(w.disk.snapshots[k], log + [e], m)
    {
      GoodBaseSurvivesAppend(w.disk.snapshots[k], log, e, n, m);
    }
    forall q | q in v.locals
      ensures IsGoodLocal(v.locals[q], log + [e], m)
    {
      match v.locals[q]
      case Idle =>
      case TailRead(_) =>
      case BaseRead(base) => GoodBaseSurvivesAppend(base, log, e, n, m);
      case Materialized(run) => GoodBaseSurvivesAppend(Some(run), log, e, n, m);
    }
  }

  lemma NextKeepsInvariant(w: World, n: nat, step: FileStep, v: World) returns (m: nat)
    requires Invariant(w, n) && Next(w, step, v)
    ensures Invariant(v, m)
  {
    m := n;
    match step
    case ReadTail(p) => NextSequenceFollows(w.disk.log, n);
    case AppendEvent(p, eventId, eventType, timestamp, payload) =>
      var e := Event(eventId, eventType, timestamp, LocalOf(w, p).next, payload);
      AppendKeepsInvariant(w, n, p, e, v);
      m := if e.sequence == n + 1 then n + 1 else n;
    case ReadBase(p) =>
    case ReplayTail(p, now) =>
      ReplayFromGoodBase(w.disk.log, n, LocalOf(w, p).base, now);
      if PlainFold(w.disk.log, n).Some? {
        assert Firsts(w.disk.log, n)[..n] == Firsts(w.disk.log, n);
        FoldInTwoParts(Blank(0.0), Firsts(w.disk.log, n), n);
      }
    case WriteSnapshot(p) =>
    case DamageSnapshot(k) =>
  }

  lemma {:induction false} InterleavingKeepsInvariant(worlds: seq<World>, steps: seq<FileStep>, i: nat) returns (n: nat)
    requires IsInterleaving(worlds, steps) && i <= |steps|
    ensures Invariant(worlds[i], n)
  {
    if i == 0 {
      n := 1;
      var log := worlds[0].disk.log;
      assert log[1..] == [];
    } else {
      var m := InterleavingKeepsInvariant(worlds, steps, i - 1);
      n := NextKeepsInvariant(worlds[i - 1], m, steps[i - 1], worlds[i]);
    }
  }

  /**
   * At every moment of every interleaving the event file is contiguous, and recovery, whatever snapshots exist
   * or fail to parse and whatever the time, yields the plain fold over the first-appended events.
   */
  lemma RecoverIsPlainFoldInEveryRun(worlds: seq<World>, steps: seq<FileStep>, i: nat, now: real)
    requires IsInterleaving(worlds, steps) && i <= |steps|
    ensures exists n: nat ::
              && Contiguous(worlds[i].disk.log, n)
              && Recovered(worlds[i].disk.snapshots, worlds[i].disk.log, now) == PlainFold(worlds[i].disk.log, n)
  {
    var n := InterleavingKeepsInvariant(worlds, steps, i);
    RecoverIsPlainFold(worlds[i].disk, n, now);
  }

  /** The same when a recovery reads its snapshot in one step and the events only in a later one. */
  lemma InterruptedRecoverIsPlainFold(worlds: seq<World>, steps: seq<FileStep>, i: nat, p: int, now: real)
    requires IsInterleaving(worlds, steps) && i <= |steps| && LocalOf(worlds[i], p).BaseRead?
    ensures exists n: nat ::
              && Contiguous(worlds[i].disk.log, n)
              && Replay(BaseRun(LocalOf(worlds[i], p).base, now), ReadEvents(worlds[i].disk.log))
                 == PlainFold(worlds[i].disk.log, n)
  {
    var n := InterleavingKeepsInvariant(worlds, steps, i);
    ReplayFromGoodBase(worlds[i].disk.log, n, LocalOf(worlds[i], p).base, now);
  }
}

/** What the plain fold means, field by field: the last event that says something about a field decides it. */
module DurableMeaning {
  import opened Options
  import opened DurableWorkflows
  import opened DurableRecovery

  /** The phase that a single event sets. */
  function PhaseSetBy(e: Event): Option<Value>
  {
    match e.eventType
    case WorkflowStarted => Some(if "initial_phase" in e.payload then e.payload["initial_phase"] else Text("init"))
    case StateTransition => if Truthy(Get(e.payload, "to_phase")) then Some(Get(e.payload, "to_phase")) else None
    case _ => None
  }

  function Patch(e: Event): map<string, Value>
  {
    var patch := Get(e.payload, "state_patch");
    if e.eventType.StateTransition? && patch.Dict? then patch.fields else map[]
  }

  function StatusSetBy(e: Event): Option<Status>
  {
    if e.eventType.WorkflowStarted? then Some(RUNNING) else ParseStatus(Get(Patch(e), "__status"))
  }

  /** The phase after the last event that sets one. */
  ghost function LastPhase(events: seq<Event>): Value
  {
    if events == [] then Text("init") else
      var last := events[|events| - 1];
      if PhaseSetBy(last).Some? then PhaseSetBy(last).value else LastPhase(events[..|events| - 1])
  }

  ghost function LastStatus(events: seq<Event>): Status
  {
    if events == [] then PENDING else
      var last := events[|events| - 1];
      if StatusSetBy(last).Some? then StatusSetBy(last).value else LastStatus(events[..|events| - 1])
  }

  /** What was last written under `key`, if anything was since the last start. */
  ghost function LastWrite(events: seq<Event>, key: string): Option<Value>
  {
    if events == [] then None else
      var last := events[|events| - 1];
      if last.eventType.WorkflowStarted? then
        var initial := Get(last.payload, "initial_state");
        if initial.Dict? && key in initial.fields then Some(initial.fields[key]) else None
      else if key in Patch(last) then Some(Patch(last)[key])
      else LastWrite(events[..|events| - 1], key)
  }

  predicate IsRecorded(e: Event)
  {
    !e.eventType.WorkflowStarted? && !e.eventType.StateTransition? && !e.eventType.SnapshotTaken?
  }

  /** The audit records of the recorded events, in order. */
  ghost function AllSeen(events: seq<Event>): seq<Value>
  {
    if events == [] then [] else
      AllSeen(events[..|events| - 1]) + (if IsRecorded(events[|events| - 1]) then [Seen(events[|events| - 1])] else [])
  }

  /**
   * Only the first event starts the workflow, from a proper state, and no event writes the key of the audit
   * records.
   */
  ghost predicate LeavesHistoryAlone(events: seq<Event>)
  {
    forall i :: 0 <= i < |events| ==> LeavesAlone(events[i], i)
  }

  ghost predicate LeavesAlone(e: Event, i: nat)
  {
    && "__events_seen" !in Patch(e)
    && (e.eventType.WorkflowStarted? ==>
          && i == 0 && LastWrite([e], "__events_seen").None?
          && (Truthy(Get(e.payload, "initial_state")) ==> Get(e.payload, "initial_state").Dict?))
  }

  /** Folding one event more is applying it last. */
  lemma FoldOfLonger(events: seq<Event>, e: Event, now: real)
    requires Numbered(events) && Numbered(events + [e]) && Fold(Blank(now), events).Some?
    ensures Fold(Blank(now), events).value.sequence == |events|
    ensures Apply(Fold(Blank(now), events).value, e) == Fold(Blank(now), events + [e])
  {
    var longer := events + [e];
    assert longer[..|events|] == events;
    assert longer[|events|] == e;
    FoldInTwoParts(Blank(now), longer, |events|);
  }

  lemma {:induction false} FoldPrefix(run: WorkflowRun, events: seq<Event>, m: nat)
    requires Numbered(events) && 0 <= run.sequence <= m <= |events| && Fold(run, events).Some?
    ensures Fold(run, events[..m]).Some?
    decreases m - run.sequence
  {
    if run.sequence < m {
      FoldPrefix(Apply(run, events[run.sequence]).value, events, m);
    }
  }

  /** A run that the fold yields has, in each field, what the last event about that field says. */
  ghost predicate IsMeaning(run: WorkflowRun, events: seq<Event>)
  {
    && run.currentPhase == LastPhase(events)
    && run.status == LastStatus(events)
    && (forall key :: key != "__events_seen" ==> HasLastWrite(run, events, key))
  }

  ghost predicate HasLastWrite(run: WorkflowRun, events: seq<Event>, key: string)
  {
    (if key in run.stateData then Some(run.stateData[key]) else None) == LastWrite(events, key)
  }

  lemma ApplySetsPhaseAndStatus(run: WorkflowRun, e: Event)
    requires Apply(run, e).Some?
    ensures Apply(run, e).value.currentPhase == if PhaseSetBy(e).Some? then PhaseSetBy(e).value else run.currentPhase
    ensures Apply(run, e).value.status == if StatusSetBy(e).Some? then StatusSetBy(e).value else run.status
  {
  }

  lemma ApplyKeepsMeaning(run: WorkflowRun, next: WorkflowRun, events: seq<Event>, e: Event)
    requires IsMeaning(run, events) && Apply(run, e) == Some(next)
    ensures IsMeaning(next, events + [e])
  {
    ApplySetsPhaseAndStatus(run, e);
    LastOfLonger(events, e);
    forall key | key != "__events_seen"
      ensures HasLastWrite(next, events + [e], key)
    {
      assert HasLastWrite(run, events, key);
      ApplyKeepsLastWrite(run, events, e, key);
    }
  }

  lemma LastOfLonger(events: seq<Event>, e: Event)
    ensures LastPhase(events + [e]) == if PhaseSetBy(e).Some? then PhaseSetBy(e).value else LastPhase(events)
    ensures LastStatus(events + [e]) == if StatusSetBy(e).Some? then StatusSetBy(e).value else LastStatus(events)
  {
    assert (events + [e])[..|events|] == events;
  }

  lemma ApplyKeepsLastWrite(run: WorkflowRun, events: seq<Event>, e: Event, key: string)
    requires HasLastWrite(run, events, key) && key != "__events_seen" && Apply(run, e).Some?
    ensures HasLastWrite(Apply(run, e).value, events + [e], key)
  {
    var longer := events + [e];
    assert longer[..|longer| - 1] == events;
  }

  /** The fold of a log means: every field as the last event about it says. */
  lemma {:induction false} FoldMeansLastWrites(events: seq<Event>, now: real)
    requires Numbered(events) && Fold(Blank(now), events).Some?
    ensures IsMeaning(Fold(Blank(now), events).value, events)
    ensures Fold(Blank(now), events).value.sequence == |events|
    decreases |events|
  {
    if events != [] {
      var before, last := events[..|events| - 1], events[|events| - 1];
      assert events == before + [last];
      FoldPrefix(Blank(now), events, |before|);
      FoldOfLonger(before, last, now);
      FoldMeansLastWrites(before, now);
      ApplyKeepsMeaning(Fold(Blank(now), before).value, Fold(Blank(now), events).value, before, last);
    }
  }

  ghost function SeenIn(run: WorkflowRun): Option<Value>
  {
    if "__events_seen" in run.stateData then Some(run.stateData["__events_seen"]) else None
  }

  ghost predicate Lists(run: WorkflowRun, events: seq<Event>)
  {
    SeenIn(run) == if AllSeen(events) == [] then None else Some(List(AllSeen(events)))
  }

  lemma ApplyKeepsList(run: WorkflowRun, events: seq<Event>, e: Event)
    requires Lists(run, events) && LeavesAlone(e, |events|)
    ensures Apply(run, e).Some? && Lists(Apply(run, e).value, events + [e])
  {
    var longer := events + [e];
    assert longer[..|longer| - 1] == events && longer[|longer| - 1] == e;
    if e.eventType.WorkflowStarted? {
      assert events == [];
      assert LastWrite([e], "__events_seen").None?;
    } else if IsRecorded(e) {
      assert AllSeen(longer) == AllSeen(events) + [Seen(e)];
      assert [] + [Seen(e)] == [Seen(e)];
    } else {
      assert AllSeen(longer) == AllSeen(events);
    }
  }

  /** Unless some event writes that key itself, the fold succeeds and lists exactly the recorded events, in order. */
  lemma {:induction false} FoldListsRecordedEvents(events: seq<Event>, now: real)
    requires Numbered(events) && LeavesHistoryAlone(events)
    ensures Fold(Blank(now), events).Some? && Lists(Fold(Blank(now), events).value, events)
    decreases |events|
  {
    if events != [] {
      var n := |events| - 1;
      var before, last := events[..n], events[n];
      assert events == before + [last];
      forall i | 0 <= i < n
        ensures LeavesAlone(before[i], i)
      {
        assert LeavesAlone(events[i], i);
      }
      FoldListsRecordedEvents(before, now);
      assert LeavesAlone(last, n);
      ApplyKeepsList(Fold(Blank(now), before).value, before, last);
      FoldOfLonger(before, last, now);
    }
  }
}
