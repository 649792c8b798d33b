/** One node's append-only event log, and the linear order it derives from its vector clocks. */
module CausalEventLogs {
  import opened Options
  import opened VectorClocks
  import opened StableSorting

  datatype CausalEvent = CausalEvent(number: nat, nodeId: string, payload: map<string, string>, clock: Clock)

  /** The sum of the counters of the nodes in `nodes`. */
  ghost function SumOver(c: Clock, nodes: set<string>): int
    requires nodes <= c.Keys
  {
    if nodes == {} then 0 else
      var node :| node in nodes;
      c[node] + SumOver(c, nodes - {node})
  }

  ghost function ClockSum(c: Clock): int
  {
    SumOver(c, c.Keys)
  }

  ghost function ClockSumOf(e: CausalEvent): int
  {
    ClockSum(e.clock)
  }

  /** The sums rise from event to event and have not passed the clock's. */
  ghost predicate InTickOrder(events: seq<CausalEvent>, clock: Clock)
  {
    && (forall i, j :: 0 <= i < j < |events| ==> ClockSumOf(events[i]) < ClockSumOf(events[j]))
    && (forall i :: 0 <= i < |events| ==> ClockSumOf(events[i]) <= ClockSum(clock))
  }

  class CausalEventLog {
    const nodeId: string
    const clock: VectorClock
    var events: seq<CausalEvent>
    var counter: nat

    ghost predicate Valid()
      reads this, clock
    {
      nodeId != "" && clock.nodeId == nodeId && clock.Valid() && InTickOrder(events, clock.clock)
    }

    constructor (nodeId: string)
      requires nodeId != ""
      ensures Valid() && fresh(clock)
      ensures this.nodeId == nodeId && events == [] && counter == 0 && clock.clock == map[nodeId := 0]
    {
      this.nodeId := nodeId;
      clock := new VectorClock(nodeId);
      events := [];
      counter := 0;
    }

    method AppendLocal(payload: map<string, string>) returns (event: CausalEvent)
      requires Valid()
      modifies this, clock
      ensures Valid()
      ensures clock.clock == Ticked(old(clock.clock), nodeId)
      ensures event == CausalEvent(old(counter) + 1, nodeId, payload, clock.clock)
      ensures events == old(events) + [event] && counter == old(counter) + 1
    {
      TickRaisesSum(clock.clock, map[], nodeId);
      var snapshot := clock.Tick();
      counter := counter + 1;
      event := CausalEvent(counter, nodeId, payload, snapshot);
      events := events + [event];
    }

    /** The event carries the remote name. An empty remote name is refused, but only after the tick. */
    method ReceiveRemote(remoteClock: Clock, payload: map<string, string>, remoteNodeId: string)
      returns (event: Option<CausalEvent>)
      requires Valid()
      modifies this, clock
      ensures Valid()
      ensures clock.clock == Merged(old(clock.clock), remoteClock, nodeId) && counter == old(counter) + 1
      ensures remoteNodeId == "" ==> event == None && events == old(events)
      ensures remoteNodeId != "" ==>
                && event == Some(CausalEvent(counter, remoteNodeId, payload, clock.clock))
                && events == old(events) + [event.value]
    {
      TickRaisesSum(clock.clock, remoteClock, nodeId);
      var snapshot := clock.Merge(remoteClock);
      counter := counter + 1;
      if remoteNodeId == "" {
        return None;
      }
      event := Some(CausalEvent(counter, remoteNodeId, payload, snapshot));
      events := events + [event.value];
    }

    /** Without concurrent callers the events are appended in causal order already. */
    ghost function CausalOrder(): (ordered: seq<CausalEvent>)
      requires Valid()
      reads this, clock
      ensures ordered == events
    {
      SortOfSorted(events, ClockSumOf);
      StableSort(events, ClockSumOf)
    }
  }

  lemma {:induction false} SumWithout(c: Clock, nodes: set<string>, node: string)
    requires node in nodes && nodes <= c.Keys
    ensures SumOver(c, nodes) == c[node] + SumOver(c, nodes - {node})
    decreases |nodes|
  {
    var first :| first in nodes && SumOver(c, nodes) == c[first] + SumOver(c, nodes - {first});
    if first != node {
      SumWithout(c, nodes - {first}, node);
      SumWithout(c, nodes - {node}, first);
      assert nodes - {first} - {node} == nodes - {node} - {first};
    }
  }

  lemma {:induction false} SumIsMonotone(c: Clock, d: Clock, nodes: set<string>)
    requires nodes <= c.Keys && nodes <= d.Keys
    requires forall node :: node in nodes ==> c[node] <= d[node]
    ensures SumOver(c, nodes) <= SumOver(d, nodes)
    decreases |nodes|
  {
    if nodes != {} {
      var node :| node in nodes;
      SumWithout(c, nodes, node);
      SumWithout(d, nodes, node);
      SumIsMonotone(c, d, nodes - {node});
    }
  }

  lemma {:induction false} SumGrowsWithNodes(c: Clock, few: set<string>, many: set<string>)
    requires few <= many <= c.Keys
    requires forall node :: node in many - few ==> 0 <= c[node]
    ensures SumOver(c, few) <= SumOver(c, many)
    decreases |many|
  {
    if many <= few {
      assert few == many;
    } else {
      var node :| node in many && node !in few;
      SumWithout(c, many, node);
      SumGrowsWithNodes(c, few, many - {node});
    }
  }

  /** A tick raises the sum of the counters, whatever clock was merged before it. */
  lemma TickRaisesSum(c: Clock, remote: Clock, node: string)
    requires node in c
    ensures ClockSum(c) < ClockSum(Ticked(c, node))
    ensures ClockSum(c) < ClockSum(Merged(c, remote, node))
  {
    SumAfterTick(c, node);
    var joined := Joined(c, remote);
    SumIsMonotone(c, joined, c.Keys);
    SumGrowsWithNodes(joined, c.Keys, joined.Keys);
    SumAfterTick(joined, node);
  }

  lemma SumAfterTick(c: Clock, node: string)
    requires node in c
    ensures ClockSum(Ticked(c, node)) == ClockSum(c) + 1
  {
    var d := Ticked(c, node);
    assert d.Keys == c.Keys;
    SumWithout(c, c.Keys, node);
    SumWithout(d, c.Keys, node);
    SumIsMonotone(c, d, c.Keys - {node});
    SumIsMonotone(d, c, c.Keys - {node});
  }

  /**
   * Threads share one log. A thread ticks the clock in one step and appends its event in a later one, so
   * events may be appended out of tick order; event `i` is the one that took the `i`-th snapshot.
   */
  datatype SharedLog = SharedLog(clock: Clock, snapshots: seq<Clock>, pending: set<nat>, appended: seq<nat>)

  datatype ThreadStep = TickLocal | TickRemote(remote: Clock) | AppendEvent(event: nat) | RefuseEvent(event: nat)

  ghost predicate Starts(s: SharedLog, node: string)
  {
    s == SharedLog(map[node := 0], [], {}, [])
  }

  ghost predicate Next(s: SharedLog, node: string, step: ThreadStep, t: SharedLog)
  {
    match step
    case TickLocal => node in s.clock && TicksTo(s, Ticked(s.clock, node), t)
    case TickRemote(remote) => node in s.clock && TicksTo(s, Merged(s.clock, remote, node), t)
    case AppendEvent(event) =>
      event in s.pending && t == s.(pending := s.pending - {event}, appended := s.appended + [event])
    case RefuseEvent(event) => event in s.pending && t == s.(pending := s.pending - {event})
  }

  ghost predicate TicksTo(s: SharedLog, clock: Clock, t: SharedLog)
  {
    t == s.(clock := clock, snapshots := s.snapshots + [clock], pending := s.pending + {|s.snapshots|})
  }

  /** Every step of a thread can happen at any time. */
  lemma ThreadStepsHappen(s: SharedLog, node: string, remote: Clock, event: nat)
    ensures node in s.clock ==>
              var ticked := s.clock[node := s.clock[node] + 1];
              Next(
                s, node, TickLocal,
                SharedLog(ticked, s.snapshots + [ticked], s.pending + {|s.snapshots|}, s.appended))
    ensures node in s.clock ==>
              var merged := Merged(s.clock, remote, node);
              Next(
                s, node, TickRemote(remote),
                SharedLog(merged, s.snapshots + [merged], s.pending + {|s.snapshots|}, s.appended))
    ensures event in s.pending ==>
              && Next(
                   s, node, AppendEvent(event),
                   SharedLog(s.clock, s.snapshots, s.pending - {event}, s.appended + [event]))
              && Next(s, node, RefuseEvent(event), SharedLog(s.clock, s.snapshots, s.pending - {event}, s.appended))
  {
  }

  ghost predicate IsExecution(states: seq<SharedLog>, steps: seq<ThreadStep>, node: string)
  {
    && |states| == |steps| + 1
    && Starts(states[0], node)
    && forall k :: 0 <= k < |steps| ==> Next(states[k], node, steps[k], states[k + 1])
  }

  ghost predicate Consistent(s: SharedLog, node: string)
  {
    && node in s.clock
    && (s.snapshots != [] ==> s.snapshots[|s.snapshots| - 1] == s.clock)
    && (forall i, j :: 0 <= i < j < |s.snapshots| ==> ClockSum(s.snapshots[i]) < ClockSum(s.snapshots[j]))
    && (forall i :: i in s.pending ==> i < |s.snapshots| && i !in s.appended)
    && (forall i :: i in s.appended ==> i < |s.snapshots|)
    && (forall a, b :: 0 <= a < b < |s.appended| ==> s.appended[a] != s.appended[b])
  }

  lemma NextKeepsConsistent(s: SharedLog, node: string, step: ThreadStep, t: SharedLog)
    requires Consistent(s, node) && Next(s, node, step, t)
    ensures Consistent(t, node)
  {
    match step
    case TickLocal => TickRaisesSum(s.clock, map[], node);
    case TickRemote(remote) => TickRaisesSum(s.clock, remote, node);
    case AppendEvent(event) =>
    case RefuseEvent(event) =>
  }

  lemma {:induction false} ExecutionIsConsistent(states: seq<SharedLog>, steps: seq<ThreadStep>, node: string, k: nat)
    requires IsExecution(states, steps, node) && k <= |steps|
    ensures Consistent(states[k], node)
  {
    if k > 0 {
      ExecutionIsConsistent(states, steps, node, k - 1);
      NextKeepsConsistent(states[k - 1], node, steps[k - 1], states[k]);
    }
  }

  /** The sort key of event `i`. */
  ghost function SumOfEvent(s: SharedLog): nat -> int
  {
    (i: nat) => if i < |s.snapshots| then ClockSum(s.snapshots[i]) else 0
  }

  /**
   * Sorting the appended events by the sum of their clocks yields all of them, each once, in the order of
   * their ticks, whatever clocks were received and however the threads interleaved.
   */
  lemma CausalOrderIsTickOrder(states: seq<SharedLog>, steps: seq<ThreadStep>, node: string, k: nat)
    requires IsExecution(states, steps, node) && k <= |steps|
    ensures var s := states[k];
            var ordered := StableSort(s.appended, SumOfEvent(s));
            && multiset(ordered) == multiset(s.appended)
            && forall a, b :: 0 <= a < b < |ordered| ==> ordered[a] < ordered[b]
  {
    ExecutionIsConsistent(states, steps, node, k);
    var s := states[k];
    var ordered := StableSort(s.appended, SumOfEvent(s));
    SortOrders(s.appended, SumOfEvent(s));
    forall a, b | 0 <= a < b < |ordered|
      ensures ordered[a] < ordered[b]
    {
      assert ordered[a] in multiset(ordered) && ordered[b] in multiset(ordered);
      assert ordered[a] in s.appended && ordered[b] in s.appended;
      if ordered[a] == ordered[b] {
        PermutationOfDistinct(ordered, s.appended, a, b);
      }
      assert SumOfEvent(s)(ordered[a]) <= SumOfEvent(s)(ordered[b]);
    }
  }

  lemma PermutationOfDistinct(ordered: seq<nat>, distinct: seq<nat>, a: nat, b: nat)
    requires multiset(ordered) == multiset(distinct)
    requires forall i, j :: 0 <= i < j < |distinct| ==> distinct[i] != distinct[j]
    requires a < b < |ordered|
    ensures ordered[a] != ordered[b]
  {
    var x := ordered[a];
    if x == ordered[b] {
      assert ordered == ordered[..b] + [ordered[b]] + ordered[b + 1..];
      assert x in ordered[..b];
      assert multiset(ordered)[x] >= 2;
      DistinctCountsOnce(distinct, x);
    }
  }

  lemma DistinctCountsOnce(distinct: seq<nat>, x: nat)
    requires forall i, j :: 0 <= i < j < |distinct| ==> distinct[i] != distinct[j]
    ensures multiset(distinct)[x] <= 1
  {
    if distinct != [] {
      assert distinct == [distinct[0]] + distinct[1..];
      DistinctCountsOnce(distinct[1..], x);
    }
  }
}
