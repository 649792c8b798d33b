/** Vector clocks: one counter per node, absent counters reading as zero. */
module VectorClocks {

  type Clock = map<string, int>

  datatype Order = Equal | Before | After | Concurrent

  function At(c: Clock, node: string): int
  {
    if node in c then c[node] else 0
  }

  function Max(a: int, b: int): int
  {
    if a < b then b else a
  }

  function Ticked(c: Clock, node: string): Clock
    requires node in c
  {
    c[node := c[node] + 1]
  }

  /** Component-wise maximum; a counter that only `other` has is compared with zero. */
  function Joined(c: Clock, other: Clock): Clock
  {
    map node | node in c.Keys + other.Keys :: if node in other then Max(At(c, node), other[node]) else c[node]
  }

  function Merged(c: Clock, other: Clock, node: string): Clock
    requires node in c
  {
    Ticked(Joined(c, other), node)
  }

  ghost predicate Leq(a: Clock, b: Clock)
  {
    forall node: string :: At(a, node) <= At(b, node)
  }

  ghost function Compared(a: Clock, b: Clock): Order
  {
    if Leq(a, b) then (if Leq(b, a) then Equal else Before) else if Leq(b, a) then After else Concurrent
  }

  class VectorClock {
    const nodeId: string
    var clock: Clock

    ghost predicate Valid()
      reads this
    {
      nodeId in clock
    }

    constructor (nodeId: string)
      requires nodeId != ""
      ensures Valid() && this.nodeId == nodeId && clock == map[nodeId := 0]
    {
      this.nodeId := nodeId;
      clock := map[nodeId := 0];
    }

    method Tick() returns (snapshot: Clock)
      requires Valid()
      modifies this
      ensures Valid() && clock == Ticked(old(clock), nodeId) && snapshot == clock
    {
      clock := clock[nodeId := clock[nodeId] + 1];
      snapshot := clock;
    }

    method Merge(other: Clock) returns (snapshot: Clock)
      requires Valid()
      modifies this
      ensures Valid() && clock == Merged(old(clock), other, nodeId) && snapshot == clock
    {
      var rest := other.Keys;
      while rest != {}
        invariant Valid() && rest <= other.Keys
        invariant clock == Joined(old(clock), map node | node in other && node !in rest :: other[node])
      {
        var node :| node in rest;
        clock := clock[node := Max(At(clock, node), other[node])];
        rest := rest - {node};
      }
      assert other == map node | node in other && node !in rest :: other[node];
      clock := clock[nodeId := clock[nodeId] + 1];
      snapshot := clock;
    }

    /** Decides the component-wise order by looking only at the counters that occur. */
    static method Compare(a: Clock, b: Clock) returns (r: Order)
      ensures r == Compared(a, b)
    {
      var keys := a.Keys + b.Keys;
      var rest := keys;
      var aLess, bLess := false, false;
      while rest != {}
        invariant rest <= keys
        invariant aLess <==> exists node :: node in keys - rest && At(a, node) < At(b, node)
        invariant bLess <==> exists node :: node in keys - rest && At(b, node) < At(a, node)
      {
        var node :| node in rest;
        ghost var done := keys - rest;
        assert keys - (rest - {node}) == done + {node};
        if At(a, node) < At(b, node) {
          aLess := true;
        } else if At(b, node) < At(a, node) {
          bLess := true;
        }
        rest := rest - {node};
      }
      assert keys - rest == keys;
      assert bLess <==> !Leq(a, b);
      assert aLess <==> !Leq(b, a);
      r := if !aLess && !bLess then Equal
           else if aLess && !bLess then Before
           else if bLess && !aLess then After
           else Concurrent;
    }
  }
}

/** Runs of several causal event logs that exchange the clocks of their events. */
module CausalRuns {
  import opened VectorClocks

  /** `from` is the number of an earlier event whose clock snapshot arrives. */
  datatype Step = Local(node: string) | Receive(node: string, from: nat)

  /** One log per node name; every received clock is the snapshot of an earlier event. */
  ghost predicate IsRun(run: seq<Step>)
  {
    forall j :: 0 <= j < |run| && run[j].Receive? ==> run[j].from < j
  }

  /** The number of the latest event of `node` before event `j`, or -1. */
  ghost function Latest(run: seq<Step>, node: string, j: nat): (p: int)
    requires j <= |run|
    ensures -1 <= p < j
    ensures p >= 0 ==> run[p].node == node
    ensures forall i :: p < i < j ==> run[i].node != node
  {
    if j == 0 then -1 else if run[j - 1].node == node then j - 1 else Latest(run, node, j - 1)
  }

  /** The clock of the log `node` when the first `j` events have happened. */
  ghost function LogClock(run: seq<Step>, node: string, j: nat): (c: Clock)
    requires IsRun(run) && j <= |run|
    ensures node in c
    decreases j, 1
  {
    var p := Latest(run, node, j);
    if p < 0 then map[node := 0] else EventClock(run, p)
  }

  ghost function EventClock(run: seq<Step>, j: nat): (c: Clock)
    requires IsRun(run) && j < |run|
    ensures run[j].node in c
    decreases j, 2
  {
    var before := LogClock(run, run[j].node, j);
    match run[j]
    case Local(node) => Ticked(before, node)
    case Receive(node, from) => Merged(before, EventClock(run, from), node)
  }

  /** Program order of one log, or the edge of one message. */
  ghost predicate Direct(run: seq<Step>, i: nat, j: nat)
  {
    i < j < |run| && (run[i].node == run[j].node || (run[j].Receive? && run[j].from == i))
  }

  /** The transitive closure of `Direct`. */
  ghost predicate HappensBefore(run: seq<Step>, i: nat, j: nat)
    decreases j
  {
    i < j < |run| && (Direct(run, i, j) || exists k: nat | k < j :: HappensBefore(run, i, k) && Direct(run, k, j))
  }

  lemma {:induction false} HappensBeforeIsTransitive(run: seq<Step>, i: nat, j: nat, k: nat)
    requires HappensBefore(run, i, j) && HappensBefore(run, j, k)
    ensures HappensBefore(run, i, k)
    decreases k
  {
    if !Direct(run, j, k) {
      var m: nat :| m < k && HappensBefore(run, j, m) && Direct(run, m, k);
      HappensBeforeIsTransitive(run, i, j, m);
    }
  }

  /** How many of the first `j` events belong to `node`. */
  ghost function Count(run: seq<Step>, node: string, j: nat): nat
    requires j <= |run|
  {
    if j == 0 then 0 else Count(run, node, j - 1) + (if run[j - 1].node == node then 1 else 0)
  }

  lemma CountMonotone(run: seq<Step>, node: string, i: nat, j: nat)
    requires i <= j <= |run|
    ensures Count(run, node, i) <= Count(run, node, j)
    decreases j
  {
    if i < j {
      CountMonotone(run, node, i, j - 1);
    }
  }

  lemma CountBetween(run: seq<Step>, node: string, p: int, j: nat)
    requires -1 <= p < j <= |run|
    requires forall i :: p < i < j ==> run[i].node != node
    ensures Count(run, node, j) == Count(run, node, p + 1)
  {
    if p + 1 < j {
      CountBetween(run, node, p, j - 1);
    }
  }

  /** A counter never runs ahead of its node, and a node's own counter is exact. */
  lemma {:induction false} ClockCounts(run: seq<Step>, j: nat, node: string)
    requires IsRun(run) && j < |run|
    ensures 0 <= At(EventClock(run, j), node) <= Count(run, node, j + 1)
    ensures node == run[j].node ==> At(EventClock(run, j), node) == Count(run, node, j + 1)
    decreases j
  {
    var own := run[j].node;
    var p := Latest(run, own, j);
    if p >= 0 {
      ClockCounts(run, p, node);
      CountMonotone(run, node, p + 1, j);
    }
    if own == node {
      CountBetween(run, own, p, j);
    }
    if run[j].Receive? {
      ClockCounts(run, run[j].from, node);
      CountMonotone(run, node, run[j].from + 1, j);
    }
  }

  ghost predicate Knows(run: seq<Step>, j: nat, i: nat)
    requires IsRun(run) && i < |run| && j < |run|
  {
    At(EventClock(run, j), run[i].node) >= At(EventClock(run, i), run[i].node)
  }

  /** Event `j` has counted event `i` exactly when `i` is in the past of `j`. */
  lemma {:induction false} KnowsIffHappensBefore(run: seq<Step>, i: nat, j: nat)
    requires IsRun(run) && i < |run| && j < |run|
    ensures Knows(run, j, i) <==> i == j || HappensBefore(run, i, j)
    decreases j
  {
    var node := run[i].node;
    ClockCounts(run, i, node);
    if node == run[j].node {
      ClockCounts(run, j, node);
      if i <= j {
        CountMonotone(run, node, i + 1, j + 1);
      } else {
        CountMonotone(run, node, j + 1, i);
      }
    } else {
      var p := Latest(run, run[j].node, j);
      if p >= 0 {
        KnowsIffHappensBefore(run, i, p);
      }
      if run[j].Receive? {
        KnowsIffHappensBefore(run, i, run[j].from);
      }
      PastOfEvent(run, i, j, p);
    }
  }

  /** The past of `j` is that of its predecessor in the log and that of its message. */
  lemma PastOfEvent(run: seq<Step>, i: nat, j: nat, p: int)
    requires IsRun(run) && i < |run| && j < |run| && run[i].node != run[j].node
    requires p == Latest(run, run[j].node, j)
    ensures HappensBefore(run, i, j) <==>
            || (p >= 0 && HappensBefore(run, i, p))
            || (run[j].Receive? && (i == run[j].from || HappensBefore(run, i, run[j].from)))
  {
    if p >= 0 && HappensBefore(run, i, p) {
      assert Direct(run, p, j);
    }
    if run[j].Receive? && HappensBefore(run, i, run[j].from) {
      assert Direct(run, run[j].from, j);
    }
    if HappensBefore(run, i, j) && !Direct(run, i, j) {
      var k: nat :| k < j && HappensBefore(run, i, k) && Direct(run, k, j);
      if run[k].node == run[j].node && k != p {
        assert Direct(run, k, p);
      }
    }
  }

  lemma {:induction false} HappensBeforeRaisesClock(run: seq<Step>, i: nat, j: nat)
    requires IsRun(run) && HappensBefore(run, i, j)
    ensures Leq(EventClock(run, i), EventClock(run, j))
    decreases j
  {
    if Direct(run, i, j) {
      DirectRaisesClock(run, i, j);
    } else {
      var k: nat :| k < j && HappensBefore(run, i, k) && Direct(run, k, j);
      HappensBeforeRaisesClock(run, i, k);
      DirectRaisesClock(run, k, j);
    }
  }

  lemma {:induction false} DirectRaisesClock(run: seq<Step>, i: nat, j: nat)
    requires IsRun(run) && Direct(run, i, j)
    ensures Leq(EventClock(run, i), EventClock(run, j))
    decreases j
  {
    var p := Latest(run, run[j].node, j);
    forall node: string
      ensures At(EventClock(run, i), node) <= At(EventClock(run, j), node)
    {
      if p >= 0 {
        ClockCounts(run, p, node);
      }
      if run[i].node == run[j].node && i != p {
        DirectRaisesClock(run, i, p);
      }
    }
  }

  /**
   * The vector clock characterises causality: comparing the clocks of two events answers "before"
   * exactly when the first happens before the second, "after" exactly when the second happens
   * before the first, "equal" only for the same event, and "concurrent" in every other case.
   */
  lemma ClocksDecideCausality(run: seq<Step>, i: nat, j: nat)
    requires IsRun(run) && i < |run| && j < |run|
    ensures var r := Compared(EventClock(run, i), EventClock(run, j));
            && (r == Before <==> HappensBefore(run, i, j))
            && (r == After <==> HappensBefore(run, j, i))
            && (r == Equal <==> i == j)
            && (r == Concurrent <==> i != j && !HappensBefore(run, i, j) && !HappensBefore(run, j, i))
  {
    LeqIffPast(run, i, j);
    LeqIffPast(run, j, i);
  }

  lemma LeqIffPast(run: seq<Step>, i: nat, j: nat)
    requires IsRun(run) && i < |run| && j < |run|
    ensures Leq(EventClock(run, i), EventClock(run, j)) <==> i == j || HappensBefore(run, i, j)
  {
    KnowsIffHappensBefore(run, i, j);
    if HappensBefore(run, i, j) {
      HappensBeforeRaisesClock(run, i, j);
    }
  }
}
