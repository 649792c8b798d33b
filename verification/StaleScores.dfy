/** With one objective, a score under another name in the seed decides whether a rollback can happen. */
module StaleScores {
  import opened Options
  import opened EvolutionLoops
  import opened EvolutionRuns

  /** The step after state `t` of the run is rolled back. */
  ghost predicate RollsBackAt(
    ev: Evaluator, size: nat, tolerance: real, states: seq<State>, draws: nat -> nat -> Draw, t: nat)
  {
    && t < |states|
    && AllScored(ev.objectives, states[t].population) && Front(ev.objectives, states[t].population) != []
    && Regressed(states[t].best, tolerance, Candidate(ev, states[t].population, size, draws(t)))
  }

  /** A run that starts with the first population grown from `seed`. */
  ghost predicate IsSeededRun(
    ev: Evaluator, objective: string, seed: Genome, size: nat, tolerance: real,
    start: nat -> Draw, states: seq<State>, draws: nat -> nat -> Draw)
    requires size >= 1
  {
    && ev.objectives == {objective} && IsRun(ev, size, tolerance, states, draws)
    && states[0].population == Initial(ev, seed, start, size)
  }

  /** Some objective function and some draws lead from the seed to a rollback. */
  ghost predicate CanRollBack(objective: string, seed: Genome, size: nat, tolerance: real)
    requires size >= 1
  {
    exists ev: Evaluator, start: nat -> Draw, states: seq<State>, draws: nat -> nat -> Draw, t: nat ::
      && IsSeededRun(ev, objective, seed, size, tolerance, start, states, draws)
      && RollsBackAt(ev, size, tolerance, states, draws, t)
  }

  /** With one objective a rollback is possible exactly if the seed carries a score under another name. */
  lemma SeedDecidesRollback(objective: string, seed: Genome, size: nat, tolerance: real)
    requires size >= 2 && tolerance >= 0.0
    ensures CanRollBack(objective, seed, size, tolerance) <==> !(seed.fitness.Keys <= {objective})
  {
    if seed.fitness.Keys <= {objective} {
      forall ev: Evaluator, start: nat -> Draw, states: seq<State>, draws: nat -> nat -> Draw, t: nat |
        IsSeededRun(ev, objective, seed, size, tolerance, start, states, draws)
        ensures !RollsBackAt(ev, size, tolerance, states, draws, t)
      {
        if t < |states| {
          InitialIsCleanIff(ev, seed, start, size);
          SingleObjectiveNeverRollsBack(ev, size, tolerance, states, draws, t, objective);
        }
      }
    } else {
      var name :| name in seed.fitness && name != objective;
      var states := StaleSeedRollsBack(objective, seed, size, tolerance, name);
    }
  }

  // A run from a seed with a stale score. The objective reads the parameter "x": the first population's mutants
  // score less than the seed, the first step's children score more, and the second step drops the seed.

  function ReadX(parameters: Parameters): real
  {
    if "x" in parameters then parameters["x"] else 0.0
  }

  function Reader(objective: string): Evaluator
  {
    Evaluator({objective}, (name, parameters) => ReadX(parameters))
  }

  function Always(x: real): nat -> Draw
  {
    i => Draw(0, map["x" := x], "mutant")
  }

  lemma ChildrenScore(objective: string, front: seq<Genome>, x: real, n: nat)
    requires front != []
    ensures forall g :: g in Children(Reader(objective), front, Always(x), n) ==> g.fitness == map[objective := x]
  {
  }

  lemma {:induction false} DominatedShrinksFront(objectives: set<string>, population: seq<Genome>, n: nat, i: nat)
    requires AllScored(objectives, population) && i < n <= |population| && Dominated(objectives, population, i)
    ensures |FrontUpTo(objectives, population, n)| < n
  {
    if i < n - 1 {
      DominatedShrinksFront(objectives, population, n - 1, i);
    } else {
      FrontIsSmaller(objectives, population, n - 1);
    }
  }

  /** The seed, evaluated, and otherwise genomes with the objective's score alone. */
  ghost predicate IsSeedAnd(first: Genome, objective: string, x: real, population: seq<Genome>)
  {
    forall g :: g in population ==> g == first || g.fitness == map[objective := x]
  }

  lemma SeedAndIsScored(first: Genome, objective: string, x: real, population: seq<Genome>)
    requires Evaluated({objective}, first) && IsSeedAnd(first, objective, x, population)
    ensures AllScored({objective}, population)
  {
    forall i | 0 <= i < |population|
      ensures Scored({objective}, population[i])
    {
      assert population[i] in population;
    }
  }

  lemma BetterDominates(objective: string, a: Genome, b: Genome)
    requires Evaluated({objective}, a) && Evaluated({objective}, b)
    ensures Dominates({objective}, a, b) <==> a.fitness[objective] > b.fitness[objective]
  {
    assert objective in {objective};
  }

  /** A leader at the head, and only weaker genomes behind it: it is in the front, which has room left. */
  lemma LeaderInFront(first: Genome, objective: string, x: real, population: seq<Genome>)
    requires Evaluated({objective}, first) && first.fitness[objective] > x
    requires |population| >= 2 && population[0] == first && IsSeedAnd(first, objective, x, population[1..])
    requires population[1].fitness == map[objective := x] && AllScored({objective}, population)
    ensures first in Front({objective}, population) && |Front({objective}, population)| < |population|
  {
    forall j | 0 < j < |population|
      ensures !Dominates({objective}, population[j], first)
    {
      assert population[j] == population[1..][j - 1];
      assert population[1..][j - 1] in population[1..];
      BetterDominates(objective, population[j], first);
    }
    BetterDominates(objective, first, population[1]);
    assert Dominated({objective}, population, 1);
    InFront({objective}, population, 0, |population|);
    DominatedShrinksFront({objective}, population, |population|, 1);
  }

  /** A population in which some genome beats the leader has none of the leader's copies in its front. */
  lemma OvertakenLeavesFront(first: Genome, objective: string, population: seq<Genome>, j: nat)
    requires Evaluated({objective}, first) && AllScored({objective}, population) && j < |population|
    requires Evaluated({objective}, population[j]) && population[j].fitness[objective] > first.fitness[objective]
    ensures first !in Front({objective}, population)
  {
    if first in Front({objective}, population) {
      FrontMember({objective}, population, |population|, first);
      var i :| 0 <= i < |population| && population[i] == first && !Dominated({objective}, population, i);
      BetterDominates(objective, population[j], population[i]);
    }
  }

  lemma FirstScores(objective: string, seed: Genome, first: Genome)
    requires first == Evaluate(Reader(objective), seed)
    ensures Evaluated({objective}, first) && first.fitness[objective] == ReadX(seed.parameters)
    ensures seed.fitness.Keys <= first.fitness.Keys
  {
  }

  lemma SeedLeads(objective: string, seed: Genome, first: Genome, x: real, size: nat) returns (population: seq<Genome>)
    requires size >= 2 && first == Evaluate(Reader(objective), seed)
    requires Evaluated({objective}, first) && first.fitness[objective] == x
    ensures population == Initial(Reader(objective), seed, Always(x - 1.0), size) && population != []
    ensures AllScored({objective}, population) && IsSeedAnd(first, objective, x - 1.0, population)
    ensures first in Front({objective}, population) && |Front({objective}, population)| < size
  {
    var rest := Children(Reader(objective), [seed], Always(x - 1.0), size - 1);
    population := [first] + rest;
    ChildrenScore(objective, [seed], x - 1.0, size - 1);
    assert population[1] == rest[0] && rest[0] in rest && population[1..] == rest;
    SeedAndIsScored(first, objective, x - 1.0, population);
    LeaderInFront(first, objective, x - 1.0, population);
  }

  /** Better children join the front: the leader stays in the population, but leaves its front. */
  lemma ChildrenOvertake(
    first: Genome, objective: string, low: real, high: real, front: seq<Genome>, children: seq<Genome>)
    requires Evaluated({objective}, first) && IsSeedAnd(first, objective, low, front) && first in front
    requires children != [] && forall g :: g in children ==> g.fitness == map[objective := high]
    requires high > first.fitness[objective]
    ensures AllScored({objective}, front + children) && first in front + children
    ensures forall g :: g in Front({objective}, front + children) ==> Clean({objective}, g)
  {
    var next := front + children;
    assert forall g :: g in next ==> g == first || Clean({objective}, g);
    assert forall i :: 0 <= i < |next| ==> next[i] in next;
    assert AllScored({objective}, next);
    assert next[|front|] == children[0] && children[0] in children;
    OvertakenLeavesFront(first, objective, next, |front|);
    FrontIsSmaller({objective}, next, |next|);
  }

  /** The next population still holds the leader, but its front does not. */
  lemma LeaderIsOvertaken(objective: string, first: Genome, x: real, size: nat, population: seq<Genome>)
    returns (next: seq<Genome>)
    requires AllScored({objective}, population) && Evaluated({objective}, first) && first.fitness[objective] == x
    requires IsSeedAnd(first, objective, x - 1.0, population)
    requires first in Front({objective}, population) && |Front({objective}, population)| < size
    ensures next == Candidate(Reader(objective), population, size, Always(x + 1.0))
    ensures AllScored({objective}, next) && first in next
    ensures forall g :: g in Front({objective}, next) ==> Clean({objective}, g)
  {
    var front := Front({objective}, population);
    var children := Children(Reader(objective), front, Always(x + 1.0), Missing(front, size));
    ChildrenScore(objective, front, x + 1.0, Missing(front, size));
    FrontIsSmaller({objective}, population, |population|);
    ChildrenOvertake(first, objective, x - 1.0, x + 1.0, front, children);
    next := front + children;
  }

  /** The first step is accepted whatever it yields. */
  lemma RunOfOneStep(
    ev: Evaluator, size: nat, tolerance: real, population: seq<Genome>, draws: nat -> nat -> Draw)
    returns (states: seq<State>)
    requires ev.objectives != {} && tolerance >= 0.0 && population != [] && AllScored(ev.objectives, population)
    ensures Front(ev.objectives, population) != []
    ensures var next := Candidate(ev, population, size, draws(0));
            states == [State(population, map[]), State(next, Baseline(map[], next))]
    ensures IsRun(ev, size, tolerance, states, draws)
  {
    FrontIsNotEmpty(ev.objectives, population);
    var next := Candidate(ev, population, size, draws(0));
    states := [State(population, map[]), State(next, Baseline(map[], next))];
    assert StepAt(ev, size, tolerance, states, draws, 1);
  }

  lemma SecondStepRollsBack(
    ev: Evaluator, size: nat, tolerance: real, population: seq<Genome>, next: seq<Genome>,
    draws: nat -> nat -> Draw, first: Genome, name: string)
    returns (states: seq<State>)
    requires ev.objectives != {} && tolerance >= 0.0 && population != [] && AllScored(ev.objectives, population)
    requires Front(ev.objectives, population) != [] && next == Candidate(ev, population, size, draws(0))
    requires AllScored(ev.objectives, next) && first in next && name in first.fitness && name !in ev.objectives
    requires forall g :: g in Front(ev.objectives, next) ==> Clean(ev.objectives, g)
    ensures IsRun(ev, size, tolerance, states, draws) && states[0].population == population
    ensures RollsBackAt(ev, size, tolerance, states, draws, 1)
  {
    states := RunOfOneStep(ev, size, tolerance, population, draws);
    BaselineHasName(map[], next, first, name);
    FrontIsNotEmpty(ev.objectives, next);
    NoneMeetsStaleName(ev, size, tolerance, states, draws, 1, name);
  }

  lemma StaleSeedRollsBack(objective: string, seed: Genome, size: nat, tolerance: real, name: string)
    returns (states: seq<State>)
    requires size >= 2 && tolerance >= 0.0 && name in seed.fitness && name != objective
    ensures CanRollBack(objective, seed, size, tolerance)
  {
    var ev := Reader(objective);
    var first, x := Evaluate(ev, seed), ReadX(seed.parameters);
    var start, draws := Always(x - 1.0), (t: nat) => Always(x + 1.0);
    FirstScores(objective, seed, first);
    var population := SeedLeads(objective, seed, first, x, size);
    var next := LeaderIsOvertaken(objective, first, x, size, population);
    states := SecondStepRollsBack(ev, size, tolerance, population, next, draws, first, name);
    ThenItCanRollBack(ev, objective, seed, size, tolerance, start, states, draws, 1);
  }

  lemma ThenItCanRollBack(
    ev: Evaluator, objective: string, seed: Genome, size: nat, tolerance: real,
    start: nat -> Draw, states: seq<State>, draws: nat -> nat -> Draw, t: nat)
    requires size >= 1 && IsSeededRun(ev, objective, seed, size, tolerance, start, states, draws)
    requires RollsBackAt(ev, size, tolerance, states, draws, t)
    ensures CanRollBack(objective, seed, size, tolerance)
  {
  }

  /** When the front is clean, so is the candidate, and it misses any other name in the baseline. */
  lemma NoneMeetsStaleName(
    ev: Evaluator, size: nat, tolerance: real, states: seq<State>, draws: nat -> nat -> Draw, t: nat, name: string)
    requires t < |states| && AllScored(ev.objectives, states[t].population)
    requires Front(ev.objectives, states[t].population) != []
    requires forall g :: g in Front(ev.objectives, states[t].population) ==> Clean(ev.objectives, g)
    requires name in states[t].best && name !in ev.objectives
    ensures RollsBackAt(ev, size, tolerance, states, draws, t)
  {
    var front := Front(ev.objectives, states[t].population);
    var children := Children(ev, front, draws(t), Missing(front, size));
    ChildrenAreClean(ev, front, draws(t), Missing(front, size));
    var candidate := Candidate(ev, states[t].population, size, draws(t));
    forall i | 0 <= i < |candidate|
      ensures !Meets(candidate[i], states[t].best, tolerance)
    {
      assert candidate[i] in front || candidate[i] in children;
    }
  }
}
