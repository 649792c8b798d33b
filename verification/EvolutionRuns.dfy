/** Whole runs of the evolution loop: nothing is lost, and what the cage really compares with. */
module EvolutionRuns {
  import opened Options
  import opened EvolutionLoops

  /** The current population, and the baseline of the cage. */
  datatype State = State(population: seq<Genome>, best: Scores)

  /** The result of `Step` for the same population, baseline and draws. */
  ghost function After(ev: Evaluator, size: nat, tolerance: real, s: State, draws: nat -> Draw): State
    requires AllScored(ev.objectives, s.population) && Front(ev.objectives, s.population) != []
  {
    var candidate := Candidate(ev, s.population, size, draws);
    if Regressed(s.best, tolerance, candidate) then s else State(candidate, Baseline(s.best, candidate))
  }

  lemma CandidateFacts(ev: Evaluator, population: seq<Genome>, size: nat, draws: nat -> Draw)
    requires AllScored(ev.objectives, population) && population != []
    ensures Front(ev.objectives, population) != []
    ensures var candidate := Candidate(ev, population, size, draws);
            && KeepsGround(ev.objectives, population, candidate)
            && (|population| <= size ==> |candidate| == size)
            && (forall g :: g in candidate ==> g in population || Clean(ev.objectives, g))
  {
    FrontIsNotEmpty(ev.objectives, population);
    FrontIsSmaller(ev.objectives, population, |population|);
    FrontKeepsGround(ev.objectives, population);
    var front := Front(ev.objectives, population);
    ChildrenAreClean(ev, front, draws, Missing(front, size));
    KeepsGroundInLonger(ev.objectives, population, front, Candidate(ev, population, size, draws));
  }

  /** The candidate is the front in its order, then children of front members up to the population size. */
  lemma CandidateIsFrontAndChildren(ev: Evaluator, population: seq<Genome>, size: nat, draws: nat -> Draw)
    requires AllScored(ev.objectives, population) && population != []
    ensures Front(ev.objectives, population) != []
    ensures var front, candidate := Front(ev.objectives, population), Candidate(ev, population, size, draws);
            && |candidate| == (if |front| < size then size else |front|) && candidate[..|front|] == front
            && forall i :: |front| <= i < |candidate| ==>
                 var draw := draws(i - |front|);
                 IsChildOf(ev, front[draw.parent % |front|], draw, candidate[i])
  {
    FrontIsNotEmpty(ev.objectives, population);
    var front, candidate := Front(ev.objectives, population), Candidate(ev, population, size, draws);
    forall i | |front| <= i < |candidate|
      ensures var draw := draws(i - |front|); IsChildOf(ev, front[draw.parent % |front|], draw, candidate[i])
    {
      ChildrenAt(ev, front, draws, Missing(front, size), i - |front|);
    }
  }

  /** One step of a loop with a cage is one step of a run at the cage's tolerance plus twice its noise. */
  method TakeStep(loop: EvolutionLoop, population: seq<Genome>, draws: nat -> Draw) returns (next: seq<Genome>)
    requires loop.Valid() && loop.cage != null && population != [] && AllScored(loop.ev.objectives, population)
    modifies loop, loop.cage
    ensures var tolerance := loop.cage.tolerance + 2.0 * loop.cage.noiseSigma;
            Follows(
              loop.ev, loop.populationSize, tolerance,
              State(population, old(loop.cage.best)), State(next, loop.cage.best), draws)
  {
    var result := loop.Step(population, draws);
    next := result.value;
  }

  /** One step, rolled back or not, matches or beats every old genome and keeps the population size. */
  lemma StepNeverLosesGround(ev: Evaluator, size: nat, tolerance: real, s: State, draws: nat -> Draw)
    requires AllScored(ev.objectives, s.population) && s.population != []
    ensures Front(ev.objectives, s.population) != []
    ensures var t := After(ev, size, tolerance, s, draws);
            && KeepsGround(ev.objectives, s.population, t.population)
            && (|s.population| == size ==> |t.population| == size)
  {
    CandidateFacts(ev, s.population, size, draws);
    KeepsGroundIsReflexive(ev.objectives, s.population);
  }

  /** A run of steps, each fed with the result of the one before; they alone update the cage. */
  ghost predicate IsRun(ev: Evaluator, size: nat, tolerance: real, states: seq<State>, draws: nat -> nat -> Draw)
  {
    && states != [] && ev.objectives != {} && tolerance >= 0.0
    && AllScored(ev.objectives, states[0].population) && states[0].population != [] && states[0].best == map[]
    && forall t :: 0 < t < |states| ==> StepAt(ev, size, tolerance, states, draws, t)
  }

  ghost predicate StepAt(
    ev: Evaluator, size: nat, tolerance: real, states: seq<State>, draws: nat -> nat -> Draw, t: nat)
    requires 0 < t < |states|
  {
    Follows(ev, size, tolerance, states[t - 1], states[t], draws(t - 1))
  }

  ghost predicate Follows(ev: Evaluator, size: nat, tolerance: real, s: State, t: State, draws: nat -> Draw)
  {
    && AllScored(ev.objectives, s.population) && Front(ev.objectives, s.population) != []
    && t == After(ev, size, tolerance, s, draws)
  }

  lemma FollowsKeepsScored(ev: Evaluator, size: nat, tolerance: real, s: State, t: State, draws: nat -> Draw)
    requires s.population != [] && Follows(ev, size, tolerance, s, t, draws)
    ensures AllScored(ev.objectives, t.population) && t.population != []
    ensures KeepsGround(ev.objectives, s.population, t.population)
    ensures AllEvaluated(ev.objectives, s.population) ==> AllEvaluated(ev.objectives, t.population)
    ensures AllClean(ev.objectives, s.population) ==> AllClean(ev.objectives, t.population)
  {
    CandidateFacts(ev, s.population, size, draws);
    StepNeverLosesGround(ev, size, tolerance, s, draws);
    forall i | 0 <= i < |t.population|
      ensures Scored(ev.objectives, t.population[i])
    {
      assert t.population[i] in t.population;
    }
  }

  /** Over any run every genome stays matched or beaten, so no objective's best value ever falls. */
  lemma {:induction false} RunNeverLosesGround(
    ev: Evaluator, size: nat, tolerance: real, states: seq<State>, draws: nat -> nat -> Draw, s: nat, t: nat)
    requires IsRun(ev, size, tolerance, states, draws) && s <= t < |states|
    ensures KeepsGround(ev.objectives, states[s].population, states[t].population)
    decreases t
  {
    if s == t {
      KeepsGroundIsReflexive(ev.objectives, states[s].population);
    } else {
      RunNeverLosesGround(ev, size, tolerance, states, draws, s, t - 1);
      RunIsScored(ev, size, tolerance, states, draws, t - 1);
      assert StepAt(ev, size, tolerance, states, draws, t);
      FollowsKeepsScored(ev, size, tolerance, states[t - 1], states[t], draws(t - 1));
      KeepsGroundIsTransitive(ev.objectives, states[s].population, states[t - 1].population, states[t].population);
    }
  }

  /** A run keeps its populations scored, and evaluated or clean if the first one was. */
  lemma {:induction false} RunIsScored(
    ev: Evaluator, size: nat, tolerance: real, states: seq<State>, draws: nat -> nat -> Draw, t: nat)
    requires IsRun(ev, size, tolerance, states, draws) && t < |states|
    ensures AllScored(ev.objectives, states[t].population) && states[t].population != []
    ensures AllEvaluated(ev.objectives, states[0].population) ==> AllEvaluated(ev.objectives, states[t].population)
    ensures AllClean(ev.objectives, states[0].population) ==> AllClean(ev.objectives, states[t].population)
  {
    if t > 0 {
      RunIsScored(ev, size, tolerance, states, draws, t - 1);
      assert StepAt(ev, size, tolerance, states, draws, t);
      FollowsKeepsScored(ev, size, tolerance, states[t - 1], states[t], draws(t - 1));
    }
  }

  lemma {:induction false} RunKeepsSize(
    ev: Evaluator, size: nat, tolerance: real, states: seq<State>, draws: nat -> nat -> Draw, t: nat)
    requires IsRun(ev, size, tolerance, states, draws) && t < |states| && |states[0].population| == size
    ensures |states[t].population| == size
  {
    if t > 0 {
      RunKeepsSize(ev, size, tolerance, states, draws, t - 1);
      RunIsScored(ev, size, tolerance, states, draws, t - 1);
      assert StepAt(ev, size, tolerance, states, draws, t);
      StepNeverLosesGround(ev, size, tolerance, states[t - 1], draws(t - 1));
    }
  }

  // ---- what the cage really compares with --------------------------------------------------------------

  ghost predicate IsMaximumOf(v: real, k: string, population: seq<Genome>)
  {
    && (forall g :: g in population ==> Score(g, k) <= v)
    && exists g :: g in population && Score(g, k) == v
  }

  /** `best` holds, for every objective, the maximum over the population. */
  ghost predicate IsMaximum(objectives: set<string>, best: Scores, population: seq<Genome>)
  {
    objectives <= best.Keys && forall k :: k in objectives ==> IsMaximumOf(best[k], k, population)
  }

  lemma {:induction false} BaselineKeys(objectives: set<string>, best: Scores, population: seq<Genome>)
    requires forall g :: g in population ==> Evaluated(objectives, g)
    ensures best.Keys <= Baseline(best, population).Keys
    ensures population != [] ==> objectives <= Baseline(best, population).Keys
    ensures best.Keys <= objectives && (forall g :: g in population ==> Clean(objectives, g)) ==>
              Baseline(best, population).Keys <= objectives
    decreases |population|
  {
    if population != [] {
      var shorter, last := population[..|population| - 1], population[|population| - 1];
      assert Evaluated(objectives, last) && last in population && forall g :: g in shorter ==> g in population;
      BaselineKeys(objectives, best, shorter);
    }
  }

  /** The baseline has every name under which some genome is scored. */
  lemma {:induction false} BaselineHasName(best: Scores, population: seq<Genome>, g: Genome, k: string)
    requires g in population && k in g.fitness
    ensures k in Baseline(best, population)
    decreases |population|
  {
    var shorter := population[..|population| - 1];
    if g != population[|population| - 1] {
      assert g in shorter;
      BaselineHasName(best, shorter, g, k);
    }
  }

  /** On one objective the new baseline is the maximum of the old one and the population's scores. */
  lemma {:induction false} BaselineAt(objectives: set<string>, best: Scores, population: seq<Genome>, k: string)
    requires forall g :: g in population ==> Evaluated(objectives, g)
    requires k in objectives && k in Baseline(best, population)
    ensures var v := Baseline(best, population)[k];
            && (k in best ==> best[k] <= v)
            && (forall g :: g in population ==> Score(g, k) <= v)
            && ((k in best && best[k] == v) || exists g :: g in population && Score(g, k) == v)
    decreases |population|
  {
    if population != [] {
      var last := population[|population| - 1];
      var shorter := population[..|population| - 1];
      assert population == shorter + [last];
      assert Evaluated(objectives, last);
      if k in Baseline(best, shorter) {
        BaselineAt(objectives, best, shorter, k);
      } else {
        BaselineKeys(objectives, best, shorter);
        assert shorter == [];
      }
    }
  }

  /** A maximum that the old population held is held or surpassed by the new one. */
  lemma MaximumIsReached(objectives: set<string>, v: real, k: string, population: seq<Genome>, candidate: seq<Genome>)
    returns (h: Genome)
    requires k in objectives && IsMaximumOf(v, k, population) && KeepsGround(objectives, population, candidate)
    ensures h in candidate && Score(h, k) >= v
  {
    var g :| g in population && Score(g, k) == v;
    assert Matched(objectives, g, candidate);
    h :| h in candidate && AtLeast(objectives, h, g);
  }

  /** Over any run no objective's best value falls. */
  lemma BestValueNeverFalls(
    ev: Evaluator, size: nat, tolerance: real, states: seq<State>, draws: nat -> nat -> Draw,
    s: nat, t: nat, k: string, v: real, w: real)
    requires IsRun(ev, size, tolerance, states, draws) && s <= t < |states| && k in ev.objectives
    requires IsMaximumOf(v, k, states[s].population) && IsMaximumOf(w, k, states[t].population)
    ensures v <= w
  {
    RunNeverLosesGround(ev, size, tolerance, states, draws, s, t);
    var h := MaximumIsReached(ev.objectives, v, k, states[s].population, states[t].population);
  }

  lemma AcceptedBaselineIsMaximum(
    objectives: set<string>, best: Scores, population: seq<Genome>, candidate: seq<Genome>)
    requires AllEvaluated(objectives, candidate) && KeepsGround(objectives, population, candidate)
    requires forall k :: k in best && k in objectives ==> IsMaximumOf(best[k], k, population)
    ensures IsMaximum(objectives, Baseline(best, candidate), candidate)
  {
    BaselineKeys(objectives, best, candidate);
    var b := Baseline(best, candidate);
    forall k | k in objectives
      ensures IsMaximumOf(b[k], k, candidate)
    {
      AcceptedMaximumAt(objectives, best, population, candidate, k);
    }
  }

  lemma AcceptedMaximumAt(
    objectives: set<string>, best: Scores, population: seq<Genome>, candidate: seq<Genome>, k: string)
    requires AllEvaluated(objectives, candidate) && KeepsGround(objectives, population, candidate)
    requires k in best ==> IsMaximumOf(best[k], k, population)
    requires k in objectives && k in Baseline(best, candidate)
    ensures IsMaximumOf(Baseline(best, candidate)[k], k, candidate)
  {
    BaselineAt(objectives, best, candidate, k);
    if k in best {
      var h := MaximumIsReached(objectives, best[k], k, population, candidate);
    }
  }

  lemma CandidateIsEvaluated(ev: Evaluator, population: seq<Genome>, size: nat, draws: nat -> Draw)
    requires AllEvaluated(ev.objectives, population)
    ensures AllScored(ev.objectives, population) && Front(ev.objectives, population) != []
    ensures AllEvaluated(ev.objectives, Candidate(ev, population, size, draws))
    ensures KeepsGround(ev.objectives, population, Candidate(ev, population, size, draws))
  {
    EvaluatedIsScored(ev.objectives, population);
    CandidateFacts(ev, population, size, draws);
  }

  lemma FollowsKeepsMaximum(ev: Evaluator, size: nat, tolerance: real, s: State, t: State, draws: nat -> Draw)
    requires AllEvaluated(ev.objectives, s.population) && Follows(ev, size, tolerance, s, t, draws)
    requires s.best == map[] || IsMaximum(ev.objectives, s.best, s.population)
    ensures IsMaximum(ev.objectives, t.best, t.population)
  {
    CandidateIsEvaluated(ev, s.population, size, draws);
    AcceptedBaselineIsMaximum(ev.objectives, s.best, s.population, Candidate(ev, s.population, size, draws));
  }

  /** From the first step on, the baseline is the per-objective maximum of the current population. */
  lemma {:induction false} BaselineIsCurrentMaximum(
    ev: Evaluator, size: nat, tolerance: real, states: seq<State>, draws: nat -> nat -> Draw, t: nat)
    requires IsRun(ev, size, tolerance, states, draws) && t < |states|
    requires AllEvaluated(ev.objectives, states[0].population)
    ensures if t == 0 then states[t].best == map[] else IsMaximum(ev.objectives, states[t].best, states[t].population)
  {
    if t > 0 {
      BaselineIsCurrentMaximum(ev, size, tolerance, states, draws, t - 1);
      RunIsScored(ev, size, tolerance, states, draws, t - 1);
      assert StepAt(ev, size, tolerance, states, draws, t);
      FollowsKeepsMaximum(ev, size, tolerance, states[t - 1], states[t], draws(t - 1));
    }
  }

  /** The baseline of a run that began with a clean population has no other names than the objectives. */
  lemma {:induction false} CleanRunHasCleanBaseline(
    ev: Evaluator, size: nat, tolerance: real, states: seq<State>, draws: nat -> nat -> Draw, t: nat)
    requires IsRun(ev, size, tolerance, states, draws) && t < |states|
    requires AllClean(ev.objectives, states[0].population)
    ensures states[t].best.Keys <= ev.objectives
  {
    if t > 0 {
      CleanRunHasCleanBaseline(ev, size, tolerance, states, draws, t - 1);
      RunIsScored(ev, size, tolerance, states, draws, t);
      assert StepAt(ev, size, tolerance, states, draws, t);
      var s := states[t - 1];
      if states[t] != s {
        BaselineKeys(ev.objectives, s.best, states[t].population);
      }
    }
  }

  /** `h` is, up to the tolerance, at least as good as every genome of the population on every objective. */
  ghost predicate Tops(objectives: set<string>, h: Genome, population: seq<Genome>, tolerance: real)
  {
    forall k, g :: k in objectives && g in population ==> Score(h, k) >= Score(g, k) - tolerance
  }

  /** `h` also reaches what the baseline holds under names that are no objectives. */
  predicate MeetsStale(objectives: set<string>, h: Genome, best: Scores, tolerance: real)
  {
    forall k :: k in best && k !in objectives ==> k in h.fitness && h.fitness[k] >= best[k] - tolerance
  }

  lemma MeetsIffTops(objectives: set<string>, best: Scores, population: seq<Genome>, h: Genome, tolerance: real)
    requires IsMaximum(objectives, best, population) && Evaluated(objectives, h)
    ensures Meets(h, best, tolerance) <==>
            Tops(objectives, h, population, tolerance) && MeetsStale(objectives, h, best, tolerance)
  {
    forall k | k in objectives
      ensures h.fitness[k] >= best[k] - tolerance <==>
              forall g :: g in population ==> Score(h, k) >= Score(g, k) - tolerance
    {
      assert IsMaximumOf(best[k], k, population);
    }
  }

  /**
   * After the first step, the cage accepts a candidate exactly when a single genome of it is at least as good,
   * up to the tolerance, as every genome of the current population on every objective at once, and also reaches
   * the baseline under every name that is no objective.
   */
  lemma AcceptedIffOneGenomeTopsAll(
    ev: Evaluator, size: nat, tolerance: real, states: seq<State>, draws: nat -> nat -> Draw,
    t: nat, candidate: seq<Genome>)
    requires IsRun(ev, size, tolerance, states, draws) && 0 < t < |states|
    requires AllEvaluated(ev.objectives, states[0].population) && AllEvaluated(ev.objectives, candidate)
    ensures !Regressed(states[t].best, tolerance, candidate) <==>
            exists h :: h in candidate && Tops(ev.objectives, h, states[t].population, tolerance)
                        && MeetsStale(ev.objectives, h, states[t].best, tolerance)
  {
    BaselineIsCurrentMaximum(ev, size, tolerance, states, draws, t);
    var best := states[t].best;
    assert best.Keys != {};
    forall h | h in candidate
      ensures Meets(h, best, tolerance) <==>
              Tops(ev.objectives, h, states[t].population, tolerance) && MeetsStale(ev.objectives, h, best, tolerance)
    {
      MeetsIffTops(ev.objectives, best, states[t].population, h, tolerance);
    }
    assert forall i :: 0 <= i < |candidate| ==> candidate[i] in candidate;
  }

  /** In a run that began with a clean population, nothing but the objectives counts. */
  lemma CleanRunIgnoresOtherNames(
    ev: Evaluator, size: nat, tolerance: real, states: seq<State>, draws: nat -> nat -> Draw, t: nat, h: Genome)
    requires IsRun(ev, size, tolerance, states, draws) && t < |states|
    requires AllClean(ev.objectives, states[0].population)
    ensures MeetsStale(ev.objectives, h, states[t].best, tolerance)
  {
    CleanRunHasCleanBaseline(ev, size, tolerance, states, draws, t);
  }

  /** With one objective, and no score under another name in the first population, the rollback is never taken. */
  lemma SingleObjectiveNeverRollsBack(
    ev: Evaluator, size: nat, tolerance: real, states: seq<State>, draws: nat -> nat -> Draw, t: nat, objective: string)
    requires IsRun(ev, size, tolerance, states, draws) && t < |states| && ev.objectives == {objective}
    requires AllClean(ev.objectives, states[0].population)
    ensures AllScored(ev.objectives, states[t].population) && Front(ev.objectives, states[t].population) != []
    ensures !Regressed(states[t].best, tolerance, Candidate(ev, states[t].population, size, draws(t)))
  {
    var s := states[t];
    BaselineIsCurrentMaximum(ev, size, tolerance, states, draws, t);
    CleanRunHasCleanBaseline(ev, size, tolerance, states, draws, t);
    RunIsScored(ev, size, tolerance, states, draws, t);
    CandidateIsEvaluated(ev, s.population, size, draws(t));
    if t > 0 {
      OneObjectiveIsMet(ev.objectives, objective, s, Candidate(ev, s.population, size, draws(t)), tolerance);
    }
  }

  lemma OneObjectiveIsMet(objectives: set<string>, objective: string, s: State, candidate: seq<Genome>, tolerance: real)
    requires objectives == {objective} && tolerance >= 0.0 && AllEvaluated(objectives, candidate)
    requires IsMaximum(objectives, s.best, s.population) && KeepsGround(objectives, s.population, candidate)
    requires s.best.Keys <= objectives
    ensures !Regressed(s.best, tolerance, candidate)
  {
    assert objective in objectives;
    assert s.best.Keys == {objective};
    var h := MaximumIsReached(objectives, s.best[objective], objective, s.population, candidate);
    assert Evaluated(objectives, h);
    assert Meets(h, s.best, tolerance);
    var j :| 0 <= j < |candidate| && candidate[j] == h;
  }

  /**
   * With two objectives it is taken although nothing got worse: a population of two trade-offs is its own front,
   * and offered again unchanged it counts as a regression from the baseline it has just set.
   */
  lemma TradeOffsCountAsRegression(g: Genome, h: Genome)
    requires g.fitness == map["rho" := 1.0, "conversion" := 0.0]
    requires h.fitness == map["rho" := 0.0, "conversion" := 1.0]
    ensures var objectives := {"rho", "conversion"};
            && AllScored(objectives, [g, h]) && Front(objectives, [g, h]) == [g, h]
            && Regressed(Baseline(map[], [g, h]), 0.0, [g, h])
  {
    var objectives := {"rho", "conversion"};
    var population := [g, h];
    TradeOffFront(objectives, g, h);
    assert Evaluated(objectives, g) && Evaluated(objectives, h);
    BaselineKeys(objectives, map[], population);
    BaselineAt(objectives, map[], population, "rho");
    BaselineAt(objectives, map[], population, "conversion");
    var best := Baseline(map[], population);
    assert g in population && h in population;
    assert Score(g, "rho") <= best["rho"] && Score(h, "conversion") <= best["conversion"];
    assert !Meets(g, best, 0.0) && !Meets(h, best, 0.0);
    assert "rho" in best;
  }

  lemma TradeOffFront(objectives: set<string>, g: Genome, h: Genome)
    requires objectives == {"rho", "conversion"}
    requires g.fitness == map["rho" := 1.0, "conversion" := 0.0]
    requires h.fitness == map["rho" := 0.0, "conversion" := 1.0]
    ensures AllScored(objectives, [g, h]) && Front(objectives, [g, h]) == [g, h]
  {
    var population := [g, h];
    assert "rho" in objectives && "conversion" in objectives;
    assert !Dominates(objectives, g, h) && !Dominates(objectives, h, g);
    assert !Dominated(objectives, population, 0) && !Dominated(objectives, population, 1);
    assert FrontUpTo(objectives, population, 1) == [g];
  }
}
