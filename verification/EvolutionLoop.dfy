/** Multi-objective selection with a regression cage: variation, Pareto front, refill, rollback. */
module EvolutionLoops {
  import opened Options

  type Scores = map<string, real>
  type Parameters = map<string, real>

  datatype Genome = Genome(
    genomeId: string, parameters: Parameters, fitness: Scores, generation: int, parentId: Option<string>)

  /** The objective functions, by name. */
  datatype Evaluator = Evaluator(objectives: set<string>, score: (string, Parameters) -> real)

  function Evaluate(ev: Evaluator, g: Genome): Genome
  {
    g.(fitness := g.fitness + map k | k in ev.objectives :: ev.score(k, g.parameters))
  }

  /** Not evaluated at all, or on every objective. */
  predicate Scored(objectives: set<string>, g: Genome)
  {
    g.fitness == map[] || objectives <= g.fitness.Keys
  }

  predicate AllScored(objectives: set<string>, population: seq<Genome>)
  {
    forall i :: 0 <= i < |population| ==> Scored(objectives, population[i])
  }

  predicate Dominates(objectives: set<string>, a: Genome, b: Genome)
    requires Scored(objectives, a) && Scored(objectives, b)
  {
    && a.fitness != map[] && b.fitness != map[]
    && (forall k :: k in objectives ==> a.fitness[k] >= b.fitness[k])
    && exists k :: k in objectives && a.fitness[k] > b.fitness[k]
  }

  predicate Dominated(objectives: set<string>, population: seq<Genome>, i: nat)
    requires AllScored(objectives, population) && i < |population|
  {
    exists j :: 0 <= j < |population| && j != i && Dominates(objectives, population[j], population[i])
  }

  /** The non-dominated genomes among the first `n`, in their order. */
  function FrontUpTo(objectives: set<string>, population: seq<Genome>, n: nat): seq<Genome>
    requires AllScored(objectives, population) && n <= |population|
  {
    if n == 0 then [] else
      FrontUpTo(objectives, population, n - 1) +
      (if Dominated(objectives, population, n - 1) then [] else [population[n - 1]])
  }

  function Front(objectives: set<string>, population: seq<Genome>): seq<Genome>
    requires AllScored(objectives, population)
  {
    FrontUpTo(objectives, population, |population|)
  }

  method ParetoFront(objectives: set<string>, population: seq<Genome>) returns (front: seq<Genome>)
    requires AllScored(objectives, population)
    ensures front == Front(objectives, population)
  {
    front := [];
    for i := 0 to |population|
      invariant front == FrontUpTo(objectives, population, i)
    {
      var dominated := false;
      for j := 0 to |population|
        invariant dominated <==> exists m :: 0 <= m < j && m != i && Dominates(objectives, population[m], population[i])
      {
        if j != i && Dominates(objectives, population[j], population[i]) {
          dominated := true;
        }
      }
      if !dominated {
        front := front + [population[i]];
      }
    }
  }

  // ---- the regression cage -------------------------------------------------------------------------

  function Improved(best: Scores, fitness: Scores): Scores
  {
    map k | k in best.Keys + fitness.Keys ::
      if k in fitness && (k !in best || fitness[k] > best[k]) then fitness[k] else best[k]
  }

  function Baseline(best: Scores, genomes: seq<Genome>): Scores
  {
    if genomes == [] then best
    else Improved(Baseline(best, genomes[..|genomes| - 1]), genomes[|genomes| - 1].fitness)
  }

  /** The genome reaches the baseline on every objective, up to the tolerance. */
  predicate Meets(g: Genome, best: Scores, tolerance: real)
  {
    forall k :: k in best ==> k in g.fitness && g.fitness[k] >= best[k] - tolerance
  }

  predicate Regressed(best: Scores, tolerance: real, population: seq<Genome>)
  {
    best != map[] && forall i :: 0 <= i < |population| ==> !Meets(population[i], best, tolerance)
  }

  lemma {:induction false} BaselineIsLargest(best: Scores, genomes: seq<Genome>)
    ensures var b := Baseline(best, genomes);
            && (forall k :: k in b <==> k in best || exists g :: g in genomes && k in g.fitness)
            && (forall k :: k in best ==> b[k] >= best[k])
            && (forall g, k :: g in genomes && k in g.fitness ==> b[k] >= g.fitness[k])
            && (forall k :: k in b ==>
                  || (k in best && b[k] == best[k])
                  || exists g :: g in genomes && k in g.fitness && b[k] == g.fitness[k])
    decreases |genomes|
  {
    if genomes != [] {
      var shorter, last := genomes[..|genomes| - 1], genomes[|genomes| - 1];
      BaselineIsLargest(best, shorter);
      assert last in genomes && forall g :: g in genomes <==> g in shorter || g == last;
    }
  }

  class RegressionCage {
    const tolerance: real
    const noiseSigma: real
    var best: Scores

    constructor (tolerance: real, noiseSigma: real)
      requires tolerance >= 0.0 && noiseSigma >= 0.0
      ensures this.tolerance == tolerance && this.noiseSigma == noiseSigma && best == map[]
    {
      this.tolerance := tolerance;
      this.noiseSigma := noiseSigma;
      best := map[];
    }

    function EffectiveTolerance(): real
    {
      tolerance + 2.0 * noiseSigma
    }

    /** Each name's best becomes the largest of its old value and the genomes' scores. */
    method UpdateBaseline(genomes: seq<Genome>)
      modifies this
      ensures best == Baseline(old(best), genomes)
      ensures forall k :: k in best <==> k in old(best) || exists g :: g in genomes && k in g.fitness
      ensures forall k :: k in old(best) ==> best[k] >= old(best)[k]
      ensures forall g, k :: g in genomes && k in g.fitness ==> best[k] >= g.fitness[k]
      ensures forall k :: k in best ==>
                || (k in old(best) && best[k] == old(best)[k])
                || exists g :: g in genomes && k in g.fitness && best[k] == g.fitness[k]
    {
      for i := 0 to |genomes|
        invariant best == Baseline(old(best), genomes[..i])
      {
        assert genomes[..i + 1][..i] == genomes[..i];
        UpdateWith(genomes[i].fitness);
      }
      assert genomes[..|genomes|] == genomes;
      BaselineIsLargest(old(best), genomes);
    }

    method UpdateWith(fitness: Scores)
      modifies this
      ensures best == Improved(old(best), fitness)
    {
      var rest := fitness.Keys;
      while rest != {}
        invariant rest <= fitness.Keys
        invariant best == Improved(old(best), map k | k in fitness && k !in rest :: fitness[k])
      {
        var k :| k in rest;
        if k !in best || fitness[k] > best[k] {
          best := best[k := fitness[k]];
        }
        rest := rest - {k};
      }
      assert fitness == map k | k in fitness && k !in rest :: fitness[k];
    }

    /** A regression: every genome stays below some best by more than the tolerance and twice the noise. */
    method DetectsRegression(population: seq<Genome>) returns (regressed: bool)
      ensures regressed <==> Regressed(best, EffectiveTolerance(), population)
      ensures !regressed <==>
              || best == map[]
              || exists g :: g in population && forall k :: k in best ==>
                   k in g.fitness && g.fitness[k] >= best[k] - (tolerance + 2.0 * noiseSigma)
    {
      if best == map[] {
        return false;
      }
      var tol := EffectiveTolerance();
      for i := 0 to |population|
        invariant forall j :: 0 <= j < i ==> !Meets(population[j], best, tol)
      {
        if Meets(population[i], best, tol) {
          assert population[i] in population;
          return false;
        }
      }
      regressed := true;
    }
  }

  // ---- one step -------------------------------------------------------------------------------------

  /** What the random number generator decides for the `i`-th child. */
  datatype Draw = Draw(parent: nat, parameters: Parameters, name: string)

  function Child(ev: Evaluator, front: seq<Genome>, draw: Draw): Genome
    requires front != []
  {
    var parent := front[draw.parent % |front|];
    Evaluate(ev, Genome(draw.name, draw.parameters, map[], parent.generation + 1, Some(parent.genomeId)))
  }

  lemma ChildOfSeed(ev: Evaluator, seed: Genome, draw: Draw)
    ensures Child(ev, [seed], draw) ==
            Evaluate(ev, Genome(draw.name, draw.parameters, map[], seed.generation + 1, Some(seed.genomeId)))
  {
    assert draw.parent % |[seed]| == 0;
  }

  function Children(ev: Evaluator, front: seq<Genome>, draws: nat -> Draw, n: nat): (children: seq<Genome>)
    requires front != []
    ensures |children| == n
  {
    if n == 0 then [] else Children(ev, front, draws, n - 1) + [Child(ev, front, draws(n - 1))]
  }

  /** A child of the drawn front member, with the drawn name and parameters, scored on each objective. */
  ghost predicate IsChildOf(ev: Evaluator, parent: Genome, draw: Draw, child: Genome)
  {
    && child.genomeId == draw.name && child.parameters == draw.parameters
    && child.parentId == Some(parent.genomeId) && child.generation == parent.generation + 1
    && child.fitness.Keys == ev.objectives
    && forall k :: k in ev.objectives ==> child.fitness[k] == ev.score(k, draw.parameters)
  }

  lemma {:induction false} ChildrenAt(ev: Evaluator, front: seq<Genome>, draws: nat -> Draw, n: nat, i: nat)
    requires front != [] && i < n
    ensures IsChildOf(ev, front[draws(i).parent % |front|], draws(i), Children(ev, front, draws, n)[i])
    ensures var parent, child := front[draws(i).parent % |front|], Children(ev, front, draws, n)[i];
            && child.parentId == Some(parent.genomeId) && child.generation == parent.generation + 1
            && child.genomeId == draws(i).name && child.parameters == draws(i).parameters
  {
    if i < n - 1 {
      ChildrenAt(ev, front, draws, n - 1, i);
    }
  }

  lemma ChildrenOfSeedAt(ev: Evaluator, seed: Genome, draws: nat -> Draw, n: nat, i: nat)
    requires i < n
    ensures IsChildOf(ev, seed, draws(i), Children(ev, [seed], draws, n)[i])
  {
    ChildrenAt(ev, [seed], draws, n, i);
    assert draws(i).parent % |[seed]| == 0;
  }

  /** Scoring touches the objectives only. */
  lemma EvaluateScores(ev: Evaluator, g: Genome)
    ensures var e := Evaluate(ev, g);
            && e.genomeId == g.genomeId && e.parameters == g.parameters
            && e.generation == g.generation && e.parentId == g.parentId
            && e.fitness.Keys == g.fitness.Keys + ev.objectives
            && forall k :: k in e.fitness ==>
                             e.fitness[k] == if k in ev.objectives then ev.score(k, g.parameters) else g.fitness[k]
  {
  }

  function Missing(front: seq<Genome>, populationSize: nat): nat
  {
    if |front| < populationSize then populationSize - |front| else 0
  }

  /** The candidate for the next population: the front, refilled with evaluated children of the front. */
  function Candidate(ev: Evaluator, population: seq<Genome>, populationSize: nat, draws: nat -> Draw): seq<Genome>
    requires AllScored(ev.objectives, population) && Front(ev.objectives, population) != []
  {
    var front := Front(ev.objectives, population);
    front + Children(ev, front, draws, Missing(front, populationSize))
  }

  class EvolutionLoop {
    const ev: Evaluator
    const populationSize: nat
    const eigenThreshold: Option<real>
    const gaussianSigma: real
    const cage: RegressionCage?
    var archive: seq<Genome>
    var canary: Option<Genome>
    var regressionCount: nat
    var eigenViolations: nat

    ghost predicate Valid()
      reads this
    {
      ev.objectives != {} && populationSize >= 2 && gaussianSigma > 0.0
    }

    constructor (
      ev: Evaluator, populationSize: nat, eigenThreshold: Option<real>, gaussianSigma: real, cage: RegressionCage?,
      canary: Option<Genome>)
      requires ev.objectives != {} && populationSize >= 2 && gaussianSigma > 0.0
      ensures Valid() && this.ev == ev && this.populationSize == populationSize && this.cage == cage
      ensures this.eigenThreshold == eigenThreshold && this.gaussianSigma == gaussianSigma && this.canary == canary
      ensures archive == [] && regressionCount == 0 && eigenViolations == 0
    {
      this.ev := ev;
      this.populationSize := populationSize;
      this.eigenThreshold := eigenThreshold;
      this.gaussianSigma := gaussianSigma;
      this.cage := cage;
      this.canary := canary;
      archive := [];
      regressionCount := 0;
      eigenViolations := 0;
    }

    /** The seed, then mutants of it, all evaluated. The archive shares them, so it holds them evaluated as well. */
    method InitializePopulation(seed: Genome, draws: nat -> Draw) returns (population: seq<Genome>)
      requires Valid()
      modifies this`archive
      ensures |population| == populationSize && AllScored(ev.objectives, population)
      ensures population == Initial(ev, seed, draws, populationSize)
      ensures AllClean(ev.objectives, population) <==> seed.fitness.Keys <= ev.objectives
      ensures archive == old(archive) + population
      ensures population[0].parameters == seed.parameters && population[0].genomeId == seed.genomeId
      ensures forall k :: k in ev.objectives ==>
                k in population[0].fitness && population[0].fitness[k] == ev.score(k, seed.parameters)
      ensures forall i :: 1 <= i < populationSize ==> IsChildOf(ev, seed, draws(i - 1), population[i])
    {
      population := [Evaluate(ev, seed)];
      archive := archive + population;
      for i := 1 to populationSize
        invariant population == Initial(ev, seed, draws, i)
        invariant archive == old(archive) + population
      {
        var draw := draws(i - 1);
        var child := Genome(draw.name, draw.parameters, map[], seed.generation + 1, Some(seed.genomeId));
        InitialGrows(ev, seed, draws, i);
        population := population + [Evaluate(ev, child)];
        archive := archive + [Evaluate(ev, child)];
      }
      InitialIsCleanIff(ev, seed, draws, populationSize);
      EvaluateScores(ev, seed);
      forall i | 1 <= i < populationSize
        ensures IsChildOf(ev, seed, draws(i - 1), population[i])
      {
        ChildrenOfSeedAt(ev, seed, draws, populationSize - 1, i - 1);
      }
    }

    /** `None` is the exception that choosing a parent raises when the population is empty. */
    method Step(population: seq<Genome>, draws: nat -> Draw) returns (next: Option<seq<Genome>>)
      requires Valid() && AllScored(ev.objectives, population)
      modifies this, cage
      ensures Valid()
      ensures next.None? <==> population == []
      ensures population == [] ==> unchanged(this) && (cage != null ==> cage.best == old(cage.best))
      ensures population != [] ==>
                && Front(ev.objectives, population) != []
                && var candidate := Candidate(ev, population, populationSize, draws);
                   var rejected := cage != null && Regressed(old(cage.best), cage.EffectiveTolerance(), candidate);
                   && next == Some(if rejected then population else candidate)
                   && regressionCount == old(regressionCount) + (if rejected then 1 else 0)
                   && (cage != null ==>
                        cage.best == if rejected then old(cage.best) else Baseline(old(cage.best), candidate))
                   && archive == old(archive) + candidate[|Front(ev.objectives, population)|..]
      ensures population != [] ==>
                (regressionCount == old(regressionCount) <==>
                 || cage == null || old(cage.best) == map[]
                 || exists g :: g in Candidate(ev, population, populationSize, draws) &&
                      forall k :: k in old(cage.best) ==>
                        k in g.fitness &&
                        g.fitness[k] >= old(cage.best)[k] - (cage.tolerance + 2.0 * cage.noiseSigma))
      ensures population != [] ==>
                eigenViolations == old(eigenViolations) + (if ErosionRisk(population[0].parameters) then 1 else 0)
      ensures canary ==
              if population != [] && old(canary).Some? then Some(Evaluate(ev, old(canary).value)) else old(canary)
    {
      if population != [] {
        CheckEigen(population[0]);
      }
      var front := ParetoFront(ev.objectives, population);
      if population == [] {
        return None;
      }
      FrontIsNotEmpty(ev.objectives, population);
      var candidate := Refill(front, draws);
      TrackCanary();
      var rejected := Rejects(candidate);
      next := Some(if rejected then population else candidate);
    }

    /** Asks the cage, which takes an accepted candidate into its baseline. */
    method Rejects(candidate: seq<Genome>) returns (rejected: bool)
      modifies this`regressionCount, cage
      ensures rejected == (cage != null && Regressed(old(cage.best), cage.EffectiveTolerance(), candidate))
      ensures !rejected <==>
              || cage == null || old(cage.best) == map[]
              || exists g :: g in candidate && forall k :: k in old(cage.best) ==>
                   k in g.fitness && g.fitness[k] >= old(cage.best)[k] - (cage.tolerance + 2.0 * cage.noiseSigma)
      ensures regressionCount == old(regressionCount) + (if rejected then 1 else 0)
      ensures cage != null ==> cage.best == if rejected then old(cage.best) else Baseline(old(cage.best), candidate)
    {
      rejected := false;
      if cage != null {
        rejected := cage.DetectsRegression(candidate);
        if rejected {
          regressionCount := regressionCount + 1;
        } else {
          cage.UpdateBaseline(candidate);
        }
      }
    }

    /** Fills the front up to the population size with evaluated mutants of its members. */
    method Refill(front: seq<Genome>, draws: nat -> Draw) returns (candidate: seq<Genome>)
      requires front != []
      modifies this`archive
      ensures candidate == front + Children(ev, front, draws, Missing(front, populationSize))
      ensures archive == old(archive) + Children(ev, front, draws, Missing(front, populationSize))
    {
      candidate := front;
      var i := 0;
      while |candidate| < populationSize
        invariant i <= Missing(front, populationSize)
        invariant candidate == front + Children(ev, front, draws, i)
        invariant archive == old(archive) + Children(ev, front, draws, i)
      {
        var child := Child(ev, front, draws(i));
        archive := archive + [child];
        candidate := candidate + [child];
        i := i + 1;
      }
    }

    predicate ErosionRisk(parameters: Parameters)
    {
      eigenThreshold.Some? && gaussianSigma * GenomeLength(parameters) as real >= eigenThreshold.value
    }

    /** Counts a violation when the noise times the number of parameters, at least one, reaches the threshold. */
    method CheckEigen(first: Genome)
      modifies this`eigenViolations
      ensures eigenViolations == old(eigenViolations) + (if ErosionRisk(first.parameters) then 1 else 0)
      ensures eigenThreshold.None? ==> eigenViolations == old(eigenViolations)
      ensures eigenThreshold.Some? && first.parameters == map[] ==>
                (eigenViolations == old(eigenViolations) <==> gaussianSigma < eigenThreshold.value)
      ensures eigenThreshold.Some? && first.parameters != map[] ==>
                (eigenViolations == old(eigenViolations) <==>
                 gaussianSigma * |first.parameters| as real < eigenThreshold.value)
    {
      if ErosionRisk(first.parameters) {
        eigenViolations := eigenViolations + 1;
      }
    }

    method TrackCanary()
      modifies this`canary
      ensures canary == if old(canary).Some? then Some(Evaluate(ev, old(canary).value)) else None
    {
      if canary.Some? {
        canary := Some(Evaluate(ev, canary.value));
      }
    }
  }

  function GenomeLength(parameters: Parameters): (length: nat)
    ensures length >= 1 && (parameters != map[] ==> length == |parameters|)
  {
    if |parameters| == 0 then 1 else |parameters|
  }

  // ---- selection never loses ground ------------------------------------------------------------------

  lemma DominatesIsStrictOrder(objectives: set<string>, a: Genome, b: Genome, c: Genome)
    requires Scored(objectives, a) && Scored(objectives, b) && Scored(objectives, c)
    ensures !Dominates(objectives, a, a)
    ensures Dominates(objectives, a, b) ==> !Dominates(objectives, b, a)
    ensures Dominates(objectives, a, b) && Dominates(objectives, b, c) ==> Dominates(objectives, a, c)
  {
    if Dominates(objectives, a, b) && Dominates(objectives, b, c) {
      var k :| k in objectives && a.fitness[k] > b.fitness[k];
      assert a.fitness[k] > c.fitness[k];
    }
  }

  function Score(g: Genome, k: string): real
  {
    if k in g.fitness then g.fitness[k] else 0.0
  }

  /** Scored on every objective; scores under other names may be there as well. */
  predicate Evaluated(objectives: set<string>, g: Genome)
  {
    objectives <= g.fitness.Keys
  }

  /** Scored on the objectives and on nothing else. */
  predicate Clean(objectives: set<string>, g: Genome)
  {
    g.fitness.Keys == objectives
  }

  /** `h` is `g` itself or at least as good on every objective. */
  ghost predicate AtLeast(objectives: set<string>, h: Genome, g: Genome)
  {
    h == g || (objectives <= h.fitness.Keys && objectives <= g.fitness.Keys &&
               forall k :: k in objectives ==> Score(h, k) >= Score(g, k))
  }

  ghost function Dominators(objectives: set<string>, population: seq<Genome>, i: nat): set<int>
    requires AllScored(objectives, population) && i < |population|
  {
    set j | 0 <= j < |population| && Dominates(objectives, population[j], population[i])
  }

  /** Every member is in the front or dominated by a member of the front. */
  lemma {:induction false} FrontCoversMember(objectives: set<string>, population: seq<Genome>, i: nat) returns (j: nat)
    requires AllScored(objectives, population) && i < |population|
    ensures j < |population| && !Dominated(objectives, population, j)
    ensures AtLeast(objectives, population[j], population[i])
    decreases |Dominators(objectives, population, i)|
  {
    if !Dominated(objectives, population, i) {
      return i;
    }
    var m :| 0 <= m < |population| && m != i && Dominates(objectives, population[m], population[i]);
    var above, below := Dominators(objectives, population, m), Dominators(objectives, population, i);
    forall k | k in above
      ensures k in below
    {
      DominatesIsStrictOrder(objectives, population[k], population[m], population[i]);
    }
    DominatesIsStrictOrder(objectives, population[m], population[m], population[m]);
    assert m in below && m !in above;
    FewerMembers(above, below, m);
    j := FrontCoversMember(objectives, population, m);
  }

  lemma FewerMembers(a: set<int>, b: set<int>, x: int)
    requires a <= b && x in b && x !in a
    ensures |a| < |b|
  {
    assert a <= b - {x};
    Smaller(a, b - {x});
  }

  lemma Smaller(a: set<int>, b: set<int>)
    requires a <= b
    ensures |a| <= |b|
  {
    assert b == a + (b - a);
  }

  lemma {:induction false} InFront(objectives: set<string>, population: seq<Genome>, j: nat, n: nat)
    requires AllScored(objectives, population) && j < n <= |population| && !Dominated(objectives, population, j)
    ensures population[j] in FrontUpTo(objectives, population, n)
    decreases n
  {
    if j < n - 1 {
      InFront(objectives, population, j, n - 1);
    }
  }

  /** A scored genome is in the front exactly if each scored member is worse somewhere or nowhere better. */
  lemma FrontIsExactly(objectives: set<string>, population: seq<Genome>, g: Genome)
    requires AllScored(objectives, population)
    ensures g in Front(objectives, population) <==>
            && g in population
            && (g.fitness != map[] ==>
                  forall h :: h in population && h.fitness != map[] ==>
                    || (exists k :: k in objectives && h.fitness[k] < g.fitness[k])
                    || (forall k :: k in objectives ==> h.fitness[k] <= g.fitness[k]))
  {
    if g in Front(objectives, population) {
      FrontMember(objectives, population, |population|, g);
      var i :| 0 <= i < |population| && population[i] == g && !Dominated(objectives, population, i);
      forall h | h in population && h.fitness != map[] && g.fitness != map[]
        ensures || (exists k :: k in objectives && h.fitness[k] < g.fitness[k])
                || (forall k :: k in objectives ==> h.fitness[k] <= g.fitness[k])
      {
        var j :| 0 <= j < |population| && population[j] == h;
        assert !Dominates(objectives, h, g) || j == i;
      }
    } else if g in population {
      var i :| 0 <= i < |population| && population[i] == g;
      if !Dominated(objectives, population, i) {
        InFront(objectives, population, i, |population|);
      }
      var j :| 0 <= j < |population| && j != i && Dominates(objectives, population[j], population[i]);
      assert population[j] in population;
    }
  }

  lemma {:induction false} FrontMember(objectives: set<string>, population: seq<Genome>, n: nat, g: Genome)
    requires AllScored(objectives, population) && n <= |population| && g in FrontUpTo(objectives, population, n)
    ensures exists i :: 0 <= i < n && population[i] == g && !Dominated(objectives, population, i)
  {
    if n > 0 && g in FrontUpTo(objectives, population, n - 1) {
      FrontMember(objectives, population, n - 1, g);
    }
  }

  lemma FrontIsNotEmpty(objectives: set<string>, population: seq<Genome>)
    requires AllScored(objectives, population) && population != []
    ensures Front(objectives, population) != []
  {
    var j := FrontCoversMember(objectives, population, 0);
    InFront(objectives, population, j, |population|);
  }

  lemma FrontIsSmaller(objectives: set<string>, population: seq<Genome>, n: nat)
    requires AllScored(objectives, population) && n <= |population|
    ensures |FrontUpTo(objectives, population, n)| <= n
    ensures forall g :: g in FrontUpTo(objectives, population, n) ==> g in population
  {
  }

  lemma ChildrenAreClean(ev: Evaluator, front: seq<Genome>, draws: nat -> Draw, n: nat)
    requires front != []
    ensures forall g :: g in Children(ev, front, draws, n) ==> Clean(ev.objectives, g)
  {
  }

  ghost predicate Matched(objectives: set<string>, g: Genome, population: seq<Genome>)
  {
    exists h :: h in population && AtLeast(objectives, h, g)
  }

  /** Every genome of `before` is matched or beaten by one of `after`. */
  ghost predicate KeepsGround(objectives: set<string>, before: seq<Genome>, after: seq<Genome>)
  {
    forall g :: g in before ==> Matched(objectives, g, after)
  }

  lemma KeepsGroundIsTransitive(objectives: set<string>, a: seq<Genome>, b: seq<Genome>, c: seq<Genome>)
    requires KeepsGround(objectives, a, b) && KeepsGround(objectives, b, c)
    ensures KeepsGround(objectives, a, c)
  {
    forall g | g in a
      ensures Matched(objectives, g, c)
    {
      var h :| h in b && AtLeast(objectives, h, g);
      assert Matched(objectives, h, c);
      var i :| i in c && AtLeast(objectives, i, h);
      assert AtLeast(objectives, i, g);
    }
  }

  lemma KeepsGroundIsReflexive(objectives: set<string>, a: seq<Genome>)
    ensures KeepsGround(objectives, a, a)
  {
    forall g | g in a
      ensures Matched(objectives, g, a)
    {
      assert AtLeast(objectives, g, g);
    }
  }

  lemma FrontKeepsGround(objectives: set<string>, population: seq<Genome>)
    requires AllScored(objectives, population)
    ensures KeepsGround(objectives, population, Front(objectives, population))
  {
    forall g | g in population
      ensures Matched(objectives, g, Front(objectives, population))
    {
      var i :| 0 <= i < |population| && population[i] == g;
      var j := FrontCoversMember(objectives, population, i);
      InFront(objectives, population, j, |population|);
    }
  }

  lemma KeepsGroundInLonger(objectives: set<string>, a: seq<Genome>, b: seq<Genome>, longer: seq<Genome>)
    requires KeepsGround(objectives, a, b) && forall g :: g in b ==> g in longer
    ensures KeepsGround(objectives, a, longer)
  {
    forall g | g in a
      ensures Matched(objectives, g, longer)
    {
      assert Matched(objectives, g, b);
    }
  }

  // ---- the first population ------------------------------------------------------------------------

  ghost predicate AllEvaluated(objectives: set<string>, population: seq<Genome>)
  {
    population != [] && forall g :: g in population ==> Evaluated(objectives, g)
  }

  ghost predicate AllClean(objectives: set<string>, population: seq<Genome>)
  {
    population != [] && forall g :: g in population ==> Clean(objectives, g)
  }

  lemma EvaluatedIsScored(objectives: set<string>, population: seq<Genome>)
    requires AllEvaluated(objectives, population)
    ensures AllScored(objectives, population)
  {
    forall i | 0 <= i < |population|
      ensures Scored(objectives, population[i])
    {
      assert Evaluated(objectives, population[i]);
    }
  }

  /** What `InitializePopulation` returns. */
  function Initial(ev: Evaluator, seed: Genome, draws: nat -> Draw, size: nat): seq<Genome>
    requires size >= 1
  {
    [Evaluate(ev, seed)] + Children(ev, [seed], draws, size - 1)
  }

  lemma InitialGrows(ev: Evaluator, seed: Genome, draws: nat -> Draw, i: nat)
    requires i >= 1
    ensures var draw := draws(i - 1);
            var child := Genome(draw.name, draw.parameters, map[], seed.generation + 1, Some(seed.genomeId));
            Initial(ev, seed, draws, i + 1) == Initial(ev, seed, draws, i) + [Evaluate(ev, child)]
  {
    ChildOfSeed(ev, seed, draws(i - 1));
  }

  /** The first population is evaluated. It is clean exactly if the seed carries no score under another name. */
  lemma InitialIsCleanIff(ev: Evaluator, seed: Genome, draws: nat -> Draw, size: nat)
    requires size >= 1
    ensures AllEvaluated(ev.objectives, Initial(ev, seed, draws, size)) && |Initial(ev, seed, draws, size)| == size
    ensures AllScored(ev.objectives, Initial(ev, seed, draws, size))
    ensures AllClean(ev.objectives, Initial(ev, seed, draws, size)) <==> seed.fitness.Keys <= ev.objectives
  {
    ChildrenAreClean(ev, [seed], draws, size - 1);
    var population, first := Initial(ev, seed, draws, size), Evaluate(ev, seed);
    forall g
      ensures g in population <==> g == first || g in Children(ev, [seed], draws, size - 1)
    {
    }
    assert first.fitness.Keys == seed.fitness.Keys + ev.objectives;
    assert first in population && (Clean(ev.objectives, first) <==> seed.fitness.Keys <= ev.objectives);
    EvaluatedIsScored(ev.objectives, population);
  }
}
