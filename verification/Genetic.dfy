/** internal/palette/genetic: the evolutionary palette search. Individuals are
    windows of shared backing arrays; random choices are left open. Colours and
    fitness are real numbers. */
module Genetic {
  import opened Common
  import opened Palette
  import Sorting

  type Colours = seq<Lab>

  const NUM_SURVIVORS := 500
  const NUM_NEWBORNS := 49500
  const MAX_GENERATIONS := 100

  /** A Go slice with its capacity cut to its length. */
  datatype Individual = Individual(backing: array<Lab>, off: nat, len: nat)

  ghost predicate Fits(p: Individual) {
    p.off + p.len <= p.backing.Length
  }

  function ColoursOf(p: Individual): Colours
    requires Fits(p)
    reads p.backing
  {
    p.backing[p.off..p.off+p.len]
  }

  // ---- what one child may be ----

  /** The alternating zip of two parents. */
  function Zip(a: Colours, b: Colours): Colours
    requires |a| == |b|
  {
    seq(|a|, j requires 0 <= j < |a| => if j % 2 == 0 then a[j] else b[j])
  }

  /** c, or c with one colour replaced by one of the image. */
  ghost predicate Mutation(c: Colours, c': Colours, image: Colours) {
    c' == c || exists j :: 0 <= j < |c| == |c'| && c'[j] in image && c' == c[j := c'[j]]
  }

  // ---- evolution.go ----

  /** All individuals exist and have count colours. */
  ghost predicate Population(population: seq<Individual>, count: nat) {
    forall i :: 0 <= i < |population| ==> Fits(population[i]) && population[i].len == count
  }

  /** held are the colours of the population, read at one moment. */
  ghost predicate Holds(population: seq<Individual>, held: seq<Colours>, count: nat)
    requires Population(population, count)
    reads set i | 0 <= i < |population| :: population[i].backing
  {
    |held| == |population| && forall i :: 0 <= i < |population| ==> ColoursOf(population[i]) == held[i]
  }

  lemma WindowFits(i: nat, n: nat, count: nat)
    requires i < n
    ensures i * count + count <= n * count
  {
    assert (i + 1) * count <= n * count;
  }

  lemma WindowsApart(i: nat, k: nat, count: nat)
    requires i < k
    ensures i * count + count <= k * count
  {
    WindowFits(i, k, count);
  }

  ghost method ReadOff(population: seq<Individual>, count: nat) returns (held: seq<Colours>)
    requires Population(population, count)
    ensures Holds(population, held, count)
  {
    held := [];
    for i := 0 to |population|
      invariant |held| == i && forall k :: 0 <= k < i ==> held[k] == ColoursOf(population[k])
    {
      held := held + [ColoursOf(population[i])];
    }
  }

  predicate InRange(c: Lab) {
    0.0 <= c.l < 100.0 && -100.0 <= c.a < 100.0 && -100.0 <= c.b < 100.0
  }

  /** Palettes of count colours of the random range. */
  ghost predicate Initial(held: seq<Colours>, count: nat) {
    forall i :: 0 <= i < |held| ==> |held[i]| == count && forall j :: 0 <= j < count ==> InRange(held[i][j])
  }

  ghost predicate AllRandom(backing: array<Lab>)
    reads backing
  {
    forall k :: 0 <= k < backing.Length ==> InRange(backing[k])
  }

  method RandomColours(backing: array<Lab>, off: nat, count: nat)
    requires off + count <= backing.Length && AllRandom(backing)
    modifies backing
    ensures AllRandom(backing)
  {
    for j := 0 to count
      invariant forall k :: 0 <= k < backing.Length ==> InRange(backing[k])
    {
      var l: real, a: real, b: real :| 0.0 <= l < 100.0 && -100.0 <= a < 100.0 && -100.0 <= b < 100.0;
      backing[off + j] := Lab(l, a, b);
    }
  }

  method InitPopulation(count: nat, size: nat) returns (population: seq<Individual>, ghost held: seq<Colours>)
    ensures |population| == size && Population(population, count) && Holds(population, held, count)
    ensures Initial(held, count)
    ensures forall i :: 0 <= i < size ==> fresh(population[i].backing)
  {
    var backing := new Lab[size * count](_ => Lab(0.0, 0.0, 0.0));
    population := [];
    for i := 0 to size
      invariant |population| == i && Windows(population, backing, count) && AllRandom(backing)
    {
      WindowFits(i, size, count);
      RandomColours(backing, i * count, count);
      population := population + [Individual(backing, i * count, count)];
    }
    held := ReadOff(population, count);
    AllInRange(population, held, backing, count);
  }

  /** The individuals are the first windows of backing. */
  ghost predicate Windows(population: seq<Individual>, backing: array<Lab>, count: nat) {
    forall k :: 0 <= k < |population| ==> population[k] == Individual(backing, k * count, count) && Fits(population[k])
  }

  lemma AllInRange(population: seq<Individual>, held: seq<Colours>, backing: array<Lab>, count: nat)
    requires Windows(population, backing, count) && Population(population, count) && Holds(population, held, count)
    requires AllRandom(backing)
    ensures Initial(held, count)
  {
    forall i, j | 0 <= i < |held| && 0 <= j < count ensures |held[i]| == count && InRange(held[i][j]) {
      assert held[i] == ColoursOf(population[i]);
      assert held[i][j] == backing[population[i].off + j];
    }
    forall i | 0 <= i < |held| ensures |held[i]| == count {
      assert held[i] == ColoursOf(population[i]);
    }
  }

  method CrossoverInto(p1: Individual, p2: Individual, dst: Individual)
    requires Fits(p1) && Fits(p2) && Fits(dst) && p1.len == p2.len == dst.len
    requires p1.backing != dst.backing && p2.backing != dst.backing
    modifies dst.backing
    ensures ColoursOf(dst) == Zip(ColoursOf(p1), ColoursOf(p2))
    ensures forall j :: 0 <= j < dst.len ==>
              ColoursOf(dst)[j] == if j % 2 == 0 then ColoursOf(p1)[j] else ColoursOf(p2)[j]
    ensures forall k :: 0 <= k < dst.backing.Length && !(dst.off <= k < dst.off + dst.len) ==>
              dst.backing[k] == old(dst.backing[k])
  {
    var size := if p2.len < p1.len then p2.len else p1.len;
    for i := 0 to size
      invariant forall j :: 0 <= j < i ==>
                  dst.backing[dst.off + j] == if j % 2 == 0 then p1.backing[p1.off + j] else p2.backing[p2.off + j]
      invariant forall k :: 0 <= k < dst.backing.Length && !(dst.off <= k < dst.off + dst.len) ==>
                  dst.backing[k] == old(dst.backing[k])
    {
      if i % 2 == 0 {
        dst.backing[dst.off + i] := p1.backing[p1.off + i];
      } else {
        dst.backing[dst.off + i] := p2.backing[p2.off + i];
      }
    }
  }

  method MutateInPlace(p: Individual, image: Colours)
    requires Fits(p) && p.len > 0
    modifies p.backing
    ensures Mutation(old(ColoursOf(p)), ColoursOf(p), image)
    ensures forall k :: 0 <= k < p.backing.Length && !(p.off <= k < p.off + p.len) ==> p.backing[k] == old(p.backing[k])
  {
    var draw: real :| 0.0 <= draw < 1.0;
    if |image| == 0 || draw > 0.75 {
      return;
    }
    var pos: nat :| pos < p.len;
    var pick: nat :| pick < |image|;
    p.backing[p.off + pos] := image[pick];
    assert ColoursOf(p)[pos] == image[pick] && ColoursOf(p) == old(ColoursOf(p))[pos := image[pick]];
  }

  /** c comes from two of the parents by crossover and at most one mutation. */
  ghost predicate Child(c: Colours, parents: seq<Colours>, image: Colours) {
    exists p, q :: 0 <= p < |parents| && 0 <= q < |parents| && |parents[p]| == |parents[q]|
                   && Mutation(Zip(parents[p], parents[q]), c, image)
  }

  /** The body of evolve's loop: one child into its own window. */
  method Breed(survivors: seq<Individual>, ghost parents: seq<Colours>, image: Colours, count: nat, dst: Individual)
    requires survivors != [] && count > 0 && Population(survivors, count) && Holds(survivors, parents, count)
    requires Fits(dst) && dst.len == count && forall i :: 0 <= i < |survivors| ==> survivors[i].backing != dst.backing
    modifies dst.backing
    ensures Child(ColoursOf(dst), parents, image)
    ensures forall k :: 0 <= k < dst.backing.Length && !(dst.off <= k < dst.off + count) ==>
              dst.backing[k] == old(dst.backing[k])
  {
    var p: nat :| p < |survivors|;
    var q: nat :| q < |survivors|;
    CrossoverInto(survivors[p], survivors[q], dst);
    assert ColoursOf(dst) == Zip(parents[p], parents[q]);
    MutateInPlace(dst, image);
  }

  /** The copy of the best survivor into the first window. */
  method CopyFirst(best: Individual, dst: Individual)
    requires Fits(best) && Fits(dst) && best.len == dst.len && best.backing != dst.backing
    modifies dst.backing
    ensures ColoursOf(dst) == ColoursOf(best)
  {
    for j := 0 to best.len
      invariant forall k :: dst.off <= k < dst.off + j ==> dst.backing[k] == best.backing[best.off + k - dst.off]
    {
      dst.backing[dst.off + j] := best.backing[best.off + j];
    }
  }

  /** The first windows of backing, and what they hold. */
  ghost predicate Laid(population: seq<Individual>, held: seq<Colours>, backing: array<Lab>, count: nat)
    reads backing
  {
    |population| == |held|
    && forall k :: 0 <= k < |population| ==>
         population[k] == Individual(backing, k * count, count) && Fits(population[k])
           && ColoursOf(population[k]) == held[k]
  }

  /** One turn of evolve's loop: the earlier windows keep what they hold. */
  method AddChild(survivors: seq<Individual>, ghost parents: seq<Colours>, image: Colours, count: nat,
                  backing: array<Lab>, population: seq<Individual>, ghost held: seq<Colours>)
      returns (child: Individual, ghost c: Colours)
    requires survivors != [] && count > 0 && Population(survivors, count) && Holds(survivors, parents, count)
    requires forall i :: 0 <= i < |survivors| ==> survivors[i].backing != backing
    requires Laid(population, held, backing, count) && |population| * count + count <= backing.Length
    modifies backing
    ensures child.backing == backing && Laid(population + [child], held + [c], backing, count)
              && Child(c, parents, image)
  {
    var off := |population| * count;
    child := Individual(backing, off, count);
    ghost var before := backing[..];
    Breed(survivors, parents, image, count, child);
    c := ColoursOf(child);
    StillLaid(population, held, backing, count, off, before);
    LaidMore(population, held, backing, count, child, c);
  }

  /** What was in the windows of before is there still. */
  lemma StillLaid(population: seq<Individual>, held: seq<Colours>, backing: array<Lab>, count: nat, off: nat,
                  before: seq<Lab>)
    requires |population| == |held| && off == |population| * count <= backing.Length == |before|
    requires forall k :: 0 <= k < |population| ==>
               && population[k] == Individual(backing, k * count, count) && Fits(population[k])
               && before[population[k].off..population[k].off + population[k].len] == held[k]
    requires forall i :: 0 <= i < off ==> backing[i] == before[i]
    ensures Laid(population, held, backing, count)
  {
    forall k | 0 <= k < |population| ensures ColoursOf(population[k]) == held[k] {
      WindowsApart(k, |population|, count);
    }
  }

  lemma LaidMore(population: seq<Individual>, held: seq<Colours>, backing: array<Lab>, count: nat, child: Individual,
                 c: Colours)
    requires Laid(population, held, backing, count) && child == Individual(backing, |population| * count, count)
    requires Fits(child) && c == ColoursOf(child)
    ensures Laid(population + [child], held + [c], backing, count)
  {
  }

  /** The first parent, then children of any. */
  ghost predicate Offspring(held: seq<Colours>, parents: seq<Colours>, image: Colours) {
    && held != [] && parents != [] && held[0] == parents[0]
    && forall k :: 1 <= k < |held| ==> Child(held[k], parents, image)
  }

  lemma OneMore(held: seq<Colours>, c: Colours, parents: seq<Colours>, image: Colours)
    requires Offspring(held, parents, image) && Child(c, parents, image)
    ensures Offspring(held + [c], parents, image)
  {
  }

  /** evolve: the best survivor first, then children in windows of a new array.
      Nothing the survivors hold is written. */
  method Evolve(survivors: seq<Individual>, ghost parents: seq<Colours>, image: Colours, count: nat)
      returns (population: seq<Individual>, ghost held: seq<Colours>)
    requires survivors != [] && count > 0 && Population(survivors, count) && Holds(survivors, parents, count)
    ensures |population| == NUM_SURVIVORS + NUM_NEWBORNS && Population(population, count)
              && Holds(population, held, count)
    ensures forall i :: 0 <= i < |population| ==> fresh(population[i].backing)
    ensures Offspring(held, parents, image)
  {
    var total := NUM_SURVIVORS + NUM_NEWBORNS;
    var backing := new Lab[total * count](_ => Lab(0.0, 0.0, 0.0));
    WindowFits(0, total, count);
    var first := Individual(backing, 0, count);
    CopyFirst(survivors[0], first);
    population, held := [first], [parents[0]];
    for i := 1 to total
      invariant |population| == i && Laid(population, held, backing, count)
      invariant Offspring(held, parents, image)
    {
      WindowFits(i, total, count);
      var child, c := AddChild(survivors, parents, image, count, backing, population, held);
      OneMore(held, c, parents, image);
      population, held := population + [child], held + [c];
    }
  }

  // ---- fitness.go: scorePop ----

  /** An individual's score; index is its place in the population. */
  datatype Rank = Rank(index: nat, fitness: real)

  predicate Fitter(a: Rank, b: Rank) {
    a.fitness > b.fitness
  }

  function RanksOf(held: seq<Colours>, fitness: Colours -> real): seq<Rank> {
    seq(|held|, i requires 0 <= i < |held| => Rank(i, fitness(held[i])))
  }

  method ScorePop(population: seq<Individual>, ghost held: seq<Colours>, fitness: Colours -> real, count: nat)
      returns (scored: seq<Rank>)
    requires Population(population, count) && Holds(population, held, count)
    ensures scored == Sorting.Sort(RanksOf(held, fitness), Fitter)
  {
    scored := [];
    for i := 0 to |population|
      invariant scored == RanksOf(held, fitness)[..i]
    {
      scored := scored + [Rank(i, fitness(ColoursOf(population[i])))];
    }
    assert RanksOf(held, fitness)[..|population|] == RanksOf(held, fitness);
    scored := Sorting.Sort(scored, Fitter);
  }

  function Scored(held: seq<Colours>, fitness: Colours -> real): seq<Rank> {
    Sorting.Sort(RanksOf(held, fitness), Fitter)
  }

  /** The scores are those of the population, best first. */
  lemma ScoredRight(held: seq<Colours>, fitness: Colours -> real)
    ensures var scored := Scored(held, fitness);
            && |scored| == |held|
            && (forall i :: 0 <= i < |scored| ==>
                  scored[i].index < |held| && scored[i].fitness == fitness(held[scored[i].index]))
            && (forall k :: 0 <= k < |held| ==> fitness(held[k]) <= scored[0].fitness)
  {
    var ranks := RanksOf(held, fitness);
    var scored := Scored(held, fitness);
    Sorting.SortCorrect(ranks, Fitter);
    forall i | 0 <= i < |scored|
      ensures scored[i].index < |held| && scored[i].fitness == fitness(held[scored[i].index]) {
      assert scored[i] in multiset(scored);
      assert scored[i] in ranks;
    }
    forall k | 0 <= k < |held| ensures fitness(held[k]) <= scored[0].fitness {
      assert ranks[k] in multiset(ranks);
      assert ranks[k] in scored;
      var i :| 0 <= i < |scored| && scored[i] == ranks[k];
      assert i > 0 ==> !Fitter(scored[i], scored[0]);
    }
  }

  lemma {:induction false} FirstTie(s: seq<Rank>, x: Rank) returns (i: nat)
    requires x in s
    ensures i < |s| && Sorting.Ties(s, x, Fitter) != [] && Sorting.Ties(s, x, Fitter)[0] == s[i]
    ensures s[i].fitness == x.fitness && forall k :: 0 <= k < i ==> s[k].fitness != x.fitness
  {
    if s[0].fitness == x.fitness {
      i := 0;
    } else {
      i := FirstTie(s[1..], x);
      i := i + 1;
    }
  }

  /** The sort is stable, so the first of the scores is that of the earliest among
      the fittest. */
  lemma EarliestBest(held: seq<Colours>, fitness: Colours -> real, k: nat)
    requires held != [] && k < Scored(held, fitness)[0].index < |held|
    ensures fitness(held[k]) < Scored(held, fitness)[0].fitness
  {
    var ranks, scored := RanksOf(held, fitness), Scored(held, fitness);
    Sorting.SortCorrect(ranks, Fitter);
    ScoredRight(held, fitness);
    assert scored[0] in multiset(ranks);
    var i := FirstTie(ranks, scored[0]);
    assert Sorting.Ties(scored, scored[0], Fitter)[0] == scored[0];
    assert ranks[i] == scored[0];
    assert ranks[k].fitness != scored[0].fitness;
  }

  // ---- runs of the search ----

  /** The best palettes of a scored population, in order. */
  ghost predicate AreSurvivors(parents: seq<Colours>, held: seq<Colours>, scored: seq<Rank>) {
    && |parents| == (if |scored| > NUM_SURVIVORS then NUM_SURVIVORS else |scored|)
    && forall i :: 0 <= i < |parents| ==> scored[i].index < |held| && parents[i] == held[scored[i].index]
  }

  /** The best palette comes first, all others are children of survivors. */
  ghost predicate Bred(next: seq<Colours>, parents: seq<Colours>, image: Colours) {
    |next| == NUM_SURVIVORS + NUM_NEWBORNS && Offspring(next, parents, image)
  }

  ghost predicate NextGeneration(held: seq<Colours>, next: seq<Colours>, image: Colours, fitness: Colours -> real) {
    exists parents :: AreSurvivors(parents, held, Scored(held, fitness)) && Bred(next, parents, image)
  }

  type Generations = seq<seq<Colours>>

  ghost predicate IsRun(gens: Generations, image: Colours, fitness: Colours -> real, count: nat) {
    && gens != [] && Initial(gens[0], count)
    && (forall i :: 0 <= i < |gens| ==> |gens[i]| == NUM_SURVIVORS + NUM_NEWBORNS)
    && forall i :: 0 < i < |gens| ==> Follows(gens, i, image, fitness)
  }

  ghost predicate Follows(gens: Generations, i: nat, image: Colours, fitness: Colours -> real)
    requires 0 < i < |gens|
  {
    NextGeneration(gens[i-1], gens[i], image, fitness)
  }

  function BestFitness(held: seq<Colours>, fitness: Colours -> real): real
    requires held != []
  {
    ScoredRight(held, fitness);
    Scored(held, fitness)[0].fitness
  }

  /** Of two neighbouring generations the later is no less fit. */
  lemma NextNoWorse(held: seq<Colours>, next: seq<Colours>, image: Colours, fitness: Colours -> real)
    requires held != [] && NextGeneration(held, next, image, fitness)
    ensures next != [] && BestFitness(held, fitness) <= BestFitness(next, fitness)
  {
    var parents :| AreSurvivors(parents, held, Scored(held, fitness)) && Bred(next, parents, image);
    ScoredRight(held, fitness);
    ScoredRight(next, fitness);
    assert fitness(next[0]) == BestFitness(held, fitness);
  }

  /** The best fitness never falls: no palette of any generation is fitter than the
      best of a later one. */
  lemma {:induction false} NeverFalls(gens: Generations, image: Colours, fitness: Colours -> real, count: nat,
                                      i: nat, j: nat, k: nat)
    requires IsRun(gens, image, fitness, count) && i <= j < |gens| && k < |gens[i]|
    ensures fitness(gens[i][k]) <= BestFitness(gens[j], fitness)
    decreases j
  {
    if i == j {
      ScoredRight(gens[i], fitness);
    } else {
      NeverFalls(gens, image, fitness, count, i, j - 1, k);
      assert Follows(gens, j, image, fitness);
      NextNoWorse(gens[j-1], gens[j], image, fitness);
    }
  }

  /** Every colour stands at a position where the first population had it, or is a
      colour of the image. */
  ghost predicate Provenance(c: Colours, first: seq<Colours>, image: Colours, count: nat) {
    |c| == count && forall j :: 0 <= j < count ==>
      c[j] in image || exists k :: 0 <= k < |first| && j < |first[k]| && first[k][j] == c[j]
  }

  lemma ChildProvenance(c: Colours, parents: seq<Colours>, first: seq<Colours>, image: Colours, count: nat)
    requires Child(c, parents, image) && forall i :: 0 <= i < |parents| ==> Provenance(parents[i], first, image, count)
    ensures Provenance(c, first, image, count)
  {
    var p, q :| 0 <= p < |parents| && 0 <= q < |parents| && |parents[p]| == |parents[q]|
                && Mutation(Zip(parents[p], parents[q]), c, image);
    var z := Zip(parents[p], parents[q]);
    assert Provenance(parents[p], first, image, count) && Provenance(parents[q], first, image, count);
    forall j | 0 <= j < count && c[j] !in image
      ensures exists k :: 0 <= k < |first| && j < |first[k]| && first[k][j] == c[j]
    {
      assert c[j] == z[j];
      assert z[j] == parents[p][j] || z[j] == parents[q][j];
    }
  }

  /** In no generation is there a colour of any other origin. */
  lemma {:induction false} KnownOrigin(gens: Generations, image: Colours, fitness: Colours -> real, count: nat,
                                       i: nat, k: nat)
    requires IsRun(gens, image, fitness, count) && i < |gens| && k < |gens[i]|
    ensures Provenance(gens[i][k], gens[0], image, count)
    decreases i
  {
    if i > 0 {
      assert Follows(gens, i, image, fitness);
      var parents :| AreSurvivors(parents, gens[i-1], Scored(gens[i-1], fitness)) && Bred(gens[i], parents, image);
      forall m | 0 <= m < |parents| ensures Provenance(parents[m], gens[0], image, count) {
        KnownOrigin(gens, image, fitness, count, i - 1, Scored(gens[i-1], fitness)[m].index);
      }
      if k > 0 {
        ChildProvenance(gens[i][k], parents, gens[0], image, count);
      }
    }
  }

  // ---- driver.go: the generation loop ----

  method Select(population: seq<Individual>, ghost held: seq<Colours>, scored: seq<Rank>, count: nat)
      returns (survivors: seq<Individual>, ghost parents: seq<Colours>)
    requires Population(population, count) && Holds(population, held, count)
    requires scored != [] && forall i :: 0 <= i < |scored| ==> scored[i].index < |population|
    ensures survivors != [] && Population(survivors, count) && Holds(survivors, parents, count)
    ensures AreSurvivors(parents, held, scored)
  {
    var n := if |scored| > NUM_SURVIVORS then NUM_SURVIVORS else |scored|;
    survivors, parents := [], [];
    for i := 0 to n
      invariant |survivors| == |parents| == i
      invariant forall k :: 0 <= k < i ==>
                  survivors[k] == population[scored[k].index] && parents[k] == held[scored[k].index]
    {
      survivors, parents := survivors + [population[scored[i].index]], parents + [held[scored[i].index]];
    }
  }

  /** The best fitness was still rising in every generation before the last. */
  ghost predicate Rising(gens: Generations, image: Colours, fitness: Colours -> real, count: nat)
    requires IsRun(gens, image, fitness, count)
  {
    forall i :: 0 < i < |gens| - 1 ==> Rose(gens, i, fitness)
  }

  ghost predicate Rose(gens: Generations, i: nat, fitness: Colours -> real)
    requires 0 < i < |gens| && gens[i] != [] && gens[i-1] != []
  {
    BestFitness(gens[i], fitness) != BestFitness(gens[i-1], fitness)
  }

  /** The search went on for all its generations, or until one brought nothing. */
  ghost predicate Stopped(gens: Generations, image: Colours, fitness: Colours -> real, count: nat)
    requires IsRun(gens, image, fitness, count)
  {
    var last := |gens| - 1;
    last <= MAX_GENERATIONS
    && (last < MAX_GENERATIONS ==> last > 0 && BestFitness(gens[last], fitness) == BestFitness(gens[last-1], fitness))
  }

  /** A run from its first population to the generation it ends with. */
  ghost predicate WholeRun(gens: Generations, image: Colours, fitness: Colours -> real, count: nat) {
    IsRun(gens, image, fitness, count) && Rising(gens, image, fitness, count) && Stopped(gens, image, fitness, count)
  }

  ghost predicate Found(best: Colours, gens: Generations, image: Colours, fitness: Colours -> real, count: nat) {
    WholeRun(gens, image, fitness, count) && IsBest(best, gens[|gens|-1], fitness)
  }

  predicate Uncancelled(cancelled: nat -> bool, n: nat) {
    forall g :: 0 <= g < n ==> !cancelled(g)
  }

  /** The context is first found cancelled at the start of generation n - 1. */
  predicate CancelledFirst(cancelled: nat -> bool, n: nat) {
    0 < n <= MAX_GENERATIONS && Uncancelled(cancelled, n - 1) && cancelled(n - 1)
  }

  /** It is not found cancelled at the start of any of n generations; what is left when
      the limit is reached is not begun. */
  predicate WentOn(cancelled: nat -> bool, n: nat) {
    Uncancelled(cancelled, if n <= MAX_GENERATIONS then n else MAX_GENERATIONS)
  }

  /** Extract returns nothing for an empty image or when its context is found cancelled
      at the start of a generation; else it returns the fittest palette, and the earliest of
      those, of the last generation of a run; gens is that run. */
  method Extract(image: Colours, fitness: Colours -> real, count: nat, cancelled: nat -> bool)
      returns (best: Option<Colours>, ghost gens: Generations)
    requires count > 0
    ensures image == [] ==> best == None
    ensures best.None? && image != [] ==> CancelledFirst(cancelled, |gens|)
    ensures best.Some? ==> WentOn(cancelled, |gens|)
    ensures best.Some? ==> Found(best.value, gens, image, fitness, count)
  {
    gens := [];
    if |image| == 0 {
      return None, gens;
    }
    var population, held := InitPopulation(count, NUM_SURVIVORS + NUM_NEWBORNS);
    gens := Begin(held, image, fitness, count);
    var done;
    done, population, held, gens := Generate(population, image, fitness, count, cancelled, held, gens);
    if !done {
      return None, gens;
    }
    var winner := Winner(population, held, fitness, count);
    best := Some(winner);
  }

  /** The generation loop; done tells a finished search from a cancelled one. */
  method Generate(first: seq<Individual>, image: Colours, fitness: Colours -> real, count: nat, cancelled: nat -> bool,
                  ghost held: seq<Colours>, ghost gens: Generations)
      returns (done: bool, population: seq<Individual>, ghost held': seq<Colours>, ghost gens': Generations)
    requires count > 0 && Carries(first, held, count) && OnCourse(gens, held, 0, 0.0, image, fitness, count)
    ensures !done ==> CancelledFirst(cancelled, |gens'|)
    ensures done ==>
              Carries(population, held', count) && WholeRun(gens', image, fitness, count)
              && gens'[|gens'|-1] == held' && WentOn(cancelled, |gens'|)
  {
    population, held', gens' := first, held, gens;
    var generation := 0;
    var prevBestFitness := 0.0;
    while generation < MAX_GENERATIONS
      invariant generation <= MAX_GENERATIONS && Carries(population, held', count)
      invariant OnCourse(gens', held', generation, prevBestFitness, image, fitness, count)
      invariant Uncancelled(cancelled, generation)
    {
      if cancelled(generation) {
        return false, population, held', gens';
      }
      var converged, bestFitness;
      converged, population, bestFitness, held', gens' :=
        Turn(population, generation, prevBestFitness, image, fitness, count, held', gens');
      if converged {
        break;
      }
      prevBestFitness := bestFitness;
      generation := generation + 1;
    }
    CourseStops(gens', held', generation, prevBestFitness, image, fitness, count);
    StopsUncancelled(cancelled, generation);
    done := true;
  }

  /** The population is alive and holds those palettes. */
  ghost predicate Carries(population: seq<Individual>, held: seq<Colours>, count: nat)
    reads set i | 0 <= i < |population| :: population[i].backing
  {
    held != [] && Population(population, count) && Holds(population, held, count)
  }

  lemma Begin(held: seq<Colours>, image: Colours, fitness: Colours -> real, count: nat) returns (gens: Generations)
    requires Initial(held, count) && |held| == NUM_SURVIVORS + NUM_NEWBORNS
    ensures OnCourse(gens, held, 0, 0.0, image, fitness, count)
  {
    gens := [held];
  }

  lemma TopScore(held: seq<Colours>, fitness: Colours -> real)
    requires held != []
    ensures Scored(held, fitness) != [] && Scored(held, fitness)[0].fitness == BestFitness(held, fitness)
  {
    ScoredRight(held, fitness);
  }

  lemma CourseStops(gens: Generations, held: seq<Colours>, generation: nat, prevBest: real,
                    image: Colours, fitness: Colours -> real, count: nat)
    requires OnCourse(gens, held, generation, prevBest, image, fitness, count) && generation <= MAX_GENERATIONS
    requires generation < MAX_GENERATIONS ==> generation > 0 && BestFitness(held, fitness) == prevBest
    ensures WholeRun(gens, image, fitness, count) && gens[|gens|-1] == held
  {
  }

  lemma StopsUncancelled(cancelled: nat -> bool, generation: nat)
    requires Uncancelled(cancelled, generation) && generation <= MAX_GENERATIONS
    requires generation < MAX_GENERATIONS ==> !cancelled(generation)
    ensures WentOn(cancelled, generation + 1)
  {
  }

  /** The state of the loop: held is the last generation of a run that rose so far. */
  ghost predicate OnCourse(gens: Generations, held: seq<Colours>, generation: nat, prevBest: real,
                           image: Colours, fitness: Colours -> real, count: nat) {
    && IsRun(gens, image, fitness, count) && Rising(gens, image, fitness, count)
    && generation == |gens| - 1 && held == gens[generation] && held != []
    && (generation > 0 ==> prevBest == BestFitness(gens[generation-1], fitness))
  }

  lemma CourseKept(gens: Generations, held: seq<Colours>, next: seq<Colours>, generation: nat, prevBest: real,
                   image: Colours, fitness: Colours -> real, count: nat) returns (gens': Generations)
    requires OnCourse(gens, held, generation, prevBest, image, fitness, count)
    requires NextGeneration(held, next, image, fitness) && |next| == NUM_SURVIVORS + NUM_NEWBORNS
    requires generation > 0 ==> BestFitness(held, fitness) != prevBest
    ensures OnCourse(gens', next, generation + 1, BestFitness(held, fitness), image, fitness, count)
  {
    gens' := gens + [next];
    RunGrows(gens, next, image, fitness, count);
  }

  /** One generation: score, stop if that brought nothing, else select and evolve. */
  method Turn(population: seq<Individual>, generation: nat, prevBest: real, image: Colours,
              fitness: Colours -> real, count: nat,
              ghost held: seq<Colours>, ghost gens: Generations)
      returns (converged: bool, population': seq<Individual>, bestFitness: real,
               ghost held': seq<Colours>, ghost gens': Generations)
    requires count > 0 && Carries(population, held, count)
    requires OnCourse(gens, held, generation, prevBest, image, fitness, count)
    ensures converged == (generation > 0 && BestFitness(held, fitness) == prevBest)
    ensures converged ==> population' == population && held' == held && gens' == gens
    ensures !converged ==>
              Carries(population', held', count)
              && OnCourse(gens', held', generation + 1, bestFitness, image, fitness, count)
  {
    population', held', gens' := population, held, gens;
    var scored := ScorePop(population, held, fitness, count);
    TopScore(held, fitness);
    bestFitness := scored[0].fitness;
    converged := generation > 0 && bestFitness == prevBest;
    if !converged {
      population', held' := Breeding(population, held, scored, image, fitness, count);
      gens' := CourseKept(gens, held, held', generation, prevBest, image, fitness, count);
    }
  }

  /** The second half of a turn: select and evolve. */
  method Breeding(population: seq<Individual>, ghost held: seq<Colours>, scored: seq<Rank>, image: Colours,
                  fitness: Colours -> real, count: nat)
      returns (population': seq<Individual>, ghost held': seq<Colours>)
    requires count > 0 && Carries(population, held, count)
    requires scored == Scored(held, fitness)
    ensures Carries(population', held', count)
    ensures NextGeneration(held, held', image, fitness) && |held'| == NUM_SURVIVORS + NUM_NEWBORNS
  {
    ScoredRight(held, fitness);
    ghost var parents;
    var survivors;
    survivors, parents := Select(population, held, scored, count);
    population', held' := Evolve(survivors, parents, image, count);
    assert Bred(held', parents, image);
  }

  method Winner(population: seq<Individual>, ghost held: seq<Colours>, fitness: Colours -> real, count: nat)
      returns (best: Colours)
    requires Carries(population, held, count)
    ensures IsBest(best, held, fitness)
  {
    var scored := ScorePop(population, held, fitness, count);
    ScoredRight(held, fitness);
    best := ColoursOf(population[scored[0].index]);
    forall m | 0 <= m < scored[0].index ensures fitness(held[m]) < fitness(best) {
      EarliestBest(held, fitness, m);
    }
  }

  ghost predicate IsBest(c: Colours, held: seq<Colours>, fitness: Colours -> real) {
    exists k :: 0 <= k < |held| && held[k] == c
      && (forall m :: 0 <= m < |held| ==> fitness(held[m]) <= fitness(c))
      && (forall m :: 0 <= m < k ==> fitness(held[m]) < fitness(c))
  }

  lemma RunGrows(gens: Generations, next: seq<Colours>, image: Colours, fitness: Colours -> real, count: nat)
    requires IsRun(gens, image, fitness, count) && Rising(gens, image, fitness, count)
    requires NextGeneration(gens[|gens|-1], next, image, fitness) && |next| == NUM_SURVIVORS + NUM_NEWBORNS
    requires |gens| > 1 ==> BestFitness(gens[|gens|-1], fitness) != BestFitness(gens[|gens|-2], fitness)
    ensures IsRun(gens + [next], image, fitness, count) && Rising(gens + [next], image, fitness, count)
  {
    var g := gens + [next];
    forall i | 0 < i < |g| ensures Follows(g, i, image, fitness) {
      assert i < |gens| ==> Follows(gens, i, image, fitness);
    }
    forall i | 0 < i < |gens| ensures Rose(g, i, fitness) {
      assert i < |gens| - 1 ==> Rose(gens, i, fitness);
    }
  }
}
