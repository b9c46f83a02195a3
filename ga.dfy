/**
 * TravellingSalesmanGA.py, `main()`: a population of chromosomes, each a
 * random ordering of the city names, is evolved for a fixed number of epochs.
 * Each epoch scores every chromosome, ranks the population by score, keeps
 * the better half as the mating pool and refills the population with
 * mutated offspring of random pairs from the pool.
 *
 * The score (`path_length`, a floating-point sum of Euclidean distances) is
 * an abstract function from allele lists to `int`; every draw of Python's
 * `random` module reads one value of the oracle `draws` at a position the
 * caller threads through, so each contract holds for every random sequence.
 */
module TravellingSalesmanGA {
  import opened Seqs
  import opened Chromosomes

  /** `randrange(bound)` as the draw at position `t`. */
  function RandRange(draws: nat -> nat, t: nat, bound: int): (r: nat)
    requires bound > 0
    ensures r < bound
  {
    draws(t) % bound
  }

  /** 2^53: `random()` returns a multiple of 2^-53 in [0, 1). */
  const FractionDenominator: nat := 0x20_0000_0000_0000

  /** `random()` as the draw at position `t`. */
  function RandomFraction(draws: nat -> nat, t: nat): (r: real)
    ensures 0.0 <= r < 1.0
  {
    (draws(t) % FractionDenominator) as real / FractionDenominator as real
  }

  /**
   * `random.shuffle(xs)` as Python 2 implements it: for `i` from the last
   * position down to 1, exchange `xs[i]` with `xs[randrange(i + 1)]`.
   */
  method Shuffle<A>(xs: array<A>, draws: nat -> nat, t0: nat) returns (t: nat)
    modifies xs
    ensures multiset(xs[..]) == multiset(old(xs[..]))
    ensures t == t0 + (if xs.Length > 1 then xs.Length - 1 else 0)
  {
    t := t0;
    var i := xs.Length - 1;
    while i > 0
      invariant 0 <= i < xs.Length || (i == -1 && xs.Length == 0)
      invariant multiset(xs[..]) == multiset(old(xs[..]))
      invariant t == t0 + (xs.Length - 1 - i)
      decreases i
    {
      var j := RandRange(draws, t, i + 1);
      t := t + 1;
      ghost var before := xs[..];
      xs[i], xs[j] := xs[j], xs[i];
      assert xs[..] == Swap(before, j, i);
      SwapKeepsAlleles(before, j, i);
      i := i - 1;
    }
  }

  /**
   * What every member of the population is: a chromosome that visits each
   * city exactly once, with the default swap length for that many cities.
   */
  ghost predicate IsTour<A>(c: Chromosome<A>, cities: seq<A>)
    reads c
  {
    && c.Valid()
    && c.length == |cities|
    && c.swapLength == DefaultSwapLength(|cities|)
    && IsPermutationOf(c.chromosome, cities)
  }

  /** Every member of `population` is a tour, and no chromosome object occurs twice. */
  ghost predicate IsPopulation<A>(population: seq<Chromosome<A>>, cities: seq<A>)
    reads population
  {
    && (forall i :: 0 <= i < |population| ==> IsTour(population[i], cities))
    && Distinct(population)
  }

  /**
   * Lines 69-76: `n` chromosomes, each built from a fresh copy of the city
   * list shuffled in place.
   */
  method InitialPopulation<A(==)>(cities: seq<A>, n: int, draws: nat -> nat, t0: nat)
    returns (population: seq<Chromosome<A>>, t: nat)
    ensures |population| == if n > 0 then n else 0
    ensures IsPopulation(population, cities)
    ensures forall i :: 0 <= i < |population| ==> fresh(population[i])
  {
    population := [];
    t := t0;
    var i := 0;
    while i < n
      invariant i <= (if n > 0 then n else 0)
      invariant |population| == i
      invariant IsPopulation(population, cities)
      invariant forall k :: 0 <= k < |population| ==> fresh(population[k])
    {
      var cityList := new A[|cities|](k requires 0 <= k < |cities| => cities[k]);
      assert cityList[..] == cities;
      t := Shuffle(cityList, draws, t);
      var c := new Chromosome(cityList[..], 0);
      population := population + [c];
      i := i + 1;
    }
  }

  /** Line 93-95: `path_lengths`, the score of every chromosome, keyed by the chromosome object. */
  function ScoreTable<A>(population: seq<Chromosome<A>>, score: seq<A> -> int): (table: map<Chromosome<A>, int>)
    reads population
    ensures table.Keys == Elements(population)
    ensures forall i :: 0 <= i < |population| ==> table[population[i]] == score(population[i].chromosome)
  {
    if population == [] then map[]
    else
      var last := population[|population| - 1];
      ScoreTable(population[..|population| - 1], score)[last := score(last.chromosome)]
  }

  /** Lines 93-95: the loop filling `path_lengths`. */
  method ScorePopulation<A>(population: seq<Chromosome<A>>, score: seq<A> -> int)
    returns (pathLengths: map<Chromosome<A>, int>)
    ensures pathLengths == ScoreTable(population, score)
  {
    pathLengths := map[];
    for i := 0 to |population|
      invariant pathLengths == ScoreTable(population[..i], score)
    {
      assert population[..i + 1][..i] == population[..i];
      pathLengths := pathLengths[population[i] := score(population[i].chromosome)];
    }
    assert population[..|population|] == population;
  }

  /** Every member of `xs` has a score in `key`. */
  predicate AllScored<K>(xs: seq<K>, key: map<K, int>)
  {
    forall i :: 0 <= i < |xs| ==> xs[i] in key
  }

  /** `xs` is in ascending order of score. */
  predicate SortedBy<K>(xs: seq<K>, key: map<K, int>)
    requires AllScored(xs, key)
  {
    forall i, j :: 0 <= i < j < |xs| ==> key[xs[i]] <= key[xs[j]]
  }

  /** Places `x` before the first member of `sorted` that scores no less. */
  function Insert<K>(x: K, sorted: seq<K>, key: map<K, int>): (r: seq<K>)
    requires x in key && AllScored(sorted, key) && SortedBy(sorted, key)
    ensures multiset(r) == multiset(sorted) + multiset{x}
    ensures AllScored(r, key) && SortedBy(r, key)
  {
    if sorted == [] || key[x] <= key[sorted[0]] then
      SortedCons(x, sorted, key);
      [x] + sorted
    else
      SortedTail(sorted, key);
      var rest := Insert(x, sorted[1..], key);
      LowerBoundKept(sorted[0], sorted[1..], x, rest, key);
      SortedCons(sorted[0], rest, key);
      assert sorted == [sorted[0]] + sorted[1..];
      [sorted[0]] + rest
  }

  /** The tail of a sorted list is sorted, and its head scores no more than any member of the tail. */
  lemma SortedTail<K>(sorted: seq<K>, key: map<K, int>)
    requires sorted != [] && AllScored(sorted, key) && SortedBy(sorted, key)
    ensures AllScored(sorted[1..], key) && SortedBy(sorted[1..], key)
    ensures forall i :: 0 <= i < |sorted| - 1 ==> key[sorted[0]] <= key[sorted[1..][i]]
  {
    var tail := sorted[1..];
    assert forall i :: 0 <= i < |tail| ==> tail[i] == sorted[i + 1];
  }

  /** A sorted list stays sorted behind a head that scores no more than its own head. */
  lemma SortedCons<K>(h: K, xs: seq<K>, key: map<K, int>)
    requires h in key && AllScored(xs, key) && SortedBy(xs, key)
    requires xs != [] ==> key[h] <= key[xs[0]]
    ensures AllScored([h] + xs, key) && SortedBy([h] + xs, key)
  {
    var r := [h] + xs;
    forall i, j | 0 <= i < j < |r| ensures key[r[i]] <= key[r[j]] {
      if i == 0 && j > 1 {
        assert key[xs[0]] <= key[xs[j - 1]];
      }
    }
  }

  /** A bound below every member of `xs` and below `x` is below every member of a rearrangement of `xs + [x]`. */
  lemma LowerBoundKept<K>(h: K, xs: seq<K>, x: K, r: seq<K>, key: map<K, int>)
    requires h in key && x in key && AllScored(xs, key) && AllScored(r, key)
    requires (forall i :: 0 <= i < |xs| ==> key[h] <= key[xs[i]]) && key[h] <= key[x]
    requires multiset(r) == multiset(xs) + multiset{x}
    ensures r != [] ==> key[h] <= key[r[0]]
  {
    if r != [] {
      assert r[0] in multiset(r);
      if r[0] != x {
        assert r[0] in multiset(xs);
      }
    }
  }

  /**
   * Line 97: `sorted(path_lengths, key=path_lengths.get)`, the population
   * ranked by ascending score (an insertion sort; members of equal score keep
   * their order).
   */
  function Rank<K>(xs: seq<K>, key: map<K, int>): (r: seq<K>)
    requires AllScored(xs, key)
    ensures multiset(r) == multiset(xs)
    ensures AllScored(r, key) && SortedBy(r, key)
  {
    if xs == [] then []
    else
      assert xs == [xs[0]] + xs[1..];
      Insert(xs[0], Rank(xs[1..], key), key)
  }

  /** The head of a ranking is a member of the population, and no member scores less. */
  lemma RankHeadIsBest<K>(xs: seq<K>, key: map<K, int>)
    requires AllScored(xs, key) && xs != []
    ensures |Rank(xs, key)| == |xs|
    ensures Rank(xs, key)[0] in xs
    ensures forall i :: 0 <= i < |xs| ==> key[Rank(xs, key)[0]] <= key[xs[i]]
  {
    var r := Rank(xs, key);
    assert |r| == |multiset(r)| == |multiset(xs)| == |xs|;
    assert r[0] in multiset(r);
    forall i | 0 <= i < |xs| ensures key[r[0]] <= key[xs[i]] {
      assert xs[i] in multiset(r);
      var k :| 0 <= k < |r| && r[k] == xs[i];
      if k > 0 {
        assert key[r[0]] <= key[r[k]];
      }
    }
  }

  /**
   * Lines 114-124 append offspring two at a time while fewer than `half`
   * exist, ending with `half` rounded up to an even count.
   */
  function RoundUpEven(half: int): (r: nat)
    ensures r % 2 == 0
    ensures half <= r && (half >= 0 ==> r <= half + 1)
    ensures forall k: int :: k % 2 == 0 && half <= k && 0 <= k ==> r <= k
  {
    if half <= 0 then 0 else if half % 2 == 0 then half else half + 1
  }

  /**
   * The size of every population after the first: the mating pool plus the
   * offspring. It is as large as the first exactly when `n / 2` and `n` have
   * the same parity: 100 keeps 100, but 10 becomes 11, and 11 stays 11.
   */
  function NextPopulationSize(n: int): (r: int)
    ensures n >= 0 ==> (r == n <==> (n / 2) % 2 == n % 2)
    ensures n >= 0 ==> n / 2 <= r
  {
    n / 2 + RoundUpEven(n / 2)
  }

  /**
   * Lines 119-122: with `random()` below `mutationProbability` the child is
   * swap-mutated at two drawn positions. It stays a tour either way.
   */
  method MaybeMutateSwap<A(==)>(c: Chromosome<A>, cities: seq<A>, mutationProbability: real,
                                draws: nat -> nat, t0: nat)
    returns (t: nat)
    requires IsTour(c, cities) && |cities| >= 1
    modifies c
    ensures IsTour(c, cities)
    ensures RandomFraction(draws, t0) < mutationProbability ==>
      c.chromosome == Swap(old(c.chromosome), RandRange(draws, t0 + 1, |cities|), RandRange(draws, t0 + 2, |cities|))
    ensures RandomFraction(draws, t0) >= mutationProbability ==> c.chromosome == old(c.chromosome)
  {
    t := t0 + 1;
    if RandomFraction(draws, t0) < mutationProbability {
      c.MutateSwap(RandRange(draws, t0 + 1, c.length), RandRange(draws, t0 + 2, c.length));
      t := t0 + 3;
    }
  }

  /**
   * Lines 115-122: one round of reproduction: a mother and a father drawn
   * (`random.choice`) from the pool, `mate_no_duplicates`, then a possible
   * swap mutation of each child. Both children are new tours.
   */
  method BreedPair<A(==)>(pool: seq<Chromosome<A>>, cities: seq<A>, mutationProbability: real,
                          draws: nat -> nat, t0: nat)
    returns (offspring1: Chromosome<A>, offspring2: Chromosome<A>, t: nat)
    requires pool != [] && IsPopulation(pool, cities)
    requires Distinct(cities) && |cities| >= 2
    ensures fresh(offspring1) && fresh(offspring2) && offspring1 != offspring2
    ensures IsTour(offspring1, cities) && IsTour(offspring2, cities)
  {
    var mother := pool[RandRange(draws, t0, |pool|)];
    var father := pool[RandRange(draws, t0 + 1, |pool|)];
    var start := RandRange(draws, t0 + 2, mother.length - mother.swapLength);
    PermutationOfDistinct(mother.chromosome, cities);
    offspring1, offspring2 := mother.MateNoDuplicates(father, start);
    t := MaybeMutateSwap(offspring1, cities, mutationProbability, draws, t0 + 3);
    t := MaybeMutateSwap(offspring2, cities, mutationProbability, draws, t);
  }

  /**
   * Lines 112-124: pairs of offspring are produced until at least `half`
   * exist. Every child is a new tour; the pool is left untouched.
   */
  method Breed<A(==)>(pool: seq<Chromosome<A>>, cities: seq<A>, half: int, mutationProbability: real,
                      draws: nat -> nat, t0: nat)
    returns (offspring: seq<Chromosome<A>>, t: nat)
    requires pool != [] && IsPopulation(pool, cities)
    requires Distinct(cities) && |cities| >= 2
    ensures |offspring| == RoundUpEven(half)
    ensures IsPopulation(offspring, cities)
    ensures forall i :: 0 <= i < |offspring| ==> fresh(offspring[i])
  {
    offspring := [];
    t := t0;
    while |offspring| < half
      invariant |offspring| % 2 == 0 && |offspring| <= RoundUpEven(half)
      invariant IsPopulation(offspring, cities)
      invariant forall i :: 0 <= i < |offspring| ==> fresh(offspring[i])
      decreases half - |offspring|
    {
      var offspring1, offspring2;
      offspring1, offspring2, t := BreedPair(pool, cities, mutationProbability, draws, t);
      AppendFreshPair(offspring, offspring1, offspring2, cities);
      offspring := offspring + [offspring1, offspring2];
    }
  }

  /** Appending two new, distinct tours to a population keeps it a population. */
  lemma AppendFreshPair<A>(population: seq<Chromosome<A>>, c1: Chromosome<A>, c2: Chromosome<A>, cities: seq<A>)
    requires IsPopulation(population, cities) && IsTour(c1, cities) && IsTour(c2, cities)
    requires c1 != c2 && c1 !in population && c2 !in population
    ensures IsPopulation(population + [c1, c2], cities)
  {
    var next := population + [c1, c2];
    forall i, j | 0 <= i < j < |next| ensures next[i] != next[j] {
      if j >= |population| && i < |population| {
        assert next[i] in population;
      }
    }
  }

  /**
   * Line 108: the mating pool, the first `h` members of a ranking of a
   * population, is a population of tours itself.
   */
  lemma RankedPoolIsPopulation<A>(population: seq<Chromosome<A>>, ranked: seq<Chromosome<A>>, h: nat, cities: seq<A>)
    requires IsPopulation(population, cities) && multiset(ranked) == multiset(population) && h <= |ranked|
    ensures IsPopulation(ranked[..h], cities)
  {
    PermutationOfDistinct(ranked, population);
    forall i | 0 <= i < h ensures IsTour(ranked[i], cities) {
      assert ranked[i] in multiset(population);
      var k :| 0 <= k < |population| && population[k] == ranked[i];
    }
  }

  /** Line 128: two populations without a chromosome object in common make one population. */
  lemma ConcatPopulation<A>(pool: seq<Chromosome<A>>, offspring: seq<Chromosome<A>>, cities: seq<A>)
    requires IsPopulation(pool, cities) && IsPopulation(offspring, cities)
    requires forall i, j :: 0 <= i < |pool| && 0 <= j < |offspring| ==> pool[i] != offspring[j]
    ensures IsPopulation(pool + offspring, cities)
  {
    var next := pool + offspring;
    forall i, j | 0 <= i < j < |next| ensures next[i] != next[j] {
      if i < |pool| && j >= |pool| {
        assert next[j] == offspring[j - |pool|];
      } else if i >= |pool| {
        assert next[i] == offspring[i - |pool|] && next[j] == offspring[j - |pool|];
      }
    }
  }

  /**
   * Lines 93-97: score every chromosome and rank the keys of the score
   * table. A population holds no chromosome twice, so those keys are its
   * members and the ranking repeats none of them. The head of the ranking is
   * a member of the population with the lowest score.
   */
  method Evaluate<A>(population: seq<Chromosome<A>>, score: seq<A> -> int)
    returns (ranked: seq<Chromosome<A>>, bestScore: int)
    requires population != [] && Distinct(population)
    ensures multiset(ranked) == multiset(population) && |ranked| == |population|
    ensures Distinct(ranked)
    ensures forall i, j :: 0 <= i < j < |ranked| ==> score(ranked[i].chromosome) <= score(ranked[j].chromosome)
    ensures bestScore == score(ranked[0].chromosome)
    ensures exists i :: 0 <= i < |population| && population[i] == ranked[0]
    ensures forall i :: 0 <= i < |population| ==> bestScore <= score(population[i].chromosome)
  {
    var pathLengths := ScorePopulation(population, score);
    ranked := Rank(population, pathLengths);
    RankHeadIsBest(population, pathLengths);
    forall i | 0 <= i < |ranked| ensures pathLengths[ranked[i]] == score(ranked[i].chromosome) {
      assert ranked[i] in multiset(population);
      var k :| 0 <= k < |population| && population[k] == ranked[i];
    }
    bestScore := pathLengths[ranked[0]];
    PermutationOfDistinct(ranked, population);
  }

  /**
   * Lines 108-128: the mating pool is the first `n / 2` of the ranking, and
   * the next population is the pool followed by its offspring.
   */
  method NextGeneration<A(==)>(ranked: seq<Chromosome<A>>, cities: seq<A>, n: int, mutationProbability: real,
                               draws: nat -> nat, t0: nat)
    returns (population: seq<Chromosome<A>>, t: nat)
    requires IsPopulation(ranked, cities) && 2 <= n && n / 2 <= |ranked|
    requires Distinct(cities) && |cities| >= 2
    ensures IsPopulation(population, cities)
    ensures |population| == NextPopulationSize(n)
    ensures population[..n / 2] == ranked[..n / 2]
  {
    var pool := Take(ranked, n / 2);
    assert pool == ranked[..n / 2];
    RankedPoolIsPopulation(ranked, ranked, n / 2, cities);
    var offspring;
    offspring, t := Breed(pool, cities, n / 2, mutationProbability, draws, t0);
    ConcatPopulation(pool, offspring, cities);
    population := pool + offspring;
    assert population[..n / 2] == pool;
  }

  /** Each printed best score is no worse than the ones before it. */
  predicate NonIncreasing(history: seq<int>)
  {
    forall i, j :: 0 <= i < j < |history| ==> history[j] <= history[i]
  }

  /** Recording a score no worse than the last one keeps the history non-increasing. */
  lemma RecordBest(history: seq<int>, bestScore: int)
    requires NonIncreasing(history)
    requires history != [] ==> bestScore <= history[|history| - 1]
    ensures NonIncreasing(history + [bestScore])
  {
    var h := history + [bestScore];
    forall i, j | 0 <= i < j < |h| ensures h[j] <= h[i] {
      if j == |history| && i < |history| - 1 {
        assert history[|history| - 1] <= history[i];
      }
    }
  }

  /**
   * Lines 69-128, the evolution of `main()`: an initial population of `n`
   * shuffled tours, then one pass per epoch. A pass scores and ranks the
   * population, records the best score (the value the source prints), and,
   * unless `epochs` passes are done, replaces the population by the best
   * `n / 2` (the mating pool) followed by their offspring. `best` is the
   * chromosome reported after the loop, `chromosomes[0]`.
   *
   * The requirements are where the source fails: `sorted_chromosomes[0]` of
   * an empty population, `random.choice` of an empty mating pool, and
   * `randrange(0)` for a tour of fewer than two cities.
   */
  method Evolve<A(==)>(cities: seq<A>, n: int, epochs: int, mutationProbability: real,
                       score: seq<A> -> int, draws: nat -> nat)
    returns (population: seq<Chromosome<A>>, best: seq<A>, history: seq<int>, epoch: int, ghost bred: nat)
    requires Distinct(cities) && n >= 1
    requires epochs >= 2 ==> n >= 2 && |cities| >= 2
    ensures |history| == (if epochs >= 1 then epochs else 1) && epoch == |history| + 1
    ensures bred == |history| - 1
    ensures |population| == if |history| == 1 then n else NextPopulationSize(n)
    ensures IsPopulation(population, cities)
    ensures NonIncreasing(history)
    ensures exists i :: 0 <= i < |population| && score(population[i].chromosome) == history[|history| - 1]
    ensures forall i :: 0 <= i < |population| ==> history[|history| - 1] <= score(population[i].chromosome)
    ensures |population| >= 1 && best == population[0].chromosome
    ensures |history| >= 2 ==> score(best) == history[|history| - 2]
  {
    var t: nat;
    population, t := InitialPopulation(cities, n, draws, 0);
    history := [];
    epoch := 1;
    bred := 0;
    while true
      invariant 1 <= epoch && |history| == epoch - 1 && (epoch == 1 || epoch <= epochs)
      invariant bred == |history|
      invariant |population| == if epoch == 1 then n else NextPopulationSize(n)
      invariant |population| >= 1 && IsPopulation(population, cities)
      invariant NonIncreasing(history)
      invariant epoch > 1 ==> score(population[0].chromosome) == history[|history| - 1]
      decreases epochs - epoch
    {
      var ranked, bestScore := Evaluate(population, score);
      assert epoch > 1 ==> bestScore <= score(population[0].chromosome);
      RecordBest(history, bestScore);
      history := history + [bestScore];
      epoch := epoch + 1;
      if epoch > epochs {
        break;
      }
      RankedPoolIsPopulation(population, ranked, |ranked|, cities);
      assert ranked[..|ranked|] == ranked;
      population, t := NextGeneration(ranked, cities, n, mutationProbability, draws, t);
      bred := bred + 1;
      assert population[0] == population[..n / 2][0];
    }
    best := population[0].chromosome;
  }
}
