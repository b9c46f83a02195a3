# A verified model of PyGeneticAlgorithm's chromosome operators and TSP evolution loop

This project models two pieces of a small Python 2 genetic-algorithm library in Dafny:

- **The genome operators of `Chromosome.py`.**
  - A chromosome is a list of alleles, with the length `swap_length` of the segment that crossover exchanges.
  - `mate` swaps one segment between two parents.
  - `enforce_all_entries` repairs a crossed list in place, so that every allele of the mother reappears.
  - `mate_no_duplicates` is crossover followed by that repair.
  - There are three mutations: overwrite one position, swap two positions, rotate the list.
- **The generation loop in `main()` of `TravellingSalesmanGA.py`.**
  - It builds a population of shuffled city orderings.
  - Every epoch it scores and ranks the population and keeps the best half as the mating pool.
  - It refills the population with the pool's offspring, each swap-mutated with some probability.
  - It stops after a fixed number of epochs.

The files are:

- `seqs.dfy` (module `Seqs`): the Python list built-ins the code uses, with the counting and pigeonhole facts the proofs need. These are `set(xs)`, `xs.count`, `xs.index`, the "values occurring more than once" set, and slicing with clamped bounds.
- `chromosome.dfy` (module `Chromosomes`):
  - the pure list functions (`Crossover`, `Swap`, `Rotate`, the default swap length) and their lemmas;
  - the repair's invariant and its proof;
  - `class Chromosome` with fields `length`, `chromosome` and `swapLength`. The constructor and the methods `Mate`, `EnforceAllEntries`, `MateNoDuplicates`, `Mutate`, `MutateSwap` and `MutateRotate` each model the source method of the same name. `EnforceAllEntries` works on an `array`, as the source works on a mutable list. `Repaired` has no counterpart in the source: it is the copy-then-repair step that `mate_no_duplicates` performs twice inline (Chromosome.py:84-86), factored out. `chromosome_string` and `value` are not modelled (see "Left out").
- `ga.dfy` (module `TravellingSalesmanGA`):
  - the random draws;
  - `random.shuffle`;
  - the scoring table and the ranking, a stable insertion sort on the score table;
  - the reproduction loops and the epoch loop `Evolve`.

Random choices are explicit inputs:

- `Mate`, `MateNoDuplicates` and the three mutations take the drawn positions as parameters, with the ranges the source draws from. In `EnforceAllEntries`, the two `set.pop()` calls are arbitrary choices (`:|`). So every contract holds for every outcome of the draws.
- In `ga.dfy` every draw of Python's `random` module reads the oracle `draws: nat -> nat` at a position threaded through the calls. `randrange(b)` is `draws(t) % b`, and `random()` is a multiple of 2^-53 in [0, 1).

The path-length fitness is an abstract function `score: seq<A> -> int`.

Behaviour of the code that the model states as it is:

- Nothing validates the configuration. The constructor (Chromosome.py:25-29) accepts an empty list and any explicit `swap_length`, and `mate` takes two parents of any lengths.
  - Parents of unequal length are handled by Python's clamped slicing (`Crossover`).
  - The cases where the code crashes become preconditions. These are `randrange` of a non-positive bound (Chromosome.py:36), and `random.choice` or `[0]` of an empty list.
  - `Evolve` requires what avoids those crashes: at least one chromosome and, once a second epoch breeds, a pool of at least one and tours of at least two cities. With a single city, `randrange(0)` fails at Chromosome.py:75.
  - `Evolve` also requires the cities to be distinct. That prevents no crash: it holds because every tour is a shuffle of `cities.keys()` (TravellingSalesmanGA.py:74), and dictionary keys are distinct.
- The next population is the pool (TravellingSalesmanGA.py:108, `N / 2` chromosomes) plus the offspring (TravellingSalesmanGA.py:114 and 128), which is `N / 2` rounded up to an even count (`NextPopulationSize`). It equals `N` exactly when `N / 2` and `N` have the same parity. So 100 stays 100 and 11 stays 11, but 10 becomes 11.
- The best score per epoch never increases (`Evolve`, `NonIncreasing`). This holds because the pool is carried over unmodified, with the previous best at its head, and only fresh offspring are mutated.
- The genome reported after the loop is `chromosomes[0]` (TravellingSalesmanGA.py:134). After two or more epochs, that is the head of the previous epoch's ranking, not of the final evaluation. After a single epoch, it is the first shuffled chromosome, which was never ranked (`Evolve`, the `best` result).

## Model

| member | source | states |
|---|---|---|
| Seqs.Elements | Chromosome.py:58 | `set(xs)`: the values occurring in the list. What the proofs use of it is in `ElementsCardinality`, `DistinctMultiset` and `CoverIsPermutation` |
| Seqs.Take | Chromosome.py:43 | `xs[:n]`: the first `n` elements, or the whole list when `n` passes its end, with each position kept |
| Seqs.Drop | Chromosome.py:45 | `xs[n:]`: the elements from position `n` on, empty when `n` passes the end, with position `k` holding `xs[n + k]` |
| Seqs.Slice | Chromosome.py:39-40 | `xs[i:j]`: the elements from `i` up to `min(j, len)`, empty when `i >= j` or `i` passes the end, with position `k` holding `xs[i + k]` |
| Seqs.Count | Chromosome.py:60 | `xs.count(v)` is the number of occurrences of `v`: its multiset multiplicity |
| Seqs.IndexOf | Chromosome.py:63 | `target.index(v)` is a position holding `v`, and no earlier position holds `v` |
| Seqs.Duplicates | Chromosome.py:60 | the `duplicates` set holds only values of the list, and holds a value of the list exactly when it occurs more than once |
| Seqs.NoDuplicatesIffDistinct | Chromosome.py:60-62 | `duplicates` is empty exactly when the list repeats nothing: the condition of the early `break` |
| Seqs.SliceSplit | Chromosome.py:43-45 | `xs[:i] + xs[i:j] + xs[j:]` is `xs` again for `i <= j`, whatever the bounds |
| Seqs.ElementsCardinality | Chromosome.py:58 | a list has at most as many distinct values as positions, and exactly as many iff it repeats nothing |
| Seqs.DistinctMultiset | Chromosome.py:58 | a list without repetitions holds each of its values exactly once |
| Seqs.CoverIsPermutation | Chromosome.py:58-63 | pigeonhole: a list as long as a repetition-free domain, drawing its values from the domain, is a permutation of that domain once it covers the domain or repeats nothing |
| Seqs.PermutationOfDistinct | TravellingSalesmanGA.py:115-117 | a rearrangement of a repetition-free list repeats nothing either |
| Chromosomes.DefaultSwapLength | Chromosome.py:25-29 | the default `max(length / 3, 1)` is at least 1 and at most a third of a length of 3 or more. It is below the length (so `randrange(length - swap_length)` can draw) exactly when the length is at least 2 |
| Chromosomes.Crossover | Chromosome.py:39-50 | the list `receiver[:s] + donor[s:e] + receiver[e:]`. It has no contract of its own: what a child is, is stated by `CrossoverShape` (pointwise, for equal lengths), `CrossoverConservesAlleles` (the multiset of both children) and `CrossoverOfPermutations` |
| Chromosomes.CrossoverShape | Chromosome.py:36-50 | for parents of equal length, each child has that length, equals the donor inside `[s, e)` and equals the receiver outside it |
| Chromosomes.CrossoverConservesAlleles | Chromosome.py:39-50 | the two children together hold exactly the alleles of the two parents (multiset sum) |
| Chromosomes.CrossoverOfPermutations | Chromosome.py:81-93 | when the father is a permutation of the mother, both crossed lists have her length and draw their values from her alleles |
| Chromosomes.LastAlleleNeverExchanged | Chromosome.py:36-37 | because `start < length - swap_length`, the exchanged segment never reaches the last position, and each child keeps its receiver's last allele |
| Chromosomes.RepairRound | Chromosome.py:60-63 | overwriting the first occurrence of a repeated value with a missing one keeps the repair invariant and adds exactly the missing value to the list's values. The invariant: same length; unique positions untouched; rewritten positions hold a value the crossed list lacked; no value lost or gaining occurrences |
| Chromosomes.RepairExit | Chromosome.py:59-62 | both loop exits (nothing missing, or the early `break` with nothing repeated) establish the repair postcondition `IsRepair`. For a repetition-free mother and a crossed list of her length drawn from her alleles, the result is then a permutation of her alleles |
| Chromosomes.RepairYieldsPermutation | Chromosome.py:58-63 | under those conditions every repair, whatever the `pop()` picks, is a permutation of the mother's alleles covering all of them, so the early `break` is never taken |
| Chromosomes.MatedPermutations | Chromosome.py:81-96 | when the mother repeats nothing and the father is a permutation of her, both repaired children are permutations of her alleles |
| Chromosomes.Swap | Chromosome.py:114 | the tuple assignment exchanges positions `i` and `j`, keeps every other position and the length, and does nothing when `i == j` |
| Chromosomes.SwapKeepsAlleles | Chromosome.py:111-114 | a swap is a permutation of the list |
| Chromosomes.SwapTwice | Chromosome.py:114 | swapping the same two positions again restores the list |
| Chromosomes.Rotate | Chromosome.py:122 | `c[p:] + c[:p]` has the length of `c`, with position `k` holding `c[(k + p) mod len]`. Rotating by 0 is the identity |
| Chromosomes.RotateProperties | Chromosome.py:120-122 | a rotation is a permutation, and rotating by `len - p` undoes rotating by `p` |
| Chromosomes.OverwriteKeepsAllelesIff | Chromosome.py:105 | overwriting a position removes one occurrence of the old value and adds one of the new. The list's multiset is unchanged exactly when the value is the same |
| Chromosomes.Chromosome.constructor | Chromosome.py:15-29 | stores the values and their length. A non-zero `swap_length` is kept, and a falsy one (0 or `None`) becomes the default |
| Chromosomes.Chromosome.Mate | Chromosome.py:31-52 | two new, distinct chromosomes: the crossover of mother and father at `[start, start + swap_length)` and its mirror image, each with the default swap length |
| Chromosomes.Chromosome.EnforceAllEntries | Chromosome.py:54-65 | repairs `target` in place and returns the same array. The result satisfies `IsRepair` against the mother's alleles, whatever the `pop()` picks. The loop runs at most once per initially missing value, and yields a permutation under the conditions of `RepairYieldsPermutation` |
| Chromosomes.Chromosome.Repaired | Chromosome.py:84-86 | a crossed list, copied into a fresh buffer and passed to `enforce_all_entries`, comes back repaired against the mother's alleles (`IsRepair`) |
| Chromosomes.Chromosome.MateNoDuplicates | Chromosome.py:67-98 | two new, distinct chromosomes with the default swap length, each the repair of the matching crossover against the mother's alleles. Both are permutations of her alleles when she repeats nothing and the father is a permutation of her |
| Chromosomes.Chromosome.Mutate | Chromosome.py:100-105 | position `location` becomes `alleles[pick]`, all else unchanged |
| Chromosomes.Chromosome.MutateSwap | Chromosome.py:107-114 | the list becomes `Swap` of the old one at the two drawn positions, keeping length, swap length and multiset |
| Chromosomes.Chromosome.MutateRotate | Chromosome.py:116-122 | the list is rebound to `Rotate` of the old one at the drawn pivot, keeping length, swap length and multiset |
| TravellingSalesmanGA.RandRange | Chromosome.py:111-112 | a draw of `randrange(bound)` lies in `[0, bound)` |
| TravellingSalesmanGA.RandomFraction | TravellingSalesmanGA.py:119 | a draw of `random()` lies in `[0, 1)` |
| TravellingSalesmanGA.Shuffle | TravellingSalesmanGA.py:75 | `random.shuffle` rearranges the list in place, and consumes one draw per position after the first |
| TravellingSalesmanGA.InitialPopulation | TravellingSalesmanGA.py:69-76 | `n` new chromosomes, each a permutation of the cities with the default swap length, no object twice |
| TravellingSalesmanGA.ScoreTable | TravellingSalesmanGA.py:93-95 | the `path_lengths` dict has exactly the population's chromosomes as keys, each mapped to the score of its alleles |
| TravellingSalesmanGA.ScorePopulation | TravellingSalesmanGA.py:93-95 | the loop builds exactly that dict |
| TravellingSalesmanGA.Insert | TravellingSalesmanGA.py:97 | inserting into a list sorted by score gives a sorted list with one more occurrence of the inserted item |
| TravellingSalesmanGA.Rank | TravellingSalesmanGA.py:97 | `sorted(path_lengths, key=path_lengths.get)`: a permutation of the population in ascending order of score |
| TravellingSalesmanGA.RankHeadIsBest | TravellingSalesmanGA.py:97-100 | the head of the ranking, the best chromosome printed, is a member of the population whose score no member beats |
| TravellingSalesmanGA.RoundUpEven | TravellingSalesmanGA.py:114-124 | appending pairs while fewer than `half` exist ends at the least even count that is at least `half` |
| TravellingSalesmanGA.NextPopulationSize | TravellingSalesmanGA.py:108-128 | the next population, pool plus offspring, is as large as the first exactly when `n / 2` and `n` have the same parity, and never smaller than the pool |
| TravellingSalesmanGA.MaybeMutateSwap | TravellingSalesmanGA.py:119-122 | when the drawn `random()` is below the mutation probability, the child becomes `Swap` of itself at the next two `randrange(length)` draws; otherwise it is unchanged. Either way it stays a tour |
| TravellingSalesmanGA.BreedPair | TravellingSalesmanGA.py:115-122 | a mother and father drawn from the pool give two new, distinct tours |
| TravellingSalesmanGA.Breed | TravellingSalesmanGA.py:112-124 | the offspring are `half` rounded up to an even count of new tours, no object twice, with the pool untouched |
| TravellingSalesmanGA.AppendFreshPair | TravellingSalesmanGA.py:123-124 | appending two new, distinct tours keeps the offspring a population |
| TravellingSalesmanGA.RankedPoolIsPopulation | TravellingSalesmanGA.py:108 | any prefix of a ranking of a population, the mating pool among them, is a population of tours |
| TravellingSalesmanGA.ConcatPopulation | TravellingSalesmanGA.py:128 | the pool followed by offspring sharing no object with it is a population |
| TravellingSalesmanGA.Evaluate | TravellingSalesmanGA.py:93-100 | for a population that holds no chromosome twice, so that the dictionary's keys are its members, the ranking is a permutation of the population in ascending score with no chromosome twice. Its head is a member, and its score, the one printed, is no worse than any member's |
| TravellingSalesmanGA.NextGeneration | TravellingSalesmanGA.py:107-128 | the next population is a population of tours of size `NextPopulationSize(n)` that starts with exactly the first `n / 2` of the ranking |
| TravellingSalesmanGA.RecordBest | TravellingSalesmanGA.py:99-100 | recording a best score no worse than the previous one keeps the printed scores non-increasing |
| TravellingSalesmanGA.Evolve | TravellingSalesmanGA.py:69-128 | runs exactly `max(epochs, 1)` evaluations and ends with `epoch == evaluations + 1`. It breeds one generation fewer than it evaluates (the ghost result `bred`), since the last evaluation is followed by the `break`. The final population is a population of tours. It has `n` members when no breeding happened, and `NextPopulationSize(n)` otherwise, because the pool and offspring sizes come from `N`, not from the current length. The printed best scores never increase. The last one is attained by, and no worse than, every member of the final population. The reported genome is `chromosomes[0]`; after two or more epochs, its score is the previous epoch's best |

## Left out

- Plotting (`plot_cities` and the final plot call): user-interface output with no effect on the algorithm.
- The spiral city coordinates and `path_length`: floating-point geometry. The score is an abstract function from allele lists to `int`, so the real-valued distances are not modelled.
- Seeding and the Mersenne Twister: `random.seed` and the generator's output are replaced by the oracle `draws`. The model does not show which draws a given seed produces, nor how many words Python consumes per call.
- Tie order in the ranking: the source sorts the keys of a `dict` keyed by chromosome objects, whose order in Python 2 depends on object hashes. `Rank` breaks ties by population order. Only "ascending permutation of the population" is claimed.
- `chromosome_string` and the printing in both `__main__` demos and in the epoch loop: console output. The printed best scores are modelled as the `history` result of `Evolve`.
- `value`: a bare application of a caller-supplied function. The loop's scoring applies `score` to the chromosome's alleles directly.
- Chromosomes.Chromosome.constructor: does not model a negative explicit `swap_length`, which the source keeps (it is truthy) and which makes slicing count from the end. The model requires `requestedSwapLength >= 0`, with 0 standing for both `0` and `None`.
- Chromosomes.Chromosome.constructor: the source stores the caller's list object, not a copy. The model stores a sequence value, so no aliasing between a chromosome and its argument is modelled. In the core every chromosome is built from a list nobody else holds.
- Chromosomes.Chromosome.Mutate: Python evaluates `random.choice` before the index `randrange`. Both are parameters here, so the model does not fix their order in the draw stream.
- Chromosomes.CrossoverShape: states the children for parents of equal length only. For unequal lengths, `Crossover` still computes exactly what Python's clamped slicing gives.
