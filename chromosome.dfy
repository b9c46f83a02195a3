/**
 * Chromosome.py: a chromosome is a list of allele values with the length of
 * the segment that crossover exchanges. Every random draw of the source
 * (`randrange`, `choice`, and the two `set.pop()` calls of the repair) is an
 * explicit parameter or an arbitrary choice, so each contract holds for every
 * outcome of the draws.
 */
module Chromosomes {
  import opened Seqs

  /**
   * `max(length / 3, 1)` with Python 2's integer division: the swap length a
   * chromosome gets when none is given. It is at least 1 and at most a third
   * of the length (when that is at least 1), and it leaves room for
   * `randrange(length - swap_length)` exactly when the chromosome has two
   * alleles or more.
   */
  function DefaultSwapLength(length: nat): (r: int)
    ensures 1 <= r
    ensures length >= 3 ==> 3 * r <= length
    ensures r < length <==> length >= 2
  {
    if length / 3 > 1 then length / 3 else 1
  }

  /**
   * The list crossover builds: `receiver[:s] + donor[s:e] + receiver[e:]`, with
   * Python's slicing (bounds clamped to the lengths).
   */
  function Crossover<A>(receiver: seq<A>, donor: seq<A>, s: nat, e: nat): seq<A>
  {
    Take(receiver, s) + Slice(donor, s, e) + Drop(receiver, e)
  }

  /**
   * For parents of equal length, a child has that length, is the donor inside
   * `[s, e)` and the receiver everywhere else.
   */
  lemma CrossoverShape<A>(receiver: seq<A>, donor: seq<A>, s: nat, e: nat)
    requires |receiver| == |donor| && s <= e <= |receiver|
    ensures |Crossover(receiver, donor, s, e)| == |receiver|
    ensures forall i :: 0 <= i < |receiver| ==>
      Crossover(receiver, donor, s, e)[i] == if s <= i < e then donor[i] else receiver[i]
  {
    var head, cut, tail := Take(receiver, s), Slice(donor, s, e), Drop(receiver, e);
    var c := head + cut + tail;
    assert |cut| == e - s;
    forall i | 0 <= i < |receiver|
      ensures c[i] == if s <= i < e then donor[i] else receiver[i]
    {
      if i < s {
        assert c[i] == head[i];
      } else if i < e {
        assert c[i] == cut[i - s] == Take(donor, e)[i];
      } else {
        assert c[i] == tail[i - e];
      }
    }
  }

  /** The two children of one crossover hold, together, exactly the alleles of the two parents (of any lengths). */
  lemma CrossoverConservesAlleles<A>(mother: seq<A>, father: seq<A>, s: nat, e: nat)
    requires s <= e
    ensures multiset(Crossover(mother, father, s, e)) + multiset(Crossover(father, mother, s, e))
         == multiset(mother) + multiset(father)
  {
    SliceSplit(mother, s, e);
    SliceSplit(father, s, e);
    calc {
      multiset(Crossover(mother, father, s, e)) + multiset(Crossover(father, mother, s, e));
      multiset(Take(mother, s)) + multiset(Slice(father, s, e)) + multiset(Drop(mother, e))
        + (multiset(Take(father, s)) + multiset(Slice(mother, s, e)) + multiset(Drop(father, e)));
      multiset(Take(mother, s) + Slice(mother, s, e) + Drop(mother, e))
        + multiset(Take(father, s) + Slice(father, s, e) + Drop(father, e));
    }
  }

  /**
   * A crossover of a parent with a permutation of that parent has the parent's
   * length and uses only the parent's alleles.
   */
  lemma CrossoverOfPermutations<A>(mother: seq<A>, father: seq<A>, s: nat, e: nat)
    requires IsPermutationOf(father, mother) && s <= e <= |mother|
    ensures |Crossover(mother, father, s, e)| == |mother| && |Crossover(father, mother, s, e)| == |mother|
    ensures Elements(Crossover(mother, father, s, e)) <= Elements(mother)
    ensures Elements(Crossover(father, mother, s, e)) <= Elements(mother)
  {
    assert |father| == |multiset(father)| == |multiset(mother)| == |mother|;
    assert Elements(father) == Elements(mother) by {
      forall x ensures x in father <==> x in mother {
        assert x in father <==> x in multiset(father);
        assert x in mother <==> x in multiset(mother);
      }
    }
    CrossoverShape(mother, father, s, e);
    CrossoverShape(father, mother, s, e);
  }

  /**
   * Because `s` is drawn below `length - swap_length`, the exchanged segment
   * ends before the last position: the last allele of each child is its
   * receiver's.
   */
  lemma LastAlleleNeverExchanged<A>(mother: seq<A>, father: seq<A>, s: nat, swapLength: nat)
    requires |mother| == |father| && s < |mother| - swapLength
    ensures Crossover(mother, father, s, s + swapLength)[|mother| - 1] == mother[|mother| - 1]
    ensures Crossover(father, mother, s, s + swapLength)[|mother| - 1] == father[|mother| - 1]
  {
    var e := s + swapLength;
    var last := |mother| - 1;
    assert Crossover(mother, father, s, e) == mother[..s] + father[s..e] + mother[e..];
    assert Crossover(father, mother, s, e) == father[..s] + mother[s..e] + father[e..];
    assert mother[e..][last - e] == mother[last];
    assert father[e..][last - e] == father[last];
  }

  /**
   * Position `i` after some rounds of the repair of `before`: left alone if
   * its value is unique in `before`, and otherwise either left alone or
   * rewritten to a value of `domain` that `before` lacked.
   */
  ghost predicate PositionRepaired<A>(domain: seq<A>, before: seq<A>, current: seq<A>, i: int)
  {
    0 <= i < |before| && i < |current| ==>
      && (multiset(before)[before[i]] == 1 ==> current[i] == before[i])
      && (current[i] == before[i] || current[i] in Elements(domain) - Elements(before))
  }

  /** Value `v` (one of `before`'s) is still present in `current`, and no more often than in `before`. */
  ghost predicate ValueKept<A>(before: seq<A>, current: seq<A>, v: A)
  {
    v in current && multiset(current)[v] <= multiset(before)[v]
  }

  /**
   * What holds of `current` at every round of the repair of `before`: same
   * length, every position repaired as above, and every value of `before`
   * kept.
   */
  ghost predicate RepairInvariant<A>(domain: seq<A>, before: seq<A>, current: seq<A>)
  {
    && |current| == |before|
    && (forall i :: PositionRepaired(domain, before, current, i))
    && (forall v {:trigger ValueKept(before, current, v)} :: v in before ==> ValueKept(before, current, v))
  }

  /**
   * What `enforce_all_entries(target)` guarantees, whatever values its two
   * `set.pop()` calls return: the round invariant, and the loop's exit
   * condition: nothing of `domain` missing, or (the early `break`) nothing
   * repeated.
   */
  ghost predicate IsRepair<A>(domain: seq<A>, before: seq<A>, after: seq<A>)
  {
    && RepairInvariant(domain, before, after)
    && (Elements(domain) <= Elements(after) || Distinct(after))
  }

  /**
   * One round of the repair: overwriting the first occurrence of a repeated
   * value `d` with a missing value `m` keeps the invariant and adds exactly
   * `m` to the values present.
   */
  lemma RepairRound<A>(domain: seq<A>, before: seq<A>, current: seq<A>, d: A, m: A)
    requires RepairInvariant(domain, before, current)
    requires d in current && multiset(current)[d] > 1
    requires m in Elements(domain) - Elements(current)
    ensures RepairInvariant(domain, before, current[IndexOf(current, d) := m])
    ensures Elements(current[IndexOf(current, d) := m]) == Elements(current) + {m}
  {
    var j := IndexOf(current, d);
    var next := current[j := m];
    OverwriteKeepsAllelesIff(current, j, m);
    assert Elements(next) == Elements(current) + {m} by {
      forall x ensures x in next <==> x in current || x == m {
        assert x in next <==> x in multiset(next);
        assert x in current <==> x in multiset(current);
      }
    }
    assert m !in before by {
      assert m in before ==> ValueKept(before, current, m);
    }
    forall i ensures PositionRepaired(domain, before, next, i) {
      assert PositionRepaired(domain, before, current, i);
      if i == j && j < |before| && current[j] == before[j] {
        assert ValueKept(before, current, d);
      }
    }
    forall v | v in before ensures ValueKept(before, next, v) {
      assert ValueKept(before, current, v);
      if v == d {
        assert multiset(next)[v] == multiset(current)[v] - 1;
      } else {
        assert multiset(next)[v] == multiset(current)[v];
      }
      assert v in multiset(next);
    }
  }

  /** The repair loop's two exits: nothing missing, or nothing repeated. */
  lemma RepairExit<A>(domain: seq<A>, before: seq<A>, after: seq<A>, missing: set<A>)
    requires RepairInvariant(domain, before, after)
    requires missing == Elements(domain) - Elements(after)
    requires missing == {} || Distinct(after)
    ensures IsRepair(domain, before, after)
    ensures Distinct(domain) && |before| == |domain| && Elements(before) <= Elements(domain) ==>
      IsPermutationOf(after, domain) && Elements(domain) <= Elements(after)
  {
    if missing == {} {
      forall x | x in Elements(domain) ensures x in Elements(after) {
        assert x !in missing;
      }
    }
    if Distinct(domain) && |before| == |domain| && Elements(before) <= Elements(domain) {
      RepairYieldsPermutation(domain, before, after);
    }
  }

  /**
   * If `domain` repeats nothing and `before` is as long as `domain` and draws
   * its values from it, every repair of `before` is a permutation of `domain`
   * and covers it, so the early `break` was not what ended the loop.
   */
  lemma RepairYieldsPermutation<A>(domain: seq<A>, before: seq<A>, after: seq<A>)
    requires Distinct(domain) && |before| == |domain| && Elements(before) <= Elements(domain)
    requires IsRepair(domain, before, after)
    ensures IsPermutationOf(after, domain)
    ensures Elements(domain) <= Elements(after)
  {
    assert Elements(after) <= Elements(domain) by {
      forall x | x in Elements(after) ensures x in Elements(domain) {
        var i :| 0 <= i < |after| && after[i] == x;
        assert PositionRepaired(domain, before, after, i);
        assert before[i] in Elements(before);
      }
    }
    CoverIsPermutation(after, domain);
  }

  /**
   * Both children of a crossover between a repetition-free mother and a
   * permutation of her, once repaired against her alleles, are permutations
   * of her alleles.
   */
  lemma MatedPermutations<A>(mother: seq<A>, father: seq<A>, s: nat, e: nat,
                             crossed1: seq<A>, crossed2: seq<A>, child1: seq<A>, child2: seq<A>)
    requires Distinct(mother) && IsPermutationOf(father, mother) && s <= e <= |mother|
    requires crossed1 == Crossover(mother, father, s, e) && crossed2 == Crossover(father, mother, s, e)
    requires IsRepair(mother, crossed1, child1) && IsRepair(mother, crossed2, child2)
    ensures IsPermutationOf(child1, mother) && IsPermutationOf(child2, mother)
  {
    CrossoverOfPermutations(mother, father, s, e);
    RepairYieldsPermutation(mother, crossed1, child1);
    RepairYieldsPermutation(mother, crossed2, child2);
  }

  /**
   * `mutate_swap`'s tuple assignment: first `c[j] = c[i]`, then
   * `c[i] = old c[j]`. Swapping a position with itself does nothing.
   */
  function Swap<A>(c: seq<A>, i: nat, j: nat): (r: seq<A>)
    requires i < |c| && j < |c|
    ensures |r| == |c| && r[i] == c[j] && r[j] == c[i]
    ensures forall k :: 0 <= k < |c| && k != i && k != j ==> r[k] == c[k]
    ensures i == j ==> r == c
  {
    c[j := c[i]][i := c[j]]
  }

  /** A swap only rearranges the list. */
  lemma SwapKeepsAlleles<A>(c: seq<A>, i: nat, j: nat)
    requires i < |c| && j < |c|
    ensures IsPermutationOf(Swap(c, i, j), c)
  {
    var mid := c[j := c[i]];
    assert multiset(mid) == multiset(c) - multiset{c[j]} + multiset{c[i]};
    assert multiset(mid[i := c[j]]) == multiset(mid) - multiset{mid[i]} + multiset{c[j]};
  }

  /** A second swap of the same two positions undoes the first. */
  lemma SwapTwice<A>(c: seq<A>, i: nat, j: nat)
    requires i < |c| && j < |c|
    ensures Swap(Swap(c, i, j), i, j) == c
  {
    var r := Swap(Swap(c, i, j), i, j);
    assert forall k :: 0 <= k < |c| ==> r[k] == c[k];
  }

  /** `c[p:] + c[:p]`: the list rotated left by `p`; rotating by 0 does nothing. */
  function Rotate<A>(c: seq<A>, p: nat): (r: seq<A>)
    requires p <= |c|
    ensures |r| == |c|
    ensures forall k :: 0 <= k < |c| - p ==> r[k] == c[k + p]
    ensures forall k :: |c| - p <= k < |c| ==> r[k] == c[k - (|c| - p)]
    ensures p == 0 ==> r == c
  {
    assert c[0..] + c[..0] == c;
    c[p..] + c[..p]
  }

  /**
   * A rotation rearranges the list, and rotating by `|c| - p` afterwards
   * restores the list.
   */
  lemma RotateProperties<A>(c: seq<A>, p: nat)
    requires p <= |c|
    ensures IsPermutationOf(Rotate(c, p), c)
    ensures Rotate(Rotate(c, p), |c| - p) == c
  {
    assert c == c[..p] + c[p..];
    var r := Rotate(c, p);
    assert r[|c| - p..] == c[..p];
    assert r[..|c| - p] == c[p..];
  }

  /** Overwriting one position keeps the multiset exactly when the new value is the old one. */
  lemma OverwriteKeepsAllelesIff<A>(c: seq<A>, i: nat, v: A)
    requires i < |c|
    ensures multiset(c[i := v]) == multiset(c) - multiset{c[i]} + multiset{v}
    ensures IsPermutationOf(c[i := v], c) <==> v == c[i]
  {
    var m := multiset(c[i := v]);
    if v != c[i] {
      assert m[v] == multiset(c)[v] + 1;
    }
  }

  class Chromosome<A(==)> {
    var length: int
    var chromosome: seq<A>
    var swapLength: int

    /** `length` is the list's length and crossover exchanges at least one allele. */
    ghost predicate Valid()
      reads this
    {
      length == |chromosome| && swapLength >= 1
    }

    /**
     * `Chromosome(values, swap_length)`: `swap_length` is kept when truthy and
     * replaced by the default when falsy; 0 stands for both `None` and `0`.
     */
    constructor (values: seq<A>, requestedSwapLength: int)
      requires requestedSwapLength >= 0
      ensures Valid()
      ensures length == |values| && chromosome == values
      ensures swapLength == if requestedSwapLength != 0 then requestedSwapLength else DefaultSwapLength(|values|)
    {
      length := |values|;
      chromosome := values;
      swapLength := if requestedSwapLength != 0 then requestedSwapLength else DefaultSwapLength(|values|);
    }

    /**
     * `mate(father)` with `randrange(length - swap_length)` drawn as `start`:
     * two new chromosomes built by exchanging `[start, start + swap_length)`,
     * both with the default swap length, never the parents'.
     */
    method Mate(father: Chromosome<A>, start: int) returns (offspring1: Chromosome<A>, offspring2: Chromosome<A>)
      requires Valid()
      requires 0 <= start < length - swapLength
      ensures fresh(offspring1) && fresh(offspring2) && offspring1 != offspring2
      ensures offspring1.Valid() && offspring2.Valid()
      ensures offspring1.chromosome == Crossover(chromosome, father.chromosome, start, start + swapLength)
      ensures offspring2.chromosome == Crossover(father.chromosome, chromosome, start, start + swapLength)
      ensures offspring1.swapLength == DefaultSwapLength(offspring1.length)
      ensures offspring2.swapLength == DefaultSwapLength(offspring2.length)
    {
      var mother, dad, swapEnd := chromosome, father.chromosome, start + swapLength;
      var child1 := Crossover(mother, dad, start, swapEnd);
      var child2 := Crossover(dad, mother, start, swapEnd);
      offspring1 := new Chromosome(child1, 0);
      offspring2 := new Chromosome(child2, 0);
    }

    /**
     * `enforce_all_entries(target)`: while some allele of this chromosome is
     * missing from `target`, overwrite the first occurrence of some repeated
     * value with some missing one (both picked arbitrarily, as `set.pop()`
     * does); stop early if nothing is repeated. The list is changed in place
     * and returned; the loop runs at most once per initially missing value.
     */
    method EnforceAllEntries(target: array<A>) returns (repaired: array<A>, ghost rounds: nat)
      modifies target
      ensures repaired == target
      ensures IsRepair(chromosome, old(target[..]), target[..])
      ensures rounds <= |Elements(chromosome) - Elements(old(target[..]))|
      ensures Distinct(chromosome) && target.Length == |chromosome| && Elements(old(target[..])) <= Elements(chromosome)
        ==> IsPermutationOf(target[..], chromosome) && Elements(chromosome) <= Elements(target[..])
    {
      ghost var before := target[..];
      ghost var alleles := chromosome;
      var missing := Elements(chromosome) - Elements(target[..]);
      ghost var initial := missing;
      rounds := 0;
      while |missing| > 0
        invariant missing == Elements(alleles) - Elements(target[..])
        invariant rounds + |missing| == |initial|
        invariant RepairInvariant(alleles, before, target[..])
        decreases |missing|
      {
        var current := target[..];
        var duplicates := Duplicates(current);
        if |duplicates| == 0 {
          NoDuplicatesIffDistinct(current);
          break;
        }
        var d :| d in duplicates;
        var m :| m in missing;
        RepairRound(alleles, before, current, d, m);
        target[IndexOf(current, d)] := m;
        assert target[..] == current[IndexOf(current, d) := m];
        missing := missing - {m};
        rounds := rounds + 1;
      }
      RepairExit(alleles, before, target[..], missing);
      repaired := target;
    }

    /**
     * The repair `mate_no_duplicates` applies to each crossed list: copy it
     * into a fresh buffer and enforce this chromosome's alleles on it.
     */
    method Repaired(alleles: seq<A>, crossed: seq<A>) returns (r: seq<A>)
      requires alleles == chromosome
      ensures IsRepair(alleles, crossed, r)
    {
      var list := new A[|crossed|](i requires 0 <= i < |crossed| => crossed[i]);
      assert list[..] == crossed;
      ghost var rounds: nat;
      list, rounds := EnforceAllEntries(list);
      r := list[..];
    }

    /**
     * `mate_no_duplicates(father)`: the crossover of `Mate`, then each child
     * repaired against this (the mother's) alleles. When the mother repeats no
     * allele and the father is a permutation of her, both children are
     * permutations of her alleles.
     */
    method MateNoDuplicates(father: Chromosome<A>, start: int) returns (offspring1: Chromosome<A>, offspring2: Chromosome<A>)
      requires Valid()
      requires 0 <= start < length - swapLength
      ensures fresh(offspring1) && fresh(offspring2) && offspring1 != offspring2
      ensures offspring1.Valid() && offspring2.Valid()
      ensures IsRepair(old(chromosome), Crossover(old(chromosome), old(father.chromosome), start, start + old(swapLength)), offspring1.chromosome)
      ensures IsRepair(old(chromosome), Crossover(old(father.chromosome), old(chromosome), start, start + old(swapLength)), offspring2.chromosome)
      ensures offspring1.swapLength == DefaultSwapLength(offspring1.length)
      ensures offspring2.swapLength == DefaultSwapLength(offspring2.length)
      ensures Distinct(old(chromosome)) && IsPermutationOf(old(father.chromosome), old(chromosome)) ==>
        IsPermutationOf(offspring1.chromosome, old(chromosome)) && IsPermutationOf(offspring2.chromosome, old(chromosome))
    {
      var mother, dad, swapEnd := chromosome, father.chromosome, start + swapLength;
      var child1 := Crossover(mother, dad, start, swapEnd);
      var child2 := Crossover(dad, mother, start, swapEnd);
      assert child1 == Crossover(old(chromosome), old(father.chromosome), start, start + old(swapLength));
      assert child2 == Crossover(old(father.chromosome), old(chromosome), start, start + old(swapLength));
      var list1 := Repaired(mother, child1);
      var list2 := Repaired(mother, child2);
      if Distinct(mother) && IsPermutationOf(dad, mother) {
        MatedPermutations(mother, dad, start, swapEnd, child1, child2, list1, list2);
      }
      offspring1 := new Chromosome(list1, 0);
      offspring2 := new Chromosome(list2, 0);
    }

    /** `mutate(list_of_alleles)`: position `location` (drawn from `[0, length)`) becomes `alleles[pick]` (`random.choice`); nothing else changes. */
    method Mutate(alleles: seq<A>, location: int, pick: int)
      requires Valid()
      requires 0 <= location < length && 0 <= pick < |alleles|
      modifies this
      ensures Valid() && length == old(length) && swapLength == old(swapLength)
      ensures chromosome == old(chromosome)[location := alleles[pick]]
    {
      chromosome := chromosome[location := alleles[pick]];
    }

    /** `mutate_swap()`: the alleles at two drawn positions (possibly equal) are exchanged. */
    method MutateSwap(location1: int, location2: int)
      requires Valid()
      requires 0 <= location1 < length && 0 <= location2 < length
      modifies this
      ensures Valid() && length == old(length) && swapLength == old(swapLength)
      ensures chromosome == Swap(old(chromosome), location1, location2)
      ensures IsPermutationOf(chromosome, old(chromosome))
    {
      SwapKeepsAlleles(chromosome, location1, location2);
      chromosome := Swap(chromosome, location1, location2);
    }

    /** `mutate_rotate()`: the list is rebound to its rotation at the drawn pivot. */
    method MutateRotate(location: int)
      requires Valid()
      requires 0 <= location < length
      modifies this
      ensures Valid() && length == old(length) && swapLength == old(swapLength)
      ensures chromosome == Rotate(old(chromosome), location)
      ensures IsPermutationOf(chromosome, old(chromosome))
    {
      RotateProperties(chromosome, location);
      chromosome := chromosome[location..] + chromosome[..location];
    }
  }
}
