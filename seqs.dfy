/**
 * The Python list built-ins the genetic algorithm relies on (`set(xs)`,
 * `xs.count(v)`, `xs.index(v)` and slicing with non-negative bounds), over
 * Dafny sequences, with the counting facts the repair proof needs.
 */
module Seqs {

  /** `set(xs)`: the values occurring in `xs`. */
  function Elements<T(==)>(xs: seq<T>): set<T>
  {
    set x | x in xs
  }

  /** No value occurs at two positions of `xs`. */
  predicate Distinct<T(==)>(xs: seq<T>)
  {
    forall i, j :: 0 <= i < j < |xs| ==> xs[i] != xs[j]
  }

  /** `xs` is a rearrangement of `ys`. */
  predicate IsPermutationOf<T(==)>(xs: seq<T>, ys: seq<T>)
  {
    multiset(xs) == multiset(ys)
  }

  /** `xs.count(v)`: how many positions hold `v`. */
  function Count<T(==)>(xs: seq<T>, v: T): (n: nat)
    ensures n == multiset(xs)[v]
  {
    if xs == [] then 0
    else
      assert xs == [xs[0]] + xs[1..];
      (if xs[0] == v then 1 else 0) + Count(xs[1..], v)
  }

  /** `xs.index(v)`: the first position holding `v` (Python raises ValueError when there is none). */
  function IndexOf<T(==)>(xs: seq<T>, v: T): (i: nat)
    requires v in xs
    ensures i < |xs| && xs[i] == v
    ensures forall j :: 0 <= j < i ==> xs[j] != v
  {
    if xs[0] == v then 0 else 1 + IndexOf(xs[1..], v)
  }

  /** `set([x for x in xs if xs.count(x) > 1])`: the values occurring more than once. */
  function Duplicates<T(==)>(xs: seq<T>): (r: set<T>)
    ensures r <= Elements(xs)
    ensures forall i :: 0 <= i < |xs| ==> (xs[i] in r <==> multiset(xs)[xs[i]] > 1)
  {
    set x | x in xs && Count(xs, x) > 1
  }

  /** A list has no duplicated value exactly when it repeats nothing. */
  lemma NoDuplicatesIffDistinct<T>(xs: seq<T>)
    ensures Duplicates(xs) == {} <==> Distinct(xs)
  {
    if !Distinct(xs) {
      var i, j :| 0 <= i < j < |xs| && xs[i] == xs[j];
      RepeatedValue(xs, i, j);
      assert xs[i] in Duplicates(xs);
    }
    if Duplicates(xs) != {} {
      var x :| x in Duplicates(xs);
      var i := IndexOf(xs, x);
      OccursAgain(xs, i);
    }
  }

  /** A value occurring more than once occurs again besides any one of its positions. */
  lemma OccursAgain<T>(xs: seq<T>, i: nat)
    requires i < |xs| && multiset(xs)[xs[i]] > 1
    ensures exists j :: 0 <= j < |xs| && j != i && xs[j] == xs[i]
  {
    var rest := xs[..i] + xs[i + 1..];
    assert xs == xs[..i] + [xs[i]] + xs[i + 1..];
    assert xs[i] in multiset(rest);
    var k :| 0 <= k < |rest| && rest[k] == xs[i];
    if k < i {
      assert xs[k] == xs[i];
    } else {
      assert xs[k + 1] == xs[i];
    }
  }

  /** `xs[:n]`: Python clamps the bound to the length. */
  function Take<T>(xs: seq<T>, n: nat): (r: seq<T>)
    ensures |r| == if n <= |xs| then n else |xs|
    ensures forall k :: 0 <= k < |r| ==> r[k] == xs[k]
  {
    if n <= |xs| then xs[..n] else xs
  }

  /** `xs[n:]`: empty once the bound passes the end. */
  function Drop<T>(xs: seq<T>, n: nat): (r: seq<T>)
    ensures |r| == if n <= |xs| then |xs| - n else 0
    ensures forall k :: 0 <= k < |r| ==> r[k] == xs[n + k]
  {
    if n <= |xs| then xs[n..] else []
  }

  /** `xs[i:j]`: both bounds clamped, empty when `i >= j`. */
  function Slice<T>(xs: seq<T>, i: nat, j: nat): (r: seq<T>)
    ensures |r| == if i < j && i < |xs| then (if j <= |xs| then j else |xs|) - i else 0
    ensures forall k :: 0 <= k < |r| ==> r[k] == xs[i + k]
  {
    var hi := if j <= |xs| then j else |xs|;
    var lo := if i <= hi then i else hi;
    xs[lo..hi]
  }

  /** Cutting a list at two points and gluing the three pieces gives it back. */
  lemma SliceSplit<T>(xs: seq<T>, i: nat, j: nat)
    requires i <= j
    ensures Take(xs, i) + Slice(xs, i, j) + Drop(xs, j) == xs
  {
    if j <= |xs| {
      assert Take(xs, i) + Slice(xs, i, j) == xs[..j];
    } else if i <= |xs| {
      assert Take(xs, i) + Slice(xs, i, j) == xs;
    }
  }

  /** A list has at most as many distinct values as positions, and exactly as many when it repeats none. */
  lemma {:induction false} ElementsCardinality<T>(xs: seq<T>)
    ensures |Elements(xs)| <= |xs|
    ensures |Elements(xs)| == |xs| <==> Distinct(xs)
  {
    if xs != [] {
      var rest := xs[1..];
      ElementsCardinality(rest);
      assert Elements(xs) == {xs[0]} + Elements(rest);
      if xs[0] in rest {
        assert Elements(xs) == Elements(rest);
        var k :| 0 <= k < |rest| && rest[k] == xs[0];
        assert xs[0] == xs[k + 1];
      } else {
        assert xs[0] !in Elements(rest);
        assert Distinct(xs) <==> Distinct(rest) by {
          if Distinct(rest) {
            forall i, j | 0 <= i < j < |xs| ensures xs[i] != xs[j] {
              if i > 0 { assert xs[i] == rest[i - 1] && xs[j] == rest[j - 1]; }
              else { assert xs[j] == rest[j - 1]; }
            }
          }
          if Distinct(xs) {
            forall i, j | 0 <= i < j < |rest| ensures rest[i] != rest[j] {
              assert rest[i] == xs[i + 1] && rest[j] == xs[j + 1];
            }
          }
        }
      }
    }
  }

  /** A list without repetitions holds each of its values exactly once. */
  lemma {:induction false} DistinctMultiset<T>(xs: seq<T>)
    requires Distinct(xs)
    ensures multiset(xs) == multiset(Elements(xs))
  {
    if xs != [] {
      var rest := xs[1..];
      assert Distinct(rest) by {
        forall i, j | 0 <= i < j < |rest| ensures rest[i] != rest[j] {
          assert rest[i] == xs[i + 1] && rest[j] == xs[j + 1];
        }
      }
      DistinctMultiset(rest);
      assert xs == [xs[0]] + rest;
      assert xs[0] !in rest by {
        forall k | 0 <= k < |rest| ensures rest[k] != xs[0] {
          assert rest[k] == xs[k + 1];
        }
      }
      assert Elements(xs) == {xs[0]} + Elements(rest);
      assert multiset(Elements(xs)) == multiset{xs[0]} + multiset(Elements(rest));
    }
  }

  /** Two positions with equal values make that value occur at least twice. */
  lemma RepeatedValue<T>(xs: seq<T>, i: nat, j: nat)
    requires i < j < |xs| && xs[i] == xs[j]
    ensures multiset(xs)[xs[i]] >= 2
  {
    assert xs == xs[..j] + xs[j..];
    assert xs[..j][i] == xs[i];
    assert xs[j..][0] == xs[j];
    assert multiset(xs[..j])[xs[i]] >= 1;
    assert multiset(xs[j..])[xs[i]] >= 1;
  }

  /** A subset as large as its superset is the whole of it. */
  lemma SubsetOfSameSize<T>(a: set<T>, b: set<T>)
    requires a <= b && |a| == |b|
    ensures a == b
  {
    assert b == a + (b - a);
    assert |b - a| == 0;
  }

  /**
   * Pigeonhole: a list as long as a repetition-free `domain`, whose values
   * all come from `domain`, is a permutation of `domain` as soon as it covers
   * `domain` or repeats nothing.
   */
  lemma CoverIsPermutation<T>(xs: seq<T>, domain: seq<T>)
    requires Distinct(domain) && |xs| == |domain|
    requires Elements(xs) <= Elements(domain)
    requires Elements(domain) <= Elements(xs) || Distinct(xs)
    ensures IsPermutationOf(xs, domain)
    ensures Elements(xs) == Elements(domain)
  {
    ElementsCardinality(domain);
    ElementsCardinality(xs);
    if Elements(domain) <= Elements(xs) {
      assert Elements(xs) == Elements(domain);
    } else {
      SubsetOfSameSize(Elements(xs), Elements(domain));
    }
    assert Distinct(xs);
    DistinctMultiset(xs);
    DistinctMultiset(domain);
  }

  /** A rearrangement of a list without repetitions repeats nothing either. */
  lemma PermutationOfDistinct<T>(xs: seq<T>, ys: seq<T>)
    requires IsPermutationOf(xs, ys) && Distinct(ys)
    ensures Distinct(xs)
  {
    DistinctMultiset(ys);
    forall i, j | 0 <= i < j < |xs| ensures xs[i] != xs[j] {
      if xs[i] == xs[j] {
        RepeatedValue(xs, i, j);
      }
      assert multiset(ys)[xs[i]] <= 1;
    }
  }
}
