/** Ordered listings of row ids: the `ORDER BY -pub_date` the models declare,
    over rows gathered with the multiplicity a SQL join gives them. */
module Ordering {

  /** `xs` lists ids from the largest key to the smallest. */
  ghost predicate NewestFirst(xs: seq<nat>, key: nat -> nat)
  {
    forall i, j :: 0 <= i < j < |xs| ==> key(xs[i]) >= key(xs[j])
  }

  /** No id occurs twice in `xs`. */
  ghost predicate Distinct(xs: seq<nat>)
  {
    forall i, j :: 0 <= i < j < |xs| ==> xs[i] != xs[j]
  }

  /** `k` copies of `x`. */
  function Repeat(x: nat, k: nat): (r: seq<nat>)
    ensures multiset(r)[x] == k
    ensures forall y :: y != x ==> multiset(r)[y] == 0
  {
    if k == 0 then [] else [x] + Repeat(x, k - 1)
  }

  /** Every id below `n`, from the largest down, each repeated `weight(id)` times. */
  function Gather(n: nat, weight: nat -> nat): (r: seq<nat>)
    ensures forall x: nat :: multiset(r)[x] == if x < n then weight(x) else 0
  {
    if n == 0 then [] else Repeat(n - 1, weight(n - 1)) + Gather(n - 1, weight)
  }

  /** Places `x` into a newest-first listing, ahead of every id whose key is not larger. */
  function Insert(x: nat, xs: seq<nat>, key: nat -> nat): (r: seq<nat>)
    requires NewestFirst(xs, key)
    ensures NewestFirst(r, key)
    ensures multiset(r) == multiset(xs) + multiset{x}
  {
    if xs == [] || key(x) >= key(xs[0]) then
      assert forall j :: 0 < j < |xs| ==> key(xs[0]) >= key(xs[j]);
      [x] + xs
    else
      var rest := Insert(x, xs[1..], key);
      assert xs == [xs[0]] + xs[1..];
      HeadBoundsRest(x, xs, rest, key);
      [xs[0]] + rest
  }

  /** When `x` goes behind the head of `xs`, the head's key bounds every id the
      recursive insertion produced. */
  lemma HeadBoundsRest(x: nat, xs: seq<nat>, rest: seq<nat>, key: nat -> nat)
    requires xs != [] && key(x) < key(xs[0])
    requires NewestFirst(xs, key)
    requires multiset(rest) == multiset(xs[1..]) + multiset{x}
    ensures forall j :: 0 <= j < |rest| ==> key(xs[0]) >= key(rest[j])
  {
    forall j | 0 <= j < |rest| ensures key(xs[0]) >= key(rest[j]) {
      assert rest[j] in multiset(rest);
      if rest[j] != x {
        assert rest[j] in multiset(xs[1..]);
        var k :| 0 <= k < |xs[1..]| && xs[1..][k] == rest[j];
        assert xs[k + 1] == rest[j];
      }
    }
  }

  /** Insertion sort into newest-first order; a permutation of its input. */
  function Sort(xs: seq<nat>, key: nat -> nat): (r: seq<nat>)
    ensures NewestFirst(r, key)
    ensures multiset(r) == multiset(xs)
  {
    if xs == [] then []
    else
      assert xs == [xs[0]] + xs[1..];
      Insert(xs[0], Sort(xs[1..], key), key)
  }

  /** The ids below `n`, each `weight(id)` times, newest-first by `key`. */
  function Select(n: nat, weight: nat -> nat, key: nat -> nat): (r: seq<nat>)
    ensures NewestFirst(r, key)
    ensures forall x: nat :: multiset(r)[x] == if x < n then weight(x) else 0
  {
    Sort(Gather(n, weight), key)
  }

  /** A listing in which every id occurs at most once is free of duplicates. */
  lemma CountsDistinct(xs: seq<nat>)
    requires forall x :: multiset(xs)[x] <= 1
    ensures Distinct(xs)
  {
    forall i, j | 0 <= i < j < |xs| ensures xs[i] != xs[j] {
      var x := xs[j];
      assert xs == xs[..j] + xs[j..];
      assert multiset(xs)[x] == multiset(xs[..j])[x] + multiset(xs[j..])[x];
      assert x in multiset(xs[j..]);
      assert x !in multiset(xs[..j]);
      assert xs[i] in xs[..j];
    }
  }

  /** A duplicate-free listing of the elements of `elems` has exactly `|elems|` entries. */
  lemma {:induction false} DistinctLength(xs: seq<nat>, elems: set<nat>)
    requires Distinct(xs)
    requires forall x :: x in xs <==> x in elems
    ensures |xs| == |elems|
  {
    if xs == [] {
      assert elems == {};
    } else {
      var rest := xs[1..];
      assert xs[0] !in rest by {
        forall k | 0 <= k < |rest| ensures rest[k] != xs[0] {
          assert rest[k] == xs[k + 1];
        }
      }
      assert forall x :: x in rest <==> x in elems - {xs[0]} by {
        assert forall x :: x in xs <==> x == xs[0] || x in rest by {
          assert xs == [xs[0]] + rest;
        }
      }
      DistinctLength(rest, elems - {xs[0]});
    }
  }
}
