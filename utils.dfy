/**
 * Weighted sampling without replacement, as done by `weighted_choices` in
 * manoria's utils module.
 *
 * A population is a sequence of `(choice, weight)` entries. Each entry adds
 * `weight` copies of its choice to a pool; choices are drawn from the pool one
 * at a time (every copy of a drawn choice is then removed) until `k` have been
 * drawn or the pool is empty; the draws are returned sorted by weight, largest
 * first, where the weight of a choice is the one `dict(population)` gives it.
 *
 * The random draw is modelled as an arbitrary index into the pool, so every
 * property below holds whichever elements are drawn.
 */
module Utils {

  /** One `(choice, weight)` pair of a weighted population. */
  datatype Entry<T> = Entry(choice: T, weight: int)

  // ---------------------------------------------------------------------------
  // Sequences seen as sets and multisets
  // ---------------------------------------------------------------------------

  /** The set of elements occurring in `xs`. */
  ghost function Elems<T>(xs: seq<T>): set<T>
  {
    set x | x in xs
  }

  /** No element occurs twice in `xs`. */
  ghost predicate NoDuplicates<T(!new)>(xs: seq<T>)
  {
    forall x :: multiset(xs)[x] <= 1
  }

  /** A subset of a finite set is no larger, and is the whole set when it is as large. */
  lemma SubsetCardinality<T>(a: set<T>, b: set<T>)
    requires a <= b
    ensures |a| <= |b|
    ensures |a| == |b| ==> a == b
  {
    var rest := b - a;
    assert b == a + rest;
    assert a !! rest;
    assert |b| == |a| + |rest|;
  }

  // ---------------------------------------------------------------------------
  // The pool: the list `s` built from the population
  // ---------------------------------------------------------------------------

  /** What `for i in range(weight): s.append(choice)` appends: `weight` copies, none when `weight <= 0`. */
  function Copies<T>(choice: T, weight: int): (c: seq<T>)
    ensures |c| == if weight <= 0 then 0 else weight
    ensures forall i :: 0 <= i < |c| ==> c[i] == choice
    decreases weight
  {
    if weight <= 0 then [] else Copies(choice, weight - 1) + [choice]
  }

  /** The list `s` once every entry of `pop` has been expanded, in population order. */
  function Pool<T>(pop: seq<Entry<T>>): seq<T>
  {
    if pop == [] then []
    else
      var last := pop[|pop| - 1];
      Pool(pop[..|pop| - 1]) + Copies(last.choice, last.weight)
  }

  /** The sum of `max(0, weight)` over all entries, repeated choices included. */
  function TotalWeight<T>(pop: seq<Entry<T>>): nat
  {
    if pop == [] then 0
    else
      var w := pop[|pop| - 1].weight;
      TotalWeight(pop[..|pop| - 1]) + (if w <= 0 then 0 else w)
  }

  /** The choices of all entries, whatever their weight: the keys of `dict(pop)`. */
  ghost function Choices<T>(pop: seq<Entry<T>>): set<T>
  {
    set i | 0 <= i < |pop| :: pop[i].choice
  }

  /** The choices of entries with weight at least 1: the only ones that reach the pool. */
  ghost function Eligible<T>(pop: seq<Entry<T>>): set<T>
  {
    set i | 0 <= i < |pop| && pop[i].weight >= 1 :: pop[i].choice
  }

  /** The pool holds one element per unit of positive weight. */
  lemma {:induction false} PoolLength<T>(pop: seq<Entry<T>>)
    ensures |Pool(pop)| == TotalWeight(pop)
  {
    if pop != [] {
      PoolLength(pop[..|pop| - 1]);
    }
  }

  /** A choice is in the pool exactly when some entry gives it a weight of at least 1. */
  lemma {:induction false} PoolElems<T>(pop: seq<Entry<T>>)
    ensures Elems(Pool(pop)) == Eligible(pop)
  {
    if pop != [] {
      var init, last := pop[..|pop| - 1], pop[|pop| - 1];
      PoolElems(init);
      var c := Copies(last.choice, last.weight);
      assert Elems(c) == if last.weight >= 1 then {last.choice} else {} by {
        if last.weight >= 1 {
          assert c[0] == last.choice;
        }
      }
      assert Elems(Pool(pop)) == Elems(Pool(init)) + Elems(c);
      assert Eligible(pop) == Eligible(init) + (if last.weight >= 1 then {last.choice} else {}) by {
        forall x | x in Eligible(pop)
          ensures x in Eligible(init) || (last.weight >= 1 && x == last.choice)
        {
          var i :| 0 <= i < |pop| && pop[i].weight >= 1 && pop[i].choice == x;
          if i < |init| {
            assert init[i] == pop[i];
          }
        }
        forall x | x in Eligible(init) ensures x in Eligible(pop) {
          var i :| 0 <= i < |init| && init[i].weight >= 1 && init[i].choice == x;
          assert pop[i] == init[i];
        }
        if last.weight >= 1 {
          assert pop[|pop| - 1] == last;
        }
      }
    }
  }

  /** Every eligible choice is a key of the population's dictionary. */
  lemma EligibleAreChoices<T>(pop: seq<Entry<T>>)
    ensures Eligible(pop) <= Choices(pop)
  {
  }

  // ---------------------------------------------------------------------------
  // dict(weighted_population)
  // ---------------------------------------------------------------------------

  /** `dict(pop)`: each entry in turn sets its choice's weight, so a later entry overrides an earlier one. */
  function Dict<T(==)>(pop: seq<Entry<T>>): (d: map<T, int>)
    ensures d.Keys == Choices(pop)
  {
    if pop == [] then map[]
    else
      var init, last := pop[..|pop| - 1], pop[|pop| - 1];
      var d0 := Dict(init);
      assert Choices(pop) == Choices(init) + {last.choice} by {
        forall x | x in Choices(pop) ensures x in Choices(init) || x == last.choice {
          var i :| 0 <= i < |pop| && pop[i].choice == x;
          if i < |init| {
            assert init[i] == pop[i];
          }
        }
        forall x | x in Choices(init) ensures x in Choices(pop) {
          var i :| 0 <= i < |init| && init[i].choice == x;
          assert pop[i] == init[i];
        }
        assert pop[|pop| - 1] == last;
      }
      d0[last.choice := last.weight]
  }

  /** The weight `dict(pop)` gives a choice is that of the last entry carrying it. */
  lemma {:induction false} DictLastWins<T>(pop: seq<Entry<T>>, i: int)
    requires 0 <= i < |pop|
    requires forall j :: i < j < |pop| ==> pop[j].choice != pop[i].choice
    ensures pop[i].choice in Dict(pop) && Dict(pop)[pop[i].choice] == pop[i].weight
  {
    if i < |pop| - 1 {
      var init := pop[..|pop| - 1];
      assert init[i] == pop[i];
      forall j | i < j < |init| ensures init[j].choice != init[i].choice {
        assert init[j] == pop[j];
      }
      DictLastWins(init, i);
    }
  }

  // ---------------------------------------------------------------------------
  // [item for item in s if item != r]
  // ---------------------------------------------------------------------------

  /** `s` with every copy of `item` removed, the rest kept in order. */
  function Without<T(==,!new)>(s: seq<T>, item: T): (t: seq<T>)
    ensures forall x :: x in t <==> x in s && x != item
    ensures forall x :: x != item ==> multiset(t)[x] == multiset(s)[x]
    ensures |t| == |s| - multiset(s)[item]
  {
    if s == [] then []
    else
      assert s == [s[0]] + s[1..];
      if s[0] == item then Without(s[1..], item)
      else [s[0]] + Without(s[1..], item)
  }

  // ---------------------------------------------------------------------------
  // sorted(results, key=lambda x: d[x], reverse=True)
  // ---------------------------------------------------------------------------

  /** Every element of `xs` has a weight in `d`. */
  ghost predicate Weighed<T>(xs: seq<T>, d: map<T, int>)
  {
    forall x :: x in xs ==> x in d
  }

  /** The weights along `xs` never increase. */
  ghost predicate ByWeightDescending<T>(xs: seq<T>, d: map<T, int>)
    requires Weighed(xs, d)
  {
    forall i :: 0 < i < |xs| ==> d[xs[i - 1]] >= d[xs[i]]
  }

  /** In a sequence whose weights never increase, an earlier element weighs at least as much as a later one. */
  lemma {:induction false} DescendingPairs<T>(xs: seq<T>, d: map<T, int>, i: int, j: int)
    requires Weighed(xs, d) && ByWeightDescending(xs, d)
    requires 0 <= i <= j < |xs|
    ensures d[xs[i]] >= d[xs[j]]
    decreases j - i
  {
    if i < j {
      DescendingPairs(xs, d, i + 1, j);
    }
  }

  /** The first element of a sequence sorted by weight is at least as heavy as every element. */
  lemma HeadIsHeaviest<T>(xs: seq<T>, d: map<T, int>)
    requires Weighed(xs, d) && ByWeightDescending(xs, d) && xs != []
    ensures forall y :: y in xs ==> d[y] <= d[xs[0]]
  {
    forall y | y in xs ensures d[y] <= d[xs[0]] {
      var j :| 0 <= j < |xs| && xs[j] == y;
      DescendingPairs(xs, d, 0, j);
    }
  }

  /** The elements of `xs` of weight `w`, in their order in `xs`. */
  function OfWeight<T>(xs: seq<T>, d: map<T, int>, w: int): seq<T>
    requires Weighed(xs, d)
  {
    if xs == [] then []
    else (if d[xs[0]] == w then [xs[0]] else []) + OfWeight(xs[1..], d, w)
  }

  /** Places `x` before the first element of `ys` whose weight is not larger than its own. */
  function InsertByWeight<T>(x: T, ys: seq<T>, d: map<T, int>): (r: seq<T>)
    requires x in d && Weighed(ys, d)
    ensures multiset(r) == multiset(ys) + multiset{x}
    ensures Weighed(r, d)
  {
    if ys == [] || d[ys[0]] <= d[x] then [x] + ys
    else
      assert ys == [ys[0]] + ys[1..];
      [ys[0]] + InsertByWeight(x, ys[1..], d)
  }

  /** Inserting into a sequence sorted by weight keeps it sorted. */
  lemma {:induction false} InsertKeepsOrder<T>(x: T, ys: seq<T>, d: map<T, int>)
    requires x in d && Weighed(ys, d) && ByWeightDescending(ys, d)
    ensures ByWeightDescending(InsertByWeight(x, ys, d), d)
  {
    if ys != [] && d[ys[0]] > d[x] {
      var r, rest := InsertByWeight(x, ys, d), InsertByWeight(x, ys[1..], d);
      InsertKeepsOrder(x, ys[1..], d);
      assert r == [ys[0]] + rest;
      assert d[ys[0]] >= d[rest[0]] by {
        if |ys| > 1 && d[ys[1]] > d[x] {
          assert rest[0] == ys[1];
        } else {
          assert rest[0] == x;
        }
      }
      forall i | 0 < i < |r| ensures d[r[i - 1]] >= d[r[i]] {
        if i > 1 {
          assert r[i - 1] == rest[i - 2] && r[i] == rest[i - 1];
        }
      }
    }
  }

  /**
   * Python's `sorted(xs, key=d.__getitem__, reverse=True)`: a stable sort by
   * weight, largest first (an insertion sort, each element placed before the
   * equally weighted elements that follow it in `xs`).
   */
  function SortByWeight<T>(xs: seq<T>, d: map<T, int>): (r: seq<T>)
    requires Weighed(xs, d)
    ensures multiset(r) == multiset(xs)
    ensures Weighed(r, d)
    ensures ByWeightDescending(r, d)
  {
    if xs == [] then []
    else
      assert xs == [xs[0]] + xs[1..];
      var rest := SortByWeight(xs[1..], d);
      InsertKeepsOrder(xs[0], rest, d);
      InsertByWeight(xs[0], rest, d)
  }

  /** Inserting `x` puts it first among the elements of its own weight and leaves the others' order alone. */
  lemma {:induction false} InsertOfWeight<T>(x: T, ys: seq<T>, d: map<T, int>, w: int)
    requires x in d && Weighed(ys, d)
    ensures OfWeight(InsertByWeight(x, ys, d), d, w)
            == (if d[x] == w then [x] else []) + OfWeight(ys, d, w)
  {
    if ys == [] || d[ys[0]] <= d[x] {
      var r := [x] + ys;
      assert r[1..] == ys;
    } else {
      var r := [ys[0]] + InsertByWeight(x, ys[1..], d);
      assert r[1..] == InsertByWeight(x, ys[1..], d);
      InsertOfWeight(x, ys[1..], d, w);
    }
  }

  /** The sort is stable: elements of equal weight keep the order they were picked in. */
  lemma {:induction false} SortIsStable<T>(xs: seq<T>, d: map<T, int>, w: int)
    requires Weighed(xs, d)
    ensures OfWeight(SortByWeight(xs, d), d, w) == OfWeight(xs, d, w)
  {
    if xs != [] {
      assert xs == [xs[0]] + xs[1..];
      SortIsStable(xs[1..], d, w);
      InsertOfWeight(xs[0], SortByWeight(xs[1..], d), d, w);
    }
  }

  /** The first element of a non-empty sequence is also the first of the elements of its own weight. */
  lemma {:induction false} OfWeightHead<T>(xs: seq<T>, d: map<T, int>)
    requires Weighed(xs, d) && xs != []
    ensures OfWeight(xs, d, d[xs[0]]) != [] && OfWeight(xs, d, d[xs[0]])[0] == xs[0]
  {
  }

  /** The elements of weight `w` are exactly the elements of `xs` whose weight is `w`. */
  lemma {:induction false} OfWeightElems<T>(xs: seq<T>, d: map<T, int>, w: int)
    requires Weighed(xs, d)
    ensures forall y :: y in OfWeight(xs, d, w) <==> y in xs && d[y] == w
  {
    if xs != [] {
      assert xs == [xs[0]] + xs[1..];
      OfWeightElems(xs[1..], d, w);
    }
  }

  /**
   * Descending order by weight and stability determine the sorted sequence:
   * any `ys` with both properties, holding the same elements of each weight
   * as `xs` in the same order, is `SortByWeight(xs, d)`.
   */
  lemma {:induction false} SortByWeightUnique<T>(xs: seq<T>, ys: seq<T>, d: map<T, int>)
    requires Weighed(xs, d) && Weighed(ys, d)
    requires ByWeightDescending(ys, d)
    requires forall w :: OfWeight(ys, d, w) == OfWeight(xs, d, w)
    ensures ys == SortByWeight(xs, d)
  {
    forall w ensures OfWeight(ys, d, w) == OfWeight(SortByWeight(xs, d), d, w) {
      SortIsStable(xs, d, w);
    }
    SortedStableUnique(SortByWeight(xs, d), ys, d, |ys|);
  }

  /** Two sequences sorted by weight with the same elements of each weight, in the same order, are equal. */
  lemma {:induction false} SortedStableUnique<T>(zs: seq<T>, ys: seq<T>, d: map<T, int>, n: nat)
    requires Weighed(zs, d) && Weighed(ys, d)
    requires ByWeightDescending(zs, d) && ByWeightDescending(ys, d)
    requires forall w :: OfWeight(ys, d, w) == OfWeight(zs, d, w)
    requires |ys| == n
    ensures ys == zs
    decreases n
  {
    if ys == [] {
      if zs != [] {
        OfWeightHead(zs, d);
        assert false;
      }
    } else if zs == [] {
      OfWeightHead(ys, d);
      assert false;
    } else {
      var a, b := ys[0], zs[0];
      OfWeightElems(ys, d, d[b]);
      OfWeightElems(zs, d, d[a]);
      HeadIsHeaviest(ys, d);
      HeadIsHeaviest(zs, d);
      assert d[a] == d[b] by {
        assert a in OfWeight(zs, d, d[a]);
        assert b in OfWeight(ys, d, d[b]);
      }
      OfWeightHead(ys, d);
      OfWeightHead(zs, d);
      assert a == b;
      forall w ensures OfWeight(ys[1..], d, w) == OfWeight(zs[1..], d, w) {
        var head := if d[a] == w then [a] else [];
        assert OfWeight(ys, d, w) == head + OfWeight(ys[1..], d, w);
        assert OfWeight(zs, d, w) == head + OfWeight(zs[1..], d, w);
        assert OfWeight(ys[1..], d, w) == OfWeight(ys, d, w)[|head|..];
        assert OfWeight(zs[1..], d, w) == OfWeight(zs, d, w)[|head|..];
      }
      SortedStableUnique(zs[1..], ys[1..], d, n - 1);
      assert ys == [a] + ys[1..] && zs == [b] + zs[1..];
    }
  }

  // ---------------------------------------------------------------------------
  // weighted_choices(weighted_population, k)
  // ---------------------------------------------------------------------------

  /** Lines 5-8: the pool, `weight` copies of each choice appended in population order. */
  method BuildPool<T>(pop: seq<Entry<T>>) returns (s: seq<T>)
    ensures s == Pool(pop)
    ensures |s| == TotalWeight(pop) && Elems(s) == Eligible(pop)
  {
    s := [];
    for j := 0 to |pop|
      invariant s == Pool(pop[..j])
    {
      var choice, weight := pop[j].choice, pop[j].weight;
      var i := 0;
      while i < weight
        invariant 0 <= i && (i == 0 || i <= weight)
        invariant s == Pool(pop[..j]) + Copies(choice, i)
      {
        s := s + [choice];
        i := i + 1;
      }
      assert pop[..j + 1][..j] == pop[..j];
    }
    assert pop[..|pop|] == pop;
    PoolLength(pop);
    PoolElems(pop);
  }

  /**
   * Lines 9-15: draws an arbitrary element of the pool, records it, stops once
   * `k` elements are recorded, and otherwise removes every copy of it from the
   * pool. With `k <= 0` the length test never fires and the pool is drained.
   */
  method DrawDistinct<T(==,!new)>(pool: seq<T>, k: int) returns (picks: seq<T>)
    ensures NoDuplicates(picks)
    ensures Elems(picks) <= Elems(pool)
    ensures |picks| == if 1 <= k <= |Elems(pool)| then k else |Elems(pool)|
    ensures k <= 0 || |Elems(pool)| <= k ==> Elems(picks) == Elems(pool)
  {
    var s := pool;
    picks := [];
    while s != []
      invariant Elems(picks) !! Elems(s)
      invariant Elems(picks) + Elems(s) == Elems(pool)
      invariant NoDuplicates(picks)
      invariant |Elems(picks)| == |picks|
      invariant k <= 0 || |picks| < k
      decreases |s|
    {
      var idx :| 0 <= idx < |s|;  // random.choice(s)
      var r := s[idx];
      assert r in Elems(s);
      assert Elems(picks + [r]) == Elems(picks) + {r};
      picks := picks + [r];
      if |picks| == k {
        break;
      }
      s := Without(s, r);
    }
    SubsetCardinality(Elems(picks), Elems(pool));
  }

  /**
   * `weighted_choices(pop, k)`: up to `k` distinct choices, each drawn from
   * the choices of positive weight, returned sorted by weight, largest first.
   * `picks` is the order in which they were drawn. With `k <= 0` every
   * eligible choice is returned.
   */
  method WeightedChoices<T(==,!new)>(pop: seq<Entry<T>>, k: int) returns (result: seq<T>, ghost picks: seq<T>)
    ensures NoDuplicates(picks)
    ensures Elems(picks) <= Eligible(pop)
    ensures |picks| == if 1 <= k <= |Eligible(pop)| then k else |Eligible(pop)|
    ensures k <= 0 || |Eligible(pop)| <= k ==> Elems(picks) == Eligible(pop)
    ensures Weighed(picks, Dict(pop)) && result == SortByWeight(picks, Dict(pop))
    ensures multiset(result) == multiset(picks)
    ensures NoDuplicates(result) && Elems(result) <= Eligible(pop)
    ensures |result| == if 1 <= k <= |Eligible(pop)| then k else |Eligible(pop)|
    ensures Weighed(result, Dict(pop)) && ByWeightDescending(result, Dict(pop))
  {
    var s := BuildPool(pop);
    var results := DrawDistinct(s, k);
    picks := results;
    var d := Dict(pop);
    EligibleAreChoices(pop);
    assert Weighed(results, d);
    result := SortByWeight(results, d);
    assert NoDuplicates(result) by {
      forall x ensures multiset(result)[x] <= 1 {
        assert multiset(result)[x] == multiset(results)[x];
      }
    }
    assert Elems(result) == Elems(results) by {
      forall x ensures x in result <==> x in results {
        assert x in result <==> x in multiset(result);
        assert x in results <==> x in multiset(results);
      }
    }
    assert |result| == |multiset(result)| == |multiset(results)| == |results|;
  }
}
