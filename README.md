# Weighted choices in manoria

A Dafny model of `weighted_choices(weighted_population, k)` from manoria's
`utils` module. Manoria is a persistent-world strategy game backend. This
helper samples up to `k` distinct choices from a population of
`(choice, weight)` pairs:

1. It builds a pool `s` that holds `weight` copies of each choice, in
   population order. A pair with weight 0 or less adds nothing.
2. It draws an element of the pool at random and records it. It stops once
   `k` elements are recorded. Otherwise it removes every copy of the drawn
   element from the pool. It also stops when the pool is empty.
3. It returns the recorded choices sorted by weight, largest first. The
   weight of a choice is the one `dict(weighted_population)` gives it, so the
   last pair naming a choice decides its weight.

Everything is in module `Utils` (`utils.dfy`):

- `Entry<T>` is one `(choice, weight)` pair. Weights are unbounded
  integers. The population is a finite sequence that can be read twice, and
  choices are values whose equality is an equivalence (see "## Left out").
- `Pool`, `Copies` and `TotalWeight` specify the pool. `BuildPool` builds it
  with the source's two nested loops.
- `Without` is the list comprehension that removes every copy of the drawn
  element.
- `DrawDistinct` is the draw-and-remove loop. The call to `random.choice(s)`
  becomes `idx :| 0 <= idx < |s|`, an arbitrary index into the pool, so every
  property is proved for every possible sequence of draws.
- `Dict` is `dict(weighted_population)`.
- `SortByWeight` is `sorted(results, key=lambda x: d[x], reverse=True)`.
  Python's sort is stable even with `reverse=True`, so it is modelled as a
  stable insertion sort, descending by weight. `SortByWeightUnique` shows
  that descending order plus stability determine the output. Any stable
  descending sort, Timsort included, therefore gives the same sequence.
- `WeightedChoices` is the whole function. Besides `result` it returns the
  ghost `picks`, which is the draw order before sorting.

`Eligible(pop)` is the set of choices that have some pair with weight at
least 1. For `k >= 1` the result has `min(k, |Eligible(pop)|)` elements. For
`k <= 0` the test `len(results) == k` never fires after an append, so the
loop drains the pool and every eligible choice is returned. The model keeps
this behaviour as written.

## Model

| member | source | states |
|---|---|---|
| `Utils.Copies` | manoria_project/apps/manoria/utils.py:7-8 | the inner loop appends exactly `max(0, weight)` elements, all equal to the choice |
| `Utils.PoolLength` | manoria_project/apps/manoria/utils.py:5-8 | the pool's length is the sum of `max(0, weight)` over all pairs, repeated choices counted each time |
| `Utils.PoolElems` | manoria_project/apps/manoria/utils.py:5-8 | a choice is in the pool exactly when some pair gives it weight at least 1; pairs with weight 0 or less contribute nothing |
| `Utils.BuildPool` | manoria_project/apps/manoria/utils.py:5-8 | the nested loops build exactly `Pool(pop)`, the reference definition of the list `s` (each pair's `Copies` appended in population order), which holds the eligible choices and has total-weight length |
| `Utils.Without` | manoria_project/apps/manoria/utils.py:15 | the filtered pool has no copy of the drawn item, keeps every other element with its multiplicity, and is shorter by the number of copies removed (the loop's termination measure) |
| `Utils.DrawDistinct` | manoria_project/apps/manoria/utils.py:9-15 | for every sequence of draws, the loop terminates; the picks have no duplicates and are all from the pool; there are `k` of them when `1 <= k <= D` and `D` otherwise, where `D` is the number of distinct pool elements; and when `k <= 0` or `k >= D` every distinct pool element is picked |
| `Utils.Dict` | manoria_project/apps/manoria/utils.py:16 | the dictionary's keys are exactly the choices of all pairs, whatever their weight |
| `Utils.DictLastWins` | manoria_project/apps/manoria/utils.py:16 | the weight the dictionary gives a choice is the weight of the last pair naming it |
| `Utils.InsertByWeight` | manoria_project/apps/manoria/utils.py:17 | inserting one element adds exactly that element to the multiset and keeps every element weighed |
| `Utils.InsertKeepsOrder` | manoria_project/apps/manoria/utils.py:17 | inserting into a sequence in non-increasing weight order keeps it in that order |
| `Utils.SortByWeight` | manoria_project/apps/manoria/utils.py:17 | the sorted picks are a permutation of the picks, with weights that never increase |
| `Utils.DescendingPairs` | manoria_project/apps/manoria/utils.py:17 | in the sorted output, every earlier element weighs at least as much as every later one |
| `Utils.SortIsStable` | manoria_project/apps/manoria/utils.py:17 | the sort is stable: for each weight, the elements of that weight keep their pick order |
| `Utils.SortByWeightUnique` | manoria_project/apps/manoria/utils.py:17 | any sequence in non-increasing weight order that keeps the per-weight order of the input equals `SortByWeight` of it, so the model agrees with Python's stable `sorted(..., reverse=True)` |
| `Utils.WeightedChoices` | manoria_project/apps/manoria/utils.py:4-17 | for every sequence of draws, the result has no duplicates; every element is a choice with some pair of weight at least 1; its length is `min(k, D)` for `k >= 1` and `D` for `k <= 0`, with `D` the number of eligible choices; every eligible choice is returned when `k <= 0` or `k >= D`; and the result is the draw order sorted stably by the dictionary's weights, largest first |

## Left out

- The distribution of `random.choice`, meaning how likely each draw is, is not modelled. A draw is any element of the remaining pool, and the properties are proved for all draws.
- WeightedChoices, DrawDistinct: the population is taken to be a sequence that can be iterated twice. The source reads it at line 6 and again at line 16. With a one-shot iterable such as a generator, line 16 builds an empty dict, and line 17 raises `KeyError` whenever something was picked. The model always returns.
- WeightedChoices, DrawDistinct, Without: equality on choices is taken to be an equivalence, because Dafny's `==` is reflexive. Python's `!=` at line 15 need not be. For a choice such as `float('nan')`, `nan != nan` holds, so the drawn element is never removed from `s`. The loop then never ends for `k <= 0`, and for `k >= 2` the same value is returned more than once. Termination and the no-duplicates property hold only for choices whose equality is reflexive.
- Python's run-time errors are not modelled. A non-integer weight would make `range(weight)` raise, and an unhashable choice would make `dict` raise. The model's types rule both out: weights are `int`, and choices are a type with equality.
- `SortByWeight` is an insertion sort, not Timsort. `SortByWeightUnique` shows the two give the same output.
- Only `utils.py` is modelled. `views.py`, `urls.py`, `models.py`, `admin.py`, `forms.py`, `managers.py` and `templatetags/manoria_tags.py` hold request handling, routing, ORM field declarations, admin registration, a form declaration, a slug lookup and pixel-offset arithmetic. None of them contains logic worth a model.
- No resource-accounting logic exists in the modelled files. `admin.py:6-13` registers `models.ResourceKind`, `models.PlayerResourceCount` and `models.SettlementResourceCount`, but `models.py` does not define them: it declares only the fields of `Player`, `Continent` and `Settlement`.
