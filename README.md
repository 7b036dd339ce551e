# Road neighbourhoods (cidades.c), modelled in Dafny

The program reads a road of length `T` that holds `N` cities. Each city is a
position and a name. It sorts the cities by position. It then gives each
city a "neighbourhood": half the gap to each neighbour, with the road's ends
used for the first and the last city. It reports the smallest neighbourhood
and the name of the first city that has it.

This model covers the whole pipeline:

- `roads.dfy` (`Roads`): the data model. `City` is the source's `Cidade`.
  `RoadData` is a road as a value. The class `Road` is the heap object
  `Estrada`, holding `T` and the city array `C`.
- `loader.dfy` (`Loader`): the loader `getEstrada`. `Load` is the reference
  function over the token sequence. `GetRoad` is the imperative loader that
  fills the city array and the array of positions seen so far. `Acceptable`
  is a declarative description of the inputs it accepts.
- `sorter.dfy` (`Sorter`): `swap`, `partition` and `quicksort`, in place on
  the city array. Also the facts about sorted permutations.
- `neighbourhoods.dfy` (`Neighbourhoods`): the neighbourhood formula and the
  two left-to-right scans.
- `queries.dfy` (`Queries`): `calcularMenorVizinhanca` and
  `cidadeMenorVizinhanca`. Each one loads, sorts and scans on its own.

The input file is modelled as the sequence of tokens that the `fscanf`
calls consume, one token per call: `T`, `N`, then the position and the name
of each record. A `Token` carries its text and, when it reads as an integer,
its value. A name read fails only at the end of the input. Doubles are
modelled as `real`. Every neighbourhood is an integer halved and at most
10^6, so a double holds it exactly and nothing is lost.

Where the design text and the code differ, the model follows the code:

- The design defines a one-city neighbourhood equal to `T`. The code has no
  such case: it reads `C[1]` when `i == 0`. The model requires at least two
  cities, which is what the loader guarantees.
- The code signals every loader failure with one `NULL`. The model keeps the
  design's three error kinds (`BadFormat`, `OutOfRange`,
  `DuplicatePosition`). It checks them in the code's order: range, then
  duplicate, then name.

## Model

| member | source | states |
|---|---|---|
| Loader.GetRoad | cidades.c:6-75 | Fills the city array and the positions array record by record. The loop keeps `positions[0..i)` equal to the positions read so far. On success it returns a fresh road equal to `Load(tokens)`. On failure it returns the same error as `Load` and no road at all. |
| Loader.LoadMeaning | cidades.c:16-74 | The loader accepts exactly when `3 <= T <= 1000000`, `2 <= N <= 10000`, every record has an integer position strictly inside `(0, T)` and a name, and no position repeats an earlier one. An accepted road is valid, and its length, count and records are those of the tokens. |
| Loader.ReadCitiesMeaning | cidades.c:42-70 | Reading `n` records succeeds exactly when each one is well formed and its position differs from all earlier ones. It then yields those `n` records in input order. |
| Loader.FailureIsFinal | cidades.c:42-70 | Once a record fails, reading further records returns that same failure. The loader is all-or-nothing. |
| Loader.ReadCitiesFault | cidades.c:43-69 | A failure while reading records is explained by a record of its kind: a missing position or name, a position outside `(0, T)`, or a position equal to an earlier one. |
| Loader.LoadErrorIsExplained | cidades.c:16-69 | Every error the loader reports names a real defect of the input: a missing `T` or `N`, `T` or `N` out of bounds, or a faulty record. |
| Loader.RejectionExamples | cidades.c:16-69 | A road of length 2 is out of range. A repeated position is a duplicate. A last record without a name is a format error. |
| Sorter.Swap | cidades.c:77-81 | Exchanges two cities and changes nothing else. The array keeps its multiset. |
| Sorter.Partition | cidades.c:84-96 | Returns `p` in `[low, high]`. The old last city sits at `p`. Everything in `[low, p)` has a smaller position, and everything in `(p, high]` has a position at least as large. The range is a permutation of its old contents, and nothing outside it moves. |
| Sorter.Quicksort | cidades.c:99-106 | Leaves `[low, high]` ascending by position, as a permutation of its old contents, with nothing outside the range changed. |
| Sorter.PartitionThenSortSides | cidades.c:100-105 | A partitioned range whose two sides were then sorted is sorted and is a permutation of the range before partitioning. |
| Sorter.DistinctUnderPermutation | cidades.c:114-114 | Sorting cannot make two cities share a position. Distinct positions survive any permutation, so the sorted array is strictly ascending. |
| Sorter.SortingIsUnique | cidades.c:146-146 | With distinct positions there is only one sorted arrangement. Any two sorted permutations of the same cities are equal. |
| Neighbourhoods.PrefixTotal | cidades.c:121-130 | The first `n` neighbourhoods add up to the midpoint between city `n-1` and city `n`. |
| Neighbourhoods.NeighbourhoodsCoverRoad | cidades.c:154-160 | The neighbourhoods add up to exactly `T`. |
| Neighbourhoods.NeighbourhoodBounds | cidades.c:148-160 | On a sorted valid road every neighbourhood is positive and smaller than `T`. So the sentinel `T` is always beaten. |
| Neighbourhoods.SmallestAtMostAverage | cidades.c:116-134 | The smallest neighbourhood is at most `T / N`. |
| Neighbourhoods.ScanSmallest | cidades.c:116-135 | Starting from the sentinel `T` with a strict `<`, the result is the least of `T` and all the neighbourhoods. It is no larger than any neighbourhood, and it is either `T` or one of them. |
| Neighbourhoods.ScanSmallestIndex | cidades.c:148-166 | The index stays `-1` exactly when no neighbourhood is below `T`. Otherwise it is the first index with the smallest neighbourhood: every earlier city has a strictly larger one, so ties keep the lowest index. |
| Neighbourhoods.TwoCityExample | cidades.c:154-157 | Cities at 3 and 7 on a road of 10 both have neighbourhood 5, and the first city wins the tie. |
| Neighbourhoods.ThreeCityExample | cidades.c:154-160 | Cities at 2, 10 and 18 on a road of 20 have neighbourhoods 6, 8 and 6. The smallest is 6, held first by the first city. |
| Queries.SortedRoadIsAnalysable | cidades.c:143-146 | A sorted arrangement of a loaded road has at least two cities, ascending, at distinct positions strictly inside the road. |
| Queries.LoadSorted | cidades.c:110-114 | Loads and sorts in place. It fails exactly when the loader does. Otherwise the array is a sorted arrangement of the cities read. |
| Queries.SmallestNeighbourhood | cidades.c:109-140 | Returns None (the source's `-1.0`) exactly when the loader rejects. Otherwise it returns the smallest neighbourhood of the sorted road, which is attained by some city. |
| Queries.CityWithSmallestNeighbourhood | cidades.c:142-176 | Returns None (the source's `NULL`) exactly when the loader rejects. Otherwise it returns the name of the first city of the sorted road with the smallest neighbourhood. The index read at line 168 is never `-1`. |
| Queries.QueriesAgree | cidades.c:109-176 | The two queries are consistent. The named city's neighbourhood equals the value the other query returns, and both queries work on the same sorted arrangement. |
| Queries.AnswersAreDetermined | cidades.c:109-176 | Repeating a query on the same input gives the same value and the same city. |

## Left out

- Opening, reading and closing the file (`fopen`, `fscanf`, `fclose`) is not modelled. The file is a token sequence, and the `FileUnavailable` failure of an unopenable file has no counterpart.
- The `main` driver and its `printf` output are I/O. They are not modelled.
- Allocation failures (`malloc` returning `NULL`) and the `free` calls on every exit path are not modelled. Dafny has garbage-collected memory. This includes the `NULL` that `cidadeMenorVizinhanca` returns when the copy of the name cannot be allocated.
- Lexing is not modelled. How `%d` splits a token, that `" %[^\n]"` may take a name from a later line, and 32-bit overflow of `%d` are all abstracted: each token comes with its integer value when it has one.
- The fixed-size `Nome` buffer (declared in `cidades.h`, which is not part of this model) is not modelled, nor is the `strlen`/`strcpy` copy of the name. Names are strings of any length.
- Floating point is modelled as `real`. This is exact here, as explained above.
