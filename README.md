# Municipal road network — a Dafny model

This project models the in-memory core of a municipal road-network manager. A network (`RedeViaria`) keeps two
dictionaries that its methods update in place:

- `locais` maps each place name (`designacao`) to its `Local`.
- `adj` is an adjacency map: for each origin name, a map from neighbour name to the segment (`troço`) data, which is
  a distance and an average vehicle count (`media_veiculos`).

The model also covers the two hand-written sorts the network uses:

- an insertion sort that orders places by lowercased name;
- a merge sort that ranks segments by traffic.

It also covers the `Local` record: a name, a parish (`freguesia`), GPS coordinates and a keyword set. The keyword set
is capped at six entries and always stored lowercase.

Modules, one concept each:

| module | file | contents |
|---|---|---|
| `Wrappers` | wrappers.dfy | `Option`, `Result` |
| `Text` | text.dfy | ASCII `Lower`, Python's string `<` (`Less`), substring test (`Contains`) |
| `Geo` | geo.dfy | coordinates and the type of the geographic distance function |
| `Seqs` | seqs.dfy | `Distinct` and its preservation under permutation |
| `Places` | local.dfy | `Local` as class `Location`, constructor checks (`Validate`), keyword updates, name order and identity |
| `Sorting` | sorting.dfy | `insertion_sort_locais` (on an array) and `merge_sort_trocos`/`merge_trocos` |
| `Graph` | graph.dfy | the adjacency map as a value: `Link`, `Unlink`, `Detach` and the shape invariants they keep |
| `Network` | network.dfy | class `RoadNetwork` (the `RedeViaria` object), its search filters and its invariant |

The network's invariant, `Network.Consistent`, combines these facts:

- `adj` is symmetric.
- No place is linked to itself.
- `adj` has a row for exactly the keys of `locais`, and every name used in `adj` is such a key.
- Each `locais` key is the name of its `Location`.
- Every stored segment has non-negative traffic and is no shorter than the geographic distance between its ends.

Every state-changing method preserves the invariant. Each one states its new state as a pure function of the old
one. Lemmas in `Graph` and `Network` prove what those functions do.

The Haversine distance (`calcular_distancia_geografica`) is not computed. It is the network's `geo` field: a function
on coordinates fixed at construction and required to be symmetric, as Haversine is. Segment insertion and the
proximity filter are stated relative to it.

The model follows the code as written; in particular:

- The duplicate check in `adicionar_local` is case-sensitive. It tests the exact name as a dictionary key
  (rede_viaria.py:71), although places compare equal ignoring case (local.py:61-69).
  `AddLocation`'s contract reflects this.
- The `Local` constructor checks only that the coordinates are a pair of numbers, not their ranges. In Dafny the
  `Coords` type already guarantees this.
- `pesquisar_locais` accepts any radius. A negative radius is not an error; it is compared like any other.
- `merge_trocos` takes the right-hand element when traffic is equal (rede_viaria.py:43-49), so the merge sort is not
  stable. `Sorting.MergeSortSwapsTies` exhibits the swap.

## Model

| member | source | states |
|---|---|---|
| Text.LowerFacts | local.py:29 | `lower()` keeps the length, maps only the empty string to the empty string, and gives a lowercase string |
| Text.LessIrreflexive | local.py:58 | Python's string `<` is irreflexive |
| Text.LessAsymmetric | local.py:58 | Python's string `<` is asymmetric |
| Text.LessTransitive | local.py:58 | Python's string `<` is transitive |
| Text.LessTotal | local.py:58 | any two distinct strings are ordered one way or the other by `<` |
| Text.ContainsIff | rede_viaria.py:190 | the substring test `x in y` holds exactly when the needle occurs at some index of the haystack |
| Seqs.PermutationKeepsDistinct | rede_viaria.py:205 | reordering a list without repeated elements keeps it without repeats |
| Places.KeywordSet | local.py:29 | the stored keywords are exactly the lowercased non-empty entries of the supplied list, no more of them than entries, all lowercase and non-empty |
| Places.Validate | local.py:10-29 | construction succeeds iff the name and parish are non-empty and at most 6 keywords are given; the name check comes first, then the parish check; on success the keyword set is bounded by 6, lowercase, and is the empty set for `None` or the lowercased non-empty entries of the list |
| Places.Location.Create | local.py:8-29 | fails with `Validate`'s error, or yields a fresh valid place with the given name, parish, coordinates and keyword set |
| Places.Location.AddKeyword | local.py:31-38 | inserts `palavra.lower()` only when fewer than 6 keywords are stored and the word is non-empty, otherwise leaves the set unchanged; the set stays at most 6, lowercase |
| Places.Location.RemoveKeyword | local.py:40-41 | the new keyword set is the old one minus exactly `palavra.lower()`; the bound and lowercase invariant are kept |
| Places.RemoveKeywordIdempotent | local.py:40-41 | removing the same keyword twice equals removing it once, and every other keyword survives |
| Places.NameTrichotomy | local.py:55-65 | for two places exactly one holds: equal (same lowercased name), `a < b`, or `b < a` |
| Places.NameBeforeTransitive | local.py:55-59 | `__lt__` on places is transitive |
| Places.Identity | local.py:67-69 | the key `__hash__` hashes, the lowercased name: as long as the name and unchanged by lowering again; what it identifies is stated by `Places.SameLocationIffCaseVariants` |
| Places.SameLocation | local.py:61-65 | `__eq__`: equal lowercased names; `Places.NameTrichotomy` and `Places.SameLocationIffCaseVariants` state its properties |
| Places.NameBefore | local.py:55-59 | `__lt__`: Python's string `<` on lowercased names; `Places.NameTrichotomy` and `Places.NameBeforeTransitive` state that it is a strict total order consistent with `__eq__` |
| Places.SameLocationIffCaseVariants | local.py:61-69 | two places compare equal (and share a hash key) exactly when their names have the same length and, position by position, are equal or the same ASCII letter in upper and lower case |
| Sorting.Insert | rede_viaria.py:13-19 | one pass of the inner loop as a function: the result has one more element and contains the key; `Sorting.InsertPermutes`, `Sorting.InsertSorted`, `Sorting.InsertStable` and `Sorting.InsertAt` state what it does |
| Sorting.SortByName | rede_viaria.py:7-20 | the insertion sort as a function: the result has the input's length; `Sorting.SortByNamePermutes`, `Sorting.SortByNameSorted`, `Sorting.SortByNameStable` and `Sorting.SortByNameOfSorted` state the rest |
| Sorting.InsertKey | rede_viaria.py:13-19 | one pass of the shifting loop turns the array prefix `[0..i]` into the sorted insertion of the key into `[0..i)`, leaving the rest of the array alone |
| Sorting.InsertionSortLocations | rede_viaria.py:7-20 | the in-place shifting sort over a copy computes `SortByName` of its input (the caller's list is a value and is not modified) |
| Sorting.SortByNamePermutes | rede_viaria.py:7-20 | the insertion sort returns a permutation of its input |
| Sorting.SortByNameSorted | rede_viaria.py:7-20 | the result is ascending by lowercased name |
| Sorting.SortByNameStable | rede_viaria.py:16 | stable: places with the same lowercased name keep their relative order, because the strict `<` never moves past an equal key |
| Sorting.SortByNameOfSorted | rede_viaria.py:12-19 | an already sorted list comes back unchanged |
| Sorting.InsertAt | rede_viaria.py:14-19 | the key lands right after the last element it is not less than, with every later element shifted one right |
| Sorting.Merged | rede_viaria.py:36-53 | `merge_trocos` as a function: the output is as long as both inputs together; `Sorting.MergedPermutes` and `Sorting.MergedOrdered` state the rest |
| Sorting.MergeSortTrocos | rede_viaria.py:22-34 | `merge_sort_trocos`: the result has the input's length; `Sorting.MergeSortCorrect` and `Sorting.MergeSortSwapsTies` state the rest |
| Sorting.MergeTrocos | rede_viaria.py:36-53 | the two-index merge loop with its two final `extend`s computes `Merged` of the two lists |
| Sorting.MergedPermutes | rede_viaria.py:36-53 | the merge output is a permutation of the two inputs together, of length `len(esquerda)+len(direita)` |
| Sorting.MergedOrdered | rede_viaria.py:36-53 | merging two lists ordered by traffic (non-increasing when descending, non-decreasing otherwise) gives an ordered list |
| Sorting.MergeSortCorrect | rede_viaria.py:22-34 | the merge sort returns a permutation of its input, ordered by traffic in the requested direction; lists of length at most 1 come back unchanged |
| Sorting.MergeSortSwapsTies | rede_viaria.py:43-49 | two distinct entries with equal traffic come out in swapped order, so the sort is not stable |
| Graph.Link | rede_viaria.py:131-134 | `adicionar_troco`'s update: both directions hold the new data and the rows are the old ones plus those of the two ends; `Graph.LinkEntries` and `Graph.LinkWellFormed` state the rest |
| Graph.LinkEntries | rede_viaria.py:131-134 | adding a segment sets both directions to the same data, overwrites any prior edge of the pair, and changes no other entry |
| Graph.LinkWellFormed | rede_viaria.py:110-137 | linking two distinct known names keeps the adjacency symmetric, loop-free and within the known names |
| Graph.Unlink | rede_viaria.py:139-148 | `remover_troco`'s update: neither direction remains and no row is added or dropped; `Graph.UnlinkEntries` and `Graph.UnlinkWellFormed` state the rest |
| Graph.UnlinkEntries | rede_viaria.py:139-148 | removing a segment deletes both directions, changes no other entry and no row key, and yields a subgraph |
| Graph.UnlinkWellFormed | rede_viaria.py:139-148 | removing a segment keeps the adjacency symmetric, loop-free and within the known names |
| Graph.Detach | rede_viaria.py:85-94 | `remover_local`'s update of `adj`: the removed name's row is gone and every other row stays; `Graph.DetachEntries` and `Graph.DetachWellFormed` state the rest |
| Graph.DetachEntries | rede_viaria.py:85-93 | removing a place drops its row and its name from each neighbour's row, and leaves edges not incident to it untouched |
| Graph.DetachWellFormed | rede_viaria.py:85-94 | with a symmetric adjacency, after removing a place no row mentions it, and the adjacency stays well formed over the remaining names |
| Network.UnorderedPair | rede_viaria.py:173 | `tuple(sorted((origem, destino)))`; `Network.UnorderedPairSorted` and `Network.UnorderedPairIdentifies` state its properties |
| Network.UnorderedPairSorted | rede_viaria.py:173 | the sorted pair holds the same two names, the smaller one (by Python's string `<`) first |
| Network.UnorderedPairIdentifies | rede_viaria.py:173 | `tuple(sorted((a, b)))` identifies exactly the unordered pair `{a, b}` |
| Network.PairsOfIff | rede_viaria.py:169-176 | the `visitados` set holds exactly the unordered pairs of the segments listed so far |
| Network.Matches | rede_viaria.py:189-198 | the four filter conditions of `pesquisar_locais` joined by "and", each applied only when its argument is given; `Network.Select` and `Network.RoadNetwork.Search` state what it selects |
| Network.Select | rede_viaria.py:187-202 | the filters keep exactly the places that satisfy every supplied filter, keep a repeat-free list repeat-free, and change nothing when every place matches |
| Network.AddLocationConsistent | rede_viaria.py:69-77 | adding a new place with an empty row keeps the network invariant |
| Network.RemoveLocationConsistent | rede_viaria.py:79-97 | removing a place and its incident segments keeps the network invariant |
| Network.AddSegmentConsistent | rede_viaria.py:110-137 | adding a segment that passed the checks keeps the network invariant |
| Network.RemoveSegmentConsistent | rede_viaria.py:139-154 | removing a segment keeps the network invariant |
| Network.Triples | rede_viaria.py:219 | the `(origem, destino, media_veiculos)` triple of each listed segment; `Network.RankingFromListing` states what any reordering of them names |
| Network.RankingFromListing | rede_viaria.py:213-223 | any reordering of the triples of a complete, valid segment listing names only stored segments, each with its own vehicle count, and covers every stored segment |
| Network.PermutationKeepsPairs | rede_viaria.py:223 | sorting the ranking keeps its entries and keeps one entry per unordered pair |
| Network.RoadNetwork.constructor | rede_viaria.py:61-65 | a new network has no places and no segments and satisfies the invariant |
| Network.RoadNetwork.AddLocation | rede_viaria.py:69-77 | succeeds iff the exact name is not yet a key; then sets `locais[d]` and an empty row `adj[d]`, otherwise changes nothing |
| Network.RoadNetwork.RemoveLocation | rede_viaria.py:79-97 | succeeds iff the name is known; then removes it from `locais` and `adj` and from every neighbour's row, leaving every other edge as it was; an unknown name changes nothing |
| Network.RoadNetwork.GetLocation | rede_viaria.py:99-104 | returns the place stored under the name, or `None` if there is none |
| Network.RoadNetwork.ListLocations | rede_viaria.py:106-108 | lists every stored place exactly once |
| Network.RoadNetwork.AddSegment | rede_viaria.py:110-137 | fails and changes nothing if a name is unknown, the names are equal, the traffic is negative or the distance is below the geographic one; otherwise stores the segment in both directions, overwriting any earlier one |
| Network.RoadNetwork.RemoveSegment | rede_viaria.py:139-154 | succeeds iff at least one direction existed; afterwards neither direction exists and nothing else changed |
| Network.RoadNetwork.GetSegment | rede_viaria.py:156-164 | returns `adj[d1][d2]` when that entry exists, otherwise `adj[d2][d1]` when that exists, otherwise `None`; on a symmetric adjacency both directions agree |
| Network.RoadNetwork.ListSegments | rede_viaria.py:166-177 | each listed triple is a stored edge with its data, no unordered pair is listed twice, and every stored edge's pair is listed |
| Network.RoadNetwork.Search | rede_viaria.py:181-207 | returns exactly the stored places satisfying every supplied filter (name substring and parish equality ignoring case, lowercase keyword membership, geographic distance at most the radius), without repeats, ascending by lowercased name; with no filter, every place |
| Network.RoadNetwork.RankByTraffic | rede_viaria.py:211-225 | one triple per unordered pair of stored edges, each carrying that edge's vehicle count, covering every edge, in non-increasing order of traffic |

## Left out

- The interactive menu program (main.py) is not part of this model: it is console input, dispatch and formatting.
- `calcular_distancia_geografica` is not computed. Its floating-point trigonometry is replaced by the network's `geo` function, which is assumed only to be symmetric.
- Floating point: distances, coordinates and the radius are `real`. Rounding, NaN and infinities are not modelled. In the code a NaN distance passes the check of `adicionar_troco` (`distancia < distancia_geo` is false for NaN, rede_viaria.py:126) and is stored. So the distance bound in `Network.Consistent` holds only for segments whose distance is a number, which is all the model can express.
- `lower()` is modelled on ASCII letters only. Unicode case mapping, including mappings that change the length, is not modelled.
- Console diagnostics (`print`) in every method are left out. Only the boolean or optional results and the state changes are modelled.
- `__str__`, `__repr__` and the `url` field are presentation only and are left out.
- The `try/except` around the proximity filter (rede_viaria.py:196-202) is left out. It catches errors from malformed coordinates, which the `Coords` type excludes. It also catches floating-point domain errors inside the distance, such as `math.sqrt` of a value pushed just below zero by rounding (local.py:83). The model has neither. The same error inside `adicionar_troco` (rede_viaria.py:124), which has no handler, is not modelled either.
- The `isinstance` checks in `Local` (local.py:14-16, 33, 57, 63) are guaranteed by Dafny's types.
- Dictionary iteration order is not modelled. `ListLocations`, `ListSegments`, `Search` and `RankByTraffic` state membership, uniqueness and ordering, not the order in which the dictionaries are walked.
- Object aliasing is not modelled. The segment data is a value stored under both directions, whereas the code shares one dictionary object between them (rede_viaria.py:132-134).
- The name, parish and coordinates of a `Location` are constants. The code never reassigns them after construction.
- `Places.Location.constructor` takes already-checked fields. The raising constructor is `Create`, which returns a `Result` instead of raising `ValueError`.
- Network.RoadNetwork.RankByTraffic: it reuses `ListSegments` instead of repeating the code's own duplicate-pair loop (rede_viaria.py:213-220). The result is the same set of triples.
- Network.RoadNetwork.Search: the four successive list comprehensions are modelled as one conjunctive filter (`Select`). It returns the same places in the same relative order.
