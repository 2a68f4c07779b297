# GeoRoute route pipeline in Dafny

GeoRoute plans a round trip from a starting coordinate. It visits the most
populous locations it can within a travel budget of `time * speed`.

This project models the route pipeline of the PHP classes `GeoRoute`,
`PathFinding` and `Distance`. Distances are an abstract square matrix of reals
indexed by location key, and the great-circle formula is a function parameter.
The matrix is built from the location table by `getDistanceGraph`.

The pipeline, as `GeoRoute::getRoute` runs it:

1. It appends the starting location as the last key, with population 0.
2. It builds the full distance graph.
3. It sorts the keys by descending population and keeps the first `maxVisits` plus the start.
4. It builds a nearest-neighbour tour over the kept keys.
5. It improves the tour with 2-opt.
6. It runs the population-for-distance reducer over all locations.
7. It runs 2-opt again.

Modules:

- `Sequences`: repetition-free sequences, `array_reverse`, and cardinality facts.
- `Distance`: `calculateRouteDistance`, `getDistanceGraph`, the closing-edge and
  additivity laws of route length, the effect of replacing one interior stop,
  and the finite measure that proves both search loops terminate.
- `PathFinding`:
  - `nearestNeighbourAlgorithm`, with a helper method for its inner scan;
  - `TwoOptAlgorithm`, with one method per pass and one per row of the pass;
  - `DistanceReducer`, with one method per candidate scan and one per position scan.
  Each method is proved against a specification function or predicate.
- `GeoRoute`: the `GeoRoute` class, with its settings, location table,
  distance graph and memoised route as fields, plus the sort, selection and
  statistics it uses.

The reducer is modelled exactly as written, quirks included:

- `$highestPopulationChange` stays 0, so the last position with a proposal wins,
  not the one with the highest population.
- Within a position, the `>=` test lets a later key of equal population win.
- The last interior position (`count - 2`) is never scanned.
- The tracked distance is lowered by the last saving assigned during the scan,
  not necessarily the saving of the adopted swap.

Nearest neighbour treats a zero matrix entry as "no edge". When no key
qualifies, PHP appends `$closestCityIndex` unchanged: the value from the
previous step, or an undefined variable (`null`) in the first step. The model
starts the variable at the start key and keeps the previous value otherwise.
Both cases are unreachable when distinct keys are a positive distance apart,
and the model proves that a qualifying key exists at every step.

Other behaviour of the code that the model keeps:

- Zero distances are skipped by the nearest-neighbour scan.
- The start takes part in the population sort. It has population 0 and the
  largest key, so it sorts last among the zero-population locations.
- `getRoute` memoises its result in the `route` field.

## Model

| member | source | states |
|---|---|---|
| Sequences.Reversed | GeoRoute/PathFinding.php:81 | array_reverse: same length, entry j is entry len-1-j of the input, and the same multiset |
| Distance.PathLength | GeoRoute/Distance.php:111-113 | the open route length is non-negative whenever every matrix entry is |
| Distance.CalculateRouteDistance | GeoRoute/Distance.php:102-116 | the loop's result is the route length, with the closing edge back to the first key added when `hamiltonian` is set and first != last |
| Distance.GetDistanceGraph | GeoRoute/Distance.php:72-91 | an n×n matrix whose entry [i][j] is the pairwise distance of locations i and j for every ordered pair, i = j included; symmetric when the pairwise function is; zero diagonal when the function is 0 on equal arguments |
| Distance.PathSplit | GeoRoute/Distance.php:111-113 | a one-key route has length 0, and the length is additive when the route is split at a shared index |
| Distance.ClosingEdge | GeoRoute/Distance.php:106-109 | with first != last the closed length is the open length plus the edge last→first; with first == last the flag changes nothing |
| Distance.SubstitutionDelta | GeoRoute/PathFinding.php:122-135 | replacing the key at interior position p changes the closed route length by exactly the change of the 3-key sub-route around p |
| Distance.ShorterShrinks | GeoRoute/PathFinding.php:87-91 | adopting a strictly shorter route of the same length strictly shrinks the finite set of routes shorter than the current one, the measure that bounds the 2-opt and reducer loops |
| PathFinding.NearestIsUnique | GeoRoute/PathFinding.php:38-43 | over distinct keys, at most one key satisfies the nearest-neighbour choice, so the scan is deterministic |
| PathFinding.NearestUnvisited | GeoRoute/PathFinding.php:36-45 | if some unvisited key has a non-zero distance, the result is the nearest such key, earliest on ties; otherwise it is the previous `$closestCityIndex` |
| PathFinding.NearestNeighbour | GeoRoute/PathFinding.php:25-52 | `NearestTour`: count+1 entries, starting and ending at the start key, no key repeated before the close, each appended key the nearest unvisited key with non-zero distance from the previous one, and every key visited |
| PathFinding.ReverseSegment | GeoRoute/PathFinding.php:74-82 | prefix [0, i) and suffix [i+k, len) unchanged, the slice [i, i+k) reversed, and the result a permutation of the route |
| PathFinding.TwoOptPass | GeoRoute/PathFinding.php:70-93 | a permutation with the same ends; if nothing is adopted, `improve` is unchanged and no scanned reversal is shorter; otherwise `improve` is reset to 0 and the route is strictly shorter |
| PathFinding.TwoOpt | GeoRoute/PathFinding.php:63-99 | `ImprovedBy2Opt`: a permutation of the input with the same first and last keys, no longer than the input, with no shorter reversal in the scanned range; a route already 2-opt optimal is returned unchanged, so 2-opt is idempotent |
| PathFinding.ScanSubstitutesChoice | GeoRoute/PathFinding.php:129-145 | no key is chosen exactly when no key off the route shortens the sub-route; a chosen key shortens it, has the highest population among the shortening keys, every later shortening key has lower population (ties go to the later key), and the recorded saving is the one it gives |
| PathFinding.PositionProposal | GeoRoute/PathFinding.php:121-149 | a position produces a proposal exactly when some key is eligible there (off the route, population > 0, shortens the sub-route), and the proposed key is eligible with maximal population |
| PathFinding.ScanPositionsSaving | GeoRoute/PathFinding.php:140-150 | whenever the position scan proposes a swap, the last saving assigned during the scan is positive |
| PathFinding.ScanPositionsProposal | GeoRoute/PathFinding.php:119-151 | the position scan proposes nothing exactly when no scanned position has an eligible key; otherwise it proposes the last such position, with its best key and that key's positive saving |
| PathFinding.BestSubstitute | GeoRoute/PathFinding.php:129-145 | the foreach over candidate keys computes the scan state of ScanSubstitutes, whose choice ScanSubstitutesChoice characterises |
| PathFinding.ProposeSwap | GeoRoute/PathFinding.php:119-151 | the for loop over positions 1..count-3, with `$highestPopulationChange` fixed at 0, computes the proposal and last saving that ScanPositions specifies |
| PathFinding.NoProposalIsNoSwap | GeoRoute/PathFinding.php:153-154 | the reducer breaks exactly when no position in 1..count-3 has an eligible substitute |
| PathFinding.ReducerStep | GeoRoute/PathFinding.php:133-157 | one adopted swap keeps the route length and its ends, brings in only a positive-population key not already on the route, and makes the closed route strictly shorter |
| PathFinding.ReducerAdvance | GeoRoute/PathFinding.php:156-159 | adopting an eligible swap while the tracked distance is over budget makes the route strictly shorter and extends the savings by one positive entry, with the tracked distance over budget before every saving |
| PathFinding.WithinBudgetUnchanged | GeoRoute/PathFinding.php:114-118 | when the input is already within budget, the loop does not run: no saving is recorded and the route is the input |
| PathFinding.DistanceReducer | GeoRoute/PathFinding.php:110-163 | `ReducerOutcome` over the ghost lists of the routes the passes went through and the savings the loop subtracted: pass j runs the position scan on the j-th route, started from the saving of pass j - 1 (0.0 before the first), adopts the swap that scan proposes (the last position with an eligible key, with its best key) to give the next route, and subtracts the last saving that scan assigned; the last route is the result. Also: same length and InRange; only positions 1..count-3 change; changed entries have population > 0; no repetition introduced; the closed length does not grow, and strictly drops if anything changed; every saving is positive and the savings are empty exactly when the route is unchanged; the tracked distance, the input's closed length minus the savings so far, was over budget before each swap; on return it is within budget or no swap is eligible; an input already within `allowedTime * speed` is returned unchanged |
| PathFinding.ReducerOutcomeUnique | GeoRoute/PathFinding.php:118-160 | two outcomes of the reducer from the same input and budget have the same passes, savings and result: the loop stops at the first pass that starts within budget or finds no proposal |
| GeoRoute.PopulationSplit | GeoRoute/GeoRoute.php:256-262 | the summed population of a concatenation is the sum of the parts |
| GeoRoute.ClosedPopulation | GeoRoute/GeoRoute.php:254-263 | a route whose ends have population 0 covers exactly the population of its interior stops |
| GeoRoute.TourElements | GeoRoute/GeoRoute.php:270-273 | a tour with no repeated stop visits len-1 distinct locations |
| GeoRoute.ClosedPermutation | GeoRoute/GeoRoute.php:222-232 | a permutation that keeps the closing key keeps the open part repetition-free |
| GeoRoute.SortByPopulation | GeoRoute/GeoRoute.php:205-207 | uasort by descending population: a permutation of the keys, ordered by descending population with equal populations in key order |
| GeoRoute.HighestPopulationKeys | GeoRoute/GeoRoute.php:210-217 | the kept keys in ascending key order, without repetitions: exactly the keys among the first `maxVisits` of the sorted order, plus the start |
| GeoRoute.SelectionIsTopN | GeoRoute/GeoRoute.php:205-213 | the selection holds the start, has at most `SliceLength(count, maxVisits) + 1` keys (the `array_slice` length, which counts from the end when `maxVisits` is negative), and no selected non-start location has a smaller population than an unselected one |
| GeoRoute.PopulationData | GeoRoute/GeoRoute.php:225-227 | `$populationData[$key]` is the population of location `$key` for every key |
| GeoRoute.PlannedStops | GeoRoute/GeoRoute.php:219-232 | every stop of the planned route is a selected key or a location with positive population brought in by the reducer |
| GeoRoute.PlanRoute | GeoRoute/GeoRoute.php:219-232 | `Planned`: the first stage is the nearest-neighbour tour over the selected keys; the second is 2-opt applied to it; the reducer, given every location's population and the budget `time * speed`, turns the second into the third with the reducer's outcome; the result is 2-opt applied to the third. Hence a tour from the start over count+1 entries, every stop selected or populated, no longer than the nearest-neighbour tour |
| GeoRoute.ComputeRoute | GeoRoute/GeoRoute.php:197-232 | with the start appended as the last key: the graph holds the pairwise distance of every pair; the order is sorted by population and a permutation; the selection is the top `maxVisits` plus the start, in ascending key order as `array_intersect_key` keeps the graph's order, with the top-N property; and the route is planned from them as `Planned` states |
| GeoRoute.GeoRoute.constructor | GeoRoute/GeoRoute.php:41-115 | the settings and location table are stored, and no route has been computed |
| GeoRoute.GeoRoute.AddStartingLocation | GeoRoute/GeoRoute.php:156-167 | the table is unchanged, followed by one new last entry at the starting coordinates with population 0 |
| GeoRoute.GeoRoute.GetRoute | GeoRoute/GeoRoute.php:186-235 | a stored route is returned and nothing changes. Otherwise the table gains the start as its last entry, and the new table, graph, order, selection (in ascending key order, which decides nearest-neighbour ties), route and stages satisfy `Computed` (what `ComputeRoute` states), read with the unchanged `maxVisits`, `time` and `speed`. Either way the settings, the starting coordinates and `routeDistance` are unchanged |
| GeoRoute.GeoRoute.GetRouteDistance | GeoRoute/GeoRoute.php:242-247 | stores and returns the closed route length, which for a tour equals its open length, and is non-negative for a non-negative graph; no other field changes |
| GeoRoute.GeoRoute.GetPopulationVisited | GeoRoute/GeoRoute.php:254-263 | the population summed over every route entry, closing repeat included; for a computed tour this equals the population of the interior stops, since the start has population 0 |
| GeoRoute.GeoRoute.GetNumberOfLocationsVisited | GeoRoute/GeoRoute.php:270-273 | `count(route) - 2`, which for a computed tour is the number of distinct locations visited besides the start |

## Left out

- `Distance::distanceBetweenCoordinates`: the Haversine formula with rounding to three decimals. The pairwise distance is a function parameter. Symmetry and a zero diagonal are hypotheses, not theorems.
- `Distance::setUnits` has no effect on the computation: it writes a property named by its argument.
- Floating point: distances are exact reals, so rounding and `INF` are not modelled. The nearest-neighbour scan uses a "found" flag where the source compares against `INF`.
- `GeoRoute/LocationFileHandler.php` is not part of this model (file reading, the minimum-population and radius filters). `getLocationData` and `setFile` are therefore not modelled. The location table, with keys 0..n-1, is given to the constructor.
- The setters (`setTime`, `setSpeed`, `setmaxVisits`, `setMinPop`, `setUnits`, `setStartingCoordinates`) are folded into the constructor. `minPopulation` only reaches the file handler, and `units` is stored by `setUnits` (GeoRoute.php, lines 70-73) but never read, so neither is a field.
- `getRouteTime` and `getRouteLocationData` are not part of the pipeline's route computation. The first is float division coerced to `int`; the second is a foreach that copies table rows in route order.
- `GeoRoute/Canvas.php`, `index.php` and `first_version.php` are rendering, the web form, and a superseded script.
- The float `speed` that PHP coerces to the `int` parameter of `DistanceReducer` is taken as an integer, and the budget is `(allowedTime * speed) as real`.
- PathFinding.NearestNeighbour: the `$route` parameter is not modelled, because its only caller passes `[]`. An empty key list is excluded by `|keys| > 0`: the PHP countdown `while ($locationCountDecrementer--)` would never stop at -1. The start must be among the keys, as at its only call site.
- PathFinding.DistanceReducer: the tracked distance is a local of the loop; the contract states it through the ghost list of savings. Because of the last-saving quirk it can differ from the real route length, so the exit condition is about the tracked value. `$distanceSavedWithNewRoute` is undefined in PHP until the first shortening key is found; the model starts it at 0.0, a value that is never subtracted nor compared, since a proposal needs such a key first.
- GeoRoute.SortByPopulation: uasort is modelled by its result under PHP 8's stable sort. PHP 7's sort is not stable and could order equal populations differently.
- GeoRoute.GeoRoute.GetRoute: `$this->highestPopLocationData` is a local value, not a field. The stages pass the route between them as values (`PlanRoute`) rather than through repeated writes to the `route` field, and the fields are written once at the end (`Store`). Calling `getLocationData` when the table is empty is not modelled.
- GeoRoute.GeoRoute.GetRoute requires every two distinct locations of the table with the start appended to be a positive distance apart. Nearest neighbour needs this only among the selected keys, but the selection is computed inside `getRoute`, so the requirement is stated over the whole table and is stronger than needed.
- A `null` route before `getRoute` is modelled as the empty sequence. `getRouteDistance` and `getNumberOfLocationsVisited`, which fail on `null` in PHP, require a computed route.
