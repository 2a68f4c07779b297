/**
 * GeoRoute/GeoRoute.php: the object that holds the trip settings and the
 * location table, and runs the route pipeline once, memoising the result.
 *
 * The location table is a sequence indexed by key; the order in which PHP
 * iterates it after the population sort is kept in the field `order`.
 * Loading the table from a file is not modelled: it is given to the
 * constructor, together with the settings the setters would store.
 */
module GeoRoute {
  import opened Sequences
  import opened Distance
  import opened PathFinding

  /** One row of the location table. */
  datatype Location = Location(name: string, population: nat, latitude: real, longitude: real, distance: real)

  /** a comes before b in the population order: higher population first, then lower key. */
  predicate Before(locs: seq<Location>, a: nat, b: nat)
    requires a < |locs| && b < |locs|
  {
    locs[a].population > locs[b].population ||
    (locs[a].population == locs[b].population && a < b)
  }

  /** The number of entries array_slice($a, 0, $length) keeps from an array of n entries. */
  function SliceLength(n: nat, length: int): (len: nat)
    ensures len <= n
    ensures 0 <= length <= n ==> len == length
    ensures length < 0 ==> len == if -length < n then n + length else 0
  {
    if length >= 0 then (if length < n then length else n)
    else if n + length > 0 then n + length
    else 0
  }

  /** A closed tour from `start` over keys below n that visits no key twice before returning. */
  predicate IsTour(r: seq<nat>, start: nat, n: nat)
  {
    |r| >= 2 && r[0] == start && r[|r| - 1] == start && InRange(r, n) && Distinct(r[..|r| - 1])
  }

  /** The population summed over every entry of r, the closing repeat included. */
  function PopulationOf(locs: seq<Location>, r: seq<nat>): nat
    requires InRange(r, |locs|)
  {
    if r == [] then 0
    else PopulationOf(locs, r[..|r| - 1]) + locs[r[|r| - 1]].population
  }

  /** The population sum is additive over concatenation. */
  lemma {:induction false} PopulationSplit(locs: seq<Location>, r: seq<nat>, s: seq<nat>)
    requires InRange(r, |locs|) && InRange(s, |locs|)
    ensures InRange(r + s, |locs|)
    ensures PopulationOf(locs, r + s) == PopulationOf(locs, r) + PopulationOf(locs, s)
  {
    assert InRange(r + s, |locs|);
    if s == [] {
      assert r + s == r;
    } else {
      var t := s[..|s| - 1];
      assert InRange(t, |locs|);
      PopulationSplit(locs, r, t);
      assert (r + s)[..|r + s| - 1] == r + t;
    }
  }

  /**
   * A route that starts and ends at a key with population 0 covers exactly
   * the population of its interior stops.
   */
  lemma ClosedPopulation(locs: seq<Location>, r: seq<nat>)
    requires InRange(r, |locs|) && |r| >= 2
    requires locs[r[0]].population == 0 && locs[r[|r| - 1]].population == 0
    ensures InRange(r[1..|r| - 1], |locs|)
    ensures PopulationOf(locs, r) == PopulationOf(locs, r[1..|r| - 1])
  {
    var inner := r[1..|r| - 1];
    assert InRange(inner, |locs|);
    assert r == [r[0]] + inner + [r[|r| - 1]];
    PopulationSplit(locs, [r[0]], inner);
    PopulationSplit(locs, [r[0]] + inner, [r[|r| - 1]]);
    assert PopulationOf(locs, [r[0]]) == PopulationOf(locs, []) + locs[r[0]].population;
    assert PopulationOf(locs, [r[|r| - 1]]) == PopulationOf(locs, []) + locs[r[|r| - 1]].population;
  }

  /** A tour with distinct stops visits |r| - 1 different locations. */
  lemma TourElements(r: seq<nat>, start: nat, n: nat)
    requires IsTour(r, start, n)
    ensures |Elements(r)| == |r| - 1
  {
    var open := r[..|r| - 1];
    assert r == open + [r[0]];
    assert r[0] == open[0];
    assert Elements(r) == Elements(open);
    DistinctCardinality(open);
  }

  /** Reordering a closed route while keeping its last entry keeps its open part a permutation. */
  lemma ClosedPermutation(r: seq<nat>, s: seq<nat>)
    requires |r| == |s| && |r| > 0 && multiset(r) == multiset(s) && r[|r| - 1] == s[|s| - 1]
    requires Distinct(r[..|r| - 1])
    ensures Distinct(s[..|s| - 1])
  {
    assert r == r[..|r| - 1] + [r[|r| - 1]];
    assert s == s[..|s| - 1] + [s[|s| - 1]];
    assert multiset(r) == multiset(r[..|r| - 1]) + multiset{r[|r| - 1]};
    assert multiset(s) == multiset(s[..|s| - 1]) + multiset{s[|s| - 1]};
    assert multiset(r[..|r| - 1]) == multiset(r) - multiset{r[|r| - 1]};
    assert multiset(s[..|s| - 1]) == multiset(s) - multiset{s[|s| - 1]};
    DistinctPermutation(r[..|r| - 1], s[..|s| - 1]);
  }

  /**
   * uasort by descending population (stable since PHP 8): the keys 0 .. n-1,
   * which is their order before the sort, rearranged so that higher
   * populations come first and equal populations keep key order.
   */
  method SortByPopulation(locs: seq<Location>) returns (order: seq<nat>)
    ensures |order| == |locs| && InRange(order, |locs|) && Distinct(order)
    ensures forall i, j :: 0 <= i < j < |order| ==> Before(locs, order[i], order[j])
  {
    order := [];
    var k := 0;
    while k < |locs|
      invariant k <= |locs| && |order| == k && Distinct(order)
      invariant forall i :: 0 <= i < |order| ==> order[i] < k
      invariant forall i, j :: 0 <= i < j < |order| ==> Before(locs, order[i], order[j])
    {
      var pos := 0;
      while pos < |order| && locs[order[pos]].population >= locs[k].population
        invariant pos <= |order|
        invariant forall i :: 0 <= i < pos ==> locs[order[i]].population >= locs[k].population
      {
        pos := pos + 1;
      }
      InsertSorted(locs, order, pos, k);
      order := order[..pos] + [k] + order[pos..];
      k := k + 1;
    }
  }

  /** Inserting a new largest key after every entry of at least its population keeps the order sorted. */
  lemma InsertSorted(locs: seq<Location>, order: seq<nat>, pos: nat, k: nat)
    requires k < |locs| && pos <= |order| && Distinct(order)
    requires forall i :: 0 <= i < |order| ==> order[i] < k
    requires forall i, j :: 0 <= i < j < |order| ==> Before(locs, order[i], order[j])
    requires forall i :: 0 <= i < pos ==> locs[order[i]].population >= locs[k].population
    requires pos < |order| ==> locs[order[pos]].population < locs[k].population
    ensures var s := order[..pos] + [k] + order[pos..];
      Distinct(s) && (forall i :: 0 <= i < |s| ==> s[i] < k + 1) &&
      forall i, j :: 0 <= i < j < |s| ==> Before(locs, s[i], s[j])
  {
    var s := order[..pos] + [k] + order[pos..];
    forall j | pos < j < |s| ensures locs[s[j]].population < locs[k].population {
      assert s[j] == order[j - 1];
      if j - 1 > pos {
        assert Before(locs, order[pos], order[j - 1]);
      }
    }
  }

  /**
   * The top-population selection and array_intersect_key: the keys below n,
   * in key order, that are among the first `maxVisits` of `order` or are the
   * starting key.
   */
  method HighestPopulationKeys(n: nat, order: seq<nat>, maxVisits: int, startingLocationKey: nat)
    returns (keys: seq<nat>)
    ensures InRange(keys, n) && Distinct(keys)
    ensures forall i, j :: 0 <= i < j < |keys| ==> keys[i] < keys[j]
    ensures forall k: nat :: k in keys <==>
      k < n && (k == startingLocationKey || k in order[..SliceLength(|order|, maxVisits)])
  {
    var highestPopLocations := order[..SliceLength(|order|, maxVisits)];
    keys := [];
    var k := 0;
    while k < n
      invariant k <= n && InRange(keys, k)
      invariant forall i, j :: 0 <= i < j < |keys| ==> keys[i] < keys[j]
      invariant forall c: nat :: c in keys <==>
        c < k && (c == startingLocationKey || c in highestPopLocations)
    {
      if k in highestPopLocations || k == startingLocationKey {
        keys := keys + [k];
      }
      k := k + 1;
    }
  }

  /**
   * The selection keeps the most populous locations: it has at most
   * maxVisits + 1 keys, holds the start, and no selected key other than the
   * start has a smaller population than an unselected key.
   */
  lemma SelectionIsTopN(locs: seq<Location>, order: seq<nat>, maxVisits: int, start: nat, keys: seq<nat>)
    requires |order| == |locs| && InRange(order, |locs|) && Distinct(order) && start < |locs|
    requires forall i, j :: 0 <= i < j < |order| ==> Before(locs, order[i], order[j])
    requires Distinct(keys)
    requires forall k: nat :: k in keys <==>
      k < |locs| && (k == start || k in order[..SliceLength(|order|, maxVisits)])
    ensures start in keys
    ensures |keys| <= SliceLength(|order|, maxVisits) + 1
    ensures forall a: nat, b: nat :: a in keys && a != start && b < |locs| && b !in keys ==>
      a < |locs| && locs[a].population >= locs[b].population
  {
    var len := SliceLength(|order|, maxVisits);
    var top := order[..len];
    assert Distinct(top);
    DistinctCardinality(top);
    DistinctCardinality(keys);
    assert Elements(keys) <= Elements(top) + {start};
    SubsetCardinality(Elements(keys), Elements(top) + {start});
    forall a: nat, b: nat | a in keys && a != start && b < |locs| && b !in keys
      ensures a < |locs| && locs[a].population >= locs[b].population
    {
      var i :| 0 <= i < len && top[i] == a;
      var j := KeyPosition(order, b);
      assert Before(locs, order[i], order[j]);
    }
  }

  /** A permutation of 0 .. n-1 holds every key below n. */
  lemma KeyPosition(order: seq<nat>, b: nat) returns (j: nat)
    requires InRange(order, |order|) && Distinct(order) && b < |order|
    ensures j < |order| && order[j] == b
  {
    DistinctCardinality(order);
    var keysBelow := Below(|order|);
    assert Elements(order) <= keysBelow;
    SubsetCardinality(Elements(order), keysBelow);
    assert b in Elements(order);
    j :| 0 <= j < |order| && order[j] == b;
  }

  /** The naturals below n. */
  function Below(n: nat): (s: set<nat>)
    ensures |s| == n
    ensures forall x: nat :: x in s <==> x < n
  {
    if n == 0 then {} else Below(n - 1) + {n - 1}
  }

  /** The foreach that builds $populationData: each key's population. */
  method PopulationData(locs: seq<Location>) returns (populationData: seq<nat>)
    ensures |populationData| == |locs|
    ensures forall k :: 0 <= k < |locs| ==> populationData[k] == locs[k].population
  {
    populationData := [];
    var k := 0;
    while k < |locs|
      invariant k <= |locs| && |populationData| == k
      invariant forall c :: 0 <= c < k ==> populationData[c] == locs[c].population
    {
      populationData := populationData + [locs[k].population];
      k := k + 1;
    }
  }

  /** The reducer keeps a tour a tour: it changes neither the ends nor the absence of repetitions. */
  lemma ReducedTour(m: Matrix, pop: seq<nat>, route: seq<nat>, r: seq<nat>, start: nat)
    requires IsSquare(m) && InRange(route, |m|) && |pop| == |m|
    requires IsTour(route, start, |m|) && ReducedFrom(m, pop, route, r)
    ensures IsTour(r, start, |m|)
  {
    assert r[0] == route[0] && r[|r| - 1] == route[|route| - 1];
  }

  /**
   * The intermediate results of getRoute's stages: the nearest-neighbour
   * route, the route after the first 2-opt, the population table, the route
   * after the distance reducer, the reducer's decrements of its tracked
   * distance, and the routes its passes went through.
   */
  datatype Stages = Stages(initial: seq<nat>, improved: seq<nat>, pop: seq<nat>, reduced: seq<nat>, savings: seq<real>,
                           passes: seq<seq<nat>>)

  /**
   * getRoute's stages, each run once and in this order: nearest neighbour over
   * the selected keys from the start, 2-opt, the distance reducer over every
   * location with the budget time * speed, and 2-opt again, ending in `route`.
   */
  ghost predicate Planned(m: Matrix, keys: seq<nat>, start: nat, locationData: seq<Location>, time: int, speed: int,
                          route: seq<nat>, st: Stages)
    requires IsSquare(m) && |m| == |locationData| && InRange(keys, |m|)
  {
    NearestTour(m, keys, start, st.initial) &&
    ImprovedBy2Opt(m, st.initial, st.improved) &&
    |st.pop| == |m| && (forall k :: 0 <= k < |m| ==> st.pop[k] == locationData[k].population) &&
    ReducerOutcome(m, st.pop, st.improved, (time * speed) as real, st.reduced, st.savings, st.passes) &&
    ImprovedBy2Opt(m, st.reduced, route)
  }

  /**
   * Every stop of the planned route is a selected key or a location with a
   * positive population: 2-opt only reorders, and the reducer brings in only
   * populated locations.
   */
  lemma PlannedStops(m: Matrix, keys: seq<nat>, start: nat, locationData: seq<Location>, time: int, speed: int,
                     route: seq<nat>, st: Stages)
    requires IsSquare(m) && |m| == |locationData| && InRange(keys, |m|) && start in keys
    requires Planned(m, keys, start, locationData, time, speed, route, st)
    ensures forall t :: 0 <= t < |route| ==> route[t] in keys || locationData[route[t]].population > 0
  {
    forall t | 0 <= t < |route| ensures route[t] in keys || locationData[route[t]].population > 0 {
      var x := route[t];
      assert x in multiset(route);
      assert x in multiset(st.reduced);
      var j :| 0 <= j < |st.reduced| && st.reduced[j] == x;
      if st.reduced[j] == st.improved[j] {
        assert x in multiset(st.improved);
        assert x in multiset(st.initial);
        var i :| 0 <= i < |st.initial| && st.initial[i] == x;
        if i == 0 || i == |keys| {
          assert x == start;
        }
      }
    }
  }

  /** The planned route is no longer than the nearest-neighbour route it started from. */
  lemma PlannedShortens(m: Matrix, keys: seq<nat>, start: nat, locationData: seq<Location>, time: int, speed: int,
                        route: seq<nat>, st: Stages)
    requires IsSquare(m) && |m| == |locationData| && InRange(keys, |m|)
    requires Planned(m, keys, start, locationData, time, speed, route, st)
    ensures RouteDistance(m, route, true) <= RouteDistance(m, st.reduced, true)
      <= RouteDistance(m, st.improved, true) <= RouteDistance(m, st.initial, true)
  {
  }

  /** The stages of getRoute after the selection (GeoRoute.php, lines 219-232). */
  method PlanRoute(distanceGraph: Matrix, keys: seq<nat>, startingLocationKey: nat, locationData: seq<Location>,
                   time: int, speed: int)
    returns (route: seq<nat>, ghost st: Stages)
    requires IsSquare(distanceGraph) && |distanceGraph| == |locationData|
    requires InRange(keys, |distanceGraph|) && Distinct(keys) && startingLocationKey in keys
    requires forall p, q :: 0 <= p < |keys| && 0 <= q < |keys| && p != q ==> distanceGraph[keys[p]][keys[q]] > 0.0
    ensures Planned(distanceGraph, keys, startingLocationKey, locationData, time, speed, route, st)
    ensures IsTour(route, startingLocationKey, |distanceGraph|) && |route| == |keys| + 1
    ensures forall t :: 0 <= t < |route| ==> route[t] in keys || locationData[route[t]].population > 0
    ensures RouteDistance(distanceGraph, route, true) <= RouteDistance(distanceGraph, st.initial, true)
  {
    route := NearestNeighbour(distanceGraph, keys, startingLocationKey);
    ghost var initial := route;
    assert IsTour(initial, startingLocationKey, |distanceGraph|);
    route := TwoOpt(route, distanceGraph);
    ClosedPermutation(initial, route);
    assert IsTour(route, startingLocationKey, |distanceGraph|);
    ghost var improved := route;
    var populationData := PopulationData(locationData);
    ghost var savings, passes;
    route, savings, passes := DistanceReducer(route, distanceGraph, populationData, time, speed);
    ReducedTour(distanceGraph, populationData, improved, route, startingLocationKey);
    ghost var reduced := route;
    route := TwoOpt(route, distanceGraph);
    ClosedPermutation(reduced, route);
    st := Stages(initial, improved, populationData, reduced, savings, passes);
    PlannedStops(distanceGraph, keys, startingLocationKey, locationData, time, speed, route, st);
    PlannedShortens(distanceGraph, keys, startingLocationKey, locationData, time, speed, route, st);
  }

  /**
   * The results of getRoute on a table whose last key is the start (population
   * 0): the full distance graph, the keys in population order, the selection
   * of the first maxVisits keys plus the start in ascending key order, and the
   * planned route over it, every stop of which is selected or populated.
   */
  ghost predicate Computed(locs: seq<Location>, pairwise: (Location, Location) -> real, maxVisits: int, time: int, speed: int,
                           graph: Matrix, order: seq<nat>, keys: seq<nat>, route: seq<nat>, st: Stages)
  {
    |locs| > 0 && locs[|locs| - 1].population == 0 &&
    var start := |locs| - 1;
    |graph| == |locs| && IsSquare(graph) &&
    (forall i, j :: 0 <= i < |locs| && 0 <= j < |locs| ==> graph[i][j] == pairwise(locs[i], locs[j])) &&
    |order| == |locs| && InRange(order, |locs|) && Distinct(order) &&
    (forall i, j :: 0 <= i < j < |order| ==> Before(locs, order[i], order[j])) &&
    (forall k: nat :: k in keys <==> k < |locs| && (k == start || k in order[..SliceLength(|order|, maxVisits)])) &&
    |keys| <= SliceLength(|order|, maxVisits) + 1 &&
    (forall a: nat, b: nat :: a in keys && a != start && b < |locs| && b !in keys ==>
      a < |locs| && locs[a].population >= locs[b].population) &&
    InRange(keys, |graph|) && (forall i, j :: 0 <= i < j < |keys| ==> keys[i] < keys[j]) &&
    Planned(graph, keys, start, locs, time, speed, route, st) &&
    IsTour(route, start, |locs|) && |route| == |keys| + 1 &&
    (forall t :: 0 <= t < |route| ==> route[t] in keys || locs[route[t]].population > 0)
  }

  /**
   * The body of getRoute after the start is appended (GeoRoute.php, lines
   * 197-232): build the graph, sort, select and plan.
   */
  method ComputeRoute(locs: seq<Location>, pairwise: (Location, Location) -> real, maxVisits: int, time: int, speed: int)
    returns (graph: Matrix, order: seq<nat>, keys: seq<nat>, route: seq<nat>, ghost st: Stages)
    requires |locs| > 0 && locs[|locs| - 1].population == 0
    requires forall a, b :: 0 <= a < |locs| && 0 <= b < |locs| && a != b ==> pairwise(locs[a], locs[b]) > 0.0
    ensures Computed(locs, pairwise, maxVisits, time, speed, graph, order, keys, route, st)
  {
    var startingLocationKey := |locs| - 1;
    graph := GetDistanceGraph(locs, pairwise);
    order := SortByPopulation(locs);
    keys := HighestPopulationKeys(|graph|, order, maxVisits, startingLocationKey);
    SelectionIsTopN(locs, order, maxVisits, startingLocationKey, keys);
    forall p, q | 0 <= p < |keys| && 0 <= q < |keys| && p != q
      ensures graph[keys[p]][keys[q]] > 0.0
    {
      assert keys[p] != keys[q];
      assert graph[keys[p]][keys[q]] == pairwise(locs[keys[p]], locs[keys[q]]);
    }
    route, st := PlanRoute(graph, keys, startingLocationKey, locs, time, speed);
  }

  /** The trip planner: settings, the location table and the memoised route. */
  class GeoRoute {
    var time: int
    var speed: int
    var maxVisits: int
    var startingLatitude: real
    var startingLongitude: real
    var locationData: seq<Location>
    /** The keys of locationData in PHP iteration order. */
    var order: seq<nat>
    var distanceGraph: Matrix
    /** The computed route; empty until GetRoute has run. */
    var route: seq<nat>
    var routeDistance: real
    /** The great-circle distance between two locations. */
    const pairwise: (Location, Location) -> real

    /** Once a route is computed it is a tour from the starting key, the last key, whose population is 0. */
    ghost predicate Valid()
      reads this
    {
      route != [] ==>
        |locationData| > 0 && IsSquare(distanceGraph) && |distanceGraph| == |locationData| &&
        locationData[|locationData| - 1].population == 0 &&
        IsTour(route, |locationData| - 1, |locationData|)
    }

    constructor (time: int, speed: int, maxVisits: int, latitude: real, longitude: real,
                 locationData: seq<Location>, pairwise: (Location, Location) -> real)
      ensures Valid()
      ensures this.time == time && this.speed == speed && this.maxVisits == maxVisits
      ensures startingLatitude == latitude && startingLongitude == longitude
      ensures this.locationData == locationData && this.pairwise == pairwise
      ensures route == [] && distanceGraph == []
    {
      this.time := time;
      this.speed := speed;
      this.maxVisits := maxVisits;
      startingLatitude := latitude;
      startingLongitude := longitude;
      this.locationData := locationData;
      order := seq(|locationData|, i => i);
      distanceGraph := [];
      route := [];
      routeDistance := 0.0;
      this.pairwise := pairwise;
    }

    /** addStartingLocation: the table with the starting location appended as its last key, population 0. */
    function AddStartingLocation(locs: seq<Location>): (r: seq<Location>)
      reads this
      ensures |r| == |locs| + 1 && r[..|locs|] == locs
      ensures r[|locs|].population == 0
      ensures r[|locs|].latitude == startingLatitude && r[|locs|].longitude == startingLongitude
    {
      locs + [Location("Starting Location", 0, startingLatitude, startingLongitude, 0.0)]
    }

    /**
     * getRoute: return the stored route if there is one; otherwise append the
     * start, build the distance graph, sort by population, select the top
     * maxVisits keys plus the start, and run nearest neighbour, 2-opt, the
     * distance reducer and 2-opt again.
     */
    method GetRoute() returns (r: seq<nat>, keys: seq<nat>, ghost st: Stages)
      requires Valid()
      requires route == [] ==> var full := AddStartingLocation(locationData);
        forall a, b :: 0 <= a < |full| && 0 <= b < |full| && a != b ==> pairwise(full[a], full[b]) > 0.0
      modifies this
      ensures Valid() && r == route
      ensures time == old(time) && speed == old(speed) && maxVisits == old(maxVisits)
      ensures startingLatitude == old(startingLatitude) && startingLongitude == old(startingLongitude)
      ensures routeDistance == old(routeDistance)
      ensures old(route) != [] ==> r == old(route) && unchanged(this)
      ensures old(route) == [] ==>
        locationData == old(AddStartingLocation(locationData)) &&
        Computed(locationData, pairwise, maxVisits, time, speed, distanceGraph, order, keys, r, st)
    {
      if route != [] {
        r, keys, st := route, [], Stages([], [], [], [], [], []);
        return;
      }
      var full := AddStartingLocation(locationData);
      var graph, sorted;
      graph, sorted, keys, r, st := ComputeRoute(full, pairwise, maxVisits, time, speed);
      Store(full, graph, sorted, r);
    }

    /** The four assignments that end getRoute. */
    method Store(locs: seq<Location>, graph: Matrix, sorted: seq<nat>, r: seq<nat>)
      modifies this
      ensures locationData == locs && distanceGraph == graph && order == sorted && route == r
      ensures time == old(time) && speed == old(speed) && maxVisits == old(maxVisits)
      ensures startingLatitude == old(startingLatitude) && startingLongitude == old(startingLongitude)
      ensures routeDistance == old(routeDistance)
    {
      locationData := locs;
      distanceGraph := graph;
      order := sorted;
      route := r;
    }

    /** getRouteDistance: the closed distance of the route, which for a tour is its open path length. */
    method GetRouteDistance() returns (d: real)
      requires Valid() && route != []
      modifies this
      ensures route == old(route) && distanceGraph == old(distanceGraph) && locationData == old(locationData)
      ensures order == old(order) && time == old(time) && speed == old(speed) && maxVisits == old(maxVisits)
      ensures startingLatitude == old(startingLatitude) && startingLongitude == old(startingLongitude)
      ensures Valid()
      ensures d == routeDistance == RouteDistance(distanceGraph, route, true)
      ensures d == PathLength(distanceGraph, route)
      ensures NonNegative(distanceGraph) ==> d >= 0.0
    {
      routeDistance := CalculateRouteDistance(route, distanceGraph, true);
      d := routeDistance;
      ClosingEdge(distanceGraph, route);
    }

    /**
     * getPopulationVisited: the population summed over every route entry;
     * for a tour this is the population of the interior stops, the start
     * having population 0.
     */
    method GetPopulationVisited() returns (population: nat)
      requires InRange(route, |locationData|)
      ensures population == PopulationOf(locationData, route)
      ensures Valid() && route != [] ==> population == PopulationOf(locationData, route[1..|route| - 1])
    {
      population := 0;
      var i := 0;
      while i < |route|
        invariant i <= |route|
        invariant population == PopulationOf(locationData, route[..i])
      {
        assert route[..i + 1][..i] == route[..i];
        population := population + locationData[route[i]].population;
        i := i + 1;
      }
      assert route[..i] == route;
      if Valid() && route != [] {
        ClosedPopulation(locationData, route);
      }
    }

    /** getNumberOfLocationsVisited: the route length less the start and its closing repeat. */
    method GetNumberOfLocationsVisited() returns (n: int)
      requires route != []
      ensures n == |route| - 2
      ensures Valid() ==> n >= 0 && n == |Elements(route)| - 1
    {
      n := |route| - 2;
      if Valid() {
        TourElements(route, |locationData| - 1, |locationData|);
      }
    }
  }
}
