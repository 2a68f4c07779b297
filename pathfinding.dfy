/**
 * GeoRoute/PathFinding.php: the three route algorithms.
 *
 * A route is a sequence of location keys; a distance graph is a square matrix
 * indexed by key (module Distance).
 */
module PathFinding {
  import opened Sequences
  import opened Distance

  datatype Option<T> = None | Some(value: T)

  // ---------------------------------------------------------------------------
  // Nearest neighbour
  // ---------------------------------------------------------------------------

  /** Key j can be picked from `from`: it is not on the route and the graph has a non-zero entry for it. */
  predicate Qualifies(m: Matrix, route: seq<nat>, from: nat, j: nat)
    requires IsSquare(m) && from < |m| && j < |m|
  {
    j !in route && m[from][j] != 0.0
  }

  /**
   * c is the key the nearest-neighbour scan picks from `from`: a key of `keys`
   * not yet visited, with a non-zero distance (zero means "no edge"), no farther
   * than any other such key, and strictly nearer than every such key that comes
   * before it in `keys` (so ties go to the earliest key).
   */
  predicate IsNearest(m: Matrix, keys: seq<nat>, visited: seq<nat>, from: nat, c: nat)
    requires IsSquare(m) && InRange(keys, |m|) && from < |m|
  {
    c in keys && c < |m| && Qualifies(m, visited, from, c) &&
    (forall q :: 0 <= q < |keys| && Qualifies(m, visited, from, keys[q]) ==> m[from][c] <= m[from][keys[q]]) &&
    (forall p, q :: 0 <= p < q < |keys| && keys[q] == c && Qualifies(m, visited, from, keys[p]) ==>
       m[from][c] < m[from][keys[p]])
  }

  /** The nearest-neighbour choice is unique. */
  lemma NearestIsUnique(m: Matrix, keys: seq<nat>, visited: seq<nat>, from: nat, c: nat, d: nat)
    requires IsSquare(m) && InRange(keys, |m|) && from < |m| && Distinct(keys)
    requires IsNearest(m, keys, visited, from, c) && IsNearest(m, keys, visited, from, d)
    ensures c == d
  {
    var p :| 0 <= p < |keys| && keys[p] == c;
    var q :| 0 <= q < |keys| && keys[q] == d;
  }

  /**
   * The foreach over the keys (PathFinding.php, lines 36-43). With no
   * qualifying key, $closestCityIndex keeps the value it had before.
   */
  method NearestUnvisited(m: Matrix, keys: seq<nat>, route: seq<nat>, from: nat, previous: nat)
    returns (closestCityIndex: nat)
    requires IsSquare(m) && InRange(keys, |m|) && from < |m| && Distinct(keys)
    ensures (exists q :: 0 <= q < |keys| && Qualifies(m, route, from, keys[q])) ==>
      IsNearest(m, keys, route, from, closestCityIndex)
    ensures (forall q :: 0 <= q < |keys| ==> !Qualifies(m, route, from, keys[q])) ==> closestCityIndex == previous
  {
    closestCityIndex := previous;
    var shortestDistance := 0.0;
    var found := false;
    var q := 0;
    while q < |keys|
      invariant 0 <= q <= |keys|
      invariant found ==> closestCityIndex < |m| && IsNearest(m, keys[..q], route, from, closestCityIndex) &&
                          shortestDistance == m[from][closestCityIndex]
      invariant !found ==> closestCityIndex == previous
      invariant !found ==> forall k :: 0 <= k < q ==> !Qualifies(m, route, from, keys[k])
    {
      var j := keys[q];
      NearestStep(m, keys, route, from, q, closestCityIndex, found);
      if j !in route && m[from][j] != 0.0 && (!found || m[from][j] < shortestDistance) {
        shortestDistance := m[from][j];
        closestCityIndex := j;
        found := true;
      }
      q := q + 1;
    }
    assert keys[..q] == keys;
  }

  /** One key of the scan: a qualifying key strictly nearer than the best so far replaces it; otherwise the best stays. */
  lemma NearestStep(m: Matrix, keys: seq<nat>, route: seq<nat>, from: nat, q: nat, c: nat, found: bool)
    requires IsSquare(m) && InRange(keys, |m|) && from < |m| && Distinct(keys) && q < |keys|
    requires found ==> c < |m| && IsNearest(m, keys[..q], route, from, c)
    requires !found ==> forall k :: 0 <= k < q ==> !Qualifies(m, route, from, keys[k])
    ensures Qualifies(m, route, from, keys[q]) && (!found || m[from][keys[q]] < m[from][c]) ==>
      IsNearest(m, keys[..q + 1], route, from, keys[q])
    ensures found && !(Qualifies(m, route, from, keys[q]) && m[from][keys[q]] < m[from][c]) ==>
      IsNearest(m, keys[..q + 1], route, from, c)
    ensures !found && !Qualifies(m, route, from, keys[q]) ==>
      forall k :: 0 <= k < q + 1 ==> !Qualifies(m, route, from, keys[k])
  {
    var next := keys[..q + 1];
    assert next[..q] == keys[..q];
    assert next[q] == keys[q];
  }

  /** Fewer distinct visited keys than candidate keys leaves a candidate unvisited. */
  lemma UnvisitedKeyExists(keys: seq<nat>, route: seq<nat>) returns (q: nat)
    requires Distinct(keys) && Distinct(route) && |route| < |keys|
    ensures q < |keys| && keys[q] !in route
  {
    if forall k :: 0 <= k < |keys| ==> keys[k] in route {
      var a := Elements(keys);
      var b := Elements(route);
      forall x | x in a ensures x in b {
        var k :| 0 <= k < |keys| && keys[k] == x;
      }
      DistinctCardinality(keys);
      DistinctCardinality(route);
      assert |a| == |keys|;
      assert |b| == |route|;
      SubsetCardinality(a, b);
      assert false;
    }
    q :| 0 <= q < |keys| && keys[q] !in route;
  }

  /** Every key after the first was the nearest-neighbour choice from the key before it. */
  ghost predicate Greedy(m: Matrix, keys: seq<nat>, route: seq<nat>)
    requires IsSquare(m) && InRange(keys, |m|) && InRange(route, |m|)
  {
    forall t :: 1 <= t < |route| ==> IsNearest(m, keys, route[..t], route[t - 1], route[t])
  }

  /** Appending the nearest key keeps the route free of repetitions and every earlier choice nearest. */
  lemma ExtendByNearest(m: Matrix, keys: seq<nat>, route: seq<nat>, c: nat)
    requires IsSquare(m) && InRange(keys, |m|) && InRange(route, |m|) && |route| > 0 && Distinct(route)
    requires forall t :: 1 <= t < |route| ==> route[t] in keys
    requires Greedy(m, keys, route)
    requires IsNearest(m, keys, route, route[|route| - 1], c)
    ensures InRange(route + [c], |m|) && Distinct(route + [c])
    ensures forall t :: 1 <= t < |route| + 1 ==> (route + [c])[t] in keys
    ensures Greedy(m, keys, route + [c])
  {
    var r := route + [c];
    assert r[..|route|] == route;
    forall t | 1 <= t < |r|
      ensures IsNearest(m, keys, r[..t], r[t - 1], r[t])
    {
      if t < |route| {
        assert r[..t] == route[..t];
      }
    }
  }

  /** While keys remain unvisited, one of them qualifies from the last key of the route. */
  lemma NextQualifies(m: Matrix, keys: seq<nat>, route: seq<nat>, start: nat) returns (w: nat)
    requires IsSquare(m) && InRange(keys, |m|) && start < |m| && Distinct(keys)
    requires forall p, q :: 0 <= p < |keys| && 0 <= q < |keys| && p != q ==> m[keys[p]][keys[q]] > 0.0
    requires start in keys
    requires InRange(route, |m|) && 0 < |route| < |keys| && Distinct(route) && route[0] == start
    requires forall t :: 1 <= t < |route| ==> route[t] in keys
    ensures w < |keys| && Qualifies(m, route, route[|route| - 1], keys[w])
  {
    w := UnvisitedKeyExists(keys, route);
    assert route[|route| - 1] in keys;
    var p :| 0 <= p < |keys| && keys[p] == route[|route| - 1];
    assert p != w;
  }

  /** Closing the greedy route with the start gives the tour nearestNeighbourAlgorithm returns. */
  lemma CloseTour(m: Matrix, keys: seq<nat>, route: seq<nat>, start: nat)
    requires IsSquare(m) && InRange(keys, |m|) && start < |m| && Distinct(keys)
    requires InRange(route, |m|) && |route| == |keys| && |route| > 0 && Distinct(route) && route[0] == start
    requires forall t :: 1 <= t < |route| ==> route[t] in keys
    requires Greedy(m, keys, route) && start in keys
    ensures NearestTour(m, keys, start, route + [start])
  {
    var r := route + [start];
    assert r[..|keys|] == route;
    forall t | 1 <= t < |keys| ensures IsNearest(m, keys, r[..t], r[t - 1], r[t]) {
      assert r[..t] == route[..t];
    }
    CoversAllKeys(keys, route);
  }

  /** As many distinct route keys as keys, all taken from the keys: every key is on the route. */
  lemma CoversAllKeys(keys: seq<nat>, route: seq<nat>)
    requires Distinct(keys) && Distinct(route) && |route| == |keys|
    requires forall t :: 0 <= t < |route| ==> route[t] in keys
    ensures forall k :: k in keys ==> k in route
  {
    var a := Elements(route);
    var b := Elements(keys);
    forall x | x in a ensures x in b {
      var t :| 0 <= t < |route| && route[t] == x;
    }
    DistinctCardinality(route);
    DistinctCardinality(keys);
    SubsetCardinality(a, b);
    forall k | k in keys ensures k in route {
      assert k in b;
    }
  }

  /**
   * A nearest-neighbour tour over `keys` from `start`: |keys| + 1 entries,
   * `start` at both ends, no key twice before the return, every key visited,
   * and each step the nearest key not yet visited.
   */
  ghost predicate NearestTour(m: Matrix, keys: seq<nat>, start: nat, r: seq<nat>)
    requires IsSquare(m) && InRange(keys, |m|)
  {
    |r| == |keys| + 1 && r[0] == start && r[|keys|] == start && InRange(r, |m|) &&
    Distinct(r[..|keys|]) &&
    (forall t :: 1 <= t < |keys| ==> r[t] in keys) &&
    (forall t :: 1 <= t < |keys| ==> IsNearest(m, keys, r[..t], r[t - 1], r[t])) &&
    (forall k :: k in keys ==> k in r)
  }

  /**
   * nearestNeighbourAlgorithm, called with an empty route: start at `start`,
   * append the nearest unvisited key |keys| - 1 times, then return to `start`.
   * The only caller passes the graph restricted to `keys`, with the start among
   * them, and distinct keys a non-zero distance apart, so a candidate always
   * qualifies.
   */
  method NearestNeighbour(m: Matrix, keys: seq<nat>, start: nat) returns (route: seq<nat>)
    requires IsSquare(m) && InRange(keys, |m|) && start < |m|
    requires |keys| > 0 && Distinct(keys) && start in keys
    requires forall p, q :: 0 <= p < |keys| && 0 <= q < |keys| && p != q ==> m[keys[p]][keys[q]] > 0.0
    ensures NearestTour(m, keys, start, route)
  {
    var locationCountDecrementer := |keys| - 1;
    route := [start];
    var i := start;
    var closestCityIndex := start;
    while locationCountDecrementer > 0
      invariant 0 <= locationCountDecrementer < |keys|
      invariant |route| == |keys| - locationCountDecrementer
      invariant route[0] == start && i == route[|route| - 1]
      invariant InRange(route, |m|) && Distinct(route)
      invariant forall t :: 1 <= t < |route| ==> route[t] in keys
      invariant Greedy(m, keys, route)
    {
      ghost var w := NextQualifies(m, keys, route, start);
      closestCityIndex := NearestUnvisited(m, keys, route, i, closestCityIndex);
      ExtendByNearest(m, keys, route, closestCityIndex);
      route := route + [closestCityIndex];
      i := closestCityIndex;
      locationCountDecrementer := locationCountDecrementer - 1;
    }
    CloseTour(m, keys, route, start);
    route := route + [start];
  }

  // ---------------------------------------------------------------------------
  // 2-opt
  // ---------------------------------------------------------------------------

  /** The route with its slice [i, i + k) reversed, prefix and suffix unchanged. */
  function ReverseSegment(r: seq<nat>, i: nat, k: nat): (s: seq<nat>)
    requires i + k <= |r|
    ensures |s| == |r| && s[..i] == r[..i] && s[i + k..] == r[i + k..]
    ensures forall j :: i <= j < i + k ==> s[j] == r[2 * i + k - 1 - j]
    ensures multiset(s) == multiset(r)
  {
    assert r == r[..i] + r[i..i + k] + r[i + k..];
    r[..i] + Reversed(r[i..i + k]) + r[i + k..]
  }

  lemma ReverseSegmentInRange(r: seq<nat>, i: nat, k: nat, n: nat)
    requires i + k <= |r| && InRange(r, n)
    ensures InRange(ReverseSegment(r, i, k), n)
  {
    var s := ReverseSegment(r, i, k);
    forall j | 0 <= j < |s| ensures s[j] < n {
      if j < i { assert s[j] == s[..i][j]; }
      else if j >= i + k { assert s[j] == s[i + k..][j - i - k]; }
    }
  }

  /** No reversal in the range 2-opt scans gives a strictly shorter closed route. */
  predicate TwoOptOptimal(m: Matrix, r: seq<nat>)
    requires IsSquare(m) && InRange(r, |m|)
  {
    forall i, k :: 1 <= i < |r| && 1 <= k < |r| - i ==>
      InRange(ReverseSegment(r, i, k), |m|) &&
      RouteDistance(m, ReverseSegment(r, i, k), true) >= RouteDistance(m, r, true)
  }

  /** Every reversal (i', k') scanned before (i, k) is no shorter than d. */
  ghost predicate NoBetterBefore(m: Matrix, r: seq<nat>, d: real, i: nat, k: nat)
    requires IsSquare(m) && InRange(r, |m|)
  {
    forall i', k' :: 1 <= i' < |r| && 1 <= k' < |r| - i' && (i' < i || (i' == i && k' < k)) ==>
      InRange(ReverseSegment(r, i', k'), |m|) &&
      RouteDistance(m, ReverseSegment(r, i', k'), true) >= d
  }

  /** Reversal (wi, wk) of r is in the range 2-opt scans and strictly shorter than r. */
  ghost predicate ShorterReversal(m: Matrix, r: seq<nat>, wi: nat, wk: nat)
    requires IsSquare(m) && InRange(r, |m|)
  {
    1 <= wi < |r| && 1 <= wk < |r| - wi &&
    InRange(ReverseSegment(r, wi, wk), |m|) &&
    RouteDistance(m, ReverseSegment(r, wi, wk), true) < RouteDistance(m, r, true)
  }

  /**
   * The state of a pass before reversal (i, k): r is a permutation of the
   * pass's input with the same ends and closed length d; if nothing was
   * adopted yet, `improve` is untouched and no earlier reversal was shorter;
   * otherwise `improve` is 0, r is strictly shorter than the input, and the
   * first adopted reversal (wi, wk) witnesses that the input was not 2-opt optimal.
   */
  ghost predicate PassState(m: Matrix, route: seq<nat>, improve: nat, r: seq<nat>, improveAfter: nat, d: real, i: nat, k: nat, wi: nat, wk: nat)
    requires IsSquare(m) && InRange(route, |m|)
  {
    |r| == |route| && multiset(r) == multiset(route) && InRange(r, |m|) &&
    (|r| > 0 ==> r[0] == route[0] && r[|r| - 1] == route[|route| - 1]) &&
    d == RouteDistance(m, r, true) &&
    (r == route ==> improveAfter == improve && NoBetterBefore(m, r, d, i, k)) &&
    (r != route ==> improveAfter == 0 && d < RouteDistance(m, route, true) && ShorterReversal(m, route, wi, wk))
  }

  /**
   * Adopting the strictly shorter reversal (i, k) keeps the quantifier-free
   * part of the pass state; the first adoption becomes the witness.
   */
  lemma PassAdopt(m: Matrix, route: seq<nat>, r: seq<nat>, d: real, i: nat, k: nat, wi: nat, wk: nat)
    requires IsSquare(m) && InRange(route, |m|)
    requires PassFacts(m, route, r, d, wi, wk)
    requires 1 <= i && 1 <= k < |r| - i
    requires InRange(ReverseSegment(r, i, k), |m|) && RouteDistance(m, ReverseSegment(r, i, k), true) < d
    ensures RouteDistance(m, ReverseSegment(r, i, k), true) < RouteDistance(m, route, true)
    ensures PassFacts(m, route, ReverseSegment(r, i, k), RouteDistance(m, ReverseSegment(r, i, k), true),
                      if r == route then i else wi, if r == route then k else wk)
  {
    var s := ReverseSegment(r, i, k);
    assert s[0] == s[..i][0];
    assert s[|s| - 1] == s[i + k..][|s| - 1 - i - k];
  }

  /** The quantifier-free part of the pass state. */
  ghost predicate PassFacts(m: Matrix, route: seq<nat>, r: seq<nat>, d: real, wi: nat, wk: nat)
    requires IsSquare(m) && InRange(route, |m|)
  {
    |r| == |route| && multiset(r) == multiset(route) && InRange(r, |m|) &&
    (|r| > 0 ==> r[0] == route[0] && r[|r| - 1] == route[|route| - 1]) &&
    d == RouteDistance(m, r, true) && d <= RouteDistance(m, route, true) &&
    (r != route ==> ShorterReversal(m, route, wi, wk))
  }

  lemma PassStateFacts(m: Matrix, route: seq<nat>, improve: nat, r: seq<nat>, improveAfter: nat, d: real, i: nat, k: nat, wi: nat, wk: nat)
    requires IsSquare(m) && InRange(route, |m|)
    requires PassState(m, route, improve, r, improveAfter, d, i, k, wi, wk)
    ensures PassFacts(m, route, r, d, wi, wk)
  {
  }

  /** A route strictly shorter than the pass's input, with the facts of the pass state, is in the state after an adoption. */
  lemma AdoptedState(m: Matrix, route: seq<nat>, improve: nat, s: seq<nat>, d: real, i: nat, k: nat, wi: nat, wk: nat)
    requires IsSquare(m) && InRange(route, |m|)
    requires PassFacts(m, route, s, d, wi, wk) && d < RouteDistance(m, route, true)
    ensures PassState(m, route, improve, s, 0, d, i, k, wi, wk)
  {
    assert s != route;
  }

  /** Finding reversal (i, k) no shorter keeps the pass state, now before (i, k + 1). */
  lemma PassKeep(m: Matrix, route: seq<nat>, improve: nat, r: seq<nat>, improveAfter: nat, d: real, i: nat, k: nat, wi: nat, wk: nat)
    requires IsSquare(m) && InRange(route, |m|)
    requires PassState(m, route, improve, r, improveAfter, d, i, k, wi, wk)
    requires 1 <= i && 1 <= k < |r| - i
    requires InRange(ReverseSegment(r, i, k), |m|) && RouteDistance(m, ReverseSegment(r, i, k), true) >= d
    ensures PassState(m, route, improve, r, improveAfter, d, i, k + 1, wi, wk)
  {
    if r == route {
      forall i', k' | 1 <= i' < |r| && 1 <= k' < |r| - i' && (i' < i || (i' == i && k' < k + 1))
        ensures InRange(ReverseSegment(r, i', k'), |m|) && RouteDistance(m, ReverseSegment(r, i', k'), true) >= d
      {
        if i' == i && k' == k {
        } else {
          assert i' < i || (i' == i && k' < k);
        }
      }
    }
  }

  /** A finished row i moves the pass state to the start of row i + 1. */
  lemma PassNextRow(m: Matrix, route: seq<nat>, improve: nat, r: seq<nat>, improveAfter: nat, d: real, i: nat, k: nat, wi: nat, wk: nat)
    requires IsSquare(m) && InRange(route, |m|)
    requires PassState(m, route, improve, r, improveAfter, d, i, k, wi, wk)
    requires 1 <= k && |r| - i <= k
    ensures PassState(m, route, improve, r, improveAfter, d, i + 1, 1, wi, wk)
  {
    if r == route {
      forall i', k' | 1 <= i' < |r| && 1 <= k' < |r| - i' && (i' < i + 1 || (i' == i + 1 && k' < 1))
        ensures InRange(ReverseSegment(r, i', k'), |m|) && RouteDistance(m, ReverseSegment(r, i', k'), true) >= d
      {
        assert i' < i || (i' == i && k' < k);
      }
    }
  }

  /**
   * One pass of TwoOptAlgorithm's while loop (PathFinding.php, lines 70-93):
   * every (i, k) with 1 <= i and i + k <= |route| - 1 in order, adopting a
   * reversal as soon as it is strictly shorter than the best so far and then
   * resetting `improve` to 0.
   */
  method TwoOptPass(route: seq<nat>, m: Matrix, improve: nat) returns (r: seq<nat>, improveAfter: nat)
    requires IsSquare(m) && InRange(route, |m|)
    ensures |r| == |route| && multiset(r) == multiset(route) && InRange(r, |m|)
    ensures |r| > 0 ==> r[0] == route[0] && r[|r| - 1] == route[|route| - 1]
    ensures r == route ==> improveAfter == improve && TwoOptOptimal(m, route)
    ensures r != route ==> improveAfter == 0 && RouteDistance(m, r, true) < RouteDistance(m, route, true)
    ensures TwoOptOptimal(m, route) ==> r == route
  {
    r := route;
    improveAfter := improve;
    var locationCount := |route|;
    var shortestDistance := CalculateRouteDistance(r, m, true);
    ghost var wi: nat, wk: nat := 0, 0;
    var i := 1;
    while i < locationCount
      invariant 1 <= i && (locationCount == 0 || i <= locationCount) && locationCount == |route|
      invariant PassState(m, route, improve, r, improveAfter, shortestDistance, i, 1, wi, wk)
    {
      r, improveAfter, shortestDistance, wi, wk := TwoOptRow(route, m, improve, r, improveAfter, shortestDistance, i, wi, wk);
      i := i + 1;
    }
    PassDone(m, route, improve, r, improveAfter, shortestDistance, i, wi, wk);
  }

  /** The inner for loop of one pass: reversals (i, k) for k = 1 .. |route| - i - 1 in order. */
  method TwoOptRow(route: seq<nat>, m: Matrix, improve: nat, r0: seq<nat>, improveAfter0: nat, d0: real, i: nat,
                   ghost wi0: nat, ghost wk0: nat)
    returns (r: seq<nat>, improveAfter: nat, shortestDistance: real, ghost wi: nat, ghost wk: nat)
    requires IsSquare(m) && InRange(route, |m|) && 1 <= i < |route|
    requires PassState(m, route, improve, r0, improveAfter0, d0, i, 1, wi0, wk0)
    ensures PassState(m, route, improve, r, improveAfter, shortestDistance, i + 1, 1, wi, wk)
  {
    r, improveAfter, shortestDistance, wi, wk := r0, improveAfter0, d0, wi0, wk0;
    var locationCount := |route|;
    var k := 1;
    while k < locationCount - i
      invariant 1 <= k && (k <= locationCount - i || locationCount - i <= 1)
      invariant PassState(m, route, improve, r, improveAfter, shortestDistance, i, k, wi, wk)
    {
      PassStateFacts(m, route, improve, r, improveAfter, shortestDistance, i, k, wi, wk);
      var newRoute := ReverseSegment(r, i, k);
      ReverseSegmentInRange(r, i, k, |m|);
      var newDistance := CalculateRouteDistance(newRoute, m, true);
      if newDistance < shortestDistance {
        PassAdopt(m, route, r, shortestDistance, i, k, wi, wk);
        wi, wk := if r == route then i else wi, if r == route then k else wk;
        AdoptedState(m, route, improve, newRoute, newDistance, i, k + 1, wi, wk);
        shortestDistance := newDistance;
        r := newRoute;
        improveAfter := 0;
      } else {
        PassKeep(m, route, improve, r, improveAfter, shortestDistance, i, k, wi, wk);
      }
      k := k + 1;
    }
    PassNextRow(m, route, improve, r, improveAfter, shortestDistance, i, k, wi, wk);
  }

  /** The pass state after the last row gives the pass's postcondition. */
  lemma PassDone(m: Matrix, route: seq<nat>, improve: nat, r: seq<nat>, improveAfter: nat, d: real, i: nat, wi: nat, wk: nat)
    requires IsSquare(m) && InRange(route, |m|)
    requires PassState(m, route, improve, r, improveAfter, d, i, 1, wi, wk) && |route| <= i
    ensures r == route ==> improveAfter == improve && TwoOptOptimal(m, route)
    ensures r != route ==> improveAfter == 0 && RouteDistance(m, r, true) < RouteDistance(m, route, true)
    ensures TwoOptOptimal(m, route) ==> r == route
  {
    if r != route {
      assert ShorterReversal(m, route, wi, wk);
    }
  }

  /**
   * TwoOptAlgorithm: repeat passes until three consecutive passes adopted
   * nothing. Each adoption makes the closed route strictly shorter, and there
   * are finitely many routes of the same length, so the loop terminates.
   */
  method TwoOpt(route: seq<nat>, m: Matrix) returns (r: seq<nat>)
    requires IsSquare(m) && InRange(route, |m|)
    ensures ImprovedBy2Opt(m, route, r)
  {
    r := route;
    var improve := 0;
    while improve < 3
      invariant 0 <= improve <= 3
      invariant TwoOptState(m, route, r, improve)
      decreases |Shorter(m, |route|, RouteDistance(m, r, true))|, 3 - improve
    {
      var next, improveAfter := TwoOptPass(r, m, improve);
      TwoOptStep(m, route, r, improve, next, improveAfter);
      if next != r {
        ShorterShrinks(m, r, next);
      }
      r := next;
      improve := improveAfter + 1;
    }
  }

  /**
   * What TwoOptAlgorithm makes of `route`: a permutation with the same first
   * and last keys, no longer, with no shorter reversal in the scanned range;
   * a route that is already 2-opt optimal comes back unchanged.
   */
  ghost predicate ImprovedBy2Opt(m: Matrix, route: seq<nat>, r: seq<nat>)
    requires IsSquare(m) && InRange(route, |m|)
  {
    |r| == |route| && multiset(r) == multiset(route) && InRange(r, |m|) &&
    (|r| > 0 ==> r[0] == route[0] && r[|r| - 1] == route[|route| - 1]) &&
    RouteDistance(m, r, true) <= RouteDistance(m, route, true) &&
    TwoOptOptimal(m, r) &&
    (TwoOptOptimal(m, route) ==> r == route)
  }

  /**
   * The state of TwoOptAlgorithm's outer loop: r is a permutation of the
   * input with the same ends and no longer; after two passes without an
   * adoption it is 2-opt optimal; an optimal input is never changed.
   */
  ghost predicate TwoOptState(m: Matrix, route: seq<nat>, r: seq<nat>, improve: nat)
    requires IsSquare(m) && InRange(route, |m|)
  {
    |r| == |route| && multiset(r) == multiset(route) && InRange(r, |m|) &&
    (|r| > 0 ==> r[0] == route[0] && r[|r| - 1] == route[|route| - 1]) &&
    RouteDistance(m, r, true) <= RouteDistance(m, route, true) &&
    (improve >= 2 ==> TwoOptOptimal(m, r)) &&
    (TwoOptOptimal(m, route) ==> r == route)
  }

  /** One pass keeps the outer loop's state. */
  lemma TwoOptStep(m: Matrix, route: seq<nat>, r: seq<nat>, improve: nat, next: seq<nat>, improveAfter: nat)
    requires IsSquare(m) && InRange(route, |m|)
    requires TwoOptState(m, route, r, improve)
    requires |next| == |r| && multiset(next) == multiset(r) && InRange(next, |m|)
    requires |next| > 0 ==> next[0] == r[0] && next[|next| - 1] == r[|r| - 1]
    requires next == r ==> improveAfter == improve && TwoOptOptimal(m, r)
    requires next != r ==> improveAfter == 0 && RouteDistance(m, next, true) < RouteDistance(m, r, true)
    requires TwoOptOptimal(m, r) ==> next == r
    ensures TwoOptState(m, route, next, improveAfter + 1)
  {
    if TwoOptOptimal(m, route) {
      assert r == route;
    }
  }

  // ---------------------------------------------------------------------------
  // Distance reducer
  // ---------------------------------------------------------------------------

  /** Key c, substituted for the middle of the sub-route a, _, b, is not on the route and makes the sub-route shorter. */
  predicate Shortens(m: Matrix, route: seq<nat>, a: nat, b: nat, subRouteDistance: real, c: nat)
    requires IsSquare(m) && a < |m| && b < |m| && c < |m|
  {
    c !in route && RouteDistance(m, [a, c, b], false) < subRouteDistance
  }

  /**
   * Key c may replace the key at interior position p: it is not on the route,
   * has a positive population and shortens the 3-key sub-route around p.
   */
  predicate Eligible(m: Matrix, pop: seq<nat>, route: seq<nat>, p: nat, c: nat)
    requires IsSquare(m) && InRange(route, |m|) && |pop| == |m| && 1 <= p <= |route| - 2
  {
    c < |m| && pop[c] > 0 && Shortens(m, route, route[p - 1], route[p + 1], SubRouteDistance(m, route, p), c)
  }

  /** No key is eligible at position p. */
  ghost predicate NoEligibleAt(m: Matrix, pop: seq<nat>, route: seq<nat>, p: nat)
    requires IsSquare(m) && InRange(route, |m|) && |pop| == |m| && 1 <= p <= |route| - 2
  {
    forall c: nat :: c < |m| ==> !Eligible(m, pop, route, p, c)
  }

  /** No position the reducer scans (1 .. |route| - 3) has an eligible key. */
  ghost predicate NoSwap(m: Matrix, pop: seq<nat>, route: seq<nat>)
    requires IsSquare(m) && InRange(route, |m|) && |pop| == |m|
  {
    forall p :: 1 <= p <= |route| - 3 ==> NoEligibleAt(m, pop, route, p)
  }

  /** The scan state for one position: $chosenNewCity, $highestSubRoutePopulation, $distanceSavedWithNewRoute. */
  datatype Candidate = Candidate(chosen: Option<nat>, highest: nat, saved: real)

  /** One candidate key of the scan for one position. */
  function SubstituteStep(m: Matrix, pop: seq<nat>, route: seq<nat>, a: nat, b: nat,
                          subRouteDistance: real, st: Candidate, c: nat): Candidate
    requires IsSquare(m) && |pop| == |m| && a < |m| && b < |m| && c < |m|
  {
    if c in route then st
    else
      var newSubRouteDistance := RouteDistance(m, [a, c, b], false);
      if newSubRouteDistance < subRouteDistance && pop[c] >= st.highest
      then Candidate(Some(c), pop[c], subRouteDistance - newSubRouteDistance)
      else st
  }

  /**
   * The scan state after the candidate keys 0 .. n - 1 for one position.
   * The chosen key is the LAST shortening key of highest population (the test
   * is `>=`), and the saving is the one it gives; with no shortening key the
   * saving carried in is kept.
   */
  function ScanSubstitutes(m: Matrix, pop: seq<nat>, route: seq<nat>, a: nat, b: nat,
                           subRouteDistance: real, saved0: real, n: nat): Candidate
    requires IsSquare(m) && |pop| == |m| && a < |m| && b < |m| && n <= |m|
  {
    if n == 0 then Candidate(None, 0, saved0)
    else SubstituteStep(m, pop, route, a, b, subRouteDistance,
                        ScanSubstitutes(m, pop, route, a, b, subRouteDistance, saved0, n - 1), n - 1)
  }

  /**
   * The candidate scan over keys 0 .. n - 1 chooses nothing exactly when no
   * key shortens the sub-route, and then keeps the saving carried in.
   * Otherwise it chooses a shortening key of highest population among the
   * shortening keys, the LAST such key, and records the saving it gives.
   */
  lemma {:induction false} ScanSubstitutesChoice(m: Matrix, pop: seq<nat>, route: seq<nat>, a: nat, b: nat,
                                                 subRouteDistance: real, saved0: real, n: nat)
    requires IsSquare(m) && |pop| == |m| && a < |m| && b < |m| && n <= |m|
    ensures var st := ScanSubstitutes(m, pop, route, a, b, subRouteDistance, saved0, n);
      (st.chosen.None? <==> forall c :: 0 <= c < n ==> !Shortens(m, route, a, b, subRouteDistance, c)) &&
      (st.chosen.None? ==> st.highest == 0 && st.saved == saved0) &&
      (st.chosen.Some? ==>
        st.chosen.value < n && Shortens(m, route, a, b, subRouteDistance, st.chosen.value) &&
        pop[st.chosen.value] == st.highest &&
        st.saved == subRouteDistance - RouteDistance(m, [a, st.chosen.value, b], false)) &&
      (forall c :: 0 <= c < n && Shortens(m, route, a, b, subRouteDistance, c) ==> pop[c] <= st.highest) &&
      (st.chosen.Some? ==> forall c :: st.chosen.value < c < n && Shortens(m, route, a, b, subRouteDistance, c) ==>
        pop[c] < st.highest)
  {
    if n > 0 {
      ScanSubstitutesChoice(m, pop, route, a, b, subRouteDistance, saved0, n - 1);
      var prev := ScanSubstitutes(m, pop, route, a, b, subRouteDistance, saved0, n - 1);
      var st := ScanSubstitutes(m, pop, route, a, b, subRouteDistance, saved0, n);
      assert st == SubstituteStep(m, pop, route, a, b, subRouteDistance, prev, n - 1);
      assert st.chosen.None? ==> prev.chosen.None? && !Shortens(m, route, a, b, subRouteDistance, n - 1);
      assert st.chosen.Some? ==> st.chosen.value < n && Shortens(m, route, a, b, subRouteDistance, st.chosen.value);
    }
  }

  /**
   * At one position, the scan proposes a swap exactly when some key is
   * eligible there, and then the chosen key is eligible and of highest
   * population among the eligible keys.
   */
  lemma PositionProposal(m: Matrix, pop: seq<nat>, route: seq<nat>, p: nat, saved0: real)
    requires IsSquare(m) && InRange(route, |m|) && |pop| == |m| && 1 <= p <= |route| - 2
    ensures var st := ScanSubstitutes(m, pop, route, route[p - 1], route[p + 1], SubRouteDistance(m, route, p), saved0, |m|);
      ((st.highest > 0 && st.saved > 0.0) <==> !NoEligibleAt(m, pop, route, p)) &&
      (st.highest > 0 ==>
        st.chosen.Some? && Eligible(m, pop, route, p, st.chosen.value) &&
        st.saved == SubRouteDistance(m, route, p) - RouteDistance(m, [route[p - 1], st.chosen.value, route[p + 1]], false) &&
        forall c: nat :: c < |m| && Eligible(m, pop, route, p, c) ==> pop[c] <= pop[st.chosen.value])
  {
    var sub := SubRouteDistance(m, route, p);
    var st := ScanSubstitutes(m, pop, route, route[p - 1], route[p + 1], sub, saved0, |m|);
    ScanSubstitutesChoice(m, pop, route, route[p - 1], route[p + 1], sub, saved0, |m|);
    if !NoEligibleAt(m, pop, route, p) {
      var c: nat :| c < |m| && Eligible(m, pop, route, p, c);
      assert Shortens(m, route, route[p - 1], route[p + 1], sub, c);
      assert st.highest >= pop[c] > 0;
    }
    if st.highest > 0 {
      assert st.chosen.Some?;
      assert Eligible(m, pop, route, p, st.chosen.value);
    }
  }

  /** A proposed swap: $proposedSwap = [$cityToSwap, $chosenNewCity, $distanceSavedWithNewRoute]. */
  datatype Swap = Swap(pos: nat, city: nat, saved: real)

  /** The state after scanning some positions: the proposal and the last saving assigned. */
  datatype Pass = Pass(proposal: Option<Swap>, saved: real)

  /** One past the last position the reducer scans (positions 1 .. |route| - 3). */
  function PositionBound(route: seq<nat>): nat
  {
    if |route| >= 3 then |route| - 2 else 1
  }

  /**
   * The scan over positions 1 .. q - 1. $highestPopulationChange stays 0, so
   * every position with a proposal overwrites the one before.
   */
  function ScanPositions(m: Matrix, pop: seq<nat>, route: seq<nat>, saved0: real, q: nat): Pass
    requires IsSquare(m) && InRange(route, |m|) && |pop| == |m|
    requires 1 <= q && (q == 1 || q <= |route| - 2)
  {
    if q == 1 then Pass(None, saved0)
    else
      var prev := ScanPositions(m, pop, route, saved0, q - 1);
      var p := q - 1;
      var st := ScanSubstitutes(m, pop, route, route[p - 1], route[p + 1], SubRouteDistance(m, route, p), prev.saved, |m|);
      ScanSubstitutesChoice(m, pop, route, route[p - 1], route[p + 1], SubRouteDistance(m, route, p), prev.saved, |m|);
      if st.highest > 0 && st.saved > 0.0
      then Pass(Some(Swap(p, st.chosen.value, st.saved)), st.saved)
      else Pass(prev.proposal, st.saved)
  }

  /** The scan over one more position, given the candidate scan st at position q. */
  lemma ScanPositionsNext(m: Matrix, pop: seq<nat>, route: seq<nat>, saved0: real, q: nat, st: Candidate)
    requires IsSquare(m) && InRange(route, |m|) && |pop| == |m|
    requires 1 <= q <= |route| - 3
    requires st == ScanSubstitutes(m, pop, route, route[q - 1], route[q + 1], SubRouteDistance(m, route, q),
                                   ScanPositions(m, pop, route, saved0, q).saved, |m|)
    ensures st.highest > 0 ==> st.chosen.Some?
    ensures ScanPositions(m, pop, route, saved0, q + 1) ==
      if st.highest > 0 && st.saved > 0.0 then Pass(Some(Swap(q, st.chosen.value, st.saved)), st.saved)
      else Pass(ScanPositions(m, pop, route, saved0, q).proposal, st.saved)
  {
    ScanSubstitutesChoice(m, pop, route, route[q - 1], route[q + 1], SubRouteDistance(m, route, q),
                          ScanPositions(m, pop, route, saved0, q).saved, |m|);
  }

  /**
   * What the scan over positions 1 .. q - 1 may propose: nothing exactly when
   * no position has an eligible key; otherwise the LAST position with an
   * eligible key, a key of highest population there, and the saving that key
   * gives.
   */
  ghost predicate ProposalMeets(m: Matrix, pop: seq<nat>, route: seq<nat>, proposal: Option<Swap>, q: nat)
    requires IsSquare(m) && InRange(route, |m|) && |pop| == |m| && 1 <= q && (q == 1 || q <= |route| - 2)
  {
    (proposal.None? <==> forall p :: 1 <= p < q ==> NoEligibleAt(m, pop, route, p)) &&
    (proposal.Some? ==>
      var s := proposal.value;
      1 <= s.pos < q && Eligible(m, pop, route, s.pos, s.city) && 0.0 < s.saved &&
      s.saved == SubRouteDistance(m, route, s.pos) - RouteDistance(m, [route[s.pos - 1], s.city, route[s.pos + 1]], false) &&
      (forall c: nat :: c < |m| && Eligible(m, pop, route, s.pos, c) ==> pop[c] <= pop[s.city]) &&
      (forall p :: s.pos < p < q ==> NoEligibleAt(m, pop, route, p)))
  }

  /** A swap proposed at position q - 1 meets the scan's promise for 1 .. q - 1. */
  lemma ProposalAdopted(m: Matrix, pop: seq<nat>, route: seq<nat>, sw: Swap, q: nat)
    requires IsSquare(m) && InRange(route, |m|) && |pop| == |m| && 2 <= q <= |route| - 2 && sw.pos == q - 1
    requires Eligible(m, pop, route, sw.pos, sw.city) && 0.0 < sw.saved
    requires sw.saved == SubRouteDistance(m, route, sw.pos) - RouteDistance(m, [route[sw.pos - 1], sw.city, route[sw.pos + 1]], false)
    requires forall c: nat :: c < |m| && Eligible(m, pop, route, sw.pos, c) ==> pop[c] <= pop[sw.city]
    ensures ProposalMeets(m, pop, route, Some(sw), q)
  {
    assert !NoEligibleAt(m, pop, route, sw.pos);
  }

  /** A position without eligible keys leaves the earlier proposal, and its promise, in place. */
  lemma ProposalKept(m: Matrix, pop: seq<nat>, route: seq<nat>, proposal: Option<Swap>, q: nat)
    requires IsSquare(m) && InRange(route, |m|) && |pop| == |m| && 2 <= q <= |route| - 2
    requires ProposalMeets(m, pop, route, proposal, q - 1) && NoEligibleAt(m, pop, route, q - 1)
    ensures ProposalMeets(m, pop, route, proposal, q)
  {
  }

  /** The scan over positions 1 .. q - 1 keeps the promise of ProposalMeets. */
  lemma {:induction false} ScanPositionsProposal(m: Matrix, pop: seq<nat>, route: seq<nat>, saved0: real, q: nat)
    requires IsSquare(m) && InRange(route, |m|) && |pop| == |m|
    requires 1 <= q && (q == 1 || q <= |route| - 2)
    ensures ProposalMeets(m, pop, route, ScanPositions(m, pop, route, saved0, q).proposal, q)
  {
    if q > 1 {
      var p := q - 1;
      ScanPositionsProposal(m, pop, route, saved0, p);
      var prev := ScanPositions(m, pop, route, saved0, p);
      PositionProposal(m, pop, route, p, prev.saved);
      var st := ScanSubstitutes(m, pop, route, route[p - 1], route[p + 1], SubRouteDistance(m, route, p), prev.saved, |m|);
      ScanPositionsNext(m, pop, route, saved0, p, st);
      if st.highest > 0 && st.saved > 0.0 {
        ProposalAdopted(m, pop, route, Swap(p, st.chosen.value, st.saved), q);
      } else {
        ProposalKept(m, pop, route, prev.proposal, q);
      }
    }
  }

  /** When the position scan proposes a swap, the last saving it assigned is positive. */
  lemma {:induction false} ScanPositionsSaving(m: Matrix, pop: seq<nat>, route: seq<nat>, saved0: real, q: nat)
    requires IsSquare(m) && InRange(route, |m|) && |pop| == |m|
    requires 1 <= q && (q == 1 || q <= |route| - 2)
    ensures ScanPositions(m, pop, route, saved0, q).proposal.Some? ==> ScanPositions(m, pop, route, saved0, q).saved > 0.0
  {
    if q > 1 {
      var p := q - 1;
      ScanPositionsSaving(m, pop, route, saved0, p);
      var prev := ScanPositions(m, pop, route, saved0, p);
      var st := ScanSubstitutes(m, pop, route, route[p - 1], route[p + 1], SubRouteDistance(m, route, p), prev.saved, |m|);
      ScanSubstitutesChoice(m, pop, route, route[p - 1], route[p + 1], SubRouteDistance(m, route, p), prev.saved, |m|);
      ScanPositionsNext(m, pop, route, saved0, p, st);
    }
  }

  /** The foreach over candidate keys for one position (PathFinding.php, lines 131-145). */
  method BestSubstitute(route: seq<nat>, m: Matrix, pop: seq<nat>, subRoute: seq<nat>,
                        subRouteDistance: real, saved0: real)
    returns (chosenNewCity: Option<nat>, highestSubRoutePopulation: nat, distanceSavedWithNewRoute: real)
    requires IsSquare(m) && |pop| == |m| && |subRoute| == 3 && InRange(subRoute, |m|)
    ensures Candidate(chosenNewCity, highestSubRoutePopulation, distanceSavedWithNewRoute)
      == ScanSubstitutes(m, pop, route, subRoute[0], subRoute[2], subRouteDistance, saved0, |m|)
  {
    chosenNewCity := None;
    highestSubRoutePopulation := 0;
    distanceSavedWithNewRoute := saved0;
    var newCity := 0;
    while newCity < |m|
      invariant newCity <= |m|
      invariant Candidate(chosenNewCity, highestSubRoutePopulation, distanceSavedWithNewRoute)
        == ScanSubstitutes(m, pop, route, subRoute[0], subRoute[2], subRouteDistance, saved0, newCity)
    {
      ghost var prev := Candidate(chosenNewCity, highestSubRoutePopulation, distanceSavedWithNewRoute);
      ScanSubstitutesNext(m, pop, route, subRoute[0], subRoute[2], subRouteDistance, saved0, newCity);
      if newCity !in route {
        var newSubRouteDistance := CalculateRouteDistance([subRoute[0], newCity, subRoute[2]], m, false);
        if newSubRouteDistance < subRouteDistance && pop[newCity] >= highestSubRoutePopulation {
          chosenNewCity := Some(newCity);
          highestSubRoutePopulation := pop[newCity];
          distanceSavedWithNewRoute := subRouteDistance - newSubRouteDistance;
        }
      }
      assert Candidate(chosenNewCity, highestSubRoutePopulation, distanceSavedWithNewRoute)
        == SubstituteStep(m, pop, route, subRoute[0], subRoute[2], subRouteDistance, prev, newCity);
      newCity := newCity + 1;
    }
  }

  /** The candidate scan over one more key. */
  lemma ScanSubstitutesNext(m: Matrix, pop: seq<nat>, route: seq<nat>, a: nat, b: nat,
                            subRouteDistance: real, saved0: real, n: nat)
    requires IsSquare(m) && |pop| == |m| && a < |m| && b < |m| && n < |m|
    ensures ScanSubstitutes(m, pop, route, a, b, subRouteDistance, saved0, n + 1)
      == SubstituteStep(m, pop, route, a, b, subRouteDistance, ScanSubstitutes(m, pop, route, a, b, subRouteDistance, saved0, n), n)
  {
  }

  /** The for loop over positions (PathFinding.php, lines 119-151). */
  method ProposeSwap(route: seq<nat>, m: Matrix, pop: seq<nat>, saved0: real)
    returns (proposedSwap: Option<Swap>, distanceSavedWithNewRoute: real)
    requires IsSquare(m) && InRange(route, |m|) && |pop| == |m|
    ensures Pass(proposedSwap, distanceSavedWithNewRoute) == ScanPositions(m, pop, route, saved0, PositionBound(route))
  {
    proposedSwap := None;
    distanceSavedWithNewRoute := saved0;
    var highestPopulationChange := 0;
    var cityToSwap := 1;
    while cityToSwap < |route| - 2
      invariant 1 <= cityToSwap && (cityToSwap == 1 || cityToSwap <= |route| - 2)
      invariant Pass(proposedSwap, distanceSavedWithNewRoute) == ScanPositions(m, pop, route, saved0, cityToSwap)
    {
      var subRoute := route[cityToSwap - 1..cityToSwap + 2];
      var subRouteDistance := CalculateRouteDistance(subRoute, m, false);
      assert subRoute[0] == route[cityToSwap - 1] && subRoute[2] == route[cityToSwap + 1];
      var chosenNewCity, highestSubRoutePopulation;
      ghost var st := ScanSubstitutes(m, pop, route, route[cityToSwap - 1], route[cityToSwap + 1],
                                      SubRouteDistance(m, route, cityToSwap), distanceSavedWithNewRoute, |m|);
      chosenNewCity, highestSubRoutePopulation, distanceSavedWithNewRoute :=
        BestSubstitute(route, m, pop, subRoute, subRouteDistance, distanceSavedWithNewRoute);
      assert Candidate(chosenNewCity, highestSubRoutePopulation, distanceSavedWithNewRoute) == st;
      ScanPositionsNext(m, pop, route, saved0, cityToSwap, st);
      if highestSubRoutePopulation > highestPopulationChange && distanceSavedWithNewRoute > 0.0 {
        proposedSwap := Some(Swap(cityToSwap, chosenNewCity.value, distanceSavedWithNewRoute));
      }
      cityToSwap := cityToSwap + 1;
    }
  }

  /** With no proposal, no scanned position has an eligible substitute, and conversely. */
  lemma NoProposalIsNoSwap(m: Matrix, pop: seq<nat>, route: seq<nat>, saved0: real)
    requires IsSquare(m) && InRange(route, |m|) && |pop| == |m|
    ensures ScanPositions(m, pop, route, saved0, PositionBound(route)).proposal.None? <==> NoSwap(m, pop, route)
  {
    ScanPositionsProposal(m, pop, route, saved0, PositionBound(route));
  }

  /**
   * r is reachable from route by reducer swaps: same length and ends, every
   * changed key has a positive population, no repetition is introduced, and
   * the closed distance only went down.
   */
  predicate ReducedFrom(m: Matrix, pop: seq<nat>, route: seq<nat>, r: seq<nat>)
    requires IsSquare(m) && InRange(route, |m|) && |pop| == |m|
  {
    |r| == |route| && InRange(r, |m|) &&
    (forall j :: 0 <= j < |r| && !(1 <= j <= |r| - 3) ==> r[j] == route[j]) &&
    (forall j :: 0 <= j < |r| && r[j] != route[j] ==> pop[r[j]] > 0) &&
    (|route| > 0 && Distinct(route[..|route| - 1]) ==> Distinct(r[..|r| - 1])) &&
    RouteDistance(m, r, true) <= RouteDistance(m, route, true) &&
    (r != route ==> RouteDistance(m, r, true) < RouteDistance(m, route, true))
  }

  /** One adopted swap keeps ReducedFrom and strictly shortens the route. */
  lemma ReducerStep(m: Matrix, pop: seq<nat>, route: seq<nat>, r: seq<nat>, p: nat, c: nat)
    requires IsSquare(m) && InRange(route, |m|) && |pop| == |m|
    requires ReducedFrom(m, pop, route, r)
    requires 1 <= p <= |r| - 3 && Eligible(m, pop, r, p, c)
    ensures InRange(r[p := c], |m|)
    ensures RouteDistance(m, r[p := c], true) < RouteDistance(m, r, true)
    ensures ReducedFrom(m, pop, route, r[p := c])
  {
    var s := r[p := c];
    SubstitutionDelta(m, r, p, c);
    assert s[p - 1..p + 2] == [r[p - 1], c, r[p + 1]];
    if |route| > 0 && Distinct(route[..|route| - 1]) {
      forall a, b | 0 <= a < b < |s| - 1 ensures s[a] != s[b] {
        if a == p || b == p {
          assert c !in r;
        }
      }
    }
    forall j | 0 <= j < |s| && s[j] != route[j] ensures pop[s[j]] > 0 {
    }
  }

  /** The sum of a sequence of savings. */
  function Sum(s: seq<real>): real
  {
    if s == [] then 0.0 else Sum(s[..|s| - 1]) + s[|s| - 1]
  }

  /** Appending a saving adds it to the sum and leaves the earlier prefixes as they were. */
  lemma SumAppend(s: seq<real>, x: real)
    ensures Sum(s + [x]) == Sum(s) + x
    ensures forall j :: 0 <= j <= |s| ==> (s + [x])[..j] == s[..j]
  {
    assert (s + [x])[..|s|] == s;
  }

  /**
   * The reducer's loop state after |savings| swaps: r is reduced from route,
   * each swap lowered the tracked distance by a positive saving, there was a
   * swap exactly when the route changed, and the tracked distance exceeded the
   * budget before every swap.
   */
  ghost predicate ReducerProgress(m: Matrix, pop: seq<nat>, route: seq<nat>, budget: real, r: seq<nat>, savings: seq<real>)
    requires IsSquare(m) && InRange(route, |m|) && |pop| == |m|
  {
    ReducedFrom(m, pop, route, r) &&
    (forall j :: 0 <= j < |savings| ==> savings[j] > 0.0) &&
    (savings == [] <==> r == route) &&
    (forall j :: 0 <= j < |savings| ==> RouteDistance(m, route, true) - Sum(savings[..j]) > budget)
  }

  /**
   * The saving the scan of pass j starts from: $distanceSavedWithNewRoute
   * keeps its value across passes, so it is the saving of pass j - 1, and
   * 0.0 before the first pass.
   */
  function LastSaving(savings: seq<real>, j: nat): real
    requires j <= |savings|
  {
    if j == 0 then 0.0 else savings[j - 1]
  }

  /**
   * Pass j of the reducer: the position scan of passes[j], started from the
   * last saving, proposed a swap; adopting it gives passes[j + 1], and the
   * tracked distance went down by the last saving the scan assigned.
   */
  ghost predicate PassAt(m: Matrix, pop: seq<nat>, passes: seq<seq<nat>>, savings: seq<real>, j: nat)
    requires IsSquare(m) && |pop| == |m| && |passes| == |savings| + 1 && j < |savings|
  {
    InRange(passes[j], |m|) &&
    var scan := ScanPositions(m, pop, passes[j], LastSaving(savings, j), PositionBound(passes[j]));
    scan.proposal.Some? && scan.proposal.value.pos < |passes[j]| &&
    passes[j + 1] == passes[j][scan.proposal.value.pos := scan.proposal.value.city] &&
    savings[j] == scan.saved
  }

  /** The routes the reducer passes through, from route to r, each pass adopting its scan's proposal. */
  ghost predicate ReducerTrace(m: Matrix, pop: seq<nat>, route: seq<nat>, r: seq<nat>, savings: seq<real>,
                               passes: seq<seq<nat>>)
    requires IsSquare(m) && |pop| == |m|
  {
    |passes| == |savings| + 1 && passes[0] == route && passes[|savings|] == r &&
    forall j :: 0 <= j < |savings| ==> PassAt(m, pop, passes, savings, j)
  }

  /**
   * What DistanceReducer returns: the loop state at exit, reached pass by
   * pass, where the tracked distance, the closed distance of the input less
   * the savings, is within the budget or no scanned position has an eligible
   * substitute.
   */
  ghost predicate ReducerOutcome(m: Matrix, pop: seq<nat>, route: seq<nat>, budget: real, r: seq<nat>,
                                 savings: seq<real>, passes: seq<seq<nat>>)
    requires IsSquare(m) && InRange(route, |m|) && |pop| == |m|
  {
    ReducerProgress(m, pop, route, budget, r, savings) &&
    ReducerTrace(m, pop, route, r, savings, passes) &&
    (RouteDistance(m, route, true) - Sum(savings) <= budget || NoSwap(m, pop, r))
  }

  /** Adopting the proposal of the scan of r extends the trace by one pass. */
  lemma {:induction false} TraceExtend(m: Matrix, pop: seq<nat>, route: seq<nat>, r: seq<nat>, savings: seq<real>,
                    passes: seq<seq<nat>>, sw: Swap, saved: real)
    requires IsSquare(m) && |pop| == |m| && InRange(r, |m|)
    requires ReducerTrace(m, pop, route, r, savings, passes)
    requires ScanPositions(m, pop, r, LastSaving(savings, |savings|), PositionBound(r)) == Pass(Some(sw), saved)
    requires sw.pos < |r|
    ensures ReducerTrace(m, pop, route, r[sw.pos := sw.city], savings + [saved], passes + [r[sw.pos := sw.city]])
  {
    var savings', passes' := savings + [saved], passes + [r[sw.pos := sw.city]];
    forall j | 0 <= j < |savings| ensures PassAt(m, pop, passes', savings', j) {
      PassAtExtend(m, pop, passes, savings, j, r[sw.pos := sw.city], saved);
    }
    PassAtLast(m, pop, passes, savings, sw, saved);
  }

  /** The pass that adopts the proposal of the scan of the last route of the trace. */
  lemma {:induction false} PassAtLast(m: Matrix, pop: seq<nat>, passes: seq<seq<nat>>, savings: seq<real>, sw: Swap, saved: real)
    requires IsSquare(m) && |pop| == |m| && |passes| == |savings| + 1
    requires InRange(passes[|savings|], |m|) && sw.pos < |passes[|savings|]|
    requires ScanPositions(m, pop, passes[|savings|], LastSaving(savings, |savings|), PositionBound(passes[|savings|]))
      == Pass(Some(sw), saved)
    ensures PassAt(m, pop, passes + [passes[|savings|][sw.pos := sw.city]], savings + [saved], |savings|)
  {
    var k := |savings|;
    var passes', savings' := passes + [passes[k][sw.pos := sw.city]], savings + [saved];
    assert passes'[k] == passes[k] && savings'[k] == saved;
    assert LastSaving(savings', k) == LastSaving(savings, k);
  }

  /** A pass of the trace stays a pass when the trace grows. */
  lemma {:induction false} PassAtExtend(m: Matrix, pop: seq<nat>, passes: seq<seq<nat>>, savings: seq<real>, j: nat,
                     next: seq<nat>, saved: real)
    requires IsSquare(m) && |pop| == |m| && |passes| == |savings| + 1 && j < |savings|
    requires PassAt(m, pop, passes, savings, j)
    ensures PassAt(m, pop, passes + [next], savings + [saved], j)
  {
    var passes', savings' := passes + [next], savings + [saved];
    assert passes'[j] == passes[j] && passes'[j + 1] == passes[j + 1] && savings'[j] == savings[j];
    assert LastSaving(savings', j) == LastSaving(savings, j);
  }

  /** Two traces from the same route agree on their first n passes. */
  lemma {:induction false} TracePrefix(m: Matrix, pop: seq<nat>, route: seq<nat>,
                                       r1: seq<nat>, s1: seq<real>, t1: seq<seq<nat>>,
                                       r2: seq<nat>, s2: seq<real>, t2: seq<seq<nat>>, n: nat)
    requires IsSquare(m) && |pop| == |m|
    requires ReducerTrace(m, pop, route, r1, s1, t1) && ReducerTrace(m, pop, route, r2, s2, t2)
    requires n <= |s1| && n <= |s2|
    ensures t1[n] == t2[n] && s1[..n] == s2[..n]
  {
    if n > 0 {
      TracePrefix(m, pop, route, r1, s1, t1, r2, s2, t2, n - 1);
      var j := n - 1;
      assert PassAt(m, pop, t1, s1, j) && PassAt(m, pop, t2, s2, j);
      if j > 0 {
        assert s1[j - 1] == s1[..j][j - 1] == s2[..j][j - 1] == s2[j - 1];
      }
      assert LastSaving(s1, j) == LastSaving(s2, j);
      assert s1[..n] == s1[..j] + [s1[j]] && s2[..n] == s2[..j] + [s2[j]];
    }
  }

  /**
   * An outcome that stops after k passes while another goes on: the other's
   * pass k started over budget from the same route and found a proposal, so
   * the first stopped neither within budget nor without a swap.
   */
  lemma {:induction false} OutcomeNotShorter(m: Matrix, pop: seq<nat>, route: seq<nat>, budget: real,
                          r1: seq<nat>, s1: seq<real>, t1: seq<seq<nat>>,
                          r2: seq<nat>, s2: seq<real>, t2: seq<seq<nat>>)
    requires IsSquare(m) && InRange(route, |m|) && |pop| == |m|
    requires ReducerOutcome(m, pop, route, budget, r1, s1, t1)
    requires ReducerOutcome(m, pop, route, budget, r2, s2, t2)
    ensures |s1| >= |s2|
  {
    if |s1| < |s2| {
      var k := |s1|;
      TracePrefix(m, pop, route, r1, s1, t1, r2, s2, t2, k);
      assert s2[..k] == s1[..k] == s1;
      assert RouteDistance(m, route, true) - Sum(s2[..k]) > budget;
      assert PassAt(m, pop, t2, s2, k);
      NoProposalIsNoSwap(m, pop, r1, LastSaving(s2, k));
      assert false;
    }
  }

  /**
   * The reducer's outcome is determined by its inputs: every pass adopts its
   * scan's proposal and the stop is the first pass within budget or without
   * a proposal.
   */
  lemma {:induction false} ReducerOutcomeUnique(m: Matrix, pop: seq<nat>, route: seq<nat>, budget: real,
                             r1: seq<nat>, s1: seq<real>, t1: seq<seq<nat>>,
                             r2: seq<nat>, s2: seq<real>, t2: seq<seq<nat>>)
    requires IsSquare(m) && InRange(route, |m|) && |pop| == |m|
    requires ReducerOutcome(m, pop, route, budget, r1, s1, t1)
    requires ReducerOutcome(m, pop, route, budget, r2, s2, t2)
    ensures r1 == r2 && s1 == s2 && t1 == t2
  {
    OutcomeNotShorter(m, pop, route, budget, r1, s1, t1, r2, s2, t2);
    OutcomeNotShorter(m, pop, route, budget, r2, s2, t2, r1, s1, t1);
    var k := |s1|;
    forall n | 0 <= n <= k ensures t1[n] == t2[n] {
      TracePrefix(m, pop, route, r1, s1, t1, r2, s2, t2, n);
    }
    TracePrefix(m, pop, route, r1, s1, t1, r2, s2, t2, k);
    assert s1 == s1[..k] && s2 == s2[..k];
  }

  /** A swap adopted while over budget, with a positive saving, keeps the loop state. */
  lemma ReducerAdvance(m: Matrix, pop: seq<nat>, route: seq<nat>, budget: real, r: seq<nat>, savings: seq<real>,
                       p: nat, c: nat, saved: real)
    requires IsSquare(m) && InRange(route, |m|) && |pop| == |m|
    requires ReducerProgress(m, pop, route, budget, r, savings)
    requires RouteDistance(m, route, true) - Sum(savings) > budget
    requires 1 <= p <= |r| - 3 && Eligible(m, pop, r, p, c) && saved > 0.0
    ensures InRange(r[p := c], |m|) && RouteDistance(m, r[p := c], true) < RouteDistance(m, r, true)
    ensures ReducerProgress(m, pop, route, budget, r[p := c], savings + [saved])
  {
    ReducerStep(m, pop, route, r, p, c);
    SumAppend(savings, saved);
    var next := savings + [saved];
    forall j | 0 <= j < |next| ensures RouteDistance(m, route, true) - Sum(next[..j]) > budget {
      if j == |savings| {
        assert next[..j] == savings;
      }
    }
  }

  /** Within budget from the start, the reducer swaps nothing. */
  lemma WithinBudgetUnchanged(m: Matrix, pop: seq<nat>, route: seq<nat>, budget: real, r: seq<nat>, savings: seq<real>)
    requires IsSquare(m) && InRange(route, |m|) && |pop| == |m|
    requires ReducerProgress(m, pop, route, budget, r, savings)
    requires RouteDistance(m, route, true) <= budget
    ensures r == route && savings == []
  {
    assert savings[..0] == [];

  }

  /**
   * DistanceReducer: while the tracked distance exceeds allowedTime * speed,
   * replace one interior key by a higher-population key that shortens its
   * 3-key sub-route; stop when no swap is proposed. The tracked distance is
   * decremented by the last saving assigned during the scan, which need not be
   * the saving of the adopted swap; `savings` records those decrements and
   * `passes` the route before each pass and the route returned.
   */
  method DistanceReducer(route: seq<nat>, m: Matrix, pop: seq<nat>, allowedTime: int, speed: int)
    returns (r: seq<nat>, ghost savings: seq<real>, ghost passes: seq<seq<nat>>)
    requires IsSquare(m) && InRange(route, |m|) && |pop| == |m|
    ensures ReducerOutcome(m, pop, route, (allowedTime * speed) as real, r, savings, passes)
    ensures RouteDistance(m, route, true) <= (allowedTime * speed) as real ==> r == route
  {
    r := route;
    savings := [];
    passes := [route];
    var routeDistance := CalculateRouteDistance(r, m, true);
    var allowedDistance := (allowedTime * speed) as real;
    var distanceSavedWithNewRoute := 0.0;
    while routeDistance > allowedDistance
      invariant ReducerProgress(m, pop, route, allowedDistance, r, savings)
      invariant routeDistance == RouteDistance(m, route, true) - Sum(savings)
      invariant ReducerTrace(m, pop, route, r, savings, passes)
      invariant distanceSavedWithNewRoute == LastSaving(savings, |savings|)
      decreases |Shorter(m, |route|, RouteDistance(m, r, true))|
    {
      var proposedSwap;
      ghost var savedBefore := distanceSavedWithNewRoute;
      proposedSwap, distanceSavedWithNewRoute := ProposeSwap(r, m, pop, distanceSavedWithNewRoute);
      if proposedSwap.None? {
        NoProposalIsNoSwap(m, pop, r, savedBefore);
        break;
      }
      var p, c := proposedSwap.value.pos, proposedSwap.value.city;
      ScanPositionsProposal(m, pop, r, savedBefore, PositionBound(r));
      ScanPositionsSaving(m, pop, r, savedBefore, PositionBound(r));
      ReducerAdvance(m, pop, route, allowedDistance, r, savings, p, c, distanceSavedWithNewRoute);
      ShorterShrinks(m, r, r[p := c]);
      SumAppend(savings, distanceSavedWithNewRoute);
      TraceExtend(m, pop, route, r, savings, passes, proposedSwap.value, distanceSavedWithNewRoute);
      passes := passes + [r[p := c]];
      savings := savings + [distanceSavedWithNewRoute];
      r := r[p := c];
      routeDistance := routeDistance - distanceSavedWithNewRoute;
    }
    if RouteDistance(m, route, true) <= allowedDistance {
      WithinBudgetUnchanged(m, pop, route, allowedDistance, r, savings);
    }
  }
}
