/**
 * GeoRoute/Distance.php: the distance graph and route lengths.
 *
 * The great-circle formula is not modelled: a distance graph is an abstract
 * square matrix of reals indexed by location key, and the pairwise distance
 * used to build it is a function parameter.
 */
module Distance {
  import opened Sequences

  type Matrix = seq<seq<real>>

  /** Every row has one entry per location. */
  predicate IsSquare(m: Matrix)
  {
    forall i :: 0 <= i < |m| ==> |m[i]| == |m|
  }

  predicate IsSymmetric(m: Matrix)
    requires IsSquare(m)
  {
    forall i, j :: 0 <= i < |m| && 0 <= j < |m| ==> m[i][j] == m[j][i]
  }

  predicate NonNegative(m: Matrix)
    requires IsSquare(m)
  {
    forall i, j :: 0 <= i < |m| && 0 <= j < |m| ==> m[i][j] >= 0.0
  }

  /** Every key of the route is a key of a graph with n locations. */
  predicate InRange(r: seq<nat>, n: nat)
  {
    forall i :: 0 <= i < |r| ==> r[i] < n
  }

  /** Sum of m[r[i]][r[i + 1]] over the consecutive pairs of r, accumulated from the front. */
  function PathLength(m: Matrix, r: seq<nat>): (d: real)
    requires IsSquare(m) && InRange(r, |m|)
    ensures NonNegative(m) ==> d >= 0.0
  {
    if |r| < 2 then 0.0
    else PathLength(m, r[..|r| - 1]) + m[r[|r| - 2]][r[|r| - 1]]
  }

  /**
   * The value calculateRouteDistance computes: with `hamiltonian` set and a
   * first key different from the last, the closing edge back to the first key
   * is counted too.
   */
  function RouteDistance(m: Matrix, r: seq<nat>, hamiltonian: bool): real
    requires IsSquare(m) && InRange(r, |m|)
  {
    if hamiltonian && |r| > 0 && r[0] != r[|r| - 1] then PathLength(m, r + [r[0]])
    else PathLength(m, r)
  }

  /** calculateRouteDistance: append the closing key when asked, then sum the edges in a loop. */
  method CalculateRouteDistance(route: seq<nat>, m: Matrix, hamiltonian: bool) returns (distance: real)
    requires IsSquare(m) && InRange(route, |m|)
    ensures distance == RouteDistance(m, route, hamiltonian)
  {
    distance := 0.0;
    var r := route;
    if hamiltonian && |r| > 0 && r[0] != r[|r| - 1] {
      r := r + [r[0]];
    }
    var i := 0;
    while i < |r| - 1
      invariant InRange(r, |m|)
      invariant r == if hamiltonian && |route| > 0 && route[0] != route[|route| - 1] then route + [route[0]] else route
      invariant |r| == 0 ==> i == 0 && distance == 0.0
      invariant |r| > 0 ==> i < |r| && distance == PathLength(m, r[..i + 1])
    {
      assert r[..i + 2][..i + 1] == r[..i + 1];
      distance := distance + m[r[i]][r[i + 1]];
      i := i + 1;
    }
    assert |r| > 0 ==> r[..i + 1] == r;
  }

  /** getDistanceGraph: entry [i][j] is the pairwise distance from location i to location j, for every ordered pair. */
  method GetDistanceGraph<L>(locationData: seq<L>, pairwise: (L, L) -> real) returns (distanceGraph: Matrix)
    ensures |distanceGraph| == |locationData| && IsSquare(distanceGraph)
    ensures forall i, j :: 0 <= i < |locationData| && 0 <= j < |locationData| ==>
      distanceGraph[i][j] == pairwise(locationData[i], locationData[j])
    ensures (forall a, b :: pairwise(a, b) == pairwise(b, a)) ==> IsSymmetric(distanceGraph)
    ensures (forall a :: pairwise(a, a) == 0.0) ==>
      forall i :: 0 <= i < |distanceGraph| ==> distanceGraph[i][i] == 0.0
  {
    distanceGraph := [];
    var i := 0;
    while i < |locationData|
      invariant 0 <= i <= |locationData| && |distanceGraph| == i
      invariant forall a :: 0 <= a < i ==> |distanceGraph[a]| == |locationData|
      invariant forall a, b :: 0 <= a < i && 0 <= b < |locationData| ==>
        distanceGraph[a][b] == pairwise(locationData[a], locationData[b])
    {
      var distanceSet := [];
      var j := 0;
      while j < |locationData|
        invariant 0 <= j <= |locationData| && |distanceSet| == j
        invariant forall b :: 0 <= b < j ==> distanceSet[b] == pairwise(locationData[i], locationData[b])
      {
        distanceSet := distanceSet + [pairwise(locationData[i], locationData[j])];
        j := j + 1;
      }
      distanceGraph := distanceGraph + [distanceSet];
      i := i + 1;
    }
    if forall a, b :: pairwise(a, b) == pairwise(b, a) {
      forall i, j | 0 <= i < |distanceGraph| && 0 <= j < |distanceGraph|
        ensures distanceGraph[i][j] == distanceGraph[j][i]
      {
        assert pairwise(locationData[i], locationData[j]) == pairwise(locationData[j], locationData[i]);
      }
    }
    if forall a :: pairwise(a, a) == 0.0 {
      forall i | 0 <= i < |distanceGraph| ensures distanceGraph[i][i] == 0.0 {
        assert pairwise(locationData[i], locationData[i]) == 0.0;
      }
    }
  }

  /** A route with at most one key has length 0; otherwise the length is additive at any shared key. */
  lemma {:induction false} PathSplit(m: Matrix, r: seq<nat>, i: nat)
    requires IsSquare(m) && InRange(r, |m|) && i < |r|
    ensures |r| == 1 ==> PathLength(m, r) == 0.0
    ensures PathLength(m, r) == PathLength(m, r[..i + 1]) + PathLength(m, r[i..])
  {
    if i == |r| - 1 {
      assert r[..i + 1] == r;
    } else {
      var p := r[..|r| - 1];
      PathSplit(m, p, i);
      assert p[..i + 1] == r[..i + 1];
      assert r[i..][..|r[i..]| - 1] == p[i..];
    }
  }

  /**
   * The closing edge: with first != last the closed distance is the open sum
   * plus the edge last -> first; with first == last the flag changes nothing.
   */
  lemma ClosingEdge(m: Matrix, r: seq<nat>)
    requires IsSquare(m) && InRange(r, |m|) && |r| > 0
    ensures r[0] != r[|r| - 1] ==>
      RouteDistance(m, r, true) == PathLength(m, r) + m[r[|r| - 1]][r[0]]
    ensures r[0] == r[|r| - 1] ==> RouteDistance(m, r, true) == RouteDistance(m, r, false)
  {
    var c := r + [r[0]];
    assert c[..|c| - 1] == r;
  }

  /** The length of the 3-key sub-route around position p. */
  function SubRouteDistance(m: Matrix, r: seq<nat>, p: nat): real
    requires IsSquare(m) && InRange(r, |m|) && 1 <= p <= |r| - 2
  {
    RouteDistance(m, r[p - 1..p + 2], false)
  }

  /**
   * Replacing the key at an interior position p changes the closed route
   * distance by exactly the change of the 3-key sub-route around p.
   */
  lemma SubstitutionDelta(m: Matrix, r: seq<nat>, p: nat, c: nat)
    requires IsSquare(m) && InRange(r, |m|) && 1 <= p <= |r| - 2 && c < |m|
    ensures InRange(r[p := c], |m|)
    ensures RouteDistance(m, r[p := c], true) - RouteDistance(m, r, true)
      == SubRouteDistance(m, r[p := c], p) - SubRouteDistance(m, r, p)
  {
    var s := r[p := c];
    OpenSubstitutionDelta(m, r, p, c);
    ClosingEdge(m, r);
    ClosingEdge(m, s);
    assert s[0] == r[0] && s[|s| - 1] == r[|r| - 1];
  }

  /** The open-path part of SubstitutionDelta. */
  lemma OpenSubstitutionDelta(m: Matrix, r: seq<nat>, p: nat, c: nat)
    requires IsSquare(m) && InRange(r, |m|) && 1 <= p <= |r| - 2 && c < |m|
    ensures InRange(r[p := c], |m|)
    ensures PathLength(m, r[p := c]) - PathLength(m, r)
      == SubRouteDistance(m, r[p := c], p) - SubRouteDistance(m, r, p)
  {
    var s := r[p := c];
    assert InRange(s, |m|);
    ThreeWaySplit(m, r, p);
    ThreeWaySplit(m, s, p);
    assert s[..p] == r[..p];
    assert s[p + 1..] == r[p + 1..];
  }

  /** The open length is the part up to p - 1, the 3-key sub-route around p, and the part from p + 1. */
  lemma ThreeWaySplit(m: Matrix, r: seq<nat>, p: nat)
    requires IsSquare(m) && InRange(r, |m|) && 1 <= p <= |r| - 2
    ensures PathLength(m, r) == PathLength(m, r[..p]) + SubRouteDistance(m, r, p) + PathLength(m, r[p + 1..])
  {
    var tail := r[p - 1..];
    PathSplit(m, r, p - 1);
    PathSplit(m, tail, 2);
    assert tail[..3] == r[p - 1..p + 2];
    assert tail[2..] == r[p + 1..];
  }

  /** Every route of `len` keys below n. */
  ghost function AllRoutes(n: nat, len: nat): set<seq<nat>>
  {
    if len == 0 then {[]}
    else set r, k | r in AllRoutes(n, len - 1) && 0 <= k < n :: r + [k]
  }

  lemma {:induction false} InAllRoutes(n: nat, r: seq<nat>)
    requires InRange(r, n)
    ensures r in AllRoutes(n, |r|)
  {
    if |r| > 0 {
      var p := r[..|r| - 1];
      assert InRange(p, n);
      InAllRoutes(n, p);
      assert r == p + [r[|r| - 1]];
    }
  }

  /** The routes of `len` keys whose closed distance is below d: a finite set, used as a termination measure. */
  ghost function Shorter(m: Matrix, len: nat, d: real): set<seq<nat>>
    requires IsSquare(m)
  {
    set r | r in AllRoutes(|m|, len) && InRange(r, |m|) && RouteDistance(m, r, true) < d
  }

  /** Adopting a strictly shorter route of the same length shrinks the measure. */
  lemma ShorterShrinks(m: Matrix, r: seq<nat>, s: seq<nat>)
    requires IsSquare(m) && InRange(r, |m|) && InRange(s, |m|) && |s| == |r|
    requires RouteDistance(m, s, true) < RouteDistance(m, r, true)
    ensures |Shorter(m, |r|, RouteDistance(m, s, true))| < |Shorter(m, |r|, RouteDistance(m, r, true))|
  {
    InAllRoutes(|m|, s);
    var a := Shorter(m, |r|, RouteDistance(m, s, true));
    var b := Shorter(m, |r|, RouteDistance(m, r, true));
    assert s in b && s !in a;
    SubsetCardinality(a, b);
  }
}
