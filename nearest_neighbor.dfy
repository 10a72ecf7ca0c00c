/**
 * ConstructiveSolver: the nearest-neighbour heuristic. From the start city,
 * repeatedly move to the nearest unvisited city (ties to the smallest index).
 */
module NearestNeighbor {
  import opened TspModel

  /**
   * Position k of t holds the city nearest to t[k-1] among those not in
   * t[..k], the smallest such index on a tie.
   */
  predicate NearestStep(inst: Instance, t: seq<nat>, k: nat)
    requires inst.Valid() && InRange(inst, t) && 1 <= k < |t|
  {
    forall c: nat :: c < inst.n && c !in t[..k] ==>
      inst.Distance(t[k - 1], t[k]) < inst.Distance(t[k - 1], c) ||
      (inst.Distance(t[k - 1], t[k]) == inst.Distance(t[k - 1], c) && t[k] <= c)
  }

  /** Every step of t after the first is a nearest-neighbour step. */
  predicate IsNearestNeighborTour(inst: Instance, t: seq<nat>)
    requires inst.Valid() && InRange(inst, t)
  {
    forall k :: 1 <= k < |t| ==> NearestStep(inst, t, k)
  }

  /** The unvisited city nearest to `current`; on a tie, the smallest one. */
  method Nearest(inst: Instance, current: nat, unvisited: set<nat>) returns (next: nat)
    requires inst.Valid() && current < inst.n
    requires unvisited != {} && forall c :: c in unvisited ==> c < inst.n
    ensures next in unvisited
    ensures forall c :: c in unvisited ==>
              inst.Distance(current, next) < inst.Distance(current, c) ||
              (inst.Distance(current, next) == inst.Distance(current, c) && next <= c)
  {
    ghost var w :| w in unvisited;
    var found := false;
    next := 0;
    var c: nat := 0;
    while c < inst.n
      invariant c <= inst.n
      invariant !found ==> forall c' :: c' in unvisited ==> c' >= c
      invariant found ==> next in unvisited && next < c
      invariant found ==> forall c' :: c' in unvisited && c' < c ==>
                  inst.Distance(current, next) < inst.Distance(current, c') ||
                  (inst.Distance(current, next) == inst.Distance(current, c') && next <= c')
    {
      if c in unvisited && (!found || inst.Distance(current, c) < inst.Distance(current, next)) {
        next := c;
        found := true;
      }
      c := c + 1;
    }
    assert w < inst.n;
  }

  /** ConstructiveSolver.solve from the given start city. */
  method Solve(inst: Instance, start: int) returns (r: Result<Solution>)
    requires inst.Valid()
    ensures r.Ok? <==> 0 <= start < inst.n
    ensures r.Err? ==> r.error == StartNotACity
    ensures r.Ok? ==> IsTour(r.value.tour, inst.n) && r.value.tour[0] == start
    ensures r.Ok? ==> InRange(inst, r.value.tour) && IsNearestNeighborTour(inst, r.value.tour)
    ensures r.Ok? ==> r.value.cost == TourCost(inst, r.value.tour)
  {
    var unvisited := AllCities(inst.n);
    if !(0 <= start < inst.n) {
      // unvisited.remove(start) raises
      return Err(StartNotACity);
    }
    var current: nat := start;
    var tour := [current];
    CityCount(inst.n);
    unvisited := unvisited - {current};
    assert unvisited == Unvisited(inst.n, tour);
    while unvisited != {}
      invariant |tour| >= 1 && tour[0] == start && current == tour[|tour| - 1]
      invariant InRange(inst, tour) && Distinct(tour)
      invariant unvisited == Unvisited(inst.n, tour)
      invariant |tour| + |unvisited| == inst.n
      invariant IsNearestNeighborTour(inst, tour)
      decreases |unvisited|
    {
      var next := Nearest(inst, current, unvisited);
      var tour' := tour + [next];
      forall k | 1 <= k < |tour'| ensures NearestStep(inst, tour', k) {
        if k < |tour| {
          assert tour'[..k] == tour[..k];
          assert NearestStep(inst, tour, k);
        } else {
          assert tour'[..k] == tour;
        }
      }
      assert Unvisited(inst.n, tour') == unvisited - {next};
      tour := tour';
      unvisited := unvisited - {next};
      current := next;
    }
    var cost := CalculateCost(inst, tour);
    return Ok(Solution(tour, cost));
  }

  /**
   * The tie-break makes the construction deterministic: two nearest-neighbour
   * tours from the same start city are equal.
   */
  lemma NearestNeighborDeterministic(inst: Instance, t1: seq<nat>, t2: seq<nat>)
    requires inst.Valid() && IsTour(t1, inst.n) && IsTour(t2, inst.n)
    requires InRange(inst, t1) && InRange(inst, t2)
    requires |t1| >= 1 && t1[0] == t2[0]
    requires IsNearestNeighborTour(inst, t1) && IsNearestNeighborTour(inst, t2)
    ensures t1 == t2
  {
    var k := 1;
    while k < |t1|
      invariant 1 <= k <= |t1| && t1[..k] == t2[..k]
    {
      assert t1[k] !in t2[..k] by {
        forall i | 0 <= i < k ensures t2[..k][i] != t1[k] {
          assert t1[..k][i] == t1[i];
        }
      }
      assert t2[k] !in t1[..k] by {
        forall i | 0 <= i < k ensures t1[..k][i] != t2[k] {
          assert t2[..k][i] == t2[i];
        }
      }
      assert t1[k - 1] == t1[..k][k - 1] == t2[k - 1];
      assert NearestStep(inst, t1, k) && NearestStep(inst, t2, k);
      assert t1[..k + 1] == t1[..k] + [t1[k]];
      assert t2[..k + 1] == t2[..k] + [t2[k]];
      k := k + 1;
    }
    assert t1 == t1[..k] && t2 == t2[..k];
  }
}
