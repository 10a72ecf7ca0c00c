/**
 * GRASPSolver: repeated randomised-greedy construction followed by 2-opt,
 * keeping the strictly cheapest local optimum. The random start city and the
 * random choices from the restricted candidate list (RCL) are parameters.
 */
module Grasp {
  import opened TspModel
  import TwoOpt
  import NearestNeighbor

  /** The largest distance from `from` to a candidate. */
  function MaxDist(inst: Instance, from: nat, cands: seq<nat>): (m: int)
    requires inst.Valid() && from < inst.n && InRange(inst, cands) && |cands| > 0
    ensures exists k :: 0 <= k < |cands| && m == inst.Distance(from, cands[k])
    ensures forall k :: 0 <= k < |cands| ==> inst.Distance(from, cands[k]) <= m
  {
    if |cands| == 1 then inst.Distance(from, cands[0])
    else
      var rest := MaxDist(inst, from, cands[1..]);
      assert forall k :: 1 <= k < |cands| ==> cands[1..][k - 1] == cands[k];
      if inst.Distance(from, cands[0]) >= rest then inst.Distance(from, cands[0]) else rest
  }

  /**
   * The RCL threshold, as an exact real: min_cost moved by the fraction alpha
   * of the spread towards max_cost. With alpha in [0, 1] it lies between the
   * two; with alpha < 0 and a spread it falls below min_cost.
   */
  function Threshold(minCost: int, maxCost: int, alpha: real): (r: real)
    ensures minCost <= maxCost && 0.0 <= alpha ==> minCost as real <= r
    ensures minCost <= maxCost && alpha <= 1.0 ==> r <= maxCost as real
    ensures alpha == 0.0 ==> r == minCost as real
    ensures alpha == 1.0 ==> r == maxCost as real
    ensures minCost < maxCost && alpha < 0.0 ==> r < minCost as real
  {
    var spread := (maxCost - minCost) as real;
    assert minCost <= maxCost && 0.0 <= alpha ==> alpha * spread >= 0.0;
    assert minCost <= maxCost && alpha <= 1.0 ==> alpha * spread <= spread;
    assert minCost < maxCost && alpha < 0.0 ==> alpha * spread <= alpha;
    minCost as real + alpha * spread
  }

  /** The restricted candidate list: the candidates within the threshold, in order. */
  function Rcl(inst: Instance, from: nat, cands: seq<nat>, threshold: real): (r: seq<nat>)
    requires inst.Valid() && from < inst.n && InRange(inst, cands)
    ensures forall c :: c in r <==> c in cands && c < inst.n && inst.Distance(from, c) as real <= threshold
  {
    if cands == [] then []
    else
      (if inst.Distance(from, cands[0]) as real <= threshold then [cands[0]] else [])
      + Rcl(inst, from, cands[1..], threshold)
  }

  /** The RCL of the current step of a construction. */
  function StepRcl(inst: Instance, alpha: real, from: nat, cands: seq<nat>): seq<nat>
    requires inst.Valid() && from < inst.n && InRange(inst, cands) && |cands| > 0
  {
    Rcl(inst, from, cands,
        Threshold(MinDist(inst, from, cands), MaxDist(inst, from, cands), alpha))
  }

  /**
   * With alpha >= 0 every candidate at minimum distance is in the RCL, so the
   * RCL is never empty and the pure-greedy fallback is never taken.
   */
  lemma RclHasNearest(inst: Instance, alpha: real, from: nat, cands: seq<nat>)
    requires inst.Valid() && from < inst.n && InRange(inst, cands) && |cands| > 0
    requires alpha >= 0.0
    ensures forall c :: c in cands && inst.Distance(from, c) == MinDist(inst, from, cands) ==>
              c in StepRcl(inst, alpha, from, cands)
    ensures |StepRcl(inst, alpha, from, cands)| > 0
  {
    var lo, hi := MinDist(inst, from, cands), MaxDist(inst, from, cands);
    assert lo <= inst.Distance(from, cands[0]) <= hi;
    var k :| 0 <= k < |cands| && lo == inst.Distance(from, cands[k]);
    assert cands[k] in StepRcl(inst, alpha, from, cands);
  }

  /** With alpha = 0 the RCL holds exactly the candidates at minimum distance. */
  lemma RclAlphaZero(inst: Instance, from: nat, cands: seq<nat>)
    requires inst.Valid() && from < inst.n && InRange(inst, cands) && |cands| > 0
    ensures forall c :: c in StepRcl(inst, 0.0, from, cands) <==>
              c in cands && inst.Distance(from, c) == MinDist(inst, from, cands)
  {
  }

  /** With alpha = 1 every candidate is in the RCL. */
  lemma RclAlphaOne(inst: Instance, from: nat, cands: seq<nat>)
    requires inst.Valid() && from < inst.n && InRange(inst, cands) && |cands| > 0
    ensures forall c :: c in StepRcl(inst, 1.0, from, cands) <==> c in cands
  {
  }

  /** The cities not yet in `visited`, in ascending order. */
  function Candidates(n: nat, visited: seq<nat>): (r: seq<nat>)
    ensures forall c: nat :: c in r <==> c < n && c !in visited
    ensures forall i :: 0 <= i < |r| ==> r[i] < n
  {
    var s := Unvisited(n, visited);
    assert forall c: nat :: c in s <==> c < n && c !in visited;
    Ascending(n, s)
  }

  /**
   * c is a city of `cands` nearest to `from`, the smallest one on a tie: the
   * city the source takes with min over the unvisited set keyed by distance.
   */
  predicate NearestFirst(inst: Instance, from: nat, cands: seq<nat>, c: nat) {
    inst.Valid() && from < inst.n && c < inst.n && c in cands &&
    forall c' :: c' in cands && c' < inst.n ==>
      inst.Distance(from, c) < inst.Distance(from, c') ||
      (inst.Distance(from, c) == inst.Distance(from, c') && c <= c')
  }

  /**
   * The city taken at `from` after the cities of `visited` with the random
   * draw `draw`: the draw-th entry of the RCL when the RCL is not empty, and
   * otherwise the nearest unvisited city.
   */
  predicate ChoiceAt(inst: Instance, alpha: real, from: nat, visited: seq<nat>, draw: nat, c: nat) {
    inst.Valid() && from < inst.n &&
    var cands := Candidates(inst.n, visited);
    |cands| > 0 &&
    var rcl := StepRcl(inst, alpha, from, cands);
    if |rcl| > 0 then c == Choice(rcl, draw) else NearestFirst(inst, from, cands, c)
  }

  /** random.choice on a non-empty list, with `draw` standing for the random value: an entry of the list. */
  function Choice(rcl: seq<nat>, draw: nat): (c: nat)
    requires |rcl| > 0
    ensures c in rcl
  {
    var k := draw % |rcl|;
    assert 0 <= k < |rcl|;
    rcl[k]
  }

  /** Position k of t is the city taken after t[..k] with draw draws[k - 1]. */
  predicate DrawnAt(inst: Instance, alpha: real, t: seq<nat>, draws: seq<nat>, k: nat) {
    1 <= k < |t| && k - 1 < |draws| && ChoiceAt(inst, alpha, t[k - 1], t[..k], draws[k - 1], t[k])
  }

  /** Every step of t after the start is the city its draw takes. */
  predicate IsRandomizedGreedyTour(inst: Instance, alpha: real, t: seq<nat>, draws: seq<nat>) {
    forall k :: 1 <= k < |t| ==> DrawnAt(inst, alpha, t, draws, k)
  }

  /** With alpha >= 0 each step takes an unvisited city from the RCL, within the threshold. */
  lemma ChosenWithinThreshold(inst: Instance, alpha: real, t: seq<nat>, draws: seq<nat>, k: nat)
    requires alpha >= 0.0 && DrawnAt(inst, alpha, t, draws, k)
    ensures var cands := Candidates(inst.n, t[..k]);
            t[k] < inst.n && t[k] in cands && t[k] in StepRcl(inst, alpha, t[k - 1], cands) &&
            inst.Distance(t[k - 1], t[k]) as real
              <= Threshold(MinDist(inst, t[k - 1], cands), MaxDist(inst, t[k - 1], cands), alpha)
  {
    var cands := Candidates(inst.n, t[..k]);
    RclHasNearest(inst, alpha, t[k - 1], cands);
    var rcl := StepRcl(inst, alpha, t[k - 1], cands);
    assert t[k] == Choice(rcl, draws[k - 1]);
  }

  /** With alpha < 0 and distinct distances to the candidates the RCL is empty: the fallback is taken. */
  lemma RclEmptyBelowZero(inst: Instance, alpha: real, from: nat, cands: seq<nat>)
    requires inst.Valid() && from < inst.n && InRange(inst, cands) && |cands| > 0
    requires alpha < 0.0 && MinDist(inst, from, cands) < MaxDist(inst, from, cands)
    ensures StepRcl(inst, alpha, from, cands) == []
  {
    var lo, hi := MinDist(inst, from, cands), MaxDist(inst, from, cands);
    RclEmpty(inst, from, cands, Threshold(lo, hi, alpha));
  }

  /** With every candidate beyond the threshold the RCL is empty. */
  lemma {:induction false} RclEmpty(inst: Instance, from: nat, cands: seq<nat>, threshold: real)
    requires inst.Valid() && from < inst.n && InRange(inst, cands)
    requires forall i :: 0 <= i < |cands| ==> threshold < inst.Distance(from, cands[i]) as real
    ensures Rcl(inst, from, cands, threshold) == []
  {
    if cands != [] {
      RclEmpty(inst, from, cands[1..], threshold);
    }
  }

  /** With alpha = 0 each choice is a nearest unvisited city. */
  lemma GreedyWhenAlphaZero(inst: Instance, t: seq<nat>, draws: seq<nat>, k: nat)
    requires DrawnAt(inst, 0.0, t, draws, k)
    ensures t[k - 1] < inst.n && t[k] < inst.n
    ensures forall c :: c in Unvisited(inst.n, t[..k]) ==>
              inst.Distance(t[k - 1], t[k]) <= inst.Distance(t[k - 1], c)
  {
    var from := t[k - 1];
    var cands := Candidates(inst.n, t[..k]);
    var lo := MinDist(inst, from, cands);
    ChosenWithinThreshold(inst, 0.0, t, draws, k);
    RclAlphaZero(inst, from, cands);
    assert inst.Distance(from, t[k]) == lo;
    forall c | c in Unvisited(inst.n, t[..k])
      ensures inst.Distance(from, t[k]) <= inst.Distance(from, c)
    {
      assert c in cands;
      var i :| 0 <= i < |cands| && cands[i] == c;
      assert lo <= inst.Distance(from, cands[i]);
    }
  }

  /** One draw at one point of the construction takes one city. */
  lemma SameChoice(inst: Instance, alpha: real, from: nat, visited: seq<nat>, draw: nat, c1: nat, c2: nat)
    requires ChoiceAt(inst, alpha, from, visited, draw, c1) && ChoiceAt(inst, alpha, from, visited, draw, c2)
    ensures c1 == c2
  {
    var cands := Candidates(inst.n, visited);
    if |StepRcl(inst, alpha, from, cands)| == 0 {
      assert NearestFirst(inst, from, cands, c1) && NearestFirst(inst, from, cands, c2);
    }
  }

  /** Two constructions that agree up to position j agree up to position j + 1. */
  lemma NextSame(inst: Instance, alpha: real, t1: seq<nat>, t2: seq<nat>, draws: seq<nat>, j: nat)
    requires |t1| == |t2| && 1 <= j < |t1| && t1[..j] == t2[..j]
    requires IsRandomizedGreedyTour(inst, alpha, t1, draws) && IsRandomizedGreedyTour(inst, alpha, t2, draws)
    ensures t1[..j + 1] == t2[..j + 1]
  {
    assert DrawnAt(inst, alpha, t1, draws, j) && DrawnAt(inst, alpha, t2, draws, j);
    assert t1[j - 1] == t1[..j][j - 1] && t2[j - 1] == t2[..j][j - 1];
    SameChoice(inst, alpha, t1[j - 1], t1[..j], draws[j - 1], t1[j], t2[j]);
    PrefixSnoc(t1, t2, j);
  }

  lemma PrefixSnoc(t1: seq<nat>, t2: seq<nat>, j: nat)
    requires j < |t1| && j < |t2| && t1[..j] == t2[..j] && t1[j] == t2[j]
    ensures t1[..j + 1] == t2[..j + 1]
  {
    assert t1[..j + 1] == t1[..j] + [t1[j]];
    assert t2[..j + 1] == t2[..j] + [t2[j]];
  }

  /** The start city and the draws fix the whole construction. */
  lemma {:induction false} ConstructionDeterministic(inst: Instance, alpha: real, t1: seq<nat>, t2: seq<nat>,
                                                     draws: seq<nat>, k: nat)
    requires |t1| == |t2| && 1 <= k <= |t1| && t1[0] == t2[0]
    requires IsRandomizedGreedyTour(inst, alpha, t1, draws) && IsRandomizedGreedyTour(inst, alpha, t2, draws)
    ensures t1[..k] == t2[..k]
  {
    if k == 1 {
      PrefixSnoc(t1, t2, 0);
    } else {
      ConstructionDeterministic(inst, alpha, t1, t2, draws, k - 1);
      NextSame(inst, alpha, t1, t2, draws, k - 1);
    }
  }

  /** Appending the city the next draw takes keeps the tour a randomised-greedy one. */
  lemma ChoiceStep(inst: Instance, alpha: real, tour: seq<nat>, draws: seq<nat>, next: nat)
    requires inst.Valid() && InRange(inst, tour) && |tour| >= 1 && next < inst.n && |tour| - 1 < |draws|
    requires IsRandomizedGreedyTour(inst, alpha, tour, draws)
    requires ChoiceAt(inst, alpha, tour[|tour| - 1], tour, draws[|tour| - 1], next)
    ensures InRange(inst, tour + [next])
    ensures IsRandomizedGreedyTour(inst, alpha, tour + [next], draws)
  {
    var tour' := tour + [next];
    SnocInRange(inst, tour, next);
    forall k | 1 <= k < |tour'| ensures DrawnAt(inst, alpha, tour', draws, k) {
      if k < |tour| {
        EarlierChoice(inst, alpha, tour, draws, next, k);
      } else {
        SnocParts(tour, next, |tour|);
        LastChoice(inst, alpha, tour, draws, next, tour');
      }
    }
  }

  /** Appending a city to a sequence of cities gives a sequence of cities. */
  lemma SnocInRange(inst: Instance, tour: seq<nat>, next: nat)
    requires InRange(inst, tour) && next < inst.n
    ensures InRange(inst, tour + [next])
  {
    forall k | 0 <= k < |tour| + 1 ensures (tour + [next])[k] < inst.n {
      if k < |tour| {
        assert (tour + [next])[k] == tour[k];
      }
    }
  }

  /** The city appended last is the one the draw takes after the whole tour. */
  lemma LastChoice(inst: Instance, alpha: real, tour: seq<nat>, draws: seq<nat>, next: nat, t: seq<nat>)
    requires |tour| >= 1 && |tour| - 1 < |draws|
    requires |t| == |tour| + 1 && t[..|tour|] == tour && t[|tour|] == next
    requires ChoiceAt(inst, alpha, tour[|tour| - 1], tour, draws[|tour| - 1], next)
    ensures DrawnAt(inst, alpha, t, draws, |tour|)
  {
    assert t[|tour| - 1] == tour[|tour| - 1];
  }

  /** The prefixes and entries of tour + [next] up to position |tour|. */
  lemma SnocParts(tour: seq<nat>, next: nat, k: nat)
    requires 1 <= k <= |tour|
    ensures (tour + [next])[..k] == tour[..k] && (tour + [next])[k - 1] == tour[k - 1]
    ensures (tour + [next])[k] == if k < |tour| then tour[k] else next
    ensures tour[..|tour|] == tour
  {
  }

  /** Appending a city leaves the earlier choices of a tour as they were. */
  lemma EarlierChoice(inst: Instance, alpha: real, tour: seq<nat>, draws: seq<nat>, next: nat, k: nat)
    requires 1 <= k < |tour| && DrawnAt(inst, alpha, tour, draws, k)
    ensures DrawnAt(inst, alpha, tour + [next], draws, k)
  {
    SnocParts(tour, next, k);
  }

  /**
   * GRASPSolver.construct_randomized_greedy. `start` stands for the value of
   * random.randint(0, n-1), which raises on an instance with no city;
   * draws[k] picks the entry random.choice(rcl) returns at the (k+1)-th step.
   */
  method ConstructRandomizedGreedy(inst: Instance, alpha: real, start: nat, draws: seq<nat>)
    returns (r: Result<seq<nat>>)
    requires inst.Valid() && (inst.n >= 1 ==> start < inst.n) && |draws| >= inst.n - 1
    ensures r.Err? <==> inst.n == 0
    ensures r.Err? ==> r.error == NoCities
    ensures r.Ok? ==> IsTour(r.value, inst.n) && InRange(inst, r.value) && r.value[0] == start
    ensures r.Ok? ==> IsRandomizedGreedyTour(inst, alpha, r.value, draws)
  {
    if inst.n == 0 {
      return Err(NoCities);
    }
    var unvisited := AllCities(inst.n);
    var current: nat := start;
    var tour := [current];
    CityCount(inst.n);
    unvisited := unvisited - {current};
    assert unvisited == Unvisited(inst.n, tour);
    while unvisited != {}
      invariant |tour| >= 1 && tour[0] == start && current == tour[|tour| - 1]
      invariant InRange(inst, tour) && Distinct(tour)
      invariant unvisited == Unvisited(inst.n, tour)
      invariant |tour| + |unvisited| == inst.n
      invariant IsRandomizedGreedyTour(inst, alpha, tour, draws)
      decreases |unvisited|
    {
      var next := Extend(inst, alpha, tour, draws);
      tour := tour + [next];
      unvisited := unvisited - {next};
      current := next;
    }
    return Ok(tour);
  }

  /** The body of the construction loop: the next city, and what appending it keeps. */
  method Extend(inst: Instance, alpha: real, tour: seq<nat>, draws: seq<nat>) returns (next: nat)
    requires inst.Valid() && InRange(inst, tour) && Distinct(tour) && |tour| >= 1 && |tour| - 1 < |draws|
    requires Unvisited(inst.n, tour) != {}
    requires IsRandomizedGreedyTour(inst, alpha, tour, draws)
    ensures next < inst.n && next !in tour
    ensures InRange(inst, tour + [next]) && Distinct(tour + [next])
    ensures Unvisited(inst.n, tour + [next]) == Unvisited(inst.n, tour) - {next}
    ensures IsRandomizedGreedyTour(inst, alpha, tour + [next], draws)
  {
    next := ChooseNext(inst, alpha, tour[|tour| - 1], tour, draws[|tour| - 1]);
    ChoiceStep(inst, alpha, tour, draws, next);
    UnvisitedSnoc(inst.n, tour, next);
    DistinctSnoc(tour, next);
  }

  /**
   * One step of the construction loop: the RCL of the cities not in `visited`
   * seen from `current`; random.choice(rcl), modelled by `draw`, or the
   * nearest unvisited city when the RCL is empty.
   */
  method ChooseNext(inst: Instance, alpha: real, current: nat, visited: seq<nat>, draw: nat)
    returns (next: nat)
    requires inst.Valid() && current < inst.n
    requires Unvisited(inst.n, visited) != {}
    ensures next < inst.n && next !in visited
    ensures ChoiceAt(inst, alpha, current, visited, draw, next)
  {
    var candidates := Candidates(inst.n, visited);
    assert |candidates| > 0 by {
      var c :| c in Unvisited(inst.n, visited);
      assert c in candidates;
    }
    var minCost := MinDist(inst, current, candidates);
    var maxCost := MaxDist(inst, current, candidates);
    var threshold := Threshold(minCost, maxCost, alpha);
    var rcl := Rcl(inst, current, candidates, threshold);
    if |rcl| == 0 {
      next := NearestNeighbor.Nearest(inst, current, Unvisited(inst.n, visited));
      assert next in candidates;
    } else {
      next := Choice(rcl, draw);
    }
  }

  /**
   * What one round of the search yields: `built` is the tour constructed from
   * `start` with `draws`, and `opt` the 2-opt local optimum reached from it.
   */
  predicate Round(inst: Instance, alpha: real, start: nat, draws: seq<nat>, built: seq<nat>, opt: Solution) {
    inst.Valid() && IsTour(built, inst.n) && InRange(inst, built) && |built| >= 1 && built[0] == start &&
    IsRandomizedGreedyTour(inst, alpha, built, draws) &&
    IsTour(opt.tour, inst.n) && InRange(inst, opt.tour) && opt.tour[0] == start &&
    multiset(opt.tour) == multiset(built) &&
    opt.cost == TourCost(inst, opt.tour) && opt.cost <= TourCost(inst, built) &&
    TwoOpt.LocallyOptimal(inst, opt.tour)
  }

  /**
   * GRASPSolver.solve: max_iterations rounds of construction and 2-opt.
   * `optima` lists every round's local optimum and `built` the tour each was
   * reached from; the result is the first of the cheapest, or None when no
   * round ran. With no city the first round fails.
   */
  method Solve(inst: Instance, maxIterations: int, alpha: real, starts: seq<nat>, draws: seq<seq<nat>>)
    returns (r: Result<Option<Solution>>, optima: seq<Solution>, ghost built: seq<seq<nat>>)
    requires inst.Valid() && inst.Symmetric() && inst.NonNegative()
    requires |starts| >= maxIterations && |draws| >= maxIterations
    requires forall k :: 0 <= k < maxIterations ==> (inst.n >= 1 ==> starts[k] < inst.n) && |draws[k]| >= inst.n - 1
    ensures r.Err? <==> maxIterations >= 1 && inst.n == 0
    ensures r.Err? ==> r.error == NoCities && optima == []
    ensures r.Ok? ==> |optima| == if maxIterations < 0 then 0 else maxIterations
    ensures r.Ok? ==> (r.value.None? <==> maxIterations <= 0)
    ensures |built| == |optima| && |optima| <= |starts| && |optima| <= |draws|
    ensures forall k :: 0 <= k < |optima| ==> Round(inst, alpha, starts[k], draws[k], built[k], optima[k])
    ensures r.Ok? && r.value.Some? ==> forall k :: 0 <= k < |optima| ==> r.value.value.cost <= optima[k].cost
    ensures r.Ok? && r.value.Some? ==>
              exists k :: 0 <= k < |optima| && r.value.value == optima[k] &&
                          (forall k' :: 0 <= k' < k ==> optima[k'].cost > r.value.value.cost)
  {
    var best: Option<Solution> := None;
    optima := [];
    built := [];
    ghost var bestIndex := 0;
    var it := 0;
    while it < maxIterations
      invariant 0 <= it && (maxIterations >= 0 ==> it <= maxIterations) && (maxIterations < 0 ==> it == 0)
      invariant |optima| == it && |built| == it
      invariant best.None? <==> it == 0
      invariant it > 0 ==> inst.n >= 1
      invariant forall k :: 0 <= k < it ==> Round(inst, alpha, starts[k], draws[k], built[k], optima[k])
      invariant best.Some? ==> 0 <= bestIndex < |optima| && best.value == optima[bestIndex]
      invariant best.Some? ==> forall k :: 0 <= k < bestIndex ==> optima[k].cost > best.value.cost
      invariant best.Some? ==> forall k :: 0 <= k < |optima| ==> best.value.cost <= optima[k].cost
    {
      var constructed := ConstructRandomizedGreedy(inst, alpha, starts[it], draws[it]);
      if constructed.Err? {
        r, optima, built := Err(constructed.error), [], [];
        return;
      }
      var tour := constructed.value;
      var cost := CalculateCost(inst, tour);
      var ls := TwoOpt.Solve(inst, Some(Solution(tour, cost)));
      var localOptimum := ls.value;
      PermutationOfTour(localOptimum.tour, tour, inst.n);
      assert Round(inst, alpha, starts[it], draws[it], tour, localOptimum);
      optima := optima + [localOptimum];
      built := built + [tour];
      if best.None? || localOptimum.cost < best.value.cost {
        best := Some(localOptimum);
        bestIndex := it;
      }
      it := it + 1;
    }
    r := Ok(best);
  }
}
