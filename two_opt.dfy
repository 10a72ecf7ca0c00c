/**
 * LocalSearchSolver: 2-opt improvement. Sweeps all position pairs (i, j),
 * reversing tour[i..j] in place whenever exchanging the edges
 * (tour[i-1], tour[i]) and (tour[j], tour[j+1 mod n]) for the crossed pair is
 * strictly shorter, and repeats the sweep until one applies no exchange.
 */
module TwoOpt {
  import opened TspModel
  import NearestNeighbor

  /** The tour after the 2-opt move on positions i..j: that segment reversed. */
  function Exchange(t: seq<nat>, i: nat, j: nat): seq<nat>
    requires i <= j < |t|
  {
    t[..i] + Reversed(t[i..j + 1]) + t[j + 1..]
  }

  /** The two edges the move removes. */
  function CurrentDelta(inst: Instance, t: seq<nat>, i: nat, j: nat): int
    requires inst.Valid() && InRange(inst, t) && 1 <= i <= j < |t|
  {
    inst.Distance(t[i - 1], t[i]) + inst.Distance(t[j], t[(j + 1) % |t|])
  }

  /** The two edges the move adds. */
  function NewDelta(inst: Instance, t: seq<nat>, i: nat, j: nat): int
    requires inst.Valid() && InRange(inst, t) && 1 <= i <= j < |t|
  {
    inst.Distance(t[i - 1], t[j]) + inst.Distance(t[i], t[(j + 1) % |t|])
  }

  /**
   * The move's two deltas as tour edges: current_delta is the tour's edges
   * out of positions i - 1 and j, new_delta the exchanged tour's edges out of
   * the same positions.
   */
  lemma DeltaEdges(inst: Instance, t: seq<nat>, i: nat, j: nat)
    requires inst.Valid() && InRange(inst, t) && 1 <= i <= j < |t|
    ensures InRange(inst, Exchange(t, i, j))
    ensures CurrentDelta(inst, t, i, j) == Edge(inst, t, i - 1) + Edge(inst, t, j)
    ensures NewDelta(inst, t, i, j) == Edge(inst, Exchange(t, i, j), i - 1) + Edge(inst, Exchange(t, i, j), j)
  {
    ExchangeShape(inst, t, i, j);
    ExchangeEnds(t, i, j);
    NextPosition(i - 1, |t|);
    NextPosition(j, |t|);
  }

  /** The cities around the reversed segment after the move. */
  lemma ExchangeEnds(t: seq<nat>, i: nat, j: nat)
    requires 1 <= i <= j < |t|
    ensures |Exchange(t, i, j)| == |t|
    ensures Exchange(t, i, j)[i - 1] == t[i - 1]
    ensures Exchange(t, i, j)[i] == t[j] && Exchange(t, i, j)[j] == t[i]
    ensures Exchange(t, i, j)[0] == t[0]
    ensures j + 1 < |t| ==> Exchange(t, i, j)[j + 1] == t[j + 1]
  {
    var a, m, b := t[..i], Reversed(t[i..j + 1]), t[j + 1..];
    assert m[0] == t[j] && m[j - i] == t[i];
  }

  predicate Improves(inst: Instance, t: seq<nat>, i: nat, j: nat)
    requires inst.Valid() && InRange(inst, t) && 1 <= i <= j < |t|
  {
    NewDelta(inst, t, i, j) < CurrentDelta(inst, t, i, j)
  }

  /** No pair of non-adjacent edges can be exchanged to shorten t. */
  predicate LocallyOptimal(inst: Instance, t: seq<nat>)
    requires inst.Valid() && InRange(inst, t)
  {
    forall i, j :: 1 <= i && i + 2 <= j < |t| ==> !Improves(inst, t, i, j)
  }

  /** The move keeps the cities, their multiset and the first position. */
  lemma ExchangeShape(inst: Instance, t: seq<nat>, i: nat, j: nat)
    requires inst.Valid() && InRange(inst, t) && 1 <= i <= j < |t|
    ensures |Exchange(t, i, j)| == |t| && Exchange(t, i, j)[0] == t[0]
    ensures InRange(inst, Exchange(t, i, j))
    ensures multiset(Exchange(t, i, j)) == multiset(t)
    ensures Exchange(t, i, j)[|t| - 1] == if j + 1 < |t| then t[|t| - 1] else t[i]
  {
    var a, m, b := t[..i], t[i..j + 1], t[j + 1..];
    assert t == a + m + b;
    ReversedMultiset(m);
    assert multiset(Exchange(t, i, j)) == multiset(a) + multiset(Reversed(m)) + multiset(b);
    forall k | 0 <= k < |t| ensures Exchange(t, i, j)[k] < inst.n {
      ExchangeAt(t, i, j, k);
    }
    ExchangeAt(t, i, j, 0);
    ExchangeAt(t, i, j, |t| - 1);
  }

  /** Position k of the exchanged tour holds a city of t, reversed inside i..j. */
  lemma ExchangeAt(t: seq<nat>, i: nat, j: nat, k: nat)
    requires i <= j < |t| && k < |t|
    ensures |Exchange(t, i, j)| == |t|
    ensures Exchange(t, i, j)[k] == if i <= k <= j then t[i + j - k] else t[k]
  {
  }

  /** Reversing a middle segment s, with cities b after it, swaps the two edges around s. */
  lemma MiddleReversalCost(inst: Instance, a: seq<nat>, s: seq<nat>, b: seq<nat>)
    requires inst.Valid() && inst.Symmetric()
    requires InRange(inst, a) && InRange(inst, s) && InRange(inst, b)
    requires |a| >= 1 && |s| >= 1 && |b| >= 1
    ensures InRange(inst, a + (s + b)) && InRange(inst, a + (Reversed(s) + b))
    ensures PathCost(inst, a + (Reversed(s) + b))
         == PathCost(inst, a + (s + b))
            - inst.Distance(a[|a| - 1], s[0]) - inst.Distance(s[|s| - 1], b[0])
            + inst.Distance(a[|a| - 1], s[|s| - 1]) + inst.Distance(s[0], b[0])
  {
    var rs := Reversed(s);
    ReversedPathCost(inst, s);
    PathCostConcat(inst, s, b);
    PathCostConcat(inst, a, s + b);
    PathCostConcat(inst, rs, b);
    PathCostConcat(inst, a, rs + b);
  }

  /** Reversing a final segment s swaps its first edge and the wrap edge. */
  lemma FinalReversalCost(inst: Instance, a: seq<nat>, s: seq<nat>)
    requires inst.Valid() && inst.Symmetric()
    requires InRange(inst, a) && InRange(inst, s) && |a| >= 1 && |s| >= 1
    ensures InRange(inst, a + s) && InRange(inst, a + Reversed(s))
    ensures PathCost(inst, a + Reversed(s))
         == PathCost(inst, a + s) - inst.Distance(a[|a| - 1], s[0])
            + inst.Distance(a[|a| - 1], s[|s| - 1])
  {
    ReversedPathCost(inst, s);
    PathCostConcat(inst, a, s);
    PathCostConcat(inst, a, Reversed(s));
  }

  /**
   * On a symmetric matrix the move changes the tour's cost by exactly
   * new_delta - current_delta: the running-cost update after an exchange is exact.
   */
  lemma ExchangeCost(inst: Instance, t: seq<nat>, i: nat, j: nat)
    requires inst.Valid() && inst.Symmetric() && InRange(inst, t) && 1 <= i < j < |t|
    ensures InRange(inst, Exchange(t, i, j))
    ensures TourCost(inst, Exchange(t, i, j))
         == TourCost(inst, t) - CurrentDelta(inst, t, i, j) + NewDelta(inst, t, i, j)
  {
    ExchangeShape(inst, t, i, j);
    var e := Exchange(t, i, j);
    TourCostAsPath(inst, t);
    TourCostAsPath(inst, e);
    var next := (j + 1) % |t|;
    NextPosition(j, |t|);
    if j + 1 < |t| {
      ExchangePathMiddle(inst, t, i, j);
      assert next == j + 1;
    } else {
      ExchangePathFinal(inst, t, i, j);
      assert next == 0;
    }
    assert CurrentDelta(inst, t, i, j) == inst.Distance(t[i - 1], t[i]) + inst.Distance(t[j], t[next]);
    assert NewDelta(inst, t, i, j) == inst.Distance(t[i - 1], t[j]) + inst.Distance(t[i], t[next]);
  }

  lemma ExchangePathMiddle(inst: Instance, t: seq<nat>, i: nat, j: nat)
    requires inst.Valid() && inst.Symmetric() && InRange(inst, t) && 1 <= i < j && j + 1 < |t|
    ensures InRange(inst, Exchange(t, i, j))
    ensures PathCost(inst, Exchange(t, i, j))
         == PathCost(inst, t) - inst.Distance(t[i - 1], t[i]) - inst.Distance(t[j], t[j + 1])
            + inst.Distance(t[i - 1], t[j]) + inst.Distance(t[i], t[j + 1])
  {
    var a, s, b := t[..i], t[i..j + 1], t[j + 1..];
    SliceInRange(inst, t, 0, i);
    SliceInRange(inst, t, i, j + 1);
    SliceInRange(inst, t, j + 1, |t|);
    ExchangeParts(t, i, j);
    MiddleReversalCost(inst, a, s, b);
  }

  /** The exchange as the three parts it is built of, with the cities at their seams. */
  lemma ExchangeParts(t: seq<nat>, i: nat, j: nat)
    requires 1 <= i <= j && j + 1 < |t|
    ensures t == t[..i] + (t[i..j + 1] + t[j + 1..])
    ensures Exchange(t, i, j) == t[..i] + (Reversed(t[i..j + 1]) + t[j + 1..])
    ensures t[..i][i - 1] == t[i - 1] && t[i..j + 1][0] == t[i]
    ensures t[i..j + 1][j - i] == t[j] && t[j + 1..][0] == t[j + 1]
  {
    assert t == t[..i] + t[i..j + 1] + t[j + 1..];
  }

  lemma SliceInRange(inst: Instance, t: seq<nat>, lo: nat, hi: nat)
    requires InRange(inst, t) && lo <= hi <= |t|
    ensures InRange(inst, t[lo..hi])
  {
  }

  lemma ExchangePathFinal(inst: Instance, t: seq<nat>, i: nat, j: nat)
    requires inst.Valid() && inst.Symmetric() && InRange(inst, t) && 1 <= i < j && j + 1 == |t|
    ensures InRange(inst, Exchange(t, i, j))
    ensures PathCost(inst, Exchange(t, i, j))
         == PathCost(inst, t) - inst.Distance(t[i - 1], t[i]) + inst.Distance(t[i - 1], t[j])
  {
    var a, s := t[..i], t[i..];
    assert t == a + s;
    assert Exchange(t, i, j) == a + Reversed(s);
    FinalReversalCost(inst, a, s);
  }

  /** Reverse the segment from i to j of the tour, in place. */
  method ReverseSegment(a: array<nat>, i: nat, j: nat)
    requires i <= j < a.Length
    modifies a
    ensures a[..] == Exchange(old(a[..]), i, j)
  {
    var lo, hi := i, j;
    while lo < hi
      invariant i <= lo && hi <= j && lo - i == j - hi && lo <= hi + 1
      invariant forall k :: 0 <= k < a.Length && (k < i || k > j) ==> a[k] == old(a[k])
      invariant forall k :: i <= k < lo ==> a[k] == old(a[i + j - k])
      invariant forall k :: hi < k <= j ==> a[k] == old(a[i + j - k])
      invariant forall k :: lo <= k <= hi ==> a[k] == old(a[k])
    {
      a[lo], a[hi] := a[hi], a[lo];
      lo, hi := lo + 1, hi - 1;
    }
    ExchangePointwise(old(a[..]), a[..], i, j);
  }

  /** A sequence that agrees with t outside i..j and holds t[i..j] backwards inside is the exchange. */
  lemma ExchangePointwise(t: seq<nat>, u: seq<nat>, i: nat, j: nat)
    requires i <= j < |t| == |u|
    requires forall k :: 0 <= k < |t| && (k < i || k > j) ==> u[k] == t[k]
    requires forall k :: i <= k <= j ==> u[k] == t[i + j - k]
    ensures u == Exchange(t, i, j)
  {
    var e := Exchange(t, i, j);
    forall k | 0 <= k < |t| ensures u[k] == e[k] {
      if k < i {
        assert e[k] == t[k];
      } else if k <= j {
        assert e[k] == Reversed(t[i..j + 1])[k - i];
      } else {
        assert e[k] == t[k];
      }
    }
  }

  /** What every point of the search keeps about the working tour s and its running cost. */
  ghost predicate Improvement(inst: Instance, tour: seq<nat>, cost: int, s: seq<nat>, sCost: int)
    requires inst.Valid() && InRange(inst, tour)
  {
    |s| == |tour| && InRange(inst, s) && multiset(s) == multiset(tour) &&
    (|tour| > 0 ==> s[0] == tour[0]) &&
    sCost <= cost && sCost - TourCost(inst, s) == cost - TourCost(inst, tour) &&
    TourCost(inst, s) >= 0 &&
    (LocallyOptimal(inst, tour) ==> s == tour && sCost == cost)
  }

  /** An improving move keeps Improvement and lowers the true cost. */
  lemma ExchangeStep(inst: Instance, tour: seq<nat>, cost: int, s: seq<nat>, sCost: int, i: nat, j: nat)
    requires inst.Valid() && inst.Symmetric() && inst.NonNegative() && InRange(inst, tour)
    requires Improvement(inst, tour, cost, s, sCost)
    requires 1 <= i && i + 2 <= j < |s| && Improves(inst, s, i, j)
    ensures InRange(inst, Exchange(s, i, j))
    ensures Improvement(inst, tour, cost, Exchange(s, i, j),
                     sCost - (CurrentDelta(inst, s, i, j) - NewDelta(inst, s, i, j)))
    ensures TourCost(inst, Exchange(s, i, j)) < TourCost(inst, s)
  {
    ExchangeShape(inst, s, i, j);
    ExchangeCost(inst, s, i, j);
    TourCostNonNegative(inst, Exchange(s, i, j));
  }

  /**
   * One pass of the `while improved` loop of two_opt: every pair
   * 1 <= i < j < n with j - i != 1, each improving exchange applied at once.
   * A pass that applies none leaves the tour 2-opt optimal.
   */
  method Sweep(inst: Instance, tour: seq<nat>, cost: int, a: array<nat>, startCost: int)
    returns (bestCost: int, improved: bool)
    requires inst.Valid() && inst.Symmetric() && inst.NonNegative() && InRange(inst, tour)
    requires Improvement(inst, tour, cost, a[..], startCost)
    modifies a
    ensures Improvement(inst, tour, cost, a[..], bestCost)
    ensures improved ==> TourCost(inst, a[..]) < TourCost(inst, old(a[..]))
    ensures !improved ==> a[..] == old(a[..]) && LocallyOptimal(inst, a[..])
  {
    var n := a.Length;
    bestCost := startCost;
    improved := false;
    var i := 1;
    while i < n - 1
      invariant 1 <= i && (n >= 2 ==> i <= n - 1)
      invariant Improvement(inst, tour, cost, a[..], bestCost)
      invariant !improved ==> a[..] == old(a[..])
      invariant improved ==> TourCost(inst, a[..]) < TourCost(inst, old(a[..]))
      invariant !improved ==> forall i', j' :: 1 <= i' < i && i' + 2 <= j' < n ==>
                  !Improves(inst, a[..], i', j')
    {
      var j := i + 1;
      while j < n
        invariant i + 1 <= j <= n
        invariant Improvement(inst, tour, cost, a[..], bestCost)
        invariant !improved ==> a[..] == old(a[..])
        invariant improved ==> TourCost(inst, a[..]) < TourCost(inst, old(a[..]))
        invariant !improved ==> forall i', j' ::
                    ((1 <= i' < i && i' + 2 <= j' < n) || (i' == i && i' + 2 <= j' < j)) ==>
                    !Improves(inst, a[..], i', j')
      {
        if j - i != 1 {
          var u1, v1 := a[i - 1], a[i];
          var u2, v2 := a[j], a[(j + 1) % n];
          var currentDelta := inst.Distance(u1, v1) + inst.Distance(u2, v2);
          var newDelta := inst.Distance(u1, u2) + inst.Distance(v1, v2);
          assert currentDelta == CurrentDelta(inst, a[..], i, j);
          assert newDelta == NewDelta(inst, a[..], i, j);
          if newDelta < currentDelta {
            ExchangeStep(inst, tour, cost, a[..], bestCost, i, j);
            ReverseSegment(a, i, j);
            bestCost := bestCost - (currentDelta - newDelta);
            improved := true;
          }
        }
        j := j + 1;
      }
      i := i + 1;
    }
  }

  /**
   * LocalSearchSolver.two_opt(tour, cost): repeated full sweeps until a sweep
   * applies no exchange. The result is a rearrangement of the input with the
   * same first city, no dearer, 2-opt optimal, and its running cost is off from
   * the true cost by exactly what the input's was.
   */
  method TwoOptSearch(inst: Instance, tour: seq<nat>, cost: int) returns (best: seq<nat>, bestCost: int)
    requires inst.Valid() && inst.Symmetric() && inst.NonNegative() && InRange(inst, tour)
    ensures |best| == |tour| && InRange(inst, best) && multiset(best) == multiset(tour)
    ensures |tour| > 0 ==> best[0] == tour[0]
    ensures bestCost <= cost
    ensures bestCost - TourCost(inst, best) == cost - TourCost(inst, tour)
    ensures LocallyOptimal(inst, best)
    ensures LocallyOptimal(inst, tour) ==> best == tour && bestCost == cost
    ensures |tour| <= 3 ==> best == tour && bestCost == cost
  {
    var n := |tour|;
    var a := new nat[n](k requires 0 <= k < n => tour[k]);
    assert a[..] == tour;
    var improved := true;
    bestCost := cost;
    TourCostNonNegative(inst, tour);
    while improved
      invariant a.Length == n && Improvement(inst, tour, cost, a[..], bestCost)
      invariant !improved ==> LocallyOptimal(inst, a[..])
      decreases TourCost(inst, a[..]) + (if improved then 1 else 0)
    {
      bestCost, improved := Sweep(inst, tour, cost, a, bestCost);
    }
    best := a[..];
  }

  /**
   * LocalSearchSolver.solve: 2-opt from the given solution, or, with none,
   * from the nearest-neighbour tour of city 0 (which fails on an empty instance).
   */
  method Solve(inst: Instance, initial: Option<Solution>) returns (r: Result<Solution>)
    requires inst.Valid() && inst.Symmetric() && inst.NonNegative()
    requires initial.Some? ==> InRange(inst, initial.value.tour)
    ensures initial.Some? ==> r.Ok?
    ensures initial.None? ==> (r.Ok? <==> inst.n >= 1)
    ensures r.Ok? ==> InRange(inst, r.value.tour) && LocallyOptimal(inst, r.value.tour)
    ensures r.Ok? && initial.Some? ==>
              var t, c := initial.value.tour, initial.value.cost;
              multiset(r.value.tour) == multiset(t) && r.value.cost <= c &&
              (|t| > 0 ==> r.value.tour[0] == t[0]) &&
              r.value.cost - TourCost(inst, r.value.tour) == c - TourCost(inst, t)
    ensures r.Ok? && initial.None? ==>
              IsTour(r.value.tour, inst.n) && r.value.tour[0] == 0 &&
              r.value.cost == TourCost(inst, r.value.tour)
    ensures r.Ok? && initial.None? ==> forall t ::
              (IsTour(t, inst.n) && t[0] == 0 && InRange(inst, t) && NearestNeighbor.IsNearestNeighborTour(inst, t))
              ==> r.value.cost <= TourCost(inst, t)
  {
    if initial.Some? {
      var t, c := TwoOptSearch(inst, initial.value.tour, initial.value.cost);
      return Ok(Solution(t, c));
    }
    var sol := NearestNeighbor.Solve(inst, 0);
    if sol.Err? {
      return sol;
    }
    var t, c := TwoOptSearch(inst, sol.value.tour, sol.value.cost);
    PermutationOfTour(t, sol.value.tour, inst.n);
    forall u | IsTour(u, inst.n) && u[0] == 0 && InRange(inst, u) && NearestNeighbor.IsNearestNeighborTour(inst, u)
      ensures c <= TourCost(inst, u)
    {
      NearestNeighbor.NearestNeighborDeterministic(inst, sol.value.tour, u);
    }
    return Ok(Solution(t, c));
  }

  /** Running the search again on its own result returns it unchanged. */
  method SearchTwice(inst: Instance, tour: seq<nat>, cost: int)
    returns (best: seq<nat>, bestCost: int, again: seq<nat>, againCost: int)
    requires inst.Valid() && inst.Symmetric() && inst.NonNegative() && InRange(inst, tour)
    ensures again == best && againCost == bestCost
  {
    best, bestCost := TwoOptSearch(inst, tour, cost);
    again, againCost := TwoOptSearch(inst, best, bestCost);
  }
}
