/**
 * BranchAndBoundSolver: depth-first search over tours that start at city 0,
 * seeded with the nearest-neighbour tour and pruned by a lower bound (partial
 * cost + MST of the unvisited cities + the two cheapest connecting edges).
 *
 * The wall clock is an oracle `timedOut` consulted once per entry of the
 * search, at a tick counter that counts those entries.
 */
module BranchAndBound {
  import opened TspModel
  import NearestNeighbor
  import Prim

  /** The cities below n that are not visited, in ascending order. */
  function UnvisitedList(n: nat, visited: set<nat>): (r: seq<nat>)
    ensures forall c: nat :: c in r <==> c < n && c !in visited
    ensures forall i :: 0 <= i < |r| ==> r[i] < n
    ensures Distinct(r)
  {
    var s := AllCities(n) - visited;
    assert forall c: nat :: c in s <==> c < n && c !in visited;
    Ascending(n, s)
  }

  /** The smallest distance from a candidate to the city `to`. */
  function MinDistTo(inst: Instance, cands: seq<nat>, to: nat): (m: int)
    requires inst.Valid() && to < inst.n && InRange(inst, cands) && |cands| > 0
    ensures exists k :: 0 <= k < |cands| && m == inst.Distance(cands[k], to)
    ensures forall k :: 0 <= k < |cands| ==> m <= inst.Distance(cands[k], to)
  {
    if |cands| == 1 then inst.Distance(cands[0], to)
    else
      var rest := MinDistTo(inst, cands[1..], to);
      assert forall k :: 1 <= k < |cands| ==> cands[1..][k - 1] == cands[k];
      if inst.Distance(cands[0], to) <= rest then inst.Distance(cands[0], to) else rest
  }

  /**
   * The value _bound returns at `current` with the cities `visited` and the
   * partial cost: with every city visited, the cost of closing the tour; with
   * non-negative distances, never below the partial cost.
   */
  function Bound(inst: Instance, current: nat, visited: set<nat>, cost: int): (b: int)
    requires inst.Valid() && inst.n >= 1 && current < inst.n
    ensures (forall c: nat :: c < inst.n ==> c in visited) ==> b == cost + inst.Distance(current, 0)
    ensures inst.NonNegative() ==> b >= cost
  {
    var unvisited := UnvisitedList(inst.n, visited);
    if unvisited == [] then cost + inst.Distance(current, 0)
    else
      assert unvisited[0] in unvisited;
      cost
      + (if |unvisited| > 1 then Prim.MstCost(inst, unvisited) else 0)
      + MinDist(inst, current, unvisited)
      + MinDistTo(inst, unvisited, 0)
  }

  /** Two duplicate-free sequences with the same elements hold the same multiset. */
  lemma SameElements(a: seq<nat>, b: seq<nat>)
    requires Distinct(a) && Distinct(b) && forall x :: x in a <==> x in b
    ensures multiset(a) == multiset(b)
  {
    DistinctCounts(a);
    DistinctCounts(b);
    forall x ensures multiset(a)[x] == multiset(b)[x] {
      assert x in a <==> x in multiset(a);
      assert x in b <==> x in multiset(b);
    }
  }

  /** The cities a completion c of `path` visits are exactly the unvisited ones. */
  lemma CompletionCities(inst: Instance, path: seq<nat>, visited: set<nat>, c: seq<nat>)
    requires IsTour(path + c, inst.n) && (forall x :: x in visited <==> x in path)
    ensures inst.n >= 0 && Distinct(c)
    ensures multiset(c) == multiset(UnvisitedList(inst.n, visited))
  {
    var t := path + c;
    assert Distinct(c) by {
      forall i, j | 0 <= i < j < |c| ensures c[i] != c[j] {
        assert c[i] == t[|path| + i] && c[j] == t[|path| + j];
      }
    }
    var u := UnvisitedList(inst.n, visited);
    forall x ensures x in c <==> x in u {
      if x in c {
        var i :| 0 <= i < |c| && c[i] == x;
        assert t[|path| + i] == x;
        assert x !in path by {
          forall k | 0 <= k < |path| ensures path[k] != x {
            assert t[k] == path[k];
          }
        }
      }
      if x in u {
        assert x < inst.n && x !in path;
        CityInTour(t, inst.n, x);
        var i :| 0 <= i < |t| && t[i] == x;
        if i < |path| {
          assert path[i] == x;
        } else {
          assert c[i - |path|] == x;
        }
      }
    }
    SameElements(c, u);
  }

  /** Every city 0..n-1 occurs in a tour. */
  lemma CityInTour(t: seq<nat>, n: int, x: nat)
    requires IsTour(t, n) && x < n
    ensures x in t
  {
    var all := AllCities(n);
    var inT := set k | 0 <= k < |t| :: t[k];
    assert inT <= all;
    CityCount(n);
    CardinalityOfImage(t);
    if x !in t {
      assert inT <= all - {x};
      SubsetCardinality(inT, all - {x});
    }
  }

  /** A duplicate-free sequence has as many distinct values as positions. */
  lemma {:induction false} CardinalityOfImage(t: seq<nat>)
    requires Distinct(t)
    ensures |set k | 0 <= k < |t| :: t[k]| == |t|
  {
    if t != [] {
      var rest := t[..|t| - 1];
      assert Distinct(rest);
      CardinalityOfImage(rest);
      var last := t[|t| - 1];
      assert (set k | 0 <= k < |t| :: t[k]) == (set k | 0 <= k < |rest| :: rest[k]) + {last};
      assert last !in (set k | 0 <= k < |rest| :: rest[k]);
    }
  }

  lemma {:induction false} SubsetCardinality(a: set<nat>, b: set<nat>)
    requires a <= b
    ensures |a| <= |b|
  {
    if a != {} {
      var x :| x in a;
      SubsetCardinality(a - {x}, b - {x});
    }
  }

  /**
   * The docstring's promise: on a symmetric matrix _bound never exceeds the
   * cost of any tour that extends the current path.
   */
  lemma BoundIsLowerBound(inst: Instance, path: seq<nat>, visited: set<nat>, c: seq<nat>)
    requires inst.Valid() && inst.Symmetric() && |path| >= 1 && path[0] == 0
    requires forall x :: x in visited <==> x in path
    requires IsTour(path + c, inst.n)
    ensures InRange(inst, path + c) && InRange(inst, path)
    ensures Bound(inst, path[|path| - 1], visited, PathCost(inst, path)) <= TourCost(inst, path + c)
  {
    ConcatInRange(inst, path, c);
    CompletionCities(inst, path, visited, c);
    if c == [] {
      assert path + c == path;
      ClosedTour(inst, path, visited);
    } else {
      OpenTour(inst, path, visited, c);
    }
  }

  /** A partial tour that already visits every city: the bound is exactly its closing cost. */
  lemma ClosedTour(inst: Instance, path: seq<nat>, visited: set<nat>)
    requires inst.Valid() && InRange(inst, path) && |path| >= 1 && path[0] == 0
    requires multiset(UnvisitedList(inst.n, visited)) == multiset{}
    ensures Bound(inst, path[|path| - 1], visited, PathCost(inst, path)) == TourCost(inst, path)
  {
    var u := UnvisitedList(inst.n, visited);
    assert |u| == |multiset(u)| == 0;
    TourCostAsPath(inst, path);
    ClosedBound(inst, path[|path| - 1], visited, PathCost(inst, path));
  }

  /** A partial tour with a non-empty completion c: the bound is below the completed tour's cost. */
  lemma OpenTour(inst: Instance, path: seq<nat>, visited: set<nat>, c: seq<nat>)
    requires inst.Valid() && inst.Symmetric() && InRange(inst, path) && InRange(inst, c)
    requires |path| >= 1 && path[0] == 0 && |c| >= 1
    requires multiset(c) == multiset(UnvisitedList(inst.n, visited))
    ensures InRange(inst, path + c)
    ensures Bound(inst, path[|path| - 1], visited, PathCost(inst, path)) <= TourCost(inst, path + c)
  {
    CompletionCost(inst, path, c);
    OpenBound(inst, path[|path| - 1], visited, PathCost(inst, path), UnvisitedList(inst.n, visited), c);
  }

  /** A tour made of a path from city 0 and a non-empty completion c, as the sum of its parts. */
  lemma CompletionCost(inst: Instance, path: seq<nat>, c: seq<nat>)
    requires inst.Valid() && InRange(inst, path) && InRange(inst, c)
    requires |path| >= 1 && path[0] == 0 && |c| >= 1
    ensures InRange(inst, path + c)
    ensures TourCost(inst, path + c)
         == PathCost(inst, path) + inst.Distance(path[|path| - 1], c[0]) + PathCost(inst, c)
            + inst.Distance(c[|c| - 1], 0)
  {
    var t := path + c;
    PathCostConcat(inst, path, c);
    ConcatEnds(path, c, t);
    TourCostAsPath(inst, t);
  }

  /** The ends of a concatenation of two non-empty sequences. */
  lemma ConcatEnds(a: seq<nat>, b: seq<nat>, t: seq<nat>)
    requires |a| >= 1 && |b| >= 1 && t == a + b
    ensures t[0] == a[0] && t[|t| - 1] == b[|b| - 1]
  {
  }

  /** With no city left the bound is the cost of closing the tour. */
  lemma ClosedBound(inst: Instance, current: nat, visited: set<nat>, cost: int)
    requires inst.Valid() && inst.n >= 1 && current < inst.n && UnvisitedList(inst.n, visited) == []
    ensures Bound(inst, current, visited, cost) == cost + inst.Distance(current, 0)
  {
  }

  /** The bound with cities left: cost so far plus what the rest of any tour through them costs at least. */
  lemma OpenBound(inst: Instance, current: nat, visited: set<nat>, cost: int, u: seq<nat>, c: seq<nat>)
    requires inst.Valid() && inst.Symmetric() && inst.n >= 1 && current < inst.n
    requires u == UnvisitedList(inst.n, visited)
    requires InRange(inst, c) && |c| > 0 && multiset(c) == multiset(u)
    ensures Bound(inst, current, visited, cost)
         <= cost + inst.Distance(current, c[0]) + PathCost(inst, c) + inst.Distance(c[|c| - 1], 0)
  {
    ConnectionBound(inst, current, u, c);
  }

  /** Both parts of a sequence of cities are sequences of cities. */
  lemma ConcatInRange(inst: Instance, a: seq<nat>, b: seq<nat>)
    requires IsTour(a + b, inst.n)
    ensures InRange(inst, a + b) && InRange(inst, a) && InRange(inst, b)
  {
    var t := a + b;
    forall k | 0 <= k < |a| ensures a[k] < inst.n {
      assert t[k] == a[k];
    }
    forall k | 0 <= k < |b| ensures b[k] < inst.n {
      assert t[|a| + k] == b[k];
    }
  }

  /**
   * The three terms _bound adds for the unvisited cities u never exceed what a
   * walk c through them, entered from `current` and closed at city 0, costs.
   */
  lemma ConnectionBound(inst: Instance, current: nat, u: seq<nat>, c: seq<nat>)
    requires inst.Valid() && inst.Symmetric() && inst.n >= 1 && current < inst.n
    requires InRange(inst, u) && InRange(inst, c) && |c| > 0 && multiset(c) == multiset(u)
    ensures |u| > 0
    ensures (if |u| > 1 then Prim.MstCost(inst, u) else 0)
            + MinDist(inst, current, u) + MinDistTo(inst, u, 0)
         <= inst.Distance(current, c[0]) + PathCost(inst, c) + inst.Distance(c[|c| - 1], 0)
  {
    assert |u| == |multiset(u)| == |c| > 0;
    assert c[0] in u by { assert c[0] in multiset(c); }
    assert c[|c| - 1] in u by { assert c[|c| - 1] in multiset(c); }
    var i :| 0 <= i < |u| && u[i] == c[0];
    var j :| 0 <= j < |u| && u[j] == c[|c| - 1];
    assert MinDist(inst, current, u) <= inst.Distance(current, c[0]);
    assert MinDistTo(inst, u, 0) <= inst.Distance(c[|c| - 1], 0);
    if |u| > 1 {
      Prim.MstLowerBound(inst, u, c);
    }
  }

  /** Python's order on (distance, city) tuples. */
  predicate PairLe(a: (int, nat), b: (int, nat)) {
    a.0 < b.0 || (a.0 == b.0 && a.1 <= b.1)
  }

  predicate SortedPairs(ps: seq<(int, nat)>) {
    forall i, j :: 0 <= i < j < |ps| ==> PairLe(ps[i], ps[j])
  }

  /** Insertion of p into the sorted list ps, after the entries that are not above it. */
  function Insert(p: (int, nat), ps: seq<(int, nat)>): (r: seq<(int, nat)>)
    requires SortedPairs(ps)
    ensures SortedPairs(r) && multiset(r) == multiset(ps) + multiset{p}
  {
    if ps == [] then [p]
    else if PairLe(p, ps[0]) then [p] + ps
    else
      var tail := Insert(p, ps[1..]);
      assert ps == [ps[0]] + ps[1..];
      assert forall i :: 0 <= i < |tail| ==> PairLe(ps[0], tail[i]) by {
        forall i | 0 <= i < |tail| ensures PairLe(ps[0], tail[i]) {
          assert tail[i] in multiset(tail);
          if tail[i] != p {
            assert tail[i] in multiset(ps[1..]);
            var j :| 0 <= j < |ps[1..]| && ps[1..][j] == tail[i];
            assert ps[j + 1] == tail[i];
          }
        }
      }
      [ps[0]] + tail
  }

  /** Sorting the (distance, city) entries: a sorted permutation of them. */
  function SortPairs(ps: seq<(int, nat)>): (r: seq<(int, nat)>)
    ensures SortedPairs(r) && multiset(r) == multiset(ps)
  {
    if ps == [] then []
    else
      assert ps == [ps[0]] + ps[1..];
      Insert(ps[0], SortPairs(ps[1..]))
  }

  /**
   * The children of the search at `current`: each entry is an unvisited city
   * with its distance from `current`, each unvisited city has an entry, and
   * no city has two.
   */
  ghost predicate ChildList(inst: Instance, current: nat, visited: set<nat>, children: seq<(int, nat)>)
    requires inst.Valid() && current < inst.n
  {
    (forall i :: 0 <= i < |children| ==>
       children[i].1 < inst.n && children[i].1 !in visited &&
       children[i].0 == inst.Distance(current, children[i].1)) &&
    (forall x: nat :: x < inst.n && x !in visited ==> exists i :: 0 <= i < |children| && children[i].1 == x) &&
    (forall i, j :: 0 <= i < j < |children| ==> children[i].1 != children[j].1)
  }

  /** An entry that occurs twice occurs twice in the multiset. */
  lemma RepeatedEntry(ps: seq<(int, nat)>, i: nat, j: nat)
    requires i < j < |ps| && ps[i] == ps[j]
    ensures multiset(ps)[ps[i]] >= 2
  {
    assert ps == ps[..i] + [ps[i]] + ps[i + 1..j] + [ps[j]] + ps[j + 1..];
  }

  /** In a list without repeated entries, every entry occurs once in the multiset. */
  lemma {:induction false} SingleEntries(ps: seq<(int, nat)>, p: (int, nat))
    requires forall i, j :: 0 <= i < j < |ps| ==> ps[i] != ps[j]
    ensures multiset(ps)[p] <= 1
  {
    if ps != [] {
      var rest := ps[1..];
      assert ps == [ps[0]] + rest;
      SingleEntries(rest, p);
      if ps[0] == p {
        assert p !in rest by {
          forall k | 0 <= k < |rest| ensures rest[k] != p {
            assert rest[k] == ps[k + 1];
          }
        }
      }
    }
  }

  /** Sorting keeps the entries, so it keeps a child list a child list. */
  lemma SortedChildList(inst: Instance, current: nat, visited: set<nat>, children: seq<(int, nat)>)
    requires inst.Valid() && current < inst.n && ChildList(inst, current, visited, children)
    ensures ChildList(inst, current, visited, SortPairs(children))
  {
    var sorted := SortPairs(children);
    SortedEntries(inst, current, visited, children, sorted);
    SortedCovers(inst.n, visited, children, sorted);
    SortedCitiesDistinct(inst, current, children, sorted);
  }

  /** Every entry of a reordering is an entry of the original list. */
  lemma SortedEntries(inst: Instance, current: nat, visited: set<nat>,
                      children: seq<(int, nat)>, sorted: seq<(int, nat)>)
    requires inst.Valid() && current < inst.n && multiset(sorted) == multiset(children)
    requires forall i :: 0 <= i < |children| ==>
               children[i].1 < inst.n && children[i].1 !in visited &&
               children[i].0 == inst.Distance(current, children[i].1)
    ensures forall i :: 0 <= i < |sorted| ==>
              sorted[i].1 < inst.n && sorted[i].1 !in visited &&
              sorted[i].0 == inst.Distance(current, sorted[i].1)
  {
    forall i | 0 <= i < |sorted|
      ensures sorted[i].1 < inst.n && sorted[i].1 !in visited &&
              sorted[i].0 == inst.Distance(current, sorted[i].1)
    {
      assert sorted[i] in multiset(children);
      var j :| 0 <= j < |children| && children[j] == sorted[i];
    }
  }

  /** A reordering still has an entry for every city the original list had one for. */
  lemma SortedCovers(n: nat, visited: set<nat>, children: seq<(int, nat)>, sorted: seq<(int, nat)>)
    requires multiset(sorted) == multiset(children)
    requires forall x: nat :: x < n && x !in visited ==> exists i :: 0 <= i < |children| && children[i].1 == x
    ensures forall x: nat :: x < n && x !in visited ==> exists i :: 0 <= i < |sorted| && sorted[i].1 == x
  {
    forall x: nat | x < n && x !in visited
      ensures exists i :: 0 <= i < |sorted| && sorted[i].1 == x
    {
      var j :| 0 <= j < |children| && children[j].1 == x;
      assert children[j] in multiset(sorted);
      var i :| 0 <= i < |sorted| && sorted[i] == children[j];
    }
  }

  /** A reordering of entries with distinct cities, distances fixed by the city, has distinct cities. */
  lemma SortedCitiesDistinct(inst: Instance, current: nat, children: seq<(int, nat)>, sorted: seq<(int, nat)>)
    requires inst.Valid() && current < inst.n && multiset(sorted) == multiset(children)
    requires forall i, j :: 0 <= i < j < |children| ==> children[i].1 != children[j].1
    requires forall i :: 0 <= i < |sorted| ==>
               sorted[i].1 < inst.n && sorted[i].0 == inst.Distance(current, sorted[i].1)
    ensures forall i, j :: 0 <= i < j < |sorted| ==> sorted[i].1 != sorted[j].1
  {
    forall i, j | 0 <= i < j < |sorted| ensures sorted[i].1 != sorted[j].1 {
      if sorted[i].1 == sorted[j].1 {
        RepeatedEntry(sorted, i, j);
        SingleEntries(children, sorted[i]);
        assert false;
      }
    }
  }

  /** The upper bound: infinite until the first incumbent. */
  datatype Cost = Finite(value: int) | Infinite

  /** x is strictly below the upper bound; every value is below an infinite one. */
  predicate Below(x: int, ub: Cost) {
    ub.Infinite? || x < ub.value
  }

  /** The upper bound is at most x. */
  predicate AtMost(ub: Cost, x: int) {
    ub.Finite? && ub.value <= x
  }

  /** Every tour that extends `prefix` costs at least the upper bound. */
  ghost predicate Covered(inst: Instance, ub: Cost, prefix: seq<nat>)
    requires inst.Valid()
  {
    forall c :: IsTour(prefix + c, inst.n) ==> AtMost(ub, TourCost(inst, prefix + c))
  }

  /**
   * A partial tour of the search: it starts at city 0 and ends at `current`,
   * `visited` holds its cities and `cost` is its cost.
   */
  ghost predicate Partial(inst: Instance, path: seq<nat>, visited: set<nat>, current: nat, cost: int) {
    inst.Valid() && 1 <= |path| <= inst.n && path[0] == 0 && path[|path| - 1] == current &&
    InRange(inst, path) && Distinct(path) &&
    (forall x :: x in visited <==> x in path) && |visited| == |path| &&
    cost == PathCost(inst, path)
  }

  /** Appending an unvisited city to a partial tour that is not yet full gives a partial tour. */
  lemma PushPartial(inst: Instance, path: seq<nat>, visited: set<nat>, current: nat, cost: int, next: nat)
    requires Partial(inst, path, visited, current, cost) && |path| < inst.n
    requires next < inst.n && next !in visited
    ensures Partial(inst, path + [next], visited + {next}, next, cost + inst.Distance(current, next))
  {
    PathCostSnoc(inst, path, next);
    assert next !in path;
    assert Distinct(path + [next]);
  }

  /**
   * What one search call may do to the incumbent: keep it, or replace it by a
   * strictly cheaper tour that extends `prefix`.
   */
  predicate Progress(ub: Cost, best: Option<Solution>, ub': Cost, best': Option<Solution>, prefix: seq<nat>) {
    (ub' == ub && best' == best) ||
    (ub'.Finite? && Below(ub'.value, ub) && best'.Some? &&
     |best'.value.tour| >= |prefix| && best'.value.tour[..|prefix|] == prefix)
  }

  /**
   * One pass of the loop over the children: a child whose cost so far is
   * below the bound on entry is searched, and any new incumbent extends it;
   * any other child is skipped and leaves the incumbent as it was.
   */
  predicate TriedChild(currentCost: int, child: (int, nat), path: seq<nat>,
                       before: (Cost, Option<Solution>), after: (Cost, Option<Solution>)) {
    if Below(currentCost + child.0, before.0) then
      Progress(before.0, before.1, after.0, after.1, path + [child.1])
    else
      after == before
  }

  /**
   * One pass of the loop over the children, as the list of incumbents sees
   * it: the states before the pass keep their meaning, the new state extends
   * them, and the children already covered stay covered under the new bound.
   */
  lemma BranchStep(inst: Instance, exact: bool, currentCost: int, children: seq<(int, nat)>, path: seq<nat>,
                   states: seq<(Cost, Option<Solution>)>, k: nat, next: (Cost, Option<Solution>))
    requires inst.Valid() && k < |children| && |states| == k + 1
    requires Progress(states[0].0, states[0].1, states[k].0, states[k].1, path)
    requires Progress(states[k].0, states[k].1, next.0, next.1, path)
    requires forall i :: 0 <= i < k ==> TriedChild(currentCost, children[i], path, states[i], states[i + 1])
    requires TriedChild(currentCost, children[k], path, states[k], next)
    requires exact ==> forall i :: 0 <= i < k ==> Covered(inst, states[k].0, path + [children[i].1])
    ensures Progress(states[0].0, states[0].1, next.0, next.1, path)
    ensures forall i :: 0 <= i < k + 1 ==>
              TriedChild(currentCost, children[i], path, (states + [next])[i], (states + [next])[i + 1])
    ensures exact ==> forall i :: 0 <= i < k ==> Covered(inst, next.0, path + [children[i].1])
  {
    ProgressTransitive(states[0].0, states[0].1, states[k].0, states[k].1, next.0, next.1, path, path);
    var states' := states + [next];
    forall i | 0 <= i < k + 1
      ensures TriedChild(currentCost, children[i], path, states'[i], states'[i + 1])
    {
      assert states'[i] == states[i];
      if i < k {
        assert states'[i + 1] == states[i + 1];
      }
    }
    if exact {
      forall i | 0 <= i < k ensures Covered(inst, next.0, path + [children[i].1]) {
        CoveredMonotone(inst, states[k].0, next.0, path + [children[i].1]);
      }
    }
  }

  /** Two steps of progress, the second below a longer prefix, are one step of progress. */
  lemma ProgressTransitive(ub0: Cost, best0: Option<Solution>, ub1: Cost, best1: Option<Solution>,
                           ub2: Cost, best2: Option<Solution>, prefix: seq<nat>, longer: seq<nat>)
    requires Progress(ub0, best0, ub1, best1, prefix) && Progress(ub1, best1, ub2, best2, longer)
    requires |prefix| <= |longer| && longer[..|prefix|] == prefix
    ensures Progress(ub0, best0, ub2, best2, prefix)
  {
    if !(ub2 == ub1 && best2 == best1) {
      var t := best2.value.tour;
      assert t[..|prefix|] == t[..|longer|][..|prefix|];
    }
  }

  /** Progress below a one-city extension of a prefix is progress below the prefix. */
  lemma ProgressPrefix(ub: Cost, best: Option<Solution>, ub': Cost, best': Option<Solution>, prefix: seq<nat>, next: nat)
    requires Progress(ub, best, ub', best', prefix + [next])
    ensures Progress(ub, best, ub', best', prefix)
  {
    ProgressTransitive(ub, best, ub, best, ub', best', prefix, prefix + [next]);
  }

  /** A partial tour whose bound reaches the upper bound has every completion covered. */
  lemma PrunedCovered(inst: Instance, path: seq<nat>, visited: set<nat>, current: nat, cost: int, ub: Cost)
    requires Partial(inst, path, visited, current, cost) && !Below(Bound(inst, current, visited, cost), ub)
    ensures inst.Symmetric() ==> Covered(inst, ub, path)
  {
    forall c | inst.Symmetric() && IsTour(path + c, inst.n)
      ensures AtMost(ub, TourCost(inst, path + c))
    {
      BoundIsLowerBound(inst, path, visited, c);
    }
  }

  /** Lowering the upper bound keeps what it covers. */
  lemma CoveredMonotone(inst: Instance, ub: Cost, ub': Cost, prefix: seq<nat>)
    requires inst.Valid() && Covered(inst, ub, prefix)
    requires ub' == ub || (ub'.Finite? && Below(ub'.value, ub))
    ensures Covered(inst, ub', prefix)
  {
  }

  /** With non-negative distances, a tour through `next` after `path` costs at least the path to next. */
  lemma ChildCostBound(inst: Instance, path: seq<nat>, next: nat, c: seq<nat>)
    requires inst.Valid() && inst.NonNegative() && |path| >= 1
    requires InRange(inst, path + [next] + c)
    ensures InRange(inst, path) && next < inst.n
    ensures PathCost(inst, path) + inst.Distance(path[|path| - 1], next)
         <= TourCost(inst, path + [next] + c)
  {
    var t := path + [next] + c;
    var k := |path| + 1;
    assert t[..k] == path + [next];
    assert t[..k][..k - 1] == path;
    PrefixInRange(inst, t, k);
    PrefixInRange(inst, t[..k], k - 1);
    PathCostSnoc(inst, path, next);
    PrefixCostBound(inst, t, k);
  }

  lemma PrefixInRange(inst: Instance, t: seq<nat>, k: nat)
    requires InRange(inst, t) && k <= |t|
    ensures InRange(inst, t[..k]) && (k < |t| ==> t[k] < inst.n)
  {
  }

  /** A tour extending `path` goes on through one of the unvisited cities. */
  lemma CoveredByChildren(inst: Instance, ub: Cost, path: seq<nat>, visited: set<nat>,
                          current: nat, children: seq<(int, nat)>)
    requires inst.Valid() && current < inst.n && |path| < inst.n
    requires forall x :: x in visited <==> x in path
    requires ChildList(inst, current, visited, children)
    requires forall i :: 0 <= i < |children| ==> Covered(inst, ub, path + [children[i].1])
    ensures Covered(inst, ub, path)
  {
    forall c | IsTour(path + c, inst.n) ensures AtMost(ub, TourCost(inst, path + c)) {
      var t := path + c;
      assert |c| > 0;
      var x := c[0];
      assert t[|path|] == x;
      assert x !in path by {
        forall k | 0 <= k < |path| ensures path[k] != x {
          assert t[k] == path[k];
        }
      }
      var i :| 0 <= i < |children| && children[i].1 == x;
      assert path + [x] + c[1..] == t;
      assert IsTour(path + [x] + c[1..], inst.n);
    }
  }

  /** The solver's state. The wall clock is the oracle `timedOut`, read at each search entry. */
  class Solver {
    const inst: Instance
    const timedOut: nat -> bool
    var ticks: nat
    var upperBound: Cost
    var bestSolution: Option<Solution>
    var visited: set<nat>
    var path: seq<nat>

    /** The search is never cut off by the clock. */
    ghost predicate NoCutoff() {
      forall k: nat :: !timedOut(k)
    }

    /** upper_bound is the cost of best_solution, a tour starting at city 0. */
    ghost predicate Incumbent()
      reads this
    {
      inst.Valid() && inst.n >= 1 &&
      (bestSolution.Some? <==> upperBound.Finite?) &&
      (bestSolution.Some? ==>
         IsTour(bestSolution.value.tour, inst.n) && bestSolution.value.tour[0] == 0 &&
         bestSolution.value.cost == TourCost(inst, bestSolution.value.tour) &&
         upperBound.value == bestSolution.value.cost)
    }

    /** At each _dfs entry: the path starts at 0 and ends at current, and the visited set holds its cities. */
    ghost predicate SearchState(current: nat, currentCost: int)
      reads this
    {
      Partial(inst, path, visited, current, currentCost)
    }

    constructor(inst: Instance, timedOut: nat -> bool)
      ensures this.inst == inst && this.timedOut == timedOut
      ensures ticks == 0 && upperBound.Infinite? && bestSolution.None?
      ensures visited == {} && path == []
    {
      this.inst := inst;
      this.timedOut := timedOut;
      ticks := 0;
      upperBound := Infinite;
      bestSolution := None;
      visited := {};
      path := [];
    }

    /** _bound at `current`, computing the MST with Prim. */
    method BoundOf(current: nat, currentCost: int) returns (b: int)
      requires inst.Valid() && inst.n >= 1 && current < inst.n
      ensures b == Bound(inst, current, visited, currentCost)
    {
      var unvisited := UnvisitedList(inst.n, visited);
      if unvisited == [] {
        return currentCost + inst.Distance(current, 0);
      }
      assert InRange(inst, unvisited) && 0 < inst.n;
      var mst := 0;
      if |unvisited| > 1 {
        mst := Prim.MstCostOf(inst, unvisited);
      }
      b := currentCost + mst + MinDist(inst, current, unvisited) + MinDistTo(inst, unvisited, 0);
    }

    /** remaining_nodes, built city by city and then sorted. */
    method Children(current: nat) returns (children: seq<(int, nat)>)
      requires inst.Valid() && current < inst.n
      ensures SortedPairs(children)
      ensures ChildList(inst, current, visited, children)
    {
      var remaining: seq<(int, nat)> := [];
      for city := 0 to inst.n
        invariant forall i :: 0 <= i < |remaining| ==>
                    remaining[i].1 < city && remaining[i].1 !in visited &&
                    remaining[i].0 == inst.Distance(current, remaining[i].1)
        invariant forall x: nat :: x < city && x !in visited ==>
                    exists i :: 0 <= i < |remaining| && remaining[i].1 == x
        invariant forall i, j :: 0 <= i < j < |remaining| ==> remaining[i].1 != remaining[j].1
      {
        if city !in visited {
          var dist := inst.Distance(current, city);
          ghost var prev := remaining;
          remaining := remaining + [(dist, city)];
          forall x: nat | x < city + 1 && x !in visited
            ensures exists i :: 0 <= i < |remaining| && remaining[i].1 == x
          {
            if x == city {
              assert remaining[|prev|].1 == x;
            } else {
              var i :| 0 <= i < |prev| && prev[i].1 == x;
              assert remaining[i].1 == x;
            }
          }
        }
      }
      SortedChildList(inst, current, visited, remaining);
      children := SortPairs(remaining);
    }

    /**
     * _dfs. It restores path and visited, only lowers the upper bound, and
     * records an incumbent only when strictly cheaper. With a symmetric,
     * non-negative matrix and no cutoff, every tour extending path is covered.
     */
    method Dfs(current: nat, currentCost: int)
      requires Incumbent() && SearchState(current, currentCost)
      modifies this
      decreases inst.n - |path|, 4
      ensures path == old(path) && visited == old(visited)
      ensures Incumbent()
      ensures Progress(old(upperBound), old(bestSolution), upperBound, bestSolution, path)
      ensures inst.Symmetric() && inst.NonNegative() && NoCutoff() ==> Covered(inst, upperBound, path)
    {
      var expired := timedOut(ticks);
      ticks := ticks + 1;
      if expired {
        return;
      }
      var b := BoundOf(current, currentCost);
      if !Below(b, upperBound) {
        PrunedCovered(inst, path, visited, current, currentCost, upperBound);
        return;
      }
      Expand(current, currentCost);
    }

    /** The part of _dfs after the bound test: close a full path, or branch on the children. */
    method Expand(current: nat, currentCost: int)
      requires Incumbent() && SearchState(current, currentCost)
      modifies this
      decreases inst.n - |path|, 3
      ensures path == old(path) && visited == old(visited)
      ensures Incumbent()
      ensures Progress(old(upperBound), old(bestSolution), upperBound, bestSolution, path)
      ensures inst.Symmetric() && inst.NonNegative() && NoCutoff() ==> Covered(inst, upperBound, path)
    {
      if |visited| == inst.n {
        Close(current, currentCost);
      } else {
        var children := Children(current);
        ghost var states := Branch(current, currentCost, children);
      }
    }

    /** The full-path case of _dfs: close the tour back to path[0] and keep it if cheaper. */
    method Close(current: nat, currentCost: int)
      requires Incumbent() && SearchState(current, currentCost) && |path| == inst.n
      modifies this
      ensures path == old(path) && visited == old(visited)
      ensures Incumbent()
      ensures Progress(old(upperBound), old(bestSolution), upperBound, bestSolution, path)
      ensures Covered(inst, upperBound, path)
    {
      var total := currentCost + inst.Distance(current, path[0]);
      assert IsTour(path, inst.n);
      TourCostAsPath(inst, path);
      if Below(total, upperBound) {
        upperBound := Finite(total);
        bestSolution := Some(Solution(path, total));
        assert bestSolution.value.tour[..|path|] == path;
      }
      forall c | IsTour(path + c, inst.n) ensures AtMost(upperBound, TourCost(inst, path + c)) {
        assert |c| == 0;
        assert path + c == path;
      }
    }

    /** The loop of _dfs over the sorted children. */
    method Branch(current: nat, currentCost: int, children: seq<(int, nat)>)
      returns (ghost states: seq<(Cost, Option<Solution>)>)
      requires Incumbent() && SearchState(current, currentCost) && |path| < inst.n
      requires ChildList(inst, current, visited, children)
      modifies this
      decreases inst.n - |path|, 2
      ensures path == old(path) && visited == old(visited)
      ensures Incumbent()
      ensures Progress(old(upperBound), old(bestSolution), upperBound, bestSolution, path)
      ensures |states| == |children| + 1
      ensures states[0] == (old(upperBound), old(bestSolution)) && states[|children|] == (upperBound, bestSolution)
      ensures forall k :: 0 <= k < |children| ==> TriedChild(currentCost, children[k], path, states[k], states[k + 1])
      ensures inst.Symmetric() && inst.NonNegative() && NoCutoff() ==> Covered(inst, upperBound, path)
    {
      ghost var exact := inst.Symmetric() && inst.NonNegative() && NoCutoff();
      states := [(upperBound, bestSolution)];
      for k := 0 to |children|
        invariant path == old(path) && visited == old(visited)
        invariant Incumbent() && SearchState(current, currentCost)
        invariant Progress(old(upperBound), old(bestSolution), upperBound, bestSolution, path)
        invariant |states| == k + 1 && states[0] == (old(upperBound), old(bestSolution))
        invariant states[k] == (upperBound, bestSolution)
        invariant forall i :: 0 <= i < k ==> TriedChild(currentCost, children[i], path, states[i], states[i + 1])
        invariant exact ==> forall i :: 0 <= i < k ==> Covered(inst, upperBound, path + [children[i].1])
      {
        TryChild(current, currentCost, children[k]);
        BranchStep(inst, exact, currentCost, children, path, states, k, (upperBound, bestSolution));
        states := states + [(upperBound, bestSolution)];
      }
      if exact {
        CoveredByChildren(inst, upperBound, path, visited, current, children);
      }
    }

    /** One pass of the loop over the children: search the child when its cost so far is below the bound. */
    method TryChild(current: nat, currentCost: int, child: (int, nat))
      requires Incumbent() && SearchState(current, currentCost) && |path| < inst.n
      requires child.1 < inst.n && child.1 !in visited && child.0 == inst.Distance(current, child.1)
      modifies this
      decreases inst.n - |path|, 1
      ensures path == old(path) && visited == old(visited)
      ensures Incumbent()
      ensures TriedChild(currentCost, child, path, (old(upperBound), old(bestSolution)), (upperBound, bestSolution))
      ensures Progress(old(upperBound), old(bestSolution), upperBound, bestSolution, path)
      ensures inst.Symmetric() && inst.NonNegative() && NoCutoff() ==>
                Covered(inst, upperBound, path + [child.1])
    {
      var (dist, next) := child;
      if Below(currentCost + dist, upperBound) {
        Visit(current, currentCost, dist, next);
      } else if inst.Symmetric() && inst.NonNegative() && NoCutoff() {
        forall c | IsTour(path + [next] + c, inst.n)
          ensures AtMost(upperBound, TourCost(inst, path + [next] + c))
        {
          ChildCostBound(inst, path, next, c);
        }
      }
    }

    /** One child of the loop: visited.add, path.append, recurse, path.pop, visited.remove. */
    method Visit(current: nat, currentCost: int, dist: int, next: nat)
      requires Incumbent() && SearchState(current, currentCost) && |path| < inst.n
      requires next < inst.n && next !in visited && dist == inst.Distance(current, next)
      modifies this
      decreases inst.n - |path|, 0
      ensures path == old(path) && visited == old(visited)
      ensures Incumbent()
      ensures Progress(old(upperBound), old(bestSolution), upperBound, bestSolution, path + [next])
      ensures Progress(old(upperBound), old(bestSolution), upperBound, bestSolution, path)
      ensures inst.Symmetric() && inst.NonNegative() && NoCutoff() ==>
                Covered(inst, upperBound, path + [next])
    {
      ghost var before := path;
      PushPartial(inst, path, visited, current, currentCost, next);
      visited := visited + {next};
      path := path + [next];
      Dfs(next, currentCost + dist);
      ProgressPrefix(old(upperBound), old(bestSolution), upperBound, bestSolution, before, next);
      path := path[..|path| - 1];
      assert path == before;
      visited := visited - {next};
    }

    /**
     * solve: seed the incumbent with the nearest-neighbour tour from city 0,
     * then search from path [0]. The result is never worse than that tour and,
     * on a symmetric non-negative matrix with no cutoff, is an optimal tour.
     * With no cities the nearest-neighbour start fails and so does solve.
     */
    method Solve() returns (r: Result<Solution>)
      requires inst.Valid()
      modifies this
      ensures r.Err? <==> inst.n == 0
      ensures r.Ok? ==> IsTour(r.value.tour, inst.n) && r.value.tour[0] == 0
      ensures r.Ok? ==> r.value.cost == TourCost(inst, r.value.tour)
      ensures r.Ok? ==> forall t ::
                (IsTour(t, inst.n) && t[0] == 0 && InRange(inst, t) && NearestNeighbor.IsNearestNeighborTour(inst, t))
                ==> r.value.cost <= TourCost(inst, t)
      ensures r.Ok? && inst.Symmetric() && inst.NonNegative() && NoCutoff() ==>
                forall t :: IsTour(t, inst.n) ==> r.value.cost <= TourCost(inst, t)
    {
      ticks := 0;
      var initial := NearestNeighbor.Solve(inst, 0);
      if initial.Err? {
        return Err(initial.error);
      }
      var seed := initial.value;
      bestSolution := Some(seed);
      upperBound := Finite(seed.cost);
      visited := {0};
      path := [0];
      Dfs(0, 0);
      r := Ok(bestSolution.value);
      forall t | IsTour(t, inst.n) && t[0] == 0 && InRange(inst, t) && NearestNeighbor.IsNearestNeighborTour(inst, t)
        ensures r.value.cost <= TourCost(inst, t)
      {
        NearestNeighbor.NearestNeighborDeterministic(inst, seed.tour, t);
      }
      if inst.Symmetric() && inst.NonNegative() && NoCutoff() {
        forall t | IsTour(t, inst.n) ensures r.value.cost <= TourCost(inst, t) {
          CoveredRotation(inst, upperBound, t);
        }
      }
    }
  }

  /**
   * Every tour is a rotation of one that starts at city 0 and has the same
   * cost, so covering the tours that extend [0] covers them all.
   */
  lemma CoveredRotation(inst: Instance, ub: Cost, t: seq<nat>)
    requires inst.Valid() && Covered(inst, ub, [0]) && IsTour(t, inst.n) && inst.n >= 1
    ensures AtMost(ub, TourCost(inst, t))
  {
    var r := RotateToZero(inst, t);
    var c := r[1..];
    assert [0] + c == r;
  }

  /** A rotation of a tour that starts at city 0. */
  lemma RotateToZero(inst: Instance, t: seq<nat>) returns (r: seq<nat>)
    requires inst.Valid() && IsTour(t, inst.n) && inst.n >= 1
    ensures IsTour(r, inst.n) && |r| >= 1 && r[0] == 0 && TourCost(inst, r) == TourCost(inst, t)
  {
    CityInTour(t, inst.n, 0);
    var k :| 0 <= k < |t| && t[k] == 0;
    r := t[k..] + t[..k];
    RotationIsTour(t, inst.n, k);
    RotationCost(inst, t, k);
  }

  // ---------------------------------------------------------------------------
  // The four-city demonstration instance

  /** The matrix of the module's demonstration block, built directly. */
  function DemoInstance(): (inst: Instance)
    ensures inst.Valid() && inst.n == 4 && inst.Symmetric() && inst.NonNegative()
  {
    Instance(4, [[0, 10, 15, 20], [10, 0, 35, 25], [15, 35, 0, 30], [20, 25, 30, 0]])
  }

  /** The cost of a four-city tour, edge by edge. */
  lemma FourCityCost(inst: Instance, t: seq<nat>)
    requires inst.Valid() && InRange(inst, t) && |t| == 4
    ensures TourCost(inst, t)
         == inst.Distance(t[0], t[1]) + inst.Distance(t[1], t[2])
            + inst.Distance(t[2], t[3]) + inst.Distance(t[3], t[0])
  {
    assert EdgeSum(inst, t, 1) == inst.Distance(t[0], t[1]);
    assert EdgeSum(inst, t, 2) == EdgeSum(inst, t, 1) + inst.Distance(t[1], t[2]);
    assert EdgeSum(inst, t, 3) == EdgeSum(inst, t, 2) + inst.Distance(t[2], t[3]);
    assert Edge(inst, t, 3) == inst.Distance(t[3], t[0]);
  }

  /** Every tour of the demonstration instance costs at least 80. */
  lemma DemoOptimum(t: seq<nat>)
    requires IsTour(t, 4)
    ensures InRange(DemoInstance(), t) && TourCost(DemoInstance(), t) >= 80
  {
    var inst := DemoInstance();
    var r := RotateToZero(inst, t);
    FourCityCost(inst, r);
    assert r[1] in {1, 2, 3} && r[2] in {1, 2, 3} && r[3] in {1, 2, 3};
  }

  /** The tour 0-1-3-2 of the demonstration instance costs 80. */
  lemma DemoTour()
    ensures InRange(DemoInstance(), [0, 1, 3, 2]) && TourCost(DemoInstance(), [0, 1, 3, 2]) == 80
  {
    FourCityCost(DemoInstance(), [0, 1, 3, 2]);
  }

  /** A tour of the demonstration instance that no tour undercuts costs 80. */
  lemma DemoMinimum(best: Solution)
    requires IsTour(best.tour, 4) && InRange(DemoInstance(), best.tour)
    requires best.cost == TourCost(DemoInstance(), best.tour)
    requires forall t :: IsTour(t, 4) ==> best.cost <= TourCost(DemoInstance(), t)
    ensures best.cost == 80
  {
    DemoTour();
    assert IsTour([0, 1, 3, 2], 4);
    DemoOptimum(best.tour);
  }

  /** The demonstration run without a cutoff: solve returns an optimal tour, of cost 80. */
  method SolveDemo() returns (r: Result<Solution>)
    ensures r.Ok? && IsTour(r.value.tour, 4) && r.value.cost == 80
  {
    var inst := DemoInstance();
    var solver := new Solver(inst, k => false);
    assert solver.NoCutoff();
    r := solver.Solve();
    DemoMinimum(r.value);
  }
}
