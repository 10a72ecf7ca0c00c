/**
 * BranchAndBoundSolver._mst_cost: Prim's algorithm over a list of cities.
 * The dictionary `min_dists` is a map together with the sequence of its keys
 * in insertion order, which is the order `min` and the update loop visit them.
 *
 * The main result is MstLowerBound: on a symmetric matrix the cost Prim
 * computes never exceeds the cost of any path through the same cities, which
 * is what makes the bound of the branch and bound a lower bound.
 */
module Prim {
  import opened TspModel

  /** Every city of `rest` has a key. */
  predicate Keyed(rest: seq<nat>, keys: map<nat, int>) {
    forall v :: v in rest ==> v in keys
  }

  /**
   * The first position in `rest` whose key is smallest: the city the next
   * round of Prim's algorithm adds to the tree.
   */
  function FirstMin(rest: seq<nat>, keys: map<nat, int>): (i: nat)
    requires |rest| > 0 && Keyed(rest, keys)
    ensures i < |rest|
    ensures forall k :: 0 <= k < |rest| ==> keys[rest[i]] <= keys[rest[k]]
    ensures forall k :: 0 <= k < i ==> keys[rest[i]] < keys[rest[k]]
  {
    if |rest| == 1 then 0
    else
      var j := FirstMin(rest[1..], keys);
      assert forall k :: 1 <= k < |rest| ==> rest[1..][k - 1] == rest[k];
      if keys[rest[0]] <= keys[rest[1..][j]] then 0 else j + 1
  }

  /** `s` without its element at position i. */
  function Without(s: seq<nat>, i: nat): (r: seq<nat>)
    requires i < |s|
    ensures |r| == |s| - 1
    ensures multiset(r) == multiset(s) - multiset{s[i]}
  {
    assert s == s[..i] + [s[i]] + s[i + 1..];
    s[..i] + s[i + 1..]
  }

  /** The update loop after u joins the tree: each key drops to d(u, v) when that is smaller. */
  function Relax(inst: Instance, u: nat, rest: seq<nat>, keys: map<nat, int>): (r: map<nat, int>)
    requires inst.Valid() && u < inst.n && InRange(inst, rest) && Keyed(rest, keys)
    ensures Keyed(rest, r)
    ensures forall v :: v in rest ==>
              r[v] <= keys[v] && r[v] <= inst.Distance(u, v) &&
              (r[v] == keys[v] || r[v] == inst.Distance(u, v))
  {
    map v | v in rest :: if inst.Distance(u, v) < keys[v] then inst.Distance(u, v) else keys[v]
  }

  /** The initial dictionary: each city's distance from the start city. */
  function InitialKeys(inst: Instance, start: nat, rest: seq<nat>): (r: map<nat, int>)
    requires inst.Valid() && start < inst.n && InRange(inst, rest)
    ensures Keyed(rest, r)
    ensures forall v :: v in rest ==> r[v] == inst.Distance(start, v)
  {
    map v | v in rest :: inst.Distance(start, v)
  }

  /**
   * The cost Prim adds while moving the cities of `rest` into the tree, one
   * per step; with non-negative keys and distances every step adds at least 0.
   */
  function PrimRest(inst: Instance, rest: seq<nat>, keys: map<nat, int>): (r: int)
    requires inst.Valid() && InRange(inst, rest) && Keyed(rest, keys)
    ensures inst.NonNegative() && (forall v :: v in rest ==> keys[v] >= 0) ==> r >= 0
    decreases |rest|
  {
    if rest == [] then 0
    else
      var i := FirstMin(rest, keys);
      var rest' := Without(rest, i);
      var keys' := Relax(inst, rest[i], rest', keys);
      RelaxNonNegative(inst, rest, i, keys);
      keys[rest[i]] + PrimRest(inst, rest', keys')
  }

  /** Relaxing the keys of the cities left after one step keeps them non-negative. */
  lemma RelaxNonNegative(inst: Instance, rest: seq<nat>, i: nat, keys: map<nat, int>)
    requires inst.Valid() && InRange(inst, rest) && Keyed(rest, keys) && i < |rest|
    ensures InRange(inst, Without(rest, i)) && Keyed(Without(rest, i), keys)
    ensures inst.NonNegative() && (forall v :: v in rest ==> keys[v] >= 0) ==>
              var rest' := Without(rest, i);
              forall v :: v in rest' ==> Relax(inst, rest[i], rest', keys)[v] >= 0
  {
    var rest' := Without(rest, i);
    forall v | v in rest' ensures v in rest {
      assert v in multiset(rest');
    }
  }

  /**
   * The value _mst_cost returns for `nodes`: 0 for at most one city, and at
   * least 0 on a non-negative matrix.
   */
  function MstCost(inst: Instance, nodes: seq<nat>): (r: int)
    requires inst.Valid() && InRange(inst, nodes)
    ensures |nodes| <= 1 ==> r == 0
    ensures inst.NonNegative() ==> r >= 0
  {
    if nodes == [] then 0
    else PrimRest(inst, nodes[1..], InitialKeys(inst, nodes[0], nodes[1..]))
  }

  /**
   * Prim's invariant: the key of every city outside the tree is the distance
   * from the tree to it, the smallest distance from a tree city.
   */
  predicate TreeDistances(inst: Instance, seen: set<nat>, rest: seq<nat>, keys: map<nat, int>)
    requires inst.Valid() && InRange(inst, rest) && Keyed(rest, keys)
  {
    forall v :: v in rest ==>
      (forall s :: s in seen && s < inst.n ==> keys[v] <= inst.Distance(s, v)) &&
      (exists s :: s in seen && s < inst.n && keys[v] == inst.Distance(s, v))
  }

  lemma InitialTreeDistances(inst: Instance, start: nat, rest: seq<nat>)
    requires inst.Valid() && start < inst.n && InRange(inst, rest)
    ensures TreeDistances(inst, {start}, rest, InitialKeys(inst, start, rest))
  {
    var keys := InitialKeys(inst, start, rest);
    forall v | v in rest
      ensures exists s :: s in {start} && s < inst.n && keys[v] == inst.Distance(s, v)
    {
      assert start in {start};
    }
  }

  /** One step of Prim keeps its invariant: the chosen city joins the tree and the keys are relaxed. */
  lemma RelaxKeepsTreeDistances(inst: Instance, seen: set<nat>, rest: seq<nat>, keys: map<nat, int>, i: nat)
    requires inst.Valid() && InRange(inst, rest) && Keyed(rest, keys) && i < |rest|
    requires TreeDistances(inst, seen, rest, keys)
    ensures TreeDistances(inst, seen + {rest[i]}, Without(rest, i),
                          Relax(inst, rest[i], Without(rest, i), keys))
  {
    var u := rest[i];
    var rest' := Without(rest, i);
    var keys' := Relax(inst, u, rest', keys);
    forall v | v in rest'
      ensures (forall s :: s in seen + {u} && s < inst.n ==> keys'[v] <= inst.Distance(s, v)) &&
              (exists s :: s in seen + {u} && s < inst.n && keys'[v] == inst.Distance(s, v))
    {
      assert v in multiset(rest');
      assert v in rest;
      if keys'[v] == keys[v] {
        var s :| s in seen && s < inst.n && keys[v] == inst.Distance(s, v);
        assert s in seen + {u};
      } else {
        assert u in seen + {u};
      }
    }
  }

  /**
   * BranchAndBoundSolver._mst_cost, with the dictionary as `order` (its keys in
   * insertion order) and `minDists`.
   */
  method MstCostOf(inst: Instance, nodes: seq<nat>) returns (cost: int)
    requires inst.Valid() && InRange(inst, nodes) && Distinct(nodes)
    ensures cost == MstCost(inst, nodes)
  {
    if nodes == [] {
      return 0;
    }
    cost := 0;
    var startV := nodes[0];
    var seen := {startV};
    var order := nodes[1..];
    var minDists := InitialKeys(inst, startV, order);
    InitialTreeDistances(inst, startV, order);
    assert startV !in order by {
      assert nodes == [startV] + order;
    }
    assert |seen| + |order| == |nodes|;
    while |seen| < |nodes|
      invariant PrimState(inst, |nodes|, seen, order, minDists)
      invariant cost + PrimRest(inst, order, minDists) == MstCost(inst, nodes)
      decreases |order|
    {
      var i := FirstMin(order, minDists);
      var u := order[i];
      PrimStep(inst, |nodes|, seen, order, minDists);
      cost := cost + minDists[u];
      var removed := RemoveKey(minDists, u);
      order := Without(order, i);
      seen := seen + {u};
      minDists := RelaxAll(inst, u, order, removed);
    }
    assert order == [];
  }

  /**
   * The state of the loop in MstCostOf: the cities outside the tree, each keyed
   * by its distance to the tree, and nothing counted twice.
   */
  ghost predicate PrimState(inst: Instance, count: nat, seen: set<nat>, order: seq<nat>, keys: map<nat, int>) {
    inst.Valid() && InRange(inst, order) && Distinct(order) && Keyed(order, keys) &&
    |seen| + |order| == count &&
    (forall v :: v in order ==> v !in seen) &&
    (forall v :: v in keys ==> v in order) &&
    TreeDistances(inst, seen, order, keys)
  }

  /** What one iteration of the loop in MstCostOf needs about its next state. */
  lemma PrimStep(inst: Instance, count: nat, seen: set<nat>, order: seq<nat>, keys: map<nat, int>)
    requires PrimState(inst, count, seen, order, keys) && |order| > 0
    ensures var i := FirstMin(order, keys);
            var u := order[i];
            var rest := Without(order, i);
            RelaxReady(inst, u, rest, RemoveKey(keys, u)) &&
            Relax(inst, u, rest, RemoveKey(keys, u)) == Relax(inst, u, rest, keys) &&
            PrimRest(inst, order, keys) == keys[u] + PrimRest(inst, rest, Relax(inst, u, rest, keys)) &&
            PrimState(inst, count, seen + {u}, rest, Relax(inst, u, rest, keys))
  {
    var i := FirstMin(order, keys);
    var u := order[i];
    var rest := Without(order, i);
    RelaxKeepsTreeDistances(inst, seen, order, keys, i);
    WithoutDistinct(order, i);
    RelaxAfterRemove(inst, u, rest, keys);
    assert u !in seen;
    assert |seen + {u}| == |seen| + 1;
  }

  /** What relaxing the keys of `rest` from a new tree city u needs. */
  predicate RelaxReady(inst: Instance, u: nat, rest: seq<nat>, keys: map<nat, int>) {
    u < inst.n && InRange(inst, rest) && Keyed(rest, keys) && forall v :: v in keys ==> v in rest
  }



  lemma WithoutDistinct(s: seq<nat>, i: nat)
    requires Distinct(s) && i < |s|
    ensures Distinct(Without(s, i))
    ensures forall v :: v in Without(s, i) <==> v in s && v != s[i]
  {
    var r := Without(s, i);
    DistinctCounts(s);
    forall v ensures multiset(r)[v] <= 1 {
    }
    DistinctCounts(r);
    forall v ensures v in r <==> v in s && v != s[i] {
      assert v in r <==> v in multiset(r);
      assert v in s <==> v in multiset(s);
    }
  }

  /** The update loop never reads the key just deleted. */
  lemma RelaxAfterRemove(inst: Instance, u: nat, rest: seq<nat>, keys: map<nat, int>)
    requires inst.Valid() && u < inst.n && InRange(inst, rest) && Keyed(rest, keys) && u !in rest
    ensures Keyed(rest, RemoveKey(keys, u))
    ensures Relax(inst, u, rest, RemoveKey(keys, u)) == Relax(inst, u, rest, keys)
  {
  }

  /** The dictionary without the entry of u. */
  function RemoveKey(keys: map<nat, int>, u: nat): (r: map<nat, int>)
    ensures u !in r
    ensures forall v :: v in r <==> v in keys && v != u
    ensures forall v :: v in r ==> r[v] == keys[v]
  {
    keys - {u}
  }

  /** The update loop over the dictionary after u joined the tree. */
  method RelaxAll(inst: Instance, u: nat, order: seq<nat>, keys: map<nat, int>)
    returns (minDists: map<nat, int>)
    requires inst.Valid() && RelaxReady(inst, u, order, keys)
    ensures minDists == Relax(inst, u, order, keys)
  {
    minDists := keys;
    for k := 0 to |order|
      invariant forall v :: v in minDists <==> v in keys
      invariant forall v :: v in keys ==>
                  minDists[v] == if v in order[..k] && inst.Distance(u, v) < keys[v]
                                 then inst.Distance(u, v) else keys[v]
    {
      var v := order[k];
      assert order[..k + 1] == order[..k] + [v];
      var d := inst.Distance(u, v);
      if d < minDists[v] {
        minDists := minDists[v := d];
      }
    }
    assert order[..|order|] == order;
  }

  /*
   * The lower bound. A Hang is a path whose first city is joined to an anchor
   * city already in the tree; its weight counts that joining edge too. Any set
   * of hanging paths anchored in the tree and covering the remaining cities
   * weighs at least what Prim still adds (PrimRestBound). A path through all
   * cities, cut at the start city, is such a set (MstLowerBound).
   */

  datatype Hang = Hang(anchor: nat, path: seq<nat>)

  predicate HangsInRange(inst: Instance, hs: seq<Hang>) {
    forall k :: 0 <= k < |hs| ==> hs[k].anchor < inst.n && InRange(inst, hs[k].path)
  }

  function HangWeight(inst: Instance, h: Hang): int
    requires inst.Valid() && h.anchor < inst.n && InRange(inst, h.path)
  {
    if h.path == [] then 0 else inst.Distance(h.anchor, h.path[0]) + PathCost(inst, h.path)
  }

  function Weight(inst: Instance, hs: seq<Hang>): int
    requires inst.Valid() && HangsInRange(inst, hs)
  {
    if hs == [] then 0 else HangWeight(inst, hs[0]) + Weight(inst, hs[1..])
  }

  function Flatten(hs: seq<Hang>): seq<nat> {
    if hs == [] then [] else hs[0].path + Flatten(hs[1..])
  }

  predicate AnchoredIn(hs: seq<Hang>, seen: set<nat>) {
    forall k :: 0 <= k < |hs| ==> hs[k].anchor in seen
  }

  /** Every key is at most the distance to its city from any tree city. */
  predicate KeysBelow(inst: Instance, seen: set<nat>, rest: seq<nat>, keys: map<nat, int>)
    requires inst.Valid() && InRange(inst, rest) && Keyed(rest, keys)
  {
    forall v, s :: v in rest && s in seen && s < inst.n ==> keys[v] <= inst.Distance(s, v)
  }

  lemma {:induction false} WeightConcat(inst: Instance, a: seq<Hang>, b: seq<Hang>)
    requires inst.Valid() && HangsInRange(inst, a) && HangsInRange(inst, b)
    ensures HangsInRange(inst, a + b)
    ensures Weight(inst, a + b) == Weight(inst, a) + Weight(inst, b)
  {
    if a != [] {
      assert (a + b)[1..] == a[1..] + b;
      WeightConcat(inst, a[1..], b);
    } else {
      assert a + b == b;
    }
  }

  lemma WeightPair(inst: Instance, h1: Hang, h2: Hang)
    requires inst.Valid() && h1.anchor < inst.n && InRange(inst, h1.path)
    requires h2.anchor < inst.n && InRange(inst, h2.path)
    ensures HangsInRange(inst, [h1]) && HangsInRange(inst, [h2]) && HangsInRange(inst, [h1, h2])
    ensures Weight(inst, [h1]) == HangWeight(inst, h1)
    ensures Weight(inst, [h1, h2]) == HangWeight(inst, h1) + HangWeight(inst, h2)
  {
    assert [h1, h2][1..] == [h2];
    assert [h1][1..] == [] && [h2][1..] == [];
  }

  lemma FlattenPair(h1: Hang, h2: Hang)
    ensures Flatten([h1]) == h1.path
    ensures Flatten([h1, h2]) == h1.path + h2.path
  {
    assert [h1, h2][1..] == [h2];
    assert [h1][1..] == [] && [h2][1..] == [];
  }

  /** A city of the flattened paths sits at some position of some path. */
  lemma {:induction false} Locate(hs: seq<Hang>, x: nat) returns (h: nat, j: nat)
    requires x in Flatten(hs)
    ensures h < |hs| && j < |hs[h].path| && hs[h].path[j] == x
  {
    if x in hs[0].path {
      h := 0;
      j :| 0 <= j < |hs[0].path| && hs[0].path[j] == x;
    } else {
      h, j := Locate(hs[1..], x);
      h := h + 1;
    }
  }

  /**
   * Cutting path p at its city p[j] gives two paths hanging from p[j]: the part
   * before it reversed, and the part after it. On a symmetric matrix they weigh
   * exactly what p does.
   */
  lemma SplitPath(inst: Instance, p: seq<nat>, j: nat)
    requires inst.Valid() && inst.Symmetric() && InRange(inst, p) && j < |p|
    ensures InRange(inst, Reversed(p[..j])) && InRange(inst, p[j + 1..])
    ensures HangWeight(inst, Hang(p[j], Reversed(p[..j]))) + HangWeight(inst, Hang(p[j], p[j + 1..]))
         == PathCost(inst, p)
  {
    var left, tail := p[..j], p[j..];
    TailHang(inst, p, j);
    if left != [] {
      HeadHang(inst, left, p[j]);
      assert p == left + tail;
      PathCostConcat(inst, left, tail);
    } else {
      ReversedPathCost(inst, left);
      assert p == tail;
    }
  }

  /** A path reversed and hung from x weighs the path plus the edge from its last city to x. */
  lemma HeadHang(inst: Instance, left: seq<nat>, x: nat)
    requires inst.Valid() && inst.Symmetric() && InRange(inst, left) && |left| > 0 && x < inst.n
    ensures InRange(inst, Reversed(left))
    ensures HangWeight(inst, Hang(x, Reversed(left)))
         == inst.Distance(left[|left| - 1], x) + PathCost(inst, left)
  {
    ReversedPathCost(inst, left);
    assert Reversed(left)[0] == left[|left| - 1];
    inst.DistanceFacts(x, left[|left| - 1]);
  }

  /** The two parts of the cut hold every city of p but the one cut at. */
  lemma SplitPathCities(p: seq<nat>, j: nat)
    requires j < |p|
    ensures multiset(Reversed(p[..j]) + p[j + 1..]) == multiset(p) - multiset{p[j]}
  {
    ReversedMultiset(p[..j]);
    assert p == p[..j] + [p[j]] + p[j + 1..];
  }

  /** The part of p from p[j] on is the path after p[j] hanging from p[j]. */
  lemma TailHang(inst: Instance, p: seq<nat>, j: nat)
    requires inst.Valid() && InRange(inst, p) && j < |p|
    ensures InRange(inst, p[j + 1..])
    ensures PathCost(inst, p[j..]) == HangWeight(inst, Hang(p[j], p[j + 1..]))
  {
    if j + 1 < |p| {
      assert p[j..][1..] == p[j + 1..];
    }
  }

  /** The hanging paths after cutting path h at position j. */
  function Cut(hs: seq<Hang>, h: nat, j: nat): seq<Hang>
    requires h < |hs| && j < |hs[h].path|
  {
    hs[..h] + Halves(hs[h].path, j) + hs[h + 1..]
  }

  /** Cutting a hanging path at one of its cities drops exactly its anchor edge. */
  lemma CutWeight(inst: Instance, hs: seq<Hang>, h: nat, j: nat)
    requires inst.Valid() && inst.Symmetric() && HangsInRange(inst, hs)
    requires h < |hs| && j < |hs[h].path|
    ensures HangsInRange(inst, Cut(hs, h, j))
    ensures Weight(inst, Cut(hs, h, j))
         == Weight(inst, hs) - inst.Distance(hs[h].anchor, hs[h].path[0])
  {
    var parts := Halves(hs[h].path, j);
    HalvesWeight(inst, hs[h].path, j);
    WeightPair(inst, hs[h], hs[h]);
    assert hs == hs[..h] + [hs[h]] + hs[h + 1..];
    WeightConcat(inst, hs[..h], [hs[h]]);
    WeightConcat(inst, hs[..h] + [hs[h]], hs[h + 1..]);
    WeightConcat(inst, hs[..h], parts);
    WeightConcat(inst, hs[..h] + parts, hs[h + 1..]);
  }

  /** Cutting drops the city cut at from the cities covered. */
  lemma CutCities(hs: seq<Hang>, h: nat, j: nat)
    requires h < |hs| && j < |hs[h].path|
    ensures multiset(Flatten(Cut(hs, h, j))) == multiset(Flatten(hs)) - multiset{hs[h].path[j]}
  {
    var p := hs[h].path;
    var parts := Halves(p, j);
    var before, after := Flatten(hs[..h]), Flatten(hs[h + 1..]);
    HalvesCities(p, j);
    FlattenPair(hs[h], hs[h]);
    assert hs == hs[..h] + [hs[h]] + hs[h + 1..];
    FlattenConcat(hs[..h], [hs[h]]);
    FlattenConcat(hs[..h] + [hs[h]], hs[h + 1..]);
    FlattenConcat(hs[..h], parts);
    FlattenConcat(hs[..h] + parts, hs[h + 1..]);
    assert Flatten(hs) == before + p + after;
    assert Flatten(Cut(hs, h, j)) == before + Flatten(parts) + after;
    assert p[j] in multiset(p);
  }

  /** Both parts of a cut hang from the city cut at; the other paths keep their anchors. */
  lemma CutAnchors(hs: seq<Hang>, h: nat, j: nat, seen: set<nat>)
    requires h < |hs| && j < |hs[h].path| && AnchoredIn(hs, seen)
    ensures AnchoredIn(Cut(hs, h, j), seen + {hs[h].path[j]})
  {
    var p := hs[h].path;
    var c := Cut(hs, h, j);
    forall k | 0 <= k < |c| ensures c[k].anchor in seen + {p[j]} {
      if k < h {
        assert c[k] == hs[k];
      } else if k >= h + 2 {
        assert c[k] == hs[k - 1];
      }
    }
  }

  lemma {:induction false} FlattenConcat(a: seq<Hang>, b: seq<Hang>)
    ensures Flatten(a + b) == Flatten(a) + Flatten(b)
  {
    if a != [] {
      assert (a + b)[1..] == a[1..] + b;
      FlattenConcat(a[1..], b);
    } else {
      assert a + b == b;
    }
  }

  /**
   * The exchange argument: Prim adds no more than the weight of any hanging
   * paths that cover `rest` and are anchored in the tree `seen`.
   */
  lemma {:induction false} PrimRestBound(inst: Instance, seen: set<nat>, rest: seq<nat>,
                                         keys: map<nat, int>, hs: seq<Hang>)
    requires inst.Valid() && inst.Symmetric() && InRange(inst, rest) && Keyed(rest, keys)
    requires HangsInRange(inst, hs) && KeysBelow(inst, seen, rest, keys) && AnchoredIn(hs, seen)
    requires multiset(Flatten(hs)) == multiset(rest)
    ensures PrimRest(inst, rest, keys) <= Weight(inst, hs)
    decreases |rest|
  {
    if rest != [] {
      var i := FirstMin(rest, keys);
      var u := rest[i];
      var rest' := Without(rest, i);
      var keys' := Relax(inst, u, rest', keys);
      assert u in multiset(Flatten(hs));
      var h, j := Locate(hs, u);
      var a, p := hs[h].anchor, hs[h].path;
      CutWeight(inst, hs, h, j);
      CutCities(hs, h, j);
      CutAnchors(hs, h, j, seen);
      var hs' := Cut(hs, h, j);
      // Prim's key for u is at most the anchor edge of u's path
      assert p[0] in multiset(rest) by {
        FirstOfLocated(hs, h);
      }
      assert keys[u] <= keys[p[0]] <= inst.Distance(a, p[0]);
      RelaxedKeysBelow(inst, seen, rest, keys, i);
      PrimRestBound(inst, seen + {u}, rest', keys', hs');
      assert PrimRest(inst, rest, keys) == keys[u] + PrimRest(inst, rest', keys');
      assert Weight(inst, hs') == Weight(inst, hs) - inst.Distance(a, p[0]);
    } else {
      assert |Flatten(hs)| == |multiset(Flatten(hs))| == 0;
      EmptyWeight(inst, hs);
    }
  }

  /** Hanging paths that cover no city weigh nothing. */
  lemma {:induction false} EmptyWeight(inst: Instance, hs: seq<Hang>)
    requires inst.Valid() && HangsInRange(inst, hs) && Flatten(hs) == []
    ensures Weight(inst, hs) == 0
  {
    if hs != [] {
      EmptyWeight(inst, hs[1..]);
    }
  }

  /** The first city of a path is one of the cities covered. */
  lemma {:induction false} FirstOfLocated(hs: seq<Hang>, h: nat)
    requires h < |hs| && |hs[h].path| > 0
    ensures hs[h].path[0] in multiset(Flatten(hs))
  {
    if h > 0 {
      FirstOfLocated(hs[1..], h - 1);
    }
  }

  /** After u joins the tree the relaxed keys are below every edge from the tree. */
  lemma RelaxedKeysBelow(inst: Instance, seen: set<nat>, rest: seq<nat>, keys: map<nat, int>, i: nat)
    requires inst.Valid() && InRange(inst, rest) && Keyed(rest, keys) && i < |rest|
    requires KeysBelow(inst, seen, rest, keys)
    ensures KeysBelow(inst, seen + {rest[i]}, Without(rest, i), Relax(inst, rest[i], Without(rest, i), keys))
  {
    var rest' := Without(rest, i);
    forall v | v in rest' ensures v in rest {
      assert v in multiset(rest');
    }
  }

  /**
   * _mst_cost never exceeds the cost of a path visiting the same cities: on a
   * symmetric matrix the MST of the unvisited cities bounds the cheapest way to
   * walk through all of them.
   */
  lemma MstLowerBound(inst: Instance, nodes: seq<nat>, p: seq<nat>)
    requires inst.Valid() && inst.Symmetric() && InRange(inst, nodes) && InRange(inst, p)
    requires multiset(p) == multiset(nodes)
    ensures MstCost(inst, nodes) <= PathCost(inst, p)
  {
    if nodes != [] {
      var start, rest := nodes[0], nodes[1..];
      var hs := HangAtStart(inst, nodes, p);
      var keys := InitialKeys(inst, start, rest);
      assert KeysBelow(inst, {start}, rest, keys);
      PrimRestBound(inst, {start}, rest, keys, hs);
    }
  }

  /** A walk through the cities of `nodes`, cut at the first of them: the rest hang from it. */
  lemma HangAtStart(inst: Instance, nodes: seq<nat>, p: seq<nat>) returns (hs: seq<Hang>)
    requires inst.Valid() && inst.Symmetric() && InRange(inst, p)
    requires multiset(p) == multiset(nodes) && nodes != []
    ensures HangsInRange(inst, hs) && AnchoredIn(hs, {nodes[0]})
    ensures Weight(inst, hs) == PathCost(inst, p)
    ensures multiset(Flatten(hs)) == multiset(nodes[1..])
  {
    assert nodes == [nodes[0]] + nodes[1..];
    assert nodes[0] in multiset(p);
    hs := HangAt(inst, p, nodes[0]);
  }

  /** Cutting a walk at a city `start` of it gives two paths hanging from `start`, of the same total weight. */
  lemma HangAt(inst: Instance, p: seq<nat>, start: nat) returns (hs: seq<Hang>)
    requires inst.Valid() && inst.Symmetric() && InRange(inst, p) && start in multiset(p)
    ensures HangsInRange(inst, hs) && AnchoredIn(hs, {start})
    ensures Weight(inst, hs) == PathCost(inst, p)
    ensures multiset(Flatten(hs)) == multiset(p) - multiset{start}
  {
    var j :| 0 <= j < |p| && p[j] == start;
    hs := Halves(p, j);
    HalvesWeight(inst, p, j);
    HalvesCities(p, j);
  }

  /** p cut at position j: the part before p[j], walked backwards, and the part after it. */
  function Halves(p: seq<nat>, j: nat): (hs: seq<Hang>)
    requires j < |p|
    ensures |hs| == 2 && hs[0].anchor == p[j] && hs[1].anchor == p[j]
  {
    [Hang(p[j], Reversed(p[..j])), Hang(p[j], p[j + 1..])]
  }

  lemma HalvesWeight(inst: Instance, p: seq<nat>, j: nat)
    requires inst.Valid() && inst.Symmetric() && InRange(inst, p) && j < |p|
    ensures HangsInRange(inst, Halves(p, j))
    ensures Weight(inst, Halves(p, j)) == PathCost(inst, p)
  {
    var hs := Halves(p, j);
    SplitPath(inst, p, j);
    WeightPair(inst, hs[0], hs[1]);
  }

  lemma HalvesCities(p: seq<nat>, j: nat)
    requires j < |p|
    ensures multiset(Flatten(Halves(p, j))) == multiset(p) - multiset{p[j]}
  {
    var hs := Halves(p, j);
    SplitPathCities(p, j);
    FlattenPair(hs[0], hs[1]);
  }
}
