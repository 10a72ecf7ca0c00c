/**
 * The distance model shared by every solver: an instance (city count and
 * distance matrix), tours and their cost, the `Solution` record, and the
 * reshaping of an instance file's token stream into the matrix.
 */
module TspModel {

  datatype Option<T> = None | Some(value: T)

  datatype Error =
    | NoLines           // the instance file has no non-empty line
    | MalformedInstance // the token count is not n*n, or n < 1
    | StartNotACity     // the start city is not in 0..n-1
    | NoCities          // a random start city is drawn from 0..n-1 with n = 0

  datatype Result<T> = Ok(value: T) | Err(error: Error)

  /** A TSP instance: the city count `n` and the distance matrix, as loaded. */
  datatype Instance = Instance(n: int, matrix: seq<seq<int>>) {

    /** The matrix is square and fully populated: n rows of n entries. */
    predicate Valid() {
      |matrix| == n && forall i :: 0 <= i < |matrix| ==> |matrix[i]| == n
    }

    /** distance(i, j): the matrix entry, defined only for cities of a fully populated matrix. */
    function Distance(i: nat, j: nat): int
      requires Valid() && i < n && j < n
    {
      matrix[i][j]
    }

    /** On a symmetric matrix a distance is the same both ways, on a non-negative one at least 0. */
    lemma DistanceFacts(i: nat, j: nat)
      requires Valid() && i < n && j < n
      ensures Symmetric() ==> Distance(i, j) == Distance(j, i)
      ensures NonNegative() ==> Distance(i, j) >= 0
    {
    }

    predicate Symmetric()
      requires Valid()
    {
      forall i, j :: 0 <= i < n && 0 <= j < n ==> matrix[i][j] == matrix[j][i]
    }

    predicate NonNegative()
      requires Valid()
    {
      forall i, j :: 0 <= i < n && 0 <= j < n ==> matrix[i][j] >= 0
    }
  }

  /** A tour with the cost a solver reports for it. */
  datatype Solution = Solution(tour: seq<nat>, cost: int)

  // ---------------------------------------------------------------------------
  // Tours

  /** Every entry of `t` is a city of the instance. */
  predicate InRange(inst: Instance, t: seq<nat>) {
    forall i :: 0 <= i < |t| ==> t[i] < inst.n
  }

  predicate Distinct(t: seq<nat>) {
    forall i, j :: 0 <= i < j < |t| ==> t[i] != t[j]
  }

  /** `t` is a permutation of 0..n-1. */
  predicate IsTour(t: seq<nat>, n: int) {
    |t| == n && (forall i :: 0 <= i < |t| ==> t[i] < n) && Distinct(t)
  }

  /** A sequence is duplicate-free exactly when no value occurs twice in its multiset. */
  lemma {:induction false} DistinctCounts(s: seq<nat>)
    ensures Distinct(s) <==> forall x :: multiset(s)[x] <= 1
  {
    if s != [] {
      var h, rest := s[0], s[1..];
      DistinctCounts(rest);
      assert s == [h] + rest;
      assert multiset(s) == multiset{h} + multiset(rest);
      if Distinct(s) {
        assert Distinct(rest) by {
          forall i, j | 0 <= i < j < |rest| ensures rest[i] != rest[j] {
            assert rest[i] == s[i + 1] && rest[j] == s[j + 1];
          }
        }
        assert h !in rest by {
          forall i | 0 <= i < |rest| ensures rest[i] != h {
            assert rest[i] == s[i + 1];
          }
        }
      }
      if forall x :: multiset(s)[x] <= 1 {
        assert multiset(s)[h] == 1 + multiset(rest)[h];
        assert multiset(rest)[h] == 0;
        assert forall x :: multiset(rest)[x] <= 1 by {
          forall x ensures multiset(rest)[x] <= 1 {
            assert multiset(s)[x] <= 1;
          }
        }
        forall i, j | 0 <= i < j < |s| ensures s[i] != s[j] {
          if i == 0 {
            assert s[j] == rest[j - 1];
            assert s[j] in multiset(rest);
          } else {
            assert s[i] == rest[i - 1] && s[j] == rest[j - 1];
          }
        }
      }
    }
  }

  /** Rearranging a tour (same multiset of cities) gives a tour. */
  lemma PermutationOfTour(s: seq<nat>, t: seq<nat>, n: int)
    requires IsTour(t, n) && multiset(s) == multiset(t)
    ensures IsTour(s, n)
  {
    assert |s| == |multiset(s)| == |multiset(t)| == |t|;
    forall k | 0 <= k < |s| ensures s[k] < n {
      assert s[k] in multiset(s);
      assert s[k] in t;
    }
    DistinctCounts(s);
    DistinctCounts(t);
  }

  /** The set of cities 0..n-1 that are not in `prefix`. */
  function Unvisited(n: nat, prefix: seq<nat>): set<nat> {
    set c: nat | c < n && c !in prefix
  }

  /** Appending a value that does not occur keeps a sequence duplicate-free. */
  lemma DistinctSnoc(s: seq<nat>, x: nat)
    requires Distinct(s) && x !in s
    ensures Distinct(s + [x])
  {
    forall i, j | 0 <= i < j < |s| + 1 ensures (s + [x])[i] != (s + [x])[j] {
      assert (s + [x])[i] == s[i];
    }
  }

  /** Visiting one more city removes exactly that city from the unvisited ones. */
  lemma UnvisitedSnoc(n: nat, prefix: seq<nat>, x: nat)
    ensures Unvisited(n, prefix + [x]) == Unvisited(n, prefix) - {x}
  {
    forall c: nat ensures c in prefix + [x] <==> c in prefix || c == x {
      if c in prefix + [x] && c != x {
        var i :| 0 <= i < |prefix + [x]| && (prefix + [x])[i] == c;
        assert i < |prefix| && prefix[i] == c;
      }
    }
  }

  /** All the cities 0..n-1. */
  function AllCities(n: nat): set<nat> {
    Unvisited(n, [])
  }

  /** There are exactly n cities 0..n-1. */
  lemma {:induction false} CityCount(n: nat)
    ensures |AllCities(n)| == n
  {
    if n > 0 {
      CityCount(n - 1);
      assert AllCities(n) == AllCities(n - 1) + {n - 1};
    }
  }

  /** The cities below n that are in s, in ascending order. */
  function Ascending(n: nat, s: set<nat>): (r: seq<nat>)
    ensures forall c :: c in r <==> c < n && c in s
    ensures forall i :: 0 <= i < |r| ==> r[i] < n
    ensures forall i, j :: 0 <= i < j < |r| ==> r[i] < r[j]
  {
    if n == 0 then []
    else
      var prefix := Ascending(n - 1, s);
      prefix + (if n - 1 in s then [n - 1] else [])
  }

  /** The successor of position k of a closed tour of length m. */
  lemma NextPosition(k: nat, m: nat)
    requires k < m
    ensures (k + 1) % m == if k + 1 < m then k + 1 else 0
  {
  }

  /** The edge leaving position i of the closed tour t. */
  function Edge(inst: Instance, t: seq<nat>, i: nat): int
    requires inst.Valid() && InRange(inst, t) && i < |t|
  {
    inst.Distance(t[i], t[(i + 1) % |t|])
  }

  /** The sum of the first k edges of the closed tour t. */
  function EdgeSum(inst: Instance, t: seq<nat>, k: nat): int
    requires inst.Valid() && InRange(inst, t) && k <= |t|
  {
    if k == 0 then 0 else EdgeSum(inst, t, k - 1) + Edge(inst, t, k - 1)
  }

  /** The cost of the closed tour t: every consecutive edge plus the wrap edge. */
  function TourCost(inst: Instance, t: seq<nat>): int
    requires inst.Valid() && InRange(inst, t)
  {
    EdgeSum(inst, t, |t|)
  }

  /** The cost of the open path s (no wrap edge). */
  function PathCost(inst: Instance, s: seq<nat>): int
    requires inst.Valid() && InRange(inst, s)
  {
    if |s| <= 1 then 0 else inst.Distance(s[0], s[1]) + PathCost(inst, s[1..])
  }

  /** Solver.calculate_cost: the loop that accumulates the tour's edges. */
  method CalculateCost(inst: Instance, tour: seq<nat>) returns (cost: int)
    requires inst.Valid() && InRange(inst, tour)
    ensures cost == TourCost(inst, tour)
  {
    cost := 0;
    for i := 0 to |tour|
      invariant cost == EdgeSum(inst, tour, i)
    {
      cost := cost + inst.Distance(tour[i], tour[(i + 1) % |tour|]);
    }
  }

  lemma TourCostSmall(inst: Instance, t: seq<nat>)
    requires inst.Valid() && InRange(inst, t)
    ensures |t| == 0 ==> TourCost(inst, t) == 0
    ensures |t| == 1 ==> TourCost(inst, t) == inst.Distance(t[0], t[0])
  {
    if |t| == 1 {
      assert EdgeSum(inst, t, 1) == EdgeSum(inst, t, 0) + Edge(inst, t, 0);
      assert (0 + 1) % |t| == 0;
    }
  }

  lemma {:induction false} EdgeSumNonNegative(inst: Instance, t: seq<nat>, k: nat)
    requires inst.Valid() && inst.NonNegative() && InRange(inst, t) && k <= |t|
    ensures EdgeSum(inst, t, k) >= 0
  {
    if k > 0 {
      EdgeSumNonNegative(inst, t, k - 1);
    }
  }

  /** With non-negative distances no tour costs less than 0. */
  lemma TourCostNonNegative(inst: Instance, t: seq<nat>)
    requires inst.Valid() && inst.NonNegative() && InRange(inst, t)
    ensures TourCost(inst, t) >= 0
  {
    EdgeSumNonNegative(inst, t, |t|);
  }

  lemma {:induction false} PathCostNonNegative(inst: Instance, s: seq<nat>)
    requires inst.Valid() && inst.NonNegative() && InRange(inst, s)
    ensures PathCost(inst, s) >= 0
  {
    if |s| > 1 {
      PathCostNonNegative(inst, s[1..]);
    }
  }

  /** Appending a city adds exactly one edge to a path. */
  lemma {:induction false} PathCostSnoc(inst: Instance, s: seq<nat>, x: nat)
    requires inst.Valid() && InRange(inst, s) && x < inst.n && |s| >= 1
    ensures InRange(inst, s + [x])
    ensures PathCost(inst, s + [x]) == PathCost(inst, s) + inst.Distance(s[|s| - 1], x)
  {
    if |s| > 1 {
      assert (s + [x])[1..] == s[1..] + [x];
      PathCostSnoc(inst, s[1..], x);
    }
  }

  /** Joining two paths adds exactly the edge between them. */
  lemma {:induction false} PathCostConcat(inst: Instance, a: seq<nat>, b: seq<nat>)
    requires inst.Valid() && InRange(inst, a) && InRange(inst, b) && |a| >= 1 && |b| >= 1
    ensures InRange(inst, a + b)
    ensures PathCost(inst, a + b)
         == PathCost(inst, a) + inst.Distance(a[|a| - 1], b[0]) + PathCost(inst, b)
  {
    if |a| > 1 {
      assert (a + b)[1..] == a[1..] + b;
      PathCostConcat(inst, a[1..], b);
    }
  }

  /** The smallest distance from `from` to a city of `cands`. */
  function MinDist(inst: Instance, from: nat, cands: seq<nat>): (m: int)
    requires inst.Valid() && from < inst.n && InRange(inst, cands) && |cands| > 0
    ensures exists k :: 0 <= k < |cands| && m == inst.Distance(from, cands[k])
    ensures forall k :: 0 <= k < |cands| ==> m <= inst.Distance(from, cands[k])
  {
    if |cands| == 1 then inst.Distance(from, cands[0])
    else
      var rest := MinDist(inst, from, cands[1..]);
      assert forall k :: 1 <= k < |cands| ==> cands[1..][k - 1] == cands[k];
      if inst.Distance(from, cands[0]) <= rest then inst.Distance(from, cands[0]) else rest
  }

  /** s read backwards. */
  function Reversed(s: seq<nat>): (r: seq<nat>)
    ensures |r| == |s| && forall k :: 0 <= k < |s| ==> r[k] == s[|s| - 1 - k]
  {
    if s == [] then [] else Reversed(s[1..]) + [s[0]]
  }

  lemma {:induction false} ReversedMultiset(s: seq<nat>)
    ensures multiset(Reversed(s)) == multiset(s)
  {
    if s != [] {
      ReversedMultiset(s[1..]);
      assert s == [s[0]] + s[1..];
    }
  }

  /** On a symmetric matrix a path costs the same in both directions. */
  lemma {:induction false} ReversedPathCost(inst: Instance, s: seq<nat>)
    requires inst.Valid() && inst.Symmetric() && InRange(inst, s)
    ensures InRange(inst, Reversed(s))
    ensures PathCost(inst, Reversed(s)) == PathCost(inst, s)
  {
    if |s| > 1 {
      var rest := s[1..];
      ReversedPathCost(inst, rest);
      PathCostSnoc(inst, Reversed(rest), s[0]);
      assert Reversed(rest)[|rest| - 1] == rest[0];
      inst.DistanceFacts(s[0], rest[0]);
    }
  }

  lemma {:induction false} EdgeSumIsPathCost(inst: Instance, t: seq<nat>, k: nat)
    requires inst.Valid() && InRange(inst, t) && k < |t|
    ensures EdgeSum(inst, t, k) == PathCost(inst, t[..k + 1])
  {
    if k > 0 {
      EdgeSumIsPathCost(inst, t, k - 1);
      NextPosition(k - 1, |t|);
      assert Edge(inst, t, k - 1) == inst.Distance(t[..k][k - 1], t[k]);
      assert t[..k + 1] == t[..k] + [t[k]];
      PathCostSnoc(inst, t[..k], t[k]);
    } else {
      assert t[..1] == [t[0]];
    }
  }

  /** A closed tour costs its open path plus the wrap edge back to the first city. */
  lemma TourCostAsPath(inst: Instance, t: seq<nat>)
    requires inst.Valid() && InRange(inst, t) && |t| >= 1
    ensures TourCost(inst, t) == PathCost(inst, t) + inst.Distance(t[|t| - 1], t[0])
  {
    EdgeSumIsPathCost(inst, t, |t| - 1);
    NextPosition(|t| - 1, |t|);
    assert Edge(inst, t, |t| - 1) == inst.Distance(t[|t| - 1], t[0]);
    assert t[..|t|] == t;
  }

  /** With non-negative distances a tour costs at least any of its prefixes as a path. */
  lemma PrefixCostBound(inst: Instance, t: seq<nat>, k: nat)
    requires inst.Valid() && inst.NonNegative() && InRange(inst, t) && 1 <= k <= |t|
    ensures PathCost(inst, t[..k]) <= TourCost(inst, t)
  {
    TourCostAsPath(inst, t);
    if k < |t| {
      assert t == t[..k] + t[k..];
      PathCostConcat(inst, t[..k], t[k..]);
      PathCostNonNegative(inst, t[k..]);
    } else {
      assert t[..k] == t;
    }
  }

  /** Rotating a closed tour does not change its cost. */
  lemma RotationCost(inst: Instance, t: seq<nat>, k: nat)
    requires inst.Valid() && InRange(inst, t) && k < |t|
    ensures InRange(inst, t[k..] + t[..k])
    ensures TourCost(inst, t[k..] + t[..k]) == TourCost(inst, t)
  {
    var r := t[k..] + t[..k];
    TourCostAsPath(inst, t);
    TourCostAsPath(inst, r);
    if k > 0 {
      assert t == t[..k] + t[k..];
      PathCostConcat(inst, t[..k], t[k..]);
      PathCostConcat(inst, t[k..], t[..k]);
    } else {
      assert r == t;
    }
  }

  /** Rotating a tour keeps it a tour. */
  lemma RotationIsTour(t: seq<nat>, n: int, k: nat)
    requires IsTour(t, n) && k < |t|
    ensures IsTour(t[k..] + t[..k], n)
  {
    var r := t[k..] + t[..k];
    forall i, j | 0 <= i < j < |r| ensures r[i] != r[j] {
      var pi := if i < |t| - k then i + k else i - (|t| - k);
      var pj := if j < |t| - k then j + k else j - (|t| - k);
      assert r[i] == t[pi] && r[j] == t[pj] && pi != pj;
    }
  }

  // ---------------------------------------------------------------------------
  // Loading: the pure reshape of the instance file's tokens

  /** A whitespace-separated word of the instance file: an integer or not. */
  datatype Token = Int(value: int) | Word

  /** One non-empty, stripped line of the file, split on whitespace. */
  type Line = seq<Token>

  /** The first line parses as the city count only when it is a single integer. */
  predicate HeaderOk(line: Line) {
    |line| == 1 && line[0].Int?
  }

  predicate LineOk(line: Line) {
    forall k :: 0 <= k < |line| ==> line[k].Int?
  }

  predicate BodyOk(lines: seq<Line>) {
    forall k :: 0 <= k < |lines| ==> LineOk(lines[k])
  }

  function LineValues(line: Line): (r: seq<int>)
    requires LineOk(line)
    ensures |r| == |line| && forall k :: 0 <= k < |r| ==> r[k] == line[k].value
  {
    if line == [] then [] else [line[0].value] + LineValues(line[1..])
  }

  /** The number of tokens on all the lines. */
  function TokenCount(lines: seq<Line>): nat {
    if lines == [] then 0 else TokenCount(lines[..|lines| - 1]) + |lines[|lines| - 1]|
  }

  /** The flat stream of integers of all the lines, in order. */
  function Numbers(lines: seq<Line>): seq<int>
    requires BodyOk(lines)
  {
    if lines == [] then [] else Numbers(lines[..|lines| - 1]) + LineValues(lines[|lines| - 1])
  }

  /**
   * The layout of the stream: it holds every token once, and the m-th value
   * of line k sits right after the tokens of the lines before it.
   */
  lemma {:induction false} NumbersLayout(lines: seq<Line>)
    requires BodyOk(lines)
    ensures |Numbers(lines)| == TokenCount(lines)
    ensures forall k, m :: 0 <= k < |lines| && 0 <= m < |lines[k]| ==>
              ValueAt(Numbers(lines), TokenCount(lines[..k]) + m, lines[k][m].value)
  {
    NumbersLength(lines);
    forall k, m | 0 <= k < |lines| && 0 <= m < |lines[k]|
      ensures ValueAt(Numbers(lines), TokenCount(lines[..k]) + m, lines[k][m].value)
    {
      NumbersAt(lines, k, m);
    }
  }

  /** Position p of the stream s holds v. */
  predicate ValueAt(s: seq<int>, p: int, v: int) {
    0 <= p < |s| && s[p] == v
  }

  lemma {:induction false} NumbersLength(lines: seq<Line>)
    requires BodyOk(lines)
    ensures |Numbers(lines)| == TokenCount(lines)
  {
    if lines != [] {
      NumbersLength(lines[..|lines| - 1]);
    }
  }

  lemma {:induction false} NumbersAt(lines: seq<Line>, k: nat, m: nat)
    requires BodyOk(lines) && k < |lines| && m < |lines[k]|
    ensures TokenCount(lines[..k]) + m < |Numbers(lines)|
    ensures Numbers(lines)[TokenCount(lines[..k]) + m] == lines[k][m].value
  {
    var init, last := lines[..|lines| - 1], lines[|lines| - 1];
    NumbersLength(init);
    if k < |init| {
      NumbersAt(init, k, m);
      assert init[..k] == lines[..k] && init[k] == lines[k];
    } else {
      assert lines[..k] == init;
    }
  }

  /** Python slicing from lo to hi, for lo <= hi: both ends clamp to the length of s. */
  function Slice(s: seq<int>, lo: nat, hi: nat): (r: seq<int>)
    requires lo <= hi
    ensures |r| == if hi <= |s| then hi - lo else if lo <= |s| then |s| - lo else 0
    ensures forall k :: 0 <= k < |r| ==> r[k] == s[lo + k]
  {
    if lo >= |s| then [] else if hi >= |s| then s[lo..] else s[lo..hi]
  }

  /** Row i of the reshaped matrix: the n numbers from position i * n on. */
  function Row(n: nat, numbers: seq<int>, i: nat): seq<int> {
    Slice(numbers, i * n, i * n + n)
  }

  /** Rows 0..k-1 of the reshaped matrix. */
  function Rows(n: nat, numbers: seq<int>, k: nat): (rows: seq<seq<int>>)
    ensures |rows| == k && forall i :: 0 <= i < k ==> rows[i] == Row(n, numbers, i)
  {
    if k == 0 then [] else Rows(n, numbers, k - 1) + [Row(n, numbers, k - 1)]
  }

  /**
   * TSPInstance._load_instance on the file's non-empty lines: the header must
   * be one integer n, the rest is read as one flat stream of integers and cut
   * into n rows of n; a non-integer anywhere gives (0, []). The length check
   * of the source does nothing, so a short stream gives short rows.
   */
  method LoadInstance(lines: seq<Line>) returns (r: Result<Instance>)
    ensures r.Err? <==> |lines| == 0
    ensures r.Err? ==> r.error == NoLines
    ensures |lines| > 0 && !(HeaderOk(lines[0]) && BodyOk(lines[1..])) ==> r == Ok(Instance(0, []))
    ensures |lines| > 0 && HeaderOk(lines[0]) && BodyOk(lines[1..]) ==>
              var n := lines[0][0].value;
              r.Ok? && r.value.n == n &&
              |r.value.matrix| == (if n < 0 then 0 else n) &&
              forall i :: 0 <= i < |r.value.matrix| ==> r.value.matrix[i] == Row(n, Numbers(lines[1..]), i)
  {
    if |lines| == 0 {
      return Err(NoLines);
    }
    if !HeaderOk(lines[0]) {
      return Ok(Instance(0, []));
    }
    var n := lines[0][0].value;
    var allNumbers: seq<int> := [];
    var k := 1;
    while k < |lines|
      invariant 1 <= k <= |lines|
      invariant BodyOk(lines[1..k]) && allNumbers == Numbers(lines[1..k])
    {
      if !LineOk(lines[k]) {
        assert !BodyOk(lines[1..]) by { assert lines[1..][k - 1] == lines[k]; }
        return Ok(Instance(0, []));
      }
      assert lines[1..k + 1][..k - 1] == lines[1..k];
      allNumbers := allNumbers + LineValues(lines[k]);
      k := k + 1;
    }
    assert lines[1..k] == lines[1..];
    var matrix: seq<seq<int>> := [];
    var i := 0;
    while i < n
      invariant 0 <= i && (n >= 0 ==> i <= n) && (n < 0 ==> i == 0)
      invariant matrix == Rows(if n < 0 then 0 else n, allNumbers, i)
    {
      matrix := matrix + [Slice(allNumbers, i * n, (i + 1) * n)];
      i := i + 1;
    }
    return Ok(Instance(n, matrix));
  }

  lemma RowBounds(n: nat, i: nat, j: nat)
    requires i < n && j < n
    ensures i * n + j < i * n + n <= n * n
  {
    assert i * n + n == (i + 1) * n;
    assert (i + 1) * n <= n * n;
  }

  /** When the stream holds exactly n*n integers the reshape is a valid n-by-n instance. */
  lemma ReshapeExact(n: nat, numbers: seq<int>)
    requires |numbers| == n * n
    ensures Instance(n, Rows(n, numbers, n)).Valid()
  {
    forall i | 0 <= i < n ensures |Rows(n, numbers, n)[i]| == n {
      RowEntry(n, numbers, i, 0);
    }
  }

  /** ... and it is read in row-major order: entry (i, j) is the number at i*n + j. */
  lemma ReshapeCell(n: nat, numbers: seq<int>, i: nat, j: nat)
    requires |numbers| == n * n && i < n && j < n
    ensures i * n + j < |numbers| && |Rows(n, numbers, n)[i]| == n
    ensures Rows(n, numbers, n)[i][j] == numbers[i * n + j]
  {
    RowEntry(n, numbers, i, j);
  }

  /** Entry j of row i of an exact stream is the number at i*n + j. */
  lemma RowEntry(n: nat, numbers: seq<int>, i: nat, j: nat)
    requires |numbers| == n * n && i < n && j < n
    ensures i * n + j < |numbers| && |Row(n, numbers, i)| == n
    ensures Row(n, numbers, i)[j] == numbers[i * n + j]
  {
    RowBounds(n, i, j);
  }

  /**
   * The length check is ignored: a header 2 followed by only three numbers is
   * accepted, and the second row comes out with one entry.
   */
  lemma ShortStreamAccepted()
    ensures Rows(2, [1, 2, 3], 2) == [[1, 2], [3]]
    ensures !Instance(2, Rows(2, [1, 2, 3], 2)).Valid()
  {
    assert Row(2, [1, 2, 3], 0) == [1, 2];
    assert Row(2, [1, 2, 3], 1) == [3];
  }

  /**
   * The loader with the length check enforced: a stream that is not exactly
   * n*n integers, or n < 1, is a malformed instance.
   */
  function CheckedReshape(n: int, numbers: seq<int>): (r: Result<Instance>)
    ensures r.Ok? <==> n >= 1 && |numbers| == n * n
    ensures r.Err? ==> r.error == MalformedInstance
    ensures r.Ok? ==> r.value.n == n && r.value.Valid()
    ensures r.Ok? ==> r.value.matrix == Rows(n, numbers, n)
  {
    if n < 1 || |numbers| != n * n then Err(MalformedInstance)
    else
      ReshapeExact(n, numbers);
      Ok(Instance(n, Rows(n, numbers, n)))
  }

  /**
   * The loader with the length check: it accepts exactly a well-formed file
   * whose header n is at least 1 and whose body holds n*n integers, and then
   * returns the row-major n-by-n matrix of those integers.
   */
  function LoadChecked(lines: seq<Line>): (r: Result<Instance>)
    ensures r.Ok? <==> |lines| > 0 && HeaderOk(lines[0]) && BodyOk(lines[1..]) &&
                       lines[0][0].value >= 1 &&
                       |Numbers(lines[1..])| == lines[0][0].value * lines[0][0].value
    ensures r.Ok? ==> r.value.Valid() && r.value.n == lines[0][0].value
    ensures r.Ok? ==> r.value.matrix == Rows(r.value.n, Numbers(lines[1..]), r.value.n)
    ensures |lines| == 0 ==> r == Err(NoLines)
  {
    if |lines| == 0 then Err(NoLines)
    else if !(HeaderOk(lines[0]) && BodyOk(lines[1..])) then Err(MalformedInstance)
    else CheckedReshape(lines[0][0].value, Numbers(lines[1..]))
  }
}
