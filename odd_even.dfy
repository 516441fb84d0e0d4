/** max_odd_even_path: the maximum path under the extra rule that a path may
    only go left onto an odd number and right onto an even number, where the
    parity is that of the accumulated result below, not of the raw number. */
module OddEvenPaths {
  import opened Triangles
  import opened Walks
  import opened Folds
  import opened MaxPaths

  /** C++'s `%` for a positive divisor: the remainder truncates toward zero,
      so it takes the sign of the dividend. */
  function TruncRem(n: int, d: int): int
    requires d > 0
  {
    if n >= 0 then n % d else -((-n) % d)
  }

  /** The `is_even` lambda of max_odd_even_path, with C++'s remainder. */
  function IsEven(n: int): (even: bool)
    ensures even <==> n % 2 == 0
  {
    TruncRem(n, 2) == 0
  }

  /** The C++ test agrees with the Euclidean remainder, for negative n too. */
  lemma IsEvenIffEuclideanEven(n: int)
    ensures IsEven(n) <==> n % 2 == 0
    ensures TruncRem(n, 2) == 0 || TruncRem(n, 2) == 1 || TruncRem(n, 2) == -1
  {
  }

  /** A number plus the greater of the left result (counted only when odd,
      else 0) and the right result (counted only when even, else 0). */
  function OddEvenCombine(v: int, left: int, right: int): (r: int)
    ensures !IsEven(left) ==> r >= v + left
    ensures IsEven(right) ==> r >= v + right
    ensures IsEven(left) || !IsEven(right) ==> r >= v
    ensures r == v || (!IsEven(left) && r == v + left) || (IsEven(right) && r == v + right)
  {
    v + Max(if IsEven(left) then 0 else left, if IsEven(right) then right else 0)
  }

  /** The combine in Euclidean terms: the left result counts only when it is
      odd and the right result only when it is even; a result that fails its
      test contributes 0 instead of being left out of the comparison. */
  lemma OddEvenCombineGates(v: int, left: int, right: int)
    ensures left % 2 == 0 && right % 2 != 0 ==> OddEvenCombine(v, left, right) == v
    ensures left % 2 != 0 && right % 2 == 0 ==> OddEvenCombine(v, left, right) == v + Max(left, right)
    ensures left % 2 != 0 && right % 2 != 0 ==> OddEvenCombine(v, left, right) == v + Max(left, 0)
    ensures left % 2 == 0 && right % 2 == 0 ==> OddEvenCombine(v, left, right) == v + Max(0, right)
  {
  }

  /** The max_odd_even_path value at position i of row r. */
  ghost function OddEvenAt(rows: seq<Row>, r: nat, i: nat): int
    requires Shaped(rows) && r < |rows| && i <= r
  {
    FoldAt(rows, Leaf, OddEvenCombine, r, i)
  }

  /** Every number of the triangle is nonnegative, as in the problem's input. */
  ghost predicate NonNegative(rows: seq<Row>)
  {
    forall k, j :: 0 <= k < |rows| && 0 <= j < |rows[k]| ==> rows[k][j] >= 0
  }

  /** A walk that obeys the rule: a step to the same position (left) lands on
      an odd result, a step one to the right lands on an even result. The walk
      may stop anywhere; IsMaximalGatedWalk adds that it does not. */
  ghost predicate IsGatedWalk(rows: seq<Row>, r: nat, p: seq<nat>)
    requires Shaped(rows) && IsWalk(rows, r, p)
    decreases |p|
  {
    |p| > 1 ==>
      && (if p[1] == p[0] then !IsEven(OddEvenAt(rows, r + 1, p[1])) else IsEven(OddEvenAt(rows, r + 1, p[1])))
      && IsGatedWalk(rows, r + 1, p[1..])
  }

  /** A walk that ends only where it cannot continue: on the bottom row, or
      where the left result below is even and the right one odd. */
  ghost predicate IsMaximalGatedWalk(rows: seq<Row>, r: nat, p: seq<nat>)
    requires Shaped(rows) && IsWalk(rows, r, p)
    decreases |p|
  {
    if |p| == 1 then
      r == |rows| - 1 || (IsEven(OddEvenAt(rows, r + 1, p[0])) && !IsEven(OddEvenAt(rows, r + 1, p[0] + 1)))
    else
      IsMaximalGatedWalk(rows, r + 1, p[1..])
  }

  /** `m` is the greatest sum of a rule-obeying walk from the apex, and some
      rule-obeying walk that stops only where it cannot continue attains it. */
  ghost predicate IsMaxGatedWalkSum(rows: seq<Row>, m: int)
  {
    && Shaped(rows)
    && (forall p :: IsWalk(rows, 0, p) && IsGatedWalk(rows, 0, p) ==> WalkSum(rows, 0, p) <= m)
    && (exists p :: IsWalk(rows, 0, p) && IsGatedWalk(rows, 0, p) && IsMaximalGatedWalk(rows, 0, p) && WalkSum(rows, 0, p) == m)
  }

  /** On nonnegative numbers a result is never below its own number: the
      contribution from below is never negative. */
  lemma {:induction false} OddEvenAtLeastCell(rows: seq<Row>, r: nat, i: nat)
    requires Shaped(rows) && NonNegative(rows) && r < |rows| && i <= r
    ensures OddEvenAt(rows, r, i) >= rows[r][i] >= 0
    decreases |rows| - r
  {
    if r < |rows| - 1 {
      OddEvenAtLeastCell(rows, r + 1, i);
      OddEvenAtLeastCell(rows, r + 1, i + 1);
    }
  }

  /** No rule-obeying walk from position p[0] of row r sums to more than the
      result there. */
  lemma {:induction false} GatedWalkAtMostOddEvenAt(rows: seq<Row>, r: nat, p: seq<nat>)
    requires Shaped(rows) && NonNegative(rows) && IsWalk(rows, r, p) && IsGatedWalk(rows, r, p)
    ensures WalkSum(rows, r, p) <= OddEvenAt(rows, r, p[0])
    decreases |p|
  {
    if r < |rows| - 1 {
      OddEvenAtLeastCell(rows, r + 1, p[0]);
      OddEvenAtLeastCell(rows, r + 1, p[0] + 1);
    }
    if |p| > 1 {
      GatedWalkAtMostOddEvenAt(rows, r + 1, p[1..]);
    }
  }

  /** A rule-obeying walk from position i of row r that attains the result
      there: it takes the better permitted step, and stops when neither step
      is permitted. */
  ghost function BestGatedWalk(rows: seq<Row>, r: nat, i: nat): (p: seq<nat>)
    requires Shaped(rows) && NonNegative(rows) && r < |rows| && i <= r
    ensures IsWalk(rows, r, p) && IsGatedWalk(rows, r, p) && p[0] == i
    ensures IsMaximalGatedWalk(rows, r, p)
    ensures WalkSum(rows, r, p) == OddEvenAt(rows, r, i)
    decreases |rows| - r
  {
    if r == |rows| - 1 then [i]
    else
      var left := OddEvenAt(rows, r + 1, i);
      var right := OddEvenAt(rows, r + 1, i + 1);
      OddEvenAtLeastCell(rows, r + 1, i);
      OddEvenAtLeastCell(rows, r + 1, i + 1);
      if !IsEven(left) && (!IsEven(right) || right <= left) then [i] + BestGatedWalk(rows, r + 1, i)
      else if IsEven(right) then [i] + BestGatedWalk(rows, r + 1, i + 1)
      else [i]
  }

  /** The fold with Leaf and OddEvenCombine is the greatest sum of a
      rule-obeying walk from the apex, on nonnegative numbers. */
  lemma OddEvenFoldIsMaxGatedWalkSum(rows: seq<Row>)
    requires Shaped(rows) && NonNegative(rows) && |rows| > 0
    ensures Fold(rows, Leaf, OddEvenCombine).Success?
    ensures IsMaxGatedWalkSum(rows, Fold(rows, Leaf, OddEvenCombine).value)
  {
    forall p | IsWalk(rows, 0, p) && IsGatedWalk(rows, 0, p)
      ensures WalkSum(rows, 0, p) <= OddEvenAt(rows, 0, 0)
    {
      GatedWalkAtMostOddEvenAt(rows, 0, p);
    }
    var best := BestGatedWalk(rows, 0, 0);
    assert IsWalk(rows, 0, best) && IsGatedWalk(rows, 0, best) && IsMaximalGatedWalk(rows, 0, best);
    assert WalkSum(rows, 0, best) == OddEvenAt(rows, 0, 0);
  }

  /** The extra rule never raises the answer: on nonnegative numbers every
      result is at most the max_path result at the same position. */
  lemma {:induction false} OddEvenAtMostMaxAt(rows: seq<Row>, r: nat, i: nat)
    requires Shaped(rows) && NonNegative(rows) && r < |rows| && i <= r
    ensures OddEvenAt(rows, r, i) <= MaxAt(rows, r, i)
    decreases |rows| - r
  {
    if r < |rows| - 1 {
      OddEvenAtMostMaxAt(rows, r + 1, i);
      OddEvenAtMostMaxAt(rows, r + 1, i + 1);
      OddEvenAtLeastCell(rows, r + 1, i);
      OddEvenAtLeastCell(rows, r + 1, i + 1);
    }
  }

  /** max_odd_even_path: fails with EmptyTriangle on the empty triangle;
      otherwise returns the fold with the parity-gated combine, which on
      nonnegative numbers is the greatest rule-obeying walk sum and is at most
      the max_path answer. */
  method MaxOddEvenPath(t: Triangle) returns (res: Result<int>)
    requires t.Valid()
    ensures res == Fold(t.rows, Leaf, OddEvenCombine)
    ensures res.Failure? <==> t.Height() == 0
    ensures res.Failure? ==> res.error == EmptyTriangle
    ensures res.Success? && NonNegative(t.rows) ==> IsMaxGatedWalkSum(t.rows, res.value)
    ensures res.Success? && NonNegative(t.rows) ==> res.value <= Fold(t.rows, Leaf, MaxCombine).value
  {
    ghost var calls;
    res, calls := FoldTriangle(t, Leaf, OddEvenCombine);
    if t.Height() > 0 && NonNegative(t.rows) {
      OddEvenFoldIsMaxGatedWalkSum(t.rows);
      OddEvenAtMostMaxAt(t.rows, 0, 0);
    }
  }

  /** Below the apex of [[5], [2, 3]] the left result 2 is even and the right
      result 3 is odd, so neither counts and the answer is the apex alone. */
  lemma OddEvenBlockedExample()
    ensures Shaped([[5], [2, 3]])
    ensures Fold([[5], [2, 3]], Leaf, OddEvenCombine) == Success(5)
    ensures Fold([[5], [2, 3]], Leaf, MaxCombine) == Success(8)
  {
  }
}
