/** max_path: the answer to Project Euler Problem 67, the greatest sum of the
    numbers on a walk from the apex to the bottom row. */
module MaxPaths {
  import opened Triangles
  import opened Walks
  import opened Folds

  /** A bottom-row number is its own result. */
  function Leaf(v: int): (r: int)
    ensures r == v
  {
    v
  }

  function Max(a: int, b: int): int
  {
    if a < b then b else a
  }

  /** A number plus the greater of the two results below it. */
  function MaxCombine(v: int, left: int, right: int): (r: int)
    ensures r >= v + left && r >= v + right
    ensures r == v + left || r == v + right
  {
    v + Max(left, right)
  }

  /** The max_path value at position i of row r. */
  ghost function MaxAt(rows: seq<Row>, r: nat, i: nat): int
    requires Shaped(rows) && r < |rows| && i <= r
  {
    FoldAt(rows, Leaf, MaxCombine, r, i)
  }

  /** `m` is the greatest sum of a descent from the apex: no descent sums to
      more, and some descent sums to exactly m. */
  ghost predicate IsMaxDescentSum(rows: seq<Row>, m: int)
  {
    && Shaped(rows)
    && (forall p :: IsDescent(rows, 0, p) ==> WalkSum(rows, 0, p) <= m)
    && (exists p :: IsDescent(rows, 0, p) && WalkSum(rows, 0, p) == m)
  }

  /** No descent from position p[0] of row r sums to more than the max_path
      value there. */
  lemma {:induction false} DescentAtMostMaxAt(rows: seq<Row>, r: nat, p: seq<nat>)
    requires Shaped(rows) && IsDescent(rows, r, p)
    ensures WalkSum(rows, r, p) <= MaxAt(rows, r, p[0])
    decreases |p|
  {
    if |p| > 1 {
      DescentAtMostMaxAt(rows, r + 1, p[1..]);
    }
  }

  /** A descent from position i of row r that attains the max_path value
      there: it always steps towards the greater result below. */
  ghost function BestDescent(rows: seq<Row>, r: nat, i: nat): (p: seq<nat>)
    requires Shaped(rows) && r < |rows| && i <= r
    ensures IsDescent(rows, r, p) && p[0] == i
    ensures WalkSum(rows, r, p) == MaxAt(rows, r, i)
    decreases |rows| - r
  {
    if r == |rows| - 1 then [i]
    else if MaxAt(rows, r + 1, i + 1) <= MaxAt(rows, r + 1, i) then [i] + BestDescent(rows, r + 1, i)
    else [i] + BestDescent(rows, r + 1, i + 1)
  }

  /** The fold with Leaf and MaxCombine is the greatest descent sum. */
  lemma MaxFoldIsMaxDescentSum(rows: seq<Row>)
    requires Shaped(rows) && |rows| > 0
    ensures Fold(rows, Leaf, MaxCombine).Success?
    ensures IsMaxDescentSum(rows, Fold(rows, Leaf, MaxCombine).value)
  {
    forall p | IsDescent(rows, 0, p)
      ensures WalkSum(rows, 0, p) <= MaxAt(rows, 0, 0)
    {
      DescentAtMostMaxAt(rows, 0, p);
    }
    var best := BestDescent(rows, 0, 0);
    assert IsDescent(rows, 0, best) && WalkSum(rows, 0, best) == MaxAt(rows, 0, 0);
  }

  /** max_path: fails with EmptyTriangle on the empty triangle, and otherwise
      returns the greatest sum over all descents from the apex. */
  method MaxPath(t: Triangle) returns (res: Result<int>)
    requires t.Valid()
    ensures res == Fold(t.rows, Leaf, MaxCombine)
    ensures res.Failure? <==> t.Height() == 0
    ensures res.Failure? ==> res.error == EmptyTriangle
    ensures res.Success? ==> IsMaxDescentSum(t.rows, res.value)
  {
    ghost var calls;
    res, calls := FoldTriangle(t, Leaf, MaxCombine);
    if t.Height() > 0 {
      MaxFoldIsMaxDescentSum(t.rows);
    }
  }

  /** A one-row triangle's max_path is its single value. */
  lemma MaxPathSingleRow(v: int)
    ensures Shaped([[v]])
    ensures Fold([[v]], Leaf, MaxCombine) == Success(v)
  {
  }

  /** The four-row triangle of the problem statement: 3 + 7 + 4 + 9 = 23. */
  lemma MaxPathExample()
    ensures Shaped([[3], [7, 4], [2, 4, 6], [8, 5, 9, 3]])
    ensures Fold([[3], [7, 4], [2, 4, 6], [8, 5, 9, 3]], Leaf, MaxCombine) == Success(23)
  {
  }
}
