/** The generic bottom-up reduction of a triangle, fold_triangle<T>. */
module Folds {
  import opened Triangles

  /** The value the fold assigns to position i of row r: `make` on the bottom
      row, and above it `combine` of the number with the two values below. */
  function FoldAt<T>(rows: seq<Row>, make: int -> T, combine: (int, T, T) -> T, r: nat, i: nat): T
    requires Shaped(rows) && r < |rows| && i <= r
    decreases |rows| - r
  {
    if r == |rows| - 1 then make(rows[r][i])
    else combine(rows[r][i], FoldAt(rows, make, combine, r + 1, i), FoldAt(rows, make, combine, r + 1, i + 1))
  }

  /** The reduction of a whole triangle: the value at the apex, or
      EmptyTriangle when there is no row. */
  function Fold<T>(rows: seq<Row>, make: int -> T, combine: (int, T, T) -> T): Result<T>
    requires Shaped(rows)
  {
    if |rows| == 0 then Failure(EmptyTriangle) else Success(FoldAt(rows, make, combine, 0, 0))
  }

  /** Folding fails exactly on the empty triangle. */
  lemma FoldFailsOnlyWhenEmpty<T>(rows: seq<Row>, make: int -> T, combine: (int, T, T) -> T)
    requires Shaped(rows)
    ensures Fold(rows, make, combine).Failure? <==> |rows| == 0
    ensures Fold(rows, make, combine).Failure? ==> Fold(rows, make, combine).error == EmptyTriangle
  {
  }

  /** On a one-row triangle the fold is `make` of the single value, whatever
      `combine` is. */
  lemma FoldSingleRow<T>(v: int, make: int -> T, combine: (int, T, T) -> T)
    ensures Shaped([[v]])
    ensures Fold([[v]], make, combine) == Success(make(v))
  {
  }

  /** The number of values in a sequence of rows. */
  ghost function CellCount(rows: seq<Row>): nat
  {
    if rows == [] then 0 else |rows[0]| + CellCount(rows[1..])
  }

  /** fold_triangle: fills an accumulator with `make` over the bottom row, then
      overwrites it in place row by row upwards; after row r, positions 0..r
      hold that row's fold values and positions past r are stale and never read
      again. The triangle is only read. `combineCalls` counts the calls of
      `combine`: one per number above the bottom row. */
  method FoldTriangle<T>(t: Triangle, make: int -> T, combine: (int, T, T) -> T)
    returns (res: Result<T>, ghost combineCalls: nat)
    requires t.Valid()
    ensures res == Fold(t.rows, make, combine)
    ensures t.Height() > 0 ==> combineCalls == CellCount(t.rows[..t.Height() - 1])
  {
    combineCalls := 0;
    if t.Height() == 0 {
      return Failure(EmptyTriangle), 0;
    }
    var rows := t.rows;
    var h := |rows|;
    var bottom := rows[h - 1];
    var accum := new T[|bottom|](j requires 0 <= j < |bottom| => make(bottom[j]));
    var r := h - 1;
    while r != 0
      invariant 0 <= r < h && accum.Length == h
      invariant forall j :: 0 <= j <= r ==> accum[j] == FoldAt(rows, make, combine, r, j)
      invariant combineCalls == CellCount(rows[r..h - 1])
      decreases r
    {
      r := r - 1;
      var row := rows[r];
      for i := 0 to |row|
        invariant forall j :: 0 <= j < i ==> accum[j] == FoldAt(rows, make, combine, r, j)
        invariant forall j :: i <= j <= r + 1 ==> accum[j] == FoldAt(rows, make, combine, r + 1, j)
        invariant combineCalls == CellCount(rows[r + 1..h - 1]) + i
      {
        accum[i] := combine(row[i], accum[i], accum[i + 1]);
        combineCalls := combineCalls + 1;
      }
      assert rows[r..h - 1][1..] == rows[r + 1..h - 1];
    }
    assert rows[..h - 1] == rows[0..h - 1];
    res := Success(accum[0]);
  }
}
