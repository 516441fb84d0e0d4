/** The number triangle of Project Euler Problem 67: row i holds exactly i + 1
    integers, and each number is adjacent to the two numbers below it. */
module Triangles {

  type Row = seq<int>

  /** The two std::invalid_argument failures of the program. */
  datatype Error = InvalidShape | EmptyTriangle

  /** A value, or the failure that was thrown instead of returning it. */
  datatype Result<T> = Success(value: T) | Failure(error: Error)

  /** The outcome of an operation that returns nothing when it succeeds. */
  datatype Outcome = Pass | Fail(error: Error)

  /** The class invariant of Triangle: row i has length i + 1. */
  ghost predicate Shaped(rows: seq<Row>)
  {
    forall i :: 0 <= i < |rows| ==> |rows[i]| == i + 1
  }

  /** The bounds under which `at(r, n)` names an element: a row that exists
      and a position inside it. */
  ghost predicate AtBounds(height: nat, r: nat, n: nat)
  {
    r < height && n <= r
  }

  /** The bounds `at(r, n)` documents for its callers, `r < height()` and
      `n <= r + 1`. */
  ghost predicate DocumentedAtBounds(height: nat, r: nat, n: nat)
  {
    r < height && n <= r + 1
  }

  /** In a well-shaped triangle, AtBounds admits exactly the positions that
      exist. */
  lemma AtBoundsExact(rows: seq<Row>, r: nat, n: nat)
    requires Shaped(rows)
    ensures AtBounds(|rows|, r, n) <==> r < |rows| && n < |rows[r]|
  {
  }

  /** The documented bounds admit a position one past the end of every row:
      `at(r, r + 1)` meets them, but row r has only r + 1 elements. */
  lemma DocumentedAtBoundsOverrun(rows: seq<Row>, r: nat)
    requires Shaped(rows) && r < |rows|
    ensures DocumentedAtBounds(|rows|, r, r + 1) && !AtBounds(|rows|, r, r + 1)
    ensures r + 1 == |rows[r]|
  {
  }

  /** A triangle that grows one validated row at a time. Its rows never change
      length; only single elements may be overwritten. */
  class Triangle {
    var rows: seq<Row>

    ghost predicate Valid()
      reads this
    {
      Shaped(rows)
    }

    /** The empty triangle. */
    constructor ()
      ensures Valid() && rows == []
    {
      rows := [];
    }

    /** The number of rows; with the invariant, also the size of the bottom
        row. */
    function Height(): (h: nat)
      reads this
      ensures h == |rows|
      ensures Valid() && h > 0 ==> |rows[h - 1]| == h
    {
      |rows|
    }

    /** The size of the bottom row, which the invariant makes the height. */
    function Width(): (w: nat)
      reads this
      requires Valid()
      ensures w == Height()
      ensures w > 0 ==> |rows[w - 1]| == w
      ensures forall i :: 0 <= i < Height() ==> |rows[i]| <= w
    {
      Height()
    }

    /** The n'th value of the r'th row, for a position that exists. */
    function At(r: nat, n: nat): (v: int)
      reads this
      requires Valid() && AtBounds(Height(), r, n)
      ensures r < |rows| && n < |rows[r]| && v == rows[r][n]
    {
      rows[r][n]
    }

    /** Writing through the reference `at(r, n)` returns: one element changes,
        no row changes length. */
    method SetAt(r: nat, n: nat, v: int)
      requires Valid() && AtBounds(Height(), r, n)
      modifies this
      ensures Valid() && Height() == old(Height()) && Width() == old(Width())
      ensures forall i :: 0 <= i < |rows| ==> |rows[i]| == |old(rows)[i]|
      ensures At(r, n) == v
      ensures rows == old(rows)[r := old(rows)[r][n := v]]
    {
      rows := rows[r := rows[r][n := v]];
    }

    /** Appends `row` when its length is the current height plus one;
        otherwise fails with InvalidShape and leaves the triangle as it was. */
    method AppendRow(row: Row) returns (o: Outcome)
      requires Valid()
      modifies this
      ensures Valid()
      ensures o.Pass? <==> |row| == old(Height()) + 1
      ensures o.Fail? ==> o.error == InvalidShape && rows == old(rows)
      ensures o.Pass? ==> Height() == old(Height()) + 1 && rows == old(rows) + [row]
    {
      if |row| != Height() + 1 {
        return Fail(InvalidShape);
      }
      rows := rows + [row];
      o := Pass;
    }
  }
}
