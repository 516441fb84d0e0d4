/** Walks down a triangle: from a number, each step moves to one of the two
    numbers adjacent to it in the row below. */
module Walks {
  import opened Triangles

  /** `p` is a walk that starts in row r: p[k] is the position visited in row
      r + k, it starts inside row r, and each step keeps the position or moves
      it one to the right. */
  ghost predicate IsWalk(rows: seq<Row>, r: nat, p: seq<nat>)
    decreases |p|
  {
    && 0 < |p|
    && r + |p| <= |rows|
    && p[0] <= r
    && (|p| > 1 ==> (p[1] == p[0] || p[1] == p[0] + 1) && IsWalk(rows, r + 1, p[1..]))
  }

  /** A walk that goes all the way down to the bottom row. */
  ghost predicate IsDescent(rows: seq<Row>, r: nat, p: seq<nat>)
  {
    IsWalk(rows, r, p) && r + |p| == |rows|
  }

  /** The sum of the numbers a walk visits. */
  ghost function WalkSum(rows: seq<Row>, r: nat, p: seq<nat>): int
    requires Shaped(rows) && IsWalk(rows, r, p)
    decreases |p|
  {
    rows[r][p[0]] + if |p| == 1 then 0 else WalkSum(rows, r + 1, p[1..])
  }
}
