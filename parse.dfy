/** parse_triangle, over lines that are already split into their integers. */
module Parser {
  import opened Triangles

  /** Builds a triangle by appending line k as row k. It fails with
      InvalidShape exactly when some line's value count differs from its
      1-based line number; otherwise the triangle's rows are the lines. */
  method ParseTriangle(lines: seq<seq<int>>) returns (res: Result<Triangle>)
    ensures res.Success? <==> Shaped(lines)
    ensures res.Failure? ==> res.error == InvalidShape
    ensures res.Success? ==> fresh(res.value) && res.value.Valid()
    ensures res.Success? ==> res.value.Height() == |lines| && res.value.rows == lines
  {
    var triangle := new Triangle();
    var k := 0;
    while k < |lines|
      invariant 0 <= k <= |lines|
      invariant triangle.Valid() && triangle.rows == lines[..k]
    {
      var o := triangle.AppendRow(lines[k]);
      if o.Fail? {
        return Failure(o.error);
      }
      k := k + 1;
    }
    assert lines[..k] == lines;
    res := Success(triangle);
  }
}
