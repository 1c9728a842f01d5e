/**
 A skeleton image is a rectangular grid of integer samples, indexed as
 `g[y][x]` (row-major, as numpy indexes `skel[y, x]`). The pipeline only ever
 reads it, so a grid is an immutable sequence of rows.
 */
module Raster {

  type Grid = seq<seq<int>>

  /** A pixel position: column x, row y. */
  datatype Point = Point(x: int, y: int)

  function Min(a: int, b: int): int {
    if a <= b then a else b
  }

  function Max(a: int, b: int): int {
    if a >= b then a else b
  }

  /** A 3x3 neighbourhood: three rows of three samples. */
  predicate IsPatch(p: seq<seq<int>>) {
    |p| == 3 && |p[0]| == 3 && |p[1]| == 3 && |p[2]| == 3
  }

  /** Width of a grid (the length of its first row; 0 for a grid without rows). */
  function Width(g: Grid): nat {
    if |g| == 0 then 0 else |g[0]|
  }

  /** Every row has the same length, as in a 2-D array. */
  predicate IsGrid(g: Grid) {
    forall y :: 0 <= y < |g| ==> |g[y]| == Width(g)
  }

  /** (x, y) lies inside the grid and not on its border, so it has a full 3x3 neighbourhood. */
  predicate Interior(g: Grid, x: int, y: int) {
    0 < y < |g| - 1 && 0 < x < Width(g) - 1
  }

  /** The neighbourhood `g[y-1:y+2, x-1:x+2]` of an interior pixel. */
  function Window(g: Grid, x: int, y: int): (p: seq<seq<int>>)
    requires IsGrid(g) && Interior(g, x, y)
    ensures IsPatch(p)
    ensures p[1][1] == g[y][x]
    ensures forall i, j :: 0 <= i < 3 && 0 <= j < 3 ==> p[i][j] == g[y - 1 + i][x - 1 + j]
  {
    [g[y - 1][x - 1..x + 2], g[y][x - 1..x + 2], g[y + 1][x - 1..x + 2]]
  }

  /** One sample after the final clean-up of the skeletoniser: any positive value becomes 255. */
  function NormaliseSample(v: int): int {
    if v > 0 then 255 else v
  }

  /** The grid after `skel[skel > 0] = 255`. */
  function Normalise(g: Grid): (r: Grid)
    ensures |r| == |g|
    ensures forall y :: 0 <= y < |g| ==> |r[y]| == |g[y]|
    ensures forall y, x :: 0 <= y < |g| && 0 <= x < |g[y]| ==> r[y][x] == NormaliseSample(g[y][x])
  {
    seq(|g|, y requires 0 <= y < |g| => seq(|g[y]|, x requires 0 <= x < |g[y]| => NormaliseSample(g[y][x])))
  }

  /** A grid of 8-bit samples, as produced by image decoding and thinning. */
  predicate IsByteGrid(g: Grid) {
    forall y, x :: 0 <= y < |g| && 0 <= x < |g[y]| ==> 0 <= g[y][x] <= 255
  }

  /** A binary skeleton: every sample is 0 or 255. */
  predicate IsBinary(g: Grid) {
    forall y, x :: 0 <= y < |g| && 0 <= x < |g[y]| ==> g[y][x] == 0 || g[y][x] == 255
  }

  /**
   On 8-bit input the clean-up yields a binary grid of the same shape in which a
   sample is 255 exactly when it was non-zero, and applying it again changes nothing.
   */
  lemma NormaliseIsBinary(g: Grid)
    requires IsByteGrid(g)
    ensures IsBinary(Normalise(g))
    ensures IsGrid(g) ==> IsGrid(Normalise(g)) && Width(Normalise(g)) == Width(g)
    ensures forall y, x :: 0 <= y < |g| && 0 <= x < |g[y]| ==> (Normalise(g)[y][x] == 255 <==> g[y][x] != 0)
    ensures Normalise(Normalise(g)) == Normalise(g)
  {
    var r := Normalise(g);
    var rr := Normalise(r);
    assert |rr| == |r|;
    forall y | 0 <= y < |r|
      ensures rr[y] == r[y]
    {
      assert |rr[y]| == |r[y]|;
    }
  }
}
