/**
 The two passes of `detect_corners`.

 The sparse pass filters the candidate list returned by the strong-feature
 selector (an arbitrary list of integer positions here); the exhaustive pass
 scans every interior pixel in row-major order and appends endpoints and
 T-junctions that are not close, per axis, to any point already accepted.
 */
module Detector {
  import opened Raster
  import opened Classifier

  function Abs(v: int): nat {
    if v < 0 then -v else v
  }

  /** A candidate position survives the sparse pass: it is interior and its window is classified. */
  predicate KeepsCandidate(skel: Grid, c: Point)
    requires IsGrid(skel)
  {
    Interior(skel, c.x, c.y) && Classify(Window(skel, c.x, c.y)) != Unclassified
  }

  /** `a` is obtained from `b` by deleting elements, without reordering the rest. */
  predicate IsSubsequence<T(==)>(a: seq<T>, b: seq<T>)
    decreases |b|
  {
    if a == [] then true
    else if b == [] then false
    else (a[0] == b[0] && IsSubsequence(a[1..], b[1..])) || IsSubsequence(a, b[1..])
  }

  /** The sparse pass: keep, in order, the candidates that are interior and not 'none'. */
  function SparsePass(skel: Grid, candidates: seq<Point>): (kept: seq<Point>)
    requires IsGrid(skel)
    ensures IsSubsequence(kept, candidates)
    ensures forall p :: multiset(kept)[p] == (if KeepsCandidate(skel, p) then multiset(candidates)[p] else 0)
    ensures forall p :: p in kept <==> p in candidates && KeepsCandidate(skel, p)
    decreases |candidates|
  {
    if candidates == [] then []
    else
      var rest := SparsePass(skel, candidates[1..]);
      assert candidates == [candidates[0]] + candidates[1..];
      if KeepsCandidate(skel, candidates[0]) then [candidates[0]] + rest else rest
  }

  /** p and q are closer than d along both axes (the source's duplicate test; not a Euclidean distance). */
  predicate Close(p: Point, q: Point, d: int) {
    Abs(p.x - q.x) < d && Abs(p.y - q.y) < d
  }

  /** q is not close to any of the accepted points. */
  predicate FarFromAll(accepted: seq<Point>, q: Point, d: int) {
    forall i :: 0 <= i < |accepted| ==> !Close(accepted[i], q, d)
  }

  /** A pixel the exhaustive pass is looking for: interior, exactly 255, an endpoint or a T-junction. */
  predicate Qualifies(skel: Grid, p: Point)
    requires IsGrid(skel)
  {
    && Interior(skel, p.x, p.y)
    && skel[p.y][p.x] == 255
    && Classify(Window(skel, p.x, p.y)) in {Endpoint, TJunction}
  }

  /** p comes strictly before q in a row-major scan. */
  predicate ScanBefore(p: Point, q: Point) {
    p.y < q.y || (p.y == q.y && p.x < q.x)
  }

  /**
   Accepted point i accounts for pixel q: either q itself was appended as
   point i, or point i is close to q and was already in the list when the scan
   reached q (a point of the sparse pass, or one appended at an earlier pixel).
   */
  predicate AccountsFor(sparse: seq<Point>, accepted: seq<Point>, i: int, q: Point, d: int)
    requires 0 <= i < |accepted|
  {
    || (|sparse| <= i && accepted[i] == q)
    || (Close(accepted[i], q, d) && (i < |sparse| || ScanBefore(accepted[i], q)))
  }

  /** Some accepted point accounts for q. */
  predicate Accounted(sparse: seq<Point>, accepted: seq<Point>, q: Point, d: int) {
    exists i :: 0 <= i < |accepted| && AccountsFor(sparse, accepted, i, q, d)
  }

  lemma AccountedGrows(sparse: seq<Point>, accepted: seq<Point>, extra: Point, q: Point, d: int)
    requires Accounted(sparse, accepted, q, d)
    ensures Accounted(sparse, accepted + [extra], q, d)
  {
    var i :| 0 <= i < |accepted| && AccountsFor(sparse, accepted, i, q, d);
    assert (accepted + [extra])[i] == accepted[i];
    assert AccountsFor(sparse, accepted + [extra], i, q, d);
  }

  /** The points after `sparse` were appended in row-major order, each qualifying and far from all before it. */
  predicate AppendedWell(skel: Grid, sparse: seq<Point>, accepted: seq<Point>, d: int)
    requires IsGrid(skel)
  {
    && |sparse| <= |accepted| && accepted[..|sparse|] == sparse
    && (forall i :: |sparse| <= i < |accepted| ==> Qualifies(skel, accepted[i]))
    && (forall i :: |sparse| <= i < |accepted| ==> FarFromAll(accepted[..i], accepted[i], d))
    && (forall i, j :: |sparse| <= i < j < |accepted| ==> ScanBefore(accepted[i], accepted[j]))
  }

  /** Every appended point precedes the scan position q. */
  predicate AppendedBefore(sparse: seq<Point>, accepted: seq<Point>, q: Point) {
    forall i :: |sparse| <= i < |accepted| ==> ScanBefore(accepted[i], q)
  }

  /** Every qualifying pixel that precedes the scan position q is accounted for. */
  ghost predicate AccountedBefore(skel: Grid, sparse: seq<Point>, accepted: seq<Point>, q: Point, d: int)
    requires IsGrid(skel)
  {
    forall qx, qy :: ScanBefore(Point(qx, qy), q) && Qualifies(skel, Point(qx, qy)) ==>
      Accounted(sparse, accepted, Point(qx, qy), d)
  }

  /** One step of the scan at an interior pixel p: append p when it is a far endpoint or T-junction. */
  function Visit(skel: Grid, accepted: seq<Point>, p: Point, d: int): seq<Point>
    requires IsGrid(skel) && Interior(skel, p.x, p.y)
  {
    if skel[p.y][p.x] == 255 then
      var pointType := Classify(Window(skel, p.x, p.y));
      if (pointType == Endpoint || pointType == TJunction) && FarFromAll(accepted, p, d) then accepted + [p]
      else accepted
    else accepted
  }

  lemma AppendKeepsWell(skel: Grid, sparse: seq<Point>, accepted: seq<Point>, p: Point, d: int)
    requires IsGrid(skel)
    requires AppendedWell(skel, sparse, accepted, d)
    requires AppendedBefore(sparse, accepted, p)
    requires Qualifies(skel, p) && FarFromAll(accepted, p, d)
    ensures AppendedWell(skel, sparse, accepted + [p], d)
  {
    var next := accepted + [p];
    assert next[..|accepted|] == accepted;
    assert next[..|sparse|] == sparse;
    forall i | |sparse| <= i < |next|
      ensures Qualifies(skel, next[i]) && FarFromAll(next[..i], next[i], d)
    {
      if i < |accepted| {
        assert next[..i] == accepted[..i];
      }
    }
  }

  lemma VisitKeepsInvariant(skel: Grid, sparse: seq<Point>, accepted: seq<Point>, p: Point, d: int)
    requires IsGrid(skel) && Interior(skel, p.x, p.y)
    requires AppendedWell(skel, sparse, accepted, d)
    requires AppendedBefore(sparse, accepted, p)
    requires AccountedBefore(skel, sparse, accepted, p, d)
    ensures var next := Visit(skel, accepted, p, d);
      && AppendedWell(skel, sparse, next, d)
      && AppendedBefore(sparse, next, Point(p.x + 1, p.y))
      && AccountedBefore(skel, sparse, next, Point(p.x + 1, p.y), d)
  {
    var next := Visit(skel, accepted, p, d);
    if next != accepted {
      assert next == accepted + [p];
      assert Qualifies(skel, p) && FarFromAll(accepted, p, d);
      AppendKeepsWell(skel, sparse, accepted, p, d);
      assert AccountsFor(sparse, next, |accepted|, p, d);
      forall qx, qy | ScanBefore(Point(qx, qy), Point(p.x + 1, p.y)) && Qualifies(skel, Point(qx, qy))
        ensures Accounted(sparse, next, Point(qx, qy), d)
      {
        if Point(qx, qy) != p {
          AccountedGrows(sparse, accepted, p, Point(qx, qy), d);
        }
      }
    } else {
      forall qx, qy | ScanBefore(Point(qx, qy), Point(p.x + 1, p.y)) && Qualifies(skel, Point(qx, qy))
        ensures Accounted(sparse, next, Point(qx, qy), d)
      {
        if Point(qx, qy) == p {
          // p was not appended, so an accepted point is close to it; it came
          // from the sparse pass or was appended earlier in the scan.
          assert !FarFromAll(accepted, p, d);
          var i :| 0 <= i < |accepted| && Close(accepted[i], p, d);
          assert AccountsFor(sparse, accepted, i, p, d);
        }
      }
    }
  }

  /**
   The exhaustive pass. It keeps `sparse` as a prefix; every point it appends
   qualifies, is far (per axis) from every point accepted before it, and comes
   later in the row-major scan than the previously appended ones; and every
   qualifying pixel is either appended or suppressed by a close point that was
   accepted before the scan reached it.
   */
  method ExhaustivePass(skel: Grid, minDistance: int, sparse: seq<Point>) returns (accepted: seq<Point>)
    requires IsGrid(skel)
    ensures |sparse| <= |accepted| && accepted[..|sparse|] == sparse
    ensures forall i :: |sparse| <= i < |accepted| ==> Qualifies(skel, accepted[i])
    ensures forall i :: |sparse| <= i < |accepted| ==> FarFromAll(accepted[..i], accepted[i], minDistance)
    ensures forall i, j :: |sparse| <= i < j < |accepted| ==> ScanBefore(accepted[i], accepted[j])
    ensures forall x, y :: Qualifies(skel, Point(x, y)) ==> Accounted(sparse, accepted, Point(x, y), minDistance)
  {
    var height: int, width: int := |skel|, Width(skel);
    accepted := sparse;
    var y := 1;
    while y < height - 1
      invariant 1 <= y
      invariant AppendedWell(skel, sparse, accepted, minDistance)
      invariant AppendedBefore(sparse, accepted, Point(1, y))
      invariant AccountedBefore(skel, sparse, accepted, Point(1, y), minDistance)
    {
      var x := 1;
      while x < width - 1
        invariant 1 <= x
        invariant AppendedWell(skel, sparse, accepted, minDistance)
        invariant AppendedBefore(sparse, accepted, Point(x, y))
        invariant AccountedBefore(skel, sparse, accepted, Point(x, y), minDistance)
      {
        VisitKeepsInvariant(skel, sparse, accepted, Point(x, y), minDistance);
        accepted := Visit(skel, accepted, Point(x, y), minDistance);
        x := x + 1;
      }
      assert forall qx, qy :: ScanBefore(Point(qx, qy), Point(1, y + 1)) && Qualifies(skel, Point(qx, qy)) ==>
        ScanBefore(Point(qx, qy), Point(x, y));
      y := y + 1;
    }
    assert forall qx, qy :: Qualifies(skel, Point(qx, qy)) ==> ScanBefore(Point(qx, qy), Point(1, y));
  }

  /**
   `detect_corners`: the sparse pass over the selector's candidates followed by
   the exhaustive pass, which appends to the sparse pass's result exactly as
   `ExhaustivePass` describes. Corners enter only through the sparse pass.
   */
  method DetectCorners(skel: Grid, candidates: seq<Point>, minDistance: int) returns (points: seq<Point>)
    requires IsGrid(skel)
    ensures var kept := SparsePass(skel, candidates);
      |kept| <= |points| && points[..|kept|] == kept
    ensures var kept := SparsePass(skel, candidates);
      forall i :: |kept| <= i < |points| ==> Qualifies(skel, points[i]) && FarFromAll(points[..i], points[i], minDistance)
    ensures var kept := SparsePass(skel, candidates);
      forall i, j :: |kept| <= i < j < |points| ==> ScanBefore(points[i], points[j])
    ensures forall x, y :: Qualifies(skel, Point(x, y)) ==>
      Accounted(SparsePass(skel, candidates), points, Point(x, y), minDistance)
    ensures forall p :: p in points ==> Interior(skel, p.x, p.y) && Classify(Window(skel, p.x, p.y)) != Unclassified
    ensures forall p :: p in points && Classify(Window(skel, p.x, p.y)) == Corner ==> p in candidates
  {
    var kept := SparsePass(skel, candidates);
    points := ExhaustivePass(skel, minDistance, kept);
    forall i | 0 <= i < |points|
      ensures KeepsCandidate(skel, points[i])
      ensures Classify(Window(skel, points[i].x, points[i].y)) == Corner ==> points[i] in candidates
    {
      if i < |kept| {
        assert points[i] == kept[i];
      } else {
        assert Qualifies(skel, points[i]);
      }
    }
  }

  /** A horizontal run of two foreground pixels: both are endpoints, one column apart. */
  const TwoPixelRun: Grid := [[0, 0, 0, 0], [0, 255, 255, 0], [0, 0, 0, 0]]

  /**
   With D = 10 the scan meets the left end of the run first and appends it;
   the right end is then suppressed. A list holding only the right end does not
   account for the left end, because the right end was not yet accepted when
   the scan reached it.
   */
  lemma ScanOrderDecides()
    ensures Qualifies(TwoPixelRun, Point(1, 1)) && Qualifies(TwoPixelRun, Point(2, 1))
    ensures Accounted([], [Point(1, 1)], Point(2, 1), 10)
    ensures !Accounted([], [Point(2, 1)], Point(1, 1), 10)
  {
    assert TwoPixelRun[0][0..3] == TwoPixelRun[2][0..3] == [0, 0, 0];
    assert TwoPixelRun[0][1..4] == TwoPixelRun[2][1..4] == [0, 0, 0];
    assert TwoPixelRun[1][0..3] == [0, 255, 255] && TwoPixelRun[1][1..4] == [255, 255, 0];
    assert Window(TwoPixelRun, 1, 1) == [[0, 0, 0], [0, 255, 255], [0, 0, 0]];
    assert Window(TwoPixelRun, 2, 1) == [[0, 0, 0], [255, 255, 0], [0, 0, 0]];
    EndpointIff(Window(TwoPixelRun, 1, 1));
    EndpointIff(Window(TwoPixelRun, 2, 1));
    assert AccountsFor([], [Point(1, 1)], 0, Point(2, 1), 10);
  }

  /** Closeness is per axis: an offset of (d-1, d-1) is suppressed though its Euclidean length exceeds d. */
  lemma PerAxisNotEuclidean()
    ensures Close(Point(0, 0), Point(9, 9), 10) && 9 * 9 + 9 * 9 > 10 * 10
    ensures !Close(Point(0, 0), Point(10, 0), 10)
  {
  }
}
