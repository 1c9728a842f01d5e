/**
 The decision logic of `fit_line_to_clustered_points`: for each (truncated)
 cluster centre, clip its 3x3 patch to the image, classify it (a clipped patch
 smaller than 3x3 is 'none'), pick the colour, and paint a filled circle into
 the image before the next centre is examined.

 The image is the 3-channel rendering of the skeleton; only its first (blue)
 channel is read, so the model keeps that plane alone. Painting a circle sets
 that channel to the colour's blue component. Which pixels a filled circle of
 radius 3 covers is decided by the drawing library, so the footprint is a
 parameter.
 */
module Annotator {
  import opened Raster
  import opened Classifier

  /** A colour in the blue-green-red channel order of the rendering target. */
  datatype Colour = Colour(b: int, g: int, r: int)

  const Blue := Colour(255, 0, 0)
  const Red := Colour(0, 0, 255)
  const Green := Colour(0, 255, 0)
  const Orange := Colour(0, 165, 255)

  /** Endpoints blue, corners red, T-junctions green, anything else orange. */
  function ColourOf(t: PointType): Colour {
    match t
    case Endpoint => Blue
    case Corner => Red
    case TJunction => Green
    case Unclassified => Orange
  }

  /** Reading a mark back: the class a colour stands for (unknown colours read as 'none'). */
  function TypeOfColour(c: Colour): PointType {
    if c == Blue then Endpoint
    else if c == Red then Corner
    else if c == Green then TJunction
    else Unclassified
  }

  /**
   The four colours are distinct, so a mark's colour identifies its class; a
   class that is none of the three named ones is drawn orange, (0, 165, 255).
   */
  lemma ColourRoundTrip(t: PointType)
    ensures TypeOfColour(ColourOf(t)) == t
    ensures t == Unclassified ==> ColourOf(t) == Colour(0, 165, 255)
  {
  }

  /** The other direction: each of the four colours is the colour of the class it reads back as. */
  lemma TypeOfColourRoundTrip(c: Colour)
    requires c in {Blue, Red, Green, Orange}
    ensures ColourOf(TypeOfColour(c)) == c
  {
  }

  /** Python slicing `s[lo:hi]` for bounds already clamped into 0..|s|: empty when lo >= hi. */
  function Slice<T>(s: seq<T>, lo: int, hi: int): (r: seq<T>)
    requires 0 <= lo && hi <= |s|
    ensures |r| == Max(0, hi - lo)
    ensures forall i :: 0 <= i < |r| ==> r[i] == s[lo + i]
  {
    if lo >= hi then [] else s[lo..hi]
  }

  /** `image[max(0, y-1):min(h, y+2), max(0, x-1):min(w, x+2)]` on the read channel. */
  function ClippedPatch(plane: Grid, c: Point): (patch: seq<seq<int>>)
    requires IsGrid(plane) && c.x >= 0 && c.y >= 0
    ensures |patch| == Max(0, Min(|plane|, c.y + 2) - Max(0, c.y - 1))
    ensures forall i :: 0 <= i < |patch| ==> |patch[i]| == Max(0, Min(Width(plane), c.x + 2) - Max(0, c.x - 1))
  {
    var rows := Slice(plane, Max(0, c.y - 1), Min(|plane|, c.y + 2));
    seq(|rows|, i requires 0 <= i < |rows| => Slice(rows[i], Max(0, c.x - 1), Min(Width(plane), c.x + 2)))
  }

  /** The class the annotator derives for a centre: 'none' for a clipped patch, else the classifier's answer. */
  function AnnotatedType(plane: Grid, c: Point): PointType
    requires IsGrid(plane) && c.x >= 0 && c.y >= 0
  {
    var patch := ClippedPatch(plane, c);
    if |patch| < 3 || |patch[0]| < 3 then Unclassified else Classify(patch)
  }

  /**
   The patch is a full 3x3 exactly for interior centres, and then it is the
   detector's window; so the annotator's class agrees with the detector's
   classification at interior centres and is 'none' on and beyond the border.
   */
  lemma AnnotatorAgreesWithDetector(plane: Grid, c: Point)
    requires IsGrid(plane) && c.x >= 0 && c.y >= 0
    ensures var patch := ClippedPatch(plane, c);
      (|patch| >= 3 && |patch[0]| >= 3) <==> Interior(plane, c.x, c.y)
    ensures AnnotatedType(plane, c) == if Interior(plane, c.x, c.y) then Classify(Window(plane, c.x, c.y)) else Unclassified
  {
    var patch := ClippedPatch(plane, c);
    if Interior(plane, c.x, c.y) {
      var w := Window(plane, c.x, c.y);
      assert |patch| == 3 && |patch[0]| == 3;
      forall i | 0 <= i < 3
        ensures patch[i] == w[i]
      {
        assert |patch[i]| == 3;
      }
      assert patch == w;
    }
  }

  /** Two planes of the same shape agree on the in-bounds 3x3 neighbourhood of c. */
  predicate AgreeAround(a: Grid, b: Grid, c: Point)
    requires IsGrid(a) && IsGrid(b) && |a| == |b| && Width(a) == Width(b)
  {
    forall y, x :: 0 <= y < |a| && 0 <= x < Width(a) && c.y - 1 <= y <= c.y + 1 && c.x - 1 <= x <= c.x + 1 ==>
      a[y][x] == b[y][x]
  }

  /** Planes that agree around an interior centre have the same window there. */
  lemma WindowsAgree(a: Grid, b: Grid, c: Point)
    requires IsGrid(a) && IsGrid(b) && |a| == |b| && Width(a) == Width(b)
    requires Interior(a, c.x, c.y)
    requires AgreeAround(a, b, c)
    ensures Window(a, c.x, c.y) == Window(b, c.x, c.y)
  {
    var wa, wb := Window(a, c.x, c.y), Window(b, c.x, c.y);
    forall i | 0 <= i < 3
      ensures wa[i] == wb[i]
    {
      forall j | 0 <= j < 3
        ensures wa[i][j] == wb[i][j]
      {
        var y, x := c.y - 1 + i, c.x - 1 + j;
        assert 0 <= y < |a| && 0 <= x < Width(a);
        assert a[y][x] == b[y][x];
      }
    }
  }

  /** The annotator reads nothing but the 3x3 neighbourhood of the centre. */
  lemma AnnotatedTypeIsLocal(a: Grid, b: Grid, c: Point)
    requires IsGrid(a) && IsGrid(b) && |a| == |b| && Width(a) == Width(b)
    requires c.x >= 0 && c.y >= 0
    requires AgreeAround(a, b, c)
    ensures AnnotatedType(a, c) == AnnotatedType(b, c)
  {
    AnnotatorAgreesWithDetector(a, c);
    AnnotatorAgreesWithDetector(b, c);
    if Interior(a, c.x, c.y) {
      WindowsAgree(a, b, c);
    }
  }

  /** The read channel after painting the in-bounds cells of `cells` with value v. */
  function Paint(plane: Grid, cells: set<Point>, v: int): (r: Grid)
    requires IsGrid(plane)
    ensures IsGrid(r) && |r| == |plane| && Width(r) == Width(plane)
    ensures forall y, x :: 0 <= y < |r| && 0 <= x < Width(r) ==>
      r[y][x] == if Point(x, y) in cells then v else plane[y][x]
  {
    seq(|plane|, y requires 0 <= y < |plane| =>
      seq(Width(plane), x requires 0 <= x < Width(plane) => if Point(x, y) in cells then v else plane[y][x]))
  }

  /** One drawn marker: the centre and the colour chosen for it. */
  datatype Mark = Mark(centre: Point, colour: Colour)

  datatype Annotation = Annotation(marks: seq<Mark>, plane: Grid)

  predicate NonNegative(centres: seq<Point>) {
    forall i :: 0 <= i < |centres| ==> centres[i].x >= 0 && centres[i].y >= 0
  }

  /**
   The colour the annotator picks for centre c on the channel as it stands.
   Centres are non-negative and the channel rectangular wherever it is used;
   elsewhere the colour is orange.
   */
  function MarkColour(plane: Grid, c: Point): Colour {
    if IsGrid(plane) && c.x >= 0 && c.y >= 0 then ColourOf(AnnotatedType(plane, c)) else Orange
  }

  /**
   The read channel after the first j circles, each painted in the colour
   `choose` picks for its centre on the channel as it stood at that point: the
   source's loop read from left to right. The loop below is stated for any
   colour choice; the annotator's is `MarkColour`.
   */
  function PaintedUpTo(choose: (Grid, Point) -> Colour, plane: Grid, centres: seq<Point>,
                       footprint: Point -> set<Point>, j: int): (r: Grid)
    requires IsGrid(plane) && 0 <= j <= |centres|
    ensures IsGrid(r) && |r| == |plane| && Width(r) == Width(plane)
    decreases j
  {
    if j == 0 then plane
    else
      var prev := PaintedUpTo(choose, plane, centres, footprint, j - 1);
      Paint(prev, footprint(centres[j - 1]), choose(prev, centres[j - 1]).b)
  }

  /**
   Marks `centres[j..]` in turn, starting from the channel `plane`: the
   remaining iterations of the source's loop. Each colour is chosen on the
   channel with the circles already painted.
   */
  function DrawFrom(choose: (Grid, Point) -> Colour, plane: Grid, centres: seq<Point>,
                    footprint: Point -> set<Point>, j: int): (a: Annotation)
    requires IsGrid(plane) && 0 <= j <= |centres|
    ensures |a.marks| == |centres| - j
    ensures forall i :: j <= i < |centres| ==> a.marks[i - j].centre == centres[i]
    ensures IsGrid(a.plane) && |a.plane| == |plane| && Width(a.plane) == Width(plane)
    decreases |centres| - j
  {
    if j == |centres| then Annotation([], plane)
    else
      var c := centres[j];
      var colour := choose(plane, c);
      var rest := DrawFrom(choose, Paint(plane, footprint(c), colour.b), centres, footprint, j + 1);
      Annotation([Mark(c, colour)] + rest.marks, rest.plane)
  }

  /**
   Started on the channel as the first j iterations leave it, the remaining
   iterations give mark i the colour chosen on the channel after i circles and
   leave the channel with all circles painted.
   */
  lemma {:induction false} DrawFromPainted(choose: (Grid, Point) -> Colour, plane: Grid, centres: seq<Point>,
                                           footprint: Point -> set<Point>, j: int)
    requires IsGrid(plane) && 0 <= j <= |centres|
    ensures var a := DrawFrom(choose, PaintedUpTo(choose, plane, centres, footprint, j), centres, footprint, j);
      && (forall i :: j <= i < |centres| ==>
            a.marks[i - j].colour == choose(PaintedUpTo(choose, plane, centres, footprint, i), centres[i]))
      && a.plane == PaintedUpTo(choose, plane, centres, footprint, |centres|)
    decreases |centres| - j
  {
    if j < |centres| {
      DrawFromPainted(choose, plane, centres, footprint, j + 1);
      var prev := PaintedUpTo(choose, plane, centres, footprint, j);
      var colour := choose(prev, centres[j]);
      var next := PaintedUpTo(choose, plane, centres, footprint, j + 1);
      assert next == Paint(prev, footprint(centres[j]), colour.b);
      var a := DrawFrom(choose, prev, centres, footprint, j);
      var rest := DrawFrom(choose, next, centres, footprint, j + 1);
      assert a == Annotation([Mark(centres[j], colour)] + rest.marks, rest.plane);
      assert a.marks[1..] == rest.marks;
      forall i | j < i < |centres|
        ensures a.marks[i - j].colour == choose(PaintedUpTo(choose, plane, centres, footprint, i), centres[i])
      {
        var k := i - (j + 1);
        assert a.marks[k + 1] == a.marks[1..][k];
      }
    }
  }

  /**
   Marks every centre in turn; each classification sees the circles already
   painted. Mark i has the colour of the class derived on the channel after the
   first i circles, and the final channel holds all of them.
   */
  function DrawAll(plane: Grid, centres: seq<Point>, footprint: Point -> set<Point>): (a: Annotation)
    requires IsGrid(plane) && NonNegative(centres)
    ensures |a.marks| == |centres|
    ensures forall i :: 0 <= i < |centres| ==> a.marks[i].centre == centres[i]
    ensures forall i :: 0 <= i < |centres| ==>
      a.marks[i].colour == MarkColour(PaintedUpTo(MarkColour, plane, centres, footprint, i), centres[i])
    ensures a.plane == PaintedUpTo(MarkColour, plane, centres, footprint, |centres|)
    ensures IsGrid(a.plane) && |a.plane| == |plane| && Width(a.plane) == Width(plane)
  {
    DrawFromPainted(MarkColour, plane, centres, footprint, 0);
    DrawFrom(MarkColour, plane, centres, footprint, 0)
  }

  /**
   `fit_line_to_clustered_points`: with draw off nothing is marked and the
   image is untouched; with draw on the marks and the image are those of
   `DrawAll`.
   */
  function Annotate(plane: Grid, centres: seq<Point>, draw: bool, footprint: Point -> set<Point>): (a: Annotation)
    requires IsGrid(plane) && NonNegative(centres)
    ensures !draw ==> a.marks == [] && a.plane == plane
    ensures draw ==> |a.marks| == |centres| && forall i :: 0 <= i < |centres| ==> a.marks[i].centre == centres[i]
    ensures draw ==> forall i :: 0 <= i < |centres| ==>
      a.marks[i].colour == MarkColour(PaintedUpTo(MarkColour, plane, centres, footprint, i), centres[i])
    ensures draw ==> a.plane == PaintedUpTo(MarkColour, plane, centres, footprint, |centres|)
    ensures IsGrid(a.plane) && |a.plane| == |plane| && Width(a.plane) == Width(plane)
  {
    if !draw then Annotation([], plane) else DrawAll(plane, centres, footprint)
  }

  /** No cell of `cells` lies in the 3x3 neighbourhood of c. */
  predicate Untouched(cells: set<Point>, c: Point) {
    forall y, x :: c.y - 1 <= y <= c.y + 1 && c.x - 1 <= x <= c.x + 1 ==> Point(x, y) !in cells
  }

  /** Painting cells away from c leaves the neighbourhood of c as it was. */
  lemma PaintUntouched(plane: Grid, cells: set<Point>, v: int, c: Point)
    requires IsGrid(plane) && Untouched(cells, c)
    ensures AgreeAround(Paint(plane, cells, v), plane, c)
  {
  }

  /** No earlier centre's circle reaches the neighbourhood of centre j. */
  predicate EarlierCirclesMiss(centres: seq<Point>, footprint: Point -> set<Point>, j: int)
    requires 0 <= j < |centres|
  {
    forall i :: 0 <= i < j ==> Untouched(footprint(centres[i]), centres[j])
  }

  /** When none of the first j circles reaches the neighbourhood of c, that neighbourhood is still the original. */
  lemma {:induction false} PaintedAgreesAround(choose: (Grid, Point) -> Colour, plane: Grid, centres: seq<Point>,
                                               footprint: Point -> set<Point>, j: int, c: Point)
    requires IsGrid(plane) && 0 <= j <= |centres|
    requires forall i :: 0 <= i < j ==> Untouched(footprint(centres[i]), c)
    ensures AgreeAround(PaintedUpTo(choose, plane, centres, footprint, j), plane, c)
    decreases j
  {
    if j > 0 {
      var k := j - 1;
      var prev := PaintedUpTo(choose, plane, centres, footprint, k);
      var v := choose(prev, centres[k]).b;
      PaintedAgreesAround(choose, plane, centres, footprint, k, c);
      PaintUntouched(prev, footprint(centres[k]), v, c);
      var next := Paint(prev, footprint(centres[k]), v);
      assert PaintedUpTo(choose, plane, centres, footprint, j) == next;
      assert AgreeAround(next, plane, c);
    }
  }

  /**
   A marker's colour is the colour of the class derived from the undrawn
   skeleton whenever no earlier circle reaches the centre's neighbourhood
   (the first centre always qualifies). Otherwise earlier circles may change
   the class that is derived.
   */
  lemma ColourFromSkeleton(plane: Grid, centres: seq<Point>, footprint: Point -> set<Point>, j: int)
    requires IsGrid(plane) && NonNegative(centres)
    requires 0 <= j < |centres|
    requires EarlierCirclesMiss(centres, footprint, j)
    ensures DrawAll(plane, centres, footprint).marks[j].colour == ColourOf(AnnotatedType(plane, centres[j]))
  {
    var painted := PaintedUpTo(MarkColour, plane, centres, footprint, j);
    PaintedAgreesAround(MarkColour, plane, centres, footprint, j, centres[j]);
    AnnotatedTypeIsLocal(painted, plane, centres[j]);
  }

  /** A blue (endpoint) circle writes 255 into the read channel, so later centres see its cells as foreground. */
  lemma EndpointCirclesAreForeground(plane: Grid, cells: set<Point>, p: Point)
    requires IsGrid(plane) && 0 <= p.y < |plane| && 0 <= p.x < Width(plane) && p in cells
    ensures Fg(Paint(plane, cells, ColourOf(Endpoint).b)[p.y][p.x]) == 1
    ensures Fg(Paint(plane, cells, ColourOf(Corner).b)[p.y][p.x]) == 0
  {
  }
}
