/**
 The crossing-number classifier of a skeleton pixel (`classify_point`).

 Only the value 255 counts as foreground. The eight neighbours are read
 clockwise starting north (N, NE, E, SE, S, SW, W, NW); N is the number of
 foreground neighbours and T the number of background-to-foreground steps
 around that ring, the step from NW back to N included.
 */
module Classifier {
  import opened Raster

  /** The classification of a pixel; `Unclassified` is the source's 'none'. */
  datatype PointType = Unclassified | Endpoint | Corner | TJunction

  type Bit = b: int | 0 <= b <= 1

  /** The foreground pattern of one sample: 1 for exactly 255, 0 otherwise. */
  function Fg(v: int): Bit {
    if v == 255 then 1 else 0
  }

  function Sum(s: seq<Bit>): nat {
    if s == [] then 0 else s[0] + Sum(s[1..])
  }

  /** The neighbours' pattern in clockwise order, starting north. */
  function Ring(p: seq<seq<int>>): (r: seq<Bit>)
    requires IsPatch(p)
    ensures |r| == 8
  {
    [Fg(p[0][1]), Fg(p[0][2]), Fg(p[1][2]), Fg(p[2][2]),
     Fg(p[2][1]), Fg(p[2][0]), Fg(p[1][0]), Fg(p[0][0])]
  }

  /** The ring with its first element repeated at the end, closing the cycle. */
  function Wrapped(r: seq<Bit>): (w: seq<Bit>)
    requires |r| > 0
    ensures |w| == |r| + 1 && w[..|r|] == r && w[|r|] == r[0]
  {
    r + [r[0]]
  }

  /** Number of indices i with w[i] == 0 and w[i+1] == 1. */
  function Rises(w: seq<Bit>): nat {
    if |w| < 2 then 0
    else (if w[0] == 0 && w[1] == 1 then 1 else 0) + Rises(w[1..])
  }

  /** Number of indices i with w[i] == 1 and w[i+1] == 1: neighbours touching along the ring. */
  function Touches(w: seq<Bit>): nat {
    if |w| < 2 then 0
    else (if w[0] == 1 && w[1] == 1 then 1 else 0) + Touches(w[1..])
  }

  function PatchSum(p: seq<seq<int>>): nat
    requires IsPatch(p)
  {
    Fg(p[0][0]) + Fg(p[0][1]) + Fg(p[0][2]) +
    Fg(p[1][0]) + Fg(p[1][1]) + Fg(p[1][2]) +
    Fg(p[2][0]) + Fg(p[2][1]) + Fg(p[2][2])
  }

  /** N: the whole pattern's sum minus the centre. */
  function Neighbours(p: seq<seq<int>>): int
    requires IsPatch(p)
  {
    PatchSum(p) - Fg(p[1][1])
  }

  /** T: the 0-to-1 steps around the closed ring. */
  function Transitions(p: seq<seq<int>>): nat
    requires IsPatch(p)
  {
    Rises(Wrapped(Ring(p)))
  }

  /** Pairs of foreground neighbours that are next to each other around the closed ring. */
  function TouchingPairs(p: seq<seq<int>>): nat
    requires IsPatch(p)
  {
    Touches(Wrapped(Ring(p)))
  }

  function Classify(p: seq<seq<int>>): (t: PointType)
    requires IsPatch(p)
    ensures p[1][1] != 255 ==> t == Unclassified
    ensures p[1][1] == 255 && Neighbours(p) == 1 ==> t == Endpoint
  {
    if Fg(p[1][1]) == 0 then Unclassified
    else if Neighbours(p) == 1 then Endpoint
    else if Transitions(p) == 2 && Neighbours(p) == 2 then Corner
    else if Transitions(p) == 2 && Neighbours(p) == 3 then TJunction
    else Unclassified
  }

  // ---------------------------------------------------------------------------
  // General facts about rises and touches along a sequence of bits

  lemma SumAppend(a: seq<Bit>, b: seq<Bit>)
    ensures Sum(a + b) == Sum(a) + Sum(b)
  {
    if a == [] {
      assert a + b == b;
    } else {
      assert (a + b)[1..] == a[1..] + b;
      SumAppend(a[1..], b);
    }
  }

  /** Every element after the first is reached either by a rise or by a touch. */
  lemma {:induction false} RisesPlusTouches(w: seq<Bit>)
    requires |w| > 0
    ensures Rises(w) + Touches(w) == Sum(w[1..])
  {
    if |w| >= 2 {
      RisesPlusTouches(w[1..]);
      assert w[1..][1..] == w[2..];
      assert Sum(w[1..]) == w[1] + Sum(w[2..]);
    }
  }

  /** A rise ends on a 1, which cannot start another rise: at most one rise per two elements. */
  lemma {:induction false} RisesAtMostHalf(w: seq<Bit>)
    ensures 2 * Rises(w) <= |w|
  {
    if |w| >= 2 {
      if w[0] == 0 && w[1] == 1 {
        if |w| >= 3 {
          RisesAtMostHalf(w[2..]);
          assert w[1..][1..] == w[2..];
          assert Rises(w[1..]) == Rises(w[2..]);
        }
      } else {
        RisesAtMostHalf(w[1..]);
      }
    }
  }

  /** No touches at all exactly when no two consecutive elements are both 1. */
  lemma {:induction false} TouchesZero(w: seq<Bit>)
    ensures Touches(w) == 0 <==> forall i :: 0 <= i < |w| - 1 ==> !(w[i] == 1 && w[i + 1] == 1)
  {
    if |w| >= 2 {
      TouchesZero(w[1..]);
      assert forall i :: 1 <= i < |w| - 1 ==> w[i] == w[1..][i - 1] && w[i + 1] == w[1..][i];
    }
  }

  /** The closed ring's tail sums to the ring's sum: rotating by one loses nothing. */
  lemma WrappedTailSum(r: seq<Bit>)
    requires |r| > 0
    ensures Sum(Wrapped(r)[1..]) == Sum(r)
  {
    var tail := Wrapped(r)[1..];
    assert tail == r[1..] + [r[0]];
    SumAppend(r[1..], [r[0]]);
    assert [r[0]][1..] == [];
    assert Sum([r[0]]) == r[0];
    assert Sum(r) == r[0] + Sum(r[1..]);
  }

  lemma NeighboursIsRingSum(p: seq<seq<int>>)
    requires IsPatch(p)
    ensures Neighbours(p) == Sum(Ring(p))
  {
    var r := Ring(p);
    assert r == [r[0]] + r[1..];
    calc {
      Sum(r);
      r[0] + Sum(r[1..]);
      r[0] + r[1] + Sum(r[2..]);
      r[0] + r[1] + r[2] + Sum(r[3..]);
      r[0] + r[1] + r[2] + r[3] + Sum(r[4..]);
      r[0] + r[1] + r[2] + r[3] + r[4] + Sum(r[5..]);
      r[0] + r[1] + r[2] + r[3] + r[4] + r[5] + Sum(r[6..]);
      r[0] + r[1] + r[2] + r[3] + r[4] + r[5] + r[6] + Sum(r[7..]);
      r[0] + r[1] + r[2] + r[3] + r[4] + r[5] + r[6] + r[7] + Sum(r[8..]);
    }
  }

  // ---------------------------------------------------------------------------
  // Properties of the classifier

  /** Every foreground neighbour is entered either from a background neighbour or from a touching one. */
  lemma NeighboursSplit(p: seq<seq<int>>)
    requires IsPatch(p)
    ensures Neighbours(p) == Transitions(p) + TouchingPairs(p)
  {
    NeighboursIsRingSum(p);
    RisesPlusTouches(Wrapped(Ring(p)));
    WrappedTailSum(Ring(p));
  }

  /** T lies in 0..4, never exceeds N, and N lies in 0..8. */
  lemma TransitionBounds(p: seq<seq<int>>)
    requires IsPatch(p)
    ensures 0 <= Transitions(p) <= 4
    ensures Transitions(p) <= Neighbours(p) <= 8
  {
    RisesAtMostHalf(Wrapped(Ring(p)));
    NeighboursSplit(p);
  }

  /** Ring positions i and (i+1) mod 8 both hold a foreground neighbour; i = 7 is the NW-N pair. */
  predicate TouchAt(r: seq<Bit>, i: int)
    requires |r| == 8 && 0 <= i < 8
  {
    r[i] == 1 && r[(i + 1) % 8] == 1
  }

  /** No two of the ring's foreground neighbours are next to each other, the NW-N pair included. */
  predicate Separated(p: seq<seq<int>>)
    requires IsPatch(p)
  {
    forall i :: 0 <= i < 8 ==> !TouchAt(Ring(p), i)
  }

  lemma SeparatedIffNoTouch(p: seq<seq<int>>)
    requires IsPatch(p)
    ensures Separated(p) <==> TouchingPairs(p) == 0
  {
    var r := Ring(p);
    var w := Wrapped(r);
    TouchesZero(w);
    forall i | 0 <= i < 8
      ensures TouchAt(r, i) <==> w[i] == 1 && w[i + 1] == 1
    {
    }
  }

  /** 'endpoint' exactly for a foreground centre with one foreground neighbour, whatever T is. */
  lemma EndpointIff(p: seq<seq<int>>)
    requires IsPatch(p)
    ensures Classify(p) == Endpoint <==> p[1][1] == 255 && Neighbours(p) == 1
  {
  }

  /** 'corner' exactly for a foreground centre with two foreground neighbours that do not touch around the ring. */
  lemma CornerIff(p: seq<seq<int>>)
    requires IsPatch(p)
    ensures Classify(p) == Corner <==> p[1][1] == 255 && Neighbours(p) == 2 && Separated(p)
  {
    NeighboursSplit(p);
    SeparatedIffNoTouch(p);
  }

  /** 't_junction' exactly for a foreground centre with three foreground neighbours, exactly two of which touch. */
  lemma TJunctionIff(p: seq<seq<int>>)
    requires IsPatch(p)
    ensures Classify(p) == TJunction <==> p[1][1] == 255 && Neighbours(p) == 3 && TouchingPairs(p) == 1
  {
    NeighboursSplit(p);
  }

  /** Any other pattern with a foreground centre is 'none': no neighbours, four or more, or a wrong ring shape. */
  lemma UnclassifiedIff(p: seq<seq<int>>)
    requires IsPatch(p)
    ensures Classify(p) == Unclassified <==>
      p[1][1] != 255
      || Neighbours(p) == 0
      || Neighbours(p) >= 4
      || (Neighbours(p) == 2 && !Separated(p))
      || (Neighbours(p) == 3 && TouchingPairs(p) != 1)
  {
    TransitionBounds(p);
    NeighboursSplit(p);
    SeparatedIffNoTouch(p);
  }

  // ---------------------------------------------------------------------------
  // Concrete patterns

  /** A straight vertical run (north and south neighbours) is classified as a corner. */
  lemma StraightRunIsCorner()
    ensures Classify([[0, 255, 0], [0, 255, 0], [0, 255, 0]]) == Corner
  {
    var p := [[0, 255, 0], [0, 255, 0], [0, 255, 0]];
    CornerIff(p);
    assert Ring(p) == [1, 0, 0, 0, 1, 0, 0, 0];
  }

  /** Two neighbours next to each other (north and north-east) give 'none'. */
  lemma AdjacentPairIsUnclassified()
    ensures Classify([[0, 255, 255], [0, 255, 0], [0, 0, 0]]) == Unclassified
  {
    var p := [[0, 255, 255], [0, 255, 0], [0, 0, 0]];
    CornerIff(p);
    assert TouchAt(Ring(p), 0);
  }

  /** The bend of an L (west and south neighbours) is a corner. */
  lemma BendIsCorner()
    ensures Classify([[0, 0, 0], [255, 255, 0], [0, 255, 0]]) == Corner
  {
    var p := [[0, 0, 0], [255, 255, 0], [0, 255, 0]];
    CornerIff(p);
    assert Ring(p) == [0, 0, 0, 0, 1, 0, 1, 0];
  }

  /** A plain T (west, east and south neighbours) has T = 3 and is therefore 'none'. */
  lemma PlainTeeIsUnclassified()
    ensures Classify([[0, 0, 0], [255, 255, 255], [0, 255, 0]]) == Unclassified
  {
    var p := [[0, 0, 0], [255, 255, 255], [0, 255, 0]];
    TJunctionIff(p);
    SeparatedIffNoTouch(p);
    assert Ring(p) == [0, 0, 1, 0, 1, 0, 1, 0];
  }

  /** A value other than 255 is background, even when non-zero. */
  lemma NonMaximalIsBackground()
    ensures Classify([[0, 0, 0], [0, 254, 255], [0, 0, 0]]) == Unclassified
    ensures Classify([[0, 0, 0], [0, 255, 254], [0, 255, 0]]) == Endpoint
  {
  }
}
