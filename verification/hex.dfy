/**
 Geometry of the axial hex grid: the cube-coordinate distance and the map from
 the six unit deltas to the edge indices 0..5 (clockwise from "right").
 */
module Hex {
  import opened Wrappers

  /** An axial coordinate (q, r). */
  datatype Coord = Coord(q: int, r: int)

  function Abs(x: int): nat
  {
    if x < 0 then -x else x
  }

  function Max3(a: nat, b: nat, c: nat): (m: nat)
    ensures m == a || m == b || m == c
    ensures a <= m && b <= m && c <= m
  {
    if a >= b && a >= c then a else if b >= c then b else c
  }

  function Add(a: Coord, d: Coord): Coord
  {
    Coord(a.q + d.q, a.r + d.r)
  }

  function Delta(from: Coord, to: Coord): Coord
  {
    Coord(to.q - from.q, to.r - from.r)
  }

  /** The six neighbour deltas, listed in edge-index order. */
  const NeighborDirs: seq<Coord> :=
    [Coord(1, 0), Coord(0, 1), Coord(-1, 1), Coord(-1, 0), Coord(0, -1), Coord(1, -1)]

  /** The numerator |dq| + |dq + dr| + |dr| of the distance formula. */
  function DistanceNumerator(a: Coord, b: Coord): nat
  {
    var dq := a.q - b.q;
    var dr := a.r - b.r;
    Abs(dq) + Abs(dq + dr) + Abs(dr)
  }

  /**
   The hex distance: the numerator halved. The division is exact (the
   numerator is always even) and the result is the cube-coordinate distance,
   the largest of |dq|, |dr| and |dq + dr|.
   */
  function Distance(a: Coord, b: Coord): (d: nat)
    ensures 2 * d == DistanceNumerator(a, b)
    ensures d == Max3(Abs(a.q - b.q), Abs(a.r - b.r), Abs((a.q - b.q) + (a.r - b.r)))
  {
    DistanceNumerator(a, b) / 2
  }

  lemma DistanceSymmetric(a: Coord, b: Coord)
    ensures Distance(a, b) == Distance(b, a)
  {
    assert Abs(a.q - b.q) == Abs(b.q - a.q);
    assert Abs(a.r - b.r) == Abs(b.r - a.r);
    assert Abs((a.q - b.q) + (a.r - b.r)) == Abs((b.q - a.q) + (b.r - a.r));
  }

  lemma DistanceZeroIff(a: Coord, b: Coord)
    ensures Distance(a, b) == 0 <==> a == b
  {
  }

  /** Distance 1 holds exactly when the delta is one of the six neighbour deltas. */
  lemma DistanceOneIff(a: Coord, b: Coord)
    ensures Distance(a, b) == 1 <==> Delta(a, b) in NeighborDirs
  {
    var dq := b.q - a.q;
    var dr := b.r - a.r;
    if Distance(a, b) == 1 {
      assert -1 <= dq <= 1 && -1 <= dr <= 1 && -1 <= dq + dr <= 1;
      assert dq != 0 || dr != 0;
      if dq == 1 && dr == 0 { assert Delta(a, b) == NeighborDirs[0]; }
      else if dq == 0 && dr == 1 { assert Delta(a, b) == NeighborDirs[1]; }
      else if dq == -1 && dr == 1 { assert Delta(a, b) == NeighborDirs[2]; }
      else if dq == -1 && dr == 0 { assert Delta(a, b) == NeighborDirs[3]; }
      else if dq == 0 && dr == -1 { assert Delta(a, b) == NeighborDirs[4]; }
      else { assert Delta(a, b) == NeighborDirs[5]; }
    }
  }

  /** `hexDeltaToEdgeIndex` looked up with the key "dq,dr": undefined for every other delta. */
  function EdgeIndexOfDelta(d: Coord): (e: Option<nat>)
    ensures e.Some? <==> d in NeighborDirs
    ensures e.Some? ==> e.value < 6 && NeighborDirs[e.value] == d
  {
    if d == Coord(1, 0) then Some(0)
    else if d == Coord(0, 1) then Some(1)
    else if d == Coord(-1, 1) then Some(2)
    else if d == Coord(-1, 0) then Some(3)
    else if d == Coord(0, -1) then Some(4)
    else if d == Coord(1, -1) then Some(5)
    else None
  }

  /**
   The edge index of `to` as seen from `from`: defined exactly for the pairs at
   distance 1, and then `to` is `from` moved one step in that direction.
   */
  function RelativeDirection(from: Coord, to: Coord): (e: Option<nat>)
    ensures e.Some? <==> Distance(from, to) == 1
    ensures e.Some? ==> e.value < 6 && to == Add(from, NeighborDirs[e.value])
  {
    DistanceOneIff(from, to);
    EdgeIndexOfDelta(Delta(from, to))
  }

  /** Stepping along neighbour direction i is seen as direction i. */
  lemma RelativeDirectionOfNeighbor(a: Coord, i: nat)
    requires i < 6
    ensures RelativeDirection(a, Add(a, NeighborDirs[i])) == Some(i)
  {
  }

  /** Seen from the other end, the same bond lies on the opposite edge. */
  lemma RelativeDirectionSwap(a: Coord, b: Coord)
    requires RelativeDirection(a, b).Some?
    ensures RelativeDirection(b, a) == Some((RelativeDirection(a, b).value + 3) % 6)
  {
    DistanceSymmetric(a, b);
  }
}
