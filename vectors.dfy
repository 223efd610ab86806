/**
 * Grid coordinates (Vector2D.java): an immutable integer pair with equality
 * and translation, plus the eight-cell neighbourhood used by the engine.
 * Coordinates are unbounded integers; Java's 32-bit wrap-around is not modelled.
 */
module Vectors {

  /** An immutable position on the grid; the unused setters are not modelled. */
  datatype Vector2D = Vector2D(x: int, y: int) {

    /** `isEqual`: both coordinates match, i.e. the two positions are the same value. */
    function IsEqual(a: Vector2D): (r: bool)
      ensures r <==> a == this
    {
      a.x == x && a.y == y
    }

    /** `add`: a new position translated by (dx, dy); the receiver is a value and is not changed. */
    function Add(dx: int, dy: int): (r: Vector2D)
      ensures r.x - x == dx && r.y - y == dy
    {
      Vector2D(x + dx, y + dy)
    }
  }

  /** q is one of the eight grid neighbours of p (p itself excluded). */
  predicate Adjacent(p: Vector2D, q: Vector2D)
  {
    p != q && -1 <= q.x - p.x <= 1 && -1 <= q.y - p.y <= 1
  }

  /**
   * The eight offsets in {-1,0,1}² \ {(0,0)}, in the order the nested loops of
   * Entity.updateNeighbours visit them: outer j = dx, inner k = dy, (0,0) skipped.
   */
  const Offsets: seq<Vector2D> :=
    [Vector2D(-1, -1), Vector2D(-1, 0), Vector2D(-1, 1),
     Vector2D(0, -1),                   Vector2D(0, 1),
     Vector2D(1, -1),  Vector2D(1, 0),  Vector2D(1, 1)]

  lemma IsEqualReflexive(p: Vector2D)
    ensures p.IsEqual(p)
  {
  }

  lemma IsEqualSymmetric(p: Vector2D, q: Vector2D)
    ensures p.IsEqual(q) <==> q.IsEqual(p)
  {
  }

  lemma AddZero(p: Vector2D)
    ensures p.Add(0, 0).IsEqual(p)
  {
  }

  lemma AddInverse(p: Vector2D, dx: int, dy: int)
    ensures p.Add(dx, dy).Add(-dx, -dy).IsEqual(p)
  {
  }

  /** The self-skip of Entity.updateNeighbours: a non-zero unit offset never lands on p. */
  lemma AddNonZeroOffsetMoves(p: Vector2D, j: int, k: int)
    requires -1 <= j <= 1 && -1 <= k <= 1 && !(j == 0 && k == 0)
    ensures !p.Add(j, k).IsEqual(p)
    ensures Adjacent(p, p.Add(j, k))
  {
  }

  /** Where the neighbour q of p comes in the visiting order of Offsets. */
  function OffsetIndex(p: Vector2D, q: Vector2D): (i: nat)
    requires Adjacent(p, q)
    ensures i < |Offsets| && p.Add(Offsets[i].x, Offsets[i].y) == q
  {
    var dx, dy := q.x - p.x, q.y - p.y;
    if dx == -1 then dy + 1
    else if dx == 0 then (if dy == -1 then 3 else 4)
    else dy + 6
  }

  /** The offsets are exactly the translations that reach a neighbour, each once. */
  lemma OffsetsAreTheNeighbourhood(p: Vector2D, q: Vector2D)
    ensures Adjacent(p, q) <==> Vector2D(q.x - p.x, q.y - p.y) in Offsets
    ensures forall a, b :: 0 <= a < b < |Offsets| ==> Offsets[a] != Offsets[b]
  {
    var d := Vector2D(q.x - p.x, q.y - p.y);
    if Adjacent(p, q) {
      assert d.x == -1 || d.x == 0 || d.x == 1;
      assert d.y == -1 || d.y == 0 || d.y == 1;
      if d.x == -1 {
        assert d == Offsets[0] || d == Offsets[1] || d == Offsets[2];
      } else if d.x == 0 {
        assert d == Offsets[3] || d == Offsets[4];
      } else {
        assert d == Offsets[5] || d == Offsets[6] || d == Offsets[7];
      }
    }
  }
}
