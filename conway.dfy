/**
 * The reference definition of Conway's Game of Life (rule B3/S23) on a finite
 * set of live positions of the unbounded grid. The engine is proved against it.
 */
module Conway {
  import opened Vectors

  /** The live positions among the eight neighbours of p. */
  function LiveNeighbours(live: set<Vector2D>, p: Vector2D): (r: set<Vector2D>)
    ensures r <= live
    ensures forall q :: q in r <==> q in live && Adjacent(q, p)
  {
    set q | q in live && Adjacent(q, p)
  }

  /** The number of live cells among the eight neighbours of p. */
  function NeighbourCount(live: set<Vector2D>, p: Vector2D): nat
  {
    |LiveNeighbours(live, p)|
  }

  /** One more live cell x adds one neighbour to p exactly when x is adjacent to p. */
  lemma NeighbourCountAddOne(live: set<Vector2D>, x: Vector2D, p: Vector2D)
    requires x !in live
    ensures NeighbourCount(live + {x}, p) == NeighbourCount(live, p) + (if Adjacent(x, p) then 1 else 0)
  {
    if Adjacent(x, p) {
      assert LiveNeighbours(live + {x}, p) == LiveNeighbours(live, p) + {x};
    } else {
      assert LiveNeighbours(live + {x}, p) == LiveNeighbours(live, p);
    }
  }

  /** Adding x to the live set when a holds: p gains a neighbour exactly when x is adjacent to it. */
  lemma NeighbourCountAddIf(live: set<Vector2D>, a: bool, x: Vector2D, p: Vector2D)
    requires x !in live
    ensures NeighbourCount(live + (if a then {x} else {}), p) ==
            NeighbourCount(live, p) + (if a && Adjacent(x, p) then 1 else 0)
  {
    if a {
      NeighbourCountAddOne(live, x, p);
    } else {
      assert live + {} == live;
    }
  }

  /**
   * The rule of Entity.update: death by isolation (at most 1) or overpopulation
   * (at least 4), birth or survival at 3, no change at 2.
   */
  function Rule(alive: bool, n: int): (r: bool)
    ensures n <= 1 || n >= 4 ==> !r
    ensures n == 3 ==> r
    ensures n == 2 ==> r == alive
  {
    if n == 3 then true else if n == 2 then alive else false
  }

  /** Every position that has at least one live neighbour (finitely many). */
  function Frontier(live: set<Vector2D>): set<Vector2D>
  {
    set s, d | s in live && d in Offsets :: s.Add(d.x, d.y)
  }

  /** The Conway successor: born with exactly 3 live neighbours, surviving with 2 or 3. */
  function Next(live: set<Vector2D>): set<Vector2D>
  {
    set p | p in Frontier(live) &&
            (NeighbourCount(live, p) == 3 || (p in live && NeighbourCount(live, p) == 2))
  }

  /** A position with a live neighbour lies on the frontier. */
  lemma InFrontier(live: set<Vector2D>, p: Vector2D, q: Vector2D)
    requires q in live && Adjacent(q, p)
    ensures p in Frontier(live)
  {
    OffsetsAreTheNeighbourhood(q, p);
    var d := Vector2D(p.x - q.x, p.y - q.y);
    assert p == q.Add(d.x, d.y);
  }

  /** A position off the frontier has no live neighbour. */
  lemma OffFrontierIsolated(live: set<Vector2D>, p: Vector2D)
    requires p !in Frontier(live)
    ensures NeighbourCount(live, p) == 0
  {
    if NeighbourCount(live, p) != 0 {
      var q :| q in LiveNeighbours(live, p);
      InFrontier(live, p, q);
    }
  }

  /** Next is the B3/S23 successor at every position of the grid, frontier or not. */
  lemma NextIsConwaySuccessor(live: set<Vector2D>, p: Vector2D)
    ensures p in Next(live) <==> Rule(p in live, NeighbourCount(live, p))
  {
    if p !in Frontier(live) {
      OffFrontierIsolated(live, p);
    }
  }

  /** An isolated live cell dies of isolation. */
  lemma LonelyCellDies(p: Vector2D)
    ensures Next({p}) == {}
  {
    forall q
      ensures NeighbourCount({p}, q) <= 1
    {
      var n := LiveNeighbours({p}, q);
      if p in n {
        assert n == {p};
      } else {
        assert n == {};
      }
    }
  }
}
