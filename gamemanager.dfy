/**
 * The engine (GameManager.java): the list of tracked entities, the four passes
 * of one generation, and the bounds, save and load of the text format. Every
 * state-changing method is proved to compute the matching function of
 * Passes or StateFormat on Cells(), the list of entity states; what those
 * functions achieve (the Conway successor, the save/load round trip) is proved
 * there. The game thread, timing, drawing and the HUD are not modelled.
 */
module Engine {
  import opened Vectors
  import opened Conway
  import opened Passes
  import opened StateFormat
  import opened Entities

  /**
   * What is left of the inner loop of Entity.updateNeighbours once it reaches
   * dy = k in column dx = j: the visits of src + (j, k) .. src + (j, 1), with
   * (0, 0), the position itself, skipped.
   */
  function ColumnFrom(cs: seq<Cell>, src: Vector2D, j: int, k: int): (r: seq<Cell>)
    ensures |cs| <= |r|
    decreases if k <= 1 then 2 - k else 0
  {
    if k > 1 then cs
    else ColumnFrom(if j == 0 && k == 0 then cs else Touch(cs, src.Add(j, k)), src, j, k + 1)
  }

  /** What is left of the outer loop once it reaches dx = j: the columns j .. 1 in turn. */
  function ColumnsFrom(cs: seq<Cell>, src: Vector2D, j: int): (r: seq<Cell>)
    ensures |cs| <= |r|
    decreases if j <= 1 then 2 - j else 0
  {
    if j > 1 then cs
    else ColumnsFrom(ColumnFrom(cs, src, j, -1), src, j + 1)
  }

  /**
   * ds lists the offsets column by column, dx outer and dy inner. Offsets is the
   * one sequence with this property (ColumnsVisitOffsets checks it once); the column
   * lemmas take an arbitrary such ds so that their proofs see eight equalities
   * instead of unfolding the literal at every step.
   */
  predicate ColumnOrder(ds: seq<Vector2D>)
  {
    && |ds| == 8
    && ds[0] == Vector2D(-1, -1) && ds[1] == Vector2D(-1, 0) && ds[2] == Vector2D(-1, 1)
    && ds[3] == Vector2D(0, -1) && ds[4] == Vector2D(0, 1)
    && ds[5] == Vector2D(1, -1) && ds[6] == Vector2D(1, 0) && ds[7] == Vector2D(1, 1)
  }

  /** One column of the nested loops is the next three (two for dx = 0) visits of a column-ordered ds. */
  lemma ColumnVisits(cs: seq<Cell>, src: Vector2D, ds: seq<Vector2D>, j: int, n: nat)
    requires ColumnOrder(ds) && -1 <= j <= 1
    requires n == (if j == -1 then 0 else if j == 0 then 3 else 5)
    ensures ColumnFrom(TouchAll(cs, src, ds, n), src, j, -1) == TouchAll(cs, src, ds, if j == 0 then n + 2 else n + 3)
  {
    var t0 := TouchAll(cs, src, ds, n);
    var t1 := TouchAll(cs, src, ds, n + 1);
    var t2 := TouchAll(cs, src, ds, n + 2);
    assert t1 == Touch(t0, src.Add(j, -1));
    if j == 0 {
      assert t2 == Touch(t1, src.Add(j, 1));
      assert ColumnFrom(t0, src, j, -1) == ColumnFrom(t1, src, j, 0) == ColumnFrom(t1, src, j, 1) == ColumnFrom(t2, src, j, 2);
    } else {
      var t3 := TouchAll(cs, src, ds, n + 3);
      assert t2 == Touch(t1, src.Add(j, 0));
      assert t3 == Touch(t2, src.Add(j, 1));
      assert ColumnFrom(t0, src, j, -1) == ColumnFrom(t1, src, j, 0) == ColumnFrom(t2, src, j, 1) == ColumnFrom(t3, src, j, 2);
    }
  }

  /** The visits of the two nested loops are the visits of Offsets, in the order Offsets lists them. */
  lemma ColumnsVisitOffsets(cs: seq<Cell>, src: Vector2D)
    ensures ColumnsFrom(cs, src, -1) == TouchAll(cs, src, Offsets, |Offsets|)
  {
    var ds := Offsets;
    assert ColumnOrder(ds);
    ColumnsVisitInOrder(cs, src, ds);
  }

  lemma ColumnsVisitInOrder(cs: seq<Cell>, src: Vector2D, ds: seq<Vector2D>)
    requires ColumnOrder(ds)
    ensures ColumnsFrom(cs, src, -1) == TouchAll(cs, src, ds, 8)
  {
    var c0, c1, c2 := TouchAll(cs, src, ds, 3), TouchAll(cs, src, ds, 5), TouchAll(cs, src, ds, 8);
    assert TouchAll(cs, src, ds, 0) == cs;
    ColumnVisits(cs, src, ds, -1, 0);
    ColumnsStep(cs, src, -1, c0);
    ColumnVisits(cs, src, ds, 0, 3);
    ColumnsStep(c0, src, 0, c1);
    ColumnVisits(cs, src, ds, 1, 5);
    ColumnsStep(c1, src, 1, c2);
  }

  /** The outer loop, one column further on. */
  lemma ColumnsStep(cs: seq<Cell>, src: Vector2D, j: int, c: seq<Cell>)
    requires -1 <= j <= 1 && ColumnFrom(cs, src, j, -1) == c
    ensures ColumnsFrom(cs, src, j) == ColumnsFrom(c, src, j + 1)
    ensures j == 1 ==> ColumnsFrom(cs, src, j) == c
  {
  }

  class GameManager {
    var entities: seq<Entity>
    /** Enough entity objects to cover the entries: what the passes may change. */
    ghost var Repr: set<Entity>

    /** Every entry is its own object, so changing one entry changes no other. */
    ghost predicate Valid()
      reads this
    {
      && (forall a, b :: 0 <= a < b < |entities| ==> entities[a] != entities[b])
      && (forall k :: 0 <= k < |entities| ==> entities[k] in Repr)
    }

    /** The states of the entries, in list order. */
    ghost function Cells(): seq<Cell>
      reads this, entities
    {
      Snapshot(entities)
    }

    /** A new engine tracks no entity. */
    constructor ()
      ensures Valid() && Cells() == []
    {
      entities := [];
      Repr := {};
    }

    /** addEntity: one new entity at the end, with the given position and flag and count 0. */
    method AddEntity(position: Vector2D, isAlive: bool)
      requires Valid()
      modifies this
      ensures Valid()
      ensures |entities| == |old(entities)| + 1 && entities[..|old(entities)|] == old(entities)
      ensures fresh(entities[|entities| - 1]) && Repr == old(Repr) + {entities[|entities| - 1]}
      ensures Cells() == old(Cells()) + [Cell(position, isAlive, 0)]
    {
      var e := new Entity(position);
      entities := entities + [e];
      Repr := Repr + {e};
      entities[|entities| - 1].SetAlive(isAlive);
      assert entities[..|entities| - 1] == old(entities);
    }

    /** deleteEntity: the entry at index leaves the list; the others keep their order and state. */
    method DeleteEntity(index: int)
      requires Valid() && 0 <= index < |entities|
      modifies this
      ensures Valid()
      ensures entities == old(entities[..index] + entities[index + 1..]) && Repr == old(Repr)
      ensures Cells() == old(Cells()[..index] + Cells()[index + 1..])
    {
      entities := entities[..index] + entities[index + 1..];
    }

    /** isEntityAtPosition: the first index whose position equals the given one, or -1 if none does. */
    method IsEntityAtPosition(position: Vector2D) returns (index: int)
      ensures -1 <= index < |entities|
      ensures index == -1 <==> forall k :: 0 <= k < |entities| ==> !entities[k].position.IsEqual(position)
      ensures 0 <= index ==> entities[index].position == position &&
                             forall k :: 0 <= k < index ==> entities[k].position != position
      ensures index == IndexOf(Cells(), position)
    {
      var i := 0;
      while i < |entities|
        invariant 0 <= i <= |entities|
        invariant forall k :: 0 <= k < i ==> entities[k].position != position
      {
        if entities[i].position.IsEqual(position) {
          return i;
        }
        i := i + 1;
      }
      return -1;
    }

    /**
     * The visit of one neighbour position in Entity.updateNeighbours: the entity
     * there counts one more neighbour, or a dead one is appended with count 1.
     */
    method TouchNeighbour(neighbourPosition: Vector2D)
      requires Valid()
      modifies this, Repr
      ensures Valid()
      ensures old(Repr) <= Repr && fresh(Repr - old(Repr))
      ensures Cells() == Touch(old(Cells()), neighbourPosition)
    {
      ghost var cs := Cells();
      var neighbourIndex := IsEntityAtPosition(neighbourPosition);
      if neighbourIndex != -1 {
        ghost var bumped := cs[neighbourIndex := cs[neighbourIndex].(count := cs[neighbourIndex].count + 1)];
        assert Touch(cs, neighbourPosition) == bumped;
        entities[neighbourIndex].IncrementNeighbourNum();
        forall k | 0 <= k < |entities| ensures Cells()[k] == bumped[k] {
          if k != neighbourIndex {
            assert entities[k] != entities[neighbourIndex];
          }
        }
        assert Cells() == bumped;
      } else {
        ghost var appended := cs + [Cell(neighbourPosition, false, 1)];
        assert Touch(cs, neighbourPosition) == appended;
        AddEntity(neighbourPosition, false);
        ghost var added := Cells();
        entities[|entities| - 1].IncrementNeighbourNum();
        forall k | 0 <= k < |entities| ensures Cells()[k] == appended[k] {
          if k < |cs| {
            assert entities[k] != entities[|cs|];
            assert Cells()[k] == added[k];
          }
        }
        assert Cells() == appended;
      }
    }

    /**
     * The inner loop of Entity.updateNeighbours: the visits of column dx = j,
     * dy = k from -1 to 1, skipping (0, 0), the position itself.
     */
    method UpdateNeighboursColumn(position: Vector2D, j: int)
      requires Valid() && -1 <= j <= 1
      modifies this, Repr
      ensures Valid()
      ensures old(Repr) <= Repr && fresh(Repr - old(Repr))
      ensures Cells() == ColumnFrom(old(Cells()), position, j, -1)
    {
      var yDif := 1;
      var k := -yDif;
      while k <= yDif
        invariant -1 <= k <= 2
        invariant Valid()
        invariant old(Repr) <= Repr && fresh(Repr - old(Repr))
        invariant ColumnFrom(Cells(), position, j, k) == ColumnFrom(old(Cells()), position, j, -1)
      {
        if !(k == 0 && j == 0) {
          TouchNeighbour(position.Add(j, k));
        }
        k := k + 1;
      }
    }

    /**
     * Entity.updateNeighbours for the entity at index i: nothing if it is dead,
     * otherwise a visit of its eight neighbours, dx = j outer and dy = k inner.
     */
    method UpdateNeighboursOf(i: nat)
      requires Valid() && i < |entities|
      modifies this, Repr
      ensures Valid()
      ensures old(Repr) <= Repr && fresh(Repr - old(Repr))
      ensures Cells() == PropagateEntity(old(Cells()), i)
    {
      var xDif := 1;
      if !entities[i].isAlive {
        return;
      }
      ghost var cs0 := Cells();
      var position := entities[i].position;
      var j := -xDif;
      while j <= xDif
        invariant -1 <= j <= 2
        invariant Valid()
        invariant old(Repr) <= Repr && fresh(Repr - old(Repr))
        invariant ColumnsFrom(Cells(), position, j) == ColumnsFrom(cs0, position, -1)
      {
        ghost var before := Cells();
        UpdateNeighboursColumn(position, j);
        ColumnsStep(before, position, j, Cells());
        j := j + 1;
      }
      ColumnsVisitOffsets(cs0, position);
    }

    /** updateNeighbours: the propagate pass; it re-reads the length, so appended (dead) entries are visited too. */
    method UpdateNeighbours()
      requires Valid()
      modifies this, Repr
      ensures Valid()
      ensures old(Repr) <= Repr && fresh(Repr - old(Repr))
      ensures Cells() == Propagate(old(Cells()))
    {
      ghost var cs0 := Cells();
      ghost var n0 := |entities|;
      var i := 0;
      while i < |entities|
        invariant Valid()
        invariant old(Repr) <= Repr && fresh(Repr - old(Repr))
        invariant Cells() == PropagateUpTo(cs0, if i <= n0 then i else n0)
        invariant i <= |entities|
        decreases if i <= n0 then n0 - i else 0, |entities| - i
      {
        PropagateUpToNext(cs0, i);
        UpdateNeighboursOf(i);
        i := i + 1;
      }
    }

    /** resetEntityNeighbours: every count becomes 0; positions, flags and the list stay. */
    method ResetEntityNeighbours()
      requires Valid()
      modifies Repr
      ensures Cells() == ResetCounts(old(Cells()))
    {
      var i := 0;
      while i < |entities|
        invariant 0 <= i <= |entities|
        invariant forall k :: 0 <= k < i ==> entities[k].View() == old(entities[k].View()).(count := 0)
        invariant forall k :: i <= k < |entities| ==> entities[k].View() == old(entities[k].View())
      {
        entities[i].SetNeighbourNum(0);
        i := i + 1;
      }
    }

    /** updateEntities: the rule on every entry, from its own count. */
    method UpdateEntities()
      requires Valid()
      modifies Repr
      ensures Cells() == ApplyRule(old(Cells()))
    {
      var i := 0;
      while i < |entities|
        invariant 0 <= i <= |entities|
        invariant forall k :: 0 <= k < i ==>
                    entities[k].View() == old(entities[k].View()).(alive := Rule(old(entities[k].isAlive), old(entities[k].neighbourNum)))
        invariant forall k :: i <= k < |entities| ==> entities[k].View() == old(entities[k].View())
      {
        entities[i].Update();
        i := i + 1;
      }
    }

    /** cleanUpEntities: the entries with count 0 leave; `i--` re-examines the index a removal refilled. */
    method CleanUpEntities()
      requires Valid()
      modifies this
      ensures Valid()
      ensures Repr == old(Repr)
      ensures Cells() == Prune(old(Cells()))
    {
      ghost var cs0 := Cells();
      var i := 0;
      while i < |entities|
        invariant Valid()
        invariant Repr == old(Repr)
        invariant 0 <= i <= |entities|
        invariant CleanUpFrom(Cells(), i) == CleanUpFrom(cs0, 0)
        decreases |entities| - i
      {
        if entities[i].neighbourNum == 0 {
          DeleteEntity(i);
          i := i - 1;
        }
        i := i + 1;
      }
      CleanUpIsPrune(cs0);
    }

    /**
     * One generation (lines 67-70 of GameManager.run). On a list with one entry
     * per position, the live set becomes its Conway successor, positions stay
     * unique and every remaining entry counts at least one live neighbour.
     */
    method Step()
      requires Valid()
      modifies this, Repr
      ensures Valid()
      ensures Cells() == Generation(old(Cells()))
      ensures UniquePositions(old(Cells())) ==>
                && UniquePositions(Cells())
                && LiveSet(Cells()) == Next(LiveSet(old(Cells())))
                && forall k :: 0 <= k < |entities| ==> entities[k].neighbourNum >= 1
    {
      ResetEntityNeighbours();
      UpdateNeighbours();
      UpdateEntities();
      CleanUpEntities();
      if UniquePositions(old(Cells())) {
        GenerationCorrect(old(Cells()));
      }
    }

    /** getEntityBounds: the smallest rectangle covering every entry, dead or alive. */
    method GetEntityBounds() returns (bounds: Rectangle)
      ensures bounds == Bounds(Cells())
    {
      bounds := Rectangle(0, 0, 0, 0);
      if |entities| == 0 {
        return bounds;
      }
      ghost var xs, ys := Xs(Cells()), Ys(Cells());
      bounds := bounds.(x := entities[0].position.x, y := entities[0].position.y);
      var i := 0;
      while i < |entities|
        invariant 0 <= i <= |entities|
        invariant bounds.x == MinUpTo(xs, i) && bounds.y == MinUpTo(ys, i)
        invariant bounds.width == 0 && bounds.height == 0
      {
        var currentPos := entities[i].position;
        assert xs[i] == currentPos.x && ys[i] == currentPos.y;
        if currentPos.x < bounds.x {
          bounds := bounds.(x := currentPos.x);
        }
        if currentPos.y < bounds.y {
          bounds := bounds.(y := currentPos.y);
        }
        i := i + 1;
      }
      ghost var x0, y0 := bounds.x, bounds.y;
      i := 0;
      while i < |entities|
        invariant 0 <= i <= |entities|
        invariant bounds == Rectangle(x0, y0, SpanUpTo(xs, x0, i), SpanUpTo(ys, y0, i))
      {
        var currentPos := entities[i].position;
        assert xs[i] == currentPos.x && ys[i] == currentPos.y;
        if currentPos.x - bounds.x > bounds.width {
          bounds := bounds.(width := currentPos.x - bounds.x);
        }
        if currentPos.y - bounds.y > bounds.height {
          bounds := bounds.(height := currentPos.y - bounds.y);
        }
        i := i + 1;
      }
    }

    /** The grid-building part of saveStateToFile: the rows that would be written to the file. */
    method SaveStateToFile() returns (state: seq<string>)
      ensures SavedGrid(state, Cells())
    {
      var entityBounds := GetEntityBounds();
      ghost var cs := Cells();
      BoundsIsSmallestCover(cs);
      state := [];
      var emptyRow: string := [];
      var i := 0;
      while i <= entityBounds.width
        invariant 0 <= i <= entityBounds.width + 1
        invariant |emptyRow| == i && forall c :: 0 <= c < i ==> emptyRow[c] == '0'
      {
        emptyRow := emptyRow + "0";
        i := i + 1;
      }
      i := 0;
      while i <= entityBounds.height
        invariant 0 <= i <= entityBounds.height + 1
        invariant |state| == i && forall r :: 0 <= r < i ==> state[r] == emptyRow
      {
        state := state + [emptyRow];
        i := i + 1;
      }
      BlankGrid(state, entityBounds);
      assert LiveSet(cs[..0]) == {};
      i := 0;
      while i < |entities|
        invariant 0 <= i <= |entities|
        invariant GridOf(state, entityBounds, LiveSet(cs[..i]))
      {
        LiveSetStep(cs, i);
        assert cs[i] == entities[i].View();
        if entities[i].isAlive {
          var entityPos := entities[i].position;
          var stateColumnIndex := entityPos.x - entityBounds.x;
          var stateRowIndex := entityPos.y - entityBounds.y;
          MarkGrid(state, entityBounds, LiveSet(cs[..i]), entityPos);
          var entityRow := state[stateRowIndex];
          entityRow := entityRow[stateColumnIndex := '#'];
          state := state[stateRowIndex := entityRow];
          assert LiveSet(cs[..i + 1]) == LiveSet(cs[..i]) + {entityPos};
        } else {
          assert LiveSet(cs[..i + 1]) == LiveSet(cs[..i]);
        }
        i := i + 1;
      }
      assert cs[..i] == cs;
    }

    /**
     * loadStateFromFile, given the outcome of reading the file: the list is
     * cleared first, then a live entity is added at (j, i) for each '#' at
     * column j of line i; a failed read leaves the list empty.
     */
    method LoadStateFromFile(read: ReadResult)
      modifies this
      ensures Valid()
      ensures Cells() == LoadCells(read)
    {
      var state: seq<string> := [];
      entities := [];
      Repr := {};
      if read.Lines? {
        state := read.lines;
      }
      var i := 0;
      while i < |state|
        invariant 0 <= i <= |state|
        invariant Valid()
        invariant Cells() == ScanLines(state, i)
      {
        var currentItr := state[i];
        ghost var done := ScanLines(state, i);
        var j := 0;
        while j < |currentItr|
          invariant 0 <= j <= |currentItr|
          invariant Valid()
          invariant Cells() == done + ScanLine(currentItr, i, j)
        {
          ScanLineStep(currentItr, i, j);
          if currentItr[j] == '#' {
            AddEntity(Vector2D(j, i), true);
          }
          j := j + 1;
        }
        ScanLinesStep(state, i);
        i := i + 1;
      }
    }
  }
}
