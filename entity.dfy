/**
 * One tracked grid position (Entity.java): its position, whether it is alive,
 * and the neighbour count collected during a generation. Drawing, the screen
 * offset `startPosition` and the back-reference to the game manager are not
 * modelled; Entity.updateNeighbours, which works through that back-reference,
 * is GameManager.UpdateNeighboursOf.
 */
module Entities {
  import opened Vectors
  import opened Conway
  import opened Passes

  class Entity {
    /** The position never changes once the entity exists (setPosition is never called). */
    const position: Vector2D
    var isAlive: bool
    var neighbourNum: int

    /** A new entity is dead and has no neighbours counted. */
    constructor (position: Vector2D)
      ensures this.position == position && !isAlive && neighbourNum == 0
    {
      this.position := position;
      isAlive := false;
      neighbourNum := 0;
    }

    /** The entity's state as a value. */
    ghost function View(): Cell
      reads this
    {
      Cell(position, isAlive, neighbourNum)
    }

    /** The B3/S23 rule, applied to the entity's own count, which stays as it is. */
    method Update()
      modifies this
      ensures isAlive == Rule(old(isAlive), neighbourNum)
      ensures neighbourNum == old(neighbourNum)
    {
      var birthNum, isolationNum, overPopNum := 3, 1, 4;
      if neighbourNum >= overPopNum || neighbourNum <= isolationNum {
        isAlive := false;
      }
      if neighbourNum == birthNum {
        isAlive := true;
      }
    }

    method IncrementNeighbourNum()
      modifies this
      ensures neighbourNum == old(neighbourNum) + 1 && isAlive == old(isAlive)
    {
      neighbourNum := neighbourNum + 1;
    }

    method ResetNeighbourNum()
      modifies this
      ensures neighbourNum == 0 && isAlive == old(isAlive)
    {
      neighbourNum := 0;
    }

    method SetAlive(isAlive: bool)
      modifies this
      ensures this.isAlive == isAlive && neighbourNum == old(neighbourNum)
    {
      this.isAlive := isAlive;
    }

    method SetNeighbourNum(neighbourNum: int)
      modifies this
      ensures this.neighbourNum == neighbourNum && isAlive == old(isAlive)
    {
      this.neighbourNum := neighbourNum;
    }
  }

  /** The states of a list of entities, entry by entry. */
  ghost function Snapshot(es: seq<Entity>): (cs: seq<Cell>)
    reads es
    ensures |cs| == |es|
    ensures forall k :: 0 <= k < |es| ==> cs[k] == es[k].View()
  {
    seq(|es|, k requires 0 <= k < |es| reads es => es[k].View())
  }
}
