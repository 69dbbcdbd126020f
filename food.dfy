/** The food of main.cpp:109-137: one cell, placed anew from two random
    draws. The draws are parameters here; rand() yields non-negative
    values, for which the remainder of C++ and of Dafny agree. */
module FoodModel {
  import opened Grid

  /** Where respawn puts the food for the draws r1 and r2
      (main.cpp:124-126): each draw reduced modulo GridSize. */
  function SpawnCell(r1: nat, r2: nat): (c: Cell)
    ensures InGrid(c)
    ensures (c.x - r1) % GridSize == 0 && (c.y - r2) % GridSize == 0
  {
    Cell(r1 % GridSize, r2 % GridSize)
  }

  /** Every cell of the field is a possible spawn point, cells under the
      snake included: nothing excludes occupied cells. */
  lemma SpawnCoversGrid(c: Cell)
    requires InGrid(c)
    ensures SpawnCell(c.x, c.y) == c
  {
  }

  /** Draws that differ by a multiple of GridSize give the same cell. */
  lemma SpawnPeriodic(r1: nat, r2: nat, k1: nat, k2: nat)
    ensures SpawnCell(r1 + k1 * GridSize, r2 + k2 * GridSize) == SpawnCell(r1, r2)
  {
    var c := SpawnCell(r1 + k1 * GridSize, r2 + k2 * GridSize);
    assert (c.x - r1) % GridSize == 0 by {
      assert c.x - r1 == (c.x - (r1 + k1 * GridSize)) + k1 * GridSize;
    }
    assert (c.y - r2) % GridSize == 0 by {
      assert c.y - r2 == (c.y - (r2 + k2 * GridSize)) + k2 * GridSize;
    }
  }

  class Food {
    var position: Cell

    /** main.cpp:120-122: a new food is placed by one respawn. */
    constructor (r1: nat, r2: nat)
      ensures position == SpawnCell(r1, r2)
      ensures InGrid(position)
    {
      position := SpawnCell(r1, r2);
    }

    /** main.cpp:124-126. */
    method Respawn(r1: nat, r2: nat)
      modifies this
      ensures position == SpawnCell(r1, r2)
      ensures InGrid(position)
    {
      position := SpawnCell(r1, r2);
    }

    /** main.cpp:135-137. */
    method GetPosition() returns (c: Cell)
      ensures c == position
    {
      c := position;
    }
  }
}
