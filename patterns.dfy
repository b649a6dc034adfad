/** Small patterns with known behaviour under one step of `Cells.Next`:
    an isolated cell dies, the block is a still life, the blinker has period 2. */
module Patterns {
  import opened Cells

  /** A single live cell in the middle of a 3-by-3 interior. */
  function Lonely(): Grid { ["-----", "-----", "--*--", "-----", "-----"] }

  /** A 3-by-3 interior with no live cell. */
  function Empty(): Grid { ["-----", "-----", "-----", "-----", "-----"] }

  /** A 2-by-2 block in the middle of a 4-by-4 interior. */
  function Block(): Grid { ["------", "------", "--**--", "--**--", "------", "------"] }

  /** The blinker as a row of three ... */
  function BlinkerRow(): Grid { ["-----", "-----", "-***-", "-----", "-----"] }

  /** ... and as a column of three. */
  function BlinkerColumn(): Grid { ["-----", "--*--", "--*--", "--*--", "-----"] }

  /** The neighbour count of every interior cell of `Lonely`. */
  lemma LonelyCounts()
    ensures Neighbors(Lonely(), 1, 1) == 1
    ensures Neighbors(Lonely(), 1, 2) == 1
    ensures Neighbors(Lonely(), 1, 3) == 1
    ensures Neighbors(Lonely(), 2, 1) == 1
    ensures Neighbors(Lonely(), 2, 2) == 0
    ensures Neighbors(Lonely(), 2, 3) == 1
    ensures Neighbors(Lonely(), 3, 1) == 1
    ensures Neighbors(Lonely(), 3, 2) == 1
    ensures Neighbors(Lonely(), 3, 3) == 1
  {
    assert Neighbors(Lonely(), 1, 1) == 1 by { NeighborsUnrolled(Lonely(), 1, 1); }
    assert Neighbors(Lonely(), 1, 2) == 1 by { NeighborsUnrolled(Lonely(), 1, 2); }
    assert Neighbors(Lonely(), 1, 3) == 1 by { NeighborsUnrolled(Lonely(), 1, 3); }
    assert Neighbors(Lonely(), 2, 1) == 1 by { NeighborsUnrolled(Lonely(), 2, 1); }
    assert Neighbors(Lonely(), 2, 2) == 0 by { NeighborsUnrolled(Lonely(), 2, 2); }
    assert Neighbors(Lonely(), 2, 3) == 1 by { NeighborsUnrolled(Lonely(), 2, 3); }
    assert Neighbors(Lonely(), 3, 1) == 1 by { NeighborsUnrolled(Lonely(), 3, 1); }
    assert Neighbors(Lonely(), 3, 2) == 1 by { NeighborsUnrolled(Lonely(), 3, 2); }
    assert Neighbors(Lonely(), 3, 3) == 1 by { NeighborsUnrolled(Lonely(), 3, 3); }
  }

  /** The neighbour count of every interior cell of `Block`. */
  lemma BlockCounts()
    ensures Neighbors(Block(), 1, 1) == 1
    ensures Neighbors(Block(), 1, 2) == 2
    ensures Neighbors(Block(), 1, 3) == 2
    ensures Neighbors(Block(), 1, 4) == 1
    ensures Neighbors(Block(), 2, 1) == 2
    ensures Neighbors(Block(), 2, 2) == 3
    ensures Neighbors(Block(), 2, 3) == 3
    ensures Neighbors(Block(), 2, 4) == 2
    ensures Neighbors(Block(), 3, 1) == 2
    ensures Neighbors(Block(), 3, 2) == 3
    ensures Neighbors(Block(), 3, 3) == 3
    ensures Neighbors(Block(), 3, 4) == 2
    ensures Neighbors(Block(), 4, 1) == 1
    ensures Neighbors(Block(), 4, 2) == 2
    ensures Neighbors(Block(), 4, 3) == 2
    ensures Neighbors(Block(), 4, 4) == 1
  {
    assert Neighbors(Block(), 1, 1) == 1 by { NeighborsUnrolled(Block(), 1, 1); }
    assert Neighbors(Block(), 1, 2) == 2 by { NeighborsUnrolled(Block(), 1, 2); }
    assert Neighbors(Block(), 1, 3) == 2 by { NeighborsUnrolled(Block(), 1, 3); }
    assert Neighbors(Block(), 1, 4) == 1 by { NeighborsUnrolled(Block(), 1, 4); }
    assert Neighbors(Block(), 2, 1) == 2 by { NeighborsUnrolled(Block(), 2, 1); }
    assert Neighbors(Block(), 2, 2) == 3 by { NeighborsUnrolled(Block(), 2, 2); }
    assert Neighbors(Block(), 2, 3) == 3 by { NeighborsUnrolled(Block(), 2, 3); }
    assert Neighbors(Block(), 2, 4) == 2 by { NeighborsUnrolled(Block(), 2, 4); }
    assert Neighbors(Block(), 3, 1) == 2 by { NeighborsUnrolled(Block(), 3, 1); }
    assert Neighbors(Block(), 3, 2) == 3 by { NeighborsUnrolled(Block(), 3, 2); }
    assert Neighbors(Block(), 3, 3) == 3 by { NeighborsUnrolled(Block(), 3, 3); }
    assert Neighbors(Block(), 3, 4) == 2 by { NeighborsUnrolled(Block(), 3, 4); }
    assert Neighbors(Block(), 4, 1) == 1 by { NeighborsUnrolled(Block(), 4, 1); }
    assert Neighbors(Block(), 4, 2) == 2 by { NeighborsUnrolled(Block(), 4, 2); }
    assert Neighbors(Block(), 4, 3) == 2 by { NeighborsUnrolled(Block(), 4, 3); }
    assert Neighbors(Block(), 4, 4) == 1 by { NeighborsUnrolled(Block(), 4, 4); }
  }

  /** The neighbour count of every interior cell of `BlinkerRow`. */
  lemma BlinkerRowCounts()
    ensures Neighbors(BlinkerRow(), 1, 1) == 2
    ensures Neighbors(BlinkerRow(), 1, 2) == 3
    ensures Neighbors(BlinkerRow(), 1, 3) == 2
    ensures Neighbors(BlinkerRow(), 2, 1) == 1
    ensures Neighbors(BlinkerRow(), 2, 2) == 2
    ensures Neighbors(BlinkerRow(), 2, 3) == 1
    ensures Neighbors(BlinkerRow(), 3, 1) == 2
    ensures Neighbors(BlinkerRow(), 3, 2) == 3
    ensures Neighbors(BlinkerRow(), 3, 3) == 2
  {
    assert Neighbors(BlinkerRow(), 1, 1) == 2 by { NeighborsUnrolled(BlinkerRow(), 1, 1); }
    assert Neighbors(BlinkerRow(), 1, 2) == 3 by { NeighborsUnrolled(BlinkerRow(), 1, 2); }
    assert Neighbors(BlinkerRow(), 1, 3) == 2 by { NeighborsUnrolled(BlinkerRow(), 1, 3); }
    assert Neighbors(BlinkerRow(), 2, 1) == 1 by { NeighborsUnrolled(BlinkerRow(), 2, 1); }
    assert Neighbors(BlinkerRow(), 2, 2) == 2 by { NeighborsUnrolled(BlinkerRow(), 2, 2); }
    assert Neighbors(BlinkerRow(), 2, 3) == 1 by { NeighborsUnrolled(BlinkerRow(), 2, 3); }
    assert Neighbors(BlinkerRow(), 3, 1) == 2 by { NeighborsUnrolled(BlinkerRow(), 3, 1); }
    assert Neighbors(BlinkerRow(), 3, 2) == 3 by { NeighborsUnrolled(BlinkerRow(), 3, 2); }
    assert Neighbors(BlinkerRow(), 3, 3) == 2 by { NeighborsUnrolled(BlinkerRow(), 3, 3); }
  }

  /** The neighbour count of every interior cell of `BlinkerColumn`. */
  lemma BlinkerColumnCounts()
    ensures Neighbors(BlinkerColumn(), 1, 1) == 2
    ensures Neighbors(BlinkerColumn(), 1, 2) == 1
    ensures Neighbors(BlinkerColumn(), 1, 3) == 2
    ensures Neighbors(BlinkerColumn(), 2, 1) == 3
    ensures Neighbors(BlinkerColumn(), 2, 2) == 2
    ensures Neighbors(BlinkerColumn(), 2, 3) == 3
    ensures Neighbors(BlinkerColumn(), 3, 1) == 2
    ensures Neighbors(BlinkerColumn(), 3, 2) == 1
    ensures Neighbors(BlinkerColumn(), 3, 3) == 2
  {
    assert Neighbors(BlinkerColumn(), 1, 1) == 2 by { NeighborsUnrolled(BlinkerColumn(), 1, 1); }
    assert Neighbors(BlinkerColumn(), 1, 2) == 1 by { NeighborsUnrolled(BlinkerColumn(), 1, 2); }
    assert Neighbors(BlinkerColumn(), 1, 3) == 2 by { NeighborsUnrolled(BlinkerColumn(), 1, 3); }
    assert Neighbors(BlinkerColumn(), 2, 1) == 3 by { NeighborsUnrolled(BlinkerColumn(), 2, 1); }
    assert Neighbors(BlinkerColumn(), 2, 2) == 2 by { NeighborsUnrolled(BlinkerColumn(), 2, 2); }
    assert Neighbors(BlinkerColumn(), 2, 3) == 3 by { NeighborsUnrolled(BlinkerColumn(), 2, 3); }
    assert Neighbors(BlinkerColumn(), 3, 1) == 2 by { NeighborsUnrolled(BlinkerColumn(), 3, 1); }
    assert Neighbors(BlinkerColumn(), 3, 2) == 1 by { NeighborsUnrolled(BlinkerColumn(), 3, 2); }
    assert Neighbors(BlinkerColumn(), 3, 3) == 2 by { NeighborsUnrolled(BlinkerColumn(), 3, 3); }
  }

  lemma LonelyCellDiesRow0()
    ensures forall j | 0 <= j < 5 :: Next(Lonely())[0][j] == Empty()[0][j]
  {
  }

  lemma LonelyCellDiesRow1()
    ensures forall j | 0 <= j < 5 :: Next(Lonely())[1][j] == Empty()[1][j]
  {
    LonelyCounts();
    forall j | 0 <= j < 5 ensures Next(Lonely())[1][j] == Empty()[1][j] {
      if j == 0 {
        assert j == 0;
      } else if j == 1 {
        assert j == 1;
      } else if j == 2 {
        assert j == 2;
      } else if j == 3 {
        assert j == 3;
      } else {
        assert j == 4;
      }
    }
  }

  lemma LonelyCellDiesRow2()
    ensures forall j | 0 <= j < 5 :: Next(Lonely())[2][j] == Empty()[2][j]
  {
    LonelyCounts();
    forall j | 0 <= j < 5 ensures Next(Lonely())[2][j] == Empty()[2][j] {
      if j == 0 {
        assert j == 0;
      } else if j == 1 {
        assert j == 1;
      } else if j == 2 {
        assert j == 2;
      } else if j == 3 {
        assert j == 3;
      } else {
        assert j == 4;
      }
    }
  }

  lemma LonelyCellDiesRow3()
    ensures forall j | 0 <= j < 5 :: Next(Lonely())[3][j] == Empty()[3][j]
  {
    LonelyCounts();
    forall j | 0 <= j < 5 ensures Next(Lonely())[3][j] == Empty()[3][j] {
      if j == 0 {
        assert j == 0;
      } else if j == 1 {
        assert j == 1;
      } else if j == 2 {
        assert j == 2;
      } else if j == 3 {
        assert j == 3;
      } else {
        assert j == 4;
      }
    }
  }

  lemma LonelyCellDiesRow4()
    ensures forall j | 0 <= j < 5 :: Next(Lonely())[4][j] == Empty()[4][j]
  {
  }

  /** Underpopulation: the lonely cell dies, and nothing is born. */
  lemma LonelyCellDies()
    ensures Next(Lonely()) == Empty()
  {
    LonelyCellDiesRow0();
    LonelyCellDiesRow1();
    LonelyCellDiesRow2();
    LonelyCellDiesRow3();
    LonelyCellDiesRow4();
    forall i | 0 <= i < 5 ensures Next(Lonely())[i] == Empty()[i] {
      if i == 0 {
        assert i == 0;
      } else if i == 1 {
        assert i == 1;
      } else if i == 2 {
        assert i == 2;
      } else if i == 3 {
        assert i == 3;
      } else {
        assert i == 4;
      }
    }
  }

  lemma BlockIsStillRow0()
    ensures forall j | 0 <= j < 6 :: Next(Block())[0][j] == Block()[0][j]
  {
  }

  lemma BlockIsStillRow1()
    ensures forall j | 0 <= j < 6 :: Next(Block())[1][j] == Block()[1][j]
  {
    BlockCounts();
    forall j | 0 <= j < 6 ensures Next(Block())[1][j] == Block()[1][j] {
      if j == 0 {
        assert j == 0;
      } else if j == 1 {
        assert j == 1;
      } else if j == 2 {
        assert j == 2;
      } else if j == 3 {
        assert j == 3;
      } else if j == 4 {
        assert j == 4;
      } else {
        assert j == 5;
      }
    }
  }

  lemma BlockIsStillRow2()
    ensures forall j | 0 <= j < 6 :: Next(Block())[2][j] == Block()[2][j]
  {
    BlockCounts();
    forall j | 0 <= j < 6 ensures Next(Block())[2][j] == Block()[2][j] {
      if j == 0 {
        assert j == 0;
      } else if j == 1 {
        assert j == 1;
      } else if j == 2 {
        assert j == 2;
      } else if j == 3 {
        assert j == 3;
      } else if j == 4 {
        assert j == 4;
      } else {
        assert j == 5;
      }
    }
  }

  lemma BlockIsStillRow3()
    ensures forall j | 0 <= j < 6 :: Next(Block())[3][j] == Block()[3][j]
  {
    BlockCounts();
    forall j | 0 <= j < 6 ensures Next(Block())[3][j] == Block()[3][j] {
      if j == 0 {
        assert j == 0;
      } else if j == 1 {
        assert j == 1;
      } else if j == 2 {
        assert j == 2;
      } else if j == 3 {
        assert j == 3;
      } else if j == 4 {
        assert j == 4;
      } else {
        assert j == 5;
      }
    }
  }

  lemma BlockIsStillRow4()
    ensures forall j | 0 <= j < 6 :: Next(Block())[4][j] == Block()[4][j]
  {
    BlockCounts();
    forall j | 0 <= j < 6 ensures Next(Block())[4][j] == Block()[4][j] {
      if j == 0 {
        assert j == 0;
      } else if j == 1 {
        assert j == 1;
      } else if j == 2 {
        assert j == 2;
      } else if j == 3 {
        assert j == 3;
      } else if j == 4 {
        assert j == 4;
      } else {
        assert j == 5;
      }
    }
  }

  lemma BlockIsStillRow5()
    ensures forall j | 0 <= j < 6 :: Next(Block())[5][j] == Block()[5][j]
  {
  }

  /** Still life: the block is unchanged. */
  lemma BlockIsStill()
    ensures Next(Block()) == Block()
  {
    BlockIsStillRow0();
    BlockIsStillRow1();
    BlockIsStillRow2();
    BlockIsStillRow3();
    BlockIsStillRow4();
    BlockIsStillRow5();
    forall i | 0 <= i < 6 ensures Next(Block())[i] == Block()[i] {
      if i == 0 {
        assert i == 0;
      } else if i == 1 {
        assert i == 1;
      } else if i == 2 {
        assert i == 2;
      } else if i == 3 {
        assert i == 3;
      } else if i == 4 {
        assert i == 4;
      } else {
        assert i == 5;
      }
    }
  }

  lemma BlinkerTurnsRow0()
    ensures forall j | 0 <= j < 5 :: Next(BlinkerRow())[0][j] == BlinkerColumn()[0][j]
  {
  }

  lemma BlinkerTurnsRow1()
    ensures forall j | 0 <= j < 5 :: Next(BlinkerRow())[1][j] == BlinkerColumn()[1][j]
  {
    BlinkerRowCounts();
    forall j | 0 <= j < 5 ensures Next(BlinkerRow())[1][j] == BlinkerColumn()[1][j] {
      if j == 0 {
        assert j == 0;
      } else if j == 1 {
        assert j == 1;
      } else if j == 2 {
        assert j == 2;
      } else if j == 3 {
        assert j == 3;
      } else {
        assert j == 4;
      }
    }
  }

  lemma BlinkerTurnsRow2()
    ensures forall j | 0 <= j < 5 :: Next(BlinkerRow())[2][j] == BlinkerColumn()[2][j]
  {
    BlinkerRowCounts();
    forall j | 0 <= j < 5 ensures Next(BlinkerRow())[2][j] == BlinkerColumn()[2][j] {
      if j == 0 {
        assert j == 0;
      } else if j == 1 {
        assert j == 1;
      } else if j == 2 {
        assert j == 2;
      } else if j == 3 {
        assert j == 3;
      } else {
        assert j == 4;
      }
    }
  }

  lemma BlinkerTurnsRow3()
    ensures forall j | 0 <= j < 5 :: Next(BlinkerRow())[3][j] == BlinkerColumn()[3][j]
  {
    BlinkerRowCounts();
    forall j | 0 <= j < 5 ensures Next(BlinkerRow())[3][j] == BlinkerColumn()[3][j] {
      if j == 0 {
        assert j == 0;
      } else if j == 1 {
        assert j == 1;
      } else if j == 2 {
        assert j == 2;
      } else if j == 3 {
        assert j == 3;
      } else {
        assert j == 4;
      }
    }
  }

  lemma BlinkerTurnsRow4()
    ensures forall j | 0 <= j < 5 :: Next(BlinkerRow())[4][j] == BlinkerColumn()[4][j]
  {
  }

  /** Oscillation: the row of three becomes the column ... */
  lemma BlinkerTurns()
    ensures Next(BlinkerRow()) == BlinkerColumn()
  {
    BlinkerTurnsRow0();
    BlinkerTurnsRow1();
    BlinkerTurnsRow2();
    BlinkerTurnsRow3();
    BlinkerTurnsRow4();
    forall i | 0 <= i < 5 ensures Next(BlinkerRow())[i] == BlinkerColumn()[i] {
      if i == 0 {
        assert i == 0;
      } else if i == 1 {
        assert i == 1;
      } else if i == 2 {
        assert i == 2;
      } else if i == 3 {
        assert i == 3;
      } else {
        assert i == 4;
      }
    }
  }

  lemma BlinkerTurnsBackRow0()
    ensures forall j | 0 <= j < 5 :: Next(BlinkerColumn())[0][j] == BlinkerRow()[0][j]
  {
  }

  lemma BlinkerTurnsBackRow1()
    ensures forall j | 0 <= j < 5 :: Next(BlinkerColumn())[1][j] == BlinkerRow()[1][j]
  {
    BlinkerColumnCounts();
    forall j | 0 <= j < 5 ensures Next(BlinkerColumn())[1][j] == BlinkerRow()[1][j] {
      if j == 0 {
        assert j == 0;
      } else if j == 1 {
        assert j == 1;
      } else if j == 2 {
        assert j == 2;
      } else if j == 3 {
        assert j == 3;
      } else {
        assert j == 4;
      }
    }
  }

  lemma BlinkerTurnsBackRow2()
    ensures forall j | 0 <= j < 5 :: Next(BlinkerColumn())[2][j] == BlinkerRow()[2][j]
  {
    BlinkerColumnCounts();
    forall j | 0 <= j < 5 ensures Next(BlinkerColumn())[2][j] == BlinkerRow()[2][j] {
      if j == 0 {
        assert j == 0;
      } else if j == 1 {
        assert j == 1;
      } else if j == 2 {
        assert j == 2;
      } else if j == 3 {
        assert j == 3;
      } else {
        assert j == 4;
      }
    }
  }

  lemma BlinkerTurnsBackRow3()
    ensures forall j | 0 <= j < 5 :: Next(BlinkerColumn())[3][j] == BlinkerRow()[3][j]
  {
    BlinkerColumnCounts();
    forall j | 0 <= j < 5 ensures Next(BlinkerColumn())[3][j] == BlinkerRow()[3][j] {
      if j == 0 {
        assert j == 0;
      } else if j == 1 {
        assert j == 1;
      } else if j == 2 {
        assert j == 2;
      } else if j == 3 {
        assert j == 3;
      } else {
        assert j == 4;
      }
    }
  }

  lemma BlinkerTurnsBackRow4()
    ensures forall j | 0 <= j < 5 :: Next(BlinkerColumn())[4][j] == BlinkerRow()[4][j]
  {
  }

  /** ... and the column turns back into the row: period 2. */
  lemma BlinkerTurnsBack()
    ensures Next(BlinkerColumn()) == BlinkerRow()
  {
    BlinkerTurnsBackRow0();
    BlinkerTurnsBackRow1();
    BlinkerTurnsBackRow2();
    BlinkerTurnsBackRow3();
    BlinkerTurnsBackRow4();
    forall i | 0 <= i < 5 ensures Next(BlinkerColumn())[i] == BlinkerRow()[i] {
      if i == 0 {
        assert i == 0;
      } else if i == 1 {
        assert i == 1;
      } else if i == 2 {
        assert i == 2;
      } else if i == 3 {
        assert i == 3;
      } else {
        assert i == 4;
      }
    }
  }

}
