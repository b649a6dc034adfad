/** The step engine of life.c on its padded `array2<char>` world: neighbour
    counting, the scratch count array, the in-place state update, and the
    two-phase `Evolve` proved to compute `Cells.Next` of the pre-call grid. */
module Evolution {
  import opened Cells

  /** Where offset (m, n) sits in `Offsets`, or, for (0, 0), where the next
      offset does: the number of offsets the counting loop has visited before
      it reaches (m, n). */
  function Visited(m: int, n: int): int
  {
    3 * (m + 1) + (n + 1) - (if m > 0 || (m == 0 && n > 0) then 1 else 0)
  }

  lemma OffsetAt(m: int, n: int)
    requires -1 <= m <= 1 && -1 <= n <= 1 && (m, n) != (0, 0)
    ensures 0 <= Visited(m, n) < |Offsets| && Offsets[Visited(m, n)] == (m, n)
  {
  }

  /** Live cells among the first `k` offsets visited from (i, j). */
  ghost function CountedSoFar(g: Grid, i: int, j: int, k: int): nat
    requires Rectangular(g) && IsInterior(g, i, j) && 0 <= k <= |Offsets|
  {
    assert forall d | d in Offsets[..k] :: d in Offsets;
    CountAlive(g, i, j, Offsets[..k])
  }

  /** One step of the counting loop: visiting (m, n) adds its cell, except at
      (0, 0), which is skipped. */
  lemma CountedSoFarStep(g: Grid, i: int, j: int, m: int, n: int)
    requires Rectangular(g) && IsInterior(g, i, j) && -1 <= m <= 1 && -1 <= n <= 1
    ensures 0 <= Visited(m, n) <= Visited(m, n + 1) <= |Offsets|
    ensures CountedSoFar(g, i, j, Visited(m, n + 1))
         == CountedSoFar(g, i, j, Visited(m, n))
            + (if (m != 0 || n != 0) && g[i + m][j + n] == Alive then 1 else 0)
  {
    if m != 0 || n != 0 {
      OffsetAt(m, n);
      var k := Visited(m, n);
      assert Offsets[..k + 1][..k] == Offsets[..k];
    }
  }

  /** cellneighbors: the number of live cells among the eight neighbours of
      interior cell (i, j), read row offset by row offset. */
  method CellNeighbors(world: array2<char>, i: int, j: int) returns (count: int)
    requires 1 <= i < world.Length0 - 1 && 1 <= j < world.Length1 - 1
    ensures count == Neighbors(Snapshot(world), i, j)
    ensures 0 <= count <= 8
  {
    ghost var g := Snapshot(world);
    count := 0;
    var m := -1;
    while m <= 1
      invariant -1 <= m <= 2
      invariant count == CountedSoFar(g, i, j, Visited(m, -1))
    {
      var n := -1;
      while n <= 1
        invariant -1 <= n <= 2
        invariant count == CountedSoFar(g, i, j, Visited(m, n))
      {
        CountedSoFarStep(g, i, j, m, n);
        if m != 0 || n != 0 {
          if world[m + i, n + j] == Alive {
            count := count + 1;
          }
        }
        n := n + 1;
      }
      m := m + 1;
    }
    assert Offsets[..Visited(2, -1)] == Offsets;
  }

  /** createneighborarr: a fresh rows-by-cols count array, every entry 0. */
  method CreateNeighborArr(rows: nat, cols: nat) returns (counts: array2<int>)
    ensures fresh(counts)
    ensures counts.Length0 == rows && counts.Length1 == cols
    ensures forall i, j | 0 <= i < rows && 0 <= j < cols :: counts[i, j] == 0
  {
    counts := new int[rows, cols];
    var i := 0;
    while i < rows
      invariant 0 <= i <= rows
      invariant forall r, c | 0 <= r < i && 0 <= c < cols :: counts[r, c] == 0
    {
      var j := 0;
      while j < cols
        invariant 0 <= j <= cols
        invariant forall r, c | 0 <= r < i && 0 <= c < cols :: counts[r, c] == 0
        invariant forall c | 0 <= c < j :: counts[i, c] == 0
      {
        counts[i, j] := 0;
        j := j + 1;
      }
      i := i + 1;
    }
  }

  /** setstates: every interior cell takes `Step` of its own state and its
      entry in `counts`; the border is not touched. */
  method SetStates(world: array2<char>, counts: array2<int>)
    requires counts.Length0 == world.Length0 && counts.Length1 == world.Length1
    modifies world
    ensures forall i, j | 1 <= i < world.Length0 - 1 && 1 <= j < world.Length1 - 1 ::
      world[i, j] == Step(old(world[i, j]), counts[i, j])
    ensures forall i, j | 0 <= i < world.Length0 && 0 <= j < world.Length1 &&
      !(1 <= i < world.Length0 - 1 && 1 <= j < world.Length1 - 1) :: world[i, j] == old(world[i, j])
  {
    var rows, cols := world.Length0, world.Length1;
    var i := 1;
    while i < rows - 1
      invariant 1 <= i <= if rows >= 2 then rows - 1 else 1
      invariant forall r, c | 1 <= r < i && 1 <= c < cols - 1 ::
        world[r, c] == Step(old(world[r, c]), counts[r, c])
      invariant forall r, c | 0 <= r < rows && 0 <= c < cols && !(1 <= r < i && 1 <= c < cols - 1) ::
        world[r, c] == old(world[r, c])
    {
      var j := 1;
      while j < cols - 1
        invariant 1 <= j <= if cols >= 2 then cols - 1 else 1
        invariant forall r, c | 1 <= r < i && 1 <= c < cols - 1 ::
          world[r, c] == Step(old(world[r, c]), counts[r, c])
        invariant forall c | 1 <= c < j :: world[i, c] == Step(old(world[i, c]), counts[i, c])
        invariant forall r, c | 0 <= r < rows && 0 <= c < cols &&
          !(1 <= r < i && 1 <= c < cols - 1) && !(r == i && 1 <= c < j) :: world[r, c] == old(world[r, c])
      {
        if counts[i, j] < 2 {
          world[i, j] := Dead;
        } else if (counts[i, j] == 2 || counts[i, j] == 3) && world[i, j] == Alive {
          world[i, j] := Alive;
        } else if counts[i, j] == 3 && world[i, j] == Dead {
          world[i, j] := Alive;
        } else {
          world[i, j] := Dead;
        }
        j := j + 1;
      }
      i := i + 1;
    }
  }

  /** The counting phase of evolve: the count of every interior cell of the
      world goes into its entry of `counts`; no cell of the world is written. */
  method FillCounts(world: array2<char>, counts: array2<int>)
    requires counts.Length0 == world.Length0 && counts.Length1 == world.Length1
    modifies counts
    ensures forall i, j | 1 <= i < world.Length0 - 1 && 1 <= j < world.Length1 - 1 ::
      counts[i, j] == Neighbors(Snapshot(world), i, j)
    ensures forall i, j | 0 <= i < counts.Length0 && 0 <= j < counts.Length1 &&
      !(1 <= i < counts.Length0 - 1 && 1 <= j < counts.Length1 - 1) :: counts[i, j] == old(counts[i, j])
  {
    ghost var g := Snapshot(world);
    var rows, cols := world.Length0, world.Length1;
    var i := 1;
    while i < rows - 1
      invariant 1 <= i <= if rows >= 2 then rows - 1 else 1
      invariant forall r, c | 1 <= r < i && 1 <= c < cols - 1 :: counts[r, c] == Neighbors(g, r, c)
      invariant forall r, c | 0 <= r < rows && 0 <= c < cols && !(1 <= r < rows - 1 && 1 <= c < cols - 1) ::
        counts[r, c] == old(counts[r, c])
    {
      var j := 1;
      while j < cols - 1
        invariant 1 <= j <= if cols >= 2 then cols - 1 else 1
        invariant forall r, c | 1 <= r < i && 1 <= c < cols - 1 :: counts[r, c] == Neighbors(g, r, c)
        invariant forall c | 1 <= c < j :: counts[i, c] == Neighbors(g, i, c)
        invariant forall r, c | 0 <= r < rows && 0 <= c < cols && !(1 <= r < rows - 1 && 1 <= c < cols - 1) ::
          counts[r, c] == old(counts[r, c])
      {
        counts[i, j] := CellNeighbors(world, i, j);
        j := j + 1;
      }
      i := i + 1;
    }
  }

  /** evolve: count every interior cell's neighbours into a scratch array
      first, then rewrite the cells from those counts. The result is the
      simultaneous step `Next` of the grid as it was on entry, whatever the
      border holds; a dead border stays dead. */
  method Evolve(world: array2<char>)
    modifies world
    ensures Snapshot(world) == Next(old(Snapshot(world)))
    ensures BorderDead(old(Snapshot(world))) ==> BorderDead(Snapshot(world))
    ensures InteriorIsStates(Snapshot(world))
  {
    ghost var g := Snapshot(world);
    var counts := CreateNeighborArr(world.Length0, world.Length1);
    FillCounts(world, counts);
    SetStates(world, counts);
    ghost var h := Snapshot(world);
    forall r, c | IsInterior(g, r, c) ensures h[r][c] == Step(g[r][c], Neighbors(g, r, c)) {
      assert h[r][c] == world[r, c];
      assert old(world[r, c]) == g[r][c];
      assert counts[r, c] == Neighbors(g, r, c);
    }
    forall r, c | IsBorder(g, r, c) ensures h[r][c] == g[r][c] {
      assert h[r][c] == world[r, c];
      assert old(world[r, c]) == g[r][c];
    }
    NextIsCellwise(g, h);
    if BorderDead(g) {
      NextKeepsConvention(g);
    }
  }

  /** createworld, corrected: every cell, the border ring included, starts
      `Dead`, so the buffer-zone convention holds from the start. */
  method CreateWorld(rows: nat, cols: nat) returns (world: array2<char>)
    ensures fresh(world) && world.Length0 == rows && world.Length1 == cols
    ensures NoneAlive(Snapshot(world)) && BorderDead(Snapshot(world))
  {
    world := new char[rows, cols]((i, j) => Dead);
  }

  /** createworld as written: `malloc` hands back rows and columns whose
      contents are whatever the memory held, here the parameter `junk`; nothing
      writes the border afterwards. */
  method CreateWorldAsWritten(rows: nat, cols: nat, junk: Grid) returns (world: array2<char>)
    requires Rectangular(junk) && |junk| == rows && (rows > 0 ==> Cols(junk) == cols)
    ensures fresh(world) && world.Length0 == rows && world.Length1 == cols
    ensures Snapshot(world) == junk
  {
    world := new char[rows, cols]((i, j) requires 0 <= i < rows && 0 <= j < cols => junk[i][j]);
    forall r | 0 <= r < rows ensures Snapshot(world)[r] == junk[r] {
    }
  }
}

module BorderFinding {
  import opened Cells

  /** With `malloc`'s leftovers on the border, a 1-by-1 interior read in as
      dead has three "live" border neighbours and is born on the first step;
      with the dead border the design intends, it stays dead. */
  lemma UninitialisedBorderBreedsCell()
    ensures var read: Grid := ["***", "---", "---"];
            Rectangular(read) && !BorderDead(read) && Next(read)[1][1] == Alive
    ensures var clean: Grid := ["---", "---", "---"];
            Rectangular(clean) && BorderDead(clean) && Next(clean)[1][1] == Dead
  {
    var read: Grid := ["***", "---", "---"];
    assert read[0][0] == Alive && IsBorder(read, 0, 0);
    NeighborsUnrolled(read, 1, 1);
    var clean: Grid := ["---", "---", "---"];
    NeighborsUnrolled(clean, 1, 1);
  }
}
