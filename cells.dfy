/** Cell states, grids as values, and Conway's rule stated on whole grids.
    This is the specification side of the step engine: the methods in module
    Evolution are proved to compute `Next` of the grid they are handed. */
module Cells {

  /** The two characters a cell is written as. */
  const Alive: char := '*'
  const Dead: char := '-'

  /** A grid value: `g[i][j]` is the cell at row `i`, column `j`.
      Row 0, row |g|-1, column 0 and column Cols(g)-1 form the border ring. */
  type Grid = seq<seq<char>>

  function Cols(g: Grid): nat
  {
    if |g| == 0 then 0 else |g[0]|
  }

  predicate Rectangular(g: Grid)
  {
    forall r | 0 <= r < |g| :: |g[r]| == Cols(g)
  }

  /** Interior cells are those evolution reads as "real" cells and rewrites. */
  predicate IsInterior(g: Grid, i: int, j: int)
  {
    1 <= i < |g| - 1 && 1 <= j < Cols(g) - 1
  }

  predicate IsBorder(g: Grid, i: int, j: int)
  {
    0 <= i < |g| && 0 <= j < Cols(g) && !IsInterior(g, i, j)
  }

  /** The buffer-zone convention: no border cell is alive. */
  ghost predicate BorderDead(g: Grid)
    requires Rectangular(g)
  {
    forall i, j | IsBorder(g, i, j) :: g[i][j] != Alive
  }

  predicate NoneAlive(g: Grid)
  {
    forall i, j | 0 <= i < |g| && 0 <= j < |g[i]| :: g[i][j] != Alive
  }

  ghost predicate InteriorIsStates(g: Grid)
    requires Rectangular(g)
  {
    forall i, j | IsInterior(g, i, j) :: g[i][j] == Alive || g[i][j] == Dead
  }

  // ---------------------------------------------------------------------------
  // Neighbour counting

  /** The eight neighbour offsets (row, column), in the order the counting loop
      visits them: row offset outer, column offset inner, (0, 0) skipped. */
  const Offsets: seq<(int, int)> :=
    [(-1, -1), (-1, 0), (-1, 1), (0, -1), (0, 1), (1, -1), (1, 0), (1, 1)]

  /** The Moore neighbourhood as a set of offsets. */
  ghost const MooreOffsets: set<(int, int)> :=
    set m: int, n: int | -1 <= m <= 1 && -1 <= n <= 1 && (m, n) != (0, 0) :: (m, n)

  predicate Distinct<T(==)>(s: seq<T>)
  {
    forall a, b | 0 <= a < b < |s| :: s[a] != s[b]
  }

  /** Every offset in `ds`, taken from (i, j), lands inside the grid. */
  predicate WithinGrid(g: Grid, i: int, j: int, ds: seq<(int, int)>)
  {
    forall d | d in ds :: 0 <= i + d.0 < |g| && 0 <= j + d.1 < Cols(g)
  }

  /** Number of offsets `d` in `ds` whose cell `(i + d.0, j + d.1)` is alive. */
  function CountAlive(g: Grid, i: int, j: int, ds: seq<(int, int)>): (n: nat)
    requires Rectangular(g) && WithinGrid(g, i, j, ds)
    ensures n <= |ds|
    decreases |ds|
  {
    if ds == [] then 0
    else
      var d := ds[|ds| - 1];
      CountAlive(g, i, j, ds[..|ds| - 1]) + (if g[i + d.0][j + d.1] == Alive then 1 else 0)
  }

  /** Live neighbours of interior cell (i, j). */
  function Neighbors(g: Grid, i: int, j: int): (n: nat)
    requires Rectangular(g) && IsInterior(g, i, j)
    ensures n <= 8
  {
    CountAlive(g, i, j, Offsets)
  }

  // ---------------------------------------------------------------------------
  // The transition rule and the simultaneous step

  /** The state a cell with current state `c` and `n` live neighbours takes next.
      Birth tests the current state against `Dead` exactly, so a cell holding
      any other character is never born. */
  function Step(c: char, n: int): (r: char)
    ensures r == Alive || r == Dead
    ensures c == Alive || c == Dead ==> (r == Alive <==> n == 3 || (n == 2 && c == Alive))
  {
    if n < 2 then Dead
    else if (n == 2 || n == 3) && c == Alive then Alive
    else if n == 3 && c == Dead then Alive
    else Dead
  }

  /** The next generation: every interior cell takes `Step` of its state and its
      neighbour count in `g` (all at once); border cells are kept. */
  function Next(g: Grid): (h: Grid)
    requires Rectangular(g)
    ensures Rectangular(h) && |h| == |g| && Cols(h) == Cols(g)
    ensures forall i, j | IsBorder(g, i, j) :: h[i][j] == g[i][j]
    ensures InteriorIsStates(h)
  {
    seq(|g|, i requires 0 <= i < |g| =>
      seq(Cols(g), j requires 0 <= j < Cols(g) =>
        if IsInterior(g, i, j) then Step(g[i][j], Neighbors(g, i, j)) else g[i][j]))
  }

  // ---------------------------------------------------------------------------
  // The array the source works on, seen as a grid value

  ghost function Snapshot(a: array2<char>): (g: Grid)
    reads a
    ensures Rectangular(g) && |g| == a.Length0
    ensures forall i | 0 <= i < |g| :: |g[i]| == a.Length1
    ensures forall i, j | 0 <= i < a.Length0 && 0 <= j < a.Length1 :: g[i][j] == a[i, j]
  {
    seq(a.Length0, i reads a requires 0 <= i < a.Length0 =>
      seq(a.Length1, j reads a requires 0 <= j < a.Length1 => a[i, j]))
  }

  // ---------------------------------------------------------------------------
  // Properties

  /** From any interior cell, all eight neighbour positions lie inside the grid:
      the counting loop never leaves the array. */
  lemma InteriorNeighborsInBounds(g: Grid, i: int, j: int)
    requires Rectangular(g) && IsInterior(g, i, j)
    ensures forall d | d in MooreOffsets :: 0 <= i + d.0 < |g| && 0 <= j + d.1 < |g[i + d.0]|
  {
  }

  /** The loop visits each Moore offset once and no other offset. */
  lemma OffsetsAreMoore()
    ensures Distinct(Offsets)
    ensures forall d :: d in Offsets <==> d in MooreOffsets
  {
  }

  /** Cell (r, c) exists and is alive; total, so that sets of offsets can use it. */
  predicate LiveAt(g: Grid, r: int, c: int)
  {
    0 <= r < |g| && 0 <= c < |g[r]| && g[r][c] == Alive
  }

  /** The offsets in `ds` that lead from (i, j) to a live cell. */
  ghost function LiveOffsets(g: Grid, i: int, j: int, ds: seq<(int, int)>): set<(int, int)>
  {
    set d | d in ds && LiveAt(g, i + d.0, j + d.1)
  }

  /** One more offset adds itself to the live offsets when its cell is alive. */
  lemma LiveOffsetsSnoc(g: Grid, i: int, j: int, ds: seq<(int, int)>, last: (int, int))
    ensures LiveOffsets(g, i, j, ds + [last])
         == LiveOffsets(g, i, j, ds) + (if LiveAt(g, i + last.0, j + last.1) then {last} else {})
  {
  }

  /** Counting over distinct offsets is the size of the set of live ones. */
  lemma {:induction false} CountAliveIsCardinality(g: Grid, i: int, j: int, ds: seq<(int, int)>)
    requires Rectangular(g) && WithinGrid(g, i, j, ds) && Distinct(ds)
    ensures CountAlive(g, i, j, ds) == |LiveOffsets(g, i, j, ds)|
    decreases |ds|
  {
    if ds == [] {
      assert LiveOffsets(g, i, j, ds) == {};
    } else {
      var init, last := ds[..|ds| - 1], ds[|ds| - 1];
      assert ds == init + [last];
      assert WithinGrid(g, i, j, init) && Distinct(init) && last !in init by {
        assert forall d | d in init :: d in ds;
      }
      var bit := if LiveAt(g, i + last.0, j + last.1) then 1 else 0;
      assert CountAlive(g, i, j, ds) == CountAlive(g, i, j, init) + bit;
      assert |LiveOffsets(g, i, j, ds)| == |LiveOffsets(g, i, j, init)| + bit by {
        LiveOffsetsSnoc(g, i, j, init, last);
        assert last !in LiveOffsets(g, i, j, init);
      }
      CountAliveIsCardinality(g, i, j, init);
    }
  }

  /** The neighbour count is exactly the number of the eight Moore positions
      (i+m, j+n), m, n in {-1, 0, 1}, (m, n) != (0, 0), that hold `Alive`. */
  lemma NeighborsIsMooreCount(g: Grid, i: int, j: int)
    requires Rectangular(g) && IsInterior(g, i, j)
    ensures Neighbors(g, i, j) == |set d | d in MooreOffsets && LiveAt(g, i + d.0, j + d.1)|
  {
    OffsetsAreMoore();
    CountAliveIsCardinality(g, i, j, Offsets);
    assert LiveOffsets(g, i, j, Offsets) == set d | d in MooreOffsets && LiveAt(g, i + d.0, j + d.1);
  }

  /** 1 if cell (r, c) is alive, else 0. */
  function Bit(g: Grid, r: int, c: int): nat
    requires 0 <= r < |g| && 0 <= c < |g[r]|
  {
    if g[r][c] == Alive then 1 else 0
  }

  /** Counting over two runs of offsets adds the counts of each. */
  lemma {:induction false} CountAliveAppend(g: Grid, i: int, j: int, ds: seq<(int, int)>, es: seq<(int, int)>)
    requires Rectangular(g) && WithinGrid(g, i, j, ds + es)
    ensures WithinGrid(g, i, j, ds) && WithinGrid(g, i, j, es)
    ensures CountAlive(g, i, j, ds + es) == CountAlive(g, i, j, ds) + CountAlive(g, i, j, es)
    decreases |es|
  {
    assert forall d | d in ds :: d in ds + es;
    assert forall d | d in es :: d in ds + es;
    if es == [] {
      assert ds + es == ds;
    } else {
      var init := es[..|es| - 1];
      assert (ds + es)[..|ds + es| - 1] == ds + init;
      assert forall d | d in init :: d in es;
      CountAliveAppend(g, i, j, ds, init);
    }
  }

  /** The count over four offsets, written out. */
  lemma CountAliveFour(g: Grid, i: int, j: int, ds: seq<(int, int)>)
    requires Rectangular(g) && WithinGrid(g, i, j, ds) && |ds| == 4
    ensures forall k | 0 <= k < 4 :: 0 <= i + ds[k].0 < |g| && 0 <= j + ds[k].1 < |g[i + ds[k].0]|
    ensures CountAlive(g, i, j, ds)
         == Bit(g, i + ds[0].0, j + ds[0].1) + Bit(g, i + ds[1].0, j + ds[1].1)
          + Bit(g, i + ds[2].0, j + ds[2].1) + Bit(g, i + ds[3].0, j + ds[3].1)
  {
    assert forall k | 0 <= k < 4 :: ds[k] in ds;
    assert CountAlive(g, i, j, ds[..1]) == Bit(g, i + ds[0].0, j + ds[0].1) by {
      assert ds[..1][..0] == [];
    }
    assert CountAlive(g, i, j, ds[..2]) == CountAlive(g, i, j, ds[..1]) + Bit(g, i + ds[1].0, j + ds[1].1) by {
      assert ds[..2][..1] == ds[..1];
    }
    assert CountAlive(g, i, j, ds[..3]) == CountAlive(g, i, j, ds[..2]) + Bit(g, i + ds[2].0, j + ds[2].1) by {
      assert ds[..3][..2] == ds[..2];
    }
    assert ds[..4] == ds;
  }

  /** The first four offsets: the row above and the left neighbour. */
  lemma CountAliveBefore(g: Grid, i: int, j: int)
    requires Rectangular(g) && IsInterior(g, i, j)
    ensures WithinGrid(g, i, j, [(-1, -1), (-1, 0), (-1, 1), (0, -1)])
    ensures CountAlive(g, i, j, [(-1, -1), (-1, 0), (-1, 1), (0, -1)])
         == Bit(g, i - 1, j - 1) + Bit(g, i - 1, j) + Bit(g, i - 1, j + 1) + Bit(g, i, j - 1)
  {
    CountAliveFour(g, i, j, [(-1, -1), (-1, 0), (-1, 1), (0, -1)]);
  }

  /** The last four offsets: the right neighbour and the row below. */
  lemma CountAliveAfter(g: Grid, i: int, j: int)
    requires Rectangular(g) && IsInterior(g, i, j)
    ensures WithinGrid(g, i, j, [(0, 1), (1, -1), (1, 0), (1, 1)])
    ensures CountAlive(g, i, j, [(0, 1), (1, -1), (1, 0), (1, 1)])
         == Bit(g, i, j + 1) + Bit(g, i + 1, j - 1) + Bit(g, i + 1, j) + Bit(g, i + 1, j + 1)
  {
    CountAliveFour(g, i, j, [(0, 1), (1, -1), (1, 0), (1, 1)]);
  }

  /** The count written out as the sum over the eight neighbours. */
  lemma NeighborsUnrolled(g: Grid, i: int, j: int)
    requires Rectangular(g) && IsInterior(g, i, j)
    ensures Neighbors(g, i, j)
         == Bit(g, i - 1, j - 1) + Bit(g, i - 1, j) + Bit(g, i - 1, j + 1)
         + Bit(g, i, j - 1) + Bit(g, i, j + 1)
         + Bit(g, i + 1, j - 1) + Bit(g, i + 1, j) + Bit(g, i + 1, j + 1)
  {
    var before: seq<(int, int)> := [(-1, -1), (-1, 0), (-1, 1), (0, -1)];
    var after: seq<(int, int)> := [(0, 1), (1, -1), (1, 0), (1, 1)];
    CountAliveBefore(g, i, j);
    CountAliveAfter(g, i, j);
    assert Offsets == before + after;
    CountAliveAppend(g, i, j, before, after);
  }

  lemma {:induction false} CountAliveNoneAlive(g: Grid, i: int, j: int, ds: seq<(int, int)>)
    requires Rectangular(g) && WithinGrid(g, i, j, ds) && NoneAlive(g)
    ensures CountAlive(g, i, j, ds) == 0
    decreases |ds|
  {
    if ds != [] {
      CountAliveNoneAlive(g, i, j, ds[..|ds| - 1]);
    }
  }

  lemma NoNeighborsInDeadGrid(g: Grid, i: int, j: int)
    requires Rectangular(g) && NoneAlive(g) && IsInterior(g, i, j)
    ensures Neighbors(g, i, j) == 0
  {
    CountAliveNoneAlive(g, i, j, Offsets);
  }

  /** No spontaneous birth: a grid with no live cell stays without one. */
  lemma DeadGridStaysDead(g: Grid)
    requires Rectangular(g) && NoneAlive(g)
    ensures NoneAlive(Next(g))
  {
    var h := Next(g);
    forall i, j | 0 <= i < |h| && 0 <= j < |h[i]| ensures h[i][j] != Alive {
      if IsInterior(g, i, j) {
        NoNeighborsInDeadGrid(g, i, j);
      } else {
        assert IsBorder(g, i, j);
      }
    }
  }

  /** `Next` is the one grid of the same shape that keeps the border and gives
      every interior cell `Step` of its state and its neighbour count. */
  lemma NextIsCellwise(g: Grid, h: Grid)
    requires Rectangular(g) && Rectangular(h) && |h| == |g| && Cols(h) == Cols(g)
    requires forall i, j | IsInterior(g, i, j) :: h[i][j] == Step(g[i][j], Neighbors(g, i, j))
    requires forall i, j | IsBorder(g, i, j) :: h[i][j] == g[i][j]
    ensures h == Next(g)
  {
    var n := Next(g);
    forall i | 0 <= i < |g| ensures h[i] == n[i] {
      forall j | 0 <= j < Cols(g) ensures h[i][j] == n[i][j] {
        if !IsInterior(g, i, j) {
          assert IsBorder(g, i, j);
        }
      }
    }
  }

  /** A step keeps the buffer zone dead and every interior cell a state. */
  lemma NextKeepsConvention(g: Grid)
    requires Rectangular(g) && BorderDead(g)
    ensures BorderDead(Next(g)) && InteriorIsStates(Next(g))
  {
  }
}
