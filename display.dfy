/** `printworld`: the interior of the world as text, one line per interior
    row, each cell printed followed by a space. The text is returned instead
    of written to standard output. */
module Display {
  import opened Cells
  import InitialState

  /** The cells of a row as printed: each cell followed by a space. */
  function Spaced(cells: seq<char>): (text: seq<char>)
    ensures |text| == 2 * |cells|
  {
    if cells == [] then [] else [cells[0], ' '] + Spaced(cells[1..])
  }

  /** The interior cells of row `i`. */
  function InteriorRow(g: Grid, i: int): (cells: seq<char>)
    requires Rectangular(g) && 0 <= i < |g|
    ensures |cells| == if Cols(g) >= 2 then Cols(g) - 2 else 0
  {
    if Cols(g) >= 2 then g[i][1..Cols(g) - 1] else []
  }

  /** The printed lines of `g`, one per interior row, without newlines. */
  function Rendered(g: Grid): (lines: seq<seq<char>>)
    requires Rectangular(g)
    ensures |lines| == if |g| >= 2 then |g| - 2 else 0
  {
    seq(if |g| >= 2 then |g| - 2 else 0, r requires 0 <= r < |g| - 2 => Spaced(InteriorRow(g, r + 1)))
  }

  lemma {:induction false} SpacedAt(cells: seq<char>, k: nat)
    requires k < |cells|
    ensures Spaced(cells)[2 * k] == cells[k] && Spaced(cells)[2 * k + 1] == ' '
  {
    if k > 0 {
      SpacedAt(cells[1..], k - 1);
    }
  }

  lemma {:induction false} SpacedSnoc(cells: seq<char>, c: char)
    ensures Spaced(cells + [c]) == Spaced(cells) + [c, ' ']
  {
    if cells != [] {
      assert (cells + [c])[1..] == cells[1..] + [c];
      SpacedSnoc(cells[1..], c);
    } else {
      assert Spaced([c]) == [c, ' '] + Spaced([]);
    }
  }

  lemma {:induction false} EncodeSnoc(lines: seq<seq<char>>, l: seq<char>)
    ensures InitialState.Encode(lines + [l]) == InitialState.Encode(lines) + l + [InitialState.Newline]
  {
    if lines != [] {
      assert (lines + [l])[1..] == lines[1..] + [l];
      EncodeSnoc(lines[1..], l);
    } else {
      assert InitialState.Encode([l]) == l + [InitialState.Newline] + InitialState.Encode([]);
    }
  }

  /** The text of the first `i` printed lines, from that of the first `i - 1`. */
  lemma RenderedUpTo(g: Grid, i: int)
    requires Rectangular(g) && 1 <= i < |g| - 1
    ensures InitialState.Encode(Rendered(g)[..i])
         == InitialState.Encode(Rendered(g)[..i - 1]) + Spaced(InteriorRow(g, i)) + [InitialState.Newline]
  {
    assert Rendered(g)[..i] == Rendered(g)[..i - 1] + [Spaced(InteriorRow(g, i))];
    EncodeSnoc(Rendered(g)[..i - 1], Spaced(InteriorRow(g, i)));
  }

  /** printworld: for every interior row, every interior cell and a space,
      then a newline. */
  method PrintWorld(world: array2<char>) returns (out: seq<char>)
    ensures out == InitialState.Encode(Rendered(Snapshot(world)))
  {
    ghost var g := Snapshot(world);
    var rows, cols := world.Length0, world.Length1;
    out := [];
    var i := 1;
    while i < rows - 1
      invariant 1 <= i <= if rows >= 2 then rows - 1 else 1
      invariant out == InitialState.Encode(Rendered(g)[..i - 1])
    {
      ghost var before, row := out, InteriorRow(g, i);
      var j := 1;
      while j < cols - 1
        invariant 1 <= j <= if cols >= 2 then cols - 1 else 1
        invariant out == before + Spaced(row[..j - 1])
      {
        SpacedSnoc(row[..j - 1], world[i, j]);
        assert row[..j] == row[..j - 1] + [world[i, j]];
        out := out + [world[i, j], ' '];
        j := j + 1;
      }
      out := out + ['\n'];
      assert row[..j - 1] == row;
      RenderedUpTo(g, i);
      i := i + 1;
    }
    assert Rendered(g)[..i - 1] == Rendered(g);
  }

  /** On a grid whose interior holds states, no printed line holds a newline. */
  lemma RenderedNewlineFree(g: Grid)
    requires Rectangular(g) && InteriorIsStates(g)
    ensures InitialState.NewlineFree(Rendered(g))
  {
    var lines := Rendered(g);
    forall k | 0 <= k < |lines| ensures InitialState.Newline !in lines[k] {
      var row := InteriorRow(g, k + 1);
      forall p | 0 <= p < |lines[k]| ensures lines[k][p] != InitialState.Newline {
        SpacedAt(row, p / 2);
        assert row[p / 2] == g[k + 1][p / 2 + 1];
      }
    }
  }

  /** On a grid whose interior holds states, printed line i - 1 is interior
      row i, spaced. */
  lemma PrintedLine(g: Grid, i: int)
    requires Rectangular(g) && InteriorIsStates(g) && 1 <= i < |g| - 1
    ensures InitialState.Line(InitialState.Encode(Rendered(g)), i - 1) == Spaced(InteriorRow(g, i))
  {
    RenderedNewlineFree(g);
    InitialState.LineOfEncoded(Rendered(g), i - 1);
  }

  /** On a grid whose interior holds states, printed line i - 1 shows interior
      row i: cell (i, j) at position 2 * (j - 1), a space after each cell. */
  lemma PrintedCell(g: Grid, i: int, j: int)
    requires Rectangular(g) && InteriorIsStates(g) && IsInterior(g, i, j)
    ensures var line := InitialState.Line(InitialState.Encode(Rendered(g)), i - 1);
            |line| == 2 * (Cols(g) - 2) && line[2 * (j - 1)] == g[i][j] && line[2 * (j - 1) + 1] == ' '
  {
    var row := InteriorRow(g, i);
    PrintedLine(g, i);
    assert row[j - 1] == g[i][j];
    SpacedAt(row, j - 1);
  }
}
