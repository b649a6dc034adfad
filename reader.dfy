/** The initial-state reader of life.c's `main`: characters of the input
    stream fill the interior row by row. The stream is a `seq<char>` read
    through a cursor; reading at the end yields `EndOfInput`.

    Specification: interior row r+1 holds the r-th line of the input (the
    characters up to, not including, a newline), one cell per character,
    `Alive` for '*' and `Dead` for anything else, padded with `Dead`; the part
    of a line beyond the row is ignored. */
module InitialState {
  import opened Cells
  import Evolution

  const Newline: char := '\n'

  /** What one `fgetc` returns. */
  datatype Fetched = Char(c: char) | EndOfInput

  /** One `fgetc` at cursor `pos`: the character and the advanced cursor, or
      `EndOfInput` and the cursor left where it is. */
  function Getc(input: seq<char>, pos: nat): (Fetched, nat)
    requires pos <= |input|
  {
    if pos < |input| then (Char(input[pos]), pos + 1) else (EndOfInput, pos)
  }

  /** Index of the first newline at or after `pos`, or |input| if none. */
  function LineEnd(input: seq<char>, pos: nat): (e: nat)
    requires pos <= |input|
    ensures pos <= e <= |input|
    decreases |input| - pos
  {
    if pos == |input| || input[pos] == Newline then pos else LineEnd(input, pos + 1)
  }

  /** `LineEnd` finds the first newline at or after `pos`: none comes before
      it, and it is one unless the input ran out. */
  lemma {:induction false} LineEndIsFirstNewline(input: seq<char>, pos: nat)
    requires pos <= |input|
    ensures forall k | pos <= k < LineEnd(input, pos) :: input[k] != Newline
    ensures LineEnd(input, pos) < |input| ==> input[LineEnd(input, pos)] == Newline
    decreases |input| - pos
  {
    if pos < |input| && input[pos] != Newline {
      LineEndIsFirstNewline(input, pos + 1);
    }
  }

  /** Where the line after the one starting at `pos` begins: just past its
      newline, or the end of the input. */
  function NextLine(input: seq<char>, pos: nat): (q: nat)
    requires pos <= |input|
    ensures pos <= q <= |input|
    ensures pos < |input| ==> pos < q
  {
    var e := LineEnd(input, pos);
    if e < |input| then e + 1 else e
  }

  /** Where line `r` (counted from 0) begins; |input| once the lines run out. */
  function RowStart(input: seq<char>, r: nat): (p: nat)
    ensures p <= |input|
  {
    if r == 0 then 0 else NextLine(input, RowStart(input, r - 1))
  }

  /** Line `r` of the input, without its newline. */
  function Line(input: seq<char>, r: nat): (line: seq<char>)
    ensures Newline !in line
  {
    var p := RowStart(input, r);
    LineEndIsFirstNewline(input, p);
    input[p..LineEnd(input, p)]
  }

  /** The state stored for column `c` (from 0) of a row read from `line`. */
  function LineCell(line: seq<char>, c: nat): (cell: char)
    ensures cell == Alive || cell == Dead
    ensures cell == Alive <==> c < |line| && line[c] == Alive
  {
    if c < |line| && line[c] == Alive then Alive else Dead
  }

  /** The state the reader stores at interior cell (r + 1, c + 1). */
  function InitialCell(input: seq<char>, r: nat, c: nat): (cell: char)
    ensures cell == Alive || cell == Dead
    ensures cell == Alive <==> c < |Line(input, r)| && Line(input, r)[c] == Alive
  {
    LineCell(Line(input, r), c)
  }

  /** The nested reading loop of `main`. Row after row, it reads the line that
      starts at the cursor into the interior; see `ReadRow`. */
  method ReadWorld(world: array2<char>, input: seq<char>)
    requires world.Length1 >= 3
    modifies world
    ensures forall i, j | 1 <= i < world.Length0 - 1 && 1 <= j < world.Length1 - 1 ::
      world[i, j] == InitialCell(input, i - 1, j - 1)
    ensures forall i, j | 0 <= i < world.Length0 && 0 <= j < world.Length1 &&
      !(1 <= i < world.Length0 - 1 && 1 <= j < world.Length1 - 1) :: world[i, j] == old(world[i, j])
  {
    var rows, cols := world.Length0, world.Length1;
    var pos := 0;
    var i := 1;
    while i < rows - 1
      invariant 1 <= i <= if rows >= 2 then rows - 1 else 1
      invariant pos == RowStart(input, i - 1)
      invariant forall r, c | 1 <= r < i && 1 <= c < cols - 1 :: world[r, c] == InitialCell(input, r - 1, c - 1)
      invariant forall r, c | 0 <= r < rows && 0 <= c < cols && !(1 <= r < i && 1 <= c < cols - 1) ::
        world[r, c] == old(world[r, c])
    {
      pos := ReadRow(world, i, input, pos);
      i := i + 1;
    }
  }

  /** One pass of the reading loop's body, for row `i`, starting at cursor
      `start`. Characters fill the row until it is full or a newline or the
      end of the input comes; in the latter case the rest of the row is set
      `Dead` in one go. A row that filled up without meeting a newline then
      skips input up to and including the next newline. So the row holds the
      line at `start` and the cursor ends at the start of the next line. With
      `cols` of at least 3 the row reads a character before the test on the
      last character read. */
  method ReadRow(world: array2<char>, i: int, input: seq<char>, start: nat) returns (pos: nat)
    requires 1 <= i < world.Length0 - 1 && world.Length1 >= 3 && start <= |input|
    modifies world
    ensures pos == NextLine(input, start)
    ensures forall c | 1 <= c < world.Length1 - 1 ::
      world[i, c] == LineCell(input[start..LineEnd(input, start)], c - 1)
    ensures forall r, c | 0 <= r < world.Length0 && 0 <= c < world.Length1 &&
      !(r == i && 1 <= c < world.Length1 - 1) :: world[r, c] == old(world[r, c])
  {
    var cols := world.Length1;
    ghost var end := LineEnd(input, start);
    ghost var line := input[start..end];
    LineEndIsFirstNewline(input, start);
    pos := start;
    var filechar := EndOfInput;
    var j := 1;
    while j < cols - 1
      invariant 1 <= j <= cols - 1
      invariant pos == start + (j - 1) <= end
      invariant j > 1 ==> filechar.Char? && filechar.c != Newline
      invariant forall c | 1 <= c < j :: world[i, c] == LineCell(line, c - 1)
      invariant forall r, c | 0 <= r < world.Length0 && 0 <= c < cols && !(r == i && 1 <= c < j) ::
        world[r, c] == old(world[r, c])
    {
      filechar, pos := Getc(input, pos).0, Getc(input, pos).1;
      if filechar != Char(Alive) {
        if filechar == Char(' ') {
          world[i, j] := Dead;
        } else if filechar == Char(Newline) || filechar == EndOfInput {
          assert end == pos - (if filechar == EndOfInput then 0 else 1);
          forall c | j <= c < cols - 1 {
            world[i, c] := Dead;
          }
          break;
        } else {
          world[i, j] := Dead;
        }
      } else {
        world[i, j] := filechar.c;
      }
      j := j + 1;
    }
    if filechar != Char(Newline) {
      while true
        invariant start <= pos <= end
        decreases |input| - pos
      {
        filechar, pos := Getc(input, pos).0, Getc(input, pos).1;
        if filechar == Char(Newline) || filechar == EndOfInput {
          break;
        }
      }
    }
  }

  /** The start of `main`, with `createworld` corrected to a dead grid: the
      world it hands to the generation loop has a dead buffer zone, which
      `Evolve` then keeps dead. */
  method LoadWorld(rows: nat, cols: nat, input: seq<char>) returns (world: array2<char>)
    requires cols >= 3
    ensures fresh(world) && world.Length0 == rows && world.Length1 == cols
    ensures BorderDead(Snapshot(world)) && InteriorIsStates(Snapshot(world))
    ensures forall i, j | 1 <= i < rows - 1 && 1 <= j < cols - 1 :: world[i, j] == InitialCell(input, i - 1, j - 1)
  {
    world := Evolution.CreateWorld(rows, cols);
    ReadWorld(world, input);
  }

  // ---------------------------------------------------------------------------
  // Round trip: a file written line by line is read back cell by cell

  /** The text of `lines`, each followed by a newline. */
  function Encode(lines: seq<seq<char>>): (text: seq<char>)
  {
    if lines == [] then [] else lines[0] + [Newline] + Encode(lines[1..])
  }

  /** No line of `lines` holds a newline. */
  predicate NewlineFree(lines: seq<seq<char>>)
  {
    forall k | 0 <= k < |lines| :: Newline !in lines[k]
  }

  /** Moving a line search to after a prefix moves its result. */
  lemma {:induction false} LineEndShift(p: seq<char>, s: seq<char>, pos: nat)
    requires pos <= |s|
    ensures LineEnd(p + s, |p| + pos) == |p| + LineEnd(s, pos)
    decreases |s| - pos
  {
    assert (p + s)[|p| + pos..] == s[pos..];
    if pos < |s| && s[pos] != Newline {
      LineEndShift(p, s, pos + 1);
    }
  }

  lemma NextLineShift(p: seq<char>, s: seq<char>, pos: nat)
    requires pos <= |s|
    ensures NextLine(p + s, |p| + pos) == |p| + NextLine(s, pos)
  {
    LineEndShift(p, s, pos);
  }

  /** The first line of `l` followed by a newline ends at that newline. */
  lemma FirstLineEnd(l: seq<char>, s: seq<char>)
    requires Newline !in l
    ensures LineEnd(l + [Newline] + s, 0) == |l|
  {
    var text := l + [Newline] + s;
    assert text[|l|] == Newline;
    assert forall k | 0 <= k < |l| :: text[k] == l[k];
    LineEndIsFirstNewline(text, 0);
  }

  lemma {:induction false} RowStartShift(l: seq<char>, s: seq<char>, r: nat)
    requires Newline !in l
    ensures RowStart(l + [Newline] + s, r + 1) == |l| + 1 + RowStart(s, r)
  {
    var p := l + [Newline];
    assert l + [Newline] + s == p + s;
    if r == 0 {
      FirstLineEnd(l, s);
    } else {
      var q := RowStart(s, r - 1);
      assert RowStart(p + s, r) == |p| + q by {
        RowStartShift(l, s, r - 1);
      }
      NextLineShift(p, s, q);
    }
  }

  lemma FirstLine(l: seq<char>, s: seq<char>)
    requires Newline !in l
    ensures Line(l + [Newline] + s, 0) == l
  {
    var text := l + [Newline] + s;
    FirstLineEnd(l, s);
    assert text[..|l|] == l;
  }

  lemma LaterLine(l: seq<char>, s: seq<char>, r: nat)
    requires Newline !in l
    ensures Line(l + [Newline] + s, r + 1) == Line(s, r)
  {
    var p := l + [Newline];
    var q := RowStart(s, r);
    assert l + [Newline] + s == p + s;
    assert RowStart(p + s, r + 1) == |p| + q by {
      RowStartShift(l, s, r);
    }
    assert LineEnd(p + s, |p| + q) == |p| + LineEnd(s, q) by {
      LineEndShift(p, s, q);
    }
    assert (p + s)[|p| + q..|p| + LineEnd(s, q)] == s[q..LineEnd(s, q)];
  }

  /** Line `r` of the text of newline-free `lines` is `lines[r]`, and empty
      below the last line. */
  lemma {:induction false} LineOfEncoded(lines: seq<seq<char>>, r: nat)
    requires NewlineFree(lines)
    ensures Line(Encode(lines), r) == if r < |lines| then lines[r] else []
    decreases |lines|
  {
    if lines == [] {
      assert Line([], r) == [];
    } else {
      var rest := Encode(lines[1..]);
      assert Newline !in lines[0];
      assert Encode(lines) == lines[0] + [Newline] + rest;
      if r == 0 {
        FirstLine(lines[0], rest);
      } else {
        assert Line(Encode(lines), r) == Line(rest, r - 1) by {
          LaterLine(lines[0], rest, r - 1);
        }
        assert NewlineFree(lines[1..]);
        LineOfEncoded(lines[1..], r - 1);
      }
    }
  }

  /** Reading the text of newline-free `lines` gives back each line, cell by
      cell, with `Dead` beyond a line's end and below the last line. */
  lemma ReadEncoded(lines: seq<seq<char>>, r: nat, c: nat)
    requires NewlineFree(lines)
    ensures InitialCell(Encode(lines), r, c)
         == if r < |lines| && c < |lines[r]| && lines[r][c] == Alive then Alive else Dead
  {
    LineOfEncoded(lines, r);
  }
}
