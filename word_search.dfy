/**
 * A multi-directional word search over a rectangular grid of characters:
 * for every start cell and each of eight fixed unit directions, count the
 * (cell, direction) pairs from which stepping |word| times stays inside the
 * grid and spells the word.
 *
 * The specification is a predicate Matches and a count over all
 * (row, column, direction) triples, defined by three nested recursive
 * functions that follow the row, column and direction loops of the
 * program. FindAllWords is the imperative search proved to compute it.
 */
module WordSearch {

  /** A grid is a sequence of rows; every row is a sequence of characters. */
  type Grid = seq<seq<char>>

  /** A unit step: (row delta, column delta). */
  type Dir = (int, int)

  /** Right, left, down, up, down-right, down-left, up-right, up-left. */
  const Directions: seq<Dir> := [(0, 1), (0, -1), (1, 0), (-1, 0), (1, 1), (1, -1), (-1, 1), (-1, -1)]

  /**
   * The table holds eight distinct entries, and they are exactly the eight
   * neighbour steps: both components in -1..1 and not both zero.
   */
  lemma DirectionsAreNeighbours()
    ensures |Directions| == 8
    ensures forall i, j :: 0 <= i < j < |Directions| ==> Directions[i] != Directions[j]
    ensures forall d: Dir :: d in Directions <==> -1 <= d.0 <= 1 && -1 <= d.1 <= 1 && d != (0, 0)
  {
  }

  /** Every row has the width of the first one. */
  predicate Rectangular(grid: Grid) {
    forall r :: 0 <= r < |grid| ==> |grid[r]| == |grid[0]|
  }

  /** The width of the grid is taken from its first row; an empty grid has none. */
  function Cols(grid: Grid): nat {
    if |grid| > 0 then |grid[0]| else 0
  }

  /** Cell (nr, nc) lies inside the grid and holds ch; the column bound is the width of row 0. */
  predicate CellIs(grid: Grid, nr: int, nc: int, ch: char)
    requires Rectangular(grid)
  {
    0 <= nr < |grid| && 0 <= nc < Cols(grid) && grid[nr][nc] == ch
  }

  /** Stepping from (r, c) by d spells word, every visited cell in bounds. */
  predicate Matches(grid: Grid, word: string, r: int, c: int, d: Dir)
    requires Rectangular(grid)
  {
    forall i :: 0 <= i < |word| ==> CellIs(grid, r + d.0 * i, c + d.1 * i, word[i])
  }

  /** In a rectangular grid the width taken from row 0 is the width of every row. */
  lemma RowWidth(grid: Grid)
    requires Rectangular(grid)
    ensures forall r :: 0 <= r < |grid| ==> |grid[r]| == Cols(grid)
  {
  }

  /**
   * The bounds test against the width of row 0 is the same test as one
   * against the width of the row being read.
   */
  lemma CellInOwnRow(grid: Grid, nr: int, nc: int, ch: char)
    requires Rectangular(grid)
    ensures CellIs(grid, nr, nc, ch) <==> 0 <= nr < |grid| && 0 <= nc < |grid[nr]| && grid[nr][nc] == ch
  {
  }

  /** A match of a non-empty word starts on its first letter and ends on its last, both inside the grid. */
  lemma MatchEnds(grid: Grid, word: string, r: int, c: int, d: Dir)
    requires Rectangular(grid)
    ensures Matches(grid, word, r, c, d) && |word| > 0 ==>
      CellIs(grid, r, c, word[0]) &&
      CellIs(grid, r + d.0 * (|word| - 1), c + d.1 * (|word| - 1), word[|word| - 1])
  {
    if Matches(grid, word, r, c, d) && |word| > 0 {
      assert CellIs(grid, r + d.0 * 0, c + d.1 * 0, word[0]);
      assert CellIs(grid, r + d.0 * (|word| - 1), c + d.1 * (|word| - 1), word[|word| - 1]);
    }
  }

  /** The number of the first k directions in which word starts at (r, c). */
  function CountDirs(grid: Grid, word: string, r: int, c: int, k: nat): (n: nat)
    requires Rectangular(grid) && k <= |Directions|
    ensures n <= k
  {
    if k == 0 then 0
    else CountDirs(grid, word, r, c, k - 1) + (if Matches(grid, word, r, c, Directions[k - 1]) then 1 else 0)
  }

  /** The number of matches that start in row r at one of the first j columns. */
  function CountCols(grid: Grid, word: string, r: int, j: nat): (n: nat)
    requires Rectangular(grid) && j <= Cols(grid)
    ensures n <= 8 * j
  {
    if j == 0 then 0
    else CountCols(grid, word, r, j - 1) + CountDirs(grid, word, r, j - 1, |Directions|)
  }

  /** The number of matches that start in one of the first i rows. */
  function CountRows(grid: Grid, word: string, i: nat): (n: nat)
    requires Rectangular(grid) && i <= |grid|
    ensures n <= i * (Cols(grid) * 8)
  {
    if i == 0 then 0
    else CountRows(grid, word, i - 1) + CountCols(grid, word, i - 1, Cols(grid))
  }

  /**
   * The number of (row, column, direction) triples from which word is
   * spelled: at most eight per cell.
   */
  function Count(grid: Grid, word: string): (n: nat)
    requires Rectangular(grid)
    ensures n <= |grid| * (Cols(grid) * 8)
  {
    CountRows(grid, word, |grid|)
  }

  /**
   * Reads word from (r, c) in direction d, giving up at the first position
   * that is out of bounds or holds the wrong character. Stopping there
   * gives the same verdict as checking every position.
   */
  method ScanDirection(grid: Grid, word: string, r: int, c: int, d: Dir) returns (matched: bool)
    requires Rectangular(grid)
    ensures matched <==> Matches(grid, word, r, c, d)
  {
    var rows, cols := |grid|, Cols(grid);
    var (dr, dc) := d;
    matched := true;
    var i := 0;
    while i < |word|
      invariant 0 <= i <= |word|
      invariant matched  // the flag is cleared only right before the break
      invariant forall j :: 0 <= j < i ==> CellIs(grid, r + dr * j, c + dc * j, word[j])
    {
      var nr, nc := r + dr * i, c + dc * i;
      if !(0 <= nr < rows && 0 <= nc < cols && grid[nr][nc] == word[i]) {
        assert !CellIs(grid, r + d.0 * i, c + d.1 * i, word[i]);
        matched := false;
        break;
      }
      i := i + 1;
    }
  }

  /**
   * Counts, over every start cell and every direction, the places where
   * word is spelled; the result is the specification count and lies
   * between 0 and rows * cols * 8.
   */
  method FindAllWords(grid: Grid, word: string) returns (count: nat)
    requires Rectangular(grid)
    ensures count == Count(grid, word)
    ensures count <= |grid| * (Cols(grid) * 8)
  {
    var rows := |grid|;
    var cols := Cols(grid);
    count := 0;
    for r := 0 to rows
      invariant count == CountRows(grid, word, r)
    {
      for c := 0 to cols
        invariant count == CountRows(grid, word, r) + CountCols(grid, word, r, c)
      {
        for k := 0 to |Directions|
          invariant count == CountRows(grid, word, r) + CountCols(grid, word, r, c) + CountDirs(grid, word, r, c, k)
        {
          var matched := ScanDirection(grid, word, r, c, Directions[k]);
          if matched {
            count := count + 1;
          }
        }
      }
    }
  }
}
