/**
 * Properties of the word-search count: it is the number of matching
 * (row, column, direction) triples; its values on the edge cases (empty
 * grid, empty word, one-character word, word longer than both dimensions);
 * and it is unchanged when the word is reversed.
 */
module WordSearchProperties {
  import opened WordSearch

  /** A start cell together with a direction: one candidate match. */
  datatype Occurrence = Occurrence(row: int, col: int, dir: Dir)

  /** Every (start, direction) triple from which word is spelled. */
  ghost function MatchSet(grid: Grid, word: string): set<Occurrence>
    requires Rectangular(grid)
  {
    set r, c, d | 0 <= r < |grid| && 0 <= c < Cols(grid) && d in Directions && Matches(grid, word, r, c, d)
      :: Occurrence(r, c, d)
  }

  /** Start cell (o.row, o.col) is in the grid, o.dir is one of the eight directions and word is spelled from there. */
  ghost predicate IsMatch(grid: Grid, word: string, o: Occurrence)
    requires Rectangular(grid)
  {
    0 <= o.row < |grid| && 0 <= o.col < Cols(grid) && o.dir in Directions && Matches(grid, word, o.row, o.col, o.dir)
  }

  lemma InMatchSet(grid: Grid, word: string, o: Occurrence)
    requires Rectangular(grid)
    ensures o in MatchSet(grid, word) <==> IsMatch(grid, word, o)
  {
    if IsMatch(grid, word, o) {
      assert Occurrence(o.row, o.col, o.dir) == o;
    }
  }

  /** Every member of s starts inside a rows x cols grid and steps in one of the eight directions. */
  ghost predicate Within(s: set<Occurrence>, rows: int, cols: int) {
    forall o :: o in s ==> 0 <= o.row < rows && 0 <= o.col < cols && o.dir in Directions
  }

  /** Every matching triple starts inside the grid and steps in one of the eight directions. */
  lemma MatchSetWithin(grid: Grid, word: string)
    requires Rectangular(grid)
    ensures Within(MatchSet(grid, word), |grid|, Cols(grid))
  {
    forall o | o in MatchSet(grid, word) ensures 0 <= o.row < |grid| && 0 <= o.col < Cols(grid) && o.dir in Directions {
      InMatchSet(grid, word, o);
    }
  }

  /** The members of s that start above row i. */
  ghost function RowsBelow(s: set<Occurrence>, i: int): set<Occurrence> {
    set o | o in s && o.row < i
  }

  /** The members of s that start in row r. */
  ghost function RowAt(s: set<Occurrence>, r: int): set<Occurrence> {
    set o | o in s && o.row == r
  }

  /** The members of s that start in row r, left of column j. */
  ghost function ColsBefore(s: set<Occurrence>, r: int, j: int): set<Occurrence> {
    set o | o in s && o.row == r && o.col < j
  }

  /** The members of s that start at (r, c). */
  ghost function CellAt(s: set<Occurrence>, r: int, c: int): set<Occurrence> {
    set o | o in s && o.row == r && o.col == c
  }

  /** The members of s that start at (r, c) in one of the first k directions. */
  ghost function DirsBefore(s: set<Occurrence>, r: int, c: int, k: nat): set<Occurrence>
    requires k <= |Directions|
  {
    set o | o in s && o.row == r && o.col == c && o.dir in Directions[..k]
  }

  lemma DirectionsDistinct(k: nat)
    requires k < |Directions|
    ensures Directions[k] !in Directions[..k]
  {
  }

  lemma DirsBeforeStep(s: set<Occurrence>, r: int, c: int, k: nat)
    requires 0 < k <= |Directions|
    ensures var o := Occurrence(r, c, Directions[k - 1]);
            |DirsBefore(s, r, c, k)| == |DirsBefore(s, r, c, k - 1)| + (if o in s then 1 else 0)
  {
    var d := Directions[k - 1];
    var o := Occurrence(r, c, d);
    var prev := DirsBefore(s, r, c, k - 1);
    DirectionsDistinct(k - 1);
    assert Directions[..k] == Directions[..k - 1] + [d];
    if o in s {
      assert DirsBefore(s, r, c, k) == prev + {o};
      assert o !in prev;
    } else {
      assert DirsBefore(s, r, c, k) == prev;
    }
  }

  lemma ColsBeforeStep(s: set<Occurrence>, r: int, j: int)
    ensures |ColsBefore(s, r, j)| == |ColsBefore(s, r, j - 1)| + |CellAt(s, r, j - 1)|
  {
    var prev, here := ColsBefore(s, r, j - 1), CellAt(s, r, j - 1);
    assert ColsBefore(s, r, j) == prev + here;
    assert prev !! here;
  }

  lemma RowsBelowStep(s: set<Occurrence>, i: int)
    ensures |RowsBelow(s, i)| == |RowsBelow(s, i - 1)| + |RowAt(s, i - 1)|
  {
    var prev, here := RowsBelow(s, i - 1), RowAt(s, i - 1);
    assert RowsBelow(s, i) == prev + here;
    assert prev !! here;
  }

  /** No match starts above row 0 or left of column 0. */
  lemma NothingBeforeOrigin(grid: Grid, word: string, r: int)
    requires Rectangular(grid)
    ensures RowsBelow(MatchSet(grid, word), 0) == {}
    ensures ColsBefore(MatchSet(grid, word), r, 0) == {}
  {
    MatchSetWithin(grid, word);
  }

  lemma {:induction false} DirsBeforeCard(grid: Grid, word: string, r: int, c: int, k: nat)
    requires Rectangular(grid) && 0 <= r < |grid| && 0 <= c < Cols(grid) && k <= |Directions|
    ensures |DirsBefore(MatchSet(grid, word), r, c, k)| == CountDirs(grid, word, r, c, k)
  {
    if k == 0 {
      assert DirsBefore(MatchSet(grid, word), r, c, 0) == {};
    } else {
      DirsBeforeCard(grid, word, r, c, k - 1);
      DirsBeforeStep(MatchSet(grid, word), r, c, k);
      InMatchSet(grid, word, Occurrence(r, c, Directions[k - 1]));
    }
  }

  lemma CellCard(grid: Grid, word: string, r: int, c: int)
    requires Rectangular(grid) && 0 <= r < |grid| && 0 <= c < Cols(grid)
    ensures |CellAt(MatchSet(grid, word), r, c)| == CountDirs(grid, word, r, c, |Directions|)
  {
    DirsBeforeCard(grid, word, r, c, |Directions|);
    MatchSetWithin(grid, word);
    assert Directions[..|Directions|] == Directions;
    assert CellAt(MatchSet(grid, word), r, c) == DirsBefore(MatchSet(grid, word), r, c, |Directions|);
  }

  /** Moving the column bound one to the right adds the matches that start in that cell. */
  lemma ColsBeforeGrow(grid: Grid, word: string, r: int, j: nat)
    requires Rectangular(grid) && 0 <= r < |grid| && 0 < j <= Cols(grid)
    ensures |ColsBefore(MatchSet(grid, word), r, j)| == |ColsBefore(MatchSet(grid, word), r, j - 1)| + CountDirs(grid, word, r, j - 1, |Directions|)
  {
    CellCard(grid, word, r, j - 1);
    ColsBeforeStep(MatchSet(grid, word), r, j);
  }

  lemma {:induction false} ColsBeforeCard(grid: Grid, word: string, r: int, j: nat)
    requires Rectangular(grid) && 0 <= r < |grid| && j <= Cols(grid)
    ensures |ColsBefore(MatchSet(grid, word), r, j)| == CountCols(grid, word, r, j)
  {
    if j == 0 {
      NothingBeforeOrigin(grid, word, r);
    } else {
      ColsBeforeCard(grid, word, r, j - 1);
      ColsBeforeGrow(grid, word, r, j);
    }
  }

  lemma RowCard(grid: Grid, word: string, r: int)
    requires Rectangular(grid) && 0 <= r < |grid|
    ensures |RowAt(MatchSet(grid, word), r)| == CountCols(grid, word, r, Cols(grid))
  {
    ColsBeforeCard(grid, word, r, Cols(grid));
    MatchSetWithin(grid, word);
    assert RowAt(MatchSet(grid, word), r) == ColsBefore(MatchSet(grid, word), r, Cols(grid));
  }

  /** Moving the row bound one down adds the matches that start in that row. */
  lemma RowsBelowGrow(grid: Grid, word: string, i: nat)
    requires Rectangular(grid) && 0 < i <= |grid|
    ensures |RowsBelow(MatchSet(grid, word), i)| == |RowsBelow(MatchSet(grid, word), i - 1)| + CountCols(grid, word, i - 1, Cols(grid))
  {
    RowCard(grid, word, i - 1);
    RowsBelowStep(MatchSet(grid, word), i);
  }

  lemma {:induction false} RowsBelowCard(grid: Grid, word: string, i: nat)
    requires Rectangular(grid) && i <= |grid|
    ensures |RowsBelow(MatchSet(grid, word), i)| == CountRows(grid, word, i)
  {
    if i == 0 {
      NothingBeforeOrigin(grid, word, 0);
    } else {
      RowsBelowCard(grid, word, i - 1);
      RowsBelowGrow(grid, word, i);
    }
  }

  /** The loop-shaped count is the number of matching (row, column, direction) triples. */
  lemma CountIsCardinality(grid: Grid, word: string)
    requires Rectangular(grid)
    ensures Count(grid, word) == |MatchSet(grid, word)|
  {
    RowsBelowCard(grid, word, |grid|);
    MatchSetWithin(grid, word);
    assert RowsBelow(MatchSet(grid, word), |grid|) == MatchSet(grid, word);
  }

  /** An empty grid, or one whose rows are empty, holds no match. */
  lemma EmptyGridCount(grid: Grid, word: string)
    requires Rectangular(grid) && (|grid| == 0 || Cols(grid) == 0)
    ensures Count(grid, word) == 0
  {
  }

  lemma {:induction false} EmptyWordDirs(grid: Grid, r: int, c: int, k: nat)
    requires Rectangular(grid) && k <= |Directions|
    ensures CountDirs(grid, [], r, c, k) == k
  {
    if k > 0 {
      EmptyWordDirs(grid, r, c, k - 1);
    }
  }

  lemma {:induction false} EmptyWordCols(grid: Grid, r: int, j: nat)
    requires Rectangular(grid) && j <= Cols(grid)
    ensures CountCols(grid, [], r, j) == j * |Directions|
  {
    if j > 0 {
      EmptyWordCols(grid, r, j - 1);
      EmptyWordDirs(grid, r, j - 1, |Directions|);
    }
  }

  lemma {:induction false} EmptyWordRows(grid: Grid, i: nat)
    requires Rectangular(grid) && i <= |grid|
    ensures CountRows(grid, [], i) == i * (Cols(grid) * |Directions|)
  {
    if i > 0 {
      EmptyWordRows(grid, i - 1);
      EmptyWordCols(grid, i - 1, Cols(grid));
      assert (i - 1) * (Cols(grid) * |Directions|) + Cols(grid) * |Directions| == i * (Cols(grid) * |Directions|);
    }
  }

  /** The empty word is spelled from every cell in every direction: no bounds check is ever made. */
  lemma EmptyWordCount(grid: Grid)
    requires Rectangular(grid)
    ensures Count(grid, []) == |grid| * Cols(grid) * 8
  {
    EmptyWordRows(grid, |grid|);
  }

  /** How many cells of the grid hold ch, row by row. */
  function Occurrences(grid: Grid, ch: char): nat {
    if grid == [] then 0 else Occurrences(grid[..|grid| - 1], ch) + multiset(grid[|grid| - 1])[ch]
  }

  lemma {:induction false} OneCharDirs(grid: Grid, word: string, r: int, c: int, k: nat)
    requires Rectangular(grid) && |word| == 1 && 0 <= r < |grid| && 0 <= c < Cols(grid) && k <= |Directions|
    ensures CountDirs(grid, word, r, c, k) == if grid[r][c] == word[0] then k else 0
  {
    if k > 0 {
      OneCharDirs(grid, word, r, c, k - 1);
      var d := Directions[k - 1];
      if grid[r][c] == word[0] {
        forall i | 0 <= i < |word| ensures CellIs(grid, r + d.0 * i, c + d.1 * i, word[i]) {
          assert i == 0;
        }
      } else {
        assert !CellIs(grid, r + d.0 * 0, c + d.1 * 0, word[0]);
      }
    }
  }

  lemma {:induction false} OneCharCols(grid: Grid, word: string, r: int, j: nat)
    requires Rectangular(grid) && |word| == 1 && 0 <= r < |grid| && j <= Cols(grid)
    ensures CountCols(grid, word, r, j) == |Directions| * multiset(grid[r][..j])[word[0]]
  {
    if j == 0 {
      assert grid[r][..0] == [];
    } else {
      OneCharCols(grid, word, r, j - 1);
      OneCharDirs(grid, word, r, j - 1, |Directions|);
      assert grid[r][..j] == grid[r][..j - 1] + [grid[r][j - 1]];
    }
  }

  lemma {:induction false} OneCharRows(grid: Grid, word: string, i: nat)
    requires Rectangular(grid) && |word| == 1 && i <= |grid|
    ensures CountRows(grid, word, i) == |Directions| * Occurrences(grid[..i], word[0])
  {
    if i > 0 {
      OneCharRows(grid, word, i - 1);
      OneCharCols(grid, word, i - 1, Cols(grid));
      assert grid[..i][..i - 1] == grid[..i - 1];
      assert grid[i - 1][..Cols(grid)] == grid[i - 1];
    }
  }

  /**
   * A one-character word is found 8 times at every cell that holds it:
   * once per direction, with no de-duplication.
   */
  lemma OneCharCount(grid: Grid, word: string)
    requires Rectangular(grid) && |word| == 1
    ensures Count(grid, word) == 8 * Occurrences(grid, word[0])
  {
    OneCharRows(grid, word, |grid|);
    assert grid[..|grid|] == grid;
  }

  /** Every direction moves along some axis, so a long enough word leaves the grid. */
  lemma NoMatchWhenTooLong(grid: Grid, word: string, r: int, c: int, d: Dir)
    requires Rectangular(grid) && |word| > |grid| && |word| > Cols(grid) && d in Directions
    ensures !Matches(grid, word, r, c, d)
  {
    var n := |word| - 1;
    if CellIs(grid, r, c, word[0]) {
      // the start is inside, so the last cell is outside
      assert !CellIs(grid, r + d.0 * n, c + d.1 * n, word[n]);
    } else {
      assert !CellIs(grid, r + d.0 * 0, c + d.1 * 0, word[0]);
    }
  }

  /** A word longer than both the height and the width of the grid is never found. */
  lemma TooLongCount(grid: Grid, word: string)
    requires Rectangular(grid) && |word| > |grid| && |word| > Cols(grid)
    ensures Count(grid, word) == 0
  {
    CountIsCardinality(grid, word);
    forall o | o in MatchSet(grid, word) ensures false {
      InMatchSet(grid, word, o);
      NoMatchWhenTooLong(grid, word, o.row, o.col, o.dir);
    }
    assert MatchSet(grid, word) == {};
  }

  /** The characters of s in the opposite order. */
  function Reverse(s: string): string {
    seq(|s|, i requires 0 <= i < |s| => s[|s| - 1 - i])
  }

  /** The direction table is closed under negation. */
  lemma NegatedDirection(d: Dir)
    requires d in Directions
    ensures (-d.0, -d.1) in Directions
  {
  }

  /**
   * The same cells read backwards: start at the last cell of a match of
   * length n and step the opposite way.
   */
  function Flip(o: Occurrence, n: int): Occurrence {
    Occurrence(o.row + o.dir.0 * (n - 1), o.col + o.dir.1 * (n - 1), (-o.dir.0, -o.dir.1))
  }

  /** Reading the cells backwards twice gives the original reading. */
  lemma FlipFlip(o: Occurrence, n: int)
    ensures Flip(Flip(o, n), n) == o
  {
  }

  /** Step i of the backward reading is step n - 1 - i of the forward one. */
  lemma StepBack(x: int, a: int, n: int, i: int)
    ensures x + a * (n - 1) + -a * i == x + a * (n - 1 - i)
  {
  }

  /** Step i of the backward reading lands on step n - 1 - i of the forward one and reads the same character. */
  lemma FlipStep(grid: Grid, word: string, o: Occurrence, i: int)
    requires Rectangular(grid) && Matches(grid, word, o.row, o.col, o.dir) && 0 <= i < |word|
    ensures var f := Flip(o, |word|); CellIs(grid, f.row + f.dir.0 * i, f.col + f.dir.1 * i, Reverse(word)[i])
  {
    var n, d := |word|, o.dir;
    var j := n - 1 - i;
    StepBack(o.row, d.0, n, i);
    StepBack(o.col, d.1, n, i);
    assert Reverse(word)[i] == word[j];
    assert CellIs(grid, o.row + d.0 * j, o.col + d.1 * j, word[j]);
  }

  /** The backward reading starts at the last cell of the forward one, inside the grid, in a direction of the table. */
  lemma FlipStart(grid: Grid, word: string, o: Occurrence)
    requires Rectangular(grid) && |word| > 0 && IsMatch(grid, word, o)
    ensures var f := Flip(o, |word|); 0 <= f.row < |grid| && 0 <= f.col < Cols(grid) && f.dir in Directions
  {
    var n := |word|;
    assert CellIs(grid, o.row + o.dir.0 * (n - 1), o.col + o.dir.1 * (n - 1), word[n - 1]);
    NegatedDirection(o.dir);
  }

  lemma FlipMatches(grid: Grid, word: string, o: Occurrence)
    requires Rectangular(grid) && |word| > 0 && IsMatch(grid, word, o)
    ensures IsMatch(grid, Reverse(word), Flip(o, |word|))
  {
    var f := Flip(o, |word|);
    var rev := Reverse(word);
    FlipStart(grid, word, o);
    forall i | 0 <= i < |rev| ensures CellIs(grid, f.row + f.dir.0 * i, f.col + f.dir.1 * i, rev[i]) {
      FlipStep(grid, word, o, i);
    }
  }

  ghost function FlipAll(s: set<Occurrence>, n: int): set<Occurrence> {
    set o | o in s :: Flip(o, n)
  }

  lemma {:induction false} FlipAllCard(s: set<Occurrence>, n: int)
    ensures |FlipAll(s, n)| == |s|
  {
    if s != {} {
      var x :| x in s;
      FlipAllCard(s - {x}, n);
      assert FlipAll(s, n) == FlipAll(s - {x}, n) + {Flip(x, n)};
      forall y | y in s - {x} ensures Flip(y, n) != Flip(x, n) {
        FlipFlip(x, n);
        FlipFlip(y, n);
      }
    }
  }

  lemma ReverseEmbeds(grid: Grid, word: string)
    requires Rectangular(grid) && |word| > 0
    ensures |MatchSet(grid, word)| <= |MatchSet(grid, Reverse(word))|
  {
    var a, b := MatchSet(grid, word), MatchSet(grid, Reverse(word));
    var image := FlipAll(a, |word|);
    forall f | f in image ensures f in b {
      var o :| o in a && f == Flip(o, |word|);
      InMatchSet(grid, word, o);
      FlipMatches(grid, word, o);
      InMatchSet(grid, Reverse(word), f);
    }
    FlipAllCard(a, |word|);
    assert b == image + (b - image);
  }

  /**
   * Searching for the reversed word gives the same count: each match of
   * word from a start cell in direction d is a match of the reversed word
   * from the last cell in direction -d.
   */
  lemma ReverseCount(grid: Grid, word: string)
    requires Rectangular(grid)
    ensures Count(grid, word) == Count(grid, Reverse(word))
  {
    if |word| == 0 {
      assert Reverse(word) == word;
    } else {
      ReverseEmbeds(grid, word);
      ReverseEmbeds(grid, Reverse(word));
      assert Reverse(Reverse(word)) == word;
      CountIsCardinality(grid, word);
      CountIsCardinality(grid, Reverse(word));
    }
  }

  /** A 4 x 4 grid whose first row reads XMAS and whose other cells are dots. */
  const Across: Grid := ["XMAS", "....", "....", "...."]

  lemma AcrossCell(r: int, c: int)
    requires 0 <= r < |Across| && 0 <= c < |Across[r]|
    ensures Across[r][c] == 'X' ==> r == 0 && c == 0
    ensures Across[r][c] == 'M' ==> r == 0 && c == 1
  {
    if r == 0 {
      assert Across[0] == "XMAS";
    } else {
      assert Across[r] == "....";
    }
  }

  lemma AcrossOnlyMatch(p: Occurrence)
    requires IsMatch(Across, "XMAS", p)
    ensures p == Occurrence(0, 0, (0, 1))
  {
    var w := "XMAS";
    assert CellIs(Across, p.row + p.dir.0 * 0, p.col + p.dir.1 * 0, w[0]);
    AcrossCell(p.row, p.col);
    assert CellIs(Across, p.row + p.dir.0 * 1, p.col + p.dir.1 * 1, w[1]);
    AcrossCell(p.row + p.dir.0, p.col + p.dir.1);
  }

  /** The word XMAS written once, left to right, in the first row is found exactly once. */
  lemma XmasAcrossCount()
    ensures Count(Across, "XMAS") == 1
  {
    var w := "XMAS";
    var o := Occurrence(0, 0, (0, 1));
    assert Across[0] == w;
    forall i | 0 <= i < |w| ensures CellIs(Across, 0 + 0 * i, 0 + 1 * i, w[i]) {
    }
    InMatchSet(Across, w, o);
    forall p | p in MatchSet(Across, w) ensures p == o {
      InMatchSet(Across, w, p);
      AcrossOnlyMatch(p);
    }
    assert MatchSet(Across, w) == {o};
    CountIsCardinality(Across, w);
  }

  /** A 4 x 4 grid whose first column reads XMAS downwards and whose other cells are dots. */
  const Down: Grid := ["X...", "M...", "A...", "S..."]

  lemma DownCell(r: int, c: int)
    requires 0 <= r < |Down| && 0 <= c < |Down[r]|
    ensures Down[r][c] == 'X' ==> r == 0 && c == 0
    ensures Down[r][c] == 'M' ==> r == 1 && c == 0
  {
    if r == 0 {
      assert Down[0] == "X...";
    } else if r == 1 {
      assert Down[1] == "M...";
    } else if r == 2 {
      assert Down[2] == "A...";
    } else {
      assert Down[3] == "S...";
    }
  }

  lemma DownOnlyMatch(p: Occurrence)
    requires IsMatch(Down, "XMAS", p)
    ensures p == Occurrence(0, 0, (1, 0))
  {
    var w := "XMAS";
    assert CellIs(Down, p.row + p.dir.0 * 0, p.col + p.dir.1 * 0, w[0]);
    DownCell(p.row, p.col);
    assert CellIs(Down, p.row + p.dir.0 * 1, p.col + p.dir.1 * 1, w[1]);
    DownCell(p.row + p.dir.0, p.col + p.dir.1);
  }

  /** The word XMAS written once, top to bottom, in the first column is found exactly once. */
  lemma XmasDownCount()
    ensures Count(Down, "XMAS") == 1
  {
    var w := "XMAS";
    var o := Occurrence(0, 0, (1, 0));
    assert Down[0][0] == 'X' && Down[1][0] == 'M' && Down[2][0] == 'A' && Down[3][0] == 'S';
    forall i | 0 <= i < |w| ensures CellIs(Down, 0 + 1 * i, 0 + 0 * i, w[i]) {
    }
    InMatchSet(Down, w, o);
    forall p | p in MatchSet(Down, w) ensures p == o {
      InMatchSet(Down, w, p);
      DownOnlyMatch(p);
    }
    assert MatchSet(Down, w) == {o};
    CountIsCardinality(Down, w);
  }
}
