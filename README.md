# Multi-directional word search (Advent of Code 2024, day 4)

This project models `find_all_words(grid, word)`, which counts how often a word
appears in a grid of characters. A grid is a list of rows. The search starts at
every cell and tries each of eight fixed unit directions: right, left, down, up
and the four diagonals. Each (start cell, direction) pair whose `len(word)`
steps all stay inside the grid and spell the word adds one to the count.

Two files make up the model:

- `word_search.dfy`, module `WordSearch`. It holds the direction table, the
  predicate `Matches` (the word is spelled from a cell in a direction), and the
  count `Count`. The count is defined by three nested recursive functions
  (`CountRows`, `CountCols`, `CountDirs`), one per loop of the program. The
  imperative search `FindAllWords` is proved to return `Count`. Its innermost
  loop (the `match` flag and the `break`) is the method `ScanDirection`. The
  program writes that loop inline; here it is a separate method so that the
  early exit gets a contract of its own.
- `word_search_properties.dfy`, module `WordSearchProperties`. It defines
  `MatchSet`, the set of matching (row, column, direction) triples, and proves
  that `Count` is its cardinality. It also proves the edge cases, the
  reversal symmetry and two small concrete grids. The bound of rows × cols × 8
  is part of the contracts of `Count` and `FindAllWords` in `word_search.dfy`.

## Model

| member | source | states |
|---|---|---|
| `WordSearch.FindAllWords` | luau/events/2024/day-4/chat-gpt-solution.py:11-44 | The four nested loops return exactly `Count(grid, word)`, which is at most rows × cols × 8 |
| `WordSearch.ScanDirection` | luau/events/2024/day-4/chat-gpt-solution.py:33-40 | The flag that is cleared at the first failing position, with the loop left by `break`, is true exactly when every position is in bounds and holds the right character |
| `WordSearch.CountDirs` | luau/events/2024/day-4/chat-gpt-solution.py:31-42 | At most one match per direction: the first k directions contribute at most k |
| `WordSearch.CountCols` | luau/events/2024/day-4/chat-gpt-solution.py:30-42 | The first j columns of a row contribute at most 8 × j |
| `WordSearch.CountRows` | luau/events/2024/day-4/chat-gpt-solution.py:29-42 | The first i rows contribute at most i × cols × 8; the count starts at 0 and is never negative |
| `WordSearch.Count` | luau/events/2024/day-4/chat-gpt-solution.py:29-44 | The count the loops accumulate is at most rows × cols × 8: at most one per direction per cell |
| `WordSearch.DirectionsAreNeighbours` | luau/events/2024/day-4/chat-gpt-solution.py:18-27 | The direction table has eight pairwise distinct entries, and they are exactly the eight neighbour steps: both components in −1..1 and not both zero |
| `WordSearch.RowWidth` | luau/events/2024/day-4/chat-gpt-solution.py:14 | In a rectangular grid the width taken from row 0 is the width of every row |
| `WordSearch.CellInOwnRow` | luau/events/2024/day-4/chat-gpt-solution.py:36-38 | The bounds-and-character test, with the column bound taken from row 0, accepts exactly the cells that lie within their own row and hold the expected character |
| `WordSearch.MatchEnds` | luau/events/2024/day-4/chat-gpt-solution.py:33-41 | If the flag stays true for a non-empty word, the first position holds the first letter and the last position holds the last letter, both inside the grid |
| `WordSearchProperties.MatchSetWithin` | luau/events/2024/day-4/chat-gpt-solution.py:29-31 | Every triple in the reference set of matches starts at a cell the two outer loops visit and uses a direction from the table |
| `WordSearchProperties.CountIsCardinality` | luau/events/2024/day-4/chat-gpt-solution.py:29-42 | The count equals the number of triples (r, c, d), with r and c inside the grid and d one of the 8 directions, from which the word is spelled |
| `WordSearchProperties.DirsBeforeCard` | luau/events/2024/day-4/chat-gpt-solution.py:31-42 | After k passes of the direction loop at (r, c), the count has grown by the number of matching triples at (r, c) whose direction is among the first k of the table |
| `WordSearchProperties.ColsBeforeCard` | luau/events/2024/day-4/chat-gpt-solution.py:30-42 | After j passes of the column loop in row r, the count has grown by the number of matching triples in row r left of column j |
| `WordSearchProperties.RowsBelowCard` | luau/events/2024/day-4/chat-gpt-solution.py:29-42 | After i passes of the row loop, the count is the number of matching triples that start above row i |
| `WordSearchProperties.InMatchSet` | luau/events/2024/day-4/chat-gpt-solution.py:35-37 | A triple is a match exactly when its start is inside the grid, its direction is in the table and every step lands in bounds on the right character |
| `WordSearchProperties.EmptyGridCount` | luau/events/2024/day-4/chat-gpt-solution.py:13-29 | An empty grid, or one whose first row is empty, gives 0 |
| `WordSearchProperties.EmptyWordCount` | luau/events/2024/day-4/chat-gpt-solution.py:33-42 | The empty word gives exactly rows × cols × 8, because the inner loop never runs and the flag stays true |
| `WordSearchProperties.OneCharCount` | luau/events/2024/day-4/chat-gpt-solution.py:31-42 | A one-character word gives 8 × (number of cells holding it): no de-duplication across directions |
| `WordSearchProperties.NoMatchWhenTooLong` | luau/events/2024/day-4/chat-gpt-solution.py:18-37 | Every direction has a nonzero component, so a word longer than both dimensions leaves the grid from any start |
| `WordSearchProperties.TooLongCount` | luau/events/2024/day-4/chat-gpt-solution.py:18-42 | A word longer than both the number of rows and the number of columns gives 0 |
| `WordSearchProperties.FlipMatches` | luau/events/2024/day-4/chat-gpt-solution.py:18-37 | A match from (r, c) in direction d gives a match of the reversed word from the last cell in direction −d |
| `WordSearchProperties.ReverseCount` | luau/events/2024/day-4/chat-gpt-solution.py:18-42 | The count for a word equals the count for its reverse, since the direction table is closed under negation |
| `WordSearchProperties.XmasAcrossCount` | luau/events/2024/day-4/chat-gpt-solution.py:29-42 | In a 4 × 4 grid whose first row reads XMAS and whose other cells are dots, XMAS is found exactly once |
| `WordSearchProperties.XmasDownCount` | luau/events/2024/day-4/chat-gpt-solution.py:29-42 | In a 4 × 4 grid whose first column reads XMAS downwards and whose other cells are dots, XMAS is found exactly once |

## Left out

- Reading `./input.txt` and splitting it into lines (lines 1-7) is file I/O. The grid is a parameter instead.
- The hard-coded word `"XMAS"` and the printing of the result (lines 47-51) are glue and standard output.
- Ragged grids, whose rows differ in width, are excluded by `requires Rectangular(grid)`. The program takes the width from the first row (line 14) and uses it for every row (line 37). On a ragged grid it may raise an index error, when a later row is shorter than row 0. Otherwise it returns a count without error:
  - the tail of a row longer than row 0 is never read;
  - an empty row 0 gives 0, because the column loop (line 30) never runs;
  - the empty word never reaches the test on line 37.

  The model promises nothing about any of these cases.
- Python's negative indices are not modelled. The bounds test on line 37 is short-circuit, so indexing only happens inside the grid.
- The 10 × 10 sample grid of the puzzle, where XMAS is found 18 times, is not proved. Only the two 4 × 4 grids above are.

## Behaviour worth knowing

- The empty word gives rows × cols × 8, not 0.
- A one-character word counts 8 times per matching cell. It is not de-duplicated to one match per cell.
- The column bound is the width of row 0 for every row, not the width of the row being read.
