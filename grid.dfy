/** The pure specification of a Sudoku grid: 81 cells in row-major order, 0 for an empty
    cell and 1 .. 9 for a placed digit; its rows, columns and 3x3 boxes; candidates,
    solutions, the usage-mask invariant of the solver's state, and the 81-character text
    form with '.' for an empty cell. */
module Grid {
  import opened Bits

  const CellCount := 81
  /** EMPTY: the text form of an empty cell. */
  const EmptyMark := '.'

  /** The position of cell (row, col) in the row-major grid. */
  function Idx(row: int, col: int): int
  {
    row * 9 + col
  }

  /** The cell at position k of the row-major grid: one row down for every nine
      positions. */
  function Cell(k: int): (rc: (int, int))
    requires 0 <= k < CellCount
    ensures 0 <= rc.0 < 9 && 0 <= rc.1 < 9 && Idx(rc.0, rc.1) == k
  {
    if k < 9 then (0, k)
    else
      var above := Cell(k - 9);
      (above.0 + 1, above.1)
  }

  /** x / 3 for a row or column index x, by comparison. */
  function Third(x: int): (q: int)
    requires 0 <= x < 9
    ensures 0 <= q < 3
  {
    if x < 3 then 0 else if x < 6 then 1 else 2
  }

  /** getBox: the index of the 3x3 box holding (row, col), numbered row-major. */
  function GetBox(row: int, col: int): (b: int)
    requires 0 <= row < 9 && 0 <= col < 9
    ensures 0 <= b < 9
  {
    Third(row) * 3 + Third(col)
  }

  /** Every cell holds 0 (empty) or a digit 1 .. 9. */
  predicate WellFormed(g: seq<int>)
  {
    |g| == CellCount && forall k :: 0 <= k < CellCount ==> 0 <= g[k] <= 9
  }

  predicate InRow(g: seq<int>, row: int, v: int)
    requires |g| == CellCount && 0 <= row < 9
  {
    exists col :: 0 <= col < 9 && g[Idx(row, col)] == v
  }

  predicate InCol(g: seq<int>, col: int, v: int)
    requires |g| == CellCount && 0 <= col < 9
  {
    exists row :: 0 <= row < 9 && g[Idx(row, col)] == v
  }

  predicate InBox(g: seq<int>, box: int, v: int)
    requires |g| == CellCount
  {
    exists row, col :: 0 <= row < 9 && 0 <= col < 9 && GetBox(row, col) == box && g[Idx(row, col)] == v
  }

  /** v may be written at (row, col): it is in none of the cell's row, column and box. */
  predicate Candidate(g: seq<int>, row: int, col: int, v: int)
    requires |g| == CellCount && 0 <= row < 9 && 0 <= col < 9
  {
    !InRow(g, row, v) && !InCol(g, col, v) && !InBox(g, GetBox(row, col), v)
  }

  /** Two cells share a row, a column or a box. */
  predicate SameUnit(r1: int, c1: int, r2: int, c2: int)
    requires 0 <= r1 < 9 && 0 <= c1 < 9 && 0 <= r2 < 9 && 0 <= c2 < 9
  {
    r1 == r2 || c1 == c2 || GetBox(r1, c1) == GetBox(r2, c2)
  }

  /** No digit appears twice in a row, a column or a box. */
  predicate NoDuplicates(g: seq<int>)
    requires |g| == CellCount
  {
    forall r1, c1, r2, c2 ::
      0 <= r1 < 9 && 0 <= c1 < 9 && 0 <= r2 < 9 && 0 <= c2 < 9 &&
      (r1 != r2 || c1 != c2) && SameUnit(r1, c1, r2, c2) && g[Idx(r1, c1)] != 0
      ==> g[Idx(r1, c1)] != g[Idx(r2, c2)]
  }

  /** Every cell holds a digit. */
  predicate Complete(g: seq<int>)
    requires |g| == CellCount
  {
    forall k :: 0 <= k < CellCount ==> 1 <= g[k] <= 9
  }

  predicate IsSolution(g: seq<int>)
  {
    |g| == CellCount && Complete(g) && NoDuplicates(g)
  }

  /** s keeps every digit placed in g. */
  predicate Extends(s: seq<int>, g: seq<int>)
  {
    |s| == CellCount && |g| == CellCount &&
    forall k :: 0 <= k < CellCount && g[k] != 0 ==> s[k] == g[k]
  }

  /** Some solution keeps every digit placed in g. */
  ghost predicate HasSolution(g: seq<int>)
  {
    exists s :: IsSolution(s) && Extends(s, g)
  }

  /** The number of empty cells. */
  function CountEmpty(g: seq<int>): nat
  {
    multiset(g)[0]
  }

  /** The digits that may be written at (row, col). */
  function Candidates(g: seq<int>, row: int, col: int): set<int>
    requires |g| == CellCount && 0 <= row < 9 && 0 <= col < 9
  {
    set v | 1 <= v <= 9 && Candidate(g, row, col, v)
  }

  /** The number of candidates among the digits 1 .. n for (row, col). */
  function CountCandidates(g: seq<int>, row: int, col: int, n: nat): (k: nat)
    requires |g| == CellCount && 0 <= row < 9 && 0 <= col < 9
    ensures k <= n
  {
    if n == 0 then 0
    else CountCandidates(g, row, col, n - 1) + (if Candidate(g, row, col, n) then 1 else 0)
  }

  /** The number of digits that may be written at (row, col). */
  function CandidateCount(g: seq<int>, row: int, col: int): (k: nat)
    requires |g| == CellCount && 0 <= row < 9 && 0 <= col < 9
    ensures k <= 9
  {
    CountCandidates(g, row, col, 9)
  }

  // ---- the solver's state and its invariant ----

  /** A puzzle's state: the grid, the row, column and box usage masks, and the count of
      empty cells. */
  datatype State = State(grid: seq<int>, rows: seq<U16>, cols: seq<U16>, boxes: seq<U16>, empty: int)

  /** Bit d of each mask is set exactly when digit d + 1 is placed in that row, column
      or box. */
  ghost predicate MasksMatch(g: seq<int>, rows: seq<U16>, cols: seq<U16>, boxes: seq<U16>)
    requires |g| == CellCount && |rows| == 9 && |cols| == 9 && |boxes| == 9
  {
    (forall r, i: nat :: 0 <= r < 9 ==> (BitSet(rows[r], i) <==> i < 9 && InRow(g, r, i + 1))) &&
    (forall c, i: nat :: 0 <= c < 9 ==> (BitSet(cols[c], i) <==> i < 9 && InCol(g, c, i + 1))) &&
    (forall b, i: nat :: 0 <= b < 9 ==> (BitSet(boxes[b], i) <==> i < 9 && InBox(g, b, i + 1)))
  }

  /** The representation invariant: the masks are exactly the digits placed, and the
      counter is the number of empty cells. */
  ghost predicate Consistent(s: State)
  {
    WellFormed(s.grid) && |s.rows| == 9 && |s.cols| == 9 && |s.boxes| == 9 &&
    MasksMatch(s.grid, s.rows, s.cols, s.boxes) && s.empty == CountEmpty(s.grid)
  }

  /** The candidate mask of (row, col): `^(rows[row] | cols[col] | boxes[box]) & ALL_BITS`. */
  function Possibilities(s: State, row: int, col: int): U16
    requires |s.rows| == 9 && |s.cols| == 9 && |s.boxes| == 9 && 0 <= row < 9 && 0 <= col < 9
  {
    And16(Not16(Or16(Or16(s.rows[row], s.cols[col]), s.boxes[GetBox(row, col)])), AllBits)
  }

  /** setCell on the state: write v, set its bit in the three masks, one empty cell fewer. */
  function Place(s: State, row: int, col: int, v: int): State
    requires |s.grid| == CellCount && |s.rows| == 9 && |s.cols| == 9 && |s.boxes| == 9
    requires 0 <= row < 9 && 0 <= col < 9 && 1 <= v <= 9
  {
    var bit := DigitBit(v - 1);
    var b := GetBox(row, col);
    State(s.grid[Idx(row, col) := v],
          s.rows[row := Or16(s.rows[row], bit)],
          s.cols[col := Or16(s.cols[col], bit)],
          s.boxes[b := Or16(s.boxes[b], bit)],
          s.empty - 1)
  }

  /** clearCell on the state: empty the cell, clear v's bit in the three masks, one empty
      cell more. */
  function Unplace(s: State, row: int, col: int, v: int): State
    requires |s.grid| == CellCount && |s.rows| == 9 && |s.cols| == 9 && |s.boxes| == 9
    requires 0 <= row < 9 && 0 <= col < 9 && 1 <= v <= 9
  {
    var bit := Not16(DigitBit(v - 1));
    var b := GetBox(row, col);
    State(s.grid[Idx(row, col) := 0],
          s.rows[row := And16(s.rows[row], bit)],
          s.cols[col := And16(s.cols[col], bit)],
          s.boxes[b := And16(s.boxes[b], bit)],
          s.empty + 1)
  }

  // ---- the text form ----

  /** An 81-character puzzle over '1' .. '9' and '.'. */
  predicate IsPuzzleText(text: string)
  {
    |text| == CellCount && forall k :: 0 <= k < CellCount ==> text[k] == EmptyMark || '1' <= text[k] <= '9'
  }

  /** The cell value ParsePuzzle stores for one character: 0 for '.', else the digit. */
  function CellOf(ch: char): int
  {
    if ch == EmptyMark then 0 else ch as int - '0' as int
  }

  /** The character ToString writes for one cell: '.' for 0, else the digit. */
  function CharOf(v: int): char
    requires 0 <= v <= 9
  {
    if v == 0 then EmptyMark else (v + '0' as int) as char
  }

  function GridOf(text: string): seq<int>
    requires |text| == CellCount
  {
    seq(CellCount, k requires 0 <= k < CellCount => CellOf(text[k]))
  }

  function Render(g: seq<int>): string
    requires WellFormed(g)
  {
    seq(CellCount, k requires 0 <= k < CellCount => CharOf(g[k]))
  }

  /** The number of '.' characters. */
  function CountMarks(text: string): nat
  {
    multiset(text)[EmptyMark]
  }
}
