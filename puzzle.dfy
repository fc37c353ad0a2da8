/** The solver's Puzzle: a 9x9 grid of cell values, the row, column and box usage masks,
    and the count of empty cells, updated in place by the backtracking search. */
module Puzzles {
  import opened Bits
  import opened Grid
  import opened GridLemmas
  import opened LookupTables

  class Puzzle {
    /** cells[r, c]: 0 for an empty cell, else the digit placed there. */
    const cells: array2<int>
    /** Bit d of rows[r] (cols[c], boxes[b]) is set when digit d + 1 is placed there. */
    const rows: array<U16>
    const cols: array<U16>
    const boxes: array<U16>
    /** The number of empty cells. */
    var emptyCell: int
    /** The cells in row-major order. */
    ghost var grid: seq<int>

    /** The arrays have their sizes and are distinct, and `grid` lists `cells`. */
    ghost predicate Linked()
      reads this, cells
    {
      Shaped() && Mirrored()
    }

    ghost predicate Shaped()
      reads this
    {
      cells.Length0 == 9 && cells.Length1 == 9 &&
      rows.Length == 9 && cols.Length == 9 && boxes.Length == 9 &&
      rows != cols && rows != boxes && cols != boxes && |grid| == CellCount
    }

    ghost predicate Mirrored()
      requires Shaped()
      reads this, cells
    {
      forall r, c :: 0 <= r < 9 && 0 <= c < 9 ==> cells[r, c] == grid[Idx(r, c)]
    }

    ghost function Model(): State
      reads this, rows, cols, boxes
    {
      State(grid, rows[..], cols[..], boxes[..], emptyCell)
    }

    ghost predicate Valid()
      reads this, cells, rows, cols, boxes
    {
      Linked() && Consistent(Model())
    }

    /** ParsePuzzle: a zeroed puzzle (Go's `&Puzzle{}`) filled from the 81 characters. */
    constructor Parse(input: string)
      requires IsPuzzleText(input)
      ensures Valid()
      ensures grid == GridOf(input)
      ensures emptyCell == CountMarks(input)
      ensures fresh(cells) && fresh(rows) && fresh(cols) && fresh(boxes)
    {
      cells := new int[9, 9]((_, _) => 0);
      rows := new U16[9](_ => 0);
      cols := new U16[9](_ => 0);
      boxes := new U16[9](_ => 0);
      emptyCell := 0;
      grid := seq(CellCount, _ => 0);
      new;
      Fill(input);
      ParsedValid(input);
    }

    /** The outer loop of ParsePuzzle: reads the nine rows in order. */
    method Fill(input: string)
      requires IsPuzzleText(input) && Linked() && Model() == Parsed(input, 0)
      modifies this, cells, rows, cols, boxes
      ensures Linked() && Model() == Parsed(input, CellCount)
    {
      for i := 0 to 9
        invariant Linked() && Model() == Parsed(input, i * 9)
      {
        FillRow(input, i);
      }
    }

    /** The inner loop of ParsePuzzle, over row i: a digit is written to its cell and
        recorded in the cell's row, column and box masks, a '.' counts one empty cell. */
    method FillRow(input: string, i: int)
      requires IsPuzzleText(input) && 0 <= i < 9
      requires Linked() && Model() == Parsed(input, i * 9)
      modifies this, cells, rows, cols, boxes
      ensures Linked() && Model() == Parsed(input, (i + 1) * 9)
    {
      var idx := i * 9;
      for j := 0 to 9
        invariant idx == i * 9 + j
        invariant Linked() && Model() == Parsed(input, idx)
      {
        ReadCell(input, i, j);
        idx := idx + 1;
      }
    }

    /** One step of the inner loop of ParsePuzzle: the character for cell (row, col) is
        read into the puzzle as ReadChar reads it into the state. */
    method ReadCell(input: string, row: int, col: int)
      requires IsPuzzleText(input) && 0 <= row < 9 && 0 <= col < 9 && Linked()
      modifies this, cells, rows, cols, boxes
      ensures Linked() && Model() == ReadChar(old(Model()), input, Idx(row, col))
    {
      ReadCharAt(Model(), input, row, col);
      var idx := Idx(row, col);
      if input[idx] != EmptyMark {
        var digit := input[idx] as int - '1' as int;
        Record(row, col, digit);
      } else {
        emptyCell := emptyCell + 1;
      }
    }

    /** The digit branch of ParsePuzzle: writes digit + 1 into the cell and records it in
        the cell's row, column and box masks; the empty-cell count is left alone. */
    method Record(row: int, col: int, digit: int)
      requires Linked() && 0 <= row < 9 && 0 <= col < 9 && 0 <= digit < 9
      modifies this, cells, rows, cols, boxes
      ensures Linked()
      ensures Model() == Place(old(Model()), row, col, digit + 1).(empty := old(emptyCell))
    {
      OtherCells(row, col);
      var val := digit + 1;
      var bit := DigitBit(val - 1);
      var box := (row / 3) * 3 + col / 3;
      GetBoxIsQuotient(row, col);
      cells[row, col] := val;
      rows[row] := Or16(rows[row], bit);
      cols[col] := Or16(cols[col], bit);
      boxes[box] := Or16(boxes[box], bit);
      grid := grid[Idx(row, col) := val];
    }

    /** After all 81 characters the state is the parsed text's, and it is consistent. */
    lemma ParsedValid(input: string)
      requires IsPuzzleText(input) && Linked() && Model() == Parsed(input, CellCount)
      ensures Valid() && grid == GridOf(input) && emptyCell == CountMarks(input)
    {
      ParsedFacts(input, CellCount);
      assert input[..CellCount] == input;
      assert grid == GridOf(input);
      MarksAreEmptyCells(input, CellCount);
      assert GridOf(input)[..CellCount] == GridOf(input);
    }

    /** getPossibilities: the digits recorded in none of the cell's row, column and box
        masks, as a nine-bit mask. */
    function GetPossibilities(row: int, col: int): (p: U16)
      requires rows.Length == 9 && cols.Length == 9 && boxes.Length == 9
      requires 0 <= row < 9 && 0 <= col < 9
      reads this, cells, rows, cols, boxes
      ensures p <= AllBits
      ensures forall i: nat :: BitSet(p, i) <==>
        i < 9 && !BitSet(rows[row], i) && !BitSet(cols[col], i) && !BitSet(boxes[GetBox(row, col)], i)
    {
      ComplementMask(rows[row], cols[col], boxes[GetBox(row, col)]);
      And16(Not16(Or16(Or16(rows[row], cols[col]), boxes[GetBox(row, col)])), AllBits)
    }

    /** findBestCell: the empty cell to branch on, scanning row-major and keeping the
        first cell with the strictly smallest candidate count, stopping at the first
        cell with exactly one candidate. */
    method FindBestCell(t: Tables) returns (row: int, col: int, poss: U16, found: bool)
      requires Valid() && t.Valid()
      ensures found <==> emptyCell != 0
      ensures !found ==> row == 0 && col == 0 && poss == 0
      ensures found ==> BestCell(grid, row, col) && poss == GetPossibilities(row, col)
    {
      if emptyCell == 0 {
        return 0, 0, 0, false;
      }
      row, col, poss := 0, 0, AllBits;
      var minCount := 10;
      for i := 0 to 9
        invariant Scanned(grid, i * 9, row, col, minCount)
        invariant minCount < 10 ==> poss == GetPossibilities(row, col)
      {
        for j := 0 to 9
          invariant Scanned(grid, i * 9 + j, row, col, minCount)
          invariant minCount < 10 ==> poss == GetPossibilities(row, col)
        {
          ScanStep(grid, row, col, minCount, i, j);
          if cells[i, j] == 0 {
            var p := GetPossibilities(i, j);
            PopCountIsCandidateCount(Model(), i, j);
            assert p == Possibilities(Model(), i, j);
            var count := t.bitCount[p];
            if count < minCount {
              minCount := count;
              poss := p;
              row := i;
              col := j;
              if count == 1 {
                return row, col, poss, true;
              }
            }
          }
        }
      }
      ScanDone(grid, row, col, minCount);
      return row, col, poss, true;
    }

    /** In a consistent puzzle, getPossibilities records exactly the cell's candidates. */
    lemma CandidateBits(row: int, col: int)
      requires Valid() && 0 <= row < 9 && 0 <= col < 9
      ensures forall i: nat :: BitSet(GetPossibilities(row, col), i) <==> i < 9 && i + 1 in Candidates(grid, row, col)
    {
      PossibilitiesAreCandidates(Model(), row, col);
      assert GetPossibilities(row, col) == Possibilities(Model(), row, col);
    }

    /** setCell: writes val and records its bit in the cell's row, column and box masks;
        one empty cell fewer. */
    method SetCell(row: int, col: int, val: int)
      requires Linked() && 0 <= row < 9 && 0 <= col < 9 && 1 <= val <= 9
      modifies this, cells, rows, cols, boxes
      ensures Linked()
      ensures Model() == Place(old(Model()), row, col, val)
    {
      OtherCells(row, col);
      cells[row, col] := val;
      var bit := DigitBit(val - 1);
      rows[row] := Or16(rows[row], bit);
      cols[col] := Or16(cols[col], bit);
      boxes[GetBox(row, col)] := Or16(boxes[GetBox(row, col)], bit);
      emptyCell := emptyCell - 1;
      grid := grid[Idx(row, col) := val];
    }

    /** clearCell: empties the cell and clears val's bit in the cell's row, column and
        box masks; one empty cell more. */
    method ClearCell(row: int, col: int, val: int)
      requires Linked() && 0 <= row < 9 && 0 <= col < 9 && 1 <= val <= 9
      modifies this, cells, rows, cols, boxes
      ensures Linked()
      ensures Model() == Unplace(old(Model()), row, col, val)
    {
      OtherCells(row, col);
      cells[row, col] := 0;
      var bit := Not16(DigitBit(val - 1));
      rows[row] := And16(rows[row], bit);
      cols[col] := And16(cols[col], bit);
      boxes[GetBox(row, col)] := And16(boxes[GetBox(row, col)], bit);
      emptyCell := emptyCell + 1;
      grid := grid[Idx(row, col) := 0];
    }

    /** solve: depth-first search. Branches on findBestCell's cell, trying its candidates
        in ascending order; a failed candidate is undone before the next is tried. */
    method Solve(t: Tables) returns (solved: bool)
      requires Valid() && t.Valid()
      modifies this, cells, rows, cols, boxes
      decreases emptyCell, 1
      ensures Valid()
      ensures old(emptyCell) == 0 ==> solved && Model() == old(Model())
      ensures solved ==> Complete(grid) && Extends(grid, old(grid))
      ensures solved && NoDuplicates(old(grid)) ==> IsSolution(grid)
      ensures !solved ==> Model() == old(Model()) && !HasSolution(old(grid))
    {
      ghost var s0 := Model();
      var row: int, col: int, poss: U16, found: bool := FindBestCell(t);
      if !found {
        NoEmptyIsComplete(grid);
        return true;
      }
      CandidateBits(row, col);
      ghost var cands := Candidates(s0.grid, row, col);
      ghost var lo := 0;
      while poss != 0
        invariant Linked() && t.Valid() && Model() == s0
        invariant poss <= AllBits && 0 <= lo <= 9
        invariant forall i: nat :: BitSet(poss, i) <==> lo <= i < 9 && i + 1 in cands
        invariant forall v :: v <= lo && v in cands ==> !HasSolution(s0.grid[Idx(row, col) := v])
        decreases poss
      {
        DropLowest(poss, lo, cands);
        var digit := t.firstDigit[poss] + 1;
        solved := TryDigit(t, row, col, digit);
        if solved {
          return;
        }
        poss := And16(poss, Not16(DigitBit(digit - 1)));
        lo := digit;
      }
      Exhausted(s0.grid, row, col, cands, lo);
      return false;
    }

    /** One iteration of solve's loop: setCell, solve the rest, and clearCell if that
        fails. */
    method TryDigit(t: Tables, row: int, col: int, digit: int) returns (solved: bool)
      requires Valid() && t.Valid() && 0 <= row < 9 && 0 <= col < 9 && 1 <= digit <= 9
      requires grid[Idx(row, col)] == 0 && Candidate(grid, row, col, digit)
      modifies this, cells, rows, cols, boxes
      decreases emptyCell, 0
      ensures Valid()
      ensures solved ==> Complete(grid) && Extends(grid, old(grid))
      ensures solved && NoDuplicates(old(grid)) ==> IsSolution(grid)
      ensures !solved ==> Model() == old(Model()) && !HasSolution(old(grid)[Idx(row, col) := digit])
    {
      ghost var s0 := Model();
      PlaceConsistent(s0, row, col, digit);
      SetCell(row, col, digit);
      solved := Solve(t);
      if solved {
        ExtendsAfterWrite(grid, s0.grid, row, col, digit);
        if NoDuplicates(s0.grid) {
          PlaceCandidateNoDuplicates(s0.grid, row, col, digit);
        }
        return;
      }
      ClearCell(row, col, digit);
      UnplaceAfterPlace(s0, row, col, digit);
    }

    /** ToString: the 81 characters row by row, '.' for an empty cell and the digit
        otherwise. */
    method ToString() returns (s: string)
      requires Valid()
      ensures s == Render(grid)
      ensures IsPuzzleText(s) && GridOf(s) == grid
    {
      var result := new char[CellCount];
      var idx := 0;
      for i := 0 to 9
        invariant idx == i * 9
        invariant forall k :: 0 <= k < idx ==> result[k] == CharOf(grid[k])
      {
        for j := 0 to 9
          invariant idx == i * 9 + j
          invariant forall k :: 0 <= k < idx ==> result[k] == CharOf(grid[k])
        {
          if cells[i, j] == 0 {
            result[idx] := EmptyMark;
          } else {
            result[idx] := (cells[i, j] + '0' as int) as char;
          }
          idx := idx + 1;
        }
      }
      s := result[..];
      GridOfRender(grid);
    }
  }

  /** ParsePuzzle followed by ToString gives back the text. */
  method ParseAndRender(input: string) returns (output: string)
    requires IsPuzzleText(input)
    ensures output == input
  {
    var p := new Puzzle.Parse(input);
    output := p.ToString();
    RenderGridOf(input);
  }

  /** One puzzle of the driver loop: parse, solve, and the rendered grid on success or
      the failure line otherwise. A success is a completion of the givens, and a solution
      when the givens have no duplicates; a failure means no solution exists. */
  method SolveText(input: string, t: Tables) returns (solved: bool, output: string)
    requires IsPuzzleText(input) && t.Valid()
    ensures solved ==> IsPuzzleText(output) && Complete(GridOf(output)) && Extends(GridOf(output), GridOf(input))
    ensures solved && NoDuplicates(GridOf(input)) ==> IsSolution(GridOf(output))
    ensures !solved ==> output == NoSolution && !HasSolution(GridOf(input))
  {
    var p := new Puzzle.Parse(input);
    solved := p.Solve(t);
    if solved {
      output := p.ToString();
    } else {
      output := NoSolution;
    }
  }

  /** The line written for a puzzle the solver gives up on. */
  const NoSolution: string := "No solution found"

  /** (row, col) is the cell findBestCell picks in g: an empty cell such that every
      empty cell before it in row-major order has more candidates and not exactly one,
      and, unless it has exactly one candidate, no empty cell has fewer. */
  ghost predicate BestCell(g: seq<int>, row: int, col: int)
  {
    |g| == CellCount && 0 <= row < 9 && 0 <= col < 9 && g[Idx(row, col)] == 0 &&
    (forall r, c :: 0 <= r < 9 && 0 <= c < 9 && Idx(r, c) < Idx(row, col) && g[Idx(r, c)] == 0 ==>
      CandidateCount(g, r, c) > CandidateCount(g, row, col) && CandidateCount(g, r, c) != 1) &&
    (CandidateCount(g, row, col) != 1 ==>
      forall r, c :: 0 <= r < 9 && 0 <= c < 9 && g[Idx(r, c)] == 0 ==>
        CandidateCount(g, r, c) >= CandidateCount(g, row, col))
  }

  /** The scan of findBestCell after the first n cells of g: minCount is 10 while no empty
      cell was seen; otherwise (row, col) is the first seen empty cell with the fewest
      candidates, minCount (never 1) is that number, and every seen empty cell before it
      has more candidates and not exactly one. */
  ghost predicate Scanned(g: seq<int>, n: int, row: int, col: int, minCount: int)
  {
    |g| == CellCount && 0 <= n <= CellCount && 0 <= minCount <= 10 &&
    (minCount == 10 ==> forall r, c :: 0 <= r < 9 && 0 <= c < 9 && Idx(r, c) < n ==> g[Idx(r, c)] != 0) &&
    (minCount < 10 ==>
      0 <= row < 9 && 0 <= col < 9 && Idx(row, col) < n && g[Idx(row, col)] == 0 &&
      minCount == CandidateCount(g, row, col) && minCount != 1 &&
      (forall r, c :: 0 <= r < 9 && 0 <= c < 9 && Idx(r, c) < n && g[Idx(r, c)] == 0 ==>
        CandidateCount(g, r, c) >= minCount) &&
      (forall r, c :: 0 <= r < 9 && 0 <= c < 9 && Idx(r, c) < Idx(row, col) && g[Idx(r, c)] == 0 ==>
        CandidateCount(g, r, c) > minCount && CandidateCount(g, r, c) != 1))
  }

  /** One step of findBestCell's scan over cell (i, j): a filled cell or one with no fewer
      candidates leaves the best cell, an empty cell with exactly one candidate, fewer
      than minCount, is the best cell, and one with fewer but not exactly one takes over. */
  lemma ScanStep(g: seq<int>, row: int, col: int, minCount: int, i: int, j: int)
    requires 0 <= i < 9 && 0 <= j < 9 && Scanned(g, i * 9 + j, row, col, minCount)
    ensures g[Idx(i, j)] != 0 || CandidateCount(g, i, j) >= minCount ==>
      Scanned(g, i * 9 + j + 1, row, col, minCount)
    ensures g[Idx(i, j)] == 0 && CandidateCount(g, i, j) < minCount && CandidateCount(g, i, j) != 1 ==>
      Scanned(g, i * 9 + j + 1, i, j, CandidateCount(g, i, j))
    ensures g[Idx(i, j)] == 0 && CandidateCount(g, i, j) < minCount && CandidateCount(g, i, j) == 1 ==>
      BestCell(g, i, j)
  {
    if g[Idx(i, j)] != 0 || CandidateCount(g, i, j) >= minCount {
      KeepBest(g, row, col, minCount, i, j);
    } else if CandidateCount(g, i, j) != 1 {
      NewBest(g, row, col, minCount, i, j);
    }
  }

  /** solve's loop has run out of candidates for (row, col): each one was refuted, so g
      has no solution. */
  lemma Exhausted(g: seq<int>, row: int, col: int, cands: set<int>, lo: int)
    requires |g| == CellCount && 0 <= row < 9 && 0 <= col < 9 && g[Idx(row, col)] == 0
    requires cands == Candidates(g, row, col)
    requires forall i: nat :: BitSet(0, i) <==> lo <= i < 9 && i + 1 in cands
    requires forall v :: v <= lo && v in cands ==> !HasSolution(g[Idx(row, col) := v])
    ensures !HasSolution(g)
  {
    forall v | 1 <= v <= 9 && Candidate(g, row, col, v)
      ensures !HasSolution(g[Idx(row, col) := v])
    {
      assert v in cands;
      ZeroBits(v - 1);
    }
    NoCandidateSolvable(g, row, col);
  }

  /** A filled cell, or an empty one with no fewer candidates, leaves the best cell. */
  lemma KeepBest(g: seq<int>, row: int, col: int, minCount: int, i: int, j: int)
    requires 0 <= i < 9 && 0 <= j < 9 && Scanned(g, i * 9 + j, row, col, minCount)
    requires g[Idx(i, j)] != 0 || (minCount < 10 && CandidateCount(g, i, j) >= minCount)
    ensures Scanned(g, i * 9 + j + 1, row, col, minCount)
  {
    OtherCells(i, j);
  }

  /** An empty cell with fewer candidates, and not exactly one, becomes the best cell. */
  lemma NewBest(g: seq<int>, row: int, col: int, minCount: int, i: int, j: int)
    requires 0 <= i < 9 && 0 <= j < 9 && Scanned(g, i * 9 + j, row, col, minCount)
    requires g[Idx(i, j)] == 0 && CandidateCount(g, i, j) < minCount && CandidateCount(g, i, j) != 1
    ensures Scanned(g, i * 9 + j + 1, i, j, CandidateCount(g, i, j))
  {
    OtherCells(i, j);
  }

  /** After all 81 cells, with some cell empty, the best cell is the first one with the
      fewest candidates. */
  lemma ScanDone(g: seq<int>, row: int, col: int, minCount: int)
    requires Scanned(g, CellCount, row, col, minCount) && CountEmpty(g) != 0
    ensures minCount < 10 && BestCell(g, row, col)
  {
    SomeEmptyCell(g);
    forall r, c | 0 <= r < 9 && 0 <= c < 9
      ensures Idx(r, c) < CellCount
    {
      IdxFacts(r, c, r, c);
    }
  }

  /** The state of a puzzle before any character is read. */
  function Blank(): State
  {
    State(seq(CellCount, _ => 0), seq(9, _ => 0), seq(9, _ => 0), seq(9, _ => 0), 0)
  }

  /** ParsePuzzle reading character k: a digit is written to its cell and recorded in
      the masks, a '.' counts one empty cell. */
  function ReadChar(s: State, input: string, k: int): (r: State)
    requires IsPuzzleText(input) && 0 <= k < CellCount
    requires |s.grid| == CellCount && |s.rows| == 9 && |s.cols| == 9 && |s.boxes| == 9
    ensures |r.grid| == CellCount && |r.rows| == 9 && |r.cols| == 9 && |r.boxes| == 9
  {
    if input[k] == EmptyMark then s.(empty := s.empty + 1)
    else Place(s, Cell(k).0, Cell(k).1, input[k] as int - '0' as int).(empty := s.empty)
  }

  /** The state ParsePuzzle has built after reading the first n characters of input. */
  /** ReadChar at the index of cell (row, col), with the cell's coordinates resolved. */
  lemma ReadCharAt(s: State, input: string, row: int, col: int)
    requires IsPuzzleText(input) && 0 <= row < 9 && 0 <= col < 9
    requires |s.grid| == CellCount && |s.rows| == 9 && |s.cols| == 9 && |s.boxes| == 9
    ensures 0 <= Idx(row, col) < CellCount
    ensures input[Idx(row, col)] == EmptyMark ==>
      ReadChar(s, input, Idx(row, col)) == s.(empty := s.empty + 1)
    ensures input[Idx(row, col)] != EmptyMark ==>
      ReadChar(s, input, Idx(row, col)) ==
        Place(s, row, col, input[Idx(row, col)] as int - '0' as int).(empty := s.empty)
  {
    CellOfIdx(row, col);
  }

  function Parsed(input: string, n: nat): (s: State)
    requires IsPuzzleText(input) && n <= CellCount
    ensures |s.grid| == CellCount && |s.rows| == 9 && |s.cols| == 9 && |s.boxes| == 9
  {
    if n == 0 then Blank() else ReadChar(Parsed(input, n - 1), input, n - 1)
  }

  lemma {:induction false} ParsedFacts(input: string, n: nat)
    requires IsPuzzleText(input) && n <= CellCount
    ensures PrefixState(input, n, Parsed(input, n))
    decreases n
  {
    if n == 0 {
      ZeroMasksMatch(Blank().grid, Blank().rows, Blank().cols, Blank().boxes);
    } else {
      ParsedFacts(input, n - 1);
      ParsedStep(input, n - 1, Parsed(input, n - 1));
    }
  }

  /** What the state after n characters holds: the first n cells hold the characters'
      values and the rest are empty, the masks match the grid, and the counter is the
      number of '.' read. */
  ghost predicate PrefixState(input: string, n: nat, s: State)
    requires |input| == CellCount && n <= CellCount
  {
    |s.grid| == CellCount && |s.rows| == 9 && |s.cols| == 9 && |s.boxes| == 9 &&
    (forall k :: 0 <= k < CellCount ==> s.grid[k] == if k < n then CellOf(input[k]) else 0) &&
    MasksMatch(s.grid, s.rows, s.cols, s.boxes) && s.empty == CountMarks(input[..n])
  }

  /** Reading character k keeps PrefixState. */
  lemma ParsedStep(input: string, k: nat, s: State)
    requires IsPuzzleText(input) && k < CellCount && PrefixState(input, k, s)
    ensures PrefixState(input, k + 1, ReadChar(s, input, k))
  {
    StepGrid(input, k, s);
    StepMasks(input, k, s);
    StepCount(input, k, s);
  }

  /** Reading character k writes its value into cell k and leaves the others. */
  lemma StepGrid(input: string, k: nat, s: State)
    requires IsPuzzleText(input) && k < CellCount
    requires |s.grid| == CellCount && |s.rows| == 9 && |s.cols| == 9 && |s.boxes| == 9
    requires s.grid[k] == 0
    ensures ReadChar(s, input, k).grid == s.grid[k := CellOf(input[k])]
  {
    if input[k] != EmptyMark {
      var (row, col) := Cell(k);
      assert Idx(row, col) == k;
    }
  }

  /** Reading a digit into an empty cell keeps the masks matching the grid. */
  lemma StepMasks(input: string, k: nat, s: State)
    requires IsPuzzleText(input) && k < CellCount
    requires |s.grid| == CellCount && |s.rows| == 9 && |s.cols| == 9 && |s.boxes| == 9
    requires s.grid[k] == 0 && MasksMatch(s.grid, s.rows, s.cols, s.boxes)
    ensures var r := ReadChar(s, input, k); MasksMatch(r.grid, r.rows, r.cols, r.boxes)
  {
    var r := ReadChar(s, input, k);
    if input[k] != EmptyMark {
      var rc := Cell(k);
      var v := input[k] as int - '0' as int;
      forall rr, i: nat | 0 <= rr < 9
        ensures BitSet(r.rows[rr], i) <==> i < 9 && InRow(r.grid, rr, i + 1)
      {
        RowAfterWrite(s.grid, rc.0, rc.1, v, rr, i + 1);
      }
      forall c, i: nat | 0 <= c < 9
        ensures BitSet(r.cols[c], i) <==> i < 9 && InCol(r.grid, c, i + 1)
      {
        ColAfterWrite(s.grid, rc.0, rc.1, v, c, i + 1);
      }
      forall b, i: nat | 0 <= b < 9
        ensures BitSet(r.boxes[b], i) <==> i < 9 && InBox(r.grid, b, i + 1)
      {
        BoxAfterWrite(s.grid, rc.0, rc.1, v, b, i + 1);
      }
    }
  }

  /** Reading character k adds one to the counter exactly when it is a '.'. */
  lemma StepCount(input: string, k: nat, s: State)
    requires IsPuzzleText(input) && k < CellCount
    requires |s.grid| == CellCount && |s.rows| == 9 && |s.cols| == 9 && |s.boxes| == 9
    requires s.empty == CountMarks(input[..k])
    ensures ReadChar(s, input, k).empty == CountMarks(input[..k + 1])
  {
    assert input[..k + 1] == input[..k] + [input[k]];
  }

  /** With no digit placed, all-zero masks match. */
  lemma ZeroMasksMatch(g: seq<int>, rows: seq<U16>, cols: seq<U16>, boxes: seq<U16>)
    requires |g| == CellCount && |rows| == 9 && |cols| == 9 && |boxes| == 9
    requires forall k :: 0 <= k < CellCount ==> g[k] == 0
    requires forall k :: 0 <= k < 9 ==> rows[k] == 0 && cols[k] == 0 && boxes[k] == 0
    ensures MasksMatch(g, rows, cols, boxes)
  {
    forall i: nat
      ensures !BitSet(0, i)
    {
      ZeroBits(i);
    }
    forall r, c | 0 <= r < 9 && 0 <= c < 9
      ensures 0 <= Idx(r, c) < CellCount
    {
      IdxFacts(r, c, r, c);
    }
  }
}
