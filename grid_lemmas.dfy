/** Facts about the grid specification: what a write does to rows, columns and boxes,
    the place/undo pair on the solver's state, candidates and solutions, and the text
    round trip. */
module GridLemmas {
  import opened Bits
  import opened Grid

  /** GetBox is getBox's `(row / 3) * 3 + col / 3`. */
  lemma GetBoxIsQuotient(row: int, col: int)
    requires 0 <= row < 9 && 0 <= col < 9
    ensures GetBox(row, col) == (row / 3) * 3 + col / 3
  {
  }

  /** The position of (row, col) names (row, col). */
  lemma CellOfIdx(row: int, col: int)
    requires 0 <= row < 9 && 0 <= col < 9
    ensures 0 <= Idx(row, col) < CellCount && Cell(Idx(row, col)) == (row, col)
  {
    IdxFacts(row, col, row, col);
    var rc := Cell(Idx(row, col));
    IdxFacts(rc.0, rc.1, row, col);
  }

  /** Every cell other than (row, col) sits at another position of the grid. */
  lemma OtherCells(row: int, col: int)
    requires 0 <= row < 9 && 0 <= col < 9
    ensures 0 <= Idx(row, col) < CellCount
    ensures forall r, c :: 0 <= r < 9 && 0 <= c < 9 && (r != row || c != col) ==> Idx(r, c) != Idx(row, col)
  {
    forall r, c | 0 <= r < 9 && 0 <= c < 9 && (r != row || c != col)
      ensures Idx(r, c) != Idx(row, col)
    {
      IdxFacts(r, c, row, col);
    }
  }

  /** Distinct cells have distinct positions, and each position names one cell. */
  lemma IdxFacts(r1: int, c1: int, r2: int, c2: int)
    requires 0 <= r1 < 9 && 0 <= c1 < 9 && 0 <= r2 < 9 && 0 <= c2 < 9
    ensures 0 <= Idx(r1, c1) < CellCount
    ensures Idx(r1, c1) == Idx(r2, c2) <==> r1 == r2 && c1 == c2
  {
  }

  // ---- a write into an empty cell ----

  lemma RowAfterWrite(g: seq<int>, row: int, col: int, v: int, r: int, w: int)
    requires |g| == CellCount && 0 <= row < 9 && 0 <= col < 9 && 0 <= r < 9
    requires g[Idx(row, col)] == 0 && w != 0
    ensures InRow(g[Idx(row, col) := v], r, w) <==> InRow(g, r, w) || (r == row && v == w)
  {
    var g' := g[Idx(row, col) := v];
    if InRow(g', r, w) {
      var c :| 0 <= c < 9 && g'[Idx(r, c)] == w;
      IdxFacts(r, c, row, col);
      if Idx(r, c) != Idx(row, col) {
        assert g[Idx(r, c)] == w;
      }
    }
    if InRow(g, r, w) {
      var c :| 0 <= c < 9 && g[Idx(r, c)] == w;
      IdxFacts(r, c, row, col);
      assert g'[Idx(r, c)] == w;
    }
    if r == row && v == w {
      IdxFacts(row, col, row, col);
      assert g'[Idx(row, col)] == w;
    }
  }

  lemma ColAfterWrite(g: seq<int>, row: int, col: int, v: int, c: int, w: int)
    requires |g| == CellCount && 0 <= row < 9 && 0 <= col < 9 && 0 <= c < 9
    requires g[Idx(row, col)] == 0 && w != 0
    ensures InCol(g[Idx(row, col) := v], c, w) <==> InCol(g, c, w) || (c == col && v == w)
  {
    var g' := g[Idx(row, col) := v];
    if InCol(g', c, w) {
      var r :| 0 <= r < 9 && g'[Idx(r, c)] == w;
      IdxFacts(r, c, row, col);
      if Idx(r, c) != Idx(row, col) {
        assert g[Idx(r, c)] == w;
      }
    }
    if InCol(g, c, w) {
      var r :| 0 <= r < 9 && g[Idx(r, c)] == w;
      IdxFacts(r, c, row, col);
      assert g'[Idx(r, c)] == w;
    }
    if c == col && v == w {
      IdxFacts(row, col, row, col);
      assert g'[Idx(row, col)] == w;
    }
  }

  lemma BoxAfterWrite(g: seq<int>, row: int, col: int, v: int, b: int, w: int)
    requires |g| == CellCount && 0 <= row < 9 && 0 <= col < 9
    requires g[Idx(row, col)] == 0 && w != 0
    ensures InBox(g[Idx(row, col) := v], b, w) <==> InBox(g, b, w) || (b == GetBox(row, col) && v == w)
  {
  }

  /** Writing digit v into an empty cell and setting v's bit in the cell's three masks
      keeps the masks equal to the digits placed. */
  lemma MasksAfterWrite(g: seq<int>, rows: seq<U16>, cols: seq<U16>, boxes: seq<U16>, row: int, col: int, v: int)
    requires |g| == CellCount && |rows| == 9 && |cols| == 9 && |boxes| == 9
    requires 0 <= row < 9 && 0 <= col < 9 && 1 <= v <= 9 && g[Idx(row, col)] == 0
    requires MasksMatch(g, rows, cols, boxes)
    ensures MasksMatch(g[Idx(row, col) := v],
                       rows[row := Or16(rows[row], DigitBit(v - 1))],
                       cols[col := Or16(cols[col], DigitBit(v - 1))],
                       boxes[GetBox(row, col) := Or16(boxes[GetBox(row, col)], DigitBit(v - 1))])
  {
    var g' := g[Idx(row, col) := v];
    var bit := DigitBit(v - 1);
    var b0 := GetBox(row, col);
    var rows', cols', boxes' := rows[row := Or16(rows[row], bit)], cols[col := Or16(cols[col], bit)], boxes[b0 := Or16(boxes[b0], bit)];
    forall r, i: nat | 0 <= r < 9
      ensures BitSet(rows'[r], i) <==> i < 9 && InRow(g', r, i + 1)
    {
      RowAfterWrite(g, row, col, v, r, i + 1);
    }
    forall c, i: nat | 0 <= c < 9
      ensures BitSet(cols'[c], i) <==> i < 9 && InCol(g', c, i + 1)
    {
      ColAfterWrite(g, row, col, v, c, i + 1);
    }
    forall b, i: nat | 0 <= b < 9
      ensures BitSet(boxes'[b], i) <==> i < 9 && InBox(g', b, i + 1)
    {
      BoxAfterWrite(g, row, col, v, b, i + 1);
    }
  }

  // ---- place and undo on the state ----

  /** setCell on an empty cell keeps the representation invariant, whatever digit it
      writes, and leaves one empty cell fewer. */
  lemma PlaceConsistent(s: State, row: int, col: int, v: int)
    requires Consistent(s) && 0 <= row < 9 && 0 <= col < 9 && 1 <= v <= 9
    requires s.grid[Idx(row, col)] == 0
    ensures Consistent(Place(s, row, col, v))
    ensures Place(s, row, col, v).empty == s.empty - 1
  {
    MasksAfterWrite(s.grid, s.rows, s.cols, s.boxes, row, col, v);
  }

  /** clearCell undoes setCell exactly when the cell was empty and v was a candidate: the
      state after both is the state before. */
  lemma UnplaceAfterPlace(s: State, row: int, col: int, v: int)
    requires Consistent(s) && 0 <= row < 9 && 0 <= col < 9 && 1 <= v <= 9
    requires s.grid[Idx(row, col)] == 0 && Candidate(s.grid, row, col, v)
    ensures Unplace(Place(s, row, col, v), row, col, v) == s
  {
    var b := GetBox(row, col);
    ClearAfterSet(s.rows[row], v - 1);
    ClearAfterSet(s.cols[col], v - 1);
    ClearAfterSet(s.boxes[b], v - 1);
    var t := Unplace(Place(s, row, col, v), row, col, v);
    assert t.grid == s.grid;
    assert t.rows == s.rows;
    assert t.cols == s.cols;
    assert t.boxes == s.boxes;
  }

  /** getPossibilities under the invariant: a nine-bit mask whose bit d is set exactly
      when digit d + 1 may be written at the cell. */
  lemma PossibilitiesAreCandidates(s: State, row: int, col: int)
    requires Consistent(s) && 0 <= row < 9 && 0 <= col < 9
    ensures Possibilities(s, row, col) <= AllBits
    ensures forall i: nat :: BitSet(Possibilities(s, row, col), i) <==> i < 9 && Candidate(s.grid, row, col, i + 1)
  {
    ComplementMask(s.rows[row], s.cols[col], s.boxes[GetBox(row, col)]);
  }

  lemma {:induction false} CountBitsIsCountCandidates(s: State, row: int, col: int, n: nat)
    requires Consistent(s) && 0 <= row < 9 && 0 <= col < 9 && n <= 9
    ensures CountBits(Possibilities(s, row, col), n) == CountCandidates(s.grid, row, col, n)
  {
    if n > 0 {
      CountBitsIsCountCandidates(s, row, col, n - 1);
      PossibilitiesAreCandidates(s, row, col);
    }
  }

  /** The table count of a cell's possibilities is the number of digits that may be
      written there. */
  lemma PopCountIsCandidateCount(s: State, row: int, col: int)
    requires Consistent(s) && 0 <= row < 9 && 0 <= col < 9
    ensures PopCount(Possibilities(s, row, col)) == CandidateCount(s.grid, row, col)
  {
    CountBitsIsCountCandidates(s, row, col, 9);
  }

  // ---- solutions ----

  /** Writing a candidate into an empty cell creates no duplicate. */
  lemma PlaceCandidateNoDuplicates(g: seq<int>, row: int, col: int, v: int)
    requires |g| == CellCount && 0 <= row < 9 && 0 <= col < 9 && v != 0
    requires NoDuplicates(g) && g[Idx(row, col)] == 0 && Candidate(g, row, col, v)
    ensures NoDuplicates(g[Idx(row, col) := v])
  {
    var g' := g[Idx(row, col) := v];
    forall r1, c1, r2, c2 |
      0 <= r1 < 9 && 0 <= c1 < 9 && 0 <= r2 < 9 && 0 <= c2 < 9 &&
      (r1 != r2 || c1 != c2) && SameUnit(r1, c1, r2, c2) && g'[Idx(r1, c1)] != 0
      ensures g'[Idx(r1, c1)] != g'[Idx(r2, c2)]
    {
      IdxFacts(r1, c1, row, col);
      IdxFacts(r2, c2, row, col);
      IdxFacts(r1, c1, r2, c2);
      if r1 == row && c1 == col {
        NotInUnit(g, row, col, v, r2, c2);
      } else if r2 == row && c2 == col {
        NotInUnit(g, row, col, v, r1, c1);
      }
    }
  }

  /** A candidate for (row, col) is held by no other cell in its row, column or box. */
  lemma NotInUnit(g: seq<int>, row: int, col: int, v: int, r: int, c: int)
    requires |g| == CellCount && 0 <= row < 9 && 0 <= col < 9 && 0 <= r < 9 && 0 <= c < 9
    requires Candidate(g, row, col, v) && SameUnit(row, col, r, c)
    ensures g[Idx(r, c)] != v
  {
    if r == row {
      assert !InRow(g, row, v);
    } else if c == col {
      assert !InCol(g, col, v);
    } else {
      assert !InBox(g, GetBox(row, col), v);
    }
  }

  /** Two different cells of one unit never hold the same digit in a grid without
      duplicates. */
  lemma DistinctInUnit(g: seq<int>, r1: int, c1: int, r2: int, c2: int)
    requires |g| == CellCount && NoDuplicates(g)
    requires 0 <= r1 < 9 && 0 <= c1 < 9 && 0 <= r2 < 9 && 0 <= c2 < 9
    requires (r1 != r2 || c1 != c2) && SameUnit(r1, c1, r2, c2) && g[Idx(r1, c1)] != 0
    ensures g[Idx(r1, c1)] != g[Idx(r2, c2)]
  {
  }

  /** The digit a solution holds at an empty cell of g is a candidate there: a solution
      keeping g's digits cannot repeat one of them in a unit. */
  lemma SolutionValueIsCandidate(s: seq<int>, g: seq<int>, row: int, col: int)
    requires IsSolution(s) && Extends(s, g) && 0 <= row < 9 && 0 <= col < 9
    requires g[Idx(row, col)] == 0
    ensures Candidate(g, row, col, s[Idx(row, col)])
  {
    var v := s[Idx(row, col)];
    IdxFacts(row, col, row, col);
    if InRow(g, row, v) {
      var c :| 0 <= c < 9 && g[Idx(row, c)] == v;
      IdxFacts(row, c, row, col);
      DistinctInUnit(s, row, col, row, c);
      assert false;
    }
    if InCol(g, col, v) {
      var r :| 0 <= r < 9 && g[Idx(r, col)] == v;
      IdxFacts(r, col, row, col);
      DistinctInUnit(s, row, col, r, col);
      assert false;
    }
    if InBox(g, GetBox(row, col), v) {
      var r, c :| 0 <= r < 9 && 0 <= c < 9 && GetBox(r, c) == GetBox(row, col) && g[Idx(r, c)] == v;
      IdxFacts(r, c, row, col);
      DistinctInUnit(s, row, col, r, c);
      assert false;
    }
  }

  /** Completeness of branching on one empty cell: if no candidate written there leads
      to a solution, the grid has none. */
  lemma NoCandidateSolvable(g: seq<int>, row: int, col: int)
    requires |g| == CellCount && 0 <= row < 9 && 0 <= col < 9 && g[Idx(row, col)] == 0
    requires forall v :: 1 <= v <= 9 && Candidate(g, row, col, v) ==> !HasSolution(g[Idx(row, col) := v])
    ensures !HasSolution(g)
  {
    if HasSolution(g) {
      var s :| IsSolution(s) && Extends(s, g);
      var v := s[Idx(row, col)];
      IdxFacts(row, col, row, col);
      SolutionValueIsCandidate(s, g, row, col);
      assert false;
    }
  }

  /** A solution of g with a digit written into an empty cell is a solution of g. */
  lemma ExtendsAfterWrite(s: seq<int>, g: seq<int>, row: int, col: int, v: int)
    requires |g| == CellCount && 0 <= row < 9 && 0 <= col < 9 && g[Idx(row, col)] == 0
    requires Extends(s, g[Idx(row, col) := v])
    ensures Extends(s, g)
  {
  }

  /** A well-formed grid with no empty cell is complete. */
  lemma NoEmptyIsComplete(g: seq<int>)
    requires WellFormed(g) && CountEmpty(g) == 0
    ensures Complete(g)
  {
    forall k | 0 <= k < CellCount
      ensures g[k] != 0
    {
      assert g[k] in multiset(g);
    }
  }

  /** A grid with an empty cell has a zero somewhere. */
  lemma SomeEmptyCell(g: seq<int>)
    requires |g| == CellCount && CountEmpty(g) > 0
    ensures exists r, c :: 0 <= r < 9 && 0 <= c < 9 && g[Idx(r, c)] == 0
  {
    assert 0 in multiset(g);
    var k :| 0 <= k < CellCount && g[k] == 0;
    var (r, c) := Cell(k);
    assert g[Idx(r, c)] == 0;
  }

  /** In a solution every row, column and box holds each digit 1 .. 9 (and, having nine
      cells without a repeat, holds each exactly once). */
  lemma SolutionUnits(g: seq<int>)
    requires IsSolution(g)
    ensures forall r, v :: 0 <= r < 9 && 1 <= v <= 9 ==> InRow(g, r, v)
    ensures forall c, v :: 0 <= c < 9 && 1 <= v <= 9 ==> InCol(g, c, v)
    ensures forall b, v :: 0 <= b < 9 && 1 <= v <= 9 ==> InBox(g, b, v)
  {
    forall r, v | 0 <= r < 9 && 1 <= v <= 9 ensures InRow(g, r, v) {
      RowHoldsAll(g, r);
    }
    forall c, v | 0 <= c < 9 && 1 <= v <= 9 ensures InCol(g, c, v) {
      ColHoldsAll(g, c);
    }
    forall b, v | 0 <= b < 9 && 1 <= v <= 9 ensures InBox(g, b, v) {
      BoxHoldsAll(g, b);
    }
  }

  lemma RowHoldsAll(g: seq<int>, r: int)
    requires IsSolution(g) && 0 <= r < 9
    ensures forall v :: 1 <= v <= 9 ==> InRow(g, r, v)
  {
    var s := seq(9, c requires 0 <= c < 9 => g[Idx(r, c)]);
    forall i, j | 0 <= i < j < 9 ensures s[i] != s[j] {
      IdxFacts(r, i, r, j);
      DistinctInUnit(g, r, i, r, j);
    }
    forall v | 1 <= v <= 9 ensures InRow(g, r, v) {
      Pigeonhole(s);
      assert v in s;
      var c :| 0 <= c < 9 && s[c] == v;
    }
  }

  lemma ColHoldsAll(g: seq<int>, c: int)
    requires IsSolution(g) && 0 <= c < 9
    ensures forall v :: 1 <= v <= 9 ==> InCol(g, c, v)
  {
    var s := seq(9, r requires 0 <= r < 9 => g[Idx(r, c)]);
    forall i, j | 0 <= i < j < 9 ensures s[i] != s[j] {
      IdxFacts(i, c, j, c);
      DistinctInUnit(g, i, c, j, c);
    }
    forall v | 1 <= v <= 9 ensures InCol(g, c, v) {
      Pigeonhole(s);
      assert v in s;
      var r :| 0 <= r < 9 && s[r] == v;
    }
  }

  lemma BoxHoldsAll(g: seq<int>, b: int)
    requires IsSolution(g) && 0 <= b < 9
    ensures forall v :: 1 <= v <= 9 ==> InBox(g, b, v)
  {
    var s := seq(9, k requires 0 <= k < 9 => BoxValue(g, b, k));
    forall i, j | 0 <= i < j < 9 ensures s[i] != s[j] {
      BoxValuesDiffer(g, b, i, j);
    }
    forall v | 1 <= v <= 9 ensures InBox(g, b, v) {
      Pigeonhole(s);
      assert v in s;
      var k :| 0 <= k < 9 && s[k] == v;
      assert GetBox(BoxRow(b, k), BoxCol(b, k)) == b;
    }
  }

  /** The digit in the k-th cell, row-major, of box b. */
  function BoxValue(g: seq<int>, b: int, k: int): (v: int)
    requires IsSolution(g) && 0 <= b < 9 && 0 <= k < 9
    ensures 1 <= v <= 9
  {
    IdxFacts(BoxRow(b, k), BoxCol(b, k), 0, 0);
    g[Idx(BoxRow(b, k), BoxCol(b, k))]
  }

  /** Two cells of one box hold different digits in a solution. */
  lemma BoxValuesDiffer(g: seq<int>, b: int, i: int, j: int)
    requires IsSolution(g) && 0 <= b < 9 && 0 <= i < 9 && 0 <= j < 9 && i != j
    ensures BoxValue(g, b, i) != BoxValue(g, b, j)
  {
    BoxCellsDiffer(b, i, j);
    IdxFacts(BoxRow(b, i), BoxCol(b, i), BoxRow(b, j), BoxCol(b, j));
    DistinctInUnit(g, BoxRow(b, i), BoxCol(b, i), BoxRow(b, j), BoxCol(b, j));
  }

  /** The row of the k-th cell, row-major, of box b. */
  function BoxRow(b: int, k: int): (r: int)
    requires 0 <= b < 9 && 0 <= k < 9
    ensures 0 <= r < 9 && Third(r) == Third(b)
  {
    Third(b) * 3 + Third(k)
  }

  /** The column of the k-th cell, row-major, of box b. */
  function BoxCol(b: int, k: int): (c: int)
    requires 0 <= b < 9 && 0 <= k < 9
    ensures 0 <= c < 9 && GetBox(BoxRow(b, k), c) == b
  {
    (b - Third(b) * 3) * 3 + (k - Third(k) * 3)
  }

  /** Different indices name different cells of a box. */
  lemma BoxCellsDiffer(b: int, i: int, j: int)
    requires 0 <= b < 9 && 0 <= i < 9 && 0 <= j < 9 && i != j
    ensures BoxRow(b, i) != BoxRow(b, j) || BoxCol(b, i) != BoxCol(b, j)
  {
  }

  /** n distinct values from 1 .. n take every value in 1 .. n. */
  lemma Pigeonhole(s: seq<int>)
    requires forall i :: 0 <= i < |s| ==> 1 <= s[i] <= |s|
    requires forall i, j :: 0 <= i < j < |s| ==> s[i] != s[j]
    ensures forall v :: 1 <= v <= |s| ==> v in s
  {
    var used := set x | x in s;
    var all := Digits(|s|);
    DistinctCard(s);
    RangeCard(|s|);
    DigitsMembers(|s|);
    assert used <= all;
    assert all * used == used;
    var rest := all - used;
    assert |rest| == |all| - |all * used|;
    assert rest == {};
    forall v | 1 <= v <= |s| ensures v in s {
      assert v in all && v !in rest;
    }
  }

  /** A sequence without repeats has as many distinct values as elements. */
  lemma {:induction false} DistinctCard(s: seq<int>)
    requires forall i, j :: 0 <= i < j < |s| ==> s[i] != s[j]
    ensures |set x | x in s| == |s|
  {
    if s != [] {
      var p := s[..|s| - 1];
      DistinctCard(p);
      assert s == p + [s[|s| - 1]];
      assert (set x | x in s) == (set x | x in p) + {s[|s| - 1]};
    }
  }

  /** The values 1 .. n. */
  function Digits(n: nat): set<int>
  {
    if n == 0 then {} else Digits(n - 1) + {n}
  }

  /** Digits(n) holds exactly 1 .. n. */
  lemma {:induction false} DigitsMembers(n: nat)
    ensures forall v :: v in Digits(n) <==> 1 <= v <= n
  {
    if n > 0 {
      DigitsMembers(n - 1);
    }
  }

  /** 1 .. n has n members. */
  lemma {:induction false} RangeCard(n: nat)
    ensures |Digits(n)| == n
  {
    if n > 0 {
      RangeCard(n - 1);
      var prev := Digits(n - 1);
      DigitsMembers(n - 1);
      assert n !in prev;
      assert |prev + {n}| == |prev| + 1;
    }
  }

  // ---- the text form ----

  /** Rendering a parsed puzzle text gives the text back. */
  lemma RenderGridOf(text: string)
    requires IsPuzzleText(text)
    ensures WellFormed(GridOf(text))
    ensures Render(GridOf(text)) == text
  {
  }

  /** Parsing a rendered grid gives the grid back, and rendering yields a puzzle text. */
  lemma GridOfRender(g: seq<int>)
    requires WellFormed(g)
    ensures IsPuzzleText(Render(g))
    ensures GridOf(Render(g)) == g
  {
  }

  /** The '.' characters of a puzzle text are exactly its parsed grid's empty cells. */
  lemma {:induction false} MarksAreEmptyCells(text: string, n: nat)
    requires IsPuzzleText(text) && n <= CellCount
    ensures CountMarks(text[..n]) == CountEmpty(GridOf(text)[..n])
  {
    if n > 0 {
      MarksAreEmptyCells(text, n - 1);
      assert text[..n] == text[..n - 1] + [text[n - 1]];
      assert GridOf(text)[..n] == GridOf(text)[..n - 1] + [GridOf(text)[n - 1]];
    }
  }
}
