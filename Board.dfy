/** The grid of the 6x6 puzzle: cells, slots, the row/column/box scans that
    decide whether a digit may be placed, and what it means for a filled grid
    to be a solution of a partly filled one. */
module Board {

  /** Number of rows and of columns. */
  const Size := 6

  /** One position of the grid. A single cell uses only `first`; a pair cell
      (`twoVals`) uses both slots. 0 marks an open slot. */
  datatype Cell = Cell(first: int, second: int, twoVals: bool)

  /** The two slots of a cell. */
  datatype Slot = First | Second

  /** Rows of cells, row-major. */
  type Grid = seq<seq<Cell>>

  predicate WellShaped(g: Grid) {
    |g| == Size && forall i :: 0 <= i < Size ==> |g[i]| == Size
  }

  function SlotAt(g: Grid, i: int, j: int, s: Slot): int
    requires WellShaped(g) && 0 <= i < Size && 0 <= j < Size
  {
    if s == First then g[i][j].first else g[i][j].second
  }

  /** Slot `s` of `cell` is open: the first slot of any cell, or the second
      slot of a pair cell, holding 0. */
  predicate OpenAt(cell: Cell, s: Slot) {
    (s == First && cell.first == 0) || (s == Second && cell.twoVals && cell.second == 0)
  }

  /** The test the solver's scan applies to a cell: a pair is open when either
      of its slots is 0, a single cell when its first slot is 0. */
  predicate IsOpen(cell: Cell) {
    if cell.twoVals then cell.first == 0 || cell.second == 0 else cell.first == 0
  }

  predicate NoOpenSlot(g: Grid)
    requires WellShaped(g)
  {
    forall i, j :: 0 <= i < Size && 0 <= j < Size ==> !IsOpen(g[i][j])
  }

  /** (i, j) comes before (r, c) in row-major order. */
  predicate Before(i: int, j: int, r: int, c: int) {
    i < r || (i == r && j < c)
  }

  /** (r, c) is the first cell in row-major order with an open slot. */
  predicate IsFirstOpen(g: Grid, r: int, c: int)
    requires WellShaped(g)
  {
    && 0 <= r < Size && 0 <= c < Size
    && IsOpen(g[r][c])
    && forall i, j :: 0 <= i < Size && 0 <= j < Size && Before(i, j, r, c) ==> !IsOpen(g[i][j])
  }

  /** The slot the solver fills in an open cell: the first slot of a single
      cell, the first slot of a pair whose first slot is 0, else the second. */
  function Target(cell: Cell): (s: Slot)
    requires IsOpen(cell)
    ensures OpenAt(cell, s)
    ensures s == Second <==> cell.twoVals && cell.first != 0
  {
    if cell.twoVals && cell.first != 0 then Second else First
  }

  /** The grid with slot `s` of cell (r, c) set to `v`. */
  function WithSlot(g: Grid, r: int, c: int, s: Slot, v: int): (g': Grid)
    requires WellShaped(g) && 0 <= r < Size && 0 <= c < Size
    ensures WellShaped(g')
    ensures SlotAt(g', r, c, s) == v
    ensures forall i, j, t :: 0 <= i < Size && 0 <= j < Size && (i != r || j != c || t != s) ==>
              SlotAt(g', i, j, t) == SlotAt(g, i, j, t)
    ensures forall i, j :: 0 <= i < Size && 0 <= j < Size ==> g'[i][j].twoVals == g[i][j].twoVals
  {
    var cell := g[r][c];
    g[r := g[r][c := if s == First then cell.(first := v) else cell.(second := v)]]
  }

  // ---------------------------------------------------------------------------
  // The scans of the validation step

  /** The solver's scans compare both slots of a cell with the candidate,
      whether the cell is a pair or not. */
  predicate Holds(cell: Cell, val: int) {
    cell.first == val || cell.second == val
  }

  /** Top row of the 2x3 box holding row r. */
  function BoxTop(r: int): (b: int)
    requires 0 <= r < Size
    ensures 0 <= b <= r < b + 2 <= Size && b % 2 == 0
  {
    2 * (r / 2)
  }

  /** Left column of the 2x3 box holding column c. */
  function BoxLeft(c: int): (b: int)
    requires 0 <= c < Size
    ensures 0 <= b <= c < b + 3 <= Size && b % 3 == 0
  {
    3 * (c / 3)
  }

  predicate RowFree(g: Grid, r: int, val: int)
    requires WellShaped(g) && 0 <= r < Size
  {
    forall j :: 0 <= j < Size ==> !Holds(g[r][j], val)
  }

  predicate ColFree(g: Grid, c: int, val: int)
    requires WellShaped(g) && 0 <= c < Size
  {
    forall i :: 0 <= i < Size ==> !Holds(g[i][c], val)
  }

  predicate BoxFree(g: Grid, r: int, c: int, val: int)
    requires WellShaped(g) && 0 <= r < Size && 0 <= c < Size
  {
    forall i, j :: BoxTop(r) <= i < BoxTop(r) + 2 && BoxLeft(c) <= j < BoxLeft(c) + 3 ==>
      !Holds(g[i][j], val)
  }

  predicate EntryFree(g: Grid, r: int, c: int, val: int)
    requires WellShaped(g) && 0 <= r < Size && 0 <= c < Size
  {
    RowFree(g, r, val) && ColFree(g, c, val) && BoxFree(g, r, c, val)
  }

  /** Cell (i, j) shares a row, a column or a 2x3 box with cell (r, c). */
  predicate InScope(r: int, c: int, i: int, j: int)
    requires 0 <= r < Size && 0 <= c < Size && 0 <= i < Size && 0 <= j < Size
  {
    i == r || j == c || (BoxTop(i) == BoxTop(r) && BoxLeft(j) == BoxLeft(c))
  }

  /** No slot of any cell sharing a row, column or box with (r, c), the cell
      itself included, holds `val`. */
  predicate ScopeFree(g: Grid, r: int, c: int, val: int)
    requires WellShaped(g) && 0 <= r < Size && 0 <= c < Size
  {
    forall i, j, t :: 0 <= i < Size && 0 <= j < Size && InScope(r, c, i, j) ==> SlotAt(g, i, j, t) != val
  }

  lemma BoxMembership(r: int, i: int)
    requires 0 <= r < Size && 0 <= i < Size
    ensures BoxTop(r) <= i < BoxTop(r) + 2 <==> BoxTop(i) == BoxTop(r)
  {
  }

  lemma BoxMembershipCol(c: int, j: int)
    requires 0 <= c < Size && 0 <= j < Size
    ensures BoxLeft(c) <= j < BoxLeft(c) + 3 <==> BoxLeft(j) == BoxLeft(c)
  {
  }

  /** The three scans together reject exactly the digits already held by a
      slot in the row, the column or the box of (r, c). */
  lemma EntryFreeIffScopeFree(g: Grid, r: int, c: int, val: int)
    requires WellShaped(g) && 0 <= r < Size && 0 <= c < Size
    ensures EntryFree(g, r, c, val) <==> ScopeFree(g, r, c, val)
  {
    if EntryFree(g, r, c, val) {
      forall i, j, t | 0 <= i < Size && 0 <= j < Size && InScope(r, c, i, j)
        ensures SlotAt(g, i, j, t) != val
      {
        if i != r && j != c {
          BoxMembership(r, i);
          BoxMembershipCol(c, j);
        }
      }
    }
    if ScopeFree(g, r, c, val) {
      forall i, j | BoxTop(r) <= i < BoxTop(r) + 2 && BoxLeft(c) <= j < BoxLeft(c) + 3
        ensures !Holds(g[i][j], val)
      {
        BoxMembership(r, i);
        BoxMembershipCol(c, j);
        assert SlotAt(g, i, j, First) != val && SlotAt(g, i, j, Second) != val;
      }
      forall j | 0 <= j < Size ensures !Holds(g[r][j], val) {
        assert SlotAt(g, r, j, First) != val && SlotAt(g, r, j, Second) != val;
      }
      forall i | 0 <= i < Size ensures !Holds(g[i][c], val) {
        assert SlotAt(g, i, c, First) != val && SlotAt(g, i, c, Second) != val;
      }
    }
  }

  // ---------------------------------------------------------------------------
  // The number of open slots: the measure the search decreases

  function CellOpenCount(cell: Cell): (n: nat)
    ensures n <= 2
    ensures n == 0 <==> !IsOpen(cell)
  {
    (if cell.first == 0 then 1 else 0) + (if cell.twoVals && cell.second == 0 then 1 else 0)
  }

  function RowOpenCount(row: seq<Cell>): nat {
    if row == [] then 0 else CellOpenCount(row[0]) + RowOpenCount(row[1..])
  }

  function OpenCount(g: Grid): nat {
    if g == [] then 0 else RowOpenCount(g[0]) + OpenCount(g[1..])
  }

  lemma {:induction false} RowOpenCountUpdate(row: seq<Cell>, j: int, cell: Cell)
    requires 0 <= j < |row|
    ensures RowOpenCount(row[j := cell]) + CellOpenCount(row[j]) == RowOpenCount(row) + CellOpenCount(cell)
  {
    if j == 0 {
      assert row[j := cell][1..] == row[1..];
    } else {
      assert row[j := cell][1..] == row[1..][j - 1 := cell];
      RowOpenCountUpdate(row[1..], j - 1, cell);
    }
  }

  lemma {:induction false} OpenCountUpdate(g: Grid, i: int, row: seq<Cell>)
    requires 0 <= i < |g|
    ensures OpenCount(g[i := row]) + RowOpenCount(g[i]) == OpenCount(g) + RowOpenCount(row)
  {
    if i == 0 {
      assert g[i := row][1..] == g[1..];
    } else {
      assert g[i := row][1..] == g[1..][i - 1 := row];
      OpenCountUpdate(g[1..], i - 1, row);
    }
  }

  /** Filling an open slot with a non-zero digit closes exactly one open slot. */
  lemma PlaceDecreasesOpenCount(g: Grid, r: int, c: int, s: Slot, v: int)
    requires WellShaped(g) && 0 <= r < Size && 0 <= c < Size
    requires OpenAt(g[r][c], s) && v != 0
    ensures OpenCount(WithSlot(g, r, c, s, v)) + 1 == OpenCount(g)
  {
    var cell := g[r][c];
    var cell' := if s == First then cell.(first := v) else cell.(second := v);
    assert CellOpenCount(cell') + 1 == CellOpenCount(cell);
    RowOpenCountUpdate(g[r], c, cell');
    OpenCountUpdate(g, r, g[r][c := cell']);
  }

  lemma {:induction false} RowOpenCountZero(row: seq<Cell>)
    ensures RowOpenCount(row) == 0 <==> forall j :: 0 <= j < |row| ==> !IsOpen(row[j])
  {
    if row != [] {
      RowOpenCountZero(row[1..]);
      assert forall j :: 1 <= j < |row| ==> row[j] == row[1..][j - 1];
    }
  }

  lemma {:induction false} OpenCountZeroRows(g: Grid)
    ensures OpenCount(g) == 0 <==> forall i :: 0 <= i < |g| ==> RowOpenCount(g[i]) == 0
  {
    if g != [] {
      OpenCountZeroRows(g[1..]);
      assert forall i :: 1 <= i < |g| ==> g[i] == g[1..][i - 1];
    }
  }

  /** The search measure is zero exactly when the scan finds no open cell. */
  lemma OpenCountZero(g: Grid)
    requires WellShaped(g)
    ensures OpenCount(g) == 0 <==> NoOpenSlot(g)
  {
    OpenCountZeroRows(g);
    forall i | 0 <= i < Size {
      RowOpenCountZero(g[i]);
    }
  }

  // ---------------------------------------------------------------------------
  // Solutions

  /** A slot may keep its value, or go from open (0) to a digit 1..9. */
  predicate SlotRefines(x: int, y: int) {
    y == x || (x == 0 && 1 <= y <= 9)
  }

  /** `b` differs from `a` only by digits written into open slots; the kind
      of cell and the unused second slot of a single cell stay as they are. */
  predicate CellRefines(a: Cell, b: Cell) {
    && b.twoVals == a.twoVals
    && SlotRefines(a.first, b.first)
    && (if a.twoVals then SlotRefines(a.second, b.second) else b.second == a.second)
  }

  predicate Refines(g0: Grid, g: Grid)
    requires WellShaped(g0) && WellShaped(g)
  {
    forall i, j :: 0 <= i < Size && 0 <= j < Size ==> CellRefines(g0[i][j], g[i][j])
  }

  /** The value of slot (r, c, s) differs from every other slot in its row,
      column and box, the other slot of the same cell included. */
  predicate Unique(g: Grid, r: int, c: int, s: Slot)
    requires WellShaped(g) && 0 <= r < Size && 0 <= c < Size
  {
    forall i, j, t :: 0 <= i < Size && 0 <= j < Size && InScope(r, c, i, j) && (i != r || j != c || t != s) ==>
      SlotAt(g, i, j, t) != SlotAt(g, r, c, s)
  }

  /** Every slot that is open in `g0` holds, in `g`, a value unique in its scope. */
  predicate PlacedDistinct(g0: Grid, g: Grid)
    requires WellShaped(g0) && WellShaped(g)
  {
    forall i, j, s :: 0 <= i < Size && 0 <= j < Size && OpenAt(g0[i][j], s) ==> Unique(g, i, j, s)
  }

  /** `h` completes `g0`: it fills every open slot of `g0` with a digit, keeps
      everything else, and each digit it filled in clashes with no other slot
      of its row, column or box. */
  predicate IsSolutionOf(g0: Grid, h: Grid)
    requires WellShaped(g0)
  {
    WellShaped(h) && Refines(g0, h) && NoOpenSlot(h) && PlacedDistinct(g0, h)
  }

  ghost predicate Solvable(g0: Grid)
    requires WellShaped(g0)
  {
    exists h :: IsSolutionOf(g0, h)
  }

  /** A grid without open slots is its own completion, whatever its digits. */
  lemma FullGridSolvesItself(g: Grid)
    requires WellShaped(g) && NoOpenSlot(g)
    ensures IsSolutionOf(g, g)
  {
    forall i, j, s | 0 <= i < Size && 0 <= j < Size ensures !OpenAt(g[i][j], s) {
      assert !IsOpen(g[i][j]);
    }
  }

  /** The grid whose every cell is the single digit 1. */
  function AllOnes(): (g: Grid)
    ensures WellShaped(g)
    ensures forall i, j :: 0 <= i < Size && 0 <= j < Size ==> g[i][j] == Cell(1, 0, false)
  {
    seq(Size, i => seq(Size, j => Cell(1, 0, false)))
  }

  /** Givens are never checked: a full grid whose rows repeat a digit still
      counts as its own completion, so the solver reports it solved. */
  lemma ClashingFullGridIsSolved()
    ensures AllOnes()[0][0].first == AllOnes()[0][1].first
    ensures !RowFree(AllOnes(), 0, 1)
    ensures IsSolutionOf(AllOnes(), AllOnes())
  {
    var g := AllOnes();
    assert Holds(g[0][0], 1);
    FullGridSolvesItself(g);
  }

  /** A slot that is not open in `g0` keeps its value in any refinement. */
  lemma FixedSlotKept(g0: Grid, h: Grid, i: int, j: int, t: Slot)
    requires WellShaped(g0) && WellShaped(h) && Refines(g0, h)
    requires 0 <= i < Size && 0 <= j < Size && !OpenAt(g0[i][j], t)
    ensures SlotAt(h, i, j, t) == SlotAt(g0, i, j, t)
  {
    assert CellRefines(g0[i][j], h[i][j]);
  }

  /** In a completion, an open slot of `g0` holds a digit that the solver's
      scans accept on `g0` itself. */
  lemma SolutionAdmitsEntry(g0: Grid, h: Grid, r: int, c: int, s: Slot)
    requires WellShaped(g0) && 0 <= r < Size && 0 <= c < Size
    requires OpenAt(g0[r][c], s) && IsSolutionOf(g0, h)
    ensures 1 <= SlotAt(h, r, c, s) <= 9
    ensures EntryFree(g0, r, c, SlotAt(h, r, c, s))
  {
    var v := SlotAt(h, r, c, s);
    assert CellRefines(g0[r][c], h[r][c]);
    assert !IsOpen(h[r][c]);
    assert Unique(h, r, c, s);
    forall i, j, t | 0 <= i < Size && 0 <= j < Size && InScope(r, c, i, j)
      ensures SlotAt(g0, i, j, t) != v
    {
      if !OpenAt(g0[i][j], t) {
        FixedSlotKept(g0, h, i, j, t);
      }
    }
    EntryFreeIffScopeFree(g0, r, c, v);
  }

  /** A completion of `g0` whose slot (r, c, s) holds v is also a completion
      of `g0` with v written there. */
  lemma PlaceKeepsSolution(g0: Grid, h: Grid, r: int, c: int, s: Slot)
    requires WellShaped(g0) && 0 <= r < Size && 0 <= c < Size
    requires OpenAt(g0[r][c], s) && IsSolutionOf(g0, h)
    ensures IsSolutionOf(WithSlot(g0, r, c, s, SlotAt(h, r, c, s)), h)
  {
    var v := SlotAt(h, r, c, s);
    var g1 := WithSlot(g0, r, c, s, v);
    SolutionAdmitsEntry(g0, h, r, c, s);
    forall i, j | 0 <= i < Size && 0 <= j < Size ensures CellRefines(g1[i][j], h[i][j]) {
      assert CellRefines(g0[i][j], h[i][j]);
      if i == r && j == c {
        assert SlotAt(g1, i, j, First) == SlotAt(h, i, j, First) || SlotAt(g1, i, j, First) == SlotAt(g0, i, j, First);
        assert SlotAt(g1, i, j, Second) == SlotAt(h, i, j, Second) || SlotAt(g1, i, j, Second) == SlotAt(g0, i, j, Second);
      } else {
        assert SlotAt(g1, i, j, First) == SlotAt(g0, i, j, First);
        assert SlotAt(g1, i, j, Second) == SlotAt(g0, i, j, Second);
      }
    }
    forall i, j, t | 0 <= i < Size && 0 <= j < Size && OpenAt(g1[i][j], t) ensures Unique(h, i, j, t) {
      assert SlotAt(g1, i, j, t) == 0;
      assert OpenAt(g0[i][j], t);
    }
  }

  /** Writing a digit the scans accept into an open slot, then completing the
      result, completes the original grid. */
  lemma ExtendSolution(g0: Grid, h: Grid, r: int, c: int, s: Slot, v: int)
    requires WellShaped(g0) && 0 <= r < Size && 0 <= c < Size
    requires OpenAt(g0[r][c], s) && 1 <= v <= 9 && EntryFree(g0, r, c, v)
    requires IsSolutionOf(WithSlot(g0, r, c, s, v), h)
    ensures IsSolutionOf(g0, h)
  {
    var g1 := WithSlot(g0, r, c, s, v);
    EntryFreeIffScopeFree(g0, r, c, v);
    forall i, j | 0 <= i < Size && 0 <= j < Size ensures CellRefines(g0[i][j], h[i][j]) {
      assert CellRefines(g1[i][j], h[i][j]);
      assert SlotAt(g1, i, j, First) == SlotAt(g0, i, j, First) || (i == r && j == c && s == First);
      assert SlotAt(g1, i, j, Second) == SlotAt(g0, i, j, Second) || (i == r && j == c && s == Second);
    }
    assert !OpenAt(g1[r][c], s);
    FixedSlotKept(g1, h, r, c, s);
    forall i, j, t | 0 <= i < Size && 0 <= j < Size && OpenAt(g0[i][j], t) ensures Unique(h, i, j, t) {
      if i == r && j == c && t == s {
        forall i', j', t' | 0 <= i' < Size && 0 <= j' < Size && InScope(r, c, i', j') && (i' != r || j' != c || t' != s)
          ensures SlotAt(h, i', j', t') != v
        {
          if OpenAt(g1[i'][j'], t') {
            assert Unique(h, i', j', t');
          } else {
            FixedSlotKept(g1, h, i', j', t');
          }
        }
      } else {
        assert SlotAt(g1, i, j, t) == SlotAt(g0, i, j, t);
        assert OpenAt(g1[i][j], t);
      }
    }
  }

  /** Writing 0 into an open slot, or a value and then 0, leaves the grid as it was. */
  lemma RestoreSlot(g: Grid, r: int, c: int, s: Slot, v: int)
    requires WellShaped(g) && 0 <= r < Size && 0 <= c < Size && OpenAt(g[r][c], s)
    ensures WithSlot(g, r, c, s, 0) == g
    ensures WithSlot(WithSlot(g, r, c, s, v), r, c, s, 0) == g
  {
    var g1 := WithSlot(g, r, c, s, 0);
    assert g1[r][c] == g[r][c];
    assert g1[r] == g[r];
    var g2 := WithSlot(WithSlot(g, r, c, s, v), r, c, s, 0);
    assert g2[r][c] == g[r][c];
    assert g2[r] == g[r];
  }
}
