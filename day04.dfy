/**
  Day 4: a grid of characters where `@` is a roll of paper. A roll is accessible when
  fewer than four of its eight neighbours are rolls. Part 1 counts the accessible cells;
  part 2 repeatedly removes (marks `x`) every accessible roll at once until none is left,
  and counts the rolls removed.
 */
module Day04 {

  /** Rows of characters; rows may differ in length. */
  type CharGrid = seq<seq<char>>

  /** `is_roll`: a cell inside the grid holding `@`; any other coordinate is not a roll. */
  predicate IsRoll(g: CharGrid, x: int, y: int)
  {
    0 <= y < |g| && 0 <= x < |g[y]| && g[y][x] == '@'
  }

  /** Writing one cell changes what `IsRoll` says about that cell only. */
  lemma IsRollAfterWrite(g: CharGrid, x0: nat, y0: nat, c: char, x: int, y: int)
    requires y0 < |g| && x0 < |g[y0]|
    ensures var h := g[y0 := g[y0][x0 := c]];
      IsRoll(h, x, y) == if x == x0 && y == y0 then c == '@' else IsRoll(g, x, y)
  {
  }

  function Bit(b: bool): nat { if b then 1 else 0 }

  /**
    The neighbours of `(x, y)` in column `x + dx` with row offset in `[-1, yyEnd)` that
    are rolls, leaving out the centre: the inner loop of `check_surrounding`.
   */
  function ColumnCount(g: CharGrid, x: int, y: int, dx: int, yyEnd: int): nat
    requires -1 <= yyEnd <= 2
    decreases yyEnd + 1
  {
    if yyEnd == -1 then
      0
    else
      var dy := yyEnd - 1;
      ColumnCount(g, x, y, dx, dy) + Bit(!(dx == 0 && dy == 0) && IsRoll(g, x + dx, y + dy))
  }

  /** The neighbours in the columns `x + dx` for `dx` in `[-1, xxEnd)`: the outer loop. */
  function BlockCount(g: CharGrid, x: int, y: int, xxEnd: int): nat
    requires -1 <= xxEnd <= 2
    decreases xxEnd + 1
  {
    if xxEnd == -1 then 0 else BlockCount(g, x, y, xxEnd - 1) + ColumnCount(g, x, y, xxEnd - 1, 2)
  }

  /** The number of the eight neighbours of `(x, y)` that are rolls. */
  function NeighbourCount(g: CharGrid, x: int, y: int): nat
  {
    BlockCount(g, x, y, 2)
  }

  /** The loop order adds up exactly the eight neighbours, each once, and never the centre. */
  lemma NeighbourCountExplicit(g: CharGrid, x: int, y: int)
    ensures NeighbourCount(g, x, y)
         == Bit(IsRoll(g, x - 1, y - 1)) + Bit(IsRoll(g, x - 1, y)) + Bit(IsRoll(g, x - 1, y + 1))
          + Bit(IsRoll(g, x, y - 1)) + Bit(IsRoll(g, x, y + 1))
          + Bit(IsRoll(g, x + 1, y - 1)) + Bit(IsRoll(g, x + 1, y)) + Bit(IsRoll(g, x + 1, y + 1))
  {
    assert ColumnCount(g, x, y, -1, 2)
        == Bit(IsRoll(g, x - 1, y - 1)) + Bit(IsRoll(g, x - 1, y)) + Bit(IsRoll(g, x - 1, y + 1)) by {
      assert ColumnCount(g, x, y, -1, 0) == Bit(IsRoll(g, x - 1, y - 1));
    }
    assert ColumnCount(g, x, y, 0, 2) == Bit(IsRoll(g, x, y - 1)) + Bit(IsRoll(g, x, y + 1)) by {
      assert ColumnCount(g, x, y, 0, 0) == Bit(IsRoll(g, x, y - 1));
    }
    assert ColumnCount(g, x, y, 1, 2)
        == Bit(IsRoll(g, x + 1, y - 1)) + Bit(IsRoll(g, x + 1, y)) + Bit(IsRoll(g, x + 1, y + 1)) by {
      assert ColumnCount(g, x, y, 1, 0) == Bit(IsRoll(g, x + 1, y - 1));
    }
    assert BlockCount(g, x, y, 0) == ColumnCount(g, x, y, -1, 2);
  }

  /** `check_surrounding` returns a value in 0..8. */
  lemma NeighbourCountBound(g: CharGrid, x: int, y: int)
    ensures NeighbourCount(g, x, y) <= 8
  {
    NeighbourCountExplicit(g, x, y);
  }

  /** The centre is never counted: whatever the cell `(x, y)` holds, its count is the same. */
  lemma NeighbourCountIgnoresCentre(g: CharGrid, x: nat, y: nat, c: char)
    requires y < |g| && x < |g[y]|
    ensures NeighbourCount(g[y := g[y][x := c]], x, y) == NeighbourCount(g, x, y)
  {
    var h := g[y := g[y][x := c]];
    NeighbourCountExplicit(g, x, y);
    NeighbourCountExplicit(h, x, y);
    forall a, b | a != x || b != y
      ensures IsRoll(h, a, b) == IsRoll(g, a, b)
    {
      IsRollAfterWrite(g, x, y, c, a, b);
    }
  }

  /** `check_surrounding`: the two nested offset loops. */
  method CheckSurrounding(g: CharGrid, x: int, y: int) returns (sum: nat)
    ensures sum == NeighbourCount(g, x, y)
    ensures sum <= 8
  {
    sum := 0;
    for xx := -1 to 2
      invariant sum == BlockCount(g, x, y, xx)
    {
      for yy := -1 to 2
        invariant sum == BlockCount(g, x, y, xx) + ColumnCount(g, x, y, xx, yy)
      {
        if xx == 0 && yy == 0 {
          continue;
        }
        if IsRoll(g, x + xx, y + yy) {
          sum := sum + 1;
        }
      }
    }
    NeighbourCountBound(g, x, y);
  }

  /** The width `count_rolls_edit` scans: the length of the first row. */
  function Width(g: CharGrid): nat { if |g| > 0 then |g[0]| else 0 }

  /** Every row is at least as long as the first (otherwise `grid[y][x]` is out of bounds). */
  predicate WideRows(g: CharGrid)
  {
    forall y :: 0 <= y < |g| ==> |g[y]| >= Width(g)
  }

  /** The kinds of cell counted. */
  datatype Kind =
    | Roll        // an `@`
    | Accessible  // what `count_rolls` counts: not `.` and fewer than four neighbouring rolls
    | Removable   // what `count_rolls_edit` removes: an `@` within the width, same condition

  predicate Marked(k: Kind, g: CharGrid, x: nat, y: nat)
    requires y < |g| && x < |g[y]|
  {
    match k
    case Roll => g[y][x] == '@'
    case Accessible => g[y][x] != '.' && NeighbourCount(g, x, y) < 4
    case Removable => x < Width(g) && g[y][x] == '@' && NeighbourCount(g, x, y) < 4
  }

  /** The cells of kind `k` among the first `n` of row `y`. */
  function RowCount(k: Kind, g: CharGrid, y: nat, n: nat): nat
    requires y < |g| && n <= |g[y]|
  {
    if n == 0 then 0 else RowCount(k, g, y, n - 1) + Bit(Marked(k, g, n - 1, y))
  }

  /** The cells of kind `k` in the first `m` rows. */
  function GridCount(k: Kind, g: CharGrid, m: nat): nat
    requires m <= |g|
  {
    if m == 0 then 0 else GridCount(k, g, m - 1) + RowCount(k, g, m - 1, |g[m - 1]|)
  }

  function Count(k: Kind, g: CharGrid): nat
  {
    GridCount(k, g, |g|)
  }

  /** A row holds no removable cell at or past the width. */
  lemma {:induction false} RowCountPastWidth(g: CharGrid, y: nat, n: nat)
    requires y < |g| && Width(g) <= n <= |g[y]|
    ensures RowCount(Removable, g, y, n) == RowCount(Removable, g, y, Width(g))
    decreases n
  {
    if n > Width(g) {
      RowCountPastWidth(g, y, n - 1);
    }
  }

  /**
    One round of `count_rolls_edit`: every removable cell, judged on the grid as it was
    before the round, becomes `x`; every other cell and every row length stay.
   */
  function Erode(g: CharGrid): (r: CharGrid)
    ensures |r| == |g| && forall y :: 0 <= y < |g| ==> |r[y]| == |g[y]|
    ensures Width(r) == Width(g)
  {
    seq(|g|, y requires 0 <= y < |g| =>
      seq(|g[y]|, x requires 0 <= x < |g[y]| => if Marked(Removable, g, x, y) then 'x' else g[y][x]))
  }

  /** A round changes only removable rolls, and each of them to `x`. */
  lemma ErodeChanges(g: CharGrid, x: nat, y: nat)
    requires y < |g| && x < |g[y]|
    ensures Erode(g)[y][x] != g[y][x] <==> Marked(Removable, g, x, y)
    ensures Erode(g)[y][x] != g[y][x] ==> g[y][x] == '@' && Erode(g)[y][x] == 'x'
  {
  }

  lemma {:induction false} ErodeRowRolls(g: CharGrid, y: nat, n: nat)
    requires y < |g| && n <= |g[y]|
    ensures RowCount(Roll, Erode(g), y, n) + RowCount(Removable, g, y, n) == RowCount(Roll, g, y, n)
  {
    if n > 0 {
      ErodeRowRolls(g, y, n - 1);
    }
  }

  lemma {:induction false} ErodeGridRolls(g: CharGrid, m: nat)
    requires m <= |g|
    ensures GridCount(Roll, Erode(g), m) + GridCount(Removable, g, m) == GridCount(Roll, g, m)
  {
    if m > 0 {
      ErodeGridRolls(g, m - 1);
      ErodeRowRolls(g, m - 1, |g[m - 1]|);
    }
  }

  /** A round lowers the number of rolls by exactly the number it removes. */
  lemma ErodeRolls(g: CharGrid)
    ensures Count(Roll, Erode(g)) == Count(Roll, g) - Count(Removable, g)
  {
    ErodeGridRolls(g, |g|);
  }

  lemma {:induction false} NoneRemovableRow(g: CharGrid, y: nat, n: nat)
    requires y < |g| && n <= |g[y]| && RowCount(Removable, g, y, n) == 0
    ensures forall x :: 0 <= x < n ==> !Marked(Removable, g, x, y)
  {
    if n > 0 {
      NoneRemovableRow(g, y, n - 1);
    }
  }

  lemma {:induction false} NoneRemovableGrid(g: CharGrid, m: nat)
    requires m <= |g| && GridCount(Removable, g, m) == 0
    ensures forall y, x :: 0 <= y < m && 0 <= x < |g[y]| ==> !Marked(Removable, g, x, y)
  {
    if m > 0 {
      NoneRemovableGrid(g, m - 1);
      NoneRemovableRow(g, m - 1, |g[m - 1]|);
    }
  }

  /** A round that removes nothing leaves the grid as it was. */
  lemma ErodeFixpoint(g: CharGrid)
    requires Count(Removable, g) == 0
    ensures Erode(g) == g
  {
    NoneRemovableGrid(g, |g|);
    var r := Erode(g);
    forall y | 0 <= y < |g|
      ensures r[y] == g[y]
    {
    }
  }

  /** The total `part2` reports: the sum of the rounds' counts until a round removes nothing. */
  function TotalRemoved(g: CharGrid): nat
    decreases Count(Roll, g)
  {
    var c := Count(Removable, g);
    if c == 0 then
      0
    else
      ErodeRolls(g);
      c + TotalRemoved(Erode(g))
  }

  /** The grid left when rounds no longer remove anything. */
  function Settled(g: CharGrid): (r: CharGrid)
    ensures Count(Removable, r) == 0
    decreases Count(Roll, g)
  {
    if Count(Removable, g) == 0 then
      g
    else
      ErodeRolls(g);
      Settled(Erode(g))
  }

  /** The total of `part2` is the number of rolls at the start minus the number at the end. */
  lemma {:induction false} TotalRemovedIsDrop(g: CharGrid)
    ensures TotalRemoved(g) == Count(Roll, g) - Count(Roll, Settled(g))
    ensures Count(Roll, Settled(g)) <= Count(Roll, g)
    decreases Count(Roll, g)
  {
    if Count(Removable, g) > 0 {
      ErodeRolls(g);
      TotalRemovedIsDrop(Erode(g));
    }
  }

  /** `count_rolls`: every cell of every row, however long the rows are. */
  method CountRolls(g: CharGrid) returns (sum: nat)
    ensures sum == Count(Accessible, g)
  {
    sum := 0;
    for y := 0 to |g|
      invariant sum == GridCount(Accessible, g, y)
    {
      var line := g[y];
      for x := 0 to |line|
        invariant sum == GridCount(Accessible, g, y) + RowCount(Accessible, g, y, x)
      {
        if line[x] == '.' {
          continue;
        }
        var surroundings := CheckSurrounding(g, x, y);
        if surroundings < 4 {
          sum := sum + 1;
        }
      }
    }
  }

  /** `(x', y')` comes before `(x, y)` in row-major scan order. */
  predicate Before(x': nat, y': nat, x: nat, y: nat)
  {
    y' < y || (y' == y && x' < x)
  }

  /** A grid edited in place by `count_rolls_edit`. */
  class Grid {
    var cells: CharGrid

    constructor (cells: CharGrid)
      ensures this.cells == cells
    {
      this.cells := cells;
    }

    /**
      `count_rolls_edit`: first collect the removable cells of the grid as it is, then mark
      them all. Returns how many were marked.
     */
    method CountRollsEdit() returns (sum: nat)
      requires WideRows(cells)
      modifies this
      ensures cells == Erode(old(cells))
      ensures sum == Count(Removable, old(cells))
    {
      var g := cells;
      var toChange;
      toChange, sum := FindRemovable(g);
      MarkAll(toChange);
      var r := Erode(g);
      forall y | 0 <= y < |g|
        ensures cells[y] == r[y]
      {
      }
    }

    /** The second loop of `count_rolls_edit`: overwrite every listed cell with `x`. */
    method MarkAll(toChange: seq<(nat, nat)>)
      requires forall i :: 0 <= i < |toChange| ==> toChange[i].1 < |cells| && toChange[i].0 < |cells[toChange[i].1]|
      modifies this
      ensures |cells| == |old(cells)| && forall y :: 0 <= y < |cells| ==> |cells[y]| == |old(cells)[y]|
      ensures forall y, x :: 0 <= y < |cells| && 0 <= x < |cells[y]| ==>
                cells[y][x] == if (x, y) in toChange then 'x' else old(cells)[y][x]
    {
      ghost var g := cells;
      for i := 0 to |toChange|
        invariant |cells| == |g| && forall y :: 0 <= y < |g| ==> |cells[y]| == |g[y]|
        invariant forall y, x :: 0 <= y < |g| && 0 <= x < |g[y]| ==>
                    cells[y][x] == if (x, y) in toChange[..i] then 'x' else g[y][x]
      {
        var (x, y) := toChange[i];
        assert toChange[..i + 1] == toChange[..i] + [(x, y)];
        cells := cells[y := cells[y][x := 'x']];
      }
      assert toChange[..|toChange|] == toChange;
    }
  }

  /** Scanning cell `(x, y)` lists it exactly when it is removable. */
  lemma ScanStep(g: CharGrid, x: nat, y: nat, toChange: seq<(nat, nat)>, next: seq<(nat, nat)>)
    requires y < |g| && x < Width(g) <= |g[y]|
    requires forall x': nat, y': nat :: (x', y') in toChange <==>
               Before(x', y', x, y) && y' < |g| && x' < |g[y']| && Marked(Removable, g, x', y')
    requires next == if Marked(Removable, g, x, y) then toChange + [(x, y)] else toChange
    ensures forall x': nat, y': nat :: (x', y') in next <==>
              Before(x', y', x + 1, y) && y' < |g| && x' < |g[y']| && Marked(Removable, g, x', y')
    ensures Marked(Removable, g, x, y) <==> g[y][x] == '@' && NeighbourCount(g, x, y) < 4
    ensures RowCount(Removable, g, y, x + 1) == RowCount(Removable, g, y, x) + Bit(Marked(Removable, g, x, y))
  {
  }

  /**
    The first loop of `count_rolls_edit`: the removable cells in scan order, and how many
    there are.
   */
  method FindRemovable(g: CharGrid) returns (toChange: seq<(nat, nat)>, sum: nat)
    requires WideRows(g)
    ensures sum == Count(Removable, g)
    ensures forall x': nat, y': nat :: (x', y') in toChange <==>
              y' < |g| && x' < |g[y']| && Marked(Removable, g, x', y')
    ensures forall i :: 0 <= i < |toChange| ==> toChange[i].1 < |g| && toChange[i].0 < |g[toChange[i].1]|
  {
    sum := 0;
    var height := |g|;
    var width := if height > 0 then |g[0]| else 0;
    toChange := [];
    for y := 0 to height
      invariant sum == GridCount(Removable, g, y)
      invariant forall x': nat, y': nat :: (x', y') in toChange <==>
                  Before(x', y', 0, y) && y' < |g| && x' < |g[y']| && Marked(Removable, g, x', y')
    {
      for x := 0 to width
        invariant sum == GridCount(Removable, g, y) + RowCount(Removable, g, y, x)
        invariant forall x': nat, y': nat :: (x', y') in toChange <==>
                    Before(x', y', x, y) && y' < |g| && x' < |g[y']| && Marked(Removable, g, x', y')
      {
        if g[y][x] != '@' {
          ScanStep(g, x, y, toChange, toChange);
          continue;
        }
        var surroundings := CheckSurrounding(g, x, y);
        if surroundings < 4 {
          ScanStep(g, x, y, toChange, toChange + [(x, y)]);
          toChange := toChange + [(x, y)];
          sum := sum + 1;
        } else {
          ScanStep(g, x, y, toChange, toChange);
        }
      }
      RowCountPastWidth(g, y, |g[y]|);
    }
    forall i | 0 <= i < |toChange|
      ensures toChange[i].1 < |g| && toChange[i].0 < |g[toChange[i].1]|
    {
      var (x', y') := toChange[i];
      assert (x', y') in toChange;
    }
  }

  /** Part 1: the accessible cells of the grid. */
  method Part1(grid: CharGrid) returns (total: nat)
    ensures total == Count(Accessible, grid)
  {
    total := CountRolls(grid);
  }

  /** Part 2: rounds of `count_rolls_edit` until one removes nothing; the sum of their counts. */
  method Part2(grid: CharGrid) returns (sum: nat)
    requires WideRows(grid)
    ensures sum == TotalRemoved(grid)
    ensures sum == Count(Roll, grid) - Count(Roll, Settled(grid))
  {
    var g := new Grid(grid);
    sum := 0;
    while true
      invariant WideRows(g.cells)
      invariant sum + TotalRemoved(g.cells) == TotalRemoved(grid)
      decreases Count(Roll, g.cells)
    {
      ghost var before := g.cells;
      var newRolls := g.CountRollsEdit();
      if newRolls == 0 {
        break;
      }
      ErodeRolls(before);
      sum := sum + newRolls;
    }
    TotalRemovedIsDrop(grid);
  }
}
