/**
 * The board manager: a fixed NumColumns x NumRows grid of optional cookies,
 * indexed [column, row], with lookup, population and swap application. The
 * grid slots and the cookies' own column/row fields are two structures kept
 * in step by hand; `Valid` states that they agree.
 */
module Levels {
  import opened Cookies
  import opened Swaps
  import opened Placements

  const NumColumns: int := 9
  const NumRows: int := 9

  /** The coordinates the grid can address. */
  predicate InGrid(column: int, row: int)
  {
    0 <= column < NumColumns && 0 <= row < NumRows
  }

  /** The bounds `cookieAtColumn` asserts, as written: the column test is
      repeated and the row is never checked from below. */
  predicate LevelAsserts(column: int, row: int)
  {
    (column >= 0 && column < NumColumns) && (column >= 0 && row < NumRows)
  }

  /** The asserted bounds miss exactly the negative rows. */
  lemma LevelAssertsMissNegativeRows(column: int, row: int)
    ensures LevelAsserts(column, row) <==> InGrid(column, row) || (0 <= column < NumColumns && row < 0)
    ensures LevelAsserts(0, -1) && !InGrid(0, -1)
  {
  }

  /** Every addressable cell, as a set: one per column and row. */
  function BoardCells(): (cells: set<Cell>)
    ensures |cells| == NumColumns * NumRows
  {
    RectangleSize(NumColumns, NumRows);
    Rectangle(NumColumns, NumRows)
  }

  /** The stored coordinates of each cookie in `s`. */
  ghost function Coordinates(s: set<Cookie>): map<Cookie, Cell>
    reads s
  {
    map k | k in s :: Cell(k.column, k.row)
  }

  /** If the stored coordinates of `s` agree with `at` except for `a` and `b`,
      they are `at` with those two entries replaced by the current ones. */
  lemma CoordinatesOfMoved(s: set<Cookie>, at: map<Cookie, Cell>, a: Cookie, b: Cookie)
    requires a in s && b in s && at.Keys == s
    requires forall k :: k in s && k != a && k != b ==> at[k] == Cell(k.column, k.row)
    ensures Coordinates(s) == at[b := Cell(b.column, b.row)][a := Cell(a.column, a.row)]
  {
    var at1 := at[b := Cell(b.column, b.row)][a := Cell(a.column, a.row)];
    forall k | k in s ensures Coordinates(s)[k] == at1[k] {
    }
  }

  /** Moving the occupants of two cells into each other's cell, and then back,
      leaves the grid as it was. */
  lemma ReplacingTwiceRestores<K>(grid: map<Cell, K>, cellA: Cell, cellB: Cell)
    requires cellA in grid && cellB in grid
    ensures grid[cellA := grid[cellB]][cellB := grid[cellA]][cellB := grid[cellB]][cellA := grid[cellA]] == grid
  {
    var g := grid[cellA := grid[cellB]][cellB := grid[cellA]][cellB := grid[cellB]][cellA := grid[cellA]];
    assert g.Keys == grid.Keys;
  }

  class Level {
    const cookies: array2<Cookie?>
    /** The occupied cells and their cookies: the value-level view of `cookies`. */
    ghost var grid: map<Cell, Cookie>

    /** The array has the board's extents and `grid` mirrors its non-null slots. */
    ghost predicate Mirrored()
      reads this, cookies
    {
      cookies.Length0 == NumColumns && cookies.Length1 == NumRows &&
      (forall cell :: cell in grid ==> InGrid(cell.column, cell.row)) &&
      forall column, row :: InGrid(column, row) ==>
        cookies[column, row] == if Cell(column, row) in grid then grid[Cell(column, row)] else null
    }

    /** The cookies currently on the board. */
    ghost function Occupants(): set<Cookie>
      reads this
    {
      grid.Values
    }

    /** The board together with the stored coordinates of the cookies in `s`. */
    ghost function Snapshot(s: set<Cookie>): Placement<Cookie>
      reads this, s
    {
      Placement(grid, Coordinates(s))
    }

    /** What exchanging `a` and `b` makes of the board as `Snapshot(s)` sees it. */
    ghost function SwappedSnapshot(s: set<Cookie>, a: Cookie, b: Cookie): Placement<Cookie>
      reads this, s
      requires a in s && b in s
    {
      Swapped(Snapshot(s), a, b)
    }

    /** The class invariant: each occupied cell holds a cookie whose stored
        coordinates name that cell. */
    ghost predicate Valid()
      reads this, cookies, Occupants()
    {
      Mirrored() && Consistent(Snapshot(Occupants()))
    }

    /** The invariant read directly off the array and the cookies' fields. */
    lemma ValidMeansCookiesKnowTheirCells(column: int, row: int)
      requires Valid() && InGrid(column, row) && cookies[column, row] != null
      ensures cookies[column, row].column == column && cookies[column, row].row == row
    {
      var cell := Cell(column, row);
      assert cell in grid && Snapshot(Occupants()).grid[cell] == cookies[column, row];
    }

    /** A new level has an empty board. */
    constructor ()
      ensures Valid() && fresh(cookies) && grid == map[]
    {
      cookies := new Cookie?[NumColumns, NumRows]((column, row) => null);
      grid := map[];
    }

    /** `cookieAtColumn`: the occupant of an addressable cell, or null. The
        bounds the method asserts let negative rows through; the lower row
        bound is the storage's own, stated separately. */
    function CookieAt(column: int, row: int): (cookie: Cookie?)
      reads this, cookies
      requires Mirrored()
      requires LevelAsserts(column, row)
      requires 0 <= row
      ensures cookie == cookies[column, row]
      ensures cookie != null <==> Cell(column, row) in grid
      ensures cookie != null ==> cookie == grid[Cell(column, row)]
    {
      cookies[column, row]
    }

    /** Every addressable cell holds a cookie and `newCookies` is exactly the
        set of cookies on the board, one per cell. */
    ghost predicate Populated(newCookies: set<Cookie>)
      reads this, cookies, Occupants()
    {
      Valid() &&
      (forall column, row :: InGrid(column, row) ==> Cell(column, row) in grid) &&
      newCookies == Occupants() &&
      |newCookies| == NumColumns * NumRows
    }

    /** `shuffle`: repopulates the whole board. */
    method Shuffle() returns (newCookies: set<Cookie>)
      requires cookies.Length0 == NumColumns && cookies.Length1 == NumRows
      modifies this, cookies
      ensures Populated(newCookies)
      ensures forall k :: k in newCookies ==> fresh(k)
    {
      newCookies := CreateInitialCookies();
    }

    /** `createInitialCookies`: fills the board row by row with new cookies of
        arbitrarily chosen types. */
    method CreateInitialCookies() returns (newCookies: set<Cookie>)
      requires cookies.Length0 == NumColumns && cookies.Length1 == NumRows
      modifies this, cookies
      ensures Populated(newCookies)
      ensures forall k :: k in newCookies ==> fresh(k)
    {
      newCookies := {};
      for row := 0 to NumRows
        invariant forall c, r :: 0 <= c < NumColumns && 0 <= r < row ==>
          cookies[c, r] != null && cookies[c, r] in newCookies && cookies[c, r].column == c && cookies[c, r].row == r
        invariant forall k :: k in newCookies ==>
          fresh(k) && 0 <= k.column < NumColumns && 0 <= k.row < row && cookies[k.column, k.row] == k
      {
        for column := 0 to NumColumns
          invariant forall c, r :: 0 <= c < NumColumns && 0 <= r < row ==>
            cookies[c, r] != null && cookies[c, r] in newCookies && cookies[c, r].column == c && cookies[c, r].row == r
          invariant forall c :: 0 <= c < column ==>
            cookies[c, row] != null && cookies[c, row] in newCookies && cookies[c, row].column == c && cookies[c, row].row == row
          invariant forall k :: k in newCookies ==>
            fresh(k) && 0 <= k.column < NumColumns && 0 <= k.row <= row && (k.row < row || k.column < column) &&
            cookies[k.column, k.row] == k
        {
          var cookieType: CookieType :| true;
          var cookie := new Cookie(column, row, cookieType);
          cookies[column, row] := cookie;
          newCookies := newCookies + {cookie};
          forall c | 0 <= c < column + 1
            ensures cookies[c, row] != null && cookies[c, row] in newCookies &&
                    cookies[c, row].column == c && cookies[c, row].row == row
          {
          }
        }
        forall c, r | 0 <= c < NumColumns && 0 <= r < row + 1
          ensures cookies[c, r] != null && cookies[c, r] in newCookies && cookies[c, r].column == c && cookies[c, r].row == r
        {
          if r == row {
            assert 0 <= c < NumColumns;
          }
        }
      }
      grid := FullGrid();
      FullBoardIsPopulated(newCookies);
    }

    /** The array read as a map from every addressable cell to its slot. */
    ghost function FullGrid(): map<Cell, Cookie?>
      reads this, cookies
      requires cookies.Length0 == NumColumns && cookies.Length1 == NumRows
    {
      map cell | cell in BoardCells() :: cookies[cell.column, cell.row]
    }

    /** A board whose every cell holds a cookie of `newCookies` standing on its
        own coordinates, mirrored by `grid`, is populated by those cookies; that
        there are 81 of them follows from the one-to-one pairing of cells and
        occupants. */
    lemma FullBoardIsPopulated(newCookies: set<Cookie>)
      requires cookies.Length0 == NumColumns && cookies.Length1 == NumRows
      requires forall c, r :: InGrid(c, r) ==>
        cookies[c, r] != null && cookies[c, r] in newCookies && cookies[c, r].column == c && cookies[c, r].row == r
      requires forall k :: k in newCookies ==> InGrid(k.column, k.row) && cookies[k.column, k.row] == k
      requires grid == FullGrid()
      ensures Populated(newCookies)
    {
      assert newCookies == grid.Values by {
        forall k | k in newCookies ensures k in grid.Values {
          assert grid[Cell(k.column, k.row)] == k;
        }
      }
      assert Consistent(Snapshot(Occupants())) by {
        forall cell | cell in grid ensures grid[cell].column == cell.column && grid[cell].row == cell.row {
        }
      }
      assert grid.Keys == BoardCells();
      ConsistentIsBijective(Snapshot(Occupants()));
    }

    /** `performSwap`: the cookies exchange grid slots and each takes the
        other's old coordinates, read at the time of the call. */
    method PerformSwap(swap: Swap)
      requires Valid()
      requires InGrid(swap.cookieA.column, swap.cookieA.row) && InGrid(swap.cookieB.column, swap.cookieB.row)
      modifies this, cookies, swap.cookieA, swap.cookieB
      ensures Valid()
      ensures grid == old(grid)[old(Cell(swap.cookieA.column, swap.cookieA.row)) := swap.cookieB]
                               [old(Cell(swap.cookieB.column, swap.cookieB.row)) := swap.cookieA]
      ensures swap.cookieB.column == old(swap.cookieA.column) && swap.cookieB.row == old(swap.cookieA.row)
      ensures swap.cookieA.column == old(swap.cookieB.column) && swap.cookieA.row == old(swap.cookieB.row)
      ensures var involved := old(Occupants()) + {swap.cookieA, swap.cookieB};
              Snapshot(involved) == old(SwappedSnapshot(involved, swap.cookieA, swap.cookieB))
    {
      var a: Cookie, b: Cookie := swap.cookieA, swap.cookieB;
      var columnA, rowA := a.column, a.row;
      var columnB, rowB := b.column, b.row;
      ghost var cellA, cellB := Cell(columnA, rowA), Cell(columnB, rowB);
      ghost var involved: set<Cookie> := Occupants() + {a, b};
      ghost var before: Placement<Cookie> := Snapshot(involved);
      assert Consistent(before) by {
        ConsistentOnOccupants(before, Snapshot(Occupants()));
      }

      cookies[columnA, rowA], b.column, b.row := b, columnA, rowA;
      cookies[columnB, rowB], a.column, a.row := a, columnB, rowB;
      ghost var grid0: map<Cell, Cookie> := grid;
      grid := grid0[cellA := b][cellB := a];

      assert Mirrored() by {
        forall column, row | InGrid(column, row)
          ensures cookies[column, row] == if Cell(column, row) in grid then grid[Cell(column, row)] else null
        {
          if Cell(column, row) != cellA && Cell(column, row) != cellB {
            assert cookies[column, row] == old(cookies[column, row]);
          }
        }
      }
      CoordinatesOfMoved(involved, before.at, a, b);
      assert Snapshot(involved) == Swapped(before, a, b);
      SwapPreservesConsistency(before, a, b);
      ConsistentOnOccupants(Snapshot(involved), Snapshot(Occupants()));
    }
  }

  /**
   * Applying the same swap twice to two cookies that sit in their cells puts
   * the board and both cookies' coordinates back as they were.
   */
  method SwapTwice(level: Level, swap: Swap)
    requires level.Valid()
    requires Cell(swap.cookieA.column, swap.cookieA.row) in level.grid
    requires level.grid[Cell(swap.cookieA.column, swap.cookieA.row)] == swap.cookieA
    requires Cell(swap.cookieB.column, swap.cookieB.row) in level.grid
    requires level.grid[Cell(swap.cookieB.column, swap.cookieB.row)] == swap.cookieB
    modifies level, level.cookies, swap.cookieA, swap.cookieB
    ensures level.Valid()
    ensures level.grid == old(level.grid)
    ensures swap.cookieA.column == old(swap.cookieA.column) && swap.cookieA.row == old(swap.cookieA.row)
    ensures swap.cookieB.column == old(swap.cookieB.column) && swap.cookieB.row == old(swap.cookieB.row)
  {
    ghost var start: map<Cell, Cookie> := level.grid;
    ghost var cellA: Cell := Cell(swap.cookieA.column, swap.cookieA.row);
    ghost var cellB: Cell := Cell(swap.cookieB.column, swap.cookieB.row);
    level.PerformSwap(swap);
    level.PerformSwap(swap);
    ReplacingTwiceRestores(start, cellA, cellB);
  }

  /**
   * On a board whose cells (0,0) and (1,0) are occupied, swapping their
   * cookies leaves each at the other's cell, reporting that cell as its
   * coordinates.
   */
  method SwapNeighbours(level: Level) returns (a: Cookie, b: Cookie)
    requires level.Valid()
    requires Cell(0, 0) in level.grid && Cell(1, 0) in level.grid
    modifies level, level.cookies, level.grid[Cell(0, 0)], level.grid[Cell(1, 0)]
    ensures level.Valid()
    ensures a == old(level.grid[Cell(0, 0)]) && b == old(level.grid[Cell(1, 0)])
    ensures level.grid == old(level.grid)[Cell(0, 0) := b][Cell(1, 0) := a]
    ensures level.CookieAt(0, 0) == b && level.CookieAt(1, 0) == a
    ensures b.column == 0 && b.row == 0 && a.column == 1 && a.row == 0
  {
    a, b := level.CookieAt(0, 0), level.CookieAt(1, 0);
    level.PerformSwap(Swap(a, b));
  }

  /** A new level, populated, then its first two cookies of row 0 swapped. */
  method ShuffleThenSwap() returns (a: Cookie, b: Cookie)
    ensures b.column == 0 && b.row == 0 && a.column == 1 && a.row == 0
  {
    var level := new Level();
    var newCookies := level.Shuffle();
    assert Cell(0, 0) in level.grid && Cell(1, 0) in level.grid;
    a, b := SwapNeighbours(level);
  }
}
