/**
 * A value-level view of the board: which key occupies each cell (`grid`) and
 * which coordinates each key stores for itself (`at`). The board keeps these
 * two structures in step by hand; this module states what "in step" means and
 * what a swap does to them, independently of arrays and objects.
 */
module Placements {

  datatype Cell = Cell(column: int, row: int)

  /** The cells of row `row` in columns `0` to `columns - 1`. */
  function RowCells(row: int, columns: nat): (cells: set<Cell>)
    ensures forall cell :: cell in cells <==> 0 <= cell.column < columns && cell.row == row
    ensures |cells| == columns
    decreases columns
  {
    if columns == 0 then {}
    else
      var earlier := RowCells(row, columns - 1);
      assert Cell(columns - 1, row) !in earlier;
      earlier + {Cell(columns - 1, row)}
  }

  /** The cells with a column below `columns` and a row below `rows`. */
  function Rectangle(columns: nat, rows: nat): set<Cell>
  {
    set column, row | 0 <= column < columns && 0 <= row < rows :: Cell(column, row)
  }

  /** A rectangle holds one cell per column and row. */
  lemma {:induction false} RectangleSize(columns: nat, rows: nat)
    ensures |Rectangle(columns, rows)| == columns * rows
    decreases rows
  {
    if rows > 0 {
      var earlier, last := Rectangle(columns, rows - 1), RowCells(rows - 1, columns);
      assert Rectangle(columns, rows) == earlier + last;
      assert earlier * last == {};
      RectangleSize(columns, rows - 1);
      assert columns * rows == columns * (rows - 1) + columns;
    }
  }

  datatype Placement<K(==)> = Placement(grid: map<Cell, K>, at: map<K, Cell>)

  /** Every occupied cell holds a key whose stored coordinates name that cell. */
  predicate Consistent<K(==)>(p: Placement<K>)
  {
    forall cell :: cell in p.grid ==> p.grid[cell] in p.at && p.at[p.grid[cell]] == cell
  }

  /** `k` sits in the cell its own coordinates name. */
  predicate Occupies<K(==)>(p: Placement<K>, k: K)
  {
    k in p.at && p.at[k] in p.grid && p.grid[p.at[k]] == k
  }

  /**
   * The exchange of `a` and `b`: both coordinates are read first, then the
   * cell `a` names receives `b` and `b` takes those coordinates, then the cell
   * `b` named receives `a` and `a` takes `b`'s old coordinates.
   */
  function Swapped<K(==)>(p: Placement<K>, a: K, b: K): (q: Placement<K>)
    requires a in p.at && b in p.at
    ensures q.grid.Keys == p.grid.Keys + {p.at[a], p.at[b]}
    ensures q.at.Keys == p.at.Keys
    ensures q.grid[p.at[b]] == a && q.at[a] == p.at[b]
    ensures q.at[b] == p.at[a]
    ensures p.at[a] != p.at[b] ==> q.grid[p.at[a]] == b
    ensures forall cell :: cell in p.grid && cell != p.at[a] && cell != p.at[b] ==> q.grid[cell] == p.grid[cell]
    ensures forall k :: k in p.at && k != a && k != b ==> q.at[k] == p.at[k]
  {
    var cellA, cellB := p.at[a], p.at[b];
    Placement(p.grid[cellA := b][cellB := a], p.at[b := cellA][a := cellB])
  }

  /** Consistency looks only at the stored coordinates of the keys on the grid. */
  lemma ConsistentOnOccupants<K>(p: Placement<K>, q: Placement<K>)
    requires p.grid == q.grid
    requires forall k :: k in p.grid.Values ==> k in p.at && k in q.at && p.at[k] == q.at[k]
    ensures Consistent(p) <==> Consistent(q)
  {
  }

  /** In a consistent placement no key occupies two cells. */
  lemma ConsistentIsInjective<K>(p: Placement<K>, c1: Cell, c2: Cell)
    requires Consistent(p)
    requires c1 in p.grid && c2 in p.grid && p.grid[c1] == p.grid[c2]
    ensures c1 == c2
  {
  }

  /** A consistent placement is a bijection between its cells and the keys on
      them: there are exactly as many keys on the grid as occupied cells. */
  lemma {:induction false} ConsistentIsBijective<K>(p: Placement<K>)
    requires Consistent(p)
    ensures |p.grid.Values| == |p.grid.Keys|
    decreases |p.grid.Keys|
  {
    if p.grid != map[] {
      var cell :| cell in p.grid;
      var rest := Placement(p.grid - {cell}, p.at);
      assert Consistent(rest);
      ConsistentIsBijective(rest);
      assert rest.grid.Keys == p.grid.Keys - {cell};
      assert rest.grid.Values == p.grid.Values - {p.grid[cell]} by {
        forall k | k in p.grid.Values && k != p.grid[cell] ensures k in rest.grid.Values {
          var c :| c in p.grid && p.grid[c] == k;
          assert c != cell;
          assert rest.grid[c] == k;
        }
        forall k | k in rest.grid.Values ensures k != p.grid[cell] {
          var c :| c in rest.grid && rest.grid[c] == k;
          if k == p.grid[cell] {
            ConsistentIsInjective(p, c, cell);
          }
        }
      }
    }
  }

  /** A swap keeps the grid and the stored coordinates in step. */
  lemma SwapPreservesConsistency<K>(p: Placement<K>, a: K, b: K)
    requires Consistent(p)
    requires a in p.at && b in p.at
    ensures Consistent(Swapped(p, a, b))
  {
    var q := Swapped(p, a, b);
    forall cell | cell in q.grid
      ensures q.grid[cell] in q.at && q.at[q.grid[cell]] == cell
    {
      if cell != p.at[a] && cell != p.at[b] {
        var k := p.grid[cell];
        assert k != a && k != b;
      }
    }
  }

  /** Swapping a key with itself changes nothing when it sits in its cell. */
  lemma SelfSwapIsIdentity<K>(p: Placement<K>, a: K)
    requires Occupies(p, a)
    ensures Swapped(p, a, a) == p
  {
    var q := Swapped(p, a, a);
    assert q.grid == p.grid;
    assert q.at == p.at;
  }

  /** Applying the same swap twice restores the placement. */
  lemma SwapTwiceRestores<K>(p: Placement<K>, a: K, b: K)
    requires Occupies(p, a) && Occupies(p, b)
    ensures Swapped(Swapped(p, a, b), a, b) == p
  {
    var q := Swapped(p, a, b);
    var r := Swapped(q, a, b);
    assert r.grid == p.grid;
    assert r.at == p.at;
  }

  /** Without occupancy the swap is not undone: when the cell `a` names is
      held by another key, the second swap leaves `a` there for good. */
  lemma SwapTwiceNeedsOccupancy<K>(p: Placement<K>, a: K, b: K)
    requires a in p.at && b in p.at
    requires p.at[a] in p.grid && p.grid[p.at[a]] != a
    ensures Swapped(Swapped(p, a, b), a, b) != p
  {
    assert Swapped(Swapped(p, a, b), a, b).grid[p.at[a]] == a;
  }

  /** A self-swap of a key whose coordinates name a cell held by another key
      puts it in that cell and takes the other key off the grid. */
  lemma SelfSwapEvicts<K>(p: Placement<K>, a: K)
    requires Consistent(p)
    requires a in p.at && p.at[a] in p.grid && p.grid[p.at[a]] != a
    ensures Swapped(p, a, a).grid == p.grid[p.at[a] := a]
    ensures p.grid[p.at[a]] !in Swapped(p, a, a).grid.Values
  {
    var q, d := Swapped(p, a, a), p.grid[p.at[a]];
    assert q.grid == p.grid[p.at[a] := a];
    forall c | c in q.grid ensures q.grid[c] != d {
      if c != p.at[a] && q.grid[c] == d {
        ConsistentIsInjective(p, c, p.at[a]);
      }
    }
  }
}
