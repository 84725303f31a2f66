/** The grid layout generator (packages/api/src/utils/storage.ts): the blocks a
    new storage receives, one per cell of its N x N grid, named by a row letter
    and a column number ("B3" is row 2, column 3). */
module Grid {
  import opened Text
  import opened StorageSchema
  import Seqs

  /** The row letters `CHARACTERS`. */
  const Characters: seq<char> :=
    ['A', 'B', 'C', 'D', 'E', 'F', 'G', 'H', 'I', 'J', 'K', 'L', 'M', 'N', 'O', 'P']

  /** `${CHARACTERS[row - 1]}`: the row's letter, or the text "undefined" that
      JavaScript substitutes for an index outside the table. */
  function RowLabel(row: nat): string {
    if 1 <= row <= |Characters| then [Characters[row - 1]] else "undefined"
  }

  /** One element of the generated list: `{ name, row, column }`. */
  datatype BlockCell = BlockCell(name: string, row: nat, column: nat)

  /** The name `${char}${col}` of the cell at (row, column). */
  function CellName(row: nat, column: nat): string {
    RowLabel(row) + DecimalString(column)
  }

  function Cell(row: nat, column: nat): BlockCell {
    BlockCell(CellName(row, column), row, column)
  }

  /** The cells of one row, columns 1..columns, left to right. */
  function RowCells(row: nat, columns: nat): seq<BlockCell> {
    seq(columns, j requires 0 <= j < columns => Cell(row, j + 1))
  }

  /** The cells of rows 1..rows, row after row: the specification of
      `getBlocksFromDimension`. */
  function Layout(rows: nat, columns: nat): seq<BlockCell> {
    if rows == 0 then [] else Layout(rows - 1, columns) + RowCells(rows, columns)
  }

  /** `getBlocksFromDimension`: two nested loops push the cells row by row. */
  method GetBlocksFromDimension(dimension: string) returns (blocks: seq<BlockCell>)
    requires IsStorageDimension(dimension)
    ensures blocks == Layout(StorageDimensionMap(dimension).row, StorageDimensionMap(dimension).column)
  {
    var d := StorageDimensionMap(dimension);
    blocks := [];
    var row := 1;
    while row <= d.row
      invariant 1 <= row <= d.row + 1
      invariant blocks == Layout(row - 1, d.column)
    {
      var letter := RowLabel(row);
      var col := 1;
      while col <= d.column
        invariant 1 <= col <= d.column + 1
        invariant blocks == Layout(row - 1, d.column) + RowCells(row, col - 1)
      {
        assert RowCells(row, col) == RowCells(row, col - 1) + [Cell(row, col)];
        blocks := blocks + [BlockCell(letter + DecimalString(col), row, col)];
        col := col + 1;
      }
      row := row + 1;
    }
  }

  /** The grid has rows * columns cells. */
  lemma {:induction false} LayoutLength(rows: nat, columns: nat)
    ensures |Layout(rows, columns)| == rows * columns
  {
    if rows > 0 {
      LayoutLength(rows - 1, columns);
      assert (rows - 1) * columns + columns == rows * columns;
    }
  }

  /** A cell is in the grid exactly when its row is in 1..rows, its column in
      1..columns, and its name is the row letter followed by the column. */
  lemma {:induction false} LayoutMembers(rows: nat, columns: nat, c: BlockCell)
    ensures c in Layout(rows, columns) <==>
      1 <= c.row <= rows && 1 <= c.column <= columns && c == Cell(c.row, c.column)
  {
    if rows > 0 {
      LayoutMembers(rows - 1, columns, c);
      var last := RowCells(rows, columns);
      if c.row == rows && 1 <= c.column <= columns && c == Cell(c.row, c.column) {
        assert last[c.column - 1] == c;
      }
    }
  }

  /** The list is row-major: the cell of (r, c) sits at index (r-1)*columns + (c-1). */
  lemma {:induction false} LayoutAt(rows: nat, columns: nat, r: nat, c: nat)
    requires 1 <= r <= rows && 1 <= c <= columns
    ensures (r - 1) * columns + (c - 1) < |Layout(rows, columns)|
    ensures Layout(rows, columns)[(r - 1) * columns + (c - 1)] == Cell(r, c)
  {
    LayoutLength(rows - 1, columns);
    LayoutLength(rows, columns);
    var front := Layout(rows - 1, columns);
    if r == rows {
      assert Layout(rows, columns)[|front| + (c - 1)] == RowCells(rows, columns)[c - 1];
    } else {
      LayoutAt(rows - 1, columns, r, c);
      RowMajorBelow(r, rows, columns, c);
    }
  }

  /** A cell of an earlier row sits before the last row starts. */
  lemma RowMajorBelow(r: nat, rows: nat, columns: nat, c: nat)
    requires 1 <= r < rows && 1 <= c <= columns
    ensures (r - 1) * columns + (c - 1) < (rows - 1) * columns
  {
    assert (r - 1) * columns + columns == r * columns;
    assert r * columns <= (rows - 1) * columns;
  }

  /** No two cells of `s` share a (row, column) pair. */
  predicate DistinctCoordinates(s: seq<BlockCell>) {
    forall i, j :: 0 <= i < j < |s| ==> s[i].row != s[j].row || s[i].column != s[j].column
  }

  /** No two cells share a (row, column) pair. */
  lemma {:induction false} LayoutDistinctCoordinates(rows: nat, columns: nat)
    ensures DistinctCoordinates(Layout(rows, columns))
  {
    if rows > 0 {
      LayoutDistinctCoordinates(rows - 1, columns);
      var front, last := Layout(rows - 1, columns), RowCells(rows, columns);
      forall k | 0 <= k < |front| ensures front[k].row < rows {
        LayoutMembers(rows - 1, columns, front[k]);
      }
      forall i, j | 0 <= i < j < |last| ensures last[i].column != last[j].column {
        assert last[i].column == i + 1 && last[j].column == j + 1;
      }
      AppendRowDistinct(front, last, rows);
    }
  }

  /** Cells of earlier rows followed by cells of one later row, each part
      without repeats, have no repeated coordinates. */
  lemma AppendRowDistinct(front: seq<BlockCell>, last: seq<BlockCell>, row: nat)
    requires DistinctCoordinates(front)
    requires forall i, j :: 0 <= i < j < |last| ==> last[i].column != last[j].column
    requires forall k :: 0 <= k < |front| ==> front[k].row < row
    requires forall k :: 0 <= k < |last| ==> last[k].row == row
    ensures DistinctCoordinates(front + last)
  {
    var all := front + last;
    forall i, j | 0 <= i < j < |all| ensures all[i].row != all[j].row || all[i].column != all[j].column {
      if j < |front| {
        assert all[i] == front[i] && all[j] == front[j];
      } else if i < |front| {
        assert all[i] == front[i] && all[j] == last[j - |front|];
      } else {
        assert all[i] == last[i - |front|] && all[j] == last[j - |front|];
      }
    }
  }

  lemma CharactersAreLetters()
    ensures forall k :: 0 <= k < |Characters| ==> Characters[k] as int == 'A' as int + k
  {
  }

  /** Within the 16 rows of the letter table, a cell's name determines its row
      and column. */
  lemma CellNameInjective(r1: nat, c1: nat, r2: nat, c2: nat)
    requires 1 <= r1 <= |Characters| && 1 <= r2 <= |Characters|
    requires CellName(r1, c1) == CellName(r2, c2)
    ensures r1 == r2 && c1 == c2
  {
    CharactersAreLetters();
    var n1, n2 := CellName(r1, c1), CellName(r2, c2);
    assert n1[0] == Characters[r1 - 1] && n2[0] == Characters[r2 - 1];
    assert n1[1..] == DecimalString(c1) && n2[1..] == DecimalString(c2);
    DecimalStringInjective(c1, c2);
  }

  /** With at most 16 rows every block gets a distinct name. */
  lemma LayoutDistinctNames(rows: nat, columns: nat)
    requires rows <= |Characters|
    ensures forall i, j :: 0 <= i < j < |Layout(rows, columns)| ==>
      Layout(rows, columns)[i].name != Layout(rows, columns)[j].name
  {
    var all := Layout(rows, columns);
    LayoutDistinctCoordinates(rows, columns);
    forall i, j | 0 <= i < j < |all| ensures all[i].name != all[j].name {
      LayoutMembers(rows, columns, all[i]);
      LayoutMembers(rows, columns, all[j]);
      if all[i].name == all[j].name {
        CellNameInjective(all[i].row, all[i].column, all[j].row, all[j].column);
      }
    }
  }

  /** What a storage of an accepted dimension "NxN" receives: N*N blocks, each
      with row and column in 1..N and the name letter-of-row followed by the
      column, no two sharing coordinates or a name. */
  lemma DimensionLayout(dimension: string)
    requires IsStorageDimension(dimension)
    ensures var n := StorageDimensionMap(dimension).row;
      var cells := Layout(n, n);
      && |cells| == n * n
      && (forall c :: c in cells <==> 1 <= c.row <= n && 1 <= c.column <= n && c == Cell(c.row, c.column))
      && (forall i, j :: 0 <= i < j < |cells| ==> cells[i].name != cells[j].name)
      && (forall i, j :: 0 <= i < j < |cells| ==>
            cells[i].row != cells[j].row || cells[i].column != cells[j].column)
  {
    var n := StorageDimensionMap(dimension).row;
    LayoutLength(n, n);
    forall c ensures c in Layout(n, n) <==> 1 <= c.row <= n && 1 <= c.column <= n && c == Cell(c.row, c.column) {
      LayoutMembers(n, n, c);
    }
    LayoutDistinctNames(n, n);
    LayoutDistinctCoordinates(n, n);
  }

  /** The "2x2" storage gets the blocks A1, A2, B1, B2 in that order. */
  lemma TwoByTwoLayout()
    ensures Layout(2, 2) ==
      [BlockCell("A1", 1, 1), BlockCell("A2", 1, 2), BlockCell("B1", 2, 1), BlockCell("B2", 2, 2)]
  {
    assert DecimalString(1) == "1" && DecimalString(2) == "2";
    assert RowLabel(1) == "A" && RowLabel(2) == "B";
    assert RowCells(1, 2) == [Cell(1, 1), Cell(1, 2)];
    assert RowCells(2, 2) == [Cell(2, 1), Cell(2, 2)];
    assert Layout(0, 2) == [];
    assert Layout(1, 2) == [Cell(1, 1), Cell(1, 2)];
    assert Layout(2, 2) == [Cell(1, 1), Cell(1, 2)] + [Cell(2, 1), Cell(2, 2)];
    assert CellName(1, 1) == "A1" && CellName(1, 2) == "A2";
    assert CellName(2, 1) == "B1" && CellName(2, 2) == "B2";
  }
}
