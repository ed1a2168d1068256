/**
 * The grid mutations of the tab-separated editor.  Each host command
 * (`updateDocument`'s rebuild path, `insertColumn`, `deleteColumn`,
 * `insertRow`, `deleteRow`) parses the document into a ragged array of rows,
 * changes that array in place and serialises it again.  Parsing and
 * serialising belong to the CSV library and are not modelled: every operation
 * here starts from the rows the parser produced.
 *
 * Each operation is a function that states the resulting grid cell by cell,
 * and, where the source loops, a method with the source's loop proved equal
 * to that function.
 */
module Grid {
  import opened JsStrings

  type Row = seq<string>
  type Grid = seq<Row>

  /** Ragged read: a row or cell past the end reads as the empty string. */
  function CellAt(g: Grid, r: nat, c: nat): string
  {
    if r < |g| && c < |g[r]| then g[r][c] else ""
  }

  /** Row `i`, or no cells when the grid is shorter. */
  function RowOf(g: Grid, i: nat): Row
  {
    if i < |g| then g[i] else []
  }

  /** `n` empty cells: `Array(n).fill('')`. */
  function Blanks(n: nat): (r: Row)
    ensures |r| == n
    ensures forall j :: 0 <= j < n ==> r[j] == ""
  {
    seq(n, _ => "")
  }

  /** `n` rows of `w` empty cells each. */
  function BlankRows(n: nat, w: nat): (r: Grid)
    ensures |r| == n
    ensures forall i :: 0 <= i < n ==> r[i] == Blanks(w)
  {
    seq(n, _ => Blanks(w))
  }

  /** Width of the widest row, 0 for no rows: `Math.max(...data.map(r => r.length), 0)`. */
  function MaxWidth(g: Grid): (w: nat)
    ensures forall i :: 0 <= i < |g| ==> |g[i]| <= w
    ensures |g| > 0 ==> exists i :: 0 <= i < |g| && |g[i]| == w
    ensures |g| == 0 ==> w == 0
    decreases |g|
  {
    if |g| == 0 then 0
    else
      var w := MaxWidth(g[..|g| - 1]);
      assert forall i :: 0 <= i < |g| - 1 ==> g[..|g| - 1][i] == g[i];
      if |g[|g| - 1]| > w then |g[|g| - 1]| else w
  }

  /** A row extended with empty cells up to `n` cells; longer rows are kept whole. */
  function PadRow(row: Row, n: nat): (r: Row)
    ensures |r| == Max(|row|, n)
    ensures r[..|row|] == row
    ensures forall j :: |row| <= j < |r| ==> r[j] == ""
  {
    if |row| < n then row + Blanks(n - |row|) else row
  }

  // ---------------------------------------------------------------- set cell

  /**
   * The grid that `updateDocument`'s rebuild path writes: empty rows are
   * appended until `row` exists, empty cells until `col` exists in that row,
   * and then the cell is assigned.  Nothing else changes.
   */
  function SetCell(g: Grid, row: nat, col: nat, value: string): (r: Grid)
    ensures |r| == Max(|g|, row + 1)
    ensures |r[row]| == Max(|RowOf(g, row)|, col + 1)
    ensures r[row][col] == value
    ensures forall i :: 0 <= i < |r| && i != row ==> r[i] == RowOf(g, i)
    ensures forall j :: 0 <= j < |r[row]| && j != col ==>
              r[row][j] == (if j < |RowOf(g, row)| then g[row][j] else "")
  {
    var grown := Grown(g, row);
    var line := PadRow(grown[row], col + 1);
    grown[row := line[col := value]]
  }

  /** The grid with empty rows appended until row `row` exists. */
  function Grown(g: Grid, row: nat): (r: Grid)
    ensures |r| == Max(|g|, row + 1)
    ensures forall i :: 0 <= i < |r| ==> r[i] == RowOf(g, i)
  {
    if |g| <= row then g + seq(row + 1 - |g|, _ => []) else g
  }

  /** Under the ragged reading, setting a cell changes that cell and no other. */
  lemma SetCellReads(g: Grid, row: nat, col: nat, value: string, i: nat, j: nat)
    ensures CellAt(SetCell(g, row, col, value), i, j) ==
            if i == row && j == col then value else CellAt(g, i, j)
  {
  }

  /** Setting the same cell twice to the same value is the same as setting it once. */
  lemma SetCellIdempotent(g: Grid, row: nat, col: nat, value: string)
    ensures SetCell(SetCell(g, row, col, value), row, col, value) == SetCell(g, row, col, value)
  {
    var once := SetCell(g, row, col, value);
    var twice := SetCell(once, row, col, value);
    assert |twice| == |once|;
    forall i | 0 <= i < |once|
      ensures twice[i] == once[i]
    {
      if i == row {
        assert |twice[i]| == |once[i]|;
      }
    }
  }

  /**
   * `updateDocument`'s fallback (src/extension.ts:262-268): push empty rows
   * while the grid is too short, push empty cells while the row is too short,
   * then assign.
   */
  method GrowAndAssign(parsed: Grid, row: nat, col: nat, value: string) returns (data: Grid)
    ensures data == SetCell(parsed, row, col, value)
  {
    data := GrowRows(parsed, row);
    var line := data[row];
    while |line| <= col
      invariant |data[row]| <= |line| <= Max(|data[row]|, col + 1)
      invariant line[..|data[row]|] == data[row]
      invariant forall j :: |data[row]| <= j < |line| ==> line[j] == ""
      decreases col + 1 - |line|
    {
      line := line + [""];
    }
    line := line[col := value];
    data := data[row := line];
    ghost var spec := SetCell(parsed, row, col, value);
    assert |data[row]| == |spec[row]|;
    assert data[row] == spec[row];
  }

  /** The first loop of the fallback: push empty rows until row `row` exists. */
  method GrowRows(parsed: Grid, row: nat) returns (data: Grid)
    ensures data == Grown(parsed, row)
  {
    data := parsed;
    while |data| <= row
      invariant |parsed| <= |data| <= Max(|parsed|, row + 1)
      invariant forall i :: 0 <= i < |data| ==> data[i] == RowOf(parsed, i)
      decreases row + 1 - |data|
    {
      data := data + [[]];
    }
  }

  // ----------------------------------------------------------- insert column

  /**
   * One row after `insertColumn(index)`: padded with empty cells up to
   * `index`, then an empty cell spliced in at `index`, later cells shifted
   * right by one.
   */
  function InsertCell(row: Row, index: nat): (r: Row)
    ensures |r| == Max(|row|, index) + 1
    ensures r[index] == ""
    ensures forall j :: 0 <= j < index ==> r[j] == (if j < |row| then row[j] else "")
    ensures forall j :: index < j < |r| ==> r[j] == row[j - 1]
  {
    var p := PadRow(row, index);
    assert forall j :: 0 <= j < |row| ==> p[j] == p[..|row|][j];
    p[..index] + [""] + p[index..]
  }

  /** `insertColumn` (src/extension.ts:304-311): every row is padded and gets the new cell. */
  method InsertColumn(parsed: Grid, index: nat) returns (data: Grid)
    ensures |data| == |parsed|
    ensures forall i :: 0 <= i < |data| ==> data[i] == InsertCell(parsed[i], index)
  {
    data := parsed;
    var i := 0;
    while i < |data|
      invariant 0 <= i <= |data| == |parsed|
      invariant forall k :: 0 <= k < i ==> data[k] == InsertCell(parsed[k], index)
      invariant forall k :: i <= k < |data| ==> data[k] == parsed[k]
    {
      var row := data[i];
      if index > |row| {
        while |row| < index
          invariant |parsed[i]| <= |row| <= index
          invariant row[..|parsed[i]|] == parsed[i]
          invariant forall j :: |parsed[i]| <= j < |row| ==> row[j] == ""
          decreases index - |row|
        {
          row := row + [""];
        }
        assert row == PadRow(parsed[i], index);
      } else {
        assert row == PadRow(parsed[i], index);
      }
      row := row[..index] + [""] + row[index..];
      data := data[i := row];
      i := i + 1;
    }
  }

  // ----------------------------------------------------------- delete column

  /** One row after `deleteColumn(index)`: the cell at `index` removed when the row has one. */
  function DeleteCell(row: Row, index: nat): (r: Row)
    ensures index < |row| ==> |r| == |row| - 1
    ensures index >= |row| ==> r == row
    ensures forall j :: 0 <= j < |r| ==> r[j] == (if j < index then row[j] else row[j + 1])
  {
    if index < |row| then row[..index] + row[index + 1..] else row
  }

  /** `deleteColumn` (src/extension.ts:330-334): rows too short to have the cell are untouched. */
  method DeleteColumn(parsed: Grid, index: nat) returns (data: Grid)
    ensures |data| == |parsed|
    ensures forall i :: 0 <= i < |data| ==> data[i] == DeleteCell(parsed[i], index)
  {
    data := parsed;
    var i := 0;
    while i < |data|
      invariant 0 <= i <= |data| == |parsed|
      invariant forall k :: 0 <= k < i ==> data[k] == DeleteCell(parsed[k], index)
      invariant forall k :: i <= k < |data| ==> data[k] == parsed[k]
    {
      var row := data[i];
      if index < |row| {
        row := row[..index] + row[index + 1..];
      }
      data := data[i := row];
      i := i + 1;
    }
  }

  /** Deleting the column just inserted leaves each row padded to `index` cells. */
  lemma DeleteAfterInsertCell(row: Row, index: nat)
    ensures DeleteCell(InsertCell(row, index), index) == PadRow(row, index)
  {
    var r := DeleteCell(InsertCell(row, index), index);
    var p := PadRow(row, index);
    assert |r| == |p|;
    forall j | 0 <= j < |r|
      ensures r[j] == p[j]
    {
      if j < |row| {
        assert p[j] == p[..|row|][j];
      }
    }
  }

  /** For a row that already reaches `index`, inserting then deleting restores it. */
  lemma DeleteAfterInsertRestores(row: Row, index: nat)
    requires index <= |row|
    ensures DeleteCell(InsertCell(row, index), index) == row
  {
    DeleteAfterInsertCell(row, index);
  }

  // -------------------------------------------------------------- insert row

  /**
   * The grid after `insertRow(index)`: padding rows up to `index`, then a new
   * row at `index`; all new rows hold as many empty cells as the widest old
   * row.  Old rows keep their order.
   */
  function InsertRowAt(g: Grid, index: nat): (r: Grid)
    ensures |r| == Max(|g|, index) + 1
    ensures r[index] == Blanks(MaxWidth(g))
    ensures forall i :: |g| <= i < index ==> r[i] == Blanks(MaxWidth(g))
    ensures forall i :: 0 <= i < index && i < |g| ==> r[i] == g[i]
    ensures forall i :: index < i < |r| ==> r[i] == g[i - 1]
  {
    var w := MaxWidth(g);
    var padded := if index > |g| then g + BlankRows(index - |g|, w) else g;
    padded[..index] + [Blanks(w)] + padded[index..]
  }

  /** `insertRow` (src/extension.ts:409-416). */
  method InsertRow(parsed: Grid, index: nat) returns (data: Grid)
    ensures data == InsertRowAt(parsed, index)
  {
    var numColumns := MaxWidth(parsed);
    var newRow := Blanks(numColumns);
    data := parsed;
    if index > |data| {
      while |data| < index
        invariant |parsed| <= |data| <= index
        invariant data[..|parsed|] == parsed
        invariant forall i :: |parsed| <= i < |data| ==> data[i] == Blanks(numColumns)
        decreases index - |data|
      {
        data := data + [Blanks(numColumns)];
      }
    }
    data := data[..index] + [newRow] + data[index..];
    ghost var spec := InsertRowAt(parsed, index);
    assert |data| == |spec|;
    forall i | 0 <= i < |data|
      ensures data[i] == spec[i]
    {
      if i < index && i < |parsed| {
        assert data[i] == data[..|parsed|][i];
      }
    }
  }

  // -------------------------------------------------------------- delete row

  /** `deleteRow` (src/extension.ts:435-437): the row is removed when it exists. */
  function DeleteRowAt(g: Grid, index: nat): (r: Grid)
    ensures index < |g| ==> |r| == |g| - 1
    ensures index >= |g| ==> r == g
    ensures forall i :: 0 <= i < |r| ==> r[i] == (if i < index then g[i] else g[i + 1])
  {
    if index < |g| then g[..index] + g[index + 1..] else g
  }

  /** Deleting the row just inserted gives back the grid, followed by the padding rows. */
  lemma DeleteAfterInsertRow(g: Grid, index: nat)
    ensures index <= |g| ==> DeleteRowAt(InsertRowAt(g, index), index) == g
    ensures index > |g| ==>
              DeleteRowAt(InsertRowAt(g, index), index) == g + BlankRows(index - |g|, MaxWidth(g))
  {
    var w := MaxWidth(g);
    if index > |g| {
      DeleteSpliced(g + BlankRows(index - |g|, w), index, Blanks(w));
    } else {
      DeleteSpliced(g, index, Blanks(w));
    }
  }

  /** Removing the row just spliced in at `index` gives back the rows it was spliced into. */
  lemma DeleteSpliced(rows: Grid, index: nat, newRow: Row)
    requires index <= |rows|
    ensures DeleteRowAt(rows[..index] + [newRow] + rows[index..], index) == rows
  {
    var ins := rows[..index] + [newRow] + rows[index..];
    assert ins[..index] == rows[..index];
    assert ins[index + 1..] == rows[index..];
    assert rows[..index] + rows[index..] == rows;
  }

  /** Structural edits never drop a cell: every old cell can still be read, shifted as stated. */
  lemma InsertionsKeepCells(g: Grid, index: nat, i: nat, j: nat)
    requires i < |g| && j < |g[i]|
    ensures CellAt(InsertRowAt(g, index), if i < index then i else i + 1, j) == g[i][j]
    ensures InsertCell(g[i], index)[if j < index then j else j + 1] == g[i][j]
  {
  }
}
