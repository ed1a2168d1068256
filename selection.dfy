/**
 * The selection, editing and copy logic of the webview script
 * (src/extension.ts:809-1171), over the `data-row`/`data-col` coordinates of
 * the rendered cells.  The table is a map from the coordinates of every
 * rendered cell to its text; whether `querySelector` finds a cell is
 * membership in that map.  Every cell carries both attributes except the
 * serial-number header cell, which carries neither (`Corner`).  Header cells
 * (`th`) are those of row 0 when the sheet has a header; the gutter cells of
 * the serial-number column have column -1.
 */
module Selection {
  import opened JsStrings
  import opened Wrappers

  datatype Coord = Coord(row: int, col: int)

  /** A selectable element of the table. */
  datatype Elem = At(pos: Coord) | Corner

  datatype Mode = CellMode | RowMode | ColumnMode
  datatype Dir = Up | Down | Left | Right

  /** What the webview posts to the host. */
  datatype Message = EditCell(row: int, col: int, value: string) | CopyToClipboard(text: string) | Save

  type Table = map<Coord, string>

  // ------------------------------------------------------------ rectangles

  predicate InRect(c: Coord, a: Coord, b: Coord)
  {
    Min(a.row, b.row) <= c.row <= Max(a.row, b.row) && Min(a.col, b.col) <= c.col <= Max(a.col, b.col)
  }

  /** The cells `selectRange` selects: the rendered cells of the rectangle spanned by `a` and `b`. */
  function RectSelection(table: Table, a: Coord, b: Coord): set<Elem>
  {
    set c | c in table.Keys && InRect(c, a, b) :: At(c)
  }

  /**
   * `selectRange` (src/extension.ts:913-924): the rectangle's rows and
   * columns in order, each coordinate looked up in the table.
   */
  method CollectRect(table: Table, a: Coord, b: Coord) returns (sel: set<Elem>)
    ensures forall e :: e in sel <==> e.At? && e.pos in table && InRect(e.pos, a, b)
    ensures sel == RectSelection(table, a, b)
  {
    sel := {};
    var minRow, maxRow := Min(a.row, b.row), Max(a.row, b.row);
    var minCol, maxCol := Min(a.col, b.col), Max(a.col, b.col);
    var r := minRow;
    while r <= maxRow
      invariant minRow <= r <= maxRow + 1
      invariant forall e :: e in sel <==> e.At? && e.pos in table && InRect(e.pos, a, b) && e.pos.row < r
      decreases maxRow - r
    {
      var c := minCol;
      while c <= maxCol
        invariant minCol <= c <= maxCol + 1
        invariant forall e :: e in sel <==>
                    e.At? && e.pos in table && InRect(e.pos, a, b) &&
                    (e.pos.row < r || (e.pos.row == r && e.pos.col < c))
        decreases maxCol - c
      {
        if Coord(r, c) in table {
          sel := sel + {At(Coord(r, c))};
        }
        c := c + 1;
      }
      r := r + 1;
    }
  }

  /** The rectangle does not depend on which corner is the anchor, and holds both corners. */
  lemma RectSymmetric(table: Table, a: Coord, b: Coord)
    ensures RectSelection(table, a, b) == RectSelection(table, b, a)
    ensures a in table ==> At(a) in RectSelection(table, a, b)
    ensures b in table ==> At(b) in RectSelection(table, a, b)
  {
    assert forall c :: InRect(c, a, b) <==> InRect(c, b, a);
  }

  /** A one-cell rectangle selects just that cell. */
  lemma RectSingle(table: Table, a: Coord)
    requires a in table
    ensures RectSelection(table, a, a) == {At(a)}
  {
  }

  /** `selectFullColumnRange`: every rendered cell whose column lies between the two. */
  function ColumnRange(table: Table, c1: int, c2: int): set<Elem>
  {
    set c | c in table.Keys && Min(c1, c2) <= c.col <= Max(c1, c2) :: At(c)
  }

  /** `selectFullRowRange`: every rendered cell whose row lies between the two. */
  function RowRange(table: Table, r1: int, r2: int): set<Elem>
  {
    set c | c in table.Keys && Min(r1, r2) <= c.row <= Max(r1, r2) :: At(c)
  }

  /** `selectAllCells`: every `td` and `th`, the serial-number header cell included. */
  function AllCells(table: Table, hasCorner: bool): set<Elem>
  {
    (set c | c in table.Keys :: At(c)) + (if hasCorner then {Corner} else {})
  }

  /** A full-column range is the rectangle spanned by its end columns over all rendered rows. */
  lemma ColumnRangeIsRect(table: Table, c1: int, c2: int, top: int, bottom: int)
    requires forall c :: c in table ==> top <= c.row <= bottom
    ensures ColumnRange(table, c1, c2) == RectSelection(table, Coord(top, c1), Coord(bottom, c2))
  {
    assert top <= bottom || table == map[] by {
      if table != map[] {
        var c :| c in table;
      }
    }
  }

  // ------------------------------------------------------------ navigation

  function Step(c: Coord, d: Dir): Coord
  {
    match d
    case Up => Coord(c.row - 1, c.col)
    case Down => Coord(c.row + 1, c.col)
    case Left => Coord(c.row, c.col - 1)
    case Right => Coord(c.row, c.col + 1)
  }

  function Opposite(d: Dir): Dir
  {
    match d
    case Up => Down
    case Down => Up
    case Left => Right
    case Right => Left
  }

  /**
   * The cell an arrow key moves to (src/extension.ts:1029-1075): the
   * neighbour in that direction, unless its row or column is negative or no
   * cell is rendered there.
   */
  function ArrowTarget(table: Table, from: Coord, d: Dir): (r: Option<Coord>)
    ensures r.Some? ==> r.value == Step(from, d) && r.value in table && r.value.row >= 0 && r.value.col >= 0
    ensures r.None? <==> Step(from, d).row < 0 || Step(from, d).col < 0 || Step(from, d) !in table
  {
    var t := Step(from, d);
    if t.row < 0 || t.col < 0 then None
    else if t in table then Some(t)
    else None
  }

  /** The opposite arrow leads back to a cell of non-negative coordinates. */
  lemma ArrowBack(table: Table, from: Coord, d: Dir)
    requires from in table && from.row >= 0 && from.col >= 0
    requires ArrowTarget(table, from, d).Some?
    ensures ArrowTarget(table, ArrowTarget(table, from, d).value, Opposite(d)) == Some(from)
  {
  }

  /** A `td` with these coordinates is rendered: a cell that is not a header cell. */
  predicate TdAt(table: Table, hasHeader: bool, c: Coord)
  {
    c in table && !(hasHeader && c.row == 0)
  }

  /** Enter while editing opens the `td` below, if there is one (src/extension.ts:1082-1088). */
  function EnterTarget(table: Table, hasHeader: bool, c: Coord): (r: Option<Coord>)
    ensures r.Some? <==> TdAt(table, hasHeader, Coord(c.row + 1, c.col))
    ensures r.Some? ==> r.value == Coord(c.row + 1, c.col)
  {
    var t := Coord(c.row + 1, c.col);
    if TdAt(table, hasHeader, t) then Some(t) else None
  }

  /**
   * Tab while editing as written (src/extension.ts:1089-1102): the `td` to
   * the left (with Shift) or to the right, whatever its column.
   */
  function TabTargetAsWritten(table: Table, hasHeader: bool, c: Coord, shift: bool): Option<Coord>
  {
    var t := Coord(c.row, if shift then c.col - 1 else c.col + 1);
    if TdAt(table, hasHeader, t) then Some(t) else None
  }

  /** Tab while editing, rejecting a negative column as the arrow keys do. */
  function TabTarget(table: Table, hasHeader: bool, c: Coord, shift: bool): (r: Option<Coord>)
    ensures r.Some? ==> r.value.col >= 0 && TdAt(table, hasHeader, r.value)
    ensures r.Some? ==> r.value == Coord(c.row, if shift then c.col - 1 else c.col + 1)
  {
    var t := Coord(c.row, if shift then c.col - 1 else c.col + 1);
    if t.col >= 0 && TdAt(table, hasHeader, t) then Some(t) else None
  }

  /** The corrected Tab differs from the source only where the source would open a gutter cell. */
  lemma TabTargetCorrects(table: Table, hasHeader: bool, c: Coord, shift: bool)
    ensures TabTarget(table, hasHeader, c, shift) ==
            match TabTargetAsWritten(table, hasHeader, c, shift)
            case Some(t) => if t.col < 0 then None else Some(t)
            case None => None
  {
  }

  /**
   * With the serial-number column on, Shift+Tab in the first column opens the
   * gutter cell for editing; its blur then posts an `editCell` with column -1.
   */
  lemma TabReachesGutterAsWritten()
    ensures TabTargetAsWritten(map[Coord(1, -1) := "2", Coord(1, 0) := "x"], false, Coord(1, 0), true) ==
            Some(Coord(1, -1))
    ensures TabTarget(map[Coord(1, -1) := "2", Coord(1, 0) := "x"], false, Coord(1, 0), true) == None
  {
  }

  // ------------------------------------------------------------------ copy

  /** The bounding box of the copied coordinates. */
  datatype Box = Box(minRow: int, maxRow: int, minCol: int, maxCol: int)

  /** `box` is the smallest box around the coordinates: every bound is attained. */
  predicate Bounds(box: Box, coords: set<Coord>)
  {
    (forall c :: c in coords ==> box.minRow <= c.row <= box.maxRow && box.minCol <= c.col <= box.maxCol) &&
    (exists c :: c in coords && c.row == box.minRow) &&
    (exists c :: c in coords && c.row == box.maxRow) &&
    (exists c :: c in coords && c.col == box.minCol) &&
    (exists c :: c in coords && c.col == box.maxCol)
  }

  /** `Math.min`/`Math.max` over the rows and columns of the copied cells. */
  method BoundingBox(coords: set<Coord>) returns (box: Box)
    requires coords != {}
    ensures Bounds(box, coords)
    ensures box.minRow <= box.maxRow && box.minCol <= box.maxCol
  {
    var first :| first in coords;
    var top, bottom, left, right := first, first, first, first;
    box := Box(first.row, first.row, first.col, first.col);
    var rest := coords - {first};
    while rest != {}
      invariant rest <= coords
      invariant top in coords && top.row == box.minRow
      invariant bottom in coords && bottom.row == box.maxRow
      invariant left in coords && left.col == box.minCol
      invariant right in coords && right.col == box.maxCol
      invariant forall c :: c in coords && c !in rest ==>
                  box.minRow <= c.row <= box.maxRow && box.minCol <= c.col <= box.maxCol
      decreases |rest|
    {
      var c :| c in rest;
      if c.row < box.minRow { top := c; }
      if c.row > box.maxRow { bottom := c; }
      if c.col < box.minCol { left := c; }
      if c.col > box.maxCol { right := c; }
      box := Box(Min(box.minRow, c.row), Max(box.maxRow, c.row), Min(box.minCol, c.col), Max(box.maxCol, c.col));
      rest := rest - {c};
    }
  }

  /** The text of the cell at `c`, `''` where none is rendered. */
  function CellText(table: Table, c: Coord): string
  {
    if c in table then table[c] else ""
  }

  /** The values of row `r` across the box's columns. */
  function RowValues(table: Table, box: Box, r: int): (vals: seq<string>)
    ensures |vals| == if box.maxCol >= box.minCol then box.maxCol - box.minCol + 1 else 0
    ensures forall j :: 0 <= j < |vals| ==> vals[j] == CellText(table, Coord(r, box.minCol + j))
  {
    var n := if box.maxCol >= box.minCol then box.maxCol - box.minCol + 1 else 0;
    seq(n, j requires 0 <= j < n => CellText(table, Coord(r, box.minCol + j)))
  }

  /** The box's rows from `r` on, each its values joined by commas. */
  function Lines(table: Table, box: Box, r: int): (ls: seq<string>)
    ensures |ls| == if r <= box.maxRow then box.maxRow - r + 1 else 0
    decreases box.maxRow - r
  {
    if r > box.maxRow then [] else [Join(RowValues(table, box, r), ',')] + Lines(table, box, r + 1)
  }

  /** Lines, each ended by a newline. */
  function Terminated(lines: seq<string>): string
  {
    if lines == [] then "" else lines[0] + "\n" + Terminated(lines[1..])
  }

  /** Line `i` of the box is its row `minRow + i`. */
  lemma {:induction false} LinesAt(table: Table, box: Box, r: int, i: nat)
    requires r + i <= box.maxRow
    ensures Lines(table, box, r)[i] == Join(RowValues(table, box, r + i), ',')
    decreases i
  {
    if i > 0 {
      LinesAt(table, box, r + 1, i - 1);
    }
  }

  /** `csv` as the copy loop builds it (src/extension.ts:1151-1171), before `trimEnd`. */
  method CopyText(table: Table, box: Box) returns (csv: string)
    ensures csv == Terminated(Lines(table, box, box.minRow))
  {
    csv := "";
    var r := box.minRow;
    while r <= box.maxRow
      invariant csv + Terminated(Lines(table, box, r)) == Terminated(Lines(table, box, box.minRow))
      decreases box.maxRow - r
    {
      var rowVals := CopyRow(table, box, r);
      var line := Join(rowVals, ',');
      CopyStep(table, box, r, csv);
      csv := csv + line + "\n";
      r := r + 1;
    }
  }

  /** The inner loop of the copy (src/extension.ts:1162-1167): the texts of row `r` across the box. */
  method CopyRow(table: Table, box: Box, r: int) returns (rowVals: seq<string>)
    ensures rowVals == RowValues(table, box, r)
  {
    rowVals := [];
    var c := box.minCol;
    while c <= box.maxCol
      invariant box.minCol <= c <= Max(box.maxCol + 1, box.minCol)
      invariant rowVals == RowValues(table, box, r)[..c - box.minCol]
      decreases box.maxCol - c
    {
      rowVals := rowVals + [CellText(table, Coord(r, c))];
      c := c + 1;
    }
  }

  /** Taking row `r` into the copied text leaves the rows after it to copy. */
  lemma CopyStep(table: Table, box: Box, r: int, csv: string)
    requires r <= box.maxRow
    ensures csv + Terminated(Lines(table, box, r))
            == (csv + Join(RowValues(table, box, r), ',') + "\n") + Terminated(Lines(table, box, r + 1))
  {
    var line := Join(RowValues(table, box, r), ',');
    var rest := Lines(table, box, r + 1);
    assert Lines(table, box, r) == [line] + rest;
    TerminatedCons(line, rest);
  }

  /** One more line in front of newline-terminated lines. */
  lemma TerminatedCons(line: string, rest: seq<string>)
    ensures Terminated([line] + rest) == line + "\n" + Terminated(rest)
  {
    assert ([line] + rest)[1..] == rest;
  }

  /** Newline-terminated lines split back into the lines and one empty tail. */
  lemma {:induction false} TerminatedSplit(lines: seq<string>)
    requires forall i :: 0 <= i < |lines| ==> NoneIs(lines[i], '\n')
    ensures Split(Terminated(lines), '\n') == lines + [""]
    decreases |lines|
  {
    if lines != [] {
      TerminatedSplit(lines[1..]);
      SplitCellThenSep(lines[0], Terminated(lines[1..]), '\n');
      assert lines == [lines[0]] + lines[1..];
    }
  }

  /** A text free of `ch` joined with another such text by a different separator stays free of `ch`. */
  lemma {:induction false} JoinNoneIs(cells: seq<string>, sep: char, ch: char)
    requires sep != ch
    requires forall k :: 0 <= k < |cells| ==> NoneIs(cells[k], ch)
    ensures NoneIs(Join(cells, sep), ch)
    decreases |cells|
  {
    if |cells| > 1 {
      JoinNoneIs(cells[1..], sep, ch);
    }
  }

  /**
   * When no cell text holds a comma or a line break, the copied text reads
   * back as the box: split at line breaks it gives one line per row of the
   * box, and each line split at commas gives that row's texts, `''` for
   * every coordinate without a rendered cell.
   */
  lemma CopyReadsBack(table: Table, box: Box)
    requires box.minRow <= box.maxRow && box.minCol <= box.maxCol
    requires forall c :: c in table ==> NoneIs(table[c], ',') && NoneIs(table[c], '\n')
    ensures var lines := Lines(table, box, box.minRow);
            |lines| == box.maxRow - box.minRow + 1 &&
            Split(Terminated(lines), '\n') == lines + [""] &&
            forall i :: 0 <= i < |lines| ==> Split(lines[i], ',') == RowValues(table, box, box.minRow + i)
  {
    var lines := Lines(table, box, box.minRow);
    forall i | 0 <= i < |lines|
      ensures NoneIs(lines[i], '\n') && Split(lines[i], ',') == RowValues(table, box, box.minRow + i)
    {
      LinesAt(table, box, box.minRow, i);
      var vals := RowValues(table, box, box.minRow + i);
      JoinNoneIs(vals, ',', '\n');
      SplitJoin(vals, ',');
    }
    TerminatedSplit(lines);
  }

  // -------------------------------------------------------- webview state

  /** `anchorCell` and `rangeEndCell`. */
  datatype Focus = Focus(anchor: Option<Coord>, rangeEnd: Option<Coord>)

  /** The cell being edited (`editingCell`) and its text when editing began (`originalCellValue`). */
  datatype Editing = Editing(cell: Coord, original: string)

  /** A drag in progress (`isSelecting`): its mode, `startCell` and `endCell`. */
  datatype Drag = Drag(mode: Mode, start: Coord, end: Coord)

  /** The coordinates of the selected elements that carry coordinates. */
  function Coords(sel: set<Elem>): set<Coord>
  {
    set e | e in sel && e.At? :: e.pos
  }

  /**
   * The state of the webview script.  `table` holds the rendered cells and
   * their texts, `selection` the elements marked selected (`currentSelection`),
   * and `sent` the messages posted to the host so far.
   */
  class GridView {
    const hasHeader: bool
    const hasCorner: bool
    var table: Table
    var selection: set<Elem>
    var focus: Focus
    var edit: Option<Editing>
    var drag: Option<Drag>
    var sent: seq<Message>

    /** Every cell the state refers to is rendered. */
    predicate Valid()
      reads this
    {
      (edit.Some? ==> edit.value.cell in table) &&
      (focus.anchor.Some? ==> focus.anchor.value in table) &&
      (focus.rangeEnd.Some? ==> focus.rangeEnd.value in table) &&
      (drag.Some? ==> drag.value.start in table && drag.value.end in table) &&
      (forall e :: e in selection ==> (e.At? ==> e.pos in table) && (e.Corner? ==> hasCorner))
    }

    /** A `th`: a cell of row 0 when the sheet has a header. */
    predicate IsTh(c: Coord)
    {
      hasHeader && c.row == 0
    }

    constructor(hasHeader: bool, hasCorner: bool, table: Table)
      ensures this.hasHeader == hasHeader && this.hasCorner == hasCorner && this.table == table
      ensures selection == {} && focus == Focus(None, None) && edit == None && drag == None && sent == []
      ensures Valid()
    {
      this.hasHeader := hasHeader;
      this.hasCorner := hasCorner;
      this.table := table;
      selection := {};
      focus := Focus(None, None);
      edit := None;
      drag := None;
      sent := [];
    }

    /** The blur handler of the cell being edited: posts its text and leaves edit mode. */
    method Blur()
      requires Valid()
      modifies this
      ensures Valid()
      ensures old(edit).Some? ==>
                var c := old(edit).value.cell;
                sent == old(sent) + [EditCell(c.row, c.col, old(table)[c])]
      ensures old(edit).None? ==> sent == old(sent)
      ensures edit == None
      ensures table == old(table) && selection == old(selection) && focus == old(focus) && drag == old(drag)
    {
      if edit.Some? {
        var c := edit.value.cell;
        sent := sent + [EditCell(c.row, c.col, table[c])];
        edit := None;
      }
    }

    /**
     * `editCell`: leaves the cell being edited, if another, and opens `c`
     * for editing, remembering its text.  The cell keeps its place in the
     * selection.
     */
    method OpenEditor(c: Coord)
      requires Valid() && c in table
      modifies this
      ensures Valid()
      ensures edit == Some(Editing(c, old(table)[c])) || old(edit) == edit
      ensures old(edit).Some? && old(edit).value.cell == c ==> edit == old(edit) && sent == old(sent)
      ensures old(edit).Some? && old(edit).value.cell != c ==>
                var o := old(edit).value.cell;
                sent == old(sent) + [EditCell(o.row, o.col, old(table)[o])] && edit == Some(Editing(c, old(table)[c]))
      ensures old(edit).None? ==> sent == old(sent) && edit == Some(Editing(c, old(table)[c]))
      ensures table == old(table) && selection == old(selection) && focus == old(focus) && drag == old(drag)
    {
      if edit.Some? && edit.value.cell == c {
        return;
      }
      Blur();
      edit := Some(Editing(c, table[c]));
    }

    /** Text typed into the cell being edited replaces its content. */
    method Input(value: string)
      requires Valid()
      modifies this
      ensures Valid()
      ensures old(edit).Some? ==> table == old(table)[old(edit).value.cell := value]
      ensures old(edit).None? ==> table == old(table)
      ensures table.Keys == old(table).Keys
      ensures selection == old(selection) && focus == old(focus) && edit == old(edit) &&
              drag == old(drag) && sent == old(sent)
    {
      if edit.Some? {
        table := table[edit.value.cell := value];
      }
    }

    /**
     * `mousedown` on `target` (src/extension.ts:809-860).  Shift+click with
     * an anchor selects the rectangle to the target, unless either is a
     * gutter cell; a click on the serial-number header cell selects
     * everything; any other click leaves edit mode (or clears the selection)
     * and starts a drag whose mode is set by the target: column on a header
     * cell, row on a gutter cell, cell otherwise.
     */
    method MouseDown(target: Elem, shift: bool)
      requires Valid()
      requires target.At? ==> target.pos in table
      requires target.Corner? ==> hasCorner
      modifies this
      ensures Valid()
      ensures table == old(table)
      ensures var a := old(focus).anchor;
              shift && a.Some? && old(edit).None? && target.At? && target.pos.col != -1 && a.value.col != -1 ==>
                selection == RectSelection(table, a.value, target.pos) &&
                focus == Focus(a, Some(target.pos)) && drag == old(drag) && sent == old(sent) && edit == None
      ensures var a := old(focus).anchor;
              !(shift && a.Some? && old(edit).None? && target.At? && target.pos.col != -1 && a.value.col != -1) ==>
                edit == None &&
                (old(edit).Some? ==> sent == old(sent) + [EditCell(old(edit).value.cell.row, old(edit).value.cell.col, table[old(edit).value.cell])]) &&
                (old(edit).None? ==> sent == old(sent)) &&
                (target.Corner? ==> selection == AllCells(table, hasCorner) && drag == None && focus == Focus(None, old(focus).rangeEnd)) &&
                (target.At? ==>
                   selection == (if old(edit).Some? then old(selection) else {}) &&
                   focus == Focus(old(focus).anchor, Some(target.pos)) &&
                   drag == Some(Drag(if IsTh(target.pos) then ColumnMode else if target.pos.col == -1 then RowMode else CellMode,
                                     target.pos, target.pos)))
    {
      if shift && focus.anchor.Some? && edit.None? && target.At? && target.pos.col != -1 && focus.anchor.value.col != -1 {
        selection := CollectRect(table, focus.anchor.value, target.pos);
        focus := Focus(focus.anchor, Some(target.pos));
        return;
      }
      if edit.Some? {
        Blur();
      } else {
        selection := {};
      }
      if target.Corner? {
        selection := AllCells(table, hasCorner);
        drag := None;
        focus := Focus(None, focus.rangeEnd);
        return;
      }
      var c := target.pos;
      var mode := if IsTh(c) then ColumnMode else if c.col == -1 then RowMode else CellMode;
      drag := Some(Drag(mode, c, c));
      focus := Focus(focus.anchor, Some(c));
    }

    /** The header cell of `c`'s column, which a column drag snaps to, if there is one. */
    function ColumnHead(c: Coord): Coord
      reads this
    {
      if !IsTh(c) && hasHeader && Coord(0, c.col) in table then Coord(0, c.col) else c
    }

    /** The gutter cell of `c`'s row, which a row drag snaps to, if there is one. */
    function RowGutter(c: Coord): Coord
      reads this
    {
      if c.col != -1 && TdAt(table, hasHeader, Coord(c.row, -1)) then Coord(c.row, -1) else c
    }

    /**
     * `mousemove` over `target` during a drag (src/extension.ts:861-891):
     * the rectangle from the start cell, or every cell of the columns or rows
     * between the start and the target.
     */
    method MouseMove(target: Coord)
      requires Valid() && target in table
      modifies this
      ensures Valid()
      ensures old(drag).None? ==> selection == old(selection) && focus == old(focus) && drag == old(drag)
      ensures old(drag).Some? ==>
                var d := old(drag).value;
                var t := match d.mode
                         case CellMode => target
                         case ColumnMode => ColumnHead(target)
                         case RowMode => RowGutter(target);
                drag == Some(d.(end := t)) && focus == Focus(old(focus).anchor, Some(t)) &&
                selection == match d.mode
                             case CellMode => RectSelection(table, d.start, t)
                             case ColumnMode => ColumnRange(table, d.start.col, t.col)
                             case RowMode => RowRange(table, d.start.row, t.row)
      ensures table == old(table) && edit == old(edit) && sent == old(sent)
    {
      if drag.None? {
        return;
      }
      var d := drag.value;
      match d.mode {
        case CellMode =>
          selection := CollectRect(table, d.start, target);
          drag := Some(d.(end := target));
          focus := Focus(focus.anchor, Some(target));
        case ColumnMode =>
          var t := ColumnHead(target);
          drag := Some(d.(end := t));
          focus := Focus(focus.anchor, Some(t));
          selection := ColumnRange(table, d.start.col, t.col);
        case RowMode =>
          var t := RowGutter(target);
          drag := Some(d.(end := t));
          focus := Focus(focus.anchor, Some(t));
          selection := RowRange(table, d.start.row, t.row);
      }
    }

    /**
     * `mouseup` (src/extension.ts:892-912): ends the drag; a click that did
     * not move selects just its cell, and the start and end of the drag
     * become the anchor and the range end.
     */
    method MouseUp()
      requires Valid()
      modifies this
      ensures Valid()
      ensures old(drag).None? ==> selection == old(selection) && focus == old(focus)
      ensures old(drag).Some? ==>
                var d := old(drag).value;
                focus == Focus(Some(d.start), Some(d.end)) &&
                selection == match d.mode
                             case CellMode => if d.start == d.end then {At(d.start)} else old(selection)
                             case ColumnMode => ColumnRange(table, d.start.col, d.end.col)
                             case RowMode => RowRange(table, d.start.row, d.end.row)
      ensures drag == None
      ensures table == old(table) && edit == old(edit) && sent == old(sent)
    {
      if drag.None? {
        return;
      }
      var d := drag.value;
      drag := None;
      match d.mode {
        case CellMode =>
          if d.start == d.end {
            selection := {At(d.start)};
          }
        case ColumnMode =>
          selection := ColumnRange(table, d.start.col, d.end.col);
        case RowMode =>
          selection := RowRange(table, d.start.row, d.end.row);
      }
      focus := Focus(Some(d.start), Some(d.end));
    }

    /** Ctrl/Cmd+A outside edit mode selects every cell. */
    method SelectAll()
      requires Valid()
      modifies this
      ensures Valid()
      ensures old(edit).None? ==> selection == AllCells(table, hasCorner)
      ensures old(edit).Some? ==> selection == old(selection)
      ensures table == old(table) && focus == old(focus) && edit == old(edit) && drag == old(drag) && sent == old(sent)
    {
      if edit.None? {
        selection := AllCells(table, hasCorner);
      }
    }

    /**
     * Ctrl/Cmd+C with a selection (src/extension.ts:1151-1171): posts the
     * bounding box of the selected coordinates as comma-separated lines, with
     * trailing white space removed.
     */
    method Copy()
      requires Valid()
      modifies this
      ensures Valid()
      ensures Coords(old(selection)) == {} ==> sent == old(sent)
      ensures Coords(old(selection)) != {} ==>
                exists box :: Bounds(box, Coords(selection)) &&
                  sent == old(sent) + [CopyToClipboard(TrimEnd(Terminated(Lines(table, box, box.minRow))))]
      ensures table == old(table) && selection == old(selection) && focus == old(focus) &&
              edit == old(edit) && drag == old(drag)
    {
      var coords := Coords(selection);
      if selection == {} || coords == {} {
        return;
      }
      var box := BoundingBox(coords);
      var csv := CopyText(table, box);
      sent := sent + [CopyToClipboard(TrimEnd(csv))];
    }

    /**
     * An arrow key outside edit mode (src/extension.ts:1029-1075).  With
     * Shift, the range end moves and the rectangle from the fixed anchor is
     * selected; without, the anchor moves and becomes the only selected
     * cell.  A move to a negative row or column, or to no cell, is ignored.
     */
    method Arrow(d: Dir, shift: bool)
      requires Valid()
      modifies this
      ensures Valid()
      ensures var a := old(focus).anchor;
              var from := if shift && old(focus).rangeEnd.Some? then old(focus).rangeEnd.value else if a.Some? then a.value else Coord(0, 0);
              if old(edit).None? && a.Some? && ArrowTarget(table, from, d).Some? then
                var t := ArrowTarget(table, from, d).value;
                if shift then focus == Focus(a, Some(t)) && selection == RectSelection(table, a.value, t)
                else focus == Focus(Some(t), Some(t)) && selection == {At(t)}
              else focus == old(focus) && selection == old(selection)
      ensures table == old(table) && edit == old(edit) && drag == old(drag) && sent == old(sent)
    {
      if edit.Some? || focus.anchor.None? {
        return;
      }
      var a := focus.anchor.value;
      if shift {
        var from := if focus.rangeEnd.Some? then focus.rangeEnd.value else a;
        var next := ArrowTarget(table, from, d);
        if next.Some? {
          focus := Focus(focus.anchor, next);
          selection := CollectRect(table, a, next.value);
        }
      } else {
        var next := ArrowTarget(table, a, d);
        if next.Some? {
          selection := {At(next.value)};
          focus := Focus(next, next);
        }
      }
    }

    /**
     * Enter: outside edit mode with one selected cell, edits the anchor; in
     * edit mode, leaves the cell and edits the one below, if any
     * (src/extension.ts:1005-1012, 1082-1088).
     */
    method Enter()
      requires Valid()
      modifies this
      ensures Valid()
      ensures old(edit).None? && old(focus).anchor.Some? && |old(selection)| == 1 ==>
                edit == Some(Editing(old(focus).anchor.value, old(table)[old(focus).anchor.value])) && sent == old(sent)
      ensures old(edit).None? && !(old(focus).anchor.Some? && |old(selection)| == 1) ==>
                edit == None && sent == old(sent)
      ensures old(edit).Some? ==>
                var c := old(edit).value.cell;
                sent == old(sent) + [EditCell(c.row, c.col, old(table)[c])] &&
                edit == match EnterTarget(table, hasHeader, c)
                        case Some(t) => Some(Editing(t, table[t]))
                        case None => None
      ensures table == old(table) && selection == old(selection) && focus == old(focus) && drag == old(drag)
    {
      if edit.None? {
        if focus.anchor.Some? && |selection| == 1 {
          OpenEditor(focus.anchor.value);
        }
        return;
      }
      var c := edit.value.cell;
      Blur();
      var next := EnterTarget(table, hasHeader, c);
      if next.Some? {
        OpenEditor(next.value);
      }
    }

    /**
     * A printable key outside edit mode with one selected cell: edits the
     * anchor with its text replaced by the key (src/extension.ts:1013-1026).
     */
    method TypeKey(ch: char)
      requires Valid()
      modifies this
      ensures Valid()
      ensures old(edit).None? && old(focus).anchor.Some? && |old(selection)| == 1 ==>
                var a := old(focus).anchor.value;
                edit == Some(Editing(a, old(table)[a])) && table == old(table)[a := [ch]]
      ensures !(old(edit).None? && old(focus).anchor.Some? && |old(selection)| == 1) ==>
                edit == old(edit) && table == old(table)
      ensures selection == old(selection) && focus == old(focus) && drag == old(drag) && sent == old(sent)
    {
      if edit.None? && focus.anchor.Some? && |selection| == 1 {
        var a := focus.anchor.value;
        OpenEditor(a);
        table := table[a := [ch]];
      }
    }

    /**
     * Tab in edit mode: leaves the cell and edits its right neighbour, or its
     * left one with Shift, never a gutter cell (src/extension.ts:1089-1102).
     */
    method Tab(shift: bool)
      requires Valid()
      modifies this
      ensures Valid()
      ensures old(edit).None? ==> edit == None && sent == old(sent)
      ensures old(edit).Some? ==>
                var c := old(edit).value.cell;
                sent == old(sent) + [EditCell(c.row, c.col, old(table)[c])] &&
                edit == match TabTarget(table, hasHeader, c, shift)
                        case Some(t) => Some(Editing(t, table[t]))
                        case None => None
      ensures edit.Some? ==> edit.value.cell.col >= 0 || edit == old(edit)
      ensures table == old(table) && selection == old(selection) && focus == old(focus) && drag == old(drag)
    {
      if edit.None? {
        return;
      }
      var c := edit.value.cell;
      Blur();
      var next := TabTarget(table, hasHeader, c, shift);
      if next.Some? {
        OpenEditor(next.value);
      }
    }

    /**
     * Escape: in edit mode, restores the cell's original text and leaves
     * the cell, which posts that text; in either mode the selection is then
     * cleared (src/extension.ts:1103-1108).
     */
    method Escape()
      requires Valid()
      modifies this
      ensures Valid()
      ensures old(edit).Some? ==>
                var e := old(edit).value;
                table == old(table)[e.cell := e.original] &&
                sent == old(sent) + [EditCell(e.cell.row, e.cell.col, e.original)]
      ensures old(edit).None? ==> table == old(table) && sent == old(sent)
      ensures edit == None && selection == {}
      ensures focus == old(focus) && drag == old(drag)
    {
      if edit.Some? {
        table := table[edit.value.cell := edit.value.original];
        Blur();
      }
      selection := {};
    }

    /** Ctrl/Cmd+S in edit mode: leaves the cell, which posts its text, then asks the host to save. */
    method SaveKey()
      requires Valid()
      modifies this
      ensures Valid()
      ensures old(edit).Some? ==>
                var c := old(edit).value.cell;
                sent == old(sent) + [EditCell(c.row, c.col, old(table)[c]), Save]
      ensures old(edit).None? ==> sent == old(sent)
      ensures edit == None
      ensures table == old(table) && selection == old(selection) && focus == old(focus) && drag == old(drag)
    {
      if edit.Some? {
        Blur();
        sent := sent + [Save];
      }
    }

    /** A double click leaves edit mode and clears the selection (src/extension.ts:1142-1150). */
    method DoubleClick()
      requires Valid()
      modifies this
      ensures Valid()
      ensures old(edit).Some? ==>
                var c := old(edit).value.cell;
                sent == old(sent) + [EditCell(c.row, c.col, old(table)[c])]
      ensures old(edit).None? ==> sent == old(sent)
      ensures edit == None && selection == {}
      ensures table == old(table) && focus == old(focus) && drag == old(drag)
    {
      Blur();
      selection := {};
    }

    /** The host's `updateCell` message sets the text of a rendered `td` (src/extension.ts:1172-1183). */
    method UpdateCell(row: int, col: int, value: string)
      requires Valid()
      modifies this
      ensures Valid()
      ensures TdAt(old(table), hasHeader, Coord(row, col)) ==> table == old(table)[Coord(row, col) := value]
      ensures !TdAt(old(table), hasHeader, Coord(row, col)) ==> table == old(table)
      ensures selection == old(selection) && focus == old(focus) && edit == old(edit) &&
              drag == old(drag) && sent == old(sent)
    {
      if TdAt(table, hasHeader, Coord(row, col)) {
        table := table[Coord(row, col) := value];
      }
    }
  }
}
