/**
 * `updateDocument`: the host's handling of one edited cell.  It first tries
 * a targeted edit that replaces only the characters of the old cell in its
 * line, and rebuilds the whole grid when that edit is impossible or the host
 * rejects it.
 *
 * The separator is always a tab (`getSeparator`, src/extension.ts:1214-1216).
 * Whether the host accepts an edit is a parameter, and so is the grid the
 * CSV library parses from the text.
 */
module CellEdit {
  import opened JsStrings
  import opened Grid
  import opened Wrappers

  const Separator: char := '\t'

  /** One line without its `\r` of a `\r\n` line end. */
  function DropCR(s: string): string
  {
    if |s| > 0 && s[|s| - 1] == '\r' then s[..|s| - 1] else s
  }

  /** `text.split(/\r?\n/)`: lines end at `\n`, and a `\r` right before it belongs to the line end. */
  function SplitLines(text: string): (r: seq<string>)
    ensures |r| == |Split(text, '\n')|
    ensures forall i :: 0 <= i < |r| - 1 ==> r[i] == DropCR(Split(text, '\n')[i])
    ensures r[|r| - 1] == Split(text, '\n')[|r| - 1]
  {
    var p := Split(text, '\n');
    seq(|p|, i requires 0 <= i < |p| => if i < |p| - 1 then DropCR(p[i]) else p[i])
  }

  /** Without carriage returns, the lines joined by `\n` give back the text, and no line holds a `\n`. */
  lemma SplitLinesJoin(text: string)
    requires NoneIs(text, '\r')
    ensures Join(SplitLines(text), '\n') == text
    ensures forall i :: 0 <= i < |SplitLines(text)| ==> NoneIs(SplitLines(text)[i], '\n')
  {
    var p := Split(text, '\n');
    SplitPiecesClean(text, '\n');
    JoinSplit(text, '\n');
    forall i | 0 <= i < |p|
      ensures NoneIs(p[i], '\r')
    {
      SplitPieceIn(text, '\n', i);
    }
    assert SplitLines(text) == p;
  }

  /** Every character of a piece of a split occurs in the split text. */
  lemma {:induction false} SplitPieceIn(s: string, sep: char, k: nat)
    requires k < |Split(s, sep)|
    ensures forall j :: 0 <= j < |Split(s, sep)[k]| ==> Split(s, sep)[k][j] in s
    decreases |s|
  {
    if s != [] {
      var rest := Split(s[1..], sep);
      if s[0] == sep {
        if k > 0 {
          SplitPieceIn(s[1..], sep, k - 1);
        }
      } else {
        SplitPieceIn(s[1..], sep, if k == 0 then 0 else k);
        forall j | 0 <= j < |Split(s, sep)[k]|
          ensures Split(s, sep)[k][j] in s
        {
          if k == 0 && j > 0 {
            assert Split(s, sep)[k][j] == rest[0][j - 1];
          } else if k > 0 {
            assert Split(s, sep)[k] == rest[k];
          }
        }
      }
    }
  }

  // ------------------------------------------------------------ the offset

  /** `startColOffset`: the lengths of the cells before `col`, each with its separator. */
  function Offset(cells: seq<string>, col: nat): nat
    requires col <= |cells|
  {
    if col == 0 then 0 else Offset(cells, col - 1) + |cells[col - 1]| + 1
  }

  /** The text of a joined line in front of cell `col`. */
  function Lead(cells: seq<string>, col: nat): (r: string)
    requires col <= |cells|
    ensures |r| == Offset(cells, col)
  {
    if col == 0 then "" else Lead(cells, col - 1) + cells[col - 1] + [Separator]
  }

  /** The text of a joined line after cell `col`. */
  function Trail(cells: seq<string>, col: nat): string
    requires col < |cells|
  {
    if col == |cells| - 1 then "" else [Separator] + Join(cells[col + 1..], Separator)
  }

  /** A joined line is the text in front of a cell, the cell, and the text after it. */
  lemma {:induction false} JoinAt(cells: seq<string>, col: nat)
    requires col < |cells|
    ensures Join(cells, Separator) == Lead(cells, col) + cells[col] + Trail(cells, col)
    decreases col
  {
    if col > 0 {
      JoinAt(cells, col - 1);
      var tail := cells[col..];
      assert cells[col - 1 + 1..] == tail;
      assert tail[0] == cells[col];
      if |tail| > 1 {
        assert tail[1..] == cells[col + 1..];
      }
    }
  }

  /** Changing cell `col` changes neither the text in front of it nor the text after it. */
  lemma {:induction false} LeadUnchanged(cells: seq<string>, col: nat, k: nat, v: string)
    requires col <= k < |cells|
    ensures Lead(cells[k := v], col) == Lead(cells, col)
    decreases col
  {
    if col > 0 {
      LeadUnchanged(cells, col - 1, k, v);
    }
  }

  lemma TrailUnchanged(cells: seq<string>, col: nat, v: string)
    requires col < |cells|
    ensures Trail(cells[col := v], col) == Trail(cells, col)
  {
    assert cells[col := v][col + 1..] == cells[col + 1..];
  }

  /**
   * The targeted edit replaces exactly the old cell: the span the offset
   * names holds `cells[col]`, and replacing it by `value` gives the line the
   * cells would join to with the new value in place.
   */
  lemma SpanReplace(line: string, col: nat, value: string)
    requires col < |Split(line, Separator)|
    ensures var cells := Split(line, Separator);
            var off := Offset(cells, col);
            off + |cells[col]| <= |line| &&
            line[off..off + |cells[col]|] == cells[col] &&
            line[..off] + value + line[off + |cells[col]|..] == Join(cells[col := value], Separator)
  {
    var cells := Split(line, Separator);
    var lead := Lead(cells, col);
    var trail := Trail(cells, col);
    JoinSplit(line, Separator);
    JoinAt(cells, col);
    JoinAt(cells[col := value], col);
    LeadUnchanged(cells, col, col, value);
    TrailUnchanged(cells, col, value);
    assert line == lead + cells[col] + trail;
    ThreeParts(lead, cells[col], trail);
  }

  /** The three parts of a concatenation are its slices. */
  lemma ThreeParts(a: string, b: string, c: string)
    ensures var s := a + b + c;
            s[..|a|] == a && s[|a|..|a| + |b|] == b && s[|a| + |b|..] == c
  {
  }

  /** With a value free of tabs, the edited line splits into the old cells with the one cell replaced. */
  lemma SpanReplaceResplits(line: string, col: nat, value: string)
    requires col < |Split(line, Separator)|
    requires NoneIs(value, Separator)
    ensures var cells := Split(line, Separator);
            var off := Offset(cells, col);
            off + |cells[col]| <= |line| &&
            Split(line[..off] + value + line[off + |cells[col]|..], Separator) == cells[col := value]
  {
    var cells := Split(line, Separator);
    SpanReplace(line, col, value);
    SplitPiecesClean(line, Separator);
    SplitJoin(cells[col := value], Separator);
  }

  // ---------------------------------------------------------- the command

  /** A range inside one line of the document. */
  datatype Span = Span(line: nat, start: nat, end: nat)

  /**
   * What `updateDocument` asks the host to do.  `Throws` is the `TypeError`
   * the source raises for a negative row or column: it reads `lines[-1]` or
   * `cells[-1]`, which are `undefined`.
   */
  datatype Outcome = Patch(span: Span, value: string) | Rebuild(data: Grid) | Throws

  /**
   * The targeted edit's range (src/extension.ts:237-251), `None` when the
   * row or column is past the end of the text.
   */
  method TargetSpan(text: string, row: nat, col: nat) returns (r: Option<Span>)
    ensures r == TargetOf(text, row, col)
  {
    var lines := SplitLines(text);
    if row >= |lines| {
      return None;
    }
    var line := lines[row];
    var cells := Split(line, Separator);
    if col >= |cells| {
      return None;
    }
    var startColOffset := StartColOffset(cells, col);
    r := Some(Span(row, startColOffset, startColOffset + |cells[col]|));
  }

  /** The offset loop (src/extension.ts:244-247): the cells before `col`, each with its separator. */
  method StartColOffset(cells: seq<string>, col: nat) returns (off: nat)
    requires col < |cells|
    ensures off == Offset(cells, col)
    ensures off == |Lead(cells, col)|
  {
    off := 0;
    var i := 0;
    while i < col
      invariant 0 <= i <= col
      invariant off == Offset(cells, i)
    {
      off := off + |cells[i]| + 1;
      i := i + 1;
    }
  }

  /** The targeted range exists exactly for an existing cell, and then it covers that cell in its line. */
  lemma TargetOfSpan(text: string, row: nat, col: nat)
    ensures var r := TargetOf(text, row, col);
            (r.None? <==> row >= |SplitLines(text)| || col >= |Split(SplitLines(text)[row], Separator)|) &&
            (r.Some? ==>
              var line := SplitLines(text)[row];
              var cells := Split(line, Separator);
              r.value.line == row && r.value.start <= r.value.end <= |line| &&
              line[r.value.start..r.value.end] == cells[col] &&
              r.value.start == |Lead(cells, col)|)
  {
    var lines := SplitLines(text);
    if row < |lines| && col < |Split(lines[row], Separator)| {
      SpanReplace(lines[row], col, "");
    }
  }

  /**
   * `updateDocument` with the webview's numbers as they arrive: a targeted
   * patch when the cell exists and the host accepts it, otherwise the parsed
   * grid grown and assigned (src/extension.ts:233-279).  A negative row, or a
   * negative column in an existing line, throws before any edit; a negative
   * column past the last line reaches the rebuild, whose assignment to
   * `data[row][-1]` is not an array element and is lost when the grid is
   * serialised.
   */
  method UpdateDocument(text: string, parsed: Grid, row: int, col: int, value: string, accepted: bool)
    returns (out: Outcome)
    ensures row < 0 ==> out == Throws
    ensures row >= 0 && col < 0 ==>
              out == if row < |SplitLines(text)| then Throws else Rebuild(Grown(parsed, row))
    ensures row >= 0 && col >= 0 ==>
              out == if accepted && TargetOf(text, row, col).Some?
                     then Patch(TargetOf(text, row, col).value, value)
                     else Rebuild(SetCell(parsed, row, col, value))
  {
    if row < 0 {
      return Throws;
    }
    var lines := SplitLines(text);
    if col < 0 {
      if row < |lines| {
        return Throws;
      }
      var data := GrowRows(parsed, row);
      return Rebuild(data);
    }
    var target := TargetSpan(text, row, col);
    if target.Some? && accepted {
      return Patch(target.value, value);
    }
    var data := GrowAndAssign(parsed, row, col, value);
    return Rebuild(data);
  }

  /**
   * The targeted edit's range: the offset of cell `col` in line `row` and
   * its end, `None` when the row, the column or the cell does not exist.
   */
  function TargetOf(text: string, row: int, col: int): Option<Span>
  {
    var lines := SplitLines(text);
    if row < 0 || col < 0 || row >= |lines| then None
    else
      var cells := Split(lines[row], Separator);
      if col >= |cells| then None
      else Some(Span(row, Offset(cells, col), Offset(cells, col) + |cells[col]|))
  }
}
