/**
 * The virtual-scroll support of `generateHtmlContent` (src/extension.ts:481-524)
 * and the webview's chunk loader (src/extension.ts:715-738).  When there are
 * more than 1000 rows, the first 1000 are rendered at once and the rest are
 * handed to the webview as chunks of at most 1000 rows, which it appends to
 * the table one at a time as the user scrolls.
 *
 * Every rendered body row carries two numbers: its `data-row` attribute,
 * which the webview sends back to the host in edit and row commands, and
 * the label shown in the serial-number column.  The markup around them is
 * not part of this model.
 */
module VirtualFeed {
  import opened JsStrings
  import opened Grid

  const ChunkSize: nat := 1000

  /** The grid to render and whether its first row is a header. */
  datatype Sheet = Sheet(data: Grid, treatHeader: bool)

  /**
   * An empty grid is rendered as one row holding one empty cell, without a
   * header, so that there is always a cell to edit (src/extension.ts:482-486).
   */
  function Prepare(data: Grid, treatHeader: bool): (s: Sheet)
    ensures |s.data| > 0
    ensures |data| > 0 ==> s == Sheet(data, treatHeader)
    ensures |data| == 0 ==> s.data == [[""]] && !s.treatHeader
  {
    if |data| == 0 then Sheet([[""]], false) else Sheet(data, treatHeader)
  }

  /** The rows rendered in the table body. */
  function BodyRows(s: Sheet): seq<Row>
  {
    if s.treatHeader && |s.data| > 0 then s.data[1..] else s.data
  }

  /** The rows of consecutive chunks, in order. */
  function RowsOf(chunks: seq<seq<Row>>): seq<Row>
  {
    if chunks == [] then [] else chunks[0] + RowsOf(chunks[1..])
  }

  /** The chunks the loop cuts from `rows`, starting at position `i`. */
  function ChunksFrom(rows: seq<Row>, i: nat): (r: seq<seq<Row>>)
    ensures forall k :: 0 <= k < |r| ==> 0 < |r[k]| <= ChunkSize
    decreases |rows| - i
  {
    if i >= |rows| then []
    else [rows[i..Min(i + ChunkSize, |rows|)]] + ChunksFrom(rows, i + ChunkSize)
  }

  /**
   * The partition of the body rows: the rows rendered at once, and the chunks
   * kept for later.  With at most 1000 rows there are no chunks.
   */
  method Partition(allRows: seq<Row>) returns (eager: seq<Row>, chunks: seq<seq<Row>>)
    ensures eager == allRows[..Min(|allRows|, ChunkSize)]
    ensures chunks == if |allRows| > ChunkSize then ChunksFrom(allRows, ChunkSize) else []
    ensures eager + RowsOf(chunks) == allRows
    ensures forall k :: 0 <= k < |chunks| ==> 0 < |chunks[k]| <= ChunkSize
  {
    chunks := [];
    if |allRows| > ChunkSize {
      var i := ChunkSize;
      while i < |allRows|
        invariant ChunkSize <= i
        invariant chunks + ChunksFrom(allRows, i) == ChunksFrom(allRows, ChunkSize)
        decreases |allRows| - i
      {
        chunks := chunks + [allRows[i..Min(i + ChunkSize, |allRows|)]];
        i := i + ChunkSize;
      }
      eager := allRows[..ChunkSize];
      ChunksCover(allRows, ChunkSize);
      assert allRows == allRows[..ChunkSize] + allRows[ChunkSize..];
    } else {
      eager := allRows;
      assert allRows[..|allRows|] == allRows;
    }
  }

  /** The chunks from position `i` hold exactly the rows from `i` on. */
  lemma {:induction false} ChunksCover(rows: seq<Row>, i: nat)
    requires i <= |rows|
    ensures RowsOf(ChunksFrom(rows, i)) == rows[i..]
    decreases |rows| - i
  {
    if i < |rows| {
      var j := Min(i + ChunkSize, |rows|);
      ChunksCover(rows, j);
      if j < i + ChunkSize {
        assert ChunksFrom(rows, i + ChunkSize) == [];
        assert ChunksFrom(rows, j) == [];
      }
      assert ChunksFrom(rows, i)[1..] == ChunksFrom(rows, i + ChunkSize);
      assert rows[i..] == rows[i..j] + rows[j..];
    }
  }

  /** Chunk `k` holds the rows that start `k` chunks after position `i`. */
  lemma {:induction false} ChunkHolds(rows: seq<Row>, i: nat, k: nat)
    requires k < |ChunksFrom(rows, i)|
    ensures i + k * ChunkSize < |rows|
    ensures ChunksFrom(rows, i)[k] == rows[i + k * ChunkSize..Min(i + k * ChunkSize + ChunkSize, |rows|)]
    decreases k
  {
    if k > 0 {
      ChunkHolds(rows, i + ChunkSize, k - 1);
      assert i + ChunkSize + (k - 1) * ChunkSize == i + k * ChunkSize;
    }
  }

  // ------------------------------------------------------------ row numbers

  /** The `data-row` attribute of a rendered body row and the label in its serial-number cell. */
  datatype RowTag = RowTag(dataRow: nat, serial: nat)

  /** Row `r` of the rows rendered at once (src/extension.ts:539-565). */
  function EagerTag(r: nat, treatHeader: bool): RowTag
  {
    RowTag(if treatHeader then r + 1 else r, r + 1)
  }

  /** `absRow`: row `localR` of the chunk that starts at position `i` (src/extension.ts:504). */
  function AbsRow(i: nat, localR: nat, treatHeader: bool): nat
  {
    if treatHeader then i + localR + 1 else i + localR
  }

  /** A row of a chunk as the source tags it: `absRow` is both its attribute and its label (src/extension.ts:503-514). */
  function LazyTagAsWritten(i: nat, localR: nat, treatHeader: bool): RowTag
  {
    RowTag(AbsRow(i, localR, treatHeader), AbsRow(i, localR, treatHeader))
  }

  /** A row of a chunk with the label the rows rendered at once use: its position counted from one. */
  function LazyTag(i: nat, localR: nat, treatHeader: bool): RowTag
  {
    RowTag(AbsRow(i, localR, treatHeader), i + localR + 1)
  }

  /** The start of the chunk that holds body position `p` (at least one chunk in). */
  function ChunkStart(p: nat): nat
  {
    p / ChunkSize * ChunkSize
  }

  function TagAsWritten(p: nat, treatHeader: bool): RowTag
  {
    if p < ChunkSize then EagerTag(p, treatHeader)
    else LazyTagAsWritten(ChunkStart(p), p - ChunkStart(p), treatHeader)
  }

  /** The tag of the body row at position `p`. */
  function Tag(p: nat, treatHeader: bool): RowTag
  {
    if p < ChunkSize then EagerTag(p, treatHeader)
    else LazyTag(ChunkStart(p), p - ChunkStart(p), treatHeader)
  }

  lemma ChunkStartBounds(p: nat)
    ensures ChunkStart(p) <= p < ChunkStart(p) + ChunkSize
  {
  }

  /**
   * Eager or lazy, a row's `data-row` attribute is the index in the grid of
   * the row it shows, which is what the host's edit and row commands expect.
   */
  lemma TagAddressesRow(s: Sheet, p: nat)
    requires p < |BodyRows(s)|
    ensures Tag(p, s.treatHeader).dataRow < |s.data|
    ensures s.data[Tag(p, s.treatHeader).dataRow] == BodyRows(s)[p]
    ensures TagAsWritten(p, s.treatHeader).dataRow == Tag(p, s.treatHeader).dataRow
  {
    ChunkStartBounds(p);
  }

  /** The labels count the body rows from one, across the chunk boundaries. */
  lemma TagLabels(p: nat, treatHeader: bool)
    ensures Tag(p, treatHeader).serial == p + 1
  {
    ChunkStartBounds(p);
  }

  /** Different body rows carry different labels. */
  lemma LabelsDistinct(p: nat, q: nat, treatHeader: bool)
    requires p != q
    ensures Tag(p, treatHeader).serial != Tag(q, treatHeader).serial
  {
    TagLabels(p, treatHeader);
    TagLabels(q, treatHeader);
  }

  /** With a header, the source's labels are the intended ones. */
  lemma HeaderTagsAsWritten(p: nat)
    ensures TagAsWritten(p, true) == Tag(p, true)
  {
    ChunkStartBounds(p);
  }

  /**
   * Without a header, the source labels the first row of the first chunk
   * `1000`, the label the last row rendered at once already shows.
   */
  lemma LabelRepeatsAsWritten()
    ensures TagAsWritten(999, false).serial == 1000
    ensures TagAsWritten(1000, false).serial == 1000
    ensures TagAsWritten(1000, false).serial != Tag(1000, false).serial
  {
    assert ChunkStart(1000) == 1000;
  }

  /** A row of chunk `k` is body row `(k + 1) * 1000 + localR`, tagged by its `absRow`. */
  lemma ChunkRowTag(rows: seq<Row>, k: nat, localR: nat, treatHeader: bool)
    requires k < |ChunksFrom(rows, ChunkSize)|
    requires localR < |ChunksFrom(rows, ChunkSize)[k]|
    ensures (k + 1) * ChunkSize + localR < |rows|
    ensures ChunksFrom(rows, ChunkSize)[k][localR] == rows[(k + 1) * ChunkSize + localR]
    ensures Tag((k + 1) * ChunkSize + localR, treatHeader).dataRow == AbsRow((k + 1) * ChunkSize, localR, treatHeader)
  {
    ChunkHolds(rows, ChunkSize, k);
    var p := (k + 1) * ChunkSize + localR;
    assert localR < ChunkSize;
    assert p / ChunkSize == k + 1;
    assert ChunkStart(p) == (k + 1) * ChunkSize;
  }

  // ------------------------------------------------------------- the loader

  /**
   * The webview's table body and its queue of chunks not yet shown
   * (`csvChunks`).  Each chunk is represented by its rows.
   */
  class ChunkFeed {
    var shown: seq<Row>
    var pending: seq<seq<Row>>

    /** The rows the table holds once every chunk is shown. */
    function Rows(): seq<Row>
      reads this
    {
      shown + RowsOf(pending)
    }

    constructor(eager: seq<Row>, chunks: seq<seq<Row>>)
      ensures shown == eager && pending == chunks
    {
      shown := eager;
      pending := chunks;
    }

    /**
     * `loadNextChunk`: appends the first pending chunk to the table and drops
     * it from the queue; does nothing once the queue is empty.
     */
    method LoadNextChunk()
      modifies this
      ensures old(pending) == [] ==> shown == old(shown) && pending == []
      ensures old(pending) != [] ==> shown == old(shown) + old(pending)[0] && pending == old(pending)[1..]
      ensures Rows() == old(Rows())
    {
      if pending == [] {
        return;
      }
      shown := shown + pending[0];
      pending := pending[1..];
    }
  }
}
