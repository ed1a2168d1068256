/**
 * `sortColumn`: the rows below the optional header are sorted by the cells
 * of one column with JavaScript's (stable) `Array.prototype.sort`.
 *
 * The comparator the source builds (`parseFloat` on both keys, numeric
 * difference when both parse, `localeCompare` otherwise) is floating-point
 * and locale dependent, so it is a parameter here.  The sort itself is
 * modelled as a stable insertion sort: for a comparator that is a consistent
 * total preorder, every stable sort produces this same sequence.
 */
module SortColumn {
  import opened Grid

  /** What the sort is asked to do: the comparator on keys, the column and the direction. */
  datatype Order = Order(cmp: (string, string) -> int, index: nat, ascending: bool)

  /** The key of a row: its cell in the sorted column, `''` for a row too short to have one. */
  function Key(row: Row, index: nat): string
  {
    if index < |row| then row[index] else ""
  }

  /** The row comparator handed to `sort`: the key comparison, negated when descending. */
  function Diff(o: Order, a: Row, b: Row): int
  {
    var d := o.cmp(Key(a, o.index), Key(b, o.index));
    if o.ascending then d else -d
  }

  /** `a` may stay in front of `b`. */
  predicate Le(o: Order, a: Row, b: Row)
  {
    Diff(o, a, b) <= 0
  }

  /** `x` placed in front of the first row it may precede. */
  function Insert(o: Order, x: Row, s: seq<Row>): (r: seq<Row>)
    ensures |r| == |s| + 1
    ensures multiset(r) == multiset(s) + multiset{x}
  {
    if s == [] then [x]
    else if Le(o, x, s[0]) then [x] + s
    else
      assert s == [s[0]] + s[1..];
      [s[0]] + Insert(o, x, s[1..])
  }

  /** Stable insertion sort of `s`. */
  function Sort(o: Order, s: seq<Row>): (r: seq<Row>)
    ensures |r| == |s|
    ensures multiset(r) == multiset(s)
  {
    if s == [] then []
    else
      assert s == [s[0]] + s[1..];
      Insert(o, s[0], Sort(o, s[1..]))
  }

  /**
   * The rows `sortColumn` writes back (src/extension.ts:348-384).  With the
   * header flag set, the first row stays in front of its sorted body; the
   * source builds `[header, ...body]` even from no rows, which yields one
   * empty row.
   */
  function SortRows(o: Order, rows: seq<Row>, treatHeader: bool): (r: seq<Row>)
    ensures treatHeader && |rows| > 0 ==>
              |r| == |rows| && r[0] == rows[0] && multiset(r[1..]) == multiset(rows[1..])
    ensures treatHeader && |rows| == 0 ==> r == [[]]
    ensures !treatHeader ==> multiset(r) == multiset(rows)
  {
    if !treatHeader then Sort(o, rows)
    else if |rows| == 0 then [[]]
    else
      var r := [rows[0]] + Sort(o, rows[1..]);
      assert r[1..] == Sort(o, rows[1..]);
      r
  }

  // ------------------------------------------------------------- ordering

  /** A comparator whose sign is antisymmetric and whose "not after" is transitive. */
  ghost predicate Consistent(cmp: (string, string) -> int)
  {
    (forall a, b :: cmp(a, b) <= 0 <==> cmp(b, a) >= 0) &&
    (forall a, b, c {:trigger cmp(a, b), cmp(b, c), cmp(a, c)} ::
       cmp(a, b) <= 0 && cmp(b, c) <= 0 ==> cmp(a, c) <= 0)
  }

  /**
   * A strict cycle among three keys makes a comparator inconsistent.  The
   * source's comparator has one on a column that mixes numbers with other
   * text: `.6` before `.x` and `.x` before `0.5` by `localeCompare`, but
   * `0.5` before `.6` numerically.
   */
  lemma {:induction false} CycleInconsistent(cmp: (string, string) -> int, a: string, b: string, c: string)
    requires cmp(a, b) < 0 && cmp(b, c) < 0 && cmp(c, a) < 0
    ensures !Consistent(cmp)
  {
    if Consistent(cmp) {
      assert false;
    }
  }

  ghost predicate Sorted(o: Order, s: seq<Row>)
  {
    forall i, j :: 0 <= i < j < |s| ==> Le(o, s[i], s[j])
  }

  /** A consistent comparator orders rows totally and transitively in both directions. */
  lemma RowOrder(o: Order)
    requires Consistent(o.cmp)
    ensures forall a, b :: Le(o, a, b) || Le(o, b, a)
    ensures forall a, b, c :: Le(o, a, b) && Le(o, b, c) ==> Le(o, a, c)
  {
    forall a: Row, b: Row
      ensures Le(o, a, b) || Le(o, b, a)
    {
      var ka, kb := Key(a, o.index), Key(b, o.index);
      assert o.cmp(ka, kb) <= 0 <==> o.cmp(kb, ka) >= 0;
      assert o.cmp(kb, ka) <= 0 <==> o.cmp(ka, kb) >= 0;
    }
    forall a: Row, b: Row, c: Row | Le(o, a, b) && Le(o, b, c)
      ensures Le(o, a, c)
    {
      var ka, kb, kc := Key(a, o.index), Key(b, o.index), Key(c, o.index);
      if o.ascending {
        assert o.cmp(ka, kb) <= 0 && o.cmp(kb, kc) <= 0;
      } else {
        assert o.cmp(ka, kb) >= 0 && o.cmp(kb, kc) >= 0;
        assert o.cmp(kb, ka) <= 0 && o.cmp(kc, kb) <= 0;
        assert o.cmp(kc, ka) <= 0;
      }
    }
  }

  lemma {:induction false} InsertSorted(o: Order, x: Row, s: seq<Row>)
    requires Consistent(o.cmp)
    requires Sorted(o, s)
    ensures Sorted(o, Insert(o, x, s))
    decreases |s|
  {
    if s != [] && !Le(o, x, s[0]) {
      InsertSorted(o, x, s[1..]);
      HeadBeforeInserted(o, x, s);
      SortedCons(o, s[0], Insert(o, x, s[1..]));
    }
  }

  /** The head of a sorted sequence that `x` may not precede may precede every row after `x` goes in behind it. */
  lemma HeadBeforeInserted(o: Order, x: Row, s: seq<Row>)
    requires Consistent(o.cmp)
    requires Sorted(o, s)
    requires s != [] && !Le(o, x, s[0])
    ensures forall j :: 0 <= j < |Insert(o, x, s[1..])| ==> Le(o, s[0], Insert(o, x, s[1..])[j])
  {
    RowOrder(o);
    var t := Insert(o, x, s[1..]);
    forall j | 0 <= j < |t|
      ensures Le(o, s[0], t[j])
    {
      assert t[j] in multiset(t);
      if t[j] != x {
        assert t[j] in multiset(s[1..]);
        var k :| 0 <= k < |s[1..]| && s[1..][k] == t[j];
        assert s[k + 1] == t[j];
      }
    }
  }

  /** A row that may precede every row of a sorted sequence can go in front of it. */
  lemma SortedCons(o: Order, h: Row, t: seq<Row>)
    requires Sorted(o, t)
    requires forall j :: 0 <= j < |t| ==> Le(o, h, t[j])
    ensures Sorted(o, [h] + t)
  {
    var r := [h] + t;
    forall i, j | 0 <= i < j < |r|
      ensures Le(o, r[i], r[j])
    {
      if i > 0 {
        assert r[i] == t[i - 1] && r[j] == t[j - 1];
      }
    }
  }


  /** With a consistent comparator the sorted rows are in order. */
  lemma {:induction false} SortSorted(o: Order, s: seq<Row>)
    requires Consistent(o.cmp)
    ensures Sorted(o, Sort(o, s))
    decreases |s|
  {
    if s != [] {
      SortSorted(o, s[1..]);
      InsertSorted(o, s[0], Sort(o, s[1..]));
    }
  }

  /** Rows already in order are left as they are. */
  lemma {:induction false} SortKeepsSorted(o: Order, s: seq<Row>)
    requires Sorted(o, s)
    ensures Sort(o, s) == s
    decreases |s|
  {
    if s != [] {
      assert Sorted(o, s[1..]) by {
        forall i, j | 0 <= i < j < |s[1..]|
          ensures Le(o, s[1..][i], s[1..][j])
        {
          assert s[1..][i] == s[i + 1] && s[1..][j] == s[j + 1];
        }
      }
      SortKeepsSorted(o, s[1..]);
      assert s == [s[0]] + s[1..];
    }
  }

  /** Sorting the same column twice in the same direction changes nothing the second time. */
  lemma SortIdempotent(o: Order, s: seq<Row>)
    requires Consistent(o.cmp)
    ensures Sort(o, Sort(o, s)) == Sort(o, s)
  {
    SortSorted(o, s);
    SortKeepsSorted(o, Sort(o, s));
  }

  /** Running `sortColumn` twice on the same column, direction and header flag changes nothing the second time. */
  lemma SortRowsIdempotent(o: Order, rows: seq<Row>, treatHeader: bool)
    requires Consistent(o.cmp)
    ensures SortRows(o, SortRows(o, rows, treatHeader), treatHeader) == SortRows(o, rows, treatHeader)
  {
    if !treatHeader {
      SortIdempotent(o, rows);
    } else if |rows| > 0 {
      var r := SortRows(o, rows, treatHeader);
      assert r[1..] == Sort(o, rows[1..]);
      SortIdempotent(o, rows[1..]);
      assert [r[0]] + Sort(o, r[1..]) == r;
    }
  }

  // ------------------------------------------------------------ stability

  /** `[a]` when `a` compares equal to `k`, otherwise nothing. */
  function Tie(o: Order, k: Row, a: Row): seq<Row>
  {
    if Le(o, a, k) && Le(o, k, a) then [a] else []
  }

  /** The rows of `s` that compare equal to `k`, in their order in `s`. */
  function Ties(o: Order, k: Row, s: seq<Row>): seq<Row>
  {
    if s == [] then [] else Tie(o, k, s[0]) + Ties(o, k, s[1..])
  }

  /** One instance of transitivity, to keep quantifiers out of the larger proofs. */
  lemma LeTrans(o: Order, a: Row, b: Row, c: Row)
    requires Consistent(o.cmp)
    requires Le(o, a, b) && Le(o, b, c)
    ensures Le(o, a, c)
  {
    RowOrder(o);
  }

  /** A row that may not precede `y` is never tied with `k` together with `y`, so their ties commute. */
  lemma TieSwap(o: Order, k: Row, x: Row, y: Row)
    requires Consistent(o.cmp)
    requires !Le(o, x, y)
    ensures Tie(o, k, y) + Tie(o, k, x) == Tie(o, k, x) + Tie(o, k, y)
  {
    if Le(o, x, k) && Le(o, k, y) {
      LeTrans(o, x, k, y);
    }
  }

  lemma {:induction false} InsertTies(o: Order, k: Row, x: Row, s: seq<Row>)
    requires Consistent(o.cmp)
    ensures Ties(o, k, Insert(o, x, s)) == Tie(o, k, x) + Ties(o, k, s)
    decreases |s|
  {
    var r := Insert(o, x, s);
    if s == [] {
    } else if Le(o, x, s[0]) {
      assert r[1..] == s;
    } else {
      InsertTies(o, k, x, s[1..]);
      TieSwap(o, k, x, s[0]);
      TiesPastHead(o, k, x, s);
    }
  }

  /** The inductive step of `InsertTies` for a row inserted after the head, on the head's and the row's ties alone. */
  lemma TiesPastHead(o: Order, k: Row, x: Row, s: seq<Row>)
    requires s != [] && !Le(o, x, s[0])
    requires Tie(o, k, s[0]) + Tie(o, k, x) == Tie(o, k, x) + Tie(o, k, s[0])
    requires Ties(o, k, Insert(o, x, s[1..])) == Tie(o, k, x) + Ties(o, k, s[1..])
    ensures Ties(o, k, Insert(o, x, s)) == Tie(o, k, x) + Ties(o, k, s)
  {
    var t := Insert(o, x, s[1..]);
    var r := Insert(o, x, s);
    var a, b, rest := Tie(o, k, x), Tie(o, k, s[0]), Ties(o, k, s[1..]);
    assert r[1..] == t;
    assert Ties(o, k, r) == b + (a + rest);
    SwapFront(a, b, rest);
  }

  /** Two commuting prefixes commute in front of any tail. */
  lemma SwapFront(a: seq<Row>, b: seq<Row>, c: seq<Row>)
    requires b + a == a + b
    ensures b + (a + c) == a + (b + c)
  {
    calc {
      b + (a + c);
      (b + a) + c;
      (a + b) + c;
      a + (b + c);
    }
  }

  /** The sort is stable: rows with equal keys keep their relative order. */
  lemma {:induction false} SortStable(o: Order, k: Row, s: seq<Row>)
    requires Consistent(o.cmp)
    ensures Ties(o, k, Sort(o, s)) == Ties(o, k, s)
    decreases |s|
  {
    if s != [] {
      SortStable(o, k, s[1..]);
      InsertTies(o, k, s[0], Sort(o, s[1..]));
    }
  }

  // ----------------------------------------------------------- the command

  /** The body `sortColumn` writes back is in order, and the header stays first. */
  lemma SortRowsOrdered(o: Order, rows: seq<Row>, treatHeader: bool)
    requires Consistent(o.cmp)
    ensures treatHeader && |rows| > 0 ==> Sorted(o, SortRows(o, rows, true)[1..])
    ensures !treatHeader ==> Sorted(o, SortRows(o, rows, false))
  {
    if |rows| > 0 {
      SortSorted(o, rows[1..]);
      assert SortRows(o, rows, true)[1..] == Sort(o, rows[1..]);
    }
    SortSorted(o, rows);
  }

  // ------------------------------------------------- where the header flag comes from

  /**
   * `sortColumn` as written: it reads `treatFirstRowAsHeader` from the `csv`
   * configuration section (src/extension.ts:351-353), while the view that
   * shows the header reads it from `tsv` (src/extension.ts:453-454).
   */
  function SortColumnAsWritten(o: Order, rows: seq<Row>, csvHeader: bool, tsvHeader: bool): seq<Row>
  {
    SortRows(o, rows, csvHeader)
  }

  /** `sortColumn` with the header flag of the view that shows the header. */
  function SortColumnCorrected(o: Order, rows: seq<Row>, csvHeader: bool, tsvHeader: bool): seq<Row>
  {
    SortRows(o, rows, tsvHeader)
  }

  /** Keys compared by length: a consistent comparator, small enough to compute with. */
  function ByLength(index: nat): Order
  {
    Order((a: string, b: string) => |a| - |b|, index, true)
  }

  /**
   * As written, with the view showing a header and the `csv` flag off, the
   * header row is sorted into the body: `["bb"]` shown as the header of
   * `[["bb"], ["a"]]` is no longer the first row after sorting by length.
   */
  lemma HeaderSortedAwayAsWritten()
    ensures Consistent(ByLength(0).cmp)
    ensures SortColumnAsWritten(ByLength(0), [["bb"], ["a"]], false, true)[0] != ["bb"]
  {
    var o := ByLength(0);
    var rows: seq<Row> := [["bb"], ["a"]];
    assert rows[1..] == [["a"]];
    assert Le(o, ["a"], ["bb"]);
    assert !Le(o, ["bb"], ["a"]);
    assert Sort(o, [["a"]]) == [["a"]];
    assert Sort(o, rows) == [["a"], ["bb"]];
  }

  /**
   * With the view's flag, the row the view shows as the header stays first
   * and only the rows below it are ordered; without a header every row is.
   */
  lemma ShownHeaderStays(o: Order, rows: seq<Row>, csvHeader: bool, tsvHeader: bool)
    requires Consistent(o.cmp)
    ensures var r := SortColumnCorrected(o, rows, csvHeader, tsvHeader);
            (tsvHeader && |rows| > 0 ==>
               r[0] == rows[0] && Sorted(o, r[1..]) && multiset(r[1..]) == multiset(rows[1..])) &&
            (!tsvHeader ==> Sorted(o, r) && multiset(r) == multiset(rows))
  {
    SortRowsOrdered(o, rows, tsvHeader);
  }

  /** Swapping the direction reverses the row order relation, rows with a missing cell sorting as `''`. */
  lemma DescendingReverses(cmp: (string, string) -> int, index: nat, a: Row, b: Row)
    requires Consistent(cmp)
    ensures Le(Order(cmp, index, false), a, b) <==> Le(Order(cmp, index, true), b, a)
    ensures index >= |a| ==> Diff(Order(cmp, index, true), a, b) == cmp("", Key(b, index))
  {
    assert cmp(Key(a, index), Key(b, index)) <= 0 <==> cmp(Key(b, index), Key(a, index)) >= 0;
    assert cmp(Key(b, index), Key(a, index)) <= 0 <==> cmp(Key(a, index), Key(b, index)) >= 0;
  }
}
