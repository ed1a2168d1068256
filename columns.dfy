/**
 * The per-column analysis the host runs before rendering: the width of
 * every column (`computeColumnWidths`) and the all-must-match type estimate
 * that picks a column's type (`estimateColumnDataType`).
 *
 * `Date.parse`, `Number` and `Number.isInteger` are JavaScript parsers; they
 * are passed in as the three predicates of a `JsParsers` value.
 */
module ColumnAnalysis {
  import opened JsStrings
  import opened Grid

  // ---------------------------------------------------------- column widths

  /** The length of the longest cell of column `c`, a missing cell counting as `''`. */
  function ColumnMax(data: Grid, c: nat): (w: nat)
    ensures forall i :: 0 <= i < |data| ==> |CellAt(data, i, c)| <= w
    decreases |data|
  {
    if |data| == 0 then 0
    else
      var front := data[..|data| - 1];
      var w := ColumnMax(front, c);
      assert forall i :: 0 <= i < |front| ==> CellAt(front, i, c) == CellAt(data, i, c);
      var last := |CellAt(data, |data| - 1, c)|;
      if last > w then last else w
  }

  /**
   * `computeColumnWidths` (src/extension.ts:1199-1209): one width per column
   * of the widest row, each the length of the column's longest cell.  The
   * source calls it only on a grid with at least one row (the empty grid is
   * replaced by one empty cell first, src/extension.ts:482-485); on no rows
   * `Math.max()` is `-Infinity` and the array constructor throws.
   */
  method ComputeColumnWidths(data: Grid) returns (widths: array<nat>)
    requires |data| > 0
    ensures widths.Length == MaxWidth(data)
    ensures forall c :: 0 <= c < widths.Length ==> widths[c] == ColumnMax(data, c)
  {
    var numColumns := MaxWidth(data);
    widths := new nat[numColumns](_ => 0);
    var r := 0;
    while r < |data|
      invariant 0 <= r <= |data|
      invariant widths.Length == numColumns
      invariant forall c :: 0 <= c < numColumns ==> widths[c] == ColumnMax(data[..r], c)
    {
      var i := 0;
      while i < numColumns
        invariant 0 <= i <= numColumns
        invariant forall c :: 0 <= c < i ==> widths[c] == ColumnMax(data[..r + 1], c)
        invariant forall c :: i <= c < numColumns ==> widths[c] == ColumnMax(data[..r], c)
      {
        var cell := CellAt(data, r, i);
        ColumnMaxStep(data, r, i);
        widths[i] := if widths[i] < |cell| then |cell| else widths[i];
        i := i + 1;
      }
      r := r + 1;
    }
    assert data[..|data|] == data;
  }

  /** Taking one more row into account: the width grows to that row's cell if it is longer. */
  lemma ColumnMaxStep(data: Grid, r: nat, c: nat)
    requires r < |data|
    ensures ColumnMax(data[..r + 1], c) ==
            if ColumnMax(data[..r], c) < |CellAt(data, r, c)| then |CellAt(data, r, c)|
            else ColumnMax(data[..r], c)
  {
    var after := data[..r + 1];
    assert after[..r] == data[..r];
    assert CellAt(after, r, c) == CellAt(data, r, c);
  }

  /** The width of a column is the length of one of its cells, or 0. */
  lemma {:induction false} ColumnMaxAttained(data: Grid, c: nat)
    ensures ColumnMax(data, c) == 0 || exists i :: 0 <= i < |data| && |CellAt(data, i, c)| == ColumnMax(data, c)
    decreases |data|
  {
    if |data| > 0 {
      var front := data[..|data| - 1];
      ColumnMaxAttained(front, c);
      if ColumnMax(data, c) != |CellAt(data, |data| - 1, c)| && ColumnMax(data, c) != 0 {
        var i :| 0 <= i < |front| && |CellAt(front, i, c)| == ColumnMax(front, c);
        assert CellAt(front, i, c) == CellAt(data, i, c);
      }
    }
  }

  /** A column is wider than 0 exactly when one of its cells is non-empty. */
  lemma ColumnMaxPositive(data: Grid, c: nat)
    ensures ColumnMax(data, c) > 0 <==> exists k :: 0 <= k < |data| && |CellAt(data, k, c)| > 0
  {
    ColumnMaxAttained(data, c);
  }

  /** The example of src/test/provider-utils.test.ts:26-34. */
  lemma WidthsExample()
    ensures var data := [["a", "bb", "ccc"], ["dddd", "ee", "f"]];
            MaxWidth(data) == 3 &&
            ColumnMax(data, 0) == 4 && ColumnMax(data, 1) == 2 && ColumnMax(data, 2) == 3
  {
    var data := [["a", "bb", "ccc"], ["dddd", "ee", "f"]];
    assert data[..1] == [["a", "bb", "ccc"]];
    assert data[..1][..0] == [];
  }

  // ------------------------------------------------------------- type estimate

  /** The JavaScript parsers the estimate consults, as predicates on one trimmed item. */
  datatype JsParsers = JsParsers(
    isDate: string -> bool,     // !isNaN(Date.parse(item))
    isInteger: string -> bool,  // Number.isInteger(Number(item))
    isNumber: string -> bool)   // !isNaN(Number(item))

  /** The types `estimateColumnDataType` names, in precedence order. */
  datatype ColumnType = Empty | Boolean | Date | Integer | Float | String

  /** The name the source returns for each type. */
  function TypeName(t: ColumnType): string
  {
    match t
    case Empty => "empty"
    case Boolean => "boolean"
    case Date => "date"
    case Integer => "integer"
    case Float => "float"
    case String => "string"
  }

  /** `items.map(item => item.trim())`. */
  function TrimAll(items: seq<string>): (r: seq<string>)
    ensures |r| == |items|
  {
    if items == [] then [] else [Trim(items[0])] + TrimAll(items[1..])
  }

  /** `cell.split(',').map(item => item.trim())`. */
  function CellItems(cell: string): seq<string>
  {
    TrimAll(Split(cell, ','))
  }

  /** The items of each cell. */
  function ItemLists(column: seq<string>): (r: seq<seq<string>>)
    ensures |r| == |column|
    ensures forall k :: 0 <= k < |column| ==> r[k] == CellItems(column[k])
  {
    seq(|column|, k requires 0 <= k < |column| => CellItems(column[k]))
  }

  function Flatten(lists: seq<seq<string>>): seq<string>
    decreases |lists|
  {
    if lists == [] then [] else Flatten(lists[..|lists| - 1]) + lists[|lists| - 1]
  }

  /** The trimmed items of all cells, in order. */
  function Items(column: seq<string>): seq<string>
  {
    Flatten(ItemLists(column))
  }

  lemma {:induction false} FlattenConcat(a: seq<seq<string>>, b: seq<seq<string>>)
    ensures Flatten(a + b) == Flatten(a) + Flatten(b)
    decreases |b|
  {
    if b == [] {
      assert a + b == a;
    } else {
      var ab := a + b;
      assert ab[..|ab| - 1] == a + b[..|b| - 1];
      FlattenConcat(a, b[..|b| - 1]);
    }
  }

  lemma ItemListsConcat(c1: seq<string>, c2: seq<string>)
    ensures ItemLists(c1 + c2) == ItemLists(c1) + ItemLists(c2)
  {
    var c := c1 + c2;
    assert forall k :: 0 <= k < |c1| ==> c[k] == c1[k];
    assert forall k :: 0 <= k < |c2| ==> c[|c1| + k] == c2[k];
  }

  /** Every item is empty or satisfies `f`: the meaning of one of the source's `all…` flags. */
  predicate AllItems(items: seq<string>, f: string -> bool)
  {
    forall i :: 0 <= i < |items| ==> items[i] == "" || f(items[i])
  }

  predicate AllEmpty(items: seq<string>)
  {
    forall i :: 0 <= i < |items| ==> items[i] == ""
  }

  /**
   * The all-must-match type of a column: empty when no item is, otherwise the
   * first of boolean, date, integer, float that every non-empty item is.
   */
  function Classify(p: JsParsers, column: seq<string>): ColumnType
  {
    ClassifyItems(p, Items(column))
  }

  /** The type rule on the items of a column. */
  function ClassifyItems(p: JsParsers, items: seq<string>): ColumnType
  {
    if AllEmpty(items) then Empty
    else if AllItems(items, IsBooleanWord) then Boolean
    else if AllItems(items, p.isDate) then Date
    else if AllItems(items, p.isInteger) then Integer
    else if AllItems(items, p.isNumber) then Float
    else String
  }

  /** The five flags of `estimateColumnDataType`, as they stand after looking at `items`. */
  datatype Flags = Flags(allEmpty: bool, allBoolean: bool, allDate: bool, allInteger: bool, allFloat: bool)

  function FlagsOf(p: JsParsers, items: seq<string>): Flags
  {
    Flags(AllEmpty(items), AllItems(items, IsBooleanWord), AllItems(items, p.isDate),
          AllItems(items, p.isInteger), AllItems(items, p.isNumber))
  }

  /** `estimateColumnDataType` (src/extension.ts:1241-1282), flag by flag. */
  method EstimateColumnDataType(p: JsParsers, column: seq<string>) returns (t: ColumnType)
    ensures t == Classify(p, column)
  {
    var flags := Flags(true, true, true, true, true);
    var k := 0;
    while k < |column|
      invariant 0 <= k <= |column|
      invariant flags == FlagsOf(p, Items(column[..k]))
    {
      ItemsSnoc(column, k);
      flags := ScanItems(p, flags, Items(column[..k]), CellItems(column[k]));
      k := k + 1;
    }
    assert column[..|column|] == column;
    if flags.allEmpty {
      return Empty;
    }
    if flags.allBoolean {
      return Boolean;
    }
    if flags.allDate {
      return Date;
    }
    if flags.allInteger {
      return Integer;
    }
    if flags.allFloat {
      return Float;
    }
    return String;
  }

  /** The inner loop over the items of one cell (src/extension.ts:1245-1264): the flags after `seen` become those after `seen + items`. */
  method ScanItems(p: JsParsers, flags: Flags, ghost seen: seq<string>, items: seq<string>) returns (r: Flags)
    requires flags == FlagsOf(p, seen)
    ensures r == FlagsOf(p, seen + items)
  {
    r := flags;
    var j := 0;
    assert seen + items[..0] == seen;
    while j < |items|
      invariant 0 <= j <= |items|
      invariant r == FlagsOf(p, seen + items[..j])
    {
      var item := items[j];
      ghost var done := seen + items[..j];
      assert seen + items[..j + 1] == done + [item];
      FlagsSnoc(p, done, item);
      if item != "" {
        r := Flags(false, r.allBoolean && IsBooleanWord(item), r.allDate && p.isDate(item),
                   r.allInteger && p.isInteger(item), r.allFloat && p.isNumber(item));
      }
      j := j + 1;
    }
    assert items[..|items|] == items;
  }

  /** How the flags change when one more item is looked at. */
  lemma FlagsSnoc(p: JsParsers, done: seq<string>, item: string)
    ensures FlagsOf(p, done + [item]) ==
            var f := FlagsOf(p, done);
            if item == "" then f
            else Flags(false, f.allBoolean && IsBooleanWord(item), f.allDate && p.isDate(item),
                       f.allInteger && p.isInteger(item), f.allFloat && p.isNumber(item))
  {
    FlagsConcat(p, done, [item]);
    assert [item][0] == item;
  }

  /** The items of a one-cell column are that cell's items. */
  lemma ItemsOne(cell: string)
    ensures Items([cell]) == CellItems(cell)
  {
    assert ItemLists([cell]) == [CellItems(cell)];
    assert [CellItems(cell)][..0] == [];
  }

  /** The items of two columns one after the other are the items of each. */
  lemma ItemsConcat(c1: seq<string>, c2: seq<string>)
    ensures Items(c1 + c2) == Items(c1) + Items(c2)
  {
    ItemListsConcat(c1, c2);
    FlattenConcat(ItemLists(c1), ItemLists(c2));
  }

  /** The items of one more cell follow the items seen so far. */
  lemma ItemsSnoc(column: seq<string>, k: nat)
    requires k < |column|
    ensures Items(column[..k + 1]) == Items(column[..k]) + CellItems(column[k])
  {
    assert column[..k + 1] == column[..k] + [column[k]];
    ItemsConcat(column[..k], [column[k]]);
    ItemsOne(column[k]);
  }

  /** Two parts of a column with the same type give the whole column that type. */
  lemma ClassifyConcat(p: JsParsers, c1: seq<string>, c2: seq<string>)
    requires Classify(p, c1) == Classify(p, c2)
    ensures Classify(p, c1 + c2) == Classify(p, c1)
  {
    ItemsConcat(c1, c2);
    FlagsConcat(p, Items(c1), Items(c2));
  }

  /** Blank cells do not change a column's type. */
  lemma ClassifyEmptyNeutral(p: JsParsers, c1: seq<string>, c2: seq<string>)
    requires Classify(p, c1) == Empty
    ensures Classify(p, c1 + c2) == Classify(p, c2)
    ensures Classify(p, c2 + c1) == Classify(p, c2)
  {
    ItemsConcat(c1, c2);
    ItemsConcat(c2, c1);
    FlagsConcat(p, Items(c1), Items(c2));
    FlagsConcat(p, Items(c2), Items(c1));
  }

  /** Every flag holds for a concatenation exactly when it holds for both parts. */
  lemma FlagsConcat(p: JsParsers, a: seq<string>, b: seq<string>)
    ensures AllEmpty(a + b) <==> AllEmpty(a) && AllEmpty(b)
    ensures AllItems(a + b, IsBooleanWord) <==> AllItems(a, IsBooleanWord) && AllItems(b, IsBooleanWord)
    ensures AllItems(a + b, p.isDate) <==> AllItems(a, p.isDate) && AllItems(b, p.isDate)
    ensures AllItems(a + b, p.isInteger) <==> AllItems(a, p.isInteger) && AllItems(b, p.isInteger)
    ensures AllItems(a + b, p.isNumber) <==> AllItems(a, p.isNumber) && AllItems(b, p.isNumber)
  {
    AllItemsConcat(a, b, _ => false);
    AllItemsConcat(a, b, IsBooleanWord);
    AllItemsConcat(a, b, p.isDate);
    AllItemsConcat(a, b, p.isInteger);
    AllItemsConcat(a, b, p.isNumber);
    assert AllEmpty(a + b) == AllItems(a + b, _ => false);
    assert AllEmpty(a) == AllItems(a, _ => false);
    assert AllEmpty(b) == AllItems(b, _ => false);
  }

  lemma AllItemsConcat(a: seq<string>, b: seq<string>, f: string -> bool)
    ensures AllItems(a + b, f) <==> AllItems(a, f) && AllItems(b, f)
  {
    var ab := a + b;
    assert forall i :: 0 <= i < |a| ==> ab[i] == a[i];
    assert forall i :: 0 <= i < |b| ==> ab[|a| + i] == b[i];
    if AllItems(a, f) && AllItems(b, f) {
      forall i | |a| <= i < |ab|
        ensures ab[i] == "" || f(ab[i])
      {
        assert ab[i] == b[i - |a|];
      }
    }
  }

  /** A cell holding `a,b` counts as the two cells `a` and `b`. */
  lemma ClassifyCommaCell(p: JsParsers, before: seq<string>, a: string, b: string, after: seq<string>)
    ensures Classify(p, before + [a + [','] + b] + after) == Classify(p, before + [a, b] + after)
  {
    var ab := a + [','] + b;
    SplitConcat(a, b, ',');
    TrimAllConcat(Split(a, ','), Split(b, ','));
    ItemsOne(ab);
    ItemsOne(a);
    ItemsOne(b);
    ItemsConcat([a], [b]);
    assert [a] + [b] == [a, b];
    assert Items([ab]) == Items([a, b]);
    ItemsConcat(before, [ab]);
    ItemsConcat(before, [a, b]);
    ItemsConcat(before + [ab], after);
    ItemsConcat(before + [a, b], after);
  }

  lemma {:induction false} TrimAllConcat(x: seq<string>, y: seq<string>)
    ensures TrimAll(x + y) == TrimAll(x) + TrimAll(y)
    decreases |x|
  {
    if x == [] {
      assert x + y == y;
    } else {
      assert (x + y)[1..] == x[1..] + y;
      TrimAllConcat(x[1..], y);
    }
  }

  /** The items of a cell without commas and without surrounding space are the cell itself. */
  lemma CellItemsPlain(a: string)
    requires NoneIs(a, ',')
    requires a == [] || (!IsJsSpace(a[0]) && !IsJsSpace(a[|a| - 1]))
    ensures CellItems(a) == [a]
  {
    SplitClean(a, ',');
    TrimUnspaced(a);
    assert TrimAll([a]) == [Trim(a)] + TrimAll([a][1..]);
  }

  /** The items of a two-cell column whose cells hold no comma and do not start or end with a space. */
  lemma ItemsPair(a: string, b: string)
    requires NoneIs(a, ',') && NoneIs(b, ',')
    requires a == [] || (!IsJsSpace(a[0]) && !IsJsSpace(a[|a| - 1]))
    requires b == [] || (!IsJsSpace(b[0]) && !IsJsSpace(b[|b| - 1]))
    ensures Items([a, b]) == [a, b]
  {
    CellItemsPlain(a);
    CellItemsPlain(b);
    ItemsOne(a);
    ItemsOne(b);
    ItemsConcat([a], [b]);
    assert [a] + [b] == [a, b];
  }

  lemma RuleBoolean(p: JsParsers)
    ensures ClassifyItems(p, ["true", "FALSE"]) == Boolean
  {
    assert Lower("FALSE") == "false";
    assert ["true", "FALSE"][0] != "";
  }

  /** `['true', 'FALSE']` is boolean: letter case does not matter (src/test/provider-utils.test.ts:44). */
  lemma ClassifyBoolean(p: JsParsers)
    ensures Classify(p, ["true", "FALSE"]) == Boolean
  {
    ItemsPair("true", "FALSE");
    RuleBoolean(p);
  }

  /** With one non-empty item that is not a boolean, the rule falls to the date, integer and number tests. */
  lemma WitnessRule(p: JsParsers, items: seq<string>, k: nat)
    requires k < |items| && items[k] != "" && !IsBooleanWord(items[k])
    ensures ClassifyItems(p, items) ==
              if AllItems(items, p.isDate) then Date
              else if AllItems(items, p.isInteger) then Integer
              else if AllItems(items, p.isNumber) then Float
              else String
  {
  }

  /** Two dates, the first not starting like `true` or `false`, make a date column. */
  lemma DatePair(p: JsParsers, a: string, b: string)
    requires a != "" && LowerChar(a[0]) != 't' && LowerChar(a[0]) != 'f'
    requires p.isDate(a) && p.isDate(b)
    ensures ClassifyItems(p, [a, b]) == Date
  {
    NotBooleanWord(a);
    WitnessRule(p, [a, b], 0);
  }

  lemma RuleDates(p: JsParsers)
    requires p.isDate("2020-01-01") && p.isDate("1999-12-31")
    ensures ClassifyItems(p, ["2020-01-01", "1999-12-31"]) == Date
  {
    DatePair(p, "2020-01-01", "1999-12-31");
  }

  /** `['2020-01-01', '1999-12-31']` is a date column when `Date.parse` accepts both (src/test/provider-utils.test.ts:45). */
  lemma ClassifyDates(p: JsParsers)
    requires p.isDate("2020-01-01") && p.isDate("1999-12-31")
    ensures Classify(p, ["2020-01-01", "1999-12-31"]) == Date
  {
    ItemsPair("2020-01-01", "1999-12-31");
    RuleDates(p);
  }

  lemma RuleIntegers(p: JsParsers)
    requires !p.isDate("0x1") && p.isInteger("0x1") && p.isInteger("0x2")
    ensures ClassifyItems(p, ["0x1", "0x2"]) == Integer
  {
    var items := ["0x1", "0x2"];
    NotBooleanWord(items[0]);
    assert AllItems(items, p.isInteger) by {
      assert items[0] == "0x1" && items[1] == "0x2";
    }
    WitnessRule(p, items, 0);
  }

  /** `['0x1', '0x2']` is an integer column when `Date.parse` rejects `0x1` and `Number` reads both as integers (src/test/provider-utils.test.ts:46). */
  lemma ClassifyIntegers(p: JsParsers)
    requires !p.isDate("0x1") && p.isInteger("0x1") && p.isInteger("0x2")
    ensures Classify(p, ["0x1", "0x2"]) == Integer
  {
    ItemsPair("0x1", "0x2");
    RuleIntegers(p);
  }

  lemma RuleFloats(p: JsParsers)
    requires !p.isDate("1.2e0") && !p.isInteger("1.2e0") && p.isNumber("1.2e0") && p.isNumber("3.4e0")
    ensures ClassifyItems(p, ["1.2e0", "3.4e0"]) == Float
  {
    var items := ["1.2e0", "3.4e0"];
    NotBooleanWord(items[0]);
    assert AllItems(items, p.isNumber) by {
      assert items[0] == "1.2e0" && items[1] == "3.4e0";
    }
    WitnessRule(p, items, 0);
  }

  /** `['1.2e0', '3.4e0']` is a float column when `Date.parse` rejects `1.2e0` and `Number` reads both, `1.2e0` as a fraction (src/test/provider-utils.test.ts:47). */
  lemma ClassifyFloats(p: JsParsers)
    requires !p.isDate("1.2e0") && !p.isInteger("1.2e0") && p.isNumber("1.2e0") && p.isNumber("3.4e0")
    ensures Classify(p, ["1.2e0", "3.4e0"]) == Float
  {
    ItemsPair("1.2e0", "3.4e0");
    RuleFloats(p);
  }

  lemma RuleBlanks(p: JsParsers)
    ensures ClassifyItems(p, ["", ""]) == Empty
  {
  }

  /** `['', '']` is empty (src/test/provider-utils.test.ts:48). */
  lemma ClassifyBlanks(p: JsParsers)
    ensures Classify(p, ["", ""]) == Empty
  {
    ItemsPair("", "");
    RuleBlanks(p);
  }

  lemma RuleStrings(p: JsParsers)
    requires !p.isDate("hello") && !p.isInteger("hello") && !p.isNumber("hello")
    ensures ClassifyItems(p, ["hello", "1a"]) == String
  {
    var items := ["hello", "1a"];
    NotBooleanWord(items[0]);
    WitnessRule(p, items, 0);
  }

  /** `['hello', '1a']` is a string column when neither `Date.parse` nor `Number` reads `hello` (src/test/provider-utils.test.ts:49). */
  lemma ClassifyStrings(p: JsParsers)
    requires !p.isDate("hello") && !p.isInteger("hello") && !p.isNumber("hello")
    ensures Classify(p, ["hello", "1a"]) == String
  {
    ItemsPair("hello", "1a");
    RuleStrings(p);
  }
}
