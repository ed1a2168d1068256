/**
 * The helpers the test suites carry as their own copies and assert about
 * (src/test/integration.test.ts:11-131, duplicated in
 * src/test/performance.test.ts:13-119): a plain tab-separated parser and
 * serialiser, a width computation that accepts no rows, a majority-vote type
 * estimate that samples at most 100 values (a rule of its own, unlike the
 * all-must-match rule of the extension), a date test on four digit patterns,
 * and an `escapeHtml` written as a chain of replacements.  Their copy of
 * `getColumnColor` is the extension's (see `ColumnColors`).
 */
module TestHelpers {
  import opened JsStrings
  import opened Grid
  import ColumnAnalysis
  import HtmlEscape

  // --------------------------------------------------------- parse, serialise

  /** The lines that are not all white space, in order. */
  function KeptLines(lines: seq<string>): (r: seq<string>)
    ensures |r| <= |lines|
    ensures forall i :: 0 <= i < |r| ==> !IsBlank(r[i]) && r[i] in lines
  {
    if lines == [] then []
    else (if IsBlank(lines[0]) then [] else [lines[0]]) + KeptLines(lines[1..])
  }

  /** A single line is kept exactly when it is not all white space. */
  lemma KeptLinesOne(l: string)
    ensures KeptLines([l]) == if IsBlank(l) then [] else [l]
  {
    assert [l][1..] == [];
  }

  /** Filtering works line by line: the kept lines of two parts are those of each part, in order. */
  lemma {:induction false} KeptLinesConcat(a: seq<string>, b: seq<string>)
    ensures KeptLines(a + b) == KeptLines(a) + KeptLines(b)
    decreases |a|
  {
    if a == [] {
      assert a + b == b;
    } else {
      KeptLinesConcat(a[1..], b);
      KeptLinesConsStep(a[0], a[1..], b);
      assert [a[0]] + a[1..] == a;
    }
  }

  /** The inductive step of `KeptLinesConcat`: one more line in front of the first part. */
  lemma KeptLinesConsStep(l: string, a: seq<string>, b: seq<string>)
    requires KeptLines(a + b) == KeptLines(a) + KeptLines(b)
    ensures KeptLines([l] + a + b) == KeptLines([l] + a) + KeptLines(b)
  {
    var h := if IsBlank(l) then [] else [l];
    KeptLinesCons(l, a + b);
    KeptLinesCons(l, a);
    Assoc([l], a, b);
    Assoc(h, KeptLines(a), KeptLines(b));
  }

  lemma Assoc(x: seq<string>, y: seq<string>, z: seq<string>)
    ensures x + (y + z) == (x + y) + z
  {
  }

  /** The first line is kept or dropped on its own, in front of the kept rest. */
  lemma KeptLinesCons(l: string, rest: seq<string>)
    ensures KeptLines([l] + rest) == (if IsBlank(l) then [] else [l]) + KeptLines(rest)
  {
    assert ([l] + rest)[1..] == rest;
  }

  /** Each line split at tabs. */
  function SplitRows(lines: seq<string>): (r: Grid)
    ensures |r| == |lines|
    ensures forall i :: 0 <= i < |r| ==> r[i] == Split(lines[i], '\t')
  {
    if lines == [] then [] else [Split(lines[0], '\t')] + SplitRows(lines[1..])
  }

  /** Each row joined by tabs. */
  function JoinRows(rows: Grid): (r: seq<string>)
    ensures |r| == |rows|
    ensures forall i :: 0 <= i < |r| ==> r[i] == Join(rows[i], '\t')
  {
    if rows == [] then [] else [Join(rows[0], '\t')] + JoinRows(rows[1..])
  }

  /**
   * `parseTsv`: white-space-only text gives no rows; otherwise the text is
   * split at `\n`, blank lines are dropped and every other line is split at
   * tabs.  A `\r` stays in its line.
   */
  function ParseTsv(text: string): Grid
  {
    if Trim(text) == "" then [] else SplitRows(KeptLines(Split(text, '\n')))
  }

  /** `serializeTsv`: the rows joined by tabs, the lines by `\n`. */
  function SerializeTsv(rows: Grid): string
  {
    Join(JoinRows(rows), '\n')
  }

  /** A text joined by a white-space separator is blank exactly when all its pieces are. */
  lemma {:induction false} JoinBlank(pieces: seq<string>, sep: char)
    requires IsJsSpace(sep)
    ensures IsBlank(Join(pieces, sep)) <==> forall k :: 0 <= k < |pieces| ==> IsBlank(pieces[k])
    decreases |pieces|
  {
    if |pieces| > 1 {
      JoinBlank(pieces[1..], sep);
      var a, b := pieces[0] + [sep], Join(pieces[1..], sep);
      assert Join(pieces, sep) == a + b;
      assert IsBlank(a + b) <==> IsBlank(a) && IsBlank(b) by {
        assert forall i :: 0 <= i < |a| ==> (a + b)[i] == a[i];
        assert forall i :: 0 <= i < |b| ==> (a + b)[|a| + i] == b[i];
      }
      assert IsBlank(a) <==> IsBlank(pieces[0]) by {
        assert forall i :: 0 <= i < |pieces[0]| ==> a[i] == pieces[0][i];
      }
      assert (forall k :: 1 <= k < |pieces| ==> IsBlank(pieces[k])) <==>
             (forall k :: 0 <= k < |pieces[1..]| ==> IsBlank(pieces[1..][k]));
    }
  }

  /** Lines that are all kept stay as they are. */
  lemma {:induction false} KeptLinesAll(lines: seq<string>)
    requires forall i :: 0 <= i < |lines| ==> !IsBlank(lines[i])
    ensures KeptLines(lines) == lines
    decreases |lines|
  {
    if lines != [] {
      KeptLinesAll(lines[1..]);
    }
  }

  /** Only all-blank lines are dropped: none kept means every line is blank. */
  lemma {:induction false} KeptLinesNone(lines: seq<string>)
    ensures KeptLines(lines) == [] <==> forall k :: 0 <= k < |lines| ==> IsBlank(lines[k])
    decreases |lines|
  {
    if lines != [] {
      KeptLinesNone(lines[1..]);
      assert (forall k :: 1 <= k < |lines| ==> IsBlank(lines[k])) <==>
             (forall k :: 0 <= k < |lines[1..]| ==> IsBlank(lines[1..][k]));
    }
  }

  /** `parseTsv` yields no rows exactly for white-space-only text (src/test/integration.test.ts:154-160). */
  lemma ParseEmptyIffBlank(text: string)
    ensures ParseTsv(text) == [] <==> IsBlank(text)
  {
    TrimEmptyIffBlank(text);
    var lines := Split(text, '\n');
    JoinSplit(text, '\n');
    JoinBlank(lines, '\n');
    KeptLinesNone(lines);
  }

  /** Every row of `parseTsv` comes from a non-blank line and has one more cell than the line has tabs. */
  lemma ParseRowShape(text: string, i: nat)
    requires i < |ParseTsv(text)|
    ensures Trim(text) != "" && i < |KeptLines(Split(text, '\n'))|
    ensures var line := KeptLines(Split(text, '\n'))[i];
            !IsBlank(line) && ParseTsv(text)[i] == Split(line, '\t') &&
            |ParseTsv(text)[i]| == Occurrences(line, '\t') + 1
  {
    SplitCount(KeptLines(Split(text, '\n'))[i], '\t');
  }

  /**
   * Parsing, serialising and parsing again gives the rows of the first parse
   * (src/test/integration.test.ts:258-267), extra tabs in a line included.
   */
  lemma ParseSerializeParse(text: string)
    ensures ParseTsv(SerializeTsv(ParseTsv(text))) == ParseTsv(text)
  {
    var rows := ParseTsv(text);
    if rows == [] {
      assert SerializeTsv(rows) == "";
      assert IsBlank("");
      ParseEmptyIffBlank("");
    } else {
      var lines := KeptLines(Split(text, '\n'));
      assert rows == SplitRows(lines);
      SplitPiecesClean(text, '\n');
      forall i | 0 <= i < |lines|
        ensures NoneIs(lines[i], '\n') && JoinRows(rows)[i] == lines[i]
      {
        var k :| 0 <= k < |Split(text, '\n')| && Split(text, '\n')[k] == lines[i];
        JoinSplit(lines[i], '\t');
      }
      assert JoinRows(rows) == lines;
      var s := SerializeTsv(rows);
      SplitJoin(lines, '\n');
      KeptLinesAll(lines);
      assert !IsBlank(s) by {
        JoinBlank(lines, '\n');
      }
      TrimEmptyIffBlank(s);
    }
  }

  /** The examples of src/test/integration.test.ts:154-160. */
  lemma ParseEmptyExamples()
    ensures ParseTsv("") == [] && ParseTsv("\n\n") == []
  {
    ParseEmptyIffBlank("\n\n");
  }

  // ----------------------------------------------------------- column widths

  /**
   * The tests' `computeColumnWidths` (src/test/integration.test.ts:25-41):
   * no widths for no rows; otherwise one per column of the widest row, each
   * the length of the column's longest cell.  Its inner loop runs over each
   * row's own cells.
   */
  method ColumnWidths(rows: Grid) returns (widths: array<nat>)
    ensures widths.Length == if |rows| == 0 then 0 else MaxWidth(rows)
    ensures forall c :: 0 <= c < widths.Length ==> widths[c] == ColumnAnalysis.ColumnMax(rows, c)
  {
    if |rows| == 0 {
      widths := new nat[0];
      return;
    }
    var columnCount := MaxWidth(rows);
    widths := new nat[columnCount](_ => 0);
    var r := 0;
    while r < |rows|
      invariant 0 <= r <= |rows|
      invariant widths.Length == columnCount
      invariant forall c :: 0 <= c < columnCount ==> widths[c] == ColumnAnalysis.ColumnMax(rows[..r], c)
    {
      WidenToRow(widths, rows, r);
      r := r + 1;
    }
    assert rows[..|rows|] == rows;
  }

  /** The inner loop (src/test/integration.test.ts:33-38): row `r`'s cells widen their columns. */
  method WidenToRow(widths: array<nat>, rows: Grid, r: nat)
    requires r < |rows| && |rows[r]| <= widths.Length
    requires forall c :: 0 <= c < widths.Length ==> widths[c] == ColumnAnalysis.ColumnMax(rows[..r], c)
    modifies widths
    ensures forall c :: 0 <= c < widths.Length ==> widths[c] == ColumnAnalysis.ColumnMax(rows[..r + 1], c)
  {
    var row := rows[r];
    var col := 0;
    while col < |row|
      invariant 0 <= col <= |row|
      invariant forall c :: 0 <= c < col ==> widths[c] == ColumnAnalysis.ColumnMax(rows[..r + 1], c)
      invariant forall c :: col <= c < widths.Length ==> widths[c] == ColumnAnalysis.ColumnMax(rows[..r], c)
    {
      ColumnAnalysis.ColumnMaxStep(rows, r, col);
      widths[col] := Max(widths[col], |row[col]|);
      col := col + 1;
    }
    forall c | |row| <= c < widths.Length
      ensures widths[c] == ColumnAnalysis.ColumnMax(rows[..r + 1], c)
    {
      BeyondRow(rows, r, c);
    }
  }

  /** A row without a cell in column `c` leaves that column's width alone. */
  lemma BeyondRow(rows: Grid, r: nat, c: nat)
    requires r < |rows| && |rows[r]| <= c
    ensures ColumnAnalysis.ColumnMax(rows[..r + 1], c) == ColumnAnalysis.ColumnMax(rows[..r], c)
  {
    ColumnAnalysis.ColumnMaxStep(rows, r, c);
  }

  // -------------------------------------------------------------- the dates

  predicate IsDigit(ch: char)
  {
    '0' <= ch <= '9'
  }

  predicate DigitsAt(s: string, i: nat, n: nat)
    requires i + n <= |s|
  {
    forall k :: i <= k < i + n ==> IsDigit(s[k])
  }

  /** `/^\d{4}<sep>\d{2}<sep>\d{2}$/`. */
  predicate YearFirst(s: string, sep: char)
  {
    |s| == 10 && DigitsAt(s, 0, 4) && s[4] == sep && DigitsAt(s, 5, 2) && s[7] == sep && DigitsAt(s, 8, 2)
  }

  /** `/^\d{2}<sep>\d{2}<sep>\d{4}$/`. */
  predicate YearLast(s: string, sep: char)
  {
    |s| == 10 && DigitsAt(s, 0, 2) && s[2] == sep && DigitsAt(s, 3, 2) && s[5] == sep && DigitsAt(s, 6, 4)
  }

  /** The JavaScript parsers the tests' estimate consults. */
  datatype TestParsers = TestParsers(
    parsesAsDate: string -> bool,  // !isNaN(new Date(value).getTime())
    isNumber: string -> bool)      // !isNaN(Number(value))

  /**
   * The tests' `isDate` (src/test/integration.test.ts:91-109): at least
   * eight characters, accepted by the `Date` constructor, and of one of the
   * four digit patterns.
   */
  predicate IsDate(p: TestParsers, value: string)
  {
    value != "" && |value| >= 8 && p.parsesAsDate(value) &&
    (YearFirst(value, '-') || YearLast(value, '/') || YearFirst(value, '/') || YearLast(value, '-'))
  }

  /** A date is exactly ten characters long, so anything shorter than eight is rejected. */
  lemma DateShape(p: TestParsers, value: string)
    ensures IsDate(p, value) ==> |value| == 10 && IsDigit(value[0]) && IsDigit(value[9])
    ensures |value| < 8 ==> !IsDate(p, value)
  {
  }

  // ------------------------------------------------- the majority estimate

  /** What one sampled value counts as; a date is never also counted as a boolean or a number. */
  datatype Kind = BlankValue | DateValue | BooleanValue | NumberValue | OtherValue

  function KindOf(p: TestParsers, value: string): Kind
  {
    var t := Trim(value);
    if t == "" then BlankValue
    else if IsDate(p, t) then DateValue
    else if IsBooleanWord(t) then BooleanValue
    else if p.isNumber(t) then NumberValue
    else OtherValue
  }

  datatype Counts = Counts(numbers: nat, booleans: nat, dates: nat, empties: nat)

  function Count(c: Counts, k: Kind): Counts
  {
    match k
    case BlankValue => c.(empties := c.empties + 1)
    case DateValue => c.(dates := c.dates + 1)
    case BooleanValue => c.(booleans := c.booleans + 1)
    case NumberValue => c.(numbers := c.numbers + 1)
    case OtherValue => c
  }

  /** The counters after the sampled values, in order. */
  function Tally(p: TestParsers, values: seq<string>): (c: Counts)
    ensures c.numbers + c.booleans + c.dates + c.empties <= |values|
    decreases |values|
  {
    if values == [] then Counts(0, 0, 0, 0)
    else Count(Tally(p, values[..|values| - 1]), KindOf(p, values[|values| - 1]))
  }

  const MaxSamples: nat := 100

  /**
   * The decision after sampling `total` values: `'empty'` when all were
   * blank, then `'date'`, `'boolean'` and `'number'` when more than 60% of
   * the sample counts as such (`count / total > 0.6`, exact here as
   * `10 * count > 6 * total` because `total` is at most 100), `'string'`
   * otherwise.
   */
  function Decide(c: Counts, total: nat): string
  {
    if c.empties == total then "empty"
    else if 10 * c.dates > 6 * total then "date"
    else if 10 * c.booleans > 6 * total then "boolean"
    else if 10 * c.numbers > 6 * total then "number"
    else "string"
  }

  /** The tests' type rule on a whole column: the first 100 values decide. */
  function MajorityType(p: TestParsers, column: seq<string>): string
  {
    if |column| == 0 then "empty"
    else
      var n := Min(|column|, MaxSamples);
      Decide(Tally(p, column[..n]), n)
  }

  /** The tests' `estimateColumnDataType` (src/test/integration.test.ts:43-89), with its sampling loop and `break`. */
  method EstimateMajority(p: TestParsers, column: seq<string>) returns (t: string)
    ensures t == MajorityType(p, column)
  {
    if |column| == 0 {
      return "empty";
    }
    var numberCount, booleanCount, dateCount, emptyCount := 0, 0, 0, 0;
    var sampleSize := 0;
    var i := 0;
    while i < |column|
      invariant 0 <= i <= |column| && i <= MaxSamples
      invariant sampleSize == i
      invariant Counts(numberCount, booleanCount, dateCount, emptyCount) == Tally(p, column[..i])
    {
      if sampleSize >= MaxSamples {
        break;
      }
      var trimmed := Trim(column[i]);
      if trimmed == "" {
        emptyCount := emptyCount + 1;
      } else {
        if IsDate(p, trimmed) {
          dateCount := dateCount + 1;
        } else if IsBooleanWord(trimmed) {
          booleanCount := booleanCount + 1;
        } else if p.isNumber(trimmed) && trimmed != "" {
          numberCount := numberCount + 1;
        }
      }
      assert column[..i + 1] == column[..i] + [column[i]];
      TallySnoc(p, column[..i], column[i]);
      sampleSize := sampleSize + 1;
      i := i + 1;
    }
    var total := sampleSize;
    assert total == Min(|column|, MaxSamples);
    t := Decide(Counts(numberCount, booleanCount, dateCount, emptyCount), total);
  }

  /**
   * Each answer is reached exactly when its count is a strict 60% majority
   * of the sample; at most one kind can have one, so the order of the
   * checks matters only against `'empty'`.
   */
  lemma MajorityMeans(p: TestParsers, column: seq<string>)
    requires |column| > 0
    ensures var n := Min(|column|, MaxSamples);
            var c := Tally(p, column[..n]);
            (MajorityType(p, column) == "empty" <==> c.empties == n) &&
            (MajorityType(p, column) == "date" <==> 10 * c.dates > 6 * n) &&
            (MajorityType(p, column) == "boolean" <==> 10 * c.booleans > 6 * n) &&
            (MajorityType(p, column) == "number" <==> 10 * c.numbers > 6 * n) &&
            (MajorityType(p, column) == "string" <==>
               c.empties != n && 10 * c.dates <= 6 * n && 10 * c.booleans <= 6 * n && 10 * c.numbers <= 6 * n)
  {
  }

  /** Values after the first 100 are never looked at. */
  lemma MajorityCap(p: TestParsers, sample: seq<string>, rest: seq<string>)
    requires |sample| == MaxSamples
    ensures MajorityType(p, sample + rest) == MajorityType(p, sample)
  {
    assert (sample + rest)[..MaxSamples] == sample;
    assert sample[..MaxSamples] == sample;
  }

  /** A column of blank values, or no values, is `'empty'` (src/test/performance.test.ts:32-34 and 64-66). */
  lemma {:induction false} BlankTally(p: TestParsers, values: seq<string>)
    requires forall i :: 0 <= i < |values| ==> IsBlank(values[i])
    ensures Tally(p, values).empties == |values|
    decreases |values|
  {
    if values != [] {
      BlankTally(p, values[..|values| - 1]);
      TrimEmptyIffBlank(values[|values| - 1]);
    }
  }

  lemma MajorityBlank(p: TestParsers, column: seq<string>)
    requires forall i :: 0 <= i < |column| ==> IsBlank(column[i])
    ensures MajorityType(p, column) == "empty"
  {
    if |column| > 0 {
      BlankTally(p, column[..Min(|column|, MaxSamples)]);
    }
  }

  /** `n` copies of `v`. */
  function Repeat(v: string, n: nat): (r: seq<string>)
    ensures |r| == n && forall i :: 0 <= i < n ==> r[i] == v
  {
    if n == 0 then [] else Repeat(v, n - 1) + [v]
  }

  function Plus(a: Counts, b: Counts): Counts
  {
    Counts(a.numbers + b.numbers, a.booleans + b.booleans, a.dates + b.dates, a.empties + b.empties)
  }

  lemma PlusCount(x: Counts, y: Counts, k: Kind)
    ensures Plus(x, Count(y, k)) == Count(Plus(x, y), k)
  {
  }

  /** One more value adds its kind to the counters. */
  lemma TallySnoc(p: TestParsers, s: seq<string>, v: string)
    ensures Tally(p, s + [v]) == Count(Tally(p, s), KindOf(p, v))
  {
    assert (s + [v])[..|s|] == s;
  }

  /** Tallying two runs of values one after the other adds their counts. */
  lemma {:induction false} TallyConcat(p: TestParsers, a: seq<string>, b: seq<string>)
    ensures Tally(p, a + b) == Plus(Tally(p, a), Tally(p, b))
    decreases |b|
  {
    if b == [] {
      assert a + b == a;
    } else {
      var front, last := b[..|b| - 1], b[|b| - 1];
      assert b == front + [last];
      assert a + b == (a + front) + [last];
      TallyConcat(p, a, front);
      TallySnoc(p, a + front, last);
      TallySnoc(p, front, last);
      PlusCount(Tally(p, a), Tally(p, front), KindOf(p, last));
    }
  }

  /** `n` copies of a number count as `n` numbers. */
  lemma {:induction false} TallyRepeatNumber(p: TestParsers, v: string, n: nat)
    requires KindOf(p, v) == NumberValue
    ensures Tally(p, Repeat(v, n)) == Counts(n, 0, 0, 0)
    decreases n
  {
    if n > 0 {
      TallyRepeatNumber(p, v, n - 1);
      assert Repeat(v, n)[..n - 1] == Repeat(v, n - 1);
    }
  }

  /** `n` copies of an uncounted value count as nothing. */
  lemma {:induction false} TallyRepeatOther(p: TestParsers, v: string, n: nat)
    requires KindOf(p, v) == OtherValue
    ensures Tally(p, Repeat(v, n)) == Counts(0, 0, 0, 0)
    decreases n
  {
    if n > 0 {
      TallyRepeatOther(p, v, n - 1);
      assert Repeat(v, n)[..n - 1] == Repeat(v, n - 1);
    }
  }

  lemma RepeatSplit(v: string, m: nat, n: nat)
    ensures Repeat(v, m + n) == Repeat(v, m) + Repeat(v, n)
  {
  }

  /** `'123'` is a number. */
  lemma NumberKind(p: TestParsers)
    requires p.isNumber("123")
    ensures KindOf(p, "123") == NumberValue
  {
    TrimUnspaced("123");
    assert |Lower("123")| == 3;
    assert !IsDate(p, "123");
  }

  /** `'text_data'` is neither a date, a boolean nor a number. */
  lemma OtherKind(p: TestParsers)
    requires !p.isNumber("text_data")
    ensures KindOf(p, "text_data") == OtherValue
  {
    TrimUnspaced("text_data");
    assert |Lower("text_data")| == 9;
    assert !IsDate(p, "text_data");
  }

  /**
   * Five numbers followed by 9995 strings (src/test/performance.test.ts:150-171):
   * the sample holds five numbers among 100 values, so the answer is `'string'`.
   */
  lemma EarlyTerminationExample(p: TestParsers)
    requires p.isNumber("123") && !p.isNumber("text_data")
    ensures MajorityType(p, Repeat("123", 5) + Repeat("text_data", 9995)) == "string"
  {
    var sample := Repeat("123", 5) + Repeat("text_data", 95);
    assert Repeat("123", 5) + Repeat("text_data", 9995) == sample + Repeat("text_data", 9900) by {
      RepeatSplit("text_data", 95, 9900);
    }
    MajorityCap(p, sample, Repeat("text_data", 9900));
    SampleTally(p);
    assert sample[..MaxSamples] == sample;
  }

  /** The first 100 values of the example hold five numbers and nothing else that is counted. */
  lemma SampleTally(p: TestParsers)
    requires p.isNumber("123") && !p.isNumber("text_data")
    ensures Tally(p, Repeat("123", 5) + Repeat("text_data", 95)) == Counts(5, 0, 0, 0)
  {
    NumberKind(p);
    OtherKind(p);
    RunsTally(p, "123", "text_data", 5, 95);
  }

  /** `m` numbers followed by `n` uncounted values count as `m` numbers. */
  lemma RunsTally(p: TestParsers, v: string, w: string, m: nat, n: nat)
    requires KindOf(p, v) == NumberValue && KindOf(p, w) == OtherValue
    ensures Tally(p, Repeat(v, m) + Repeat(w, n)) == Counts(m, 0, 0, 0)
  {
    TallyConcat(p, Repeat(v, m), Repeat(w, n));
    TallyRepeatNumber(p, v, m);
    TallyRepeatOther(p, w, n);
  }

  /** A short word without surrounding white space is never a date; its kind is decided by the other tests. */
  lemma ShortKind(p: TestParsers, v: string)
    requires 0 < |v| < 8 && !IsJsSpace(v[0]) && !IsJsSpace(v[|v| - 1])
    ensures KindOf(p, v) == if IsBooleanWord(v) then BooleanValue else if p.isNumber(v) then NumberValue else OtherValue
  {
    TrimUnspaced(v);
  }

  
  /** A short word that is neither a boolean word nor a number counts as nothing. */
  lemma OtherShortKind(p: TestParsers, v: string)
    requires 0 < |v| < 8 && !IsJsSpace(v[0]) && !IsJsSpace(v[|v| - 1])
    requires LowerChar(v[0]) != 't' && LowerChar(v[0]) != 'f' && !p.isNumber(v)
    ensures KindOf(p, v) == OtherValue
  {
    ShortKind(p, v);
    NotBooleanWord(v);
  }

  /** A short number that is not a boolean word counts as a number. */
  lemma NumberShortKind(p: TestParsers, v: string)
    requires 0 < |v| < 8 && !IsJsSpace(v[0]) && !IsJsSpace(v[|v| - 1])
    requires LowerChar(v[0]) != 't' && LowerChar(v[0]) != 'f' && p.isNumber(v)
    ensures KindOf(p, v) == NumberValue
  {
    ShortKind(p, v);
    NotBooleanWord(v);
  }

  /** `'true'` and `'false'` count as booleans. */
  lemma BooleanKind(p: TestParsers, v: string)
    requires v == "true" || v == "false"
    ensures KindOf(p, v) == BooleanValue
  {
    ShortKind(p, v);
    assert Lower(v) == v;
  }

  /** `'2023-01-01'` and `'2023-01-02'` are dates once the `Date` constructor accepts them. */
  lemma DateKind(p: TestParsers, v: string)
    requires v == "2023-01-01" || v == "2023-01-02"
    requires p.parsesAsDate(v)
    ensures KindOf(p, v) == DateValue
  {
    TrimUnspaced(v);
    assert YearFirst(v, '-');
  }

  /** The counters after three values. */
  lemma TallyThree(p: TestParsers, column: seq<string>)
    requires |column| == 3
    ensures Tally(p, column) == Count(Count(Count(Counts(0, 0, 0, 0), KindOf(p, column[0])), KindOf(p, column[1])), KindOf(p, column[2]))
  {
    var s2 := column[..2];
    var s1 := s2[..1];
    assert s1[..0] == [];
    assert s1[0] == column[0] && s2[1] == column[1];
    assert Tally(p, s1) == Count(Counts(0, 0, 0, 0), KindOf(p, column[0]));
    assert Tally(p, s2) == Count(Tally(p, s1), KindOf(p, column[1]));
  }

  /**
   * The workflow example (src/test/integration.test.ts:175-203): the columns
   * of the three-row sheet are estimated `'string'`, `'number'`, `'boolean'`
   * and `'date'`, the two numbers, booleans or dates below the header being
   * two thirds of each sample.  One lemma per column.
   */
  lemma WorkflowItem(p: TestParsers)
    requires !p.isNumber("Item") && !p.isNumber("Sword") && !p.isNumber("Armor")
    ensures MajorityType(p, ["Item", "Sword", "Armor"]) == "string"
  {
    OtherShortKind(p, "Item");
    OtherShortKind(p, "Sword");
    OtherShortKind(p, "Armor");
    var c := ["Item", "Sword", "Armor"];
    TallyThree(p, c);
    assert c[..3] == c;
  }

  lemma WorkflowPrice(p: TestParsers)
    requires !p.isNumber("Price") && p.isNumber("100") && p.isNumber("200")
    ensures MajorityType(p, ["Price", "100", "200"]) == "number"
  {
    OtherShortKind(p, "Price");
    NumberShortKind(p, "100");
    NumberShortKind(p, "200");
    var c := ["Price", "100", "200"];
    TallyThree(p, c);
    assert c[..3] == c;
  }

  lemma WorkflowInStock(p: TestParsers)
    requires !p.isNumber("InStock")
    ensures MajorityType(p, ["InStock", "true", "false"]) == "boolean"
  {
    OtherShortKind(p, "InStock");
    BooleanKind(p, "true");
    BooleanKind(p, "false");
    var c := ["InStock", "true", "false"];
    TallyThree(p, c);
    assert c[..3] == c;
  }

  lemma WorkflowDate(p: TestParsers)
    requires !p.isNumber("Date")
    requires p.parsesAsDate("2023-01-01") && p.parsesAsDate("2023-01-02")
    ensures MajorityType(p, ["Date", "2023-01-01", "2023-01-02"]) == "date"
  {
    OtherShortKind(p, "Date");
    DateKind(p, "2023-01-01");
    DateKind(p, "2023-01-02");
    var c := ["Date", "2023-01-01", "2023-01-02"];
    TallyThree(p, c);
    assert c[..3] == c;
  }

  // ----------------------------------------------------------- escapeHtml

  /** `text.replace(/c/g, rep)`. */
  function ReplaceAll(s: string, c: char, rep: string): string
  {
    if s == [] then "" else (if s[0] == c then rep else [s[0]]) + ReplaceAll(s[1..], c, rep)
  }

  /** The tests' `escapeHtml` (src/test/integration.test.ts:124-131): five replacements, `&` first. */
  function EscapeChained(s: string): string
  {
    ReplaceAll(ReplaceAll(ReplaceAll(ReplaceAll(ReplaceAll(s, '&', "&amp;"), '<', "&lt;"), '>', "&gt;"), '"', "&quot;"), '\'', "&#39;")
  }

  lemma {:induction false} ReplaceConcat(a: string, b: string, c: char, rep: string)
    ensures ReplaceAll(a + b, c, rep) == ReplaceAll(a, c, rep) + ReplaceAll(b, c, rep)
    decreases |a|
  {
    if a == [] {
      assert a + b == b;
    } else {
      ReplaceConcat(a[1..], b, c, rep);
      assert (a + b)[1..] == a[1..] + b;
    }
  }

  lemma ChainedConcat(a: string, b: string)
    ensures EscapeChained(a + b) == EscapeChained(a) + EscapeChained(b)
  {
    var a1, b1 := ReplaceAll(a, '&', "&amp;"), ReplaceAll(b, '&', "&amp;");
    ReplaceConcat(a, b, '&', "&amp;");
    var a2, b2 := ReplaceAll(a1, '<', "&lt;"), ReplaceAll(b1, '<', "&lt;");
    ReplaceConcat(a1, b1, '<', "&lt;");
    var a3, b3 := ReplaceAll(a2, '>', "&gt;"), ReplaceAll(b2, '>', "&gt;");
    ReplaceConcat(a2, b2, '>', "&gt;");
    var a4, b4 := ReplaceAll(a3, '"', "&quot;"), ReplaceAll(b3, '"', "&quot;");
    ReplaceConcat(a3, b3, '"', "&quot;");
    ReplaceConcat(a4, b4, '\'', "&#39;");
  }

  /** A text none of whose characters is `c` is left alone. */
  lemma {:induction false} ReplaceAbsent(s: string, c: char, rep: string)
    requires NoneIs(s, c)
    ensures ReplaceAll(s, c, rep) == s
    decreases |s|
  {
    if s != [] {
      ReplaceAbsent(s[1..], c, rep);
      assert s == [s[0]] + s[1..];
    }
  }

  lemma ReplaceOne(x: char, c: char, rep: string)
    ensures ReplaceAll([x], c, rep) == if x == c then rep else [x]
  {
    assert [x][0] == x && [x][1..] == [];
  }

  /** The later replacements only touch characters the earlier entities do not contain. */
  lemma ChainedChar(x: char)
    ensures EscapeChained([x]) == HtmlEscape.EscapeChar(x)
  {
    if x == '&' {
      ChainedAmp();
    } else if x == '<' {
      ChainedLt();
    } else if x == '>' {
      ChainedGt();
    } else if x == '"' {
      ChainedQuot();
    } else if x == '\'' {
      ChainedApos();
    } else {
      ChainedPlain(x);
    }
  }

  lemma ChainedAmp()
    ensures EscapeChained("&") == "&amp;"
  {
    ReplaceOne('&', '&', "&amp;");
    var e := "&amp;";
    assert NoneIs(e, '<') && NoneIs(e, '>') && NoneIs(e, '"') && NoneIs(e, '\'');
    AfterAmp(e);
  }

  lemma ChainedLt()
    ensures EscapeChained("<") == "&lt;"
  {
    ReplaceOne('<', '&', "&amp;");
    ReplaceOne('<', '<', "&lt;");
    var e := "&lt;";
    assert NoneIs(e, '>') && NoneIs(e, '"') && NoneIs(e, '\'');
    AfterLt(e);
  }

  lemma ChainedGt()
    ensures EscapeChained(">") == "&gt;"
  {
    ReplaceOne('>', '&', "&amp;");
    ReplaceOne('>', '<', "&lt;");
    ReplaceOne('>', '>', "&gt;");
    var e := "&gt;";
    assert NoneIs(e, '"') && NoneIs(e, '\'');
    AfterGt(e);
  }

  lemma ChainedQuot()
    ensures EscapeChained("\"") == "&quot;"
  {
    ReplaceOne('"', '&', "&amp;");
    ReplaceOne('"', '<', "&lt;");
    ReplaceOne('"', '>', "&gt;");
    ReplaceOne('"', '"', "&quot;");
    var e := "&quot;";
    assert NoneIs(e, '\'');
    AfterQuot(e);
  }

  /** The steps after the `&` step leave a text without `<`, `>`, `"` and `'` unchanged. */
  lemma AfterAmp(e: string)
    requires NoneIs(e, '<') && NoneIs(e, '>') && NoneIs(e, '"') && NoneIs(e, '\'')
    ensures ReplaceAll(ReplaceAll(ReplaceAll(ReplaceAll(e, '<', "&lt;"), '>', "&gt;"), '"', "&quot;"), '\'', "&#39;") == e
  {
    ReplaceAbsent(e, '<', "&lt;");
    AfterLt(e);
  }

  /** The steps after the `<` step leave a text without `>`, `"` and `'` unchanged. */
  lemma AfterLt(e: string)
    requires NoneIs(e, '>') && NoneIs(e, '"') && NoneIs(e, '\'')
    ensures ReplaceAll(ReplaceAll(ReplaceAll(e, '>', "&gt;"), '"', "&quot;"), '\'', "&#39;") == e
  {
    ReplaceAbsent(e, '>', "&gt;");
    AfterGt(e);
  }

  /** The steps after the `>` step leave a text without `"` and `'` unchanged. */
  lemma AfterGt(e: string)
    requires NoneIs(e, '"') && NoneIs(e, '\'')
    ensures ReplaceAll(ReplaceAll(e, '"', "&quot;"), '\'', "&#39;") == e
  {
    ReplaceAbsent(e, '"', "&quot;");
    AfterQuot(e);
  }

  /** The last step leaves a text without `'` unchanged. */
  lemma AfterQuot(e: string)
    requires NoneIs(e, '\'')
    ensures ReplaceAll(e, '\'', "&#39;") == e
  {
    ReplaceAbsent(e, '\'', "&#39;");
  }

  lemma ChainedApos()
    ensures EscapeChained("'") == "&#39;"
  {
    var s1 := ReplaceAll("'", '&', "&amp;");
    ReplaceOne('\'', '&', "&amp;");
    assert s1 == "'";
    var s2 := ReplaceAll(s1, '<', "&lt;");
    ReplaceOne('\'', '<', "&lt;");
    assert s2 == "'";
    var s3 := ReplaceAll(s2, '>', "&gt;");
    ReplaceOne('\'', '>', "&gt;");
    assert s3 == "'";
    var s4 := ReplaceAll(s3, '"', "&quot;");
    ReplaceOne('\'', '"', "&quot;");
    assert s4 == "'";
    var s5 := ReplaceAll(s4, '\'', "&#39;");
    ReplaceOne('\'', '\'', "&#39;");
    assert s5 == "&#39;";
  }

  lemma ChainedPlain(x: char)
    requires !HtmlEscape.Special(x)
    ensures EscapeChained([x]) == [x]
  {
    ReplaceOne(x, '&', "&amp;");
    ReplaceOne(x, '<', "&lt;");
    ReplaceOne(x, '>', "&gt;");
    ReplaceOne(x, '"', "&quot;");
    ReplaceOne(x, '\'', "&#39;");
  }

  /**
   * Replacing `&` first makes the chain agree with the extension's one-pass
   * `escapeHtml`: no entity written by a later step is escaped again.
   */
  lemma {:induction false} ChainedIsOnePass(s: string)
    ensures EscapeChained(s) == HtmlEscape.EscapeHtml(s)
    decreases |s|
  {
    if s != [] {
      ChainedIsOnePass(s[1..]);
      assert s == [s[0]] + s[1..];
      ChainedConcat([s[0]], s[1..]);
      ChainedChar(s[0]);
    }
  }

  /**
   * The tests' assertions on escaped text (src/test/integration.test.ts:210-218,
   * src/test/performance.test.ts:234-250): no raw `<` or `>` remains, a `<`
   * shows up as `&lt;`, and decoding gives back the text.
   */
  lemma ChainedEscapes(s: string)
    ensures HtmlEscape.Safe(EscapeChained(s))
    ensures (exists i :: 0 <= i < |s| && s[i] == '<') ==> HtmlEscape.Contains(EscapeChained(s), "&lt;")
    ensures HtmlEscape.UnescapeHtml(EscapeChained(s)) == s
  {
    ChainedIsOnePass(s);
    HtmlEscape.UnescapeEscape(s);
    if exists i :: 0 <= i < |s| && s[i] == '<' {
      var i :| 0 <= i < |s| && s[i] == '<';
      HtmlEscape.EscapeShowsLt(s, i);
    }
  }
}
