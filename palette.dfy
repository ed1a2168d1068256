/**
 * `getColumnColor` (src/extension.ts:1287-1320): the text colour of a column
 * is picked from a twelve-colour palette for the current theme by the
 * column's position alone; the column's type is not consulted.
 */
module ColumnColors {

  const DarkPalette: seq<string> := [
    "#FF6B6B", "#4ECDC4", "#45B7D1", "#96CEB4", "#FFEAA7", "#DDA0DD",
    "#98D8C8", "#F7DC6F", "#BB8FCE", "#85C1E9", "#82E0AA", "#F8C471"]

  const LightPalette: seq<string> := [
    "#C0392B", "#138D75", "#2980B9", "#27AE60", "#F39C12", "#8E44AD",
    "#16A085", "#D35400", "#7D3C98", "#1F618D", "#239B56", "#CA6F1E"]

  predicate IsHexDigit(c: char)
  {
    '0' <= c <= '9' || 'a' <= c <= 'f' || 'A' <= c <= 'F'
  }

  /** `/^#[0-9a-fA-F]{6}$/`. */
  predicate IsHexColor(s: string)
  {
    |s| == 7 && s[0] == '#' && forall i :: 1 <= i < 7 ==> IsHexDigit(s[i])
  }

  function Palette(isDark: bool): (p: seq<string>)
    ensures |p| == 12
  {
    if isDark then DarkPalette else LightPalette
  }

  /** Every palette entry is a six-digit hexadecimal colour. */
  lemma PalettesAreHex(isDark: bool, k: nat)
    requires k < 12
    ensures IsHexColor(Palette(isDark)[k])
  {
  }

  function ColumnColor(columnType: string, isDark: bool, columnIndex: nat): (c: string)
    ensures IsHexColor(c)
  {
    PalettesAreHex(isDark, columnIndex % 12);
    Palette(isDark)[columnIndex % 12]
  }

  /** The colour repeats every twelve columns and does not depend on the column's type. */
  lemma ColorPeriodic(columnType: string, otherType: string, isDark: bool, i: nat)
    ensures ColumnColor(columnType, isDark, i + 12) == ColumnColor(columnType, isDark, i)
    ensures ColumnColor(columnType, isDark, i) == ColumnColor(otherType, isDark, i)
  {
    assert (i + 12) % 12 == i % 12;
  }

  /** Columns in different positions of a run of twelve get different colours. */
  lemma ColorsDistinct(columnType: string, isDark: bool, i: nat, j: nat)
    requires i % 12 != j % 12
    ensures ColumnColor(columnType, isDark, i) != ColumnColor(columnType, isDark, j)
  {
    var p := Palette(isDark);
    assert forall a, b :: 0 <= a < b < 12 ==> p[a] != p[b];
  }

  /** The examples of src/test/provider-utils.test.ts:52-63. */
  lemma ColorExamples()
    ensures ColumnColor("empty", true, 0) == "#FF6B6B"
    ensures ColumnColor("empty", false, 0) == "#C0392B"
    ensures ColumnColor("string", true, 1) == "#4ECDC4"
    ensures ColumnColor("boolean", false, 1) == "#138D75"
    ensures ColumnColor("number", true, 12) == "#FF6B6B"
  {
  }
}
