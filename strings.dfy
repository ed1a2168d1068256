/**
 * The JavaScript string operations the editor relies on, written out over
 * `seq<char>`: `split` and `join` with a one-character separator, and the
 * white-space trimming family (`trim`, `trimStart`, `trimEnd`).
 */
module JsStrings {

  function Max(a: int, b: int): int { if a < b then b else a }
  function Min(a: int, b: int): int { if a < b then a else b }

  /** `s.split(sep)` for a one-character separator: never empty, pieces hold no `sep`. */
  function Split(s: string, sep: char): (r: seq<string>)
    ensures |r| >= 1
    decreases |s|
  {
    if s == [] then [""]
    else if s[0] == sep then [""] + Split(s[1..], sep)
    else
      var rest := Split(s[1..], sep);
      [[s[0]] + rest[0]] + rest[1..]
  }

  /** `cells.join(sep)`; the join of no pieces is the empty string. */
  function Join(cells: seq<string>, sep: char): string
  {
    if |cells| == 0 then ""
    else if |cells| == 1 then cells[0]
    else cells[0] + [sep] + Join(cells[1..], sep)
  }

  /** Number of occurrences of `ch` in `s`. */
  function Occurrences(s: string, ch: char): nat
  {
    if s == [] then 0 else (if s[0] == ch then 1 else 0) + Occurrences(s[1..], ch)
  }

  predicate NoneIs(s: string, ch: char)
  {
    forall i :: 0 <= i < |s| ==> s[i] != ch
  }

  /** Splitting and re-joining with the same separator gives back the text. */
  lemma {:induction false} JoinSplit(s: string, sep: char)
    ensures Join(Split(s, sep), sep) == s
    decreases |s|
  {
    if s == [] {
    } else if s[0] == sep {
      JoinSplit(s[1..], sep);
      assert s == [sep] + s[1..];
    } else {
      var rest := Split(s[1..], sep);
      JoinSplit(s[1..], sep);
      assert s == [s[0]] + s[1..];
      if |rest| == 1 {
      } else {
        assert Join(rest, sep) == rest[0] + [sep] + Join(rest[1..], sep);
        var r := Split(s, sep);
        assert r[1..] == rest[1..];
        assert Join(r, sep) == r[0] + [sep] + Join(r[1..], sep);
      }
    }
  }

  /** No piece of a split contains the separator. */
  lemma {:induction false} SplitPiecesClean(s: string, sep: char)
    ensures forall k :: 0 <= k < |Split(s, sep)| ==> NoneIs(Split(s, sep)[k], sep)
    decreases |s|
  {
    if s != [] {
      SplitPiecesClean(s[1..], sep);
    }
  }

  /** A split yields one more piece than there are separators. */
  lemma {:induction false} SplitCount(s: string, sep: char)
    ensures |Split(s, sep)| == Occurrences(s, sep) + 1
    decreases |s|
  {
    if s != [] {
      SplitCount(s[1..], sep);
    }
  }

  /** Joining pieces free of the separator and splitting again gives back the pieces. */
  lemma {:induction false} SplitJoin(cells: seq<string>, sep: char)
    requires |cells| >= 1
    requires forall k :: 0 <= k < |cells| ==> NoneIs(cells[k], sep)
    ensures Split(Join(cells, sep), sep) == cells
    decreases |cells|
  {
    if |cells| == 1 {
      SplitClean(cells[0], sep);
    } else {
      SplitJoin(cells[1..], sep);
      SplitCellThenSep(cells[0], Join(cells[1..], sep), sep);
      assert [cells[0]] + cells[1..] == cells;
    }
  }

  /** A piece free of the separator splits into itself. */
  lemma {:induction false} SplitClean(s: string, sep: char)
    requires NoneIs(s, sep)
    ensures Split(s, sep) == [s]
    decreases |s|
  {
    if s != [] {
      SplitClean(s[1..], sep);
      assert [s[0]] + s[1..] == s;
    }
  }

  /** Splitting `cell + sep + tail` puts `cell` in front of the split of `tail`. */
  lemma {:induction false} SplitCellThenSep(cell: string, tail: string, sep: char)
    requires NoneIs(cell, sep)
    ensures Split(cell + [sep] + tail, sep) == [cell] + Split(tail, sep)
    decreases |cell|
  {
    var s := cell + [sep] + tail;
    if cell == [] {
      assert s[1..] == tail;
    } else {
      assert s[1..] == cell[1..] + [sep] + tail;
      SplitCellThenSep(cell[1..], tail, sep);
      assert [cell[0]] + cell[1..] == cell;
    }
  }

  /** Splitting two texts joined by a separator gives the pieces of the first, then those of the second. */
  lemma {:induction false} SplitConcat(a: string, b: string, sep: char)
    ensures Split(a + [sep] + b, sep) == Split(a, sep) + Split(b, sep)
    decreases |a|
  {
    var s := a + [sep] + b;
    if a == [] {
      assert s[1..] == b;
    } else {
      assert s[1..] == a[1..] + [sep] + b;
      SplitConcat(a[1..], b, sep);
    }
  }

  /** ECMAScript white space and line terminators, the characters `trim` removes. */
  predicate IsJsSpace(ch: char)
  {
    ch == '\t' || ch == '\n' || ch == '\U{B}' || ch == '\U{C}' || ch == '\r' ||
    ch == ' ' || ch == '\U{A0}' || ch == '\U{1680}' ||
    ('\U{2000}' <= ch <= '\U{200A}') ||
    ch == '\U{2028}' || ch == '\U{2029}' || ch == '\U{202F}' || ch == '\U{205F}' ||
    ch == '\U{3000}' || ch == '\U{FEFF}'
  }

  /** Every character is JavaScript white space (so `s.trim() === ''`). */
  predicate IsBlank(s: string)
  {
    forall i :: 0 <= i < |s| ==> IsJsSpace(s[i])
  }

  /** `s.trimEnd()`. */
  function TrimEnd(s: string): string
    decreases |s|
  {
    if s != [] && IsJsSpace(s[|s| - 1]) then TrimEnd(s[..|s| - 1]) else s
  }

  /** `s.trimStart()`. */
  function TrimStart(s: string): string
    decreases |s|
  {
    if s != [] && IsJsSpace(s[0]) then TrimStart(s[1..]) else s
  }

  /** `trimEnd` keeps a prefix that does not end in white space and drops only white space. */
  lemma {:induction false} TrimEndFacts(s: string)
    ensures TrimEnd(s) <= s
    ensures TrimEnd(s) == [] || !IsJsSpace(TrimEnd(s)[|TrimEnd(s)| - 1])
    ensures IsBlank(s[|TrimEnd(s)|..])
    decreases |s|
  {
    if s != [] && IsJsSpace(s[|s| - 1]) {
      var front := s[..|s| - 1];
      TrimEndFacts(front);
      var r := TrimEnd(front);
      assert s[|r|..] == front[|r|..] + [s[|s| - 1]];
    }
  }

  /** `trimStart` keeps a suffix that does not start with white space and drops only white space. */
  lemma {:induction false} TrimStartFacts(s: string)
    ensures |TrimStart(s)| <= |s|
    ensures TrimStart(s) == s[|s| - |TrimStart(s)|..]
    ensures TrimStart(s) == [] || !IsJsSpace(TrimStart(s)[0])
    ensures IsBlank(s[..|s| - |TrimStart(s)|])
    decreases |s|
  {
    if s != [] && IsJsSpace(s[0]) {
      TrimStartFacts(s[1..]);
      var r := TrimStart(s[1..]);
      assert s[..|s| - |r|] == [s[0]] + s[1..][..|s[1..]| - |r|];
    }
  }

  /** `s.trim()`. */
  function Trim(s: string): string
  {
    TrimEnd(TrimStart(s))
  }

  /** A text that neither starts nor ends with white space is its own trim. */
  lemma TrimUnspaced(s: string)
    requires s == [] || (!IsJsSpace(s[0]) && !IsJsSpace(s[|s| - 1]))
    ensures Trim(s) == s
  {
  }

  /** `s.trimStart()` is empty exactly when `s` is all white space. */
  lemma {:induction false} TrimStartEmptyIffBlank(s: string)
    ensures TrimStart(s) == "" <==> IsBlank(s)
    decreases |s|
  {
    if s != [] && IsJsSpace(s[0]) {
      TrimStartEmptyIffBlank(s[1..]);
      assert IsBlank(s) <==> IsBlank(s[1..]);
    }
  }

  /** `trimEnd` never empties a text that starts with a non-space character. */
  lemma {:induction false} TrimEndKeepsFirst(t: string)
    requires t != [] && !IsJsSpace(t[0])
    ensures TrimEnd(t) != ""
    decreases |t|
  {
    if IsJsSpace(t[|t| - 1]) {
      TrimEndKeepsFirst(t[..|t| - 1]);
    }
  }

  /** `s.trim()` is empty exactly when `s` is all white space. */
  lemma TrimEmptyIffBlank(s: string)
    ensures Trim(s) == "" <==> IsBlank(s)
  {
    TrimStartEmptyIffBlank(s);
    if !IsBlank(s) {
      TrimStartFacts(s);
      TrimEndKeepsFirst(TrimStart(s));
    }
  }

  /** ASCII lower-casing of one character. */
  function LowerChar(ch: char): char
  {
    if 'A' <= ch <= 'Z' then (ch as int + 32) as char else ch
  }

  /** `s.toLowerCase()` restricted to ASCII letters; exact for comparisons with ASCII words. */
  function Lower(s: string): (r: string)
    ensures |r| == |s|
    ensures forall i :: 0 <= i < |s| ==> r[i] == LowerChar(s[i])
  {
    if s == [] then [] else [LowerChar(s[0])] + Lower(s[1..])
  }

  /** `s.toLowerCase() === 'true' || s.toLowerCase() === 'false'`. */
  predicate IsBooleanWord(s: string)
  {
    Lower(s) == "true" || Lower(s) == "false"
  }

  /** A word whose first letter is neither `t` nor `f` in any case is not a boolean word. */
  lemma NotBooleanWord(v: string)
    requires |v| > 0 && LowerChar(v[0]) != 't' && LowerChar(v[0]) != 'f'
    ensures !IsBooleanWord(v)
  {
    assert Lower(v)[0] == LowerChar(v[0]);
  }
}
