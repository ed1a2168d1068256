/**
 * `escapeHtml` (src/extension.ts:1221-1229): one pass over the text that
 * replaces each of `& < > " '` by its HTML entity, so that a cell's text can
 * be placed inside the table markup.
 */
module HtmlEscape {

  /** The characters that have an entity. */
  predicate Special(c: char)
  {
    c == '&' || c == '<' || c == '>' || c == '"' || c == '\''
  }

  /** The replacement for one character: its entity, or the character itself. */
  function EscapeChar(c: char): (r: string)
    ensures Special(c) ==> |r| > 1 && r[0] == '&'
    ensures !Special(c) ==> r == [c]
  {
    if c == '&' then "&amp;"
    else if c == '<' then "&lt;"
    else if c == '>' then "&gt;"
    else if c == '"' then "&quot;"
    else if c == '\'' then "&#39;"
    else [c]
  }

  /** No raw `<`, `>`, `"` or `'`: the text cannot open or close a tag or an attribute. */
  predicate Safe(s: string)
  {
    forall i :: 0 <= i < |s| ==> s[i] != '<' && s[i] != '>' && s[i] != '"' && s[i] != '\''
  }

  function EscapeHtml(s: string): (r: string)
    ensures Safe(r)
    ensures |r| >= |s|
    decreases |s|
  {
    if s == [] then ""
    else
      var head := EscapeChar(s[0]);
      var rest := EscapeHtml(s[1..]);
      assert Safe(head);
      assert forall i :: |head| <= i < |head + rest| ==> (head + rest)[i] == rest[i - |head|];
      head + rest
  }

  /** Decoding of the five entities `escapeHtml` writes; any other text is kept. */
  function UnescapeHtml(s: string): string
    decreases |s|
  {
    if s == [] then ""
    else if |s| >= 5 && s[..5] == "&amp;" then "&" + UnescapeHtml(s[5..])
    else if |s| >= 4 && s[..4] == "&lt;" then "<" + UnescapeHtml(s[4..])
    else if |s| >= 4 && s[..4] == "&gt;" then ">" + UnescapeHtml(s[4..])
    else if |s| >= 6 && s[..6] == "&quot;" then "\"" + UnescapeHtml(s[6..])
    else if |s| >= 5 && s[..5] == "&#39;" then "'" + UnescapeHtml(s[5..])
    else [s[0]] + UnescapeHtml(s[1..])
  }

  /** Decoding an entity followed by more text. */
  lemma UnescapeEntity(e: string, c: char, t: string)
    requires e == EscapeChar(c) && Special(c)
    ensures UnescapeHtml(e + t) == [c] + UnescapeHtml(t)
  {
    var s := e + t;
    assert s[..|e|] == e;
    assert s[|e|..] == t;
    assert s[0] == '&' && s[1] == e[1];
    if c == '&' {
      assert s[..5] == "&amp;";
    } else if c == '<' {
      assert |s| < 5 || s[..5] != "&amp;";
      assert s[..4] == "&lt;";
    } else if c == '>' {
      assert (|s| < 5 || s[..5] != "&amp;") && s[..4] != "&lt;";
      assert s[..4] == "&gt;";
    } else if c == '"' {
      assert s[..5] != "&amp;" && s[..4] != "&lt;" && s[..4] != "&gt;";
      assert s[..6] == "&quot;";
    } else {
      assert s[..5] != "&amp;" && s[..4] != "&lt;" && s[..4] != "&gt;";
      assert |s| < 6 || s[..6] != "&quot;";
      assert s[..5] == "&#39;";
    }
  }

  lemma UnescapeOne(c: char, t: string)
    ensures UnescapeHtml(EscapeChar(c) + t) == [c] + UnescapeHtml(t)
  {
    if Special(c) {
      UnescapeEntity(EscapeChar(c), c, t);
    } else {
      var s := [c] + t;
      assert s[0] == c;
      assert s[1..] == t;
    }
  }

  /** Escaping loses nothing: decoding the entities gives back the text. */
  lemma {:induction false} UnescapeEscape(s: string)
    ensures UnescapeHtml(EscapeHtml(s)) == s
    decreases |s|
  {
    if s != [] {
      UnescapeEscape(s[1..]);
      UnescapeOne(s[0], EscapeHtml(s[1..]));
      assert s == [s[0]] + s[1..];
    }
  }

  /** Escaping distributes over concatenation. */
  lemma {:induction false} EscapeConcat(a: string, b: string)
    ensures EscapeHtml(a + b) == EscapeHtml(a) + EscapeHtml(b)
    decreases |a|
  {
    if a == [] {
      assert a + b == b;
    } else {
      assert (a + b)[1..] == a[1..] + b;
      EscapeConcat(a[1..], b);
    }
  }

  /** Text without special characters is left as it is, and only such text is. */
  lemma {:induction false} EscapeIdentity(s: string)
    ensures EscapeHtml(s) == s <==> forall i :: 0 <= i < |s| ==> !Special(s[i])
    decreases |s|
  {
    if s != [] {
      EscapeIdentity(s[1..]);
      assert s == [s[0]] + s[1..];
      if Special(s[0]) {
        assert |EscapeHtml(s)| > |s|;
      }
      assert (forall i :: 0 <= i < |s| ==> !Special(s[i])) <==>
             !Special(s[0]) && (forall i :: 0 <= i < |s[1..]| ==> !Special(s[1..][i]));
    }
  }

  /** `w` occurs in `s` at position `j`. */
  predicate At(s: string, w: string, j: nat)
  {
    j + |w| <= |s| && s[j..j + |w|] == w
  }

  predicate Contains(s: string, w: string)
  {
    exists j: nat | j <= |s| :: At(s, w, j)
  }

  /** Every `<` of the text shows up as `&lt;` in the escaped text. */
  lemma {:induction false} EscapeShowsLt(s: string, i: nat)
    requires i < |s| && s[i] == '<'
    ensures Contains(EscapeHtml(s), "&lt;")
    decreases i
  {
    var head, rest := EscapeChar(s[0]), EscapeHtml(s[1..]);
    assert EscapeHtml(s) == head + rest;
    if i == 0 {
      assert At(head + rest, "&lt;", 0);
    } else {
      EscapeShowsLt(s[1..], i - 1);
      var j: nat :| j <= |rest| && At(rest, "&lt;", j);
      AtShift(head, rest, "&lt;", j);
    }
  }

  /** A word found in a text is still found, further on, once something is put in front. */
  lemma AtShift(x: string, y: string, w: string, j: nat)
    requires At(y, w, j)
    ensures At(x + y, w, |x| + j)
  {
    assert (x + y)[|x| + j..|x| + j + |w|] == y[j..j + |w|];
  }
}
