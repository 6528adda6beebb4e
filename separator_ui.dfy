/**
 * The options panel of the separator-based parsers: how a separator is
 * shown escaped in a text box and read back, and which radio button is
 * checked for the row and the column separator.
 *
 * Escaping and unescaping are chains of string replacements that each act
 * on the first occurrence of their pattern only.
 */
module SeparatorUI {

  /** Whether `pat` occurs in `s` starting at `i`. */
  predicate OccursAt(s: string, pat: string, i: int) {
    0 <= i && i + |pat| <= |s| && s[i..i + |pat|] == pat
  }

  /** The position of the first occurrence of `pat` in `s`, or -1. */
  function FindFirst(s: string, pat: string): (i: int)
    ensures -1 <= i <= |s|
    ensures i >= 0 ==> OccursAt(s, pat, i)
    ensures forall k :: 0 <= k && (i < 0 || k < i) ==> !OccursAt(s, pat, k)
  {
    if |s| < |pat| then -1
    else if s[..|pat|] == pat then 0
    else
      var j := FindFirst(s[1..], pat);
      forall k | 1 <= k ensures OccursAt(s, pat, k) <==> OccursAt(s[1..], pat, k - 1) {
        if k + |pat| <= |s| {
          var here, there := s[k..k + |pat|], s[1..][k - 1..k - 1 + |pat|];
          assert forall m :: 0 <= m < |pat| ==> here[m] == there[m];
          assert here == there;
        }
      }
      if j < 0 then -1 else j + 1
  }

  /** `s` with its first occurrence of `pat`, if any, replaced by `rep`. */
  function ReplaceFirst(s: string, pat: string, rep: string): (r: string)
    ensures FindFirst(s, pat) < 0 ==> r == s
    ensures FindFirst(s, pat) >= 0 ==>
      var i := FindFirst(s, pat);
      |r| == |s| - |pat| + |rep| &&
      r[..i] == s[..i] && r[i..i + |rep|] == rep && r[i + |rep|..] == s[i + |pat|..]
  {
    var i := FindFirst(s, pat);
    if i < 0 then s else s[..i] + rep + s[i + |pat|..]
  }

  /** A string without `c` has no occurrence of the one-character pattern `[c]`. */
  lemma NotFound(s: string, c: char)
    requires c !in s
    ensures FindFirst(s, [c]) == -1
  {
    forall k | 0 <= k < |s| ensures !OccursAt(s, [c], k) {
      assert s[k..k + 1][0] == s[k];
    }
  }

  /** Shows a separator in a text box: the first backslash, newline and tab, in that order, become escapes. */
  function EncodeSeparator(s: string): string {
    ReplaceFirst(ReplaceFirst(ReplaceFirst(s, "\\", "\\\\"), "\n", "\\n"), "\t", "\\t")
  }

  /** Reads a separator back from a text box: the first `\n`, `\t` and `\\`, in that order, are unescaped. */
  function DecodeSeparator(s: string): string {
    ReplaceFirst(ReplaceFirst(ReplaceFirst(s, "\\n", "\n"), "\\t", "\t"), "\\\\", "\\")
  }

  /** A separator without backslash, newline or tab is shown as it is. */
  lemma EncodePlain(s: string)
    requires '\\' !in s && '\n' !in s && '\t' !in s
    ensures EncodeSeparator(s) == s
  {
    NotFound(s, '\\');
    NotFound(s, '\n');
    NotFound(s, '\t');
  }

  /** A separator without backslash is read back as it is. */
  lemma DecodePlain(s: string)
    requires '\\' !in s
    ensures DecodeSeparator(s) == s
  {
    NoBackslashNoEscape(s, "\\n");
    NoBackslashNoEscape(s, "\\t");
    NoBackslashNoEscape(s, "\\\\");
  }

  lemma NoBackslashNoEscape(s: string, pat: string)
    requires '\\' !in s && |pat| > 0 && pat[0] == '\\'
    ensures FindFirst(s, pat) == -1
  {
    forall k | 0 <= k && k + |pat| <= |s| ensures !OccursAt(s, pat, k) {
      assert s[k..k + |pat|][0] == s[k];
    }
  }

  /** Every one-character separator (comma, tab, newline, backslash, ...) survives being shown and read back. */
  lemma SingleCharacterRoundTrip(c: char)
    ensures DecodeSeparator(EncodeSeparator([c])) == [c]
  {
    if c == '\\' {
      EncodeBackslash();
      DecodeEscapedBackslash();
    } else if c == '\n' {
      EncodeNewline();
      DecodeEscapedNewline();
    } else if c == '\t' {
      EncodeTab();
      DecodeEscapedTab();
    } else {
      EncodePlain([c]);
      DecodePlain([c]);
    }
  }

  lemma EncodeBackslash()
    ensures EncodeSeparator("\\") == "\\\\"
  {
    assert OccursAt("\\", "\\", 0);
    var e := ReplaceFirst("\\", "\\", "\\\\");
    assert e == "\\\\";
    NotFound(e, '\n');
    NotFound(e, '\t');
  }

  lemma DecodeEscapedBackslash()
    ensures DecodeSeparator("\\\\") == "\\"
  {
    var e := "\\\\";
    assert e[0..2][1] == '\\';
    assert !OccursAt(e, "\\n", 0) && !OccursAt(e, "\\t", 0);
    assert FindFirst(e, "\\n") == -1 && FindFirst(e, "\\t") == -1;
    assert OccursAt(e, "\\\\", 0);
  }

  lemma EncodeNewline()
    ensures EncodeSeparator("\n") == "\\n"
  {
    NotFound("\n", '\\');
    assert OccursAt("\n", "\n", 0);
    var e := ReplaceFirst("\n", "\n", "\\n");
    assert e == "\\n";
    NotFound(e, '\t');
  }

  lemma DecodeEscapedNewline()
    ensures DecodeSeparator("\\n") == "\n"
  {
    assert OccursAt("\\n", "\\n", 0);
    var d := ReplaceFirst("\\n", "\\n", "\n");
    assert d == "\n";
    NoBackslashNoEscape(d, "\\t");
    NoBackslashNoEscape(d, "\\\\");
  }

  lemma EncodeTab()
    ensures EncodeSeparator("\t") == "\\t"
  {
    NotFound("\t", '\\');
    NotFound("\t", '\n');
    assert OccursAt("\t", "\t", 0);
    var e := ReplaceFirst("\t", "\t", "\\t");
    assert e == "\\t";
  }

  lemma DecodeEscapedTab()
    ensures DecodeSeparator("\\t") == "\t"
  {
    var e := "\\t";
    assert !OccursAt(e, "\\n", 0);
    assert FindFirst(e, "\\n") == -1;
    assert OccursAt(e, "\\t", 0);
    var d := ReplaceFirst(e, "\\t", "\t");
    assert d == "\t";
    NoBackslashNoEscape(d, "\\\\");
  }

  /**
   * Not every separator survives: a backslash followed by the letter n is
   * shown as two backslashes and an n, and read back as a backslash and a
   * newline.
   */
  lemma BackslashNDoesNotRoundTrip()
    ensures EncodeSeparator("\\n") == "\\\\n"
    ensures DecodeSeparator(EncodeSeparator("\\n")) == "\\\n"
    ensures DecodeSeparator(EncodeSeparator("\\n")) != "\\n"
  {
    EncodeBackslashN();
    DecodeEscapedBackslashN();
  }

  lemma EncodeBackslashN()
    ensures EncodeSeparator("\\n") == "\\\\n"
  {
    var s := "\\n";
    assert OccursAt(s, "\\", 0);
    var e := ReplaceFirst(s, "\\", "\\\\");
    assert e == "\\\\n";
    NotFound(e, '\n');
    NotFound(e, '\t');
  }

  lemma DecodeEscapedBackslashN()
    ensures DecodeSeparator("\\\\n") == "\\\n"
  {
    var e := "\\\\n";
    assert e[0..2][1] == '\\' && e[1..3] == "\\n";
    assert !OccursAt(e, "\\n", 0) && OccursAt(e, "\\n", 1);
    assert FindFirst(e, "\\n") == 1;
    var d := ReplaceFirst(e, "\\n", "\n");
    assert d == "\\\n";
    assert !OccursAt(d, "\\t", 0) && !OccursAt(d, "\\\\", 0);
    assert FindFirst(d, "\\t") == -1 && FindFirst(d, "\\\\") == -1;
  }

  /** The row-separator radio buttons. */
  datatype RowSeparatorChoice = NewLine | CustomRowSeparator

  /** The column-separator radio buttons. */
  datatype ColumnSeparatorChoice = Comma | Tab | CustomColumnSeparator

  /** The row-separator radio checked for a configured line separator. */
  function RowSeparatorRadio(lineSeparator: string): (r: RowSeparatorChoice)
    ensures r == NewLine <==> lineSeparator == "\n"
    ensures r == CustomRowSeparator <==> lineSeparator != "\n"
  {
    if lineSeparator == "\n" then NewLine else CustomRowSeparator
  }

  /** The column-separator radio checked for a configured separator. */
  function ColumnSeparatorRadio(separator: string): (r: ColumnSeparatorChoice)
    ensures r == Comma <==> separator == ","
    ensures r == Tab <==> separator == "\t"
    ensures r == CustomColumnSeparator <==> separator != "," && separator != "\t"
  {
    if separator == "," then Comma
    else if separator == "\t" then Tab
    else CustomColumnSeparator
  }
}
