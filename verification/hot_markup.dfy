/** The string-built HTML of hot.js: `tag`, `styled`, `esc` and
    `row_markup`, which renders one line of Kakoune atoms as a `div` of
    inline `pre` cells. */
module HotMarkup {
  import opened Prelude
  import opened Colours
  import opened Atoms

  /** `tag(name)(inner)`: the closing tag repeats only the first word of
      `name`, so attributes may follow it. */
  function HtmlTag(name: string, inner: string): string {
    "<" + name + ">" + inner + "</" + FirstWord(name) + ">"
  }

  /** A tag opened with attributes is closed by its bare name. */
  lemma TagCloses(w: string, attrs: string, inner: string)
    requires ' ' !in w
    ensures HtmlTag(w + " " + attrs, inner) == "<" + (w + " " + attrs) + ">" + inner + "</" + w + ">"
    ensures HtmlTag(w, inner) == "<" + w + ">" + inner + "</" + w + ">"
  {
    var name := w + " " + attrs;
    assert name[|w|] == ' ';
    assert name[..|w|] == w;
    assert FirstWord(name) == w;
  }

  /** `styled(style, s)`: an inline-block `pre` carrying `style`. */
  function Styled(style: string, s: string): string {
    HtmlTag("pre" + " " + PreAttributes(style), s)
  }

  /** A styled cell is a `pre` closed by `</pre>`. */
  lemma StyledShape(style: string, s: string)
    ensures Styled(style, s) == "<" + ("pre" + " " + PreAttributes(style)) + ">" + s + "</" + "pre" + ">"
  {
    assert "pre" == ['p', 'r', 'e'];
    TagCloses("pre", PreAttributes(style), s);
  }

  function PreAttributes(style: string): string {
    "style=\"display:inline-block; margin: 0; " + style + "\""
  }

  /** `esc`: each of `&`, `<`, `>` and `"` is replaced, in that order, at its
      first occurrence only. */
  function Esc(s: string): string {
    ReplaceFirst(ReplaceFirst(ReplaceFirst(ReplaceFirst(s, '&', "&amp;"), '<', "&lt;"), '>', "&gt;"), '"', "&quot;")
  }

  /** Text without any of the four characters passes through unchanged. */
  lemma EscUnchanged(s: string)
    requires '&' !in s && '<' !in s && '>' !in s && '"' !in s
    ensures Esc(s) == s
  {
  }

  function Fired(c: char, s: string): nat {
    if c in s then 1 else 0
  }

  /** A character none of the escapes looks for, and not a newline. */
  predicate Inert(ch: char) {
    ch != '&' && ch != '<' && ch != '>' && ch != '"' && ch != '\n'
  }

  /** An escape text: one `&`, then characters that none of the escapes
      looks for, and no newline. */
  predicate EscapeText(r: string) {
    |r| > 0 && r[0] == '&' && forall i :: 1 <= i < |r| ==> Inert(r[i])
  }

  lemma EscapeTextFacts(r: string)
    requires EscapeText(r)
    ensures '<' !in r && '>' !in r && '"' !in r && '\n' !in r
    ensures Count(r, '&') == 1
  {
    assert r == [r[0]] + r[1..];
    assert '&' !in r[1..];
    CountAbsent(r[1..], '&');
  }

  /** The characters each escape writes. */
  lemma EscapeTexts()
    ensures '<' !in "&amp;" && '>' !in "&amp;" && '"' !in "&amp;" && '\n' !in "&amp;"
    ensures '<' !in "&lt;" && '>' !in "&lt;" && '"' !in "&lt;" && '\n' !in "&lt;"
    ensures '<' !in "&gt;" && '>' !in "&gt;" && '"' !in "&gt;" && '\n' !in "&gt;"
    ensures '<' !in "&quot;" && '>' !in "&quot;" && '"' !in "&quot;" && '\n' !in "&quot;"
    ensures Count("&amp;", '&') == 1 && Count("&lt;", '&') == 1 && Count("&gt;", '&') == 1 && Count("&quot;", '&') == 1
  {
    EscapeTextFacts("&amp;");
    EscapeTextFacts("&lt;");
    EscapeTextFacts("&gt;");
    EscapeTextFacts("&quot;");
  }

  /** Only the first `<` is escaped. */
  lemma EscFirstLess(s: string)
    ensures Count(Esc(s), '<') == if '<' in s then Count(s, '<') - 1 else 0
  {
    EscapeTexts();
    var s1 := ReplaceFirst(s, '&', "&amp;");
    var s2 := ReplaceFirst(s1, '<', "&lt;");
    var s3 := ReplaceFirst(s2, '>', "&gt;");
    ReplaceFirstKeeps(s, '&', "&amp;", '<');
    ReplaceFirstCount(s1, '<', "&lt;", '<');
    ReplaceFirstKeeps(s2, '>', "&gt;", '<');
    ReplaceFirstKeeps(s3, '"', "&quot;", '<');
    CountAbsent(s, '<');
    CountAbsent(s1, '<');
    CountAbsent("&lt;", '<');
  }

  /** Only the first `>` is escaped. */
  lemma EscFirstGreater(s: string)
    ensures Count(Esc(s), '>') == if '>' in s then Count(s, '>') - 1 else 0
  {
    EscapeTexts();
    var s1 := ReplaceFirst(s, '&', "&amp;");
    var s2 := ReplaceFirst(s1, '<', "&lt;");
    var s3 := ReplaceFirst(s2, '>', "&gt;");
    ReplaceFirstKeeps(s, '&', "&amp;", '>');
    ReplaceFirstKeeps(s1, '<', "&lt;", '>');
    ReplaceFirstCount(s2, '>', "&gt;", '>');
    ReplaceFirstKeeps(s3, '"', "&quot;", '>');
    CountAbsent(s, '>');
    CountAbsent(s2, '>');
    CountAbsent("&gt;", '>');
  }

  /** Only the first `"` is escaped. */
  lemma EscFirstQuote(s: string)
    ensures Count(Esc(s), '"') == if '"' in s then Count(s, '"') - 1 else 0
  {
    EscapeTexts();
    var s1 := ReplaceFirst(s, '&', "&amp;");
    var s2 := ReplaceFirst(s1, '<', "&lt;");
    var s3 := ReplaceFirst(s2, '>', "&gt;");
    ReplaceFirstKeeps(s, '&', "&amp;", '"');
    ReplaceFirstKeeps(s1, '<', "&lt;", '"');
    ReplaceFirstKeeps(s2, '>', "&gt;", '"');
    ReplaceFirstCount(s3, '"', "&quot;", '"');
    CountAbsent(s, '"');
    CountAbsent(s3, '"');
    CountAbsent("&quot;", '"');
  }

  /** `&` is escaped first, so the `&` each later escape writes stays as it
      is: the `&`s of the result are the input's plus one per later escape
      that fired. */
  lemma EscAmpersands(s: string)
    ensures Count(Esc(s), '&') == Count(s, '&') + Fired('<', s) + Fired('>', s) + Fired('"', s)
  {
    EscapeTexts();
    var s1 := ReplaceFirst(s, '&', "&amp;");
    var s2 := ReplaceFirst(s1, '<', "&lt;");
    var s3 := ReplaceFirst(s2, '>', "&gt;");
    ReplaceFirstCount(s, '&', "&amp;", '&');
    ReplaceFirstCount(s1, '<', "&lt;", '&');
    ReplaceFirstCount(s2, '>', "&gt;", '&');
    ReplaceFirstCount(s3, '"', "&quot;", '&');
    EscStepsSee(s);
  }

  /** The escapes before a character's own leave its presence as it was. */
  lemma EscStepsSee(s: string)
    ensures var s1 := ReplaceFirst(s, '&', "&amp;");
      var s2 := ReplaceFirst(s1, '<', "&lt;");
      var s3 := ReplaceFirst(s2, '>', "&gt;");
      ('<' in s1 <==> '<' in s) && ('>' in s2 <==> '>' in s) && ('"' in s3 <==> '"' in s)
  {
    EscapeTexts();
    var s1 := ReplaceFirst(s, '&', "&amp;");
    var s2 := ReplaceFirst(s1, '<', "&lt;");
    var s3 := ReplaceFirst(s2, '>', "&gt;");
    ReplaceFirstKeeps(s, '&', "&amp;", '<');
    ReplaceFirstKeeps(s, '&', "&amp;", '>');
    ReplaceFirstKeeps(s, '&', "&amp;", '"');
    ReplaceFirstKeeps(s1, '<', "&lt;", '>');
    ReplaceFirstKeeps(s1, '<', "&lt;", '"');
    ReplaceFirstKeeps(s2, '>', "&gt;", '"');
    CountAbsent(s, '<');
    CountAbsent(s, '>');
    CountAbsent(s, '"');
    CountAbsent(s1, '<');
    CountAbsent(s2, '>');
    CountAbsent(s3, '"');
    CountAbsent(s1, '>');
    CountAbsent(s1, '"');
    CountAbsent(s2, '"');
  }

  /** `esc` replaces only the first occurrence of each character: a lone `<`
      becomes `&lt;` (not `&amp;lt;`), and a second `<` is left alone. */
  lemma EscOneLess()
    ensures Esc("<") == "&lt;"
  {
    assert IndexOf("<", '&') == None;
    assert IndexOf("<", '<') == Some(0);
    assert IndexOf("&lt;", '>') == None;
    assert IndexOf("&lt;", '"') == None;
  }

  lemma EscTwoLess()
    ensures Esc("<<") == "&lt;<"
  {
    assert IndexOf("<<", '&') == None;
    assert IndexOf("<<", '<') == Some(0);
    assert "<<"[..0] + "&lt;" + "<<"[1..] == "&lt;<";
    assert IndexOf("&lt;<", '>') == None;
    assert IndexOf("&lt;<", '"') == None;
  }

  /** The style of one cell: its colours, a default name falling back to the
      line's default face. */
  function CellStyle(face: Face, defaultFace: Face, rgb: string -> string): string {
    "\n        color:" + ColorToCssHot(face.fg, Some(defaultFace.fg), rgb) +
    ";\n        background:" + ColorToCssHot(face.bg, Some(defaultFace.bg), rgb) + "\n      "
  }

  /** The text of one cell: its first newline shown as a space, escaped. */
  function CellText(contents: string): string {
    Esc(ReplaceFirst(contents, '\n', " "))
  }

  function CellMarkup(atom: Atom, defaultFace: Face, rgb: string -> string): string {
    Styled(CellStyle(atom.face, defaultFace, rgb), CellText(atom.contents))
  }

  const RowAttributes: string := "style=\"height:0.93em;\""

  const RowTag: string := "div" + " " + RowAttributes

  function CellsMarkup(defaultFace: Face, row: seq<Atom>, rgb: string -> string): (cells: seq<string>)
    ensures |cells| == |row|
    ensures forall i :: 0 <= i < |row| ==> cells[i] == CellMarkup(row[i], defaultFace, rgb)
  {
    seq(|row|, i requires 0 <= i < |row| => CellMarkup(row[i], defaultFace, rgb))
  }

  /** `row_markup(default_face)(row)`: one styled `pre` per atom, in order,
      inside one `div`. */
  function RowMarkup(defaultFace: Face, row: seq<Atom>, rgb: string -> string): string {
    HtmlTag(RowTag, Concat(CellsMarkup(defaultFace, row, rgb)))
  }

  /** A row is a `div` closed by `</div>` around its cells. */
  lemma RowMarkupShape(defaultFace: Face, row: seq<Atom>, rgb: string -> string)
    ensures RowMarkup(defaultFace, row, rgb) == "<" + RowTag + ">" + Concat(CellsMarkup(defaultFace, row, rgb)) + "</" + "div" + ">"
  {
    TagCloses("div", RowAttributes, Concat(CellsMarkup(defaultFace, row, rgb)));
  }

  /** The cells of a row are its atoms' cells in order: appending atoms
      appends their cells. */
  lemma RowCellsAppend(defaultFace: Face, a: seq<Atom>, b: seq<Atom>, rgb: string -> string)
    ensures Concat(CellsMarkup(defaultFace, a + b, rgb)) ==
      Concat(CellsMarkup(defaultFace, a, rgb)) + Concat(CellsMarkup(defaultFace, b, rgb))
  {
    var ab := CellsMarkup(defaultFace, a + b, rgb);
    var ca := CellsMarkup(defaultFace, a, rgb);
    var cb := CellsMarkup(defaultFace, b, rgb);
    forall i | 0 <= i < |ab| ensures ab[i] == (ca + cb)[i] {
      if i < |a| {
        assert (a + b)[i] == a[i];
      } else {
        assert (a + b)[i] == b[i - |a|];
      }
    }
    assert ab == ca + cb;
    ConcatAppend(CellsMarkup(defaultFace, a, rgb), CellsMarkup(defaultFace, b, rgb));
  }

  /** Escaping leaves newlines alone. */
  lemma EscNewlines(s: string)
    ensures Count(Esc(s), '\n') == Count(s, '\n')
  {
    EscapeTexts();
    var s1 := ReplaceFirst(s, '&', "&amp;");
    var s2 := ReplaceFirst(s1, '<', "&lt;");
    var s3 := ReplaceFirst(s2, '>', "&gt;");
    ReplaceFirstKeeps(s, '&', "&amp;", '\n');
    ReplaceFirstKeeps(s1, '<', "&lt;", '\n');
    ReplaceFirstKeeps(s2, '>', "&gt;", '\n');
    ReplaceFirstKeeps(s3, '"', "&quot;", '\n');
  }

  /** Only a cell's first newline becomes a space. */
  lemma CellNewlines(contents: string)
    ensures Count(CellText(contents), '\n') == if '\n' in contents then Count(contents, '\n') - 1 else 0
  {
    var t := ReplaceFirst(contents, '\n', " ");
    assert Count(" ", '\n') == 0 by {
      CountAbsent(" ", '\n');
    }
    ReplaceFirstCount(contents, '\n', " ", '\n');
    assert Count(t, '\n') == if '\n' in contents then Count(contents, '\n') - 1 else Count(contents, '\n');
    EscNewlines(t);
    assert Count(CellText(contents), '\n') == Count(t, '\n');
    CountAbsent(contents, '\n');
  }

  /** A cell is a `pre` closed by `</pre>` around its text, and a default
      colour name takes the line's default colour. */
  lemma CellMarkupShape(atom: Atom, defaultFace: Face, rgb: string -> string)
    ensures exists style :: CellMarkup(atom, defaultFace, rgb) == "<" + ("pre" + " " + style) + ">" + CellText(atom.contents) + "</" + "pre" + ">"
  {
    StyledShape(CellStyle(atom.face, defaultFace, rgb), CellText(atom.contents));
  }
}
