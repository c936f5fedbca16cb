/** Rendering a line of Kakoune atoms (`markup_atoms`) into styled cells,
    the private-use-area offset rule of kakoune.js, and the menu's item
    selection. A cell is one `pre`: the face it is styled with and its text. */
module Atoms {
  import opened Prelude

  datatype Face = Face(fg: string, bg: string, attributes: seq<string>)

  datatype Atom = Atom(face: Face, contents: string)

  const DefaultFace: Face := Face("default", "default", [])

  /** `empty_atom`: one space in the default face. */
  const SpaceAtom: Atom := Atom(DefaultFace, " ")

  datatype Cell = Cell(face: Face, text: string)

  /** A JavaScript exception. */
  datatype RenderError = TypeError

  /** `atoms_text`: the contents run together. */
  function Text(atoms: seq<Atom>): string
    decreases |atoms|
  {
    if |atoms| == 0 then "" else atoms[0].contents + Text(atoms[1..])
  }

  lemma {:induction false} TextAppend(a: seq<Atom>, b: seq<Atom>)
    ensures Text(a + b) == Text(a) + Text(b)
    decreases |a|
  {
    if |a| > 0 {
      assert (a + b)[0] == a[0];
      assert (a + b)[1..] == a[1..] + b;
      TextAppend(a[1..], b);
    } else {
      assert a + b == b;
    }
  }

  /** The chopping loop: while atoms remain and fewer than `n` characters
      have been removed, drop one character of a non-empty first atom, or
      drop an empty first atom. */
  function Chop(atoms: seq<Atom>, n: nat): seq<Atom>
    decreases n, |atoms|
  {
    if n == 0 || |atoms| == 0 then atoms
    else if |atoms[0].contents| > 0 then
      Chop([atoms[0].(contents := atoms[0].contents[1..])] + atoms[1..], n - 1)
    else Chop(atoms[1..], n)
  }

  /** Chopping `n` removes exactly `min(n, |text|)` leading characters. */
  lemma {:induction false} ChopText(atoms: seq<Atom>, n: nat)
    ensures Text(Chop(atoms, n)) == Text(atoms)[Min(n, |Text(atoms)|)..]
    decreases n, |atoms|
  {
    if n == 0 || |atoms| == 0 {
    } else if |atoms[0].contents| > 0 {
      var a' := [atoms[0].(contents := atoms[0].contents[1..])] + atoms[1..];
      assert a'[1..] == atoms[1..];
      assert Text(a') == Text(atoms)[1..];
      ChopText(a', n - 1);
      assert Text(atoms)[1..][Min(n - 1, |Text(a')|)..] == Text(atoms)[Min(n, |Text(atoms)|)..];
    } else {
      ChopText(atoms[1..], n);
    }
  }

  /** `c` is a suffix of `atoms` up to the contents of its first atom: every
      atom keeps its face and every later atom is untouched. */
  predicate SuffixKept(atoms: seq<Atom>, c: seq<Atom>) {
    |c| <= |atoms| &&
    (forall i :: 0 <= i < |c| ==> c[i].face == atoms[|atoms| - |c| + i].face) &&
    (forall i :: 0 < i < |c| ==> c[i] == atoms[|atoms| - |c| + i])
  }

  lemma SuffixKeptDrop(atoms: seq<Atom>, c: seq<Atom>)
    requires |atoms| > 0 && |atoms[0].contents| > 0
    requires SuffixKept([atoms[0].(contents := atoms[0].contents[1..])] + atoms[1..], c)
    ensures SuffixKept(atoms, c)
  {
    var a' := [atoms[0].(contents := atoms[0].contents[1..])] + atoms[1..];
    var d := |atoms| - |c|;
    forall i | 0 <= i < |c| ensures c[i].face == atoms[d + i].face {
      assert c[i].face == a'[d + i].face;
    }
    forall i | 0 < i < |c| ensures c[i] == atoms[d + i] {
      assert c[i] == a'[d + i];
    }
  }

  lemma SuffixKeptTail(atoms: seq<Atom>, c: seq<Atom>)
    requires |atoms| > 0 && SuffixKept(atoms[1..], c)
    ensures SuffixKept(atoms, c)
  {
    var t := atoms[1..];
    var d := |t| - |c|;
    forall i | 0 <= i < |c| ensures c[i].face == atoms[d + 1 + i].face {
      assert c[i].face == t[d + i].face;
    }
    forall i | 0 < i < |c| ensures c[i] == atoms[d + 1 + i] {
      assert c[i] == t[d + i];
    }
  }

  /** Chopping never restyles: what is left is a suffix of the line whose
      atoms keep their faces, and every atom after the first is untouched. */
  lemma {:induction false} ChopFaces(atoms: seq<Atom>, n: nat)
    ensures SuffixKept(atoms, Chop(atoms, n))
    decreases n, |atoms|
  {
    if n == 0 || |atoms| == 0 {
      assert Chop(atoms, n) == atoms;
    } else if |atoms[0].contents| > 0 {
      var a' := [atoms[0].(contents := atoms[0].contents[1..])] + atoms[1..];
      ChopFaces(a', n - 1);
      SuffixKeptDrop(atoms, Chop(a', n - 1));
    } else {
      ChopFaces(atoms[1..], n);
      SuffixKeptTail(atoms, Chop(atoms[1..], n));
    }
  }

  /** Asking for more characters than the line has removes every atom. */
  lemma {:induction false} ChopExhausts(atoms: seq<Atom>, n: nat)
    requires n > |Text(atoms)|
    ensures Chop(atoms, n) == []
    decreases n, |atoms|
  {
    if |atoms| > 0 {
      if |atoms[0].contents| > 0 {
        var a' := [atoms[0].(contents := atoms[0].contents[1..])] + atoms[1..];
        assert a'[1..] == atoms[1..];
        assert |Text(a')| == |Text(atoms)| - 1;
        ChopExhausts(a', n - 1);
      } else {
        ChopExhausts(atoms[1..], n);
      }
    }
  }

  /** The last atom of a non-empty line without text gets a newline, so
      the line keeps its height. */
  function FillEmpty(atoms: seq<Atom>): seq<Atom> {
    if |atoms| > 0 && Text(atoms) == "" then
      atoms[..|atoms| - 1] + [atoms[|atoms| - 1].(contents := "\n")]
    else atoms
  }

  lemma FillEmptyMeaning(atoms: seq<Atom>)
    ensures |FillEmpty(atoms)| == |atoms|
    ensures forall i :: 0 <= i < |atoms| ==> FillEmpty(atoms)[i].face == atoms[i].face
    ensures |atoms| > 0 && Text(atoms) == "" ==> Text(FillEmpty(atoms)) == "\n"
    ensures !(|atoms| > 0 && Text(atoms) == "") ==> FillEmpty(atoms) == atoms
  {
    if |atoms| > 0 && Text(atoms) == "" {
      var init := atoms[..|atoms| - 1];
      var last := atoms[|atoms| - 1];
      assert atoms == init + [last];
      FilledText(init, last);
    }
  }

  lemma FilledText(init: seq<Atom>, last: Atom)
    requires Text(init + [last]) == ""
    ensures Text(init + [last.(contents := "\n")]) == "\n"
  {
    TextAppend(init, [last]);
    TextAppend(init, [last.(contents := "\n")]);
    assert Text([last.(contents := "\n")]) == "\n" + Text([]);
  }

  /** `is_empty`: absent, or one atom without contents. */
  predicate IsEmpty(atoms: Option<seq<Atom>>) {
    atoms.None? || (|atoms.value| == 1 && atoms.value[0].contents == "")
  }

  function EnsureNonempty(atoms: Option<seq<Atom>>): (r: seq<Atom>)
    ensures IsEmpty(atoms) ==> r == [SpaceAtom]
    ensures !IsEmpty(atoms) ==> r == atoms.value
  {
    if IsEmpty(atoms) then [SpaceAtom] else atoms.value
  }

  /** One `pre` per atom: its face, and its contents with every newline
      shown as a space. */
  function Cells(atoms: seq<Atom>): (cs: seq<Cell>)
    ensures |cs| == |atoms|
    ensures forall i :: 0 <= i < |atoms| ==> cs[i].face == atoms[i].face
    decreases |atoms|
  {
    if |atoms| == 0 then []
    else [Cell(atoms[0].face, ReplaceAll(atoms[0].contents, '\n', " "))] + Cells(atoms[1..])
  }

  function CellText(cs: seq<Cell>): string
    decreases |cs|
  {
    if |cs| == 0 then "" else cs[0].text + CellText(cs[1..])
  }

  /** The cells show the line's text with newlines as spaces. */
  lemma {:induction false} CellsText(atoms: seq<Atom>)
    ensures CellText(Cells(atoms)) == ReplaceAll(Text(atoms), '\n', " ")
    ensures '\n' !in CellText(Cells(atoms))
    decreases |atoms|
  {
    if |atoms| > 0 {
      CellsText(atoms[1..]);
      ReplaceAllAppend(atoms[0].contents, Text(atoms[1..]), '\n', " ");
    }
    ReplaceAllRemoves(Text(atoms), '\n', " ");
  }

  /** kakoune.js `atoms_markup` as written: an absent list fails at
      `atoms.length` before `ensure_nonempty` can look at it. */
  function MarkupJsAsWritten(atoms: Option<seq<Atom>>, offset: nat): (r: Result<seq<Cell>, RenderError>)
    ensures r.Err? <==> atoms.None?
  {
    match atoms
    case None => Err(TypeError)
    case Some(a) => Ok(Cells(EnsureNonempty(Some(FillEmpty(Chop(a, offset))))))
  }

  /** kakoune.js `atoms_markup` as `is_empty` intends it: an absent list is
      one space in the default face. */
  function MarkupJs(atoms: Option<seq<Atom>>, offset: nat): (cs: seq<Cell>)
    ensures atoms.None? ==> cs == [Cell(DefaultFace, " ")]
    ensures atoms.Some? ==> Ok(cs) == MarkupJsAsWritten(atoms, offset)
  {
    match atoms
    case None =>
      ReplaceAllAbsent(" ", '\n', " ");
      Cells([SpaceAtom])
    case Some(a) => Cells(EnsureNonempty(Some(FillEmpty(Chop(a, offset)))))
  }

  /** The counterexample: the absent list crashes the as-written version
      while `is_empty` was meant to catch it, and the `ensure_nonempty`
      guard never fires on a present list. */
  lemma AbsentListCrashes()
    ensures MarkupJsAsWritten(None, 0) == Err(TypeError)
    ensures IsEmpty(None) && EnsureNonempty(None) == [SpaceAtom]
    ensures forall a: seq<Atom>, n: nat :: !IsEmpty(Some(FillEmpty(Chop(a, n))))
  {
    forall a: seq<Atom>, n: nat ensures !IsEmpty(Some(FillEmpty(Chop(a, n)))) {
      var c := Chop(a, n);
      FillEmptyMeaning(c);
      if |c| == 1 && Text(c) == "" {
        assert FillEmpty(c)[0].contents == "\n";
      } else if |c| == 1 {
        assert Text(c) == c[0].contents + Text([]);
      }
    }
  }

  /** What the corrected kakoune.js renderer shows: after chopping `offset`
      characters, one cell per atom left, faces kept; the cells' text is the
      rest of the line with newlines as spaces, a lone space when the rest is
      empty but atoms remain, and nothing when no atom remains. */
  lemma MarkupJsMeaning(a: seq<Atom>, offset: nat)
    ensures var c := Chop(a, offset);
      |MarkupJs(Some(a), offset)| == |c| &&
      (forall i :: 0 <= i < |c| ==> MarkupJs(Some(a), offset)[i].face == c[i].face) &&
      CellText(MarkupJs(Some(a), offset)) ==
        if |c| == 0 then "" else if Text(c) == "" then " " else ReplaceAll(Text(a)[Min(offset, |Text(a)|)..], '\n', " ")
  {
    var c := Chop(a, offset);
    AbsentListCrashes();
    ChopText(a, offset);
    FillEmptyMeaning(c);
    CellsText(FillEmpty(c));
    if |c| > 0 && Text(c) == "" {
      assert ReplaceAll("\n", '\n', " ") == " " + ReplaceAll("", '\n', " ");
    }
  }

  /** Kakoune.tsx `atoms_markup`: no chopping; an empty line is one space
      in the default face. */
  function MarkupTsx(atoms: Option<seq<Atom>>): (cs: seq<Cell>)
    ensures IsEmpty(atoms) ==> cs == [Cell(DefaultFace, " ")]
    ensures !IsEmpty(atoms) ==> |cs| == |atoms.value| && CellText(cs) == ReplaceAll(Text(atoms.value), '\n', " ")
  {
    CellsText(EnsureNonempty(atoms));
    Cells(EnsureNonempty(atoms))
  }

  /** The two renderers agree on a line that is neither empty nor chopped;
      on a single atom without contents kakoune.js keeps the atom's face
      where Kakoune.tsx uses the default face. */
  lemma MarkupVersionsAgree(a: seq<Atom>, f: Face)
    ensures !IsEmpty(Some(a)) && Text(a) != "" ==> MarkupJs(Some(a), 0) == MarkupTsx(Some(a))
    ensures MarkupJs(Some([Atom(f, "")]), 0) == [Cell(f, " ")]
    ensures MarkupTsx(Some([Atom(f, "")])) == [Cell(DefaultFace, " ")]
  {
    var one := [Atom(f, "")];
    assert Chop(one, 0) == one;
    assert Text(one) == "" + Text([]);
    assert one[..0] == [];
    assert FillEmpty(one) == [Atom(f, "\n")];
    assert !IsEmpty(Some([Atom(f, "\n")]));
    assert ReplaceAll("\n", '\n', " ") == " " + ReplaceAll("", '\n', " ");
    assert ReplaceAll("\n", '\n', " ") == " ";
    assert [Atom(f, "\n")][1..] == [];
    assert Cells([Atom(f, "\n")]) == [Cell(f, " ")] + Cells([]);
    ReplaceAllAbsent(" ", '\n', " ");
    assert Cells([SpaceAtom]) == [Cell(DefaultFace, " ")] + Cells([]);
  }

  /** `pua`: one character of the private use area U+E000..U+F8FF. */
  predicate Pua(s: string) {
    |s| == 1 && '\U{E000}' <= s[0] <= '\U{F8FF}'
  }

  /** `state.offset`: `lines.some(...)` stops at the first line whose first
      atom is a private-use character; an absent line is skipped; a present
      line without atoms fails at `atoms[0].contents`. */
  function Offset(lines: seq<Option<seq<Atom>>>): (r: Result<nat, RenderError>)
    ensures r.Ok? ==> r.value <= 1
    decreases |lines|
  {
    if |lines| == 0 then Ok(0)
    else match lines[0]
      case None => Offset(lines[1..])
      case Some(a) =>
        if |a| == 0 then Err(TypeError)
        else if Pua(a[0].contents) then Ok(1)
        else Offset(lines[1..])
  }

  predicate LeadsWithPua(line: Option<seq<Atom>>) {
    line.Some? && |line.value| > 0 && Pua(line.value[0].contents)
  }

  /** Without atom-less lines, the offset is 1 exactly when some line starts
      with a private-use character, and 0 otherwise. */
  lemma {:induction false} OffsetMeaning(lines: seq<Option<seq<Atom>>>)
    requires forall i :: 0 <= i < |lines| && lines[i].Some? ==> |lines[i].value| > 0
    ensures Offset(lines).Ok?
    ensures Offset(lines).value == 1 <==> exists i :: 0 <= i < |lines| && LeadsWithPua(lines[i])
    decreases |lines|
  {
    if |lines| > 0 {
      OffsetMeaning(lines[1..]);
      if !LeadsWithPua(lines[0]) {
        if exists i :: 0 <= i < |lines| && LeadsWithPua(lines[i]) {
          var i :| 0 <= i < |lines| && LeadsWithPua(lines[i]);
          assert lines[1..][i - 1] == lines[i];
        }
        if exists i :: 0 <= i < |lines[1..]| && LeadsWithPua(lines[1..][i]) {
          var i :| 0 <= i < |lines[1..]| && LeadsWithPua(lines[1..][i]);
          assert lines[i + 1] == lines[1..][i];
        }
      }
    }
  }

  /** An atom-less line reached before any private-use line throws. */
  lemma {:induction false} OffsetEmptyLineThrows(lines: seq<Option<seq<Atom>>>, k: nat)
    requires k < |lines| && lines[k] == Some([])
    requires forall i :: 0 <= i < k ==> !LeadsWithPua(lines[i]) && (lines[i].Some? ==> |lines[i].value| > 0)
    ensures Offset(lines) == Err(TypeError)
    decreases k
  {
    if k > 0 {
      OffsetEmptyLineThrows(lines[1..], k - 1);
    }
  }

  /** `slice(0, end)`'s end position: a negative end counts from the end of
      the list. */
  function SliceEnd(len: nat, end: int): (e: nat)
    ensures e <= len
    ensures 0 <= end <= len ==> e == end
    ensures end > len ==> e == len
    ensures end < 0 && -end <= len ==> e + -end == len
    ensures end < 0 && -end > len ==> e == 0
  {
    if end < 0 then (if len + end < 0 then 0 else len + end) else Min(end, len)
  }

  /** How many menu items render: `items.slice(0, state.rows - 3)`; without
      a known row count the end is `NaN`, which slices to nothing. */
  function MenuCount(len: nat, rows: Option<int>): nat {
    match rows
    case None => 0
    case Some(r) => SliceEnd(len, r - 3)
  }

  /** `(state.selected || [-1])[0]`: `None` for `undefined`. */
  function SelectedIndex(selected: Option<seq<int>>): Option<int> {
    match selected
    case None => Some(-1)
    case Some(s) => if |s| > 0 then Some(s[0]) else None
  }

  /** One rendered menu item and the face it is drawn with. */
  datatype MenuEntry = MenuEntry(face: Face, item: seq<Atom>)

  function Menu(items: seq<seq<Atom>>, rows: Option<int>, selected: Option<seq<int>>, selectedFace: Face, face: Face): (m: seq<MenuEntry>)
    ensures |m| == MenuCount(|items|, rows)
    ensures forall i :: 0 <= i < |m| ==> m[i].item == items[i]
  {
    seq(MenuCount(|items|, rows), i requires 0 <= i < MenuCount(|items|, rows) =>
      MenuEntry(if SelectedIndex(selected) == Some(i) then selectedFace else face, items[i]))
  }

  /** With at least three rows the menu shows at most `rows - 3` items, the
      first ones; an item is drawn with the selected face exactly when its
      index is the selection, so at most one item is. */
  lemma MenuMeaning(items: seq<seq<Atom>>, rows: Option<int>, selected: Option<seq<int>>, selectedFace: Face, face: Face)
    requires selectedFace != face
    ensures rows.Some? && rows.value >= 3 ==> |Menu(items, rows, selected, selectedFace, face)| == Min(|items|, rows.value - 3)
    ensures forall i :: 0 <= i < |Menu(items, rows, selected, selectedFace, face)| ==>
      (Menu(items, rows, selected, selectedFace, face)[i].face == selectedFace <==> SelectedIndex(selected) == Some(i))
    ensures forall i, j :: 0 <= i < j < |Menu(items, rows, selected, selectedFace, face)| ==>
      !(Menu(items, rows, selected, selectedFace, face)[i].face == selectedFace && Menu(items, rows, selected, selectedFace, face)[j].face == selectedFace)
  {
  }

  /** Without a selection nothing is highlighted; with fewer than three rows
      the negative end drops items from the end. */
  lemma MenuEdges(items: seq<seq<Atom>>, selectedFace: Face, face: Face)
    requires selectedFace != face
    ensures forall i :: 0 <= i < |Menu(items, Some(100), None, selectedFace, face)| ==> Menu(items, Some(100), None, selectedFace, face)[i].face == face
    ensures |Menu(items, Some(2), None, selectedFace, face)| == if |items| >= 1 then |items| - 1 else 0
    ensures Menu(items, None, None, selectedFace, face) == []
  {
    var m := Menu(items, Some(100), None, selectedFace, face);
    forall i | 0 <= i < |m| ensures m[i].face == face {
      assert SelectedIndex(None) == Some(-1);
      assert m[i] == MenuEntry(face, items[i]);
    }
  }
}
