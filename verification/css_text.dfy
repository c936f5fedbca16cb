/** The normalisation `generate_class` applies to generated CSS text: trim
    the text, collapse a newline and the white space after it into one
    newline (the pattern `\n\s*`, global), and drop the white space after each `:`, `{` and
    `;` (the pattern `[:{;]\s*`, global). Both replacements scan left to right, each match
    taking the longest run of white space. */
module CssText {
  /** The characters JavaScript's `\s` and `String.prototype.trim` treat as
      white space or line terminators. */
  predicate IsWs(c: char) {
    c == '\t' || c == '\n' || c == '\U{000B}' || c == '\U{000C}' || c == '\r' || c == ' '
    || c == '\U{00A0}' || c == '\U{1680}' || ('\U{2000}' <= c <= '\U{200A}')
    || c == '\U{2028}' || c == '\U{2029}' || c == '\U{202F}' || c == '\U{205F}'
    || c == '\U{3000}' || c == '\U{FEFF}'
  }

  /** The characters after which the second replacement drops white space. */
  const Punct: set<char> := {':', '{', ';'}

  const Newline: set<char> := {'\n'}

  /** `s` without its leading white space. */
  function DropWs(s: string): (t: string)
    ensures |t| <= |s| && t == s[|s| - |t|..]
    ensures t == [] || !IsWs(t[0])
    ensures forall i :: 0 <= i < |s| - |t| ==> IsWs(s[i])
  {
    if |s| > 0 && IsWs(s[0]) then DropWs(s[1..]) else s
  }

  /** `s` without its trailing white space. */
  function DropWsEnd(s: string): (t: string)
    ensures |t| <= |s| && t == s[..|t|]
    ensures t == [] || !IsWs(t[|t| - 1])
    ensures forall i :: |t| <= i < |s| ==> IsWs(s[i])
  {
    if |s| > 0 && IsWs(s[|s| - 1]) then DropWsEnd(s[..|s| - 1]) else s
  }

  /** `String.prototype.trim`. */
  function Trim(s: string): string {
    DropWsEnd(DropWs(s))
  }

  /** The first replacement: each newline with the white space after it
      becomes one newline. */
  function Collapse(s: string): string
    decreases |s|
  {
    if |s| == 0 then ""
    else if s[0] == '\n' then "\n" + Collapse(DropWs(s[1..]))
    else [s[0]] + Collapse(s[1..])
  }

  /** The second replacement: each `:`, `{` or `;` keeps only itself of the
      white space after it. */
  function Tighten(s: string): string
    decreases |s|
  {
    if |s| == 0 then ""
    else if s[0] in Punct then [s[0]] + Tighten(DropWs(s[1..]))
    else [s[0]] + Tighten(s[1..])
  }

  /** The text `generate_class` stores for a generated class. */
  function Normalize(code: string): string {
    Tighten(Collapse(Trim(code)))
  }

  /** No character of `marks` is directly followed by white space. */
  predicate NoWsAfter(s: string, marks: set<char>)
    decreases |s|
  {
    |s| <= 1 || ((s[0] in marks ==> !IsWs(s[1])) && NoWsAfter(s[1..], marks))
  }

  /** The shape of normalised text: trimmed, and no white space after a
      newline, `:`, `{` or `;`. */
  predicate Clean(s: string) {
    (s == [] || (!IsWs(s[0]) && !IsWs(s[|s| - 1]))) && NoWsAfter(s, Newline) && NoWsAfter(s, Punct)
  }

  lemma {:induction false} NoWsAfterSuffix(s: string, k: nat, marks: set<char>)
    requires k <= |s| && NoWsAfter(s, marks)
    ensures NoWsAfter(s[k..], marks)
    decreases k
  {
    if k > 0 {
      NoWsAfterSuffix(s[1..], k - 1, marks);
      assert s[1..][k - 1..] == s[k..];
    }
  }

  lemma ConsNoWsAfter(c: char, u: string, marks: set<char>)
    requires NoWsAfter(u, marks)
    requires c in marks && |u| > 0 ==> !IsWs(u[0])
    ensures NoWsAfter([c] + u, marks)
  {
    assert ([c] + u)[1..] == u;
  }

  lemma {:induction false} CollapseEnds(s: string)
    ensures |s| > 0 ==> |Collapse(s)| > 0 && Collapse(s)[0] == s[0]
    ensures |s| > 0 && !IsWs(s[|s| - 1]) ==> |Collapse(s)| > 0 && Collapse(s)[|Collapse(s)| - 1] == s[|s| - 1]
    decreases |s|
  {
    if |s| > 0 {
      if s[0] == '\n' {
        var u := DropWs(s[1..]);
        CollapseEnds(u);
        if !IsWs(s[|s| - 1]) {
          assert |u| > 0 && u[|u| - 1] == s[|s| - 1];
        }
      } else {
        CollapseEnds(s[1..]);
      }
    }
  }

  lemma {:induction false} TightenEnds(s: string)
    ensures |s| > 0 ==> |Tighten(s)| > 0 && Tighten(s)[0] == s[0]
    ensures |s| > 0 && !IsWs(s[|s| - 1]) ==> |Tighten(s)| > 0 && Tighten(s)[|Tighten(s)| - 1] == s[|s| - 1]
    decreases |s|
  {
    if |s| > 0 {
      var u := if s[0] in Punct then DropWs(s[1..]) else s[1..];
      assert Tighten(s) == [s[0]] + Tighten(u);
      TightenEnds(u);
      if !IsWs(s[|s| - 1]) && |s| > 1 {
        assert |u| > 0 && u[|u| - 1] == s[|s| - 1];
      }
    }
  }

  /** After the first replacement no newline is followed by white space. */
  lemma {:induction false} CollapseClean(s: string)
    ensures NoWsAfter(Collapse(s), Newline)
    decreases |s|
  {
    if |s| > 0 {
      if s[0] == '\n' {
        var u := DropWs(s[1..]);
        CollapseClean(u);
        CollapseEnds(u);
        ConsNoWsAfter('\n', Collapse(u), Newline);
      } else {
        CollapseClean(s[1..]);
        ConsNoWsAfter(s[0], Collapse(s[1..]), Newline);
      }
    }
  }

  /** After the second replacement no `:`, `{` or `;` is followed by white
      space, and the first replacement's guarantee survives it. */
  lemma {:induction false} TightenClean(s: string)
    ensures NoWsAfter(Tighten(s), Punct)
    ensures NoWsAfter(s, Newline) ==> NoWsAfter(Tighten(s), Newline)
    decreases |s|
  {
    if |s| > 0 {
      if s[0] in Punct {
        var u := DropWs(s[1..]);
        TightenClean(u);
        TightenEnds(u);
        ConsNoWsAfter(s[0], Tighten(u), Punct);
        if NoWsAfter(s, Newline) {
          NoWsAfterSuffix(s, |s| - |u|, Newline);
          ConsNoWsAfter(s[0], Tighten(u), Newline);
        }
      } else {
        TightenClean(s[1..]);
        TightenEnds(s[1..]);
        ConsNoWsAfter(s[0], Tighten(s[1..]), Punct);
        if NoWsAfter(s, Newline) {
          ConsNoWsAfter(s[0], Tighten(s[1..]), Newline);
        }
      }
    }
  }

  /** Normalised text is clean. */
  lemma NormalizeClean(code: string)
    ensures Clean(Normalize(code))
  {
    var t := Trim(code);
    CollapseClean(t);
    CollapseEnds(t);
    TightenClean(Collapse(t));
    TightenEnds(Collapse(t));
  }

  lemma {:induction false} CollapseFixed(s: string)
    requires NoWsAfter(s, Newline)
    ensures Collapse(s) == s
    decreases |s|
  {
    if |s| > 0 {
      NoWsAfterSuffix(s, 1, Newline);
      CollapseFixed(s[1..]);
      if s[0] == '\n' {
        assert DropWs(s[1..]) == s[1..];
      }
    }
  }

  lemma {:induction false} TightenFixed(s: string)
    requires NoWsAfter(s, Punct)
    ensures Tighten(s) == s
    decreases |s|
  {
    if |s| > 0 {
      NoWsAfterSuffix(s, 1, Punct);
      TightenFixed(s[1..]);
      if s[0] in Punct {
        assert DropWs(s[1..]) == s[1..];
      }
    }
  }

  /** Clean text is left as it is. */
  lemma CleanFixed(s: string)
    requires Clean(s)
    ensures Normalize(s) == s
  {
    assert DropWs(s) == s;
    assert DropWsEnd(s) == s;
    CollapseFixed(s);
    TightenFixed(s);
  }

  /** Normalising twice is normalising once. */
  lemma NormalizeIdempotent(code: string)
    ensures Normalize(Normalize(code)) == Normalize(code)
  {
    NormalizeClean(code);
    CleanFixed(Normalize(code));
  }
}
