/** `color_to_css`: a Kakoune colour name becomes a CSS colour. kakoune.js
    and frontend/src/Kakoune.tsx share the "eighties" hex table; hot.js
    renders its own table through an rgb() builder, which is a parameter
    here. */
module Colours {
  import opened Prelude

  /** `NAMED_COLOURS` of kakoune.js and Kakoune.tsx. */
  const NamedColours: map<string, string> := map[
    "black" := "#2d2d2d", "bright-green" := "#393939", "bright-yellow" := "#515151",
    "bright-black" := "#747369", "bright-blue" := "#a09f93", "white" := "#d3d0c8",
    "bright-magenta" := "#e8e6df", "bright-white" := "#f2f0ec", "red" := "#f2777a",
    "bright-red" := "#f99157", "yellow" := "#ffcc66", "green" := "#99cc99",
    "cyan" := "#66cccc", "blue" := "#6699cc", "magenta" := "#cc99cc",
    "bright-cyan" := "#d27b53"]

  /** The names hot.js's `NAMED_COLOURS` has an rgb triple for. */
  const HotColourNames: set<string> := {
    "black", "red", "green", "yellow", "blue", "magenta", "cyan", "white",
    "bright-black", "bright-red", "bright-green", "bright-yellow", "bright-blue",
    "bright-magenta", "bright-cyan", "bright-white"}

  /** A `fallback` argument is truthy when given and non-empty. */
  predicate Given(fallback: Option<string>) {
    fallback.Some? && fallback.value != ""
  }

  /** Kakoune's "use the default" colour names. */
  predicate IsDefault(name: string) {
    name == "default" || name == ""
  }

  /** `color_to_css(name, fallback)`. */
  function ColorToCss(name: string, fallback: Option<string>): (css: string)
    ensures Given(fallback) && IsDefault(name) ==> css == ColorToCss(fallback.value, None)
    ensures !(Given(fallback) && IsDefault(name)) ==> css == (if name in NamedColours then NamedColours[name] else name)
    decreases if fallback.Some? then 1 else 0
  {
    if Given(fallback) && IsDefault(name) then ColorToCss(fallback.value, None)
    else if name in NamedColours then NamedColours[name]
    else name
  }

  /** A hex colour `#rrggbb` in lower case. */
  predicate HexColour(s: string) {
    |s| == 7 && s[0] == '#' && HexDigit(s[1]) && HexDigit(s[2]) && HexDigit(s[3]) &&
    HexDigit(s[4]) && HexDigit(s[5]) && HexDigit(s[6])
  }

  predicate HexDigit(c: char) {
    '0' <= c <= '9' || 'a' <= c <= 'f'
  }

  /** Every value of the table is a hex colour, and none is a name of it. */
  lemma TableValues()
    ensures forall k :: k in NamedColours ==> HexColour(NamedColours[k]) && NamedColours[k] !in NamedColours
  {
    ValuesHex();
    KeysNotHex();
    forall k | k in NamedColours ensures HexColour(NamedColours[k]) {
      assert NamedColours[k] in NamedColours.Values;
    }
  }

  lemma ValuesHex()
    ensures forall v :: v in NamedColours.Values ==> HexColour(v)
  {
  }

  lemma KeysNotHex()
    ensures forall k :: k in NamedColours ==> |k| > 0 && k[0] != '#'
  {
  }

  /** The result is a hex colour exactly when the name used (the fallback
      for a default name) is in the table; otherwise it is that name. */
  lemma ColourMeaning(name: string, fallback: Option<string>)
    ensures var used := if Given(fallback) && IsDefault(name) then fallback.value else name;
      (used in NamedColours ==> HexColour(ColorToCss(name, fallback))) &&
      (used !in NamedColours ==> ColorToCss(name, fallback) == used)
  {
    TableValues();
  }

  /** Translating a translated colour changes nothing more. */
  lemma ColourIdempotent(name: string, fallback: Option<string>)
    ensures ColorToCss(ColorToCss(name, fallback), None) == ColorToCss(name, fallback)
  {
    TableValues();
  }

  /** A default name without a usable fallback is passed on unchanged. */
  lemma DefaultWithoutFallback(name: string, fallback: Option<string>)
    requires IsDefault(name) && !Given(fallback)
    ensures ColorToCss(name, fallback) == name
  {
  }

  /** hot.js `color_to_css`, with `rgb` standing for the rgb() text of a
      table entry. */
  function ColorToCssHot(name: string, fallback: Option<string>, rgb: string -> string): (css: string)
    ensures Given(fallback) && IsDefault(name) ==> css == ColorToCssHot(fallback.value, None, rgb)
    decreases if fallback.Some? then 1 else 0
  {
    if Given(fallback) && IsDefault(name) then ColorToCssHot(fallback.value, None, rgb)
    else if name in HotColourNames then rgb(name)
    else name
  }

  /** Both tables name the same sixteen colours, so the two versions take the
      same branch on every input and agree wherever the name is not in the
      table. */
  lemma ColourVersionsAgree(name: string, fallback: Option<string>, rgb: string -> string)
    ensures HotColourNames == NamedColours.Keys
    ensures var used := if Given(fallback) && IsDefault(name) then fallback.value else name;
      if used in NamedColours then ColorToCssHot(name, fallback, rgb) == rgb(used)
      else ColorToCssHot(name, fallback, rgb) == ColorToCss(name, fallback) == used
  {
    assert HotColourNames == NamedColours.Keys;
  }
}
