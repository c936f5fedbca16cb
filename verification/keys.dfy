/** Keyboard and wheel translation: a browser key event becomes a Kakoune
    key name. kakoune.js and frontend/src/Kakoune.tsx share one `mod` and
    one `onkeydown`; hot.js has a variant that always brackets and ignores
    shift. */
module Keys {
  import opened Prelude

  /** The modifier flags of a keyboard event. */
  datatype Modifiers = Modifiers(alt: bool, ctrl: bool, shift: bool)

  const NoModifiers: Modifiers := Modifiers(false, false, false)

  /** `NAMED_KEYS` of kakoune.js and Kakoune.tsx: browser key names with a
      Kakoune name of their own. */
  const NamedKeys: map<string, string> := map[
    "Enter" := "ret", "Tab" := "tab", "Backspace" := "backspace", "Delete" := "del",
    "Escape" := "esc", "ArrowUp" := "up", "ArrowDown" := "down", "ArrowLeft" := "left",
    "ArrowRight" := "right", "PageUp" := "pageup", "PageDown" := "pagedown",
    "Home" := "home", "End" := "end",
    "F1" := "f1", "F2" := "f2", "F3" := "f3", "F4" := "f4", "F5" := "f5", "F6" := "f6",
    "F7" := "f7", "F8" := "f8", "F9" := "f9", "F10" := "f10", "F11" := "f11", "F12" := "f12",
    ">" := "gt", "<" := "lt", "-" := "minus"]

  /** hot.js has the same table without `-`. */
  const NamedKeysHot: map<string, string> := NamedKeys - {"-"}

  /** The key name `mod` builds before bracketing: `a-` is prefixed first and
      `c-` outside it; then `c-i` becomes `tab`, a shifted `tab` becomes
      `s-tab`, and `c-h` becomes `backspace`. */
  function Chord(k: string, e: Modifiers): string {
    var s1 := if e.alt then "a-" + k else k;
    var s2 := if e.ctrl then "c-" + s1 else s1;
    var s3 := if s2 == "c-i" then "tab" else s2;
    var s4 := if e.shift && s3 == "tab" then "s-tab" else s3;
    if s4 == "c-h" then "backspace" else s4
  }

  /** `mod`: a single character is sent bare, anything longer in angle
      brackets. */
  function Mod(k: string, e: Modifiers): (s: string)
    ensures |s| == 1 || (|s| >= 2 && s[0] == '<' && s[|s| - 1] == '>')
  {
    var c := Chord(k, e);
    if |c| == 1 then c else "<" + c + ">"
  }

  /** A key as Kakoune reads it: one character, or a name in brackets. */
  predicate KakKey(s: string) {
    |s| == 1 || (|s| >= 2 && s[0] == '<' && s[|s| - 1] == '>')
  }

  /** Reads a key back to its name: brackets, when present, are dropped. */
  function Unwrap(s: string): string {
    if |s| >= 2 && s[0] == '<' && s[|s| - 1] == '>' then s[1..|s| - 1] else s
  }

  /** `mod` loses nothing: the bracketed key reads back to the chord it was
      built from. */
  lemma ModRoundTrip(k: string, e: Modifiers)
    ensures Unwrap(Mod(k, e)) == Chord(k, e)
  {
    var c := Chord(k, e);
    if |c| != 1 {
      assert ("<" + c + ">")[1..|c| + 1] == c;
    }
  }

  /** With alt and control both held the name starts `c-a-`; no rewrite
      applies to such a name. */
  lemma ModifierOrder(k: string, shift: bool)
    ensures Chord(k, Modifiers(true, true, shift)) == "c-a-" + k
    ensures Mod(k, Modifiers(true, true, shift)) == "<c-a-" + k + ">"
  {
    var s := "c-" + ("a-" + k);
    assert s == "c-a-" + k;
    assert |s| >= 4;
    assert s != "c-i" && s != "tab" && s != "c-h";
    assert Chord(k, Modifiers(true, true, shift)) == s;
  }

  /** `c-i` is the tab key, and shift turns it into `s-tab`. */
  lemma ControlIIsTab(shift: bool)
    ensures Mod("i", Modifiers(false, true, shift)) == if shift then "<s-tab>" else "<tab>"
  {
    assert "c-" + "i" == "c-i";
    assert Chord("i", Modifiers(false, true, shift)) == if shift then "s-tab" else "tab";
  }

  /** `c-h` is the backspace key. */
  lemma ControlHIsBackspace(shift: bool)
    ensures Mod("h", Modifiers(false, true, shift)) == "<backspace>"
  {
    assert "c-" + "h" == "c-h";
    assert Chord("h", Modifiers(false, true, shift)) == "backspace";
  }

  /** A shifted tab is `s-tab`. */
  lemma ShiftedTab()
    ensures Mod("tab", Modifiers(false, false, true)) == "<s-tab>"
  {
    assert Chord("tab", Modifiers(false, false, true)) == "s-tab";
  }

  /** A single character without modifiers is sent as it is. */
  lemma PlainCharacter(k: string)
    requires |k| == 1
    ensures Mod(k, NoModifiers) == k
  {
  }

  /** Shift changes a name only by turning `tab` into `s-tab`. */
  lemma ShiftOnlyTab(k: string, alt: bool, ctrl: bool)
    ensures Chord(k, Modifiers(alt, ctrl, true)) ==
      if Chord(k, Modifiers(alt, ctrl, false)) == "tab" then "s-tab" else Chord(k, Modifiers(alt, ctrl, false))
  {
  }

  /** `onkeydown`: named keys are translated and passed through `mod`,
      single characters go through `mod`, other keys send nothing. */
  function KeyDown(key: string, e: Modifiers): (sent: Option<string>)
    ensures sent.None? <==> key !in NamedKeys && |key| != 1
    ensures sent.Some? ==> KakKey(sent.value)
    ensures key in NamedKeys ==> sent == Some(Mod(NamedKeys[key], e))
    ensures key !in NamedKeys && |key| == 1 ==> sent == Some(Mod(key, e))
  {
    if key in NamedKeys then Some(Mod(NamedKeys[key], e))
    else if |key| == 1 then Some(Mod(key, e))
    else None
  }

  /** Every key Kakoune receives reads back to the chord of the translated
      name or of the key itself. */
  lemma KeyDownRoundTrip(key: string, e: Modifiers)
    requires KeyDown(key, e).Some?
    ensures Unwrap(KeyDown(key, e).value) == Chord(if key in NamedKeys then NamedKeys[key] else key, e)
  {
    ModRoundTrip(if key in NamedKeys then NamedKeys[key] else key, e);
  }

  /** An unmodified named key is sent as its bracketed name: every name is
      longer than one character. */
  lemma NamedKeyBracketed(key: string)
    requires key in NamedKeys
    ensures KeyDown(key, NoModifiers) == Some("<" + NamedKeys[key] + ">")
  {
    assert forall k :: k in NamedKeys ==> |NamedKeys[k]| >= 2;
  }

  /** hot.js `mod`: the same prefixes and the `c-i` and `c-h` rewrites, no
      shift handling, and always brackets. */
  function ChordHot(k: string, e: Modifiers): string {
    var s1 := if e.alt then "a-" + k else k;
    var s2 := if e.ctrl then "c-" + s1 else s1;
    var s3 := if s2 == "c-i" then "tab" else s2;
    if s3 == "c-h" then "backspace" else s3
  }

  function ModHot(k: string, e: Modifiers): (s: string)
    ensures |s| >= 2 && s[0] == '<' && s[|s| - 1] == '>'
  {
    "<" + ChordHot(k, e) + ">"
  }

  lemma ModHotRoundTrip(k: string, e: Modifiers)
    ensures Unwrap(ModHot(k, e)) == ChordHot(k, e)
  {
    assert ModHot(k, e)[1..|ModHot(k, e)| - 1] == ChordHot(k, e);
  }

  /** The two `mod`s agree on every multi-character name unless shift turns
      a `tab` into `s-tab`; on a single character hot.js adds brackets. */
  lemma ModVersionsAgree(k: string, e: Modifiers)
    ensures Chord(k, e.(shift := false)) == ChordHot(k, e)
    ensures Chord(k, e) != "s-tab" && |Chord(k, e)| != 1 ==> Mod(k, e) == ModHot(k, e)
    ensures |Chord(k, e)| == 1 ==> ModHot(k, e) == "<" + Mod(k, e) + ">"
  {
  }

  /** hot.js `onkeydown`. */
  function KeyDownHot(key: string, e: Modifiers): (sent: Option<string>)
    ensures sent.None? <==> key !in NamedKeysHot && |key| != 1
    ensures key in NamedKeysHot ==> sent == Some(ModHot(NamedKeysHot[key], e))
    ensures key !in NamedKeysHot && |key| == 1 ==> sent == Some(ModHot(key, e))
  {
    if key in NamedKeysHot then Some(ModHot(NamedKeysHot[key], e))
    else if |key| == 1 then Some(ModHot(key, e))
    else None
  }

  /** Because hot.js lacks the `-` entry, it sends `<->` where the other
      front ends send `<minus>`. */
  lemma MinusDiffers()
    ensures KeyDown("-", NoModifiers) == Some("<minus>")
    ensures KeyDownHot("-", NoModifiers) == Some("<->")
  {
    assert "-" in NamedKeys && NamedKeys["-"] == "minus";
    assert Chord("minus", NoModifiers) == "minus";
    assert "<" + "minus" + ">" == "<minus>";
    assert "-" !in NamedKeysHot;
    assert ChordHot("-", NoModifiers) == "-";
    assert "<" + "-" + ">" == "<->";
  }

  /** Kakoune.tsx `onmousewheel`: a wheel event with a non-zero vertical
      delta scrolls one line up or down; other events send nothing. */
  function WheelScroll(isWheel: bool, deltaY: real): (scroll: Option<int>)
    ensures scroll.Some? <==> isWheel && deltaY != 0.0
    ensures scroll.Some? ==> (scroll.value == -1 <==> deltaY < 0.0) && (scroll.value == 1 <==> deltaY > 0.0)
  {
    if isWheel && deltaY != 0.0 then Some(if deltaY < 0.0 then -1 else 1) else None
  }

  /** kakoune.js `onmousewheel`: without horizontal motion, a negative
      vertical delta is `wheel_up` and anything else `wheel_down`. */
  function WheelMouse(deltaX: real, deltaY: real): (button: Option<string>)
    ensures button.Some? <==> deltaX == 0.0
    ensures button.Some? ==> (button.value == "wheel_up" <==> deltaY < 0.0)
    ensures button.Some? ==> (button.value == "wheel_down" <==> deltaY >= 0.0)
  {
    if deltaX == 0.0 then Some(if deltaY < 0.0 then "wheel_up" else "wheel_down") else None
  }

  /** The two wheel handlers scroll the same way on a vertical wheel motion;
      they differ on a zero delta, where kakoune.js still sends
      `wheel_down`. */
  lemma WheelVersionsAgree(deltaY: real)
    ensures deltaY != 0.0 ==> (WheelScroll(true, deltaY) == Some(-1) <==> WheelMouse(0.0, deltaY) == Some("wheel_up"))
    ensures WheelScroll(true, 0.0).None? && WheelMouse(0.0, 0.0) == Some("wheel_down")
  {
  }
}
