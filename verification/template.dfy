/** JavaScript values as far as the front end's string building needs them,
    and `template_to_string`, which turns a tagged-template call (or a plain
    string) into text. Two versions exist: domdiff.js treats every falsy
    interpolated argument as empty text, frontend/src/Kakoune.tsx only
    `undefined`, and also passes numbers through. */
module Template {
  import opened Prelude

  /** The primitive values an interpolation argument can be. Numbers are
      integral here. */
  datatype JsValue = Undefined | Null | Bool(b: bool) | Num(n: int) | Str(s: string)

  /** JavaScript truthiness of a primitive. */
  predicate Truthy(v: JsValue) {
    match v
    case Undefined => false
    case Null => false
    case Bool(b) => b
    case Num(n) => n != 0
    case Str(s) => s != ""
  }

  /** What `'' + v` produces. */
  function ToJsString(v: JsValue): string {
    match v
    case Undefined => "undefined"
    case Null => "null"
    case Bool(b) => if b then "true" else "false"
    case Num(n) => IntToString(n)
    case Str(s) => s
  }

  /** The first argument of `template_to_string`: a plain string, a number,
      or the literal parts of a tagged template together with its
      interpolated arguments. */
  datatype TemplateInput =
    | Plain(text: string)
    | Numeric(n: int)
    | Tagged(parts: seq<string>, args: seq<JsValue>)

  datatype TemplateError = NotATemplate

  /** The text an interpolated argument contributes. With `falsyIsEmpty`
      (domdiff.js) every falsy argument contributes nothing; without it
      (Kakoune.tsx) only `undefined` does. */
  function Piece(v: JsValue, falsyIsEmpty: bool): (t: string)
    ensures v.Undefined? ==> t == ""
    ensures !falsyIsEmpty && !v.Undefined? ==> t == ToJsString(v)
    ensures falsyIsEmpty ==> t == (if Truthy(v) then ToJsString(v) else "")
  {
    if falsyIsEmpty then (if Truthy(v) then ToJsString(v) else "")
    else if v.Undefined? then "" else ToJsString(v)
  }

  /** Each literal part followed by the argument at the same index; arguments
      past the last part are never looked at. */
  function Interleave(parts: seq<string>, args: seq<JsValue>, falsyIsEmpty: bool): string
    decreases |parts|
  {
    if |parts| == 0 then ""
    else
      var arg := if |args| > 0 then args[0] else Undefined;
      parts[0] + Piece(arg, falsyIsEmpty) + Interleave(parts[1..], if |args| > 0 then args[1..] else [], falsyIsEmpty)
  }

  /** domdiff.js `template_to_string`: strings pass through, a number is not
      an array and `value.map` throws. */
  function DomdiffTemplateToString(v: TemplateInput): (r: Result<string, TemplateError>)
    ensures v.Plain? ==> r == Ok(v.text)
    ensures v.Numeric? <==> r.Err?
    ensures v.Tagged? ==> r == Ok(Interleave(v.parts, v.args, true))
  {
    match v
    case Plain(s) => Ok(s)
    case Numeric(_) => Err(NotATemplate)
    case Tagged(parts, args) => Ok(Interleave(parts, args, true))
  }

  /** Kakoune.tsx `template_to_string`: strings and numbers pass through
      unchanged; a template yields text. */
  function TsxTemplateToString(v: TemplateInput): (r: JsValue)
    ensures v.Plain? ==> r == Str(v.text)
    ensures v.Numeric? ==> r == Num(v.n)
    ensures v.Tagged? ==> r == Str(Interleave(v.parts, v.args, false))
  {
    match v
    case Plain(s) => Str(s)
    case Numeric(n) => Num(n)
    case Tagged(parts, args) => Str(Interleave(parts, args, false))
  }

  /** An interpolation argument on which both versions print the same text. */
  predicate Agreeable(v: JsValue) {
    Truthy(v) || v.Undefined?
  }

  /** The two versions differ only on falsy arguments other than `undefined`:
      when every argument is truthy or `undefined`, they yield the same text. */
  lemma {:induction false} InterleaveVersionsAgree(parts: seq<string>, args: seq<JsValue>)
    requires forall i :: 0 <= i < |args| ==> Agreeable(args[i])
    ensures Interleave(parts, args, true) == Interleave(parts, args, false)
    decreases |parts|
  {
    if |parts| > 0 {
      var rest := if |args| > 0 then args[1..] else [];
      assert forall i :: 0 <= i < |rest| ==> rest[i] == args[i + 1];
      InterleaveVersionsAgree(parts[1..], rest);
    }
  }

  lemma TemplateVersionsAgree(parts: seq<string>, args: seq<JsValue>)
    requires forall i :: 0 <= i < |args| ==> Agreeable(args[i])
    ensures DomdiffTemplateToString(Tagged(parts, args)) == Ok(Interleave(parts, args, false))
    ensures TsxTemplateToString(Tagged(parts, args)) == Str(Interleave(parts, args, true))
  {
    InterleaveVersionsAgree(parts, args);
  }

  /** A template without interpolations is its literal text. */
  lemma {:induction false} InterleaveLiteral(text: string, falsyIsEmpty: bool)
    ensures Interleave([text], [], falsyIsEmpty) == text
  {
    assert [text][1..] == [];
  }

  /** Only the arguments that have a part before them matter. */
  lemma {:induction false} InterleaveIgnoresExtraArgs(parts: seq<string>, args: seq<JsValue>, extra: seq<JsValue>, falsyIsEmpty: bool)
    requires |args| >= |parts|
    ensures Interleave(parts, args + extra, falsyIsEmpty) == Interleave(parts, args, falsyIsEmpty)
    decreases |parts|
  {
    if |parts| > 0 {
      assert (args + extra)[0] == args[0];
      assert (args + extra)[1..] == args[1..] + extra;
      InterleaveIgnoresExtraArgs(parts[1..], args[1..], extra, falsyIsEmpty);
    }
  }

  /** Missing arguments read as `undefined`: a template with no arguments is
      just its literal parts run together, in both versions. */
  lemma {:induction false} InterleaveNoArgs(parts: seq<string>, falsyIsEmpty: bool)
    ensures Interleave(parts, [], falsyIsEmpty) == Concat(parts)
    decreases |parts|
  {
    if |parts| > 0 {
      InterleaveNoArgs(parts[1..], falsyIsEmpty);
    }
  }

  /** The versions do disagree on a defined falsy argument such as `0`. */
  lemma ZeroArgumentDiffers()
    ensures DomdiffTemplateToString(Tagged(["w:", "px"], [Num(0)])) == Ok("w:px")
    ensures TsxTemplateToString(Tagged(["w:", "px"], [Num(0)])) == Str("w:0px")
  {
    assert [Num(0)][1..] == [];
    assert ["w:", "px"][1..] == ["px"];
    assert ["w:", "px"][1..][1..] == [];
    assert Piece(Num(0), true) == "";
    assert Interleave(["px"], [], true) == "px";
    assert Interleave(["w:", "px"], [Num(0)], true) == "w:" + "" + "px";
    assert "w:" + "" + "px" == "w:px";
    assert Interleave(["px"], [], false) == "px";
  }

  /** Kakoune.tsx `MakeAttr(attr)(...)`: the single-key props object
      `{[attr]: value}` holding the template's value. */
  function MakeAttrTsx(attr: string, v: TemplateInput): (props: map<string, JsValue>)
    ensures props.Keys == {attr}
    ensures v.Tagged? ==> props[attr] == Str(Interleave(v.parts, v.args, false))
    ensures !v.Tagged? ==> props[attr] == (if v.Plain? then Str(v.text) else Num(v.n))
  {
    map[attr := TsxTemplateToString(v)]
  }

  /** `cls`, `id` and `style` of Kakoune.tsx. */
  const ClassNameProp: string := "className"

  function Cls(v: TemplateInput): (props: map<string, JsValue>)
    ensures props.Keys == {ClassNameProp}
    ensures props[ClassNameProp] == TsxTemplateToString(v)
  {
    MakeAttrTsx(ClassNameProp, v)
  }

  function Id(v: TemplateInput): (props: map<string, JsValue>)
    ensures props.Keys == {"id"}
    ensures props["id"] == TsxTemplateToString(v)
  {
    MakeAttrTsx("id", v)
  }

  function Style(v: TemplateInput): (props: map<string, JsValue>)
    ensures props.Keys == {"style"}
    ensures props["style"] == TsxTemplateToString(v)
  {
    MakeAttrTsx("style", v)
  }
}
