/** The descriptor builder of domdiff.js: `Tag(name, children)` folds a
    mixed argument list into an attribute map, a handler map and the list of
    content children, and closes over them in a descriptor (the `morph`
    function). `Thunk(key, create)` is the keyed, memoising descriptor. */
module Descriptor {
  import opened Prelude
  import opened Host
  import opened Template

  /** A content child as the descriptor keeps it. */
  datatype Content =
    | TextContent(text: string)
    | DescContent(desc: Desc)
    | ForeignContent(node: Host)

  /** A descriptor: a function from the previous node to the reconciled one,
      represented by what it closes over. `Thunk` holds the descriptor its
      `create` callback returns and the key as `JSON.stringify` serialised
      it: `None` for `undefined`, which serialises to `undefined`. */
  datatype Desc =
    | Morph(name: string, attrs: map<string, string>, handlers: map<string, seq<Callback>>, content: seq<Content>)
    | Thunk(key: Option<string>, create: Desc)

  /** One argument handed to `Tag`, by the shape the source tells apart. */
  datatype Child =
    /** `false`, `null`, `undefined`, `0`, `NaN` */
    | Falsy
    /** a string; the empty string is falsy */
    | Str(s: string)
    /** a function: a descriptor */
    | Fn(desc: Desc)
    /** a live host node handed in directly */
    | DomNode(node: Host)
    /** `{attr, value}` as the attribute helpers make it */
    | Attr(attr: string, value: string)
    /** `{handler, value}` as the handler helpers make it */
    | Handler(handler: string, callback: Callback)
    /** any other truthy value: `true`, a non-zero number, a plain object */
    | Other

  datatype TagError =
    /** "DOM Element children needs to have prop foreign set to true" */
    | UnmarkedElement
    /** "Child needs to be false, string, function or DOM Element" */
    | InvalidChild

  /** What the filter pass has gathered so far. */
  datatype Parts = Parts(attrs: map<string, string>, handlers: map<string, seq<Callback>>, content: seq<Content>)

  const NoParts := Parts(map[], map[], [])

  /** One step of the filter callback. An attribute or handler object whose
      key is empty is not recognised as a contribution and is rejected as an
      invalid child. */
  function Step(acc: Parts, c: Child): Result<Parts, TagError>
  {
    match c
    case Falsy => Ok(acc)
    case Str(s) => if s == "" then Ok(acc) else Ok(acc.(content := acc.content + [TextContent(s)]))
    case Fn(d) => Ok(acc.(content := acc.content + [DescContent(d)]))
    case DomNode(n) =>
      if n.Text? then Err(InvalidChild)
      else if !n.foreign then Err(UnmarkedElement)
      else Ok(acc.(content := acc.content + [ForeignContent(n)]))
    case Attr(k, v) =>
      if k == "" then Err(InvalidChild)
      else Ok(acc.(attrs := acc.attrs[k := if k in acc.attrs then acc.attrs[k] + " " + v else v]))
    case Handler(k, cb) =>
      if k == "" then Err(InvalidChild)
      else Ok(acc.(handlers := acc.handlers[k := (if k in acc.handlers then acc.handlers[k] else []) + [cb]]))
    case Other => Err(InvalidChild)
  }

  /** The single pass over the children, stopping at the first throw. */
  function Fold(cs: seq<Child>, acc: Parts): Result<Parts, TagError>
    decreases |cs|
  {
    if |cs| == 0 then Ok(acc)
    else match Step(acc, cs[0])
      case Err(e) => Err(e)
      case Ok(a) => Fold(cs[1..], a)
  }

  /** `Tag(name, children)`: the descriptor, or the error the filter throws. */
  function Tag(name: string, cs: seq<Child>): (r: Result<Desc, TagError>)
    ensures r.Ok? ==> r.value.Morph? && r.value.name == name
    ensures r.Ok? <==> Fold(cs, NoParts).Ok?
  {
    match Fold(cs, NoParts)
    case Err(e) => Err(e)
    case Ok(p) => Ok(Morph(name, p.attrs, p.handlers, p.content))
  }

  /** `MakeAttr(attr)`: the template helper building an attribute
      contribution (`style`, `cls`, `id` are it with "style", "class", "id"). */
  function MakeAttr(attr: string, v: TemplateInput): (r: Result<Child, TemplateError>)
    ensures v.Numeric? <==> r.Err?
    ensures v.Plain? ==> r == Ok(Attr(attr, v.text))
    ensures v.Tagged? ==> r == Ok(Attr(attr, Interleave(v.parts, v.args, true)))
  {
    match DomdiffTemplateToString(v)
    case Err(e) => Err(e)
    case Ok(s) => Ok(Attr(attr, s))
  }

  /** On arguments both versions print alike, domdiff.js's `MakeAttr` and
      Kakoune.tsx's carry the same text: the first as the `{attr, value}`
      child, the second as the value of the single key `attr`. */
  lemma MakeAttrVersionsAgree(attr: string, parts: seq<string>, args: seq<JsValue>)
    requires forall i :: 0 <= i < |args| ==> Agreeable(args[i])
    ensures MakeAttr(attr, Tagged(parts, args)).Ok?
    ensures MakeAttr(attr, Tagged(parts, args)).value.Attr?
    ensures MakeAttrTsx(attr, Tagged(parts, args)) == map[attr := JsValue.Str(MakeAttr(attr, Tagged(parts, args)).value.value)]
  {
    InterleaveVersionsAgree(parts, args);
  }

  /** `Handler(handler)(value)`; `click`, `mousedown`, ... are it with their
      event type. As the only child of `Tag` it registers `cb` alone for the
      event type; an empty event type is not recognised and throws. */
  function MakeHandler(eventType: string, cb: Callback): (c: Child)
    ensures eventType != "" ==> Step(NoParts, c) == Ok(Parts(map[], map[eventType := [cb]], []))
    ensures eventType == "" ==> Step(NoParts, c) == Err(InvalidChild)
  {
    assert [] + [cb] == [cb];
    Handler(eventType, cb)
  }

  // ---------------------------------------------------------------------------
  // Reference definitions, read off the argument list directly

  function Last<T>(s: seq<T>): T
    requires |s| > 0
  {
    s[|s| - 1]
  }

  function Init<T>(s: seq<T>): seq<T>
    requires |s| > 0
  {
    s[..|s| - 1]
  }

  /** The values of the attribute contributions for key `k`, in order. */
  function AttrValues(cs: seq<Child>, k: string): seq<string>
    decreases |cs|
  {
    if |cs| == 0 then []
    else AttrValues(Init(cs), k) + (if Last(cs).Attr? && Last(cs).attr == k then [Last(cs).value] else [])
  }

  /** The callbacks of the handler contributions for `eventType`, in order. */
  function HandlerList(cs: seq<Child>, eventType: string): seq<Callback>
    decreases |cs|
  {
    if |cs| == 0 then []
    else HandlerList(Init(cs), eventType) + (if Last(cs).Handler? && Last(cs).handler == eventType then [Last(cs).callback] else [])
  }

  /** The content an argument contributes: at most one child. */
  function ContentOfChild(c: Child): seq<Content>
  {
    match c
    case Str(s) => if s == "" then [] else [TextContent(s)]
    case Fn(d) => [DescContent(d)]
    case DomNode(n) => [ForeignContent(n)]
    case _ => []
  }

  /** The content children in argument order: falsy values and contributions
      dropped. */
  function ContentOf(cs: seq<Child>): seq<Content>
    decreases |cs|
  {
    if |cs| == 0 then [] else ContentOf(Init(cs)) + ContentOfChild(Last(cs))
  }

  /** Why an argument is rejected, if it is. */
  function ChildError(c: Child): Option<TagError>
  {
    match c
    case Attr(k, _) => if k == "" then Some(InvalidChild) else None
    case Handler(k, _) => if k == "" then Some(InvalidChild) else None
    case DomNode(n) => if n.Text? then Some(InvalidChild) else if !n.foreign then Some(UnmarkedElement) else None
    case Other => Some(InvalidChild)
    case _ => None
  }

  /** The error of the earliest rejected argument. */
  function FirstError(cs: seq<Child>): Option<TagError>
    decreases |cs|
  {
    if |cs| == 0 then None
    else if FirstError(Init(cs)).Some? then FirstError(Init(cs))
    else ChildError(Last(cs))
  }

  lemma JoinSpaceSnoc(vs: seq<string>, v: string)
    ensures JoinSpace(vs + [v]) == if vs == [] then v else JoinSpace(vs) + " " + v
  {
    assert (vs + [v])[..|vs|] == vs;
  }

  /** The fold consumes its arguments left to right. */
  lemma {:induction false} FoldSnoc(cs: seq<Child>, c: Child, acc: Parts)
    ensures Fold(cs + [c], acc) == match Fold(cs, acc) case Err(e) => Err(e) case Ok(a) => Step(a, c)
    decreases |cs|
  {
    if |cs| == 0 {
      assert cs + [c] == [c];
      assert [c][1..] == [];
    } else {
      assert (cs + [c])[0] == cs[0];
      assert (cs + [c])[1..] == cs[1..] + [c];
      match Step(acc, cs[0])
      case Err(e) =>
      case Ok(a) => FoldSnoc(cs[1..], c, a);
    }
  }

  lemma {:induction false} FoldErrorMeaning(cs: seq<Child>)
    ensures Fold(cs, NoParts).Err? <==> FirstError(cs).Some?
    ensures Fold(cs, NoParts).Err? ==> Fold(cs, NoParts).error == FirstError(cs).value
    decreases |cs|
  {
    if |cs| > 0 {
      var init, c := Init(cs), Last(cs);
      assert cs == init + [c];
      FoldErrorMeaning(init);
      FoldSnoc(init, c, NoParts);
      match Fold(init, NoParts)
      case Err(e) =>
      case Ok(a) =>
        assert Step(a, c).Err? <==> ChildError(c).Some?;
        assert Step(a, c).Err? ==> Step(a, c).error == ChildError(c).value;
    }
  }

  /** A successful fold had a successful prefix. */
  lemma FoldInitOk(cs: seq<Child>) returns (a: Parts)
    requires |cs| > 0 && Fold(cs, NoParts).Ok?
    ensures Fold(Init(cs), NoParts) == Ok(a)
    ensures Step(a, Last(cs)) == Fold(cs, NoParts)
  {
    assert cs == Init(cs) + [Last(cs)];
    FoldSnoc(Init(cs), Last(cs), NoParts);
    a := Fold(Init(cs), NoParts).value;
  }

  /** What one step does to the attribute map. */
  lemma StepAttrs(a: Parts, c: Child, r: Parts)
    requires Step(a, c) == Ok(r)
    ensures r.attrs == if c.Attr? then a.attrs[c.attr := if c.attr in a.attrs then a.attrs[c.attr] + " " + c.value else c.value] else a.attrs
  {
  }

  lemma AttrValuesSnoc(init: seq<Child>, c: Child, k: string)
    ensures AttrValues(init + [c], k) == AttrValues(init, k) + (if c.Attr? && c.attr == k then [c.value] else [])
  {
    var cs := init + [c];
    assert Init(cs) == init && Last(cs) == c;
  }

  /** One step of the fold keeps the attribute map equal to the joined
      contributions. */
  lemma AttrsStep(init: seq<Child>, c: Child, a: Parts, r: Parts)
    requires Step(a, c) == Ok(r)
    requires forall k :: k in a.attrs <==> AttrValues(init, k) != []
    requires forall k :: k in a.attrs ==> a.attrs[k] == JoinSpace(AttrValues(init, k))
    ensures forall k :: k in r.attrs <==> AttrValues(init + [c], k) != []
    ensures forall k :: k in r.attrs ==> r.attrs[k] == JoinSpace(AttrValues(init + [c], k))
  {
    StepAttrs(a, c, r);
    forall k
      ensures k in r.attrs <==> AttrValues(init + [c], k) != []
      ensures k in r.attrs ==> r.attrs[k] == JoinSpace(AttrValues(init + [c], k))
    {
      AttrValuesSnoc(init, c, k);
      if c.Attr? && c.attr == k {
        JoinSpaceSnoc(AttrValues(init, k), c.value);
      } else {
        assert AttrValues(init + [c], k) == AttrValues(init, k) + [];
        assert AttrValues(init, k) + [] == AttrValues(init, k);
      }
    }
  }

  lemma {:induction false} FoldAttrsMeaning(cs: seq<Child>)
    requires Fold(cs, NoParts).Ok?
    ensures forall k :: k in Fold(cs, NoParts).value.attrs <==> AttrValues(cs, k) != []
    ensures forall k :: k in Fold(cs, NoParts).value.attrs ==> Fold(cs, NoParts).value.attrs[k] == JoinSpace(AttrValues(cs, k))
    decreases |cs|
  {
    if |cs| > 0 {
      var a := FoldInitOk(cs);
      FoldAttrsMeaning(Init(cs));
      assert cs == Init(cs) + [Last(cs)];
      AttrsStep(Init(cs), Last(cs), a, Fold(cs, NoParts).value);
    }
  }

  lemma {:induction false} FoldHandlersMeaning(cs: seq<Child>)
    requires Fold(cs, NoParts).Ok?
    ensures forall t :: t in Fold(cs, NoParts).value.handlers <==> HandlerList(cs, t) != []
    ensures forall t :: t in Fold(cs, NoParts).value.handlers ==> Fold(cs, NoParts).value.handlers[t] == HandlerList(cs, t)
    decreases |cs|
  {
    if |cs| > 0 {
      var init, c := Init(cs), Last(cs);
      var a := FoldInitOk(cs);
      FoldHandlersMeaning(init);
      var r := Fold(cs, NoParts).value;
      if c.Handler? {
        var t0, cb := c.handler, c.callback;
        assert r.handlers == a.handlers[t0 := (if t0 in a.handlers then a.handlers[t0] else []) + [cb]];
        forall t | t != t0 ensures HandlerList(cs, t) == HandlerList(init, t) {
          assert HandlerList(cs, t) == HandlerList(init, t) + [];
        }
        assert HandlerList(cs, t0) == HandlerList(init, t0) + [cb];
      } else {
        assert r.handlers == a.handlers;
        forall t ensures HandlerList(cs, t) == HandlerList(init, t) {
          assert HandlerList(cs, t) == HandlerList(init, t) + [];
        }
      }
    }
  }

  lemma {:induction false} FoldContentMeaning(cs: seq<Child>)
    requires Fold(cs, NoParts).Ok?
    ensures Fold(cs, NoParts).value.content == ContentOf(cs)
    decreases |cs|
  {
    if |cs| > 0 {
      var a := FoldInitOk(cs);
      FoldContentMeaning(Init(cs));
      assert Fold(cs, NoParts).value.content == a.content + ContentOfChild(Last(cs));
    }
  }

  /** Everything `Tag` does, stated against the reference definitions: it
      fails exactly when some argument is rejected, with the error of the
      first one; otherwise same-key attribute contributions are joined by a
      single space in encounter order, same-type handler contributions are
      listed in registration order, and the content children are the
      remaining arguments in order. */
  lemma TagMeaning(name: string, cs: seq<Child>)
    ensures Tag(name, cs).Err? <==> FirstError(cs).Some?
    ensures Tag(name, cs).Err? ==> Tag(name, cs).error == FirstError(cs).value
    ensures Tag(name, cs).Ok? ==> forall k :: k in Tag(name, cs).value.attrs <==> AttrValues(cs, k) != []
    ensures Tag(name, cs).Ok? ==> forall k :: k in Tag(name, cs).value.attrs ==> Tag(name, cs).value.attrs[k] == JoinSpace(AttrValues(cs, k))
    ensures Tag(name, cs).Ok? ==> forall t :: t in Tag(name, cs).value.handlers <==> HandlerList(cs, t) != []
    ensures Tag(name, cs).Ok? ==> forall t :: t in Tag(name, cs).value.handlers ==> Tag(name, cs).value.handlers[t] == HandlerList(cs, t)
    ensures Tag(name, cs).Ok? ==> Tag(name, cs).value.content == ContentOf(cs)
  {
    FoldErrorMeaning(cs);
    if Fold(cs, NoParts).Ok? {
      FoldAttrsMeaning(cs);
      FoldHandlersMeaning(cs);
      FoldContentMeaning(cs);
    }
  }

  /** The attribute merge law: two contributions `k: a` and `k: b` give one
      value `a b`, and neither shows up as content. */
  lemma AttributeMergeLaw(name: string, k: string, a: string, b: string)
    requires k != ""
    ensures Tag(name, [Attr(k, a), Attr(k, b)]) == Ok(Morph(name, map[k := a + " " + b], map[], []))
  {
    var cs := [Attr(k, a), Attr(k, b)];
    assert cs[1..] == [Attr(k, b)];
    assert cs[1..][1..] == [];
    var p1 := Parts(map[k := a], map[], []);
    var p2 := Parts(map[k := a + " " + b], map[], []);
    assert Step(NoParts, Attr(k, a)) == Ok(p1);
    assert p1.attrs[k := a + " " + b] == map[k := a + " " + b];
    assert Step(p1, Attr(k, b)) == Ok(p2);
    assert Fold(cs[1..][1..], p2) == Ok(p2);
    assert Fold(cs[1..], p1) == Ok(p2);
    assert Fold(cs, NoParts) == Ok(p2);
  }
}
