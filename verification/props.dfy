/** The React-flavoured `Tag` of frontend/src/div.tsx: its argument list is
    folded into one props object (children, a list of css entries, and
    every other prop merged by kind), and `dummy_keys` gives unkeyed element
    children a positional key. React and emotion themselves are not
    modelled: the result is the props record handed to `createElement`. */
module Props {
  import opened Prelude

  /** A JavaScript value as the fold sees it. A React element is known by an
      identity for its type, props and ref, and by its key; an object lists
      its own entries in `Object.entries` order. */
  datatype Value =
    | VStr(s: string)
    | VNum(n: int)
    | VBool(b: bool)
    | VUndefined
    | VNull
    | VFun(callback: nat)
    | VObj(entries: seq<Entry>)
    | VArr(items: seq<Value>)
    | VElem(element: nat, key: Option<string>)

  datatype Entry = Entry(name: string, value: Value)

  /** `typeof v` is `string`, `number`, `boolean` or `undefined`. */
  predicate IsScalar(v: Value) {
    v.VStr? || v.VNum? || v.VBool? || v.VUndefined?
  }

  /** `typeof v == 'object'` (which includes `null`). */
  predicate IsObject(v: Value) {
    v.VNull? || v.VObj? || v.VArr? || v.VElem?
  }

  /** `String(v)` of a scalar. */
  function ScalarText(v: Value): string
    requires IsScalar(v)
  {
    match v
    case VStr(s) => s
    case VNum(n) => IntToString(n)
    case VBool(b) => if b then "true" else "false"
    case _ => "undefined"
  }

  /** A stored function: the callbacks it runs, in order; `Throw` is a
      non-function that a composition tries to call. */
  datatype Call = Invoke(callback: nat) | Throw

  /** A prop other than `children` and `css`, by what the fold leaves in it. */
  datatype Field =
    | FText(text: string)
    | FFun(calls: seq<Call>)
    | FObj(fields: map<string, Value>)

  datatype Props = Props(children: seq<Value>, css: seq<Value>, fields: map<string, Field>)

  /** `{children: [], css: []}`. */
  const EmptyProps: Props := Props([], [], map[])

  /** `props.children.push(...v)` on a value that cannot be spread. */
  datatype PropsError = NotIterable

  /** The text a function prop shows when a scalar is appended to it; the
      model does not carry function source text. */
  const FunctionText: string := "function"

  function Lookup(fields: map<string, Field>, k: string): Option<Field> {
    if k in fields then Some(fields[k]) else None
  }

  /** JavaScript truthiness of a stored prop (`undefined` when absent). */
  predicate Truthy(prev: Option<Field>) {
    prev.Some? && (prev.value.FText? ==> prev.value.text != "")
  }

  function FieldText(f: Field): string {
    match f
    case FText(s) => s
    case FFun(_) => FunctionText
    case FObj(_) => "[object Object]"
  }

  /** What calling a stored prop runs. */
  function CallsOf(f: Field): seq<Call> {
    if f.FFun? then f.calls else [Throw]
  }

  /** Each character of a string as a one-character string. */
  function Chars(s: string): (cs: seq<Value>)
    ensures |cs| == |s|
    ensures forall i :: 0 <= i < |s| ==> cs[i] == VStr([s[i]])
  {
    seq(|s|, i requires 0 <= i < |s| => VStr([s[i]]))
  }

  /** The values `...v` spreads: an array's items, a string's characters;
      nothing else is iterable. */
  function Iterated(v: Value): Option<seq<Value>> {
    match v
    case VArr(xs) => Some(xs)
    case VStr(s) => Some(Chars(s))
    case _ => None
  }

  /** `{...xs}` of an array: index keys. */
  function IndexMap(xs: seq<Value>): map<string, Value>
    decreases |xs|
  {
    if |xs| == 0 then map[] else IndexMap(xs[..|xs| - 1])[Dec(|xs| - 1) := xs[|xs| - 1]]
  }

  /** An object built from its entries: a name holds its last entry's value. */
  function EntriesMap(es: seq<Entry>): map<string, Value>
    decreases |es|
  {
    if |es| == 0 then map[] else EntriesMap(es[..|es| - 1])[es[|es| - 1].name := es[|es| - 1].value]
  }

  /** A name is a key of the object exactly when some entry has it. */
  lemma {:induction false} EntriesMapKeys(es: seq<Entry>, n: string)
    ensures n in EntriesMap(es) <==> exists i :: 0 <= i < |es| && es[i].name == n
    decreases |es|
  {
    if |es| > 0 {
      var init := es[..|es| - 1];
      EntriesMapKeys(init, n);
      if exists i :: 0 <= i < |es| && es[i].name == n {
        var i :| 0 <= i < |es| && es[i].name == n;
        if i < |init| {
          assert init[i] == es[i];
        }
      }
      if exists i :: 0 <= i < |init| && init[i].name == n {
        var i :| 0 <= i < |init| && init[i].name == n;
        assert es[i] == init[i];
      }
    }
  }

  /** A name holds the value of its last entry. */
  lemma {:induction false} EntriesMapLast(es: seq<Entry>, i: nat)
    requires i < |es|
    requires forall j :: i < j < |es| ==> es[j].name != es[i].name
    ensures es[i].name in EntriesMap(es) && EntriesMap(es)[es[i].name] == es[i].value
    decreases |es|
  {
    if i < |es| - 1 {
      var init := es[..|es| - 1];
      assert init[i] == es[i];
      forall j | i < j < |init| ensures init[j].name != init[i].name {
        assert init[j] == es[j];
      }
      EntriesMapLast(init, i);
    }
  }

  /** `{...prev}` of a stored prop. */
  function SpreadField(prev: Option<Field>): map<string, Value> {
    match prev
    case None => map[]
    case Some(FText(s)) => IndexMap(Chars(s))
    case Some(FFun(_)) => map[]
    case Some(FObj(m)) => m
  }

  /** `{...v}` of an object-typed value. */
  function SpreadValue(v: Value): map<string, Value> {
    match v
    case VObj(es) => EntriesMap(es)
    case VArr(xs) => IndexMap(xs)
    case _ => map[]
  }

  /** One prop `k: v` with `k` neither `css` nor `children`, given what `k`
      held: a function composes after a truthy previous value (which runs
      first) or replaces a falsy one; an object is merged over the previous
      value, its keys winning; anything else is appended as text after one
      space, or replaces a falsy previous value. */
  function StepField(prev: Option<Field>, v: Value): (f: Field)
    ensures v.VFun? ==> f.FFun? && |f.calls| > 0 && f.calls[|f.calls| - 1] == Invoke(v.callback)
    ensures v.VFun? && !Truthy(prev) ==> f == FFun([Invoke(v.callback)])
    ensures v.VFun? && Truthy(prev) ==> f.FFun? && |f.calls| > 0 && f.calls[..|f.calls| - 1] == CallsOf(prev.value)
    ensures IsObject(v) ==> f.FObj? && (forall n :: n in SpreadValue(v) ==> n in f.fields && f.fields[n] == SpreadValue(v)[n])
    ensures IsObject(v) ==> forall n :: n in f.fields && n !in SpreadValue(v) ==> n in SpreadField(prev) && f.fields[n] == SpreadField(prev)[n]
    ensures IsScalar(v) && !Truthy(prev) ==> f == FText(ScalarText(v))
    ensures IsScalar(v) && Truthy(prev) ==> f == FText(FieldText(prev.value) + " " + ScalarText(v))
  {
    if v.VFun? then
      (if Truthy(prev) then FFun(CallsOf(prev.value) + [Invoke(v.callback)]) else FFun([Invoke(v.callback)]))
    else if IsObject(v) then FObj(SpreadField(prev) + SpreadValue(v))
    else if Truthy(prev) then FText(FieldText(prev.value) + " " + ScalarText(v))
    else FText(ScalarText(v))
  }

  /** One contribution of the flattened argument list. */
  datatype Item = Child(child: Value) | Prop(name: string, value: Value)

  /** The `forEach(add)` body on one contribution. */
  function Step(p: Props, it: Item): Result<Props, PropsError> {
    match it
    case Child(v) => Ok(p.(children := p.children + [v]))
    case Prop(k, v) =>
      if k == "css" then Ok(p.(css := p.css + [v]))
      else if k == "children" then
        match Iterated(v)
        case None => Err(NotIterable)
        case Some(xs) => Ok(p.(children := p.children + xs))
      else Ok(p.(fields := p.fields[k := StepField(Lookup(p.fields, k), v)]))
  }

  /** The contributions in order, stopping at the first failure. */
  function Fold(p: Props, items: seq<Item>): Result<Props, PropsError>
    decreases |items|
  {
    if |items| == 0 then Ok(p)
    else match Fold(p, items[..|items| - 1])
      case Err(e) => Err(e)
      case Ok(q) => Step(q, items[|items| - 1])
  }

  /** The prop entries of an object, as contributions. */
  function EntryItems(es: seq<Entry>): (items: seq<Item>)
    ensures |items| == |es|
    ensures forall i :: 0 <= i < |es| ==> items[i] == Prop(es[i].name, es[i].value)
    decreases |es|
  {
    if |es| == 0 then [] else [Prop(es[0].name, es[0].value)] + EntryItems(es[1..])
  }

  /** What `add` contributes for one argument: strings, numbers and elements
      are children, an array contributes its items' contributions in order,
      a plain object its entries, and anything else nothing. */
  function Flatten(arg: Value): seq<Item>
    decreases arg
  {
    match arg
    case VStr(_) => [Child(arg)]
    case VNum(_) => [Child(arg)]
    case VElem(_, _) => [Child(arg)]
    case VArr(xs) => FlattenAll(xs)
    case VObj(es) => EntryItems(es)
    case _ => []
  }

  function FlattenAll(args: seq<Value>): seq<Item>
    decreases args
  {
    if |args| == 0 then [] else Flatten(args[0]) + FlattenAll(args[1..])
  }

  /** `add` as written: it recurses into arrays as it meets them. */
  function Add(p: Props, arg: Value): Result<Props, PropsError>
    decreases arg
  {
    match arg
    case VStr(_) => Ok(p.(children := p.children + [arg]))
    case VNum(_) => Ok(p.(children := p.children + [arg]))
    case VElem(_, _) => Ok(p.(children := p.children + [arg]))
    case VArr(xs) => AddAll(p, xs)
    case VObj(es) => AddEntries(p, es)
    case _ => Ok(p)
  }

  /** `args.forEach(add)`. */
  function AddAll(p: Props, args: seq<Value>): Result<Props, PropsError>
    decreases args
  {
    if |args| == 0 then Ok(p)
    else match Add(p, args[0])
      case Err(e) => Err(e)
      case Ok(q) => AddAll(q, args[1..])
  }

  /** `Object.entries(arg).forEach(...)`. */
  function AddEntries(p: Props, es: seq<Entry>): Result<Props, PropsError>
    decreases |es|
  {
    if |es| == 0 then Ok(p)
    else match Step(p, Prop(es[0].name, es[0].value))
      case Err(e) => Err(e)
      case Ok(q) => AddEntries(q, es[1..])
  }

  /** Folding two runs of contributions is folding the first, then the
      second. */
  lemma {:induction false} FoldAppend(p: Props, a: seq<Item>, b: seq<Item>)
    ensures Fold(p, a + b) == if Fold(p, a).Ok? then Fold(Fold(p, a).value, b) else Fold(p, a)
    decreases |b|
  {
    if |b| == 0 {
      assert a + b == a;
    } else {
      assert (a + b)[..|a + b| - 1] == a + b[..|b| - 1];
      assert (a + b)[|a + b| - 1] == b[|b| - 1];
      FoldAppend(p, a, b[..|b| - 1]);
    }
  }

  lemma FoldCons(p: Props, x: Item, rest: seq<Item>)
    ensures Fold(p, [x] + rest) == if Step(p, x).Ok? then Fold(Step(p, x).value, rest) else Step(p, x)
  {
    FoldAppend(p, [x], rest);
    assert [x][..0] == [];
  }

  lemma {:induction false} AddEntriesFold(p: Props, es: seq<Entry>)
    ensures AddEntries(p, es) == Fold(p, EntryItems(es))
    decreases |es|
  {
    if |es| == 0 {
    } else {
      FoldCons(p, Prop(es[0].name, es[0].value), EntryItems(es[1..]));
      match Step(p, Prop(es[0].name, es[0].value))
      case Err(e) =>
      case Ok(q) => AddEntriesFold(q, es[1..]);
    }
  }

  /** `add` as written folds exactly the flattened contributions. */
  lemma {:induction false} AddFold(p: Props, arg: Value)
    ensures Add(p, arg) == Fold(p, Flatten(arg))
    decreases arg, 1
  {
    match arg
    case VStr(_) => FoldCons(p, Child(arg), []);
    case VNum(_) => FoldCons(p, Child(arg), []);
    case VElem(_, _) => FoldCons(p, Child(arg), []);
    case VArr(xs) => AddAllFold(p, xs);
    case VObj(es) => AddEntriesFold(p, es);
    case VBool(_) =>
    case VUndefined =>
    case VNull =>
    case VFun(_) =>
  }

  lemma {:induction false} AddAllFold(p: Props, args: seq<Value>)
    ensures AddAll(p, args) == Fold(p, FlattenAll(args))
    decreases args, 0
  {
    if |args| > 0 {
      AddFold(p, args[0]);
      FoldAppend(p, Flatten(args[0]), FlattenAll(args[1..]));
      match Add(p, args[0])
      case Err(e) =>
      case Ok(q) => AddAllFold(q, args[1..]);
    }
  }

  lemma {:induction false} FlattenAllAppend(a: seq<Value>, b: seq<Value>)
    ensures FlattenAll(a + b) == FlattenAll(a) + FlattenAll(b)
    decreases |a|
  {
    if |a| == 0 {
      assert a + b == b;
    } else {
      assert (a + b)[0] == a[0];
      assert (a + b)[1..] == a[1..] + b;
      FlattenAllAppend(a[1..], b);
    }
  }

  /** An array argument is flattened in place: `Tag(t, [x, y], z)` folds
      like `Tag(t, x, y, z)`. */
  lemma ArrayFlattened(p: Props, xs: seq<Value>, ys: seq<Value>)
    ensures AddAll(p, [VArr(xs)] + ys) == AddAll(p, xs + ys)
  {
    AddAllFold(p, [VArr(xs)] + ys);
    AddAllFold(p, xs + ys);
    assert ([VArr(xs)] + ys)[0] == VArr(xs);
    assert ([VArr(xs)] + ys)[1..] == ys;
    FlattenAllAppend(xs, ys);
  }

  // ---------------------------------------------------------------------------
  // Reference definitions over the contributions

  predicate BadChildren(it: Item) {
    it.Prop? && it.name == "children" && Iterated(it.value).None?
  }

  /** The children contributed, in order: child arguments, and the spread of
      every `children` prop. */
  function ChildrenOf(items: seq<Item>): seq<Value>
    decreases |items|
  {
    if |items| == 0 then []
    else
      var it := items[|items| - 1];
      ChildrenOf(items[..|items| - 1]) +
        (if it.Child? then [it.child]
         else if it.name == "children" && Iterated(it.value).Some? then Iterated(it.value).value
         else [])
  }

  /** The `css` entries contributed, in order. */
  function CssOf(items: seq<Item>): seq<Value>
    decreases |items|
  {
    if |items| == 0 then []
    else
      var it := items[|items| - 1];
      CssOf(items[..|items| - 1]) + (if it.Prop? && it.name == "css" then [it.value] else [])
  }

  /** The values given for prop `k`, in order. */
  function PropValues(items: seq<Item>, k: string): (vs: seq<Value>)
    ensures |vs| <= |items|
    decreases |items|
  {
    if |items| == 0 then []
    else
      var it := items[|items| - 1];
      PropValues(items[..|items| - 1], k) + (if it.Prop? && it.name == k then [it.value] else [])
  }

  /** What prop `k` holds after its values, on its own. */
  function FieldFold(prev: Option<Field>, vs: seq<Value>): Option<Field>
    decreases |vs|
  {
    if |vs| == 0 then prev else Some(StepField(FieldFold(prev, vs[..|vs| - 1]), vs[|vs| - 1]))
  }

  /** The fold fails exactly when some `children` prop cannot be spread. */
  lemma {:induction false} FoldError(p: Props, items: seq<Item>)
    ensures Fold(p, items).Err? <==> exists i :: 0 <= i < |items| && BadChildren(items[i])
    decreases |items|
  {
    if |items| > 0 {
      var init := items[..|items| - 1];
      FoldError(p, init);
      assert forall i :: 0 <= i < |init| ==> init[i] == items[i];
      if exists i :: 0 <= i < |items| && BadChildren(items[i]) {
        var i :| 0 <= i < |items| && BadChildren(items[i]);
        if i < |init| {
          assert BadChildren(init[i]);
        }
      }
    }
  }

  /** Children and css entries accumulate in contribution order, and each
      other prop evolves on its own: it ends as its values alone make it. */
  lemma FoldMeaning(p: Props, items: seq<Item>)
    requires Fold(p, items).Ok?
    ensures Fold(p, items).value.children == p.children + ChildrenOf(items)
    ensures Fold(p, items).value.css == p.css + CssOf(items)
    ensures forall k :: k != "css" && k != "children" ==>
      Lookup(Fold(p, items).value.fields, k) == FieldFold(Lookup(p.fields, k), PropValues(items, k))
  {
    FoldLists(p, items);
    forall k | k != "css" && k != "children"
      ensures Lookup(Fold(p, items).value.fields, k) == FieldFold(Lookup(p.fields, k), PropValues(items, k))
    {
      FoldField(p, items, k);
    }
  }

  lemma {:induction false} FoldLists(p: Props, items: seq<Item>)
    requires Fold(p, items).Ok?
    ensures Fold(p, items).value.children == p.children + ChildrenOf(items)
    ensures Fold(p, items).value.css == p.css + CssOf(items)
    decreases |items|
  {
    if |items| > 0 {
      var init := items[..|items| - 1];
      assert Fold(p, init).Ok?;
      FoldLists(p, init);
    }
  }

  /** What one step does to an ordinary prop. */
  lemma StepFieldLookup(q: Props, it: Item, r: Props, k: string)
    requires Step(q, it) == Ok(r) && k != "css" && k != "children"
    ensures Lookup(r.fields, k) == if it.Prop? && it.name == k then Some(StepField(Lookup(q.fields, k), it.value)) else Lookup(q.fields, k)
  {
  }

  lemma PropValuesSnoc(init: seq<Item>, it: Item, k: string)
    ensures PropValues(init + [it], k) == PropValues(init, k) + (if it.Prop? && it.name == k then [it.value] else [])
  {
    assert (init + [it])[..|init|] == init;
  }

  lemma {:induction false} FoldField(p: Props, items: seq<Item>, k: string)
    requires Fold(p, items).Ok? && k != "css" && k != "children"
    ensures Lookup(Fold(p, items).value.fields, k) == FieldFold(Lookup(p.fields, k), PropValues(items, k))
    decreases |items|
  {
    if |items| > 0 {
      var init := items[..|items| - 1];
      var it := items[|items| - 1];
      assert items == init + [it];
      assert Fold(p, init).Ok?;
      FoldField(p, init, k);
      var q := Fold(p, init).value;
      assert Fold(p, items) == Step(q, it);
      StepFieldLookup(q, it, Fold(p, items).value, k);
      PropValuesSnoc(init, it, k);
      var vs := PropValues(items, k);
      if it.Prop? && it.name == k {
        assert vs[..|vs| - 1] == PropValues(init, k);
      } else {
        assert vs == PropValues(init, k);
      }
    }
  }

  /** The fold never touches a prop other than `css`, `children` and the
      ones it is given. */
  lemma FieldsUntouched(p: Props, items: seq<Item>, k: string)
    requires Fold(p, items).Ok? && k != "css" && k != "children"
    requires forall i :: 0 <= i < |items| ==> !(items[i].Prop? && items[i].name == k)
    ensures Lookup(Fold(p, items).value.fields, k) == Lookup(p.fields, k)
  {
    FoldMeaning(p, items);
    NoValues(items, k);
  }

  lemma {:induction false} NoValues(items: seq<Item>, k: string)
    requires forall i :: 0 <= i < |items| ==> !(items[i].Prop? && items[i].name == k)
    ensures PropValues(items, k) == []
    decreases |items|
  {
    if |items| > 0 {
      NoValues(items[..|items| - 1], k);
    }
  }

  // ---------------------------------------------------------------------------
  // The merge laws of one prop

  function Invokes(vs: seq<Value>): (calls: seq<Call>)
    requires forall i :: 0 <= i < |vs| ==> vs[i].VFun?
    ensures |calls| == |vs|
    ensures forall i :: 0 <= i < |vs| ==> calls[i] == Invoke(vs[i].callback)
  {
    seq(|vs|, i requires 0 <= i < |vs| => Invoke(vs[i].callback))
  }

  lemma InvokesSnoc(vs: seq<Value>)
    requires |vs| > 0 && forall i :: 0 <= i < |vs| ==> vs[i].VFun?
    ensures Invokes(vs) == Invokes(vs[..|vs| - 1]) + [Invoke(vs[|vs| - 1].callback)]
  {
    var init := vs[..|vs| - 1];
    assert forall i :: 0 <= i < |init| ==> init[i] == vs[i];
  }

  /** Functions given for one prop compose in the order given, after
      whatever function the prop already held. */
  lemma {:induction false} FunctionsCompose(cs: seq<Call>, vs: seq<Value>)
    requires forall i :: 0 <= i < |vs| ==> vs[i].VFun?
    ensures FieldFold(Some(FFun(cs)), vs) == Some(FFun(cs + Invokes(vs)))
    decreases |vs|
  {
    if |vs| == 0 {
      assert cs + Invokes(vs) == cs;
    } else {
      var init := vs[..|vs| - 1];
      var last := vs[|vs| - 1];
      FunctionsCompose(cs, init);
      var prev := FieldFold(Some(FFun(cs)), init);
      assert prev == Some(FFun(cs + Invokes(init)));
      assert FieldFold(Some(FFun(cs)), vs) == Some(StepField(prev, last));
      assert StepField(prev, last) == FFun((cs + Invokes(init)) + [Invoke(last.callback)]);
      InvokesSnoc(vs);
      assert cs + Invokes(vs) == (cs + Invokes(init)) + [Invoke(last.callback)];
    }
  }

  /** On a prop that held nothing, the functions given compose in order. */
  lemma {:induction false} FunctionsComposeFresh(vs: seq<Value>)
    requires |vs| > 0
    requires forall i :: 0 <= i < |vs| ==> vs[i].VFun?
    ensures FieldFold(None, vs) == Some(FFun(Invokes(vs)))
    decreases |vs|
  {
    var init := vs[..|vs| - 1];
    if |init| == 0 {
      assert FieldFold(None, vs) == Some(StepField(None, vs[0]));
      assert Invokes(vs) == [Invoke(vs[0].callback)];
    } else {
      FunctionsComposeFresh(init);
      InvokesSnoc(vs);
    }
  }

  /** What calling a stored function does: the callbacks before the first
      non-function run, in order, and then it throws if there is one. */
  datatype Fired = Fired(ran: seq<nat>, threw: bool)

  function Fire(calls: seq<Call>): Fired
    decreases |calls|
  {
    if |calls| == 0 then Fired([], false)
    else if calls[0].Throw? then Fired([], true)
    else
      var rest := Fire(calls[1..]);
      Fired([calls[0].callback] + rest.ran, rest.threw)
  }

  /** A composed prop runs every function given for it, earlier first. */
  lemma {:induction false} FireComposed(vs: seq<Value>)
    requires forall i :: 0 <= i < |vs| ==> vs[i].VFun?
    ensures !Fire(Invokes(vs)).threw
    ensures |Fire(Invokes(vs)).ran| == |vs|
    ensures forall i :: 0 <= i < |vs| ==> Fire(Invokes(vs)).ran[i] == vs[i].callback
    decreases |vs|
  {
    if |vs| > 0 {
      assert Invokes(vs)[1..] == Invokes(vs[1..]);
      FireComposed(vs[1..]);
    }
  }

  /** A function composed after a truthy non-function throws before it
      runs. */
  lemma ComposedAfterText(s: string, f: nat)
    requires s != ""
    ensures FieldFold(Some(FText(s)), [VFun(f)]) == Some(FFun([Throw, Invoke(f)]))
    ensures Fire([Throw, Invoke(f)]) == Fired([], true)
  {
    assert [VFun(f)][..0] == [];
    assert FieldFold(Some(FText(s)), [VFun(f)]) == Some(StepField(Some(FText(s)), VFun(f)));
    assert CallsOf(FText(s)) + [Invoke(f)] == [Throw, Invoke(f)];
  }

  function Texts(vs: seq<Value>): (ts: seq<string>)
    requires forall i :: 0 <= i < |vs| ==> IsScalar(vs[i])
    ensures |ts| == |vs|
    ensures forall i :: 0 <= i < |vs| ==> ts[i] == ScalarText(vs[i])
  {
    seq(|vs|, i requires 0 <= i < |vs| => ScalarText(vs[i]))
  }

  lemma {:induction false} JoinSpaceEndsWith(ts: seq<string>)
    requires |ts| > 0
    ensures |JoinSpace(ts)| >= |ts[|ts| - 1]|
    decreases |ts|
  {
  }

  /** Scalars given for one prop, none of them empty, end up joined by
      single spaces in the order given. */
  lemma {:induction false} ScalarsJoin(vs: seq<Value>)
    requires |vs| > 0
    requires forall i :: 0 <= i < |vs| ==> IsScalar(vs[i]) && ScalarText(vs[i]) != ""
    ensures FieldFold(None, vs) == Some(FText(JoinSpace(Texts(vs))))
    decreases |vs|
  {
    var init := vs[..|vs| - 1];
    var last := vs[|vs| - 1];
    if |init| == 0 {
      assert FieldFold(None, vs) == Some(StepField(None, last));
    } else {
      ScalarsJoin(init);
      assert Texts(vs)[..|vs| - 1] == Texts(init);
      JoinSpaceEndsWith(Texts(init));
      assert Truthy(Some(FText(JoinSpace(Texts(init)))));
    }
  }

  /** A falsy value is replaced, not appended to. */
  lemma FalsyReplaced(v: Value, w: Value)
    requires IsScalar(v) && ScalarText(v) == "" && IsScalar(w)
    ensures FieldFold(None, [v, w]) == Some(FText(ScalarText(w)))
  {
    assert [v, w][..1] == [v];
    assert [v][..0] == [];
    assert FieldFold(None, [v]) == Some(StepField(None, v));
    assert StepField(None, v) == FText("");
    assert FieldFold(None, [v, w]) == Some(StepField(Some(FText("")), w));
  }

  /** Objects given for one prop merged shallowly, left to right. */
  function MergeAll(vs: seq<Value>): map<string, Value>
    requires forall i :: 0 <= i < |vs| ==> vs[i].VObj?
    decreases |vs|
  {
    if |vs| == 0 then map[] else MergeAll(vs[..|vs| - 1]) + EntriesMap(vs[|vs| - 1].entries)
  }

  /** A key is in the merge exactly when some object has it, and holds the
      value of the last object that does. */
  lemma {:induction false} MergeLaterWins(vs: seq<Value>, n: string, i: nat)
    requires forall j :: 0 <= j < |vs| ==> vs[j].VObj?
    requires i < |vs| && n in EntriesMap(vs[i].entries)
    requires forall j :: i < j < |vs| ==> n !in EntriesMap(vs[j].entries)
    ensures n in MergeAll(vs) && MergeAll(vs)[n] == EntriesMap(vs[i].entries)[n]
    decreases |vs|
  {
    if i < |vs| - 1 {
      MergeLaterWins(vs[..|vs| - 1], n, i);
    }
  }

  lemma {:induction false} MergeKeys(vs: seq<Value>, n: string)
    requires forall j :: 0 <= j < |vs| ==> vs[j].VObj?
    ensures n in MergeAll(vs) <==> exists j :: 0 <= j < |vs| && n in EntriesMap(vs[j].entries)
    decreases |vs|
  {
    if |vs| > 0 {
      var init := vs[..|vs| - 1];
      MergeKeys(init, n);
      if exists j :: 0 <= j < |vs| && n in EntriesMap(vs[j].entries) {
        var j :| 0 <= j < |vs| && n in EntriesMap(vs[j].entries);
        if j < |init| {
          assert init[j] == vs[j];
        }
      }
      if exists j :: 0 <= j < |init| && n in EntriesMap(init[j].entries) {
        var j :| 0 <= j < |init| && n in EntriesMap(init[j].entries);
        assert init[j] == vs[j];
      }
    }
  }

  /** Objects given for one prop merge shallowly, later keys winning. */
  lemma {:induction false} ObjectsMerge(vs: seq<Value>)
    requires |vs| > 0
    requires forall i :: 0 <= i < |vs| ==> vs[i].VObj?
    ensures FieldFold(None, vs) == Some(FObj(MergeAll(vs)))
    decreases |vs|
  {
    var init := vs[..|vs| - 1];
    var last := vs[|vs| - 1];
    if |init| == 0 {
      assert FieldFold(None, vs) == Some(StepField(None, last));
      assert MergeAll(vs) == map[] + EntriesMap(last.entries);
      assert map[] + EntriesMap(last.entries) == EntriesMap(last.entries);
      assert StepField(None, last) == FObj(map[] + EntriesMap(last.entries));
    } else {
      ObjectsMerge(init);
    }
  }

  // ---------------------------------------------------------------------------
  // dummy_keys and the element built

  /** A key React treats as present. */
  predicate Keyed(key: Option<string>) {
    key.Some? && key.value != ""
  }

  /** `dummy_keys(xs, prefix)`: every element without a truthy key is
      re-created with the key `prefix + i`; keyed elements and non-elements
      stay as they are. */
  function DummyKeys(xs: seq<Value>, prefix: string): (ys: seq<Value>)
    ensures |ys| == |xs|
    ensures forall i :: 0 <= i < |xs| && !(xs[i].VElem? && !Keyed(xs[i].key)) ==> ys[i] == xs[i]
    ensures forall i :: 0 <= i < |xs| && xs[i].VElem? && !Keyed(xs[i].key) ==>
      ys[i] == VElem(xs[i].element, Some(prefix + Dec(i)))
  {
    seq(|xs|, i requires 0 <= i < |xs| =>
      if xs[i].VElem? && !Keyed(xs[i].key) then VElem(xs[i].element, Some(prefix + Dec(i))) else xs[i])
  }

  /** Every element leaves `dummy_keys` keyed, and the keys it hands out
      are pairwise distinct. */
  lemma DummyKeysDistinct(xs: seq<Value>, prefix: string)
    ensures forall i :: 0 <= i < |xs| && xs[i].VElem? ==> Keyed(DummyKeys(xs, prefix)[i].key)
    ensures forall i, j :: 0 <= i < j < |xs| && xs[i].VElem? && !Keyed(xs[i].key) && xs[j].VElem? && !Keyed(xs[j].key) ==>
      DummyKeys(xs, prefix)[i].key != DummyKeys(xs, prefix)[j].key
  {
    forall i, j | 0 <= i < j < |xs| && xs[i].VElem? && !Keyed(xs[i].key) && xs[j].VElem? && !Keyed(xs[j].key)
      ensures DummyKeys(xs, prefix)[i].key != DummyKeys(xs, prefix)[j].key
    {
      PrefixedDecInjective(prefix, i, j);
    }
  }

  /** The prefix `Tag` hands to `dummy_keys`. */
  const ChildKeyPrefix: string := ":"

  /** What `Tag` hands to React: the tag name, the `key` prop, the css entries,
      the keyed children and every other prop. */
  datatype Rendered = Rendered(tagName: string, key: Option<Field>, styles: seq<Value>, children: seq<Value>, props: map<string, Field>)

  /** `Tag(tagName, ...args)`. */
  function Tag(tagName: string, args: seq<Value>): (r: Result<Rendered, PropsError>)
    ensures r.Err? <==> exists i :: 0 <= i < |FlattenAll(args)| && BadChildren(FlattenAll(args)[i])
    ensures r.Ok? ==> r.value.tagName == tagName
    ensures r.Ok? ==> r.value.children == DummyKeys(ChildrenOf(FlattenAll(args)), ChildKeyPrefix)
    ensures r.Ok? ==> r.value.styles == CssOf(FlattenAll(args))
    ensures r.Ok? ==> r.value.key == FieldFold(None, PropValues(FlattenAll(args), "key"))
    ensures r.Ok? ==> "key" !in r.value.props
    ensures r.Ok? ==> forall k :: k != "key" && k != "css" && k != "children" ==>
      Lookup(r.value.props, k) == FieldFold(None, PropValues(FlattenAll(args), k))
  {
    AddAllFold(EmptyProps, args);
    FoldError(EmptyProps, FlattenAll(args));
    match AddAll(EmptyProps, args)
    case Err(e) => Err(e)
    case Ok(p) =>
      FoldMeaning(EmptyProps, FlattenAll(args));
      Ok(Rendered(tagName, Lookup(p.fields, "key"), p.css, DummyKeys(p.children, ChildKeyPrefix), p.fields - {"key"}))
  }

  /** Two one-entry objects flatten to their two props, in order. */
  lemma TwoPropsFlatten(k: string, u: Value, v: Value)
    ensures FlattenAll([VObj([Entry(k, u)]), VObj([Entry(k, v)])]) == [Prop(k, u), Prop(k, v)]
  {
    var x := VObj([Entry(k, u)]);
    var y := VObj([Entry(k, v)]);
    assert EntryItems([Entry(k, u)]) == [Prop(k, u)];
    assert EntryItems([Entry(k, v)]) == [Prop(k, v)];
    assert [x, y][1..] == [y];
    assert [y][1..] == [];
    assert FlattenAll([y]) == Flatten(y) + FlattenAll([]);
    assert FlattenAll([x, y]) == Flatten(x) + FlattenAll([y]);
  }

  /** Two non-empty text values of an ordinary prop end up joined by a
      space. */
  lemma TwoTextsJoin(k: string, a: string, b: string)
    requires a != "" && b != "" && k != "key" && k != "css" && k != "children"
    ensures Tag("div", [VObj([Entry(k, VStr(a))]), VObj([Entry(k, VStr(b))])]).Ok?
    ensures Lookup(Tag("div", [VObj([Entry(k, VStr(a))]), VObj([Entry(k, VStr(b))])]).value.props, k)
      == Some(FText(a + " " + b))
  {
    var items := [Prop(k, VStr(a)), Prop(k, VStr(b))];
    TwoPropsFlatten(k, VStr(a), VStr(b));
    TwoTextsField(k, a, b);
    assert forall i :: 0 <= i < |items| ==> !BadChildren(items[i]);
  }

  lemma TwoTextsField(k: string, a: string, b: string)
    requires a != "" && b != ""
    ensures FieldFold(None, PropValues([Prop(k, VStr(a)), Prop(k, VStr(b))], k)) == Some(FText(a + " " + b))
  {
    TwoPropValues(k, VStr(a), VStr(b));
    TwoTextsFold(a, b);
  }

  lemma TwoPropValues(k: string, u: Value, v: Value)
    ensures PropValues([Prop(k, u), Prop(k, v)], k) == [u, v]
  {
    var items := [Prop(k, u), Prop(k, v)];
    assert items[..1] == [Prop(k, u)];
    assert [Prop(k, u)][..0] == [];
    assert PropValues(items[..1], k) == [u];
  }

  lemma TwoTextsFold(a: string, b: string)
    requires a != "" && b != ""
    ensures FieldFold(None, [VStr(a), VStr(b)]) == Some(FText(a + " " + b))
  {
    ScalarsJoin([VStr(a), VStr(b)]);
    assert Texts([VStr(a), VStr(b)]) == [a, b];
    assert JoinSpace([a, b]) == JoinSpace([a]) + " " + b;
  }

  /** Two `className` props, as two `cls` calls make them, end up as one
      class list joined by a space. */
  lemma ClassNamesJoin(a: string, b: string)
    requires a != "" && b != ""
    ensures Tag("div", [VObj([Entry("className", VStr(a))]), VObj([Entry("className", VStr(b))])]).Ok?
    ensures Lookup(Tag("div", [VObj([Entry("className", VStr(a))]), VObj([Entry("className", VStr(b))])]).value.props, "className")
      == Some(FText(a + " " + b))
  {
    TwoTextsJoin("className", a, b);
  }
}
