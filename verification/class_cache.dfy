/** domdiff.js `class_cache`: a map from keys to generated class names,
    threaded through calls as a state record, and the one style sheet the
    generated rules are appended to. A name is the prefix followed by the
    number of keys generated before it. */
module ClassCache {
  import opened Prelude
  import opened Template
  import opened Descriptor
  import opened CssText

  /** `class_prefix` defaults to `c`. */
  const DefaultPrefix: string := "c"

  /** `keys` lists the keys of `generated` in insertion order, so the name of
      `keys[i]` is `prefix + i`; `sheet` is the text of the style element. */
  datatype Cache = Cache(prefix: string, keys: seq<string>, sheet: string)

  /** A map holds each key once. */
  ghost predicate Valid(c: Cache) {
    forall i, j :: 0 <= i < j < |c.keys| ==> c.keys[i] != c.keys[j]
  }

  function NewCache(prefix: string): (c: Cache)
    ensures Valid(c) && c.prefix == prefix && c.keys == [] && c.sheet == ""
  {
    Cache(prefix, [], "")
  }

  /** The first position of `key` in `keys`. */
  function Find(keys: seq<string>, key: string): (r: Option<nat>)
    ensures r.None? <==> key !in keys
    ensures r.Some? ==> r.value < |keys| && keys[r.value] == key && key !in keys[..r.value]
  {
    if |keys| == 0 then None
    else if keys[0] == key then Some(0)
    else match Find(keys[1..], key)
      case None => None
      case Some(i) =>
        assert keys[..i + 1] == [keys[0]] + keys[1..][..i];
        Some(i + 1)
  }

  /** `generated.get(key)`. */
  function Lookup(c: Cache, key: string): (r: Option<string>)
    ensures r.None? <==> key !in c.keys
    ensures r.Some? ==> exists i :: 0 <= i < |c.keys| && c.keys[i] == key && r.value == c.prefix + Dec(i)
  {
    match Find(c.keys, key)
    case None => None
    case Some(i) => Some(c.prefix + Dec(i))
  }

  /** The rule text appended for a new class: a bare declaration list is
      wrapped in a rule for the class; text holding a `{` is a set of rules
      in which every `&` stands for the class selector. */
  function Fragment(name: string, code: string): string {
    if '{' !in code then "." + name + " {" + code + "}\n"
    else ReplaceAll(code, '&', "." + name) + "\n"
  }

  /** What `generate_class` returns and changes; `evaluated` says whether the
      code generator was called. */
  datatype Generated = Generated(cache: Cache, cls: Child, evaluated: bool)

  lemma {:induction false} FindAppend(keys: seq<string>, key: string, other: string)
    requires other in keys || other == key
    ensures Find(keys + [key], other) == if other in keys then Find(keys, other) else Some(|keys|)
    decreases |keys|
  {
    if |keys| > 0 && keys[0] != other {
      assert (keys + [key])[1..] == keys[1..] + [key];
      FindAppend(keys[1..], key, other);
    } else if |keys| == 0 {
      assert (keys + [key])[0] == key;
    }
  }

  lemma AppendValid(c: Cache, key: string, sheet: string)
    requires key !in c.keys
    ensures Valid(c) ==> Valid(Cache(c.prefix, c.keys + [key], sheet))
  {
  }

  /** `generate_class(key, gen_code)`, with `code` the text `gen_code` would
      return. */
  function GenerateClass(c: Cache, key: string, code: string): (g: Generated)
    ensures g.cache.prefix == c.prefix
    ensures g.evaluated <==> key !in c.keys
    ensures key in c.keys ==> g.cache == c
    ensures key !in c.keys ==> g.cache.keys == c.keys + [key]
    ensures key !in c.keys ==> g.cache.sheet == c.sheet + Fragment(c.prefix + Dec(|c.keys|), Normalize(code))
    ensures g.cls.Attr? && g.cls.attr == "class"
    ensures Lookup(g.cache, key) == Some(g.cls.value)
    ensures key in c.keys ==> Lookup(c, key) == Some(g.cls.value)
    ensures key !in c.keys ==> g.cls.value == c.prefix + Dec(|c.keys|)
  {
    if key in c.keys then
      Generated(c, Attr("class", Lookup(c, key).value), false)
    else
      var name := c.prefix + Dec(|c.keys|);
      var c' := Cache(c.prefix, c.keys + [key], c.sheet + Fragment(name, Normalize(code)));
      FindAppend(c.keys, key, key);
      Generated(c', Attr("class", name), true)
  }

  /** `generate_class` keeps each key in the map once. */
  lemma GenerateValid(c: Cache, key: string, code: string)
    requires Valid(c)
    ensures Valid(GenerateClass(c, key, code).cache)
  {
    if key !in c.keys {
      AppendValid(c, key, GenerateClass(c, key, code).cache.sheet);
    }
  }

  /** Distinct keys have distinct names. */
  lemma NamesInjective(c: Cache, k1: string, k2: string)
    requires k1 in c.keys && k2 in c.keys
    ensures Lookup(c, k1) == Lookup(c, k2) <==> k1 == k2
  {
    var i := Find(c.keys, k1).value;
    var j := Find(c.keys, k2).value;
    PrefixedDecInjective(c.prefix, i, j);
  }

  /** Generating a class never renames a key already in the cache. */
  lemma GenerateKeepsNames(c: Cache, key: string, code: string, other: string)
    requires other in c.keys
    ensures Lookup(GenerateClass(c, key, code).cache, other) == Lookup(c, other)
  {
    if key !in c.keys {
      FindAppend(c.keys, key, other);
    }
  }

  /** A fragment for text without `{` is a single rule selecting the class. */
  lemma FragmentRule(name: string, code: string)
    requires '{' !in code
    ensures Fragment(name, code) == "." + name + " {" + code + "}\n"
  {
  }

  /** In a fragment built from rule text, no `&` is left, provided the class
      name has none; rule text without `&` is kept as it is. */
  lemma FragmentSelectors(name: string, code: string)
    requires '{' in code
    ensures '&' !in name ==> '&' !in Fragment(name, code)
    ensures '&' !in code ==> Fragment(name, code) == code + "\n"
  {
    if '&' !in name {
      ReplaceAllRemoves(code, '&', "." + name);
      assert '&' !in "." + name;
    }
    if '&' !in code {
      ReplaceAllAbsent(code, '&', "." + name);
    }
  }

  /** A sequence of `generate_class` calls: the names returned, the keys
      whose code was generated, and the fragments appended, in order. */
  datatype Run = Run(cache: Cache, names: seq<string>, evaluated: seq<string>, fragments: seq<string>)

  function RunCalls(c: Cache, calls: seq<(string, string)>): (r: Run)
    ensures |r.names| == |calls| && |r.evaluated| == |r.fragments|
    ensures r.cache.prefix == c.prefix
    decreases |calls|
  {
    if |calls| == 0 then Run(c, [], [], [])
    else
      var g := GenerateClass(c, calls[0].0, calls[0].1);
      var rest := RunCalls(g.cache, calls[1..]);
      if g.evaluated then
        Run(rest.cache, [g.cls.value] + rest.names, [calls[0].0] + rest.evaluated,
            [Fragment(g.cls.value, Normalize(calls[0].1))] + rest.fragments)
      else Run(rest.cache, [g.cls.value] + rest.names, rest.evaluated, rest.fragments)
  }

  /** Over any run of calls, the code generator runs exactly for the keys
      that were new, once each, and in the order they first appear; the
      sheet grows by one fragment per new key; each call returns the name
      the final cache holds for its key, so one key always gets one name. */
  lemma RunLaw(c: Cache, calls: seq<(string, string)>)
    requires Valid(c)
    ensures Valid(RunCalls(c, calls).cache)
    ensures RunCalls(c, calls).cache.keys == c.keys + RunCalls(c, calls).evaluated
    ensures RunCalls(c, calls).cache.sheet == c.sheet + Concat(RunCalls(c, calls).fragments)
    ensures forall i :: 0 <= i < |calls| ==> Lookup(RunCalls(c, calls).cache, calls[i].0) == Some(RunCalls(c, calls).names[i])
  {
    RunKeys(c, calls);
    RunSheet(c, calls);
    RunNames(c, calls);
  }

  lemma {:induction false} RunKeys(c: Cache, calls: seq<(string, string)>)
    requires Valid(c)
    ensures Valid(RunCalls(c, calls).cache)
    ensures RunCalls(c, calls).cache.keys == c.keys + RunCalls(c, calls).evaluated
    decreases |calls|
  {
    if |calls| > 0 {
      var g := GenerateClass(c, calls[0].0, calls[0].1);
      var rest := RunCalls(g.cache, calls[1..]);
      var r := RunCalls(c, calls);
      assert r.cache == rest.cache;
      GenerateValid(c, calls[0].0, calls[0].1);
      RunKeys(g.cache, calls[1..]);
      assert rest.cache.keys == g.cache.keys + rest.evaluated;
      if g.evaluated {
        assert r.evaluated == [calls[0].0] + rest.evaluated;
        SeqAssoc(c.keys, calls[0].0, rest.evaluated);
      } else {
        assert r.evaluated == rest.evaluated;
      }
    }
  }

  lemma SeqAssoc<T>(a: seq<T>, x: T, b: seq<T>)
    ensures (a + [x]) + b == a + ([x] + b)
  {
  }

  lemma StringAssoc(a: string, b: string, c: string)
    ensures (a + b) + c == a + (b + c)
  {
  }

  lemma {:induction false} RunSheet(c: Cache, calls: seq<(string, string)>)
    ensures RunCalls(c, calls).cache.sheet == c.sheet + Concat(RunCalls(c, calls).fragments)
    decreases |calls|
  {
    if |calls| > 0 {
      var g := GenerateClass(c, calls[0].0, calls[0].1);
      var rest := RunCalls(g.cache, calls[1..]);
      var r := RunCalls(c, calls);
      assert r.cache == rest.cache;
      RunSheet(g.cache, calls[1..]);
      assert rest.cache.sheet == g.cache.sheet + Concat(rest.fragments);
      if g.evaluated {
        var frag := Fragment(g.cls.value, Normalize(calls[0].1));
        assert r.fragments == [frag] + rest.fragments;
        assert g.cache.sheet == c.sheet + frag;
        assert Concat(r.fragments) == frag + Concat(rest.fragments) by {
          ConcatAppend([frag], rest.fragments);
          assert Concat([frag]) == frag + Concat([]);
          assert frag + "" == frag;
        }
        StringAssoc(c.sheet, frag, Concat(rest.fragments));
      } else {
        assert r.fragments == rest.fragments;
      }
    }
  }

  /** The first call's name survives the rest of the run. */
  lemma RunNameFirst(c: Cache, calls: seq<(string, string)>)
    requires |calls| > 0
    ensures Lookup(RunCalls(c, calls).cache, calls[0].0) == Some(RunCalls(c, calls).names[0])
  {
    var g := GenerateClass(c, calls[0].0, calls[0].1);
    var r := RunCalls(c, calls);
    assert r.cache == RunCalls(g.cache, calls[1..]).cache;
    assert r.names[0] == g.cls.value;
    assert calls[0].0 in g.cache.keys;
    RunKeepsNames(g.cache, calls[1..], calls[0].0);
  }

  lemma {:induction false} RunNames(c: Cache, calls: seq<(string, string)>)
    ensures forall i :: 0 <= i < |calls| ==> Lookup(RunCalls(c, calls).cache, calls[i].0) == Some(RunCalls(c, calls).names[i])
    decreases |calls|
  {
    if |calls| > 0 {
      var g := GenerateClass(c, calls[0].0, calls[0].1);
      var rest := RunCalls(g.cache, calls[1..]);
      var r := RunCalls(c, calls);
      assert r.cache == rest.cache;
      assert r.names == [g.cls.value] + rest.names;
      RunNameFirst(c, calls);
      RunNames(g.cache, calls[1..]);
      NamesShift(calls, r.cache, r.names, rest.names);
    }
  }

  /** Names that hold for the first call and for the calls after it hold
      for all of them. */
  lemma NamesShift(calls: seq<(string, string)>, cache: Cache, names: seq<string>, restNames: seq<string>)
    requires |calls| > 0 && |names| == |calls| && names[1..] == restNames
    requires Lookup(cache, calls[0].0) == Some(names[0])
    requires forall i :: 0 <= i < |calls| - 1 ==> Lookup(cache, calls[1..][i].0) == Some(restNames[i])
    ensures forall i :: 0 <= i < |calls| ==> Lookup(cache, calls[i].0) == Some(names[i])
  {
    forall i | 1 <= i < |calls| ensures Lookup(cache, calls[i].0) == Some(names[i]) {
      assert calls[i] == calls[1..][i - 1];
      assert names[i] == restNames[i - 1];
    }
  }

  /** A run never renames a key already in the cache. */
  lemma {:induction false} RunKeepsNames(c: Cache, calls: seq<(string, string)>, key: string)
    requires key in c.keys
    ensures Lookup(RunCalls(c, calls).cache, key) == Lookup(c, key)
    decreases |calls|
  {
    if |calls| > 0 {
      var g := GenerateClass(c, calls[0].0, calls[0].1);
      GenerateKeepsNames(c, calls[0].0, calls[0].1, key);
      RunKeepsNames(g.cache, calls[1..], key);
    }
  }

  /** `css`: the template's text is both the key and the code. A number
      cannot be turned into text by domdiff.js `template_to_string`. */
  function Css(c: Cache, t: TemplateInput): (r: Result<Generated, TemplateError>)
    ensures r.Err? <==> t.Numeric?
    ensures r.Ok? ==> r == Ok(GenerateClass(c, DomdiffTemplateToString(t).value, DomdiffTemplateToString(t).value))
  {
    match DomdiffTemplateToString(t)
    case Err(e) => Err(e)
    case Ok(s) => Ok(GenerateClass(c, s, s))
  }

  /** Using the same `css` template twice yields the same class, and the
      second use neither generates code nor touches the sheet. */
  lemma CssRepeat(c: Cache, t: TemplateInput)
    requires !t.Numeric?
    ensures Css(Css(c, t).value.cache, t).value.cls == Css(c, t).value.cls
    ensures Css(Css(c, t).value.cache, t).value.cache == Css(c, t).value.cache
    ensures !Css(Css(c, t).value.cache, t).value.evaluated
  {
  }

  /** The first two classes of a fresh default cache are `c0` and `c1`. */
  lemma FirstNames(a: string, b: string, codeA: string, codeB: string)
    requires a != b
    ensures GenerateClass(NewCache(DefaultPrefix), a, codeA).cls == Attr("class", "c0")
    ensures GenerateClass(GenerateClass(NewCache(DefaultPrefix), a, codeA).cache, b, codeB).cls == Attr("class", "c1")
  {
    assert Dec(0) == "0";
    assert Dec(1) == "1";
  }
}
