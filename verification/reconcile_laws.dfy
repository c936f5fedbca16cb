/** Laws of the reconciler that relate several passes: idempotence (a
    descriptor re-applied to its own output changes nothing and returns the
    same node), minimal mutation (changing only attributes writes only
    attributes), the keyed-thunk skip, and what `Tag` followed by `morph`
    leaves on the node. */
module ReconcileLaws {
  import opened Prelude
  import opened Host
  import opened Descriptor
  import opened Reconcile

  /** Re-resolving `c` against `h` is the zero-mutation path, whatever the id
      counter. */
  ghost predicate Settled(c: Content, h: Host) {
    forall n: nat {:trigger Resolve(c, Some(h), n)} :: Resolve(c, Some(h), n) == Outcome(h, n, [])
  }

  lemma AttrLogSettled(id: NodeId, attrs: map<string, string>)
    ensures AttrLog(id, Applied(attrs), attrs) == []
  {
    assert Removed(Applied(attrs), attrs) == {};
    assert Written(Applied(attrs), attrs).Keys == {};
  }

  lemma HandlerLogSettled(id: NodeId, handlers: map<string, seq<Callback>>)
    ensures HandlerLog(id, handlers, handlers) == []
  {
  }

  /** Idempotence: applying `d` to the node it produced from nothing returns
      that very node, writes nothing and allocates nothing. */
  lemma {:induction false} Idempotent(d: Desc, m: nat, n: nat)
    ensures Apply(d, Some(Apply(d, None, m).node), n) == Outcome(Apply(d, None, m).node, n, [])
    decreases d, 1
  {
    match d
    case Thunk(_, _) =>
    case Morph(_, attrs, _, _) =>
      var node := Apply(d, None, m).node;
      FirstNodeSettled(d, m, n);
      SettledMorph(d, node, n);
      AttrLogSettled(m, attrs);
      assert node.(attrs := Applied(attrs)) == node;
  }

  /** The first pass over an empty child list appends one settled node per
      content child, after the children already there. */
  lemma {:induction false} FirstPassChildren(parent: NodeId, cs: seq<Content>, kids: seq<Host>, m: nat)
    ensures |Children(parent, cs, kids, |kids|, m).kids| == |kids| + |cs|
    ensures Children(parent, cs, kids, |kids|, m).kids[..|kids|] == kids
    ensures forall j :: 0 <= j < |cs| ==> Settled(cs[j], Children(parent, cs, kids, |kids|, m).kids[|kids| + j])
    decreases cs, 0
  {
    if |cs| > 0 {
      var o := Resolve(cs[0], None, m);
      var kids' := kids + [o.node];
      var rest := Children(parent, cs[1..], kids', |kids'|, o.next);
      assert Children(parent, cs, kids, |kids|, m).kids == rest.kids;
      FirstPassSettled(cs[0], m);
      FirstPassChildren(parent, cs[1..], kids', o.next);
      assert rest.kids[..|kids|] == rest.kids[..|kids'|][..|kids|];
      assert rest.kids[|kids|] == kids'[|kids|];
      forall j | 1 <= j < |cs|
        ensures Settled(cs[j], rest.kids[|kids| + j])
      {
        assert cs[j] == cs[1..][j - 1];
        assert |kids| + j == |kids'| + (j - 1);
      }
    }
  }

  lemma {:induction false} FirstPassSettled(c: Content, m: nat)
    ensures Settled(c, Resolve(c, None, m).node)
    decreases c
  {
    match c
    case TextContent(_) =>
    case DescContent(d) =>
      forall n: nat ensures Resolve(c, Some(Resolve(c, None, m).node), n) == Outcome(Resolve(c, None, m).node, n, []) {
        Idempotent(d, m, n);
      }
    case ForeignContent(_) =>
  }

  /** Children already settled against their content are skipped by the child
      loop: it goes on as if it started at the first unsettled position, so
      they are neither replaced nor touched. */
  lemma {:induction false} SettledPrefixSkipped(parent: NodeId, cs: seq<Content>, kids: seq<Host>, i: nat, n: nat)
    requires i <= |kids| <= i + |cs|
    requires forall j :: 0 <= j < |kids| - i ==> Settled(cs[j], kids[i + j])
    ensures Children(parent, cs, kids, i, n) == Children(parent, cs[|kids| - i..], kids, |kids|, n)
  {
    var j := |kids| - i;
    forall t | 0 <= t < j ensures Resolve(cs[t], Some(kids[i + t]), n) == Outcome(kids[i + t], n, []) {
      assert Settled(cs[t], kids[i + t]);
    }
    SettledRun(parent, cs, kids, i, j, n);
    assert i + j == |kids|;
  }

  /** One settled child costs nothing: the loop moves on with the same
      children, the same counter and no writes. */
  lemma SettledStep(parent: NodeId, cs: seq<Content>, kids: seq<Host>, i: nat, n: nat)
    requires i < |kids| && |cs| > 0 && Resolve(cs[0], Some(kids[i]), n) == Outcome(kids[i], n, [])
    ensures Children(parent, cs, kids, i, n) == Children(parent, cs[1..], kids, i + 1, n)
  {
    assert Resolve(cs[0], Some(kids[i]), n) == Outcome(kids[i], n, []);
    assert kids[i := kids[i]] == kids;
    var rest := Children(parent, cs[1..], kids, i + 1, n);
    assert [] + [] + rest.log == rest.log;
  }

  /** Growing children: when the previous node's children are settled
      against the first content children, the pass over the children only
      appends the new ones; every earlier child is left as it was. */
  lemma GrowingChildren(parent: NodeId, cs: seq<Content>, kids: seq<Host>, n: nat)
    requires |kids| <= |cs|
    requires forall j :: 0 <= j < |kids| ==> Settled(cs[j], kids[j])
    ensures Children(parent, cs, kids, 0, n) == Children(parent, cs[|kids|..], kids, |kids|, n)
    ensures |Children(parent, cs, kids, 0, n).kids| == |cs|
    ensures Children(parent, cs, kids, 0, n).kids[..|kids|] == kids
  {
    SettledPrefixSkipped(parent, cs, kids, 0, n);
  }

  /** The node a descriptor builds from nothing can be reused by it: same
      tag, one settled child per content child, its own handlers. */
  lemma FirstNodeSettled(d: Desc, m: nat, n: nat)
    requires d.Morph?
    decreases d, 0
    ensures var node := Apply(d, None, m).node;
      Reusable(Some(node), d.name) && node.id == m && node.attrs == Applied(d.attrs) && node.handlers == d.handlers &&
      |node.children| == |d.content| && Children(m, d.content, node.children, 0, n) == KidsOutcome(node.children, n, [])
  {
    var first := Apply(d, None, m);
    var kids := Children(m, d.content, [], 0, m + 1);
    assert first == ApplyMorph(d, None, m);
    assert first.node == Element(m, Upper(d.name), Applied(d.attrs), d.handlers, kids.kids, None, false);
    FirstPassChildren(m, d.content, [], m + 1);
    SettledPrefixSkipped(m, d.content, kids.kids, 0, n);
    assert d.content[|kids.kids|..] == [];
  }

  /** Applying a descriptor to a reusable node whose children and handlers
      are already settled writes only the attribute diff. */
  lemma SettledMorph(d: Desc, node: Host, n: nat)
    requires d.Morph? && Reusable(Some(node), d.name)
    requires |node.children| == |d.content| && node.handlers == d.handlers
    requires Children(node.id, d.content, node.children, 0, n) == KidsOutcome(node.children, n, [])
    ensures Apply(d, Some(node), n) == Outcome(node.(attrs := Applied(d.attrs)), n, AttrLog(node.id, node.attrs, d.attrs))
  {
    HandlerLogSettled(node.id, d.handlers);
    assert Apply(d, Some(node), n) == ApplyMorph(d, Some(node), n);
  }

  // ---------------------------------------------------------------------------
  // The child loop position by position

  /** Where the node a descriptor leaves comes from: it is the previous node,
      keeping its id, or the element created with the counter's id. */
  lemma {:induction false} ApplyIdentity(d: Desc, prev: Option<Host>, next: nat)
    ensures Apply(d, prev, next).node.id == next || (prev.Some? && Apply(d, prev, next).node.id == prev.value.id)
    decreases d
  {
    match d
    case Thunk(key, create) =>
      if !ThunkHit(prev, key) {
        ApplyIdentity(create, prev, next);
        ThunkMiss(key, create, prev, next);
      }
    case Morph(_, _, _, _) =>
  }

  /** The same for one content child, where a foreign node keeps its own id. */
  lemma ResolveIdentity(c: Content, prev: Option<Host>, next: nat)
    ensures !c.ForeignContent? ==>
      Resolve(c, prev, next).node.id == next || (prev.Some? && Resolve(c, prev, next).node.id == prev.value.id)
    ensures c.ForeignContent? ==> Resolve(c, prev, next).node.id == c.node.id
  {
    ResolveCases(c, prev, next);
    if c.DescContent? {
      ApplyIdentity(c.desc, prev, next);
    }
  }

  /** When the previous child's id is below the counter, as it is in any
      tree an earlier pass built, a text or descriptor child either keeps
      the previous node's id or is a node created now, and then it is
      swapped in. */
  lemma FreshSwappedIn(parent: NodeId, c: Content, k: Host, next: nat)
    requires k.id < next && !c.ForeignContent?
    ensures var r := Children(parent, [c], [k], 0, next);
      |r.kids| == 1 && (r.kids[0].id == k.id || (r.kids[0].id == next && ReplaceChild(parent, 0, k.id, next) in r.log))
  {
    var o := Resolve(c, Some(k), next);
    ResolveIdentity(c, Some(k), next);
    assert [c][1..] == [];
    if o.node.id != k.id {
      OneReplaced(parent, c, k, next);
      assert Children(parent, [c], [k], 0, next).log[|o.log|] == ReplaceChild(parent, 0, k.id, next);
    } else {
      assert [k][0 := o.node] == [o.node];
    }
  }

  /** What one content child resolves to: a text child keeps a previous text
      leaf with the same text and otherwise creates a leaf with the next id;
      a descriptor is applied to the previous child; a foreign node is used
      as it is, with no write. */
  lemma ResolveCases(c: Content, prev: Option<Host>, next: nat)
    ensures c.TextContent? && prev.Some? && prev.value.Text? && prev.value.text == c.text ==>
      Resolve(c, prev, next) == Outcome(prev.value, next, [])
    ensures c.TextContent? && !(prev.Some? && prev.value.Text? && prev.value.text == c.text) ==>
      Resolve(c, prev, next) == Outcome(Text(next, c.text), next + 1, [CreateText(next, c.text)])
    ensures c.DescContent? ==> Resolve(c, prev, next) == Apply(c.desc, prev, next)
    ensures c.ForeignContent? ==> Resolve(c, prev, next) == Outcome(c.node, next, [])
  {
  }

  /** The previous child the loop diffs position `k` against: none past the
      end of the previous children. */
  function PrevAt(kids: seq<Host>, k: nat): Option<Host> {
    if k < |kids| then Some(kids[k]) else None
  }

  /** `node` is what content `c` resolves to against `prev` for some value,
      no smaller than `lo`, of the id counter. */
  ghost predicate Resolves(c: Content, prev: Option<Host>, node: Host, lo: nat) {
    exists m: nat :: lo <= m && node == Resolve(c, prev, m).node
  }

  /** Each child the loop leaves at position `k` is what the content for `k`
      resolves to against the previous child there. */
  lemma {:induction false} ChildrenAt(parent: NodeId, cs: seq<Content>, kids: seq<Host>, i: nat, next: nat)
    requires i <= |kids|
    ensures forall k :: i <= k < i + |cs| ==>
      Resolves(cs[k - i], PrevAt(kids, k), Children(parent, cs, kids, i, next).kids[k], next)
    decreases cs
  {
    if |cs| > 0 {
      var r := Children(parent, cs, kids, i, next);
      var o := Resolve(cs[0], PrevAt(kids, i), next);
      var kids' := if i < |kids| then kids[i := o.node] else kids + [o.node];
      var rest := Children(parent, cs[1..], kids', i + 1, o.next);
      assert r.kids == rest.kids;
      ChildrenAt(parent, cs[1..], kids', i + 1, o.next);
      assert rest.kids[i] == o.node by {
        assert rest.kids[..i + 1] == kids'[..i + 1];
        assert rest.kids[..i + 1][i] == rest.kids[i];
      }
      ChildrenAtStep(cs, kids, kids', i, next, o, rest.kids);
    }
  }

  lemma ChildrenAtStep(cs: seq<Content>, kids: seq<Host>, kids': seq<Host>, i: nat, next: nat, o: Outcome, after: seq<Host>)
    requires i <= |kids| && |cs| > 0
    requires o == Resolve(cs[0], PrevAt(kids, i), next) && next <= o.next
    requires kids' == (if i < |kids| then kids[i := o.node] else kids + [o.node])
    requires |after| >= i + |cs| && after[i] == o.node
    requires forall k :: i + 1 <= k < i + 1 + |cs[1..]| ==> Resolves(cs[1..][k - (i + 1)], PrevAt(kids', k), after[k], o.next)
    ensures forall k :: i <= k < i + |cs| ==> Resolves(cs[k - i], PrevAt(kids, k), after[k], next)
  {
    forall k | i <= k < i + |cs| ensures Resolves(cs[k - i], PrevAt(kids, k), after[k], next) {
      if k == i {
        assert after[k] == Resolve(cs[k - i], PrevAt(kids, k), next).node;
      } else {
        assert cs[1..][k - (i + 1)] == cs[k - i];
        assert PrevAt(kids', k) == PrevAt(kids, k);
        ResolvesLower(cs[k - i], PrevAt(kids, k), after[k], o.next, next);
      }
    }
  }

  /** The loop's own writes: a previous child whose result is another node is
      replaced in place, and each result past the end is appended. */
  lemma {:induction false} ChildrenLog(parent: NodeId, cs: seq<Content>, kids: seq<Host>, i: nat, next: nat)
    requires i <= |kids|
    ensures var r := Children(parent, cs, kids, i, next);
      forall k :: i <= k < i + |cs| && k < |kids| && r.kids[k].id != kids[k].id ==>
        ReplaceChild(parent, k, kids[k].id, r.kids[k].id) in r.log
    ensures var r := Children(parent, cs, kids, i, next);
      forall k :: |kids| <= k < i + |cs| ==> AppendChild(parent, r.kids[k].id) in r.log
    decreases cs
  {
    if |cs| > 0 {
      var r := Children(parent, cs, kids, i, next);
      var o := Resolve(cs[0], PrevAt(kids, i), next);
      var kids' := if i < |kids| then kids[i := o.node] else kids + [o.node];
      var own: seq<Mutation> := if i < |kids| then (if o.node.id != kids[i].id then [ReplaceChild(parent, i, kids[i].id, o.node.id)] else [])
                                else [AppendChild(parent, o.node.id)];
      var rest := Children(parent, cs[1..], kids', i + 1, o.next);
      assert r.kids == rest.kids && r.log == o.log + own + rest.log;
      ChildrenLog(parent, cs[1..], kids', i + 1, o.next);
      assert rest.kids[i] == o.node by {
        assert rest.kids[..i + 1] == kids'[..i + 1];
        assert rest.kids[..i + 1][i] == rest.kids[i];
      }
      assert |kids'| == (if i < |kids| then |kids| else i + 1);
      forall k | i < k < i + |cs| && k < |kids| ensures kids'[k] == kids[k] {
      }
    }
  }

  /** The previous child position `k` of a morph is diffed against: the
      reused node's child there, none when the node is new or has fewer
      children. */
  function PrevChild(prev: Option<Host>, name: string, k: nat): Option<Host> {
    if Reusable(prev, name) && k < |prev.value.children| then Some(prev.value.children[k]) else None
  }

  /** The node `morph` starts from, its children once the excess is trimmed,
      the counter the child loop starts with, and the writes before the
      child loop. */
  function MorphBase(d: Desc, prev: Option<Host>, next: nat): Host 
    requires d.Morph?
  {
    if Reusable(prev, d.name) then prev.value else FreshElement(next, d.name)
  }

  function MorphKept(d: Desc, prev: Option<Host>, next: nat): seq<Host> 
    requires d.Morph?
  {
    var base := MorphBase(d, prev, next);
    if |base.children| > |d.content| then base.children[..|d.content|] else base.children
  }

  function MorphStart(d: Desc, prev: Option<Host>, next: nat): nat 
    requires d.Morph?
  {
    if Reusable(prev, d.name) then next else next + 1
  }

  function MorphPre(d: Desc, prev: Option<Host>, next: nat): seq<Mutation>
    requires d.Morph?
  {
    var base := MorphBase(d, prev, next);
    (if Reusable(prev, d.name) then [] else [CreateElement(next, Upper(d.name))])
    + (AttrLog(base.id, base.attrs, d.attrs) + HandlerLog(base.id, base.handlers, d.handlers)
       + (if |base.children| > |d.content| then [RemoveLastChildren(base.id, |base.children| - |d.content|)] else []))
  }

  /** `morph` in its parts: the node keeps its base's id, its children are
      the child loop's over the trimmed children, and its log is the writes
      before the loop followed by the loop's. */
  lemma MorphUnfold(d: Desc, prev: Option<Host>, next: nat)
    requires d.Morph?
    ensures var kids := Children(MorphBase(d, prev, next).id, d.content, MorphKept(d, prev, next), 0, MorphStart(d, prev, next));
      Apply(d, prev, next).node.id == MorphBase(d, prev, next).id &&
      Apply(d, prev, next).node.children == kids.kids &&
      Apply(d, prev, next).next == kids.next
  {
    assert Apply(d, prev, next) == ApplyMorph(d, prev, next);
  }

  lemma MorphUnfoldLog(d: Desc, prev: Option<Host>, next: nat)
    requires d.Morph?
    ensures var kids := Children(MorphBase(d, prev, next).id, d.content, MorphKept(d, prev, next), 0, MorphStart(d, prev, next));
      Apply(d, prev, next).log == MorphPre(d, prev, next) + kids.log
  {
    assert Apply(d, prev, next) == ApplyMorph(d, prev, next);
    MorphLogSplit(d, prev, next, Reusable(prev, d.name));
  }

  lemma MorphLogSplit(d: Desc, prev: Option<Host>, next: nat, reuse: bool)
    requires d.Morph? && reuse == Reusable(prev, d.name)
    ensures var kids := Children(MorphBase(d, prev, next).id, d.content, MorphKept(d, prev, next), 0, MorphStart(d, prev, next));
      ApplyMorph(d, prev, next).log == MorphPre(d, prev, next) + kids.log
  {
    if reuse {
      assert MorphBase(d, prev, next) == prev.value;
    } else {
      assert MorphBase(d, prev, next) == FreshElement(next, d.name);
    }
  }

  lemma MorphPrev(d: Desc, prev: Option<Host>, next: nat)
    requires d.Morph?
    ensures forall k :: 0 <= k < |d.content| ==> PrevAt(MorphKept(d, prev, next), k) == PrevChild(prev, d.name, k)
  {
  }

  /** The children `morph` leaves, position by position: the child at `k` is
      what content child `k` resolves to against the previous node's child
      at `k`, if the node was reused and had one. */
  lemma MorphChildren(d: Desc, prev: Option<Host>, next: nat)
    requires d.Morph?
    ensures forall k :: 0 <= k < |d.content| ==>
      Resolves(d.content[k], PrevChild(prev, d.name, k), Apply(d, prev, next).node.children[k], next)
  {
    var o := Apply(d, prev, next);
    var kept := MorphKept(d, prev, next);
    var start := MorphStart(d, prev, next);
    var kids := Children(MorphBase(d, prev, next).id, d.content, kept, 0, start).kids;
    MorphUnfold(d, prev, next);
    MorphPrev(d, prev, next);
    ChildrenAt(MorphBase(d, prev, next).id, d.content, kept, 0, start);
    forall k | 0 <= k < |d.content| ensures Resolves(d.content[k], PrevChild(prev, d.name, k), o.node.children[k], next) {
      assert d.content[k - 0] == d.content[k];
      ResolvesLower(d.content[k], PrevChild(prev, d.name, k), kids[k], start, next);
    }
  }

  lemma ResolvesLower(c: Content, prev: Option<Host>, node: Host, lo: nat, lo': nat)
    requires lo' <= lo && Resolves(c, prev, node, lo)
    ensures Resolves(c, prev, node, lo')
  {
  }

  /** What `morph` itself writes: a new node is created first, and a reused
      node with too many children loses the excess from the end. */
  lemma MorphCreateTrim(d: Desc, prev: Option<Host>, next: nat)
    requires d.Morph?
    ensures !Reusable(prev, d.name) ==>
      |Apply(d, prev, next).log| > 0 && Apply(d, prev, next).log[0] == CreateElement(next, Upper(d.name))
    ensures Reusable(prev, d.name) && |prev.value.children| > |d.content| ==>
      RemoveLastChildren(prev.value.id, |prev.value.children| - |d.content|) in Apply(d, prev, next).log
  {
    MorphUnfoldLog(d, prev, next);
  }

  /** The child writes of `morph`: a previous child whose result is another
      node is replaced in place, and a result past the previous children is
      appended. */
  lemma MorphChildWrites(d: Desc, prev: Option<Host>, next: nat)
    requires d.Morph?
    ensures var o := Apply(d, prev, next);
      forall k :: 0 <= k < |d.content| && PrevChild(prev, d.name, k).Some? &&
                  o.node.children[k].id != PrevChild(prev, d.name, k).value.id
        ==> ReplaceChild(o.node.id, k, PrevChild(prev, d.name, k).value.id, o.node.children[k].id) in o.log
    ensures var o := Apply(d, prev, next);
      forall k :: 0 <= k < |d.content| && PrevChild(prev, d.name, k).None? ==> AppendChild(o.node.id, o.node.children[k].id) in o.log
  {
    MorphUnfold(d, prev, next);
    MorphUnfoldLog(d, prev, next);
    MorphPrev(d, prev, next);
    ChildrenLog(MorphBase(d, prev, next).id, d.content, MorphKept(d, prev, next), 0, MorphStart(d, prev, next));
  }

  /** Minimal mutation: re-applying a descriptor that differs from the first
      one only in its attributes writes exactly the attribute diff; no
      handler, child or subtree is touched and the node is kept. */
  lemma AttributeOnlyChange(d1: Desc, d2: Desc, m: nat, n: nat)
    requires d1.Morph? && d2.Morph?
    requires d1.name == d2.name && d1.handlers == d2.handlers && d1.content == d2.content
    ensures Apply(d2, Some(Apply(d1, None, m).node), n)
         == Outcome(Apply(d1, None, m).node.(attrs := Applied(d2.attrs)), n, AttrLog(m, Applied(d1.attrs), d2.attrs))
  {
    FirstNodeSettled(d1, m, n);
    SettledMorph(d2, Apply(d1, None, m).node, n);
  }

  /** The descriptors `c1` and `c2` differ at most in their attributes. */
  predicate AttrsOnly(c1: Desc, c2: Desc) {
    c1.Morph? && c2.Morph? && c1.name == c2.name && c1.handlers == c2.handlers && c1.content == c2.content
  }

  /** Minimal mutation one level down: when two descriptors differ only in
      the attributes of their descriptor child at `j`, re-applying the second
      to the first's node writes exactly that child's attribute diff; the
      parent, that child's identity and subtree, and every other child are
      left as they were. */
  /** `h` with its attributes set to `attrs`, if it is an element. */
  function WithAttrs(h: Host, attrs: map<string, string>): Host {
    if h.Element? then h.(attrs := attrs) else h
  }

  lemma NestedAttributeChange(d1: Desc, d2: Desc, j: nat, m: nat, n: nat)
    requires d1.Morph? && d2.Morph? && d1.name == d2.name && d1.attrs == d2.attrs && d1.handlers == d2.handlers
    requires |d1.content| == |d2.content| && j < |d1.content|
    requires forall k :: 0 <= k < |d1.content| && k != j ==> d1.content[k] == d2.content[k]
    requires d1.content[j].DescContent? && d2.content[j].DescContent? && AttrsOnly(d1.content[j].desc, d2.content[j].desc)
    ensures var first := Apply(d1, None, m).node;
      var child := first.children[j];
      Apply(d2, Some(first), n)
        == Outcome(first.(children := first.children[j := WithAttrs(child, Applied(d2.content[j].desc.attrs))]), n,
                   AttrLog(child.id, Applied(d1.content[j].desc.attrs), d2.content[j].desc.attrs))
  {
    var c1 := d1.content[j].desc;
    var c2 := d2.content[j].desc;
    var first := Apply(d1, None, m).node;
    var kids := first.children;
    FirstNodeSettled(d1, m, n);
    NestedChild(d1, c2, j, m, n);
    NestedOthers(d1, d2, j, m, n);
    ChildSwap(m, d2.content, kids, j, n, WithAttrs(kids[j], Applied(c2.attrs)), AttrLog(kids[j].id, Applied(c1.attrs), c2.attrs));
    ReusedParent(d2, first, n);
    AttrLogSettled(m, d1.attrs);
    HandlerLogSettled(m, d1.handlers);
  }

  /** The changed child: its node from the first pass takes the new
      attributes and writes only their diff. */
  lemma NestedChild(d1: Desc, c2: Desc, j: nat, m: nat, n: nat)
    requires d1.Morph? && j < |d1.content| && d1.content[j].DescContent? && AttrsOnly(d1.content[j].desc, c2)
    ensures var kid := Apply(d1, None, m).node.children[j];
      Resolve(DescContent(c2), Some(kid), n) == Outcome(WithAttrs(kid, Applied(c2.attrs)), n, AttrLog(kid.id, Applied(d1.content[j].desc.attrs), c2.attrs))
  {
    var c1 := d1.content[j].desc;
    var kid := Apply(d1, None, m).node.children[j];
    FirstKids(d1, m);
    EmptyPassResolves(m, d1.content, m + 1);
    var mj: nat :| kid == Resolve(d1.content[j], None, mj).node;
    ResolveCases(d1.content[j], None, mj);
    AttributeOnlyChange(c1, c2, mj, n);
    ResolveCases(DescContent(c2), Some(kid), n);
  }

  /** The unchanged children: each is settled against its content. */
  lemma NestedOthers(d1: Desc, d2: Desc, j: nat, m: nat, n: nat)
    requires d1.Morph? && d2.Morph? && |d1.content| == |d2.content|
    requires forall k :: 0 <= k < |d1.content| && k != j ==> d1.content[k] == d2.content[k]
    ensures var kids := Apply(d1, None, m).node.children;
      forall k :: 0 <= k < |kids| && k != j ==> Resolve(d2.content[k], Some(kids[k]), n) == Outcome(kids[k], n, [])
  {
    var kids := Apply(d1, None, m).node.children;
    FirstKids(d1, m);
    EmptyPassSettled(m, d1.content, m + 1);
    forall k | 0 <= k < |kids| && k != j ensures Resolve(d2.content[k], Some(kids[k]), n) == Outcome(kids[k], n, []) {
      assert Settled(d1.content[k], kids[k]);
    }
  }

  /** The children of a node built from nothing are the child loop's over
      no previous children, with the counter just past the node's id. */
  lemma FirstKids(d: Desc, m: nat)
    requires d.Morph?
    ensures Apply(d, None, m).node.children == Children(m, d.content, [], 0, m + 1).kids
  {
    MorphUnfold(d, None, m);
    assert MorphBase(d, None, m) == FreshElement(m, d.name);
    assert MorphKept(d, None, m) == [] && MorphStart(d, None, m) == m + 1;
  }

  /** A loop over no previous children leaves one child per content child,
      each settled against its content and each what its content resolves
      to from nothing. */
  lemma EmptyPassSettled(parent: NodeId, cs: seq<Content>, m: nat)
    ensures |Children(parent, cs, [], 0, m).kids| == |cs|
    ensures forall k :: 0 <= k < |cs| ==> Settled(cs[k], Children(parent, cs, [], 0, m).kids[k])
  {
    var none: seq<Host> := [];
    var kids := Children(parent, cs, none, 0, m).kids;
    FirstPassChildren(parent, cs, none, m);
    forall k | 0 <= k < |cs| ensures Settled(cs[k], kids[k]) {
      assert |none| + k == k;
    }
  }

  lemma EmptyPassResolves(parent: NodeId, cs: seq<Content>, m: nat)
    ensures |Children(parent, cs, [], 0, m).kids| == |cs|
    ensures forall k :: 0 <= k < |cs| ==> Resolves(cs[k], None, Children(parent, cs, [], 0, m).kids[k], m)
  {
    ChildrenAt(parent, cs, [], 0, m);
    forall k | 0 <= k < |cs| ensures Resolves(cs[k], None, Children(parent, cs, [], 0, m).kids[k], m) {
      assert k - 0 == k;
      assert PrevAt([], k) == None;
    }
  }

  /** A child loop over settled children except at `j`, where the result
      keeps the previous child's id, changes only that child and writes only
      its own log. */
  lemma ChildSwap(parent: NodeId, cs: seq<Content>, kids: seq<Host>, j: nat, n: nat, child: Host, log: seq<Mutation>)
    requires |kids| == |cs| && j < |cs|
    requires forall k :: 0 <= k < |kids| && k != j ==> Resolve(cs[k], Some(kids[k]), n) == Outcome(kids[k], n, [])
    requires Resolve(cs[j], Some(kids[j]), n) == Outcome(child, n, log) && child.id == kids[j].id
    ensures Children(parent, cs, kids, 0, n) == KidsOutcome(kids[j := child], n, log)
  {
    SettledFirst(parent, cs, kids, j, n);
    SwapFrom(parent, cs, kids, j, n, child, log);
  }

  lemma SettledFirst(parent: NodeId, cs: seq<Content>, kids: seq<Host>, j: nat, n: nat)
    requires j <= |kids| && j <= |cs|
    requires forall t :: 0 <= t < j ==> Resolve(cs[t], Some(kids[t]), n) == Outcome(kids[t], n, [])
    ensures Children(parent, cs, kids, 0, n) == Children(parent, cs[j..], kids, j, n)
  {
    SettledRun(parent, cs, kids, 0, j, n);
  }

  lemma SwapFrom(parent: NodeId, cs: seq<Content>, kids: seq<Host>, j: nat, n: nat, child: Host, log: seq<Mutation>)
    requires |kids| == |cs| && j < |cs|
    requires forall k :: 0 <= k < |kids| && k != j ==> Resolve(cs[k], Some(kids[k]), n) == Outcome(kids[k], n, [])
    requires Resolve(cs[j], Some(kids[j]), n) == Outcome(child, n, log) && child.id == kids[j].id
    ensures Children(parent, cs[j..], kids, j, n) == KidsOutcome(kids[j := child], n, log)
  {
    SettledAfter(parent, cs, kids, j, n, cs[j + 1..], kids[j := child]);
    SwapStep(parent, cs, kids, j, n, child, log);
  }

  /** The children after `j`, all settled, are left as they are. */
  lemma SettledAfter(parent: NodeId, cs: seq<Content>, kids: seq<Host>, j: nat, n: nat, after: seq<Content>, kids': seq<Host>)
    requires |kids| == |cs| && j < |cs| && after == cs[j + 1..] && |kids'| == |kids|
    requires forall k :: 0 <= k < |kids| && k != j ==> Resolve(cs[k], Some(kids[k]), n) == Outcome(kids[k], n, [])
    requires forall k :: 0 <= k < |kids| && k != j ==> kids'[k] == kids[k]
    ensures Children(parent, after, kids', j + 1, n) == KidsOutcome(kids', n, [])
  {
    SettledAfterEach(cs, kids, j, n, after, kids');
    SettledTail(parent, after, kids', j + 1, n);
  }

  lemma SettledAfterEach(cs: seq<Content>, kids: seq<Host>, j: nat, n: nat, after: seq<Content>, kids': seq<Host>)
    requires |kids| == |cs| && j < |cs| && after == cs[j + 1..] && |kids'| == |kids|
    requires forall k :: 0 <= k < |kids| && k != j ==> Resolve(cs[k], Some(kids[k]), n) == Outcome(kids[k], n, [])
    requires forall k :: 0 <= k < |kids| && k != j ==> kids'[k] == kids[k]
    ensures forall t :: 0 <= t < |after| ==> Resolve(after[t], Some(kids'[j + 1 + t]), n) == Outcome(kids'[j + 1 + t], n, [])
  {
    forall t | 0 <= t < |after| ensures Resolve(after[t], Some(kids'[j + 1 + t]), n) == Outcome(kids'[j + 1 + t], n, []) {
      assert after[t] == cs[j + 1 + t];
      assert kids'[j + 1 + t] == kids[j + 1 + t];
    }
  }

  /** A child whose result keeps the previous child's id is not replaced:
      the loop writes only that result's log and goes on with it in place. */
  lemma SwapStep(parent: NodeId, cs: seq<Content>, kids: seq<Host>, j: nat, n: nat, child: Host, log: seq<Mutation>)
    requires j < |kids| && j < |cs|
    requires Resolve(cs[j], Some(kids[j]), n) == Outcome(child, n, log) && child.id == kids[j].id
    requires Children(parent, cs[j + 1..], kids[j := child], j + 1, n) == KidsOutcome(kids[j := child], n, [])
    ensures Children(parent, cs[j..], kids, j, n) == KidsOutcome(kids[j := child], n, log)
  {
    var tail := cs[j..];
    assert tail[0] == cs[j] && tail[1..] == cs[j + 1..];
    assert log + [] == log;
  }

  /** A loop over children all settled against their content returns them
      as they are, with the same counter and no writes. */
  lemma SettledTail(parent: NodeId, cs: seq<Content>, kids: seq<Host>, i: nat, n: nat)
    requires |kids| == i + |cs|
    requires forall t :: 0 <= t < |cs| ==> Resolve(cs[t], Some(kids[i + t]), n) == Outcome(kids[i + t], n, [])
    ensures Children(parent, cs, kids, i, n) == KidsOutcome(kids, n, [])
  {
    SettledRun(parent, cs, kids, i, |cs|, n);
    assert cs[|cs|..] == [];
  }

  /** `j` settled positions from `i` on cost nothing: the loop goes on from
      `i + j` with the same children, counter and no writes. */
  lemma {:induction false} SettledRun(parent: NodeId, cs: seq<Content>, kids: seq<Host>, i: nat, j: nat, n: nat)
    requires i + j <= |kids| && j <= |cs|
    requires forall t :: 0 <= t < j ==> Resolve(cs[t], Some(kids[i + t]), n) == Outcome(kids[i + t], n, [])
    ensures Children(parent, cs, kids, i, n) == Children(parent, cs[j..], kids, i + j, n)
    decreases j
  {
    if j > 0 {
      SettledRun(parent, cs, kids, i, j - 1, n);
      SettledRunStep(parent, cs, kids, i, j, n);
    } else {
      assert cs[0..] == cs;
    }
  }

  /** The last step of a settled run: position `i + j - 1` is skipped. */
  lemma SettledRunStep(parent: NodeId, cs: seq<Content>, kids: seq<Host>, i: nat, j: nat, n: nat)
    requires 0 < j && i + j <= |kids| && j <= |cs|
    requires Resolve(cs[j - 1], Some(kids[i + (j - 1)]), n) == Outcome(kids[i + (j - 1)], n, [])
    ensures Children(parent, cs[j - 1..], kids, i + (j - 1), n) == Children(parent, cs[j..], kids, i + j, n)
  {
    var k: nat := i + (j - 1);
    var tail := cs[j - 1..];
    assert Resolve(tail[0], Some(kids[k]), n) == Outcome(kids[k], n, []);
    SettledStep(parent, tail, kids, k, n);
    assert tail[1..] == cs[j..] && k + 1 == i + j;
  }

  /** Re-applying a descriptor to a reusable node: the node keeps its id,
      key and tag, takes the descriptor's attributes and handlers and the
      child loop's children, and logs the attribute and handler diffs before
      the loop's writes. */
  lemma ReusedParent(d: Desc, node: Host, n: nat)
    requires d.Morph? && Reusable(Some(node), d.name) && |node.children| <= |d.content|
    ensures var kids := Children(node.id, d.content, node.children, 0, n);
      Apply(d, Some(node), n) == Outcome(node.(attrs := Applied(d.attrs), handlers := d.handlers, children := kids.kids), kids.next,
        AttrLog(node.id, node.attrs, d.attrs) + HandlerLog(node.id, node.handlers, d.handlers) + kids.log)
  {
    ReusedNode(d, node, n);
    ReusedLog(d, node, n);
  }

  lemma ReusedNode(d: Desc, node: Host, n: nat)
    requires d.Morph? && Reusable(Some(node), d.name) && |node.children| <= |d.content|
    ensures var kids := Children(node.id, d.content, node.children, 0, n);
      Apply(d, Some(node), n).node == node.(attrs := Applied(d.attrs), handlers := d.handlers, children := kids.kids) &&
      Apply(d, Some(node), n).next == kids.next
  {
    MorphUnfold(d, Some(node), n);
    assert MorphBase(d, Some(node), n) == node && MorphKept(d, Some(node), n) == node.children;
  }

  lemma ReusedLog(d: Desc, node: Host, n: nat)
    requires d.Morph? && Reusable(Some(node), d.name) && |node.children| <= |d.content|
    ensures var kids := Children(node.id, d.content, node.children, 0, n);
      Apply(d, Some(node), n).log == AttrLog(node.id, node.attrs, d.attrs) + HandlerLog(node.id, node.handlers, d.handlers) + kids.log
  {
    MorphUnfoldLog(d, Some(node), n);
    MorphPreReused(d, node, n);
  }

  lemma MorphPreReused(d: Desc, node: Host, n: nat)
    requires d.Morph? && Reusable(Some(node), d.name) && |node.children| <= |d.content|
    ensures MorphBase(d, Some(node), n) == node && MorphKept(d, Some(node), n) == node.children && MorphStart(d, Some(node), n) == n
    ensures MorphPre(d, Some(node), n) == AttrLog(node.id, node.attrs, d.attrs) + HandlerLog(node.id, node.handlers, d.handlers)
  {
    var pre := AttrLog(node.id, node.attrs, d.attrs) + HandlerLog(node.id, node.handlers, d.handlers);
    assert MorphPre(d, Some(node), n) == [] + (pre + []);
    assert [] + (pre + []) == pre;
  }

  /** Changing one attribute to a new non-empty value writes that attribute
      and nothing else. */
  lemma OneAttributeWrite(d: Desc, k: string, v: string, m: nat, n: nat)
    requires d.Morph? && v != "" && (k !in d.attrs || d.attrs[k] != v)
    ensures Apply(d.(attrs := d.attrs[k := v]), Some(Apply(d, None, m).node), n).log == [SetAttributes(m, map[k := v])]
  {
    AttributeOnlyChange(d, d.(attrs := d.attrs[k := v]), m, n);
    OneKeyDiff(m, d.attrs, k, v);
  }

  /** The attribute diff of a one-key change is that one write. */
  lemma OneKeyDiff(id: NodeId, attrs: map<string, string>, k: string, v: string)
    requires v != "" && (k !in attrs || attrs[k] != v)
    ensures AttrLog(id, Applied(attrs), attrs[k := v]) == [SetAttributes(id, map[k := v])]
  {
    var attrs' := attrs[k := v];
    var cur := Applied(attrs);
    assert Removed(cur, attrs') == {} by {
      forall x | x in cur ensures x in attrs' && attrs'[x] != "" {
        assert x in attrs && attrs[x] != "";
      }
    }
    var w := Written(cur, attrs');
    assert w.Keys == {k} by {
      forall x | x in w ensures x == k {
      }
      assert k in attrs' && attrs'[k] == v;
      assert k in w;
    }
    assert w == map[k := v];
  }

  /** The keyed-thunk skip: a thunk applied to its own output does not run
      `create` again and returns the identical node, subtree included. */
  lemma ThunkSecondApplication(key: Option<string>, create: Desc, prev: Option<Host>, m: nat, n: nat)
    ensures Apply(Thunk(key, create), Some(Apply(Thunk(key, create), prev, m).node), n)
         == Outcome(Apply(Thunk(key, create), prev, m).node, n, [])
  {
  }

  /** A thunk whose key does not match runs `create`'s descriptor against the
      previous node, records the key on the result, and logs that record
      after the descriptor's own writes. */
  lemma ThunkMiss(key: Option<string>, create: Desc, prev: Option<Host>, n: nat)
    requires !ThunkHit(prev, key)
    ensures var o := Apply(create, prev, n);
      Apply(Thunk(key, create), prev, n) == Outcome(o.node.(key := key), o.next, o.log + [RecordKey(o.node.id, key)])
  {
  }

  /** A thunk whose key serialises to `undefined` skips on every element no
      thunk has keyed, such as any node `morph` built: the loose comparison
      finds `undefined` equal to `undefined`. */
  lemma ThunkUndefinedKey(create: Desc, d: Desc, m: nat, n: nat)
    requires d.Morph?
    ensures var node := Apply(d, None, m).node;
      Apply(Thunk(None, create), Some(node), n) == Outcome(node, n, [])
  {
  }

  /** A thunk that misses runs `create`'s descriptor against the previous
      node and records its key on the result; one whose key changed always
      misses on the node a different key produced. */
  lemma ThunkKeyChange(k1: Option<string>, k2: Option<string>, c1: Desc, c2: Desc, prev: Option<Host>, m: nat, n: nat)
    requires k1 != k2
    ensures var first := Apply(Thunk(k1, c1), prev, m).node;
      Apply(Thunk(k2, c2), Some(first), n).node == Apply(c2, Some(first), n).node.(key := k2)
  {
  }

  /** What `Tag` followed by `morph` leaves on the node, in terms of the
      arguments: each attribute holds its contributions joined by spaces and
      is absent exactly when that join is empty; firing an event runs its
      handler contributions in registration order; the node has one child
      per content argument. */
  lemma TaggedNode(name: string, cs: seq<Child>, prev: Option<Host>, n: nat)
    requires Tag(name, cs).Ok?
    ensures forall k :: k in Apply(Tag(name, cs).value, prev, n).node.attrs <==> JoinSpace(AttrValues(cs, k)) != ""
    ensures forall k :: k in Apply(Tag(name, cs).value, prev, n).node.attrs ==>
              Apply(Tag(name, cs).value, prev, n).node.attrs[k] == JoinSpace(AttrValues(cs, k))
    ensures forall t :: Fire(Apply(Tag(name, cs).value, prev, n).node, t) == HandlerList(cs, t)
    ensures |Apply(Tag(name, cs).value, prev, n).node.children| == |ContentOf(cs)|
  {
    TagMeaning(name, cs);
  }

  /** Handler accumulation law: two `click` contributions both fire, in
      registration order, on one event. */
  lemma HandlerAccumulationLaw(name: string, f: Callback, g: Callback, prev: Option<Host>, n: nat)
    ensures Tag(name, [Handler("click", f), Handler("click", g)]).Ok?
    ensures Fire(Apply(Tag(name, [Handler("click", f), Handler("click", g)]).value, prev, n).node, "click") == [f, g]
  {
    var cs := [Handler("click", f), Handler("click", g)];
    assert Init(cs) == [Handler("click", f)];
    assert Last(cs) == Handler("click", g);
    assert Init(Init(cs)) == [];
    assert Last(Init(cs)) == Handler("click", f);
    assert HandlerList(Init(Init(cs)), "click") == [];
    assert HandlerList(Init(cs), "click") == [f];
    assert HandlerList(cs, "click") == [f] + [g];
    assert FirstError(Init(Init(cs))) == None;
    assert FirstError(Init(cs)) == None;
    assert FirstError(cs) == None;
    TagMeaning(name, cs);
    TaggedNode(name, cs, prev, n);
  }

  /** The first two descriptors of domdiff.js's `test_morphdom`:
      `tag('div', cls`boo`, tag('pre', id`heh`, 'hello'))` and
      `tag('div', style`background: black`, 'hello')`. */
  const HelloPre: Desc := Morph("pre", map["id" := "heh"], map[], [TextContent("hello")])
  const FirstTest: Desc := Morph("div", map["class" := "boo"], map[], [DescContent(HelloPre)])
  const SecondTest: Desc := Morph("div", map["style" := "background: black"], map[], [TextContent("hello")])

  /** The painted `pre` of the first test. */
  function PaintedPre(m: nat): Host {
    Element(m, "PRE", map["id" := "heh"], map[], [Text(m + 1, "hello")], None, false)
  }

  /** The tree the first test paints from nothing. */
  function FirstPainted(n: nat): Host {
    Element(n, "DIV", map["class" := "boo"], map[], [PaintedPre(n + 1)], None, false)
  }

  /** `morph` with no previous node: a new element with the next id, the
      applied attributes and the descriptor's handlers, whose writes are its
      creation, its attribute and handler passes and the child loop's. */
  lemma FreshParent(d: Desc, m: nat)
    requires d.Morph?
    ensures var kids := Children(m, d.content, [], 0, m + 1);
      Apply(d, None, m) == Outcome(Element(m, Upper(d.name), Applied(d.attrs), d.handlers, kids.kids, None, false), kids.next,
        [CreateElement(m, Upper(d.name))] + AttrLog(m, map[], d.attrs) + HandlerLog(m, map[], d.handlers) + kids.log)
  {
    MorphUnfold(d, None, m);
    MorphUnfoldLog(d, None, m);
    assert MorphBase(d, None, m) == FreshElement(m, d.name);
    assert MorphKept(d, None, m) == [] && MorphStart(d, None, m) == m + 1;
  }

  /** `FreshParent` with its pieces already known. */
  lemma FreshAssembled(d: Desc, m: nat, kids: KidsOutcome, header: seq<Mutation>, node: Host)
    requires d.Morph? && Children(m, d.content, [], 0, m + 1) == kids
    requires [CreateElement(m, Upper(d.name))] + AttrLog(m, map[], d.attrs) + HandlerLog(m, map[], d.handlers) == header
    requires node == Element(m, Upper(d.name), Applied(d.attrs), d.handlers, kids.kids, None, false)
    ensures Apply(d, None, m) == Outcome(node, kids.next, header + kids.log)
  {
    FreshParent(d, m);
  }

  /** `ReusedParent` with its pieces already known. */
  lemma ReusedAssembled(d: Desc, prev: Host, n: nat, kids: KidsOutcome, quiet: seq<Mutation>, node: Host)
    requires d.Morph? && Reusable(Some(prev), d.name) && |prev.children| <= |d.content|
    requires Children(prev.id, d.content, prev.children, 0, n) == kids
    requires AttrLog(prev.id, prev.attrs, d.attrs) + HandlerLog(prev.id, prev.handlers, d.handlers) == quiet
    requires node == prev.(attrs := Applied(d.attrs), handlers := d.handlers, children := kids.kids)
    ensures Apply(d, Some(prev), n) == Outcome(node, kids.next, quiet + kids.log)
  {
    ReusedParent(d, prev, n);
  }

  /** One content item over no previous children: resolved and appended. */
  lemma OneAppended(parent: NodeId, c: Content, next: nat)
    ensures var o := Resolve(c, None, next);
      Children(parent, [c], [], 0, next) == KidsOutcome([o.node], o.next, o.log + [AppendChild(parent, o.node.id)])
  {
    assert [c][1..] == [];
  }

  /** One content item over one previous child it does not keep: resolved
      and swapped in. */
  lemma OneReplaced(parent: NodeId, c: Content, k: Host, next: nat)
    requires Resolve(c, Some(k), next).node.id != k.id
    ensures var o := Resolve(c, Some(k), next);
      Children(parent, [c], [k], 0, next) == KidsOutcome([o.node], o.next, o.log + [ReplaceChild(parent, 0, k.id, o.node.id)])
  {
    assert [c][1..] == [];
    assert [k][0 := Resolve(c, Some(k), next).node] == [Resolve(c, Some(k), next).node];
  }

  /** A single non-empty attribute on a node without attributes is one write. */
  lemma FreshAttr(id: NodeId, k: string, v: string)
    requires v != ""
    ensures Applied(map[k := v]) == map[k := v]
    ensures AttrLog(id, map[], map[k := v]) == [SetAttributes(id, map[k := v])]
  {
    assert Applied(map[]) == map[];
    assert map[][k := v] == map[k := v];
    OneKeyDiff(id, map[], k, v);
  }

  /** The writes that build the first test's `pre` at id `m`. */
  function PreLog(m: nat): seq<Mutation> {
    [CreateElement(m, "PRE"), SetAttributes(m, map["id" := "heh"]), CreateText(m + 1, "hello"), AppendChild(m, m + 1)]
  }

  /** The creation and attribute writes of a fresh element with one
      non-empty attribute and no handlers. */
  lemma FreshHeader(m: nat, name: string, k: string, v: string)
    requires v != ""
    ensures Applied(map[k := v]) == map[k := v]
    ensures [CreateElement(m, Upper(name))] + AttrLog(m, map[], map[k := v]) + HandlerLog(m, map[], map[])
      == [CreateElement(m, Upper(name)), SetAttributes(m, map[k := v])]
  {
    FreshAttr(m, k, v);
    assert HandlerLog(m, map[], map[]) == [];
  }

  lemma PreKids(m: nat)
    ensures Children(m, [TextContent("hello")], [], 0, m + 1) == KidsOutcome([Text(m + 1, "hello")], m + 2, [CreateText(m + 1, "hello"), AppendChild(m, m + 1)])
  {
    OneAppended(m, TextContent("hello"), m + 1);
    ResolveCases(TextContent("hello"), None, m + 1);
  }

  /** A fresh `pre` with its text child, and the writes that build it. */
  lemma PrePaint(m: nat)
    ensures Apply(HelloPre, None, m) == Outcome(PaintedPre(m), m + 2, PreLog(m))
  {
    PreKids(m);
    FreshHeader(m, "pre", "id", "heh");
    assert Upper("pre") == "PRE";
    FreshAssembled(HelloPre, m, KidsOutcome([Text(m + 1, "hello")], m + 2, [CreateText(m + 1, "hello"), AppendChild(m, m + 1)]),
      [CreateElement(m, "PRE"), SetAttributes(m, map["id" := "heh"])], PaintedPre(m));
  }

  lemma DivKids(n: nat)
    ensures Children(n, [DescContent(HelloPre)], [], 0, n + 1) == KidsOutcome([PaintedPre(n + 1)], n + 3, PreLog(n + 1) + [AppendChild(n, n + 1)])
  {
    OneAppended(n, DescContent(HelloPre), n + 1);
    ResolveCases(DescContent(HelloPre), None, n + 1);
    PrePaint(n + 1);
  }

  /** What the first test's outer `morph` sees from nothing. */
  lemma DivPieces(n: nat)
    ensures Children(n, FirstTest.content, [], 0, n + 1) == KidsOutcome([PaintedPre(n + 1)], n + 3, PreLog(n + 1) + [AppendChild(n, n + 1)])
    ensures [CreateElement(n, Upper(FirstTest.name))] + AttrLog(n, map[], FirstTest.attrs) + HandlerLog(n, map[], FirstTest.handlers)
      == [CreateElement(n, "DIV"), SetAttributes(n, map["class" := "boo"])]
    ensures Element(n, Upper(FirstTest.name), Applied(FirstTest.attrs), FirstTest.handlers, [PaintedPre(n + 1)], None, false) == FirstPainted(n)
  {
    assert FirstTest.name == "div" && FirstTest.attrs == map["class" := "boo"] && FirstTest.handlers == map[];
    assert Upper("div") == "DIV";
    DivKids(n);
    FreshHeader(n, "div", "class", "boo");
  }

  /** Initial paint, the first test case from nothing: a new `DIV` with class
      `boo` holding a new `PRE` with id `heh` around the text `hello`; every
      node is created, given its attributes and then appended, inner first. */
  lemma InitialPaint(n: nat)
    ensures Apply(FirstTest, None, n)
      == Outcome(FirstPainted(n), n + 3,
           [CreateElement(n, "DIV"), SetAttributes(n, map["class" := "boo"])] + PreLog(n + 1) + [AppendChild(n, n + 1)])
    ensures PreLog(n + 1)
      == [CreateElement(n + 1, "PRE"), SetAttributes(n + 1, map["id" := "heh"]), CreateText(n + 2, "hello"), AppendChild(n + 1, n + 2)]
  {
    DivPieces(n);
    FreshAssembled(FirstTest, n, KidsOutcome([PaintedPre(n + 1)], n + 3, PreLog(n + 1) + [AppendChild(n, n + 1)]),
      [CreateElement(n, "DIV"), SetAttributes(n, map["class" := "boo"])], FirstPainted(n));
  }

  lemma SecondHeader(n: nat)
    ensures Applied(map["style" := "background: black"]) == map["style" := "background: black"]
    ensures AttrLog(n, map["class" := "boo"], map["style" := "background: black"]) + HandlerLog(n, map[], map[])
      == [RemoveAttributes(n, {"class"}), SetAttributes(n, map["style" := "background: black"])]
  {
    FreshAttr(n, "style", "background: black");
    assert Removed(map["class" := "boo"], map["style" := "background: black"]) == {"class"};
    assert Written(map["class" := "boo"], map["style" := "background: black"]) == map["style" := "background: black"];
    assert HandlerLog(n, map[], map[]) == [];
  }

  lemma SecondKids(n: nat)
    ensures Children(n, [TextContent("hello")], [PaintedPre(n + 1)], 0, n + 3)
      == KidsOutcome([Text(n + 3, "hello")], n + 4, [CreateText(n + 3, "hello"), ReplaceChild(n, 0, n + 1, n + 3)])
  {
    ResolveCases(TextContent("hello"), Some(PaintedPre(n + 1)), n + 3);
    OneReplaced(n, TextContent("hello"), PaintedPre(n + 1), n + 3);
  }

  function SecondKidsOutcome(n: nat): KidsOutcome {
    KidsOutcome([Text(n + 3, "hello")], n + 4, [CreateText(n + 3, "hello"), ReplaceChild(n, 0, n + 1, n + 3)])
  }

  function SecondQuiet(n: nat): seq<Mutation> {
    [RemoveAttributes(n, {"class"}), SetAttributes(n, map["style" := "background: black"])]
  }

  /** What the second test's `morph` sees over the first one's tree. */
  lemma SecondPieces(n: nat)
    ensures Reusable(Some(FirstPainted(n)), SecondTest.name) && |FirstPainted(n).children| <= |SecondTest.content|
    ensures Children(n, SecondTest.content, FirstPainted(n).children, 0, n + 3) == SecondKidsOutcome(n)
    ensures AttrLog(n, map["class" := "boo"], SecondTest.attrs) + HandlerLog(n, map[], SecondTest.handlers) == SecondQuiet(n)
    ensures Applied(SecondTest.attrs) == map["style" := "background: black"]
  {
    assert Upper("div") == "DIV";
    SecondKids(n);
    SecondHeader(n);
  }

  /** The second test case over the first one's tree: the `DIV` is reused,
      `class` is removed and `style` written, and the `PRE` is replaced by a
      new text node, since a string never reuses an element. */
  lemma SecondPaint(n: nat)
    ensures Apply(SecondTest, Some(FirstPainted(n)), n + 3)
      == Outcome(Element(n, "DIV", map["style" := "background: black"], map[], [Text(n + 3, "hello")], None, false), n + 4,
           [RemoveAttributes(n, {"class"}), SetAttributes(n, map["style" := "background: black"]),
            CreateText(n + 3, "hello"), ReplaceChild(n, 0, n + 1, n + 3)])
  {
    SecondPieces(n);
    ReusedAssembled(SecondTest, FirstPainted(n), n + 3, SecondKidsOutcome(n), SecondQuiet(n),
      Element(n, "DIV", map["style" := "background: black"], map[], [Text(n + 3, "hello")], None, false));
  }

  // ---------------------------------------------------------------------------
  // What the attribute and handler passes write, read off the log

  /** The attribute values a log writes. */
  function LogWrites(log: seq<Mutation>): map<string, string>
    decreases |log|
  {
    if |log| == 0 then map[]
    else (if log[0].SetAttributes? then log[0].writes else map[]) + LogWrites(log[1..])
  }

  /** The attributes a log removes. */
  function LogRemovals(log: seq<Mutation>): set<string>
    decreases |log|
  {
    if |log| == 0 then {}
    else (if log[0].RemoveAttributes? then log[0].names else {}) + LogRemovals(log[1..])
  }

  /** The event types a log installs a dispatcher for. */
  function LogInstalls(log: seq<Mutation>): set<string>
    decreases |log|
  {
    if |log| == 0 then {}
    else (if log[0].InstallDispatchers? then log[0].types else {}) + LogInstalls(log[1..])
  }

  /** The event types a log uninstalls the dispatcher of. */
  function LogUninstalls(log: seq<Mutation>): set<string>
    decreases |log|
  {
    if |log| == 0 then {}
    else (if log[0].UninstallDispatchers? then log[0].types else {}) + LogUninstalls(log[1..])
  }

  /** Minimal attribute writes: the attribute pass writes exactly the
      attributes whose next value is non-empty and differs from the current
      one (a missing attribute reads as ""), with that value, and removes
      exactly the current attributes whose next value is empty or missing. */
  lemma AttrLogMinimal(id: NodeId, current: map<string, string>, attrs: map<string, string>)
    ensures forall k :: k in LogWrites(AttrLog(id, current, attrs)) <==>
      k in attrs && attrs[k] != "" && (k !in current || current[k] != attrs[k])
    ensures forall k :: k in LogWrites(AttrLog(id, current, attrs)) ==> LogWrites(AttrLog(id, current, attrs))[k] == attrs[k]
    ensures forall k :: k in LogRemovals(AttrLog(id, current, attrs)) <==> k in current && (k !in attrs || attrs[k] == "")
  {
    var r := Removed(current, attrs);
    var w := Written(current, attrs);
    var a: seq<Mutation> := if r == {} then [] else [RemoveAttributes(id, r)];
    var b: seq<Mutation> := if w == map[] then [] else [SetAttributes(id, w)];
    assert AttrLog(id, current, attrs) == a + b;
    PairLog(a, b);
    assert LogWrites(a) == map[] && LogRemovals(b) == {} by {
      if r != {} { assert a[1..] == []; }
      if w != map[] { assert b[1..] == []; }
    }
    assert LogWrites(b) == w && LogRemovals(a) == r by {
      if r != {} { assert a[1..] == []; }
      if w != map[] { assert b[1..] == []; }
    }
  }

  /** Dispatchers change only at the edges: the handler pass installs one
      exactly for the event types that had no stored list, and uninstalls
      exactly the stored types the descriptor no longer has. */
  lemma HandlerLogMinimal(id: NodeId, current: map<string, seq<Callback>>, handlers: map<string, seq<Callback>>)
    ensures forall t :: t in LogInstalls(HandlerLog(id, current, handlers)) <==> t in handlers && t !in current
    ensures forall t :: t in LogUninstalls(HandlerLog(id, current, handlers)) <==> t in current && t !in handlers
  {
    var u := current.Keys - handlers.Keys;
    var i := handlers.Keys - current.Keys;
    var a: seq<Mutation> := if u == {} then [] else [UninstallDispatchers(id, u)];
    var b: seq<Mutation> := if i == {} then [] else [InstallDispatchers(id, i)];
    assert HandlerLog(id, current, handlers) == a + b;
    PairLog(a, b);
    assert LogInstalls(a) == {} && LogUninstalls(b) == {} && LogInstalls(b) == i && LogUninstalls(a) == u by {
      if u != {} { assert a[1..] == []; }
      if i != {} { assert b[1..] == []; }
    }
  }

  /** The readings of a log of at most two entries. */
  lemma PairLog(a: seq<Mutation>, b: seq<Mutation>)
    requires |a| <= 1 && |b| <= 1
    ensures LogWrites(a + b) == LogWrites(a) + LogWrites(b)
    ensures LogRemovals(a + b) == LogRemovals(a) + LogRemovals(b)
    ensures LogInstalls(a + b) == LogInstalls(a) + LogInstalls(b)
    ensures LogUninstalls(a + b) == LogUninstalls(a) + LogUninstalls(b)
  {
    if |a| == 0 {
      assert a + b == b;
    } else {
      assert (a + b)[1..] == b;
      assert a[1..] == [];
    }
  }
}
