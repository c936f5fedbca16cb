/** The body of a domdiff.js descriptor (`morph`) and of a keyed `Thunk`, as a
    pure function from the previous node to the reconciled one. Fresh nodes
    take their ids from a counter `next`; the result carries the counter's
    new value and the log of writes to the live tree. */
module Reconcile {
  import opened Prelude
  import opened Host
  import opened Descriptor

  datatype Outcome = Outcome(node: Host, next: nat, log: seq<Mutation>)

  datatype KidsOutcome = KidsOutcome(kids: seq<Host>, next: nat, log: seq<Mutation>)

  /** The node-reuse rule: an element of the same upper-cased tag that is not
      foreign. */
  predicate Reusable(prev: Option<Host>, name: string) {
    prev.Some? && prev.value.Element? && prev.value.tag == Upper(name) && !prev.value.foreign
  }

  /** A keyed thunk skips when the previous node is an element whose recorded
      key is loosely equal to the serialised one: the same string, or both
      `undefined` (a node no thunk has keyed, and the key `undefined`). */
  predicate ThunkHit(prev: Option<Host>, key: Option<string>) {
    prev.Some? && prev.value.Element? && prev.value.key == key
  }

  /** The attributes a node ends up with: an empty value counts as absent. */
  function Applied(attrs: map<string, string>): (m: map<string, string>)
    ensures forall k :: k in m <==> k in attrs && attrs[k] != ""
    ensures forall k :: k in m ==> m[k] == attrs[k]
  {
    map k | k in attrs && attrs[k] != "" :: attrs[k]
  }

  /** Attributes removed: present on the node, falsy in the descriptor. */
  function Removed(current: map<string, string>, attrs: map<string, string>): set<string>
  {
    set k | k in current && (k !in attrs || attrs[k] == "")
  }

  /** Attributes written: non-empty in the descriptor and different from the
      node's current value (a missing attribute reads as ""). */
  function Written(current: map<string, string>, attrs: map<string, string>): map<string, string>
  {
    map k | k in attrs && attrs[k] != "" && (k !in current || current[k] != attrs[k]) :: attrs[k]
  }

  function AttrLog(id: NodeId, current: map<string, string>, attrs: map<string, string>): (log: seq<Mutation>)
    ensures Quiet(log)
  {
    (if Removed(current, attrs) == {} then [] else [RemoveAttributes(id, Removed(current, attrs))])
    + (if Written(current, attrs) == map[] then [] else [SetAttributes(id, Written(current, attrs))])
  }

  /** Removing the removed attributes and writing the written ones leaves the
      node holding exactly the descriptor's non-empty attributes. */
  lemma AttrDiffResult(current: map<string, string>, attrs: map<string, string>)
    ensures (map k | k in current && k !in Removed(current, attrs) :: current[k]) + Written(current, attrs) == Applied(attrs)
  {
  }

  /** A dispatcher is installed for a type that had no stored list, and
      uninstalled for a stored type the descriptor no longer has. */
  function HandlerLog(id: NodeId, current: map<string, seq<Callback>>, handlers: map<string, seq<Callback>>): (log: seq<Mutation>)
    ensures Quiet(log)
  {
    (if current.Keys - handlers.Keys == {} then [] else [UninstallDispatchers(id, current.Keys - handlers.Keys)])
    + (if handlers.Keys - current.Keys == {} then [] else [InstallDispatchers(id, handlers.Keys - current.Keys)])
  }

  /** A log that neither creates nor replaces nodes. */
  predicate Quiet(log: seq<Mutation>) {
    forall j :: 0 <= j < |log| ==> !log[j].ReplaceChild? && !log[j].CreateElement? && !log[j].CreateText?
  }

  /** Every `replaceChild` in a log swaps in a different node. */
  ghost predicate HonestReplaces(log: seq<Mutation>) {
    forall j :: 0 <= j < |log| ==> (log[j].ReplaceChild? ==> log[j].previous != log[j].next)
  }

  /** Every node created in a log has an id in `[lo, hi)`. */
  ghost predicate CreatesWithin(log: seq<Mutation>, lo: nat, hi: nat) {
    forall j :: 0 <= j < |log| ==> (log[j].CreateElement? || log[j].CreateText? ==> lo <= log[j].node < hi)
  }

  lemma QuietConcat(a: seq<Mutation>, b: seq<Mutation>)
    requires Quiet(a) && Quiet(b)
    ensures Quiet(a + b)
  {
    forall j | 0 <= j < |a + b|
      ensures !(a + b)[j].ReplaceChild? && !(a + b)[j].CreateElement? && !(a + b)[j].CreateText?
    {
      if j < |a| { assert (a + b)[j] == a[j]; } else { assert (a + b)[j] == b[j - |a|]; }
    }
  }

  lemma LogsConcat(a: seq<Mutation>, b: seq<Mutation>, lo: nat, mid: nat, hi: nat)
    requires HonestReplaces(a) && HonestReplaces(b)
    requires CreatesWithin(a, lo, mid) && CreatesWithin(b, mid, hi) && lo <= mid <= hi
    ensures HonestReplaces(a + b) && CreatesWithin(a + b, lo, hi)
  {
    forall j | 0 <= j < |a + b|
      ensures ((a + b)[j].ReplaceChild? ==> (a + b)[j].previous != (a + b)[j].next)
      ensures ((a + b)[j].CreateElement? || (a + b)[j].CreateText? ==> lo <= (a + b)[j].node < hi)
    {
      if j < |a| { assert (a + b)[j] == a[j]; } else { assert (a + b)[j] == b[j - |a|]; }
    }
  }

  /** Applies descriptor `d` to the previous node `prev`. */
  function Apply(d: Desc, prev: Option<Host>, next: nat): (o: Outcome)
    ensures o.node.Element?
    ensures next <= o.next
    ensures HonestReplaces(o.log)
    ensures CreatesWithin(o.log, next, o.next)
    ensures d.Morph? ==> o.node.tag == Upper(d.name) && !o.node.foreign
    ensures d.Morph? ==> o.node.id == (if Reusable(prev, d.name) then prev.value.id else next)
    ensures d.Morph? ==> o.node.key == (if Reusable(prev, d.name) then prev.value.key else None)
    ensures d.Morph? ==> o.node.attrs == Applied(d.attrs)
    ensures d.Morph? ==> o.node.handlers == d.handlers
    ensures d.Morph? ==> |o.node.children| == |d.content|
    ensures d.Thunk? ==> o.node.key == d.key
    ensures d.Thunk? && ThunkHit(prev, d.key) ==> o == Outcome(prev.value, next, [])
    decreases d, 1
  {
    match d
    case Thunk(key, create) =>
      if ThunkHit(prev, key) then Outcome(prev.value, next, [])
      else
        var o := Apply(create, prev, next);
        var tail := [RecordKey(o.node.id, key)];
        LogsConcat(o.log, tail, next, o.next, o.next);
        Outcome(o.node.(key := key), o.next, o.log + tail)
    case Morph(_, _, _, _) => ApplyMorph(d, prev, next)
  }

  /** `morph`: reuse or create the node, then diff attributes, handlers and
      children in that order. */
  function ApplyMorph(d: Desc, prev: Option<Host>, next: nat): (o: Outcome)
    requires d.Morph?
    ensures o.node.Element?
    ensures next <= o.next
    ensures HonestReplaces(o.log)
    ensures CreatesWithin(o.log, next, o.next)
    ensures o.node.tag == Upper(d.name) && !o.node.foreign
    ensures o.node.id == (if Reusable(prev, d.name) then prev.value.id else next)
    ensures o.node.key == (if Reusable(prev, d.name) then prev.value.key else None)
    ensures o.node.attrs == Applied(d.attrs)
    ensures o.node.handlers == d.handlers
    ensures |o.node.children| == |d.content|
    decreases d, 0
  {
    var reuse := Reusable(prev, d.name);
    var base := if reuse then prev.value else FreshElement(next, d.name);
    var n1 := if reuse then next else next + 1;
    var created := if reuse then [] else [CreateElement(next, Upper(d.name))];
    var excess := |base.children| > |d.content|;
    var kept := if excess then base.children[..|d.content|] else base.children;
    var trim := if excess then [RemoveLastChildren(base.id, |base.children| - |d.content|)] else [];
    var kids := Children(base.id, d.content, kept, 0, n1);
    var quiet := AttrLog(base.id, base.attrs, d.attrs) + HandlerLog(base.id, base.handlers, d.handlers) + trim;
    assert Quiet(quiet) by {
      QuietConcat(AttrLog(base.id, base.attrs, d.attrs), HandlerLog(base.id, base.handlers, d.handlers));
      QuietConcat(AttrLog(base.id, base.attrs, d.attrs) + HandlerLog(base.id, base.handlers, d.handlers), trim);
    }
    var log := created + quiet;
    LogsConcat(created, quiet, next, n1, n1);
    LogsConcat(log, kids.log, next, n1, kids.next);
    Outcome(base.(attrs := Applied(d.attrs), handlers := d.handlers, children := kids.kids), kids.next, log + kids.log)
  }

  /** The child loop, from index `i` on: a previous child at `i` is diffed
      against and replaced only when the result is another node; past the
      end the result is appended. */
  function Children(parent: NodeId, cs: seq<Content>, kids: seq<Host>, i: nat, next: nat): (r: KidsOutcome)
    ensures next <= r.next
    ensures HonestReplaces(r.log)
    ensures CreatesWithin(r.log, next, r.next)
    ensures |r.kids| >= |kids|
    ensures i <= |kids| <= i + |cs| ==> |r.kids| == i + |cs|
    ensures i <= |kids| ==> r.kids[..i] == kids[..i]
    decreases cs
  {
    if |cs| == 0 then KidsOutcome(kids, next, [])
    else if i < |kids| then
      var o := Resolve(cs[0], Some(kids[i]), next);
      var swap := if o.node.id != kids[i].id then [ReplaceChild(parent, i, kids[i].id, o.node.id)] else [];
      var rest := Children(parent, cs[1..], kids[i := o.node], i + 1, o.next);
      assert rest.kids[..i] == rest.kids[..i + 1][..i];
      LogsConcat(o.log, swap, next, o.next, o.next);
      LogsConcat(o.log + swap, rest.log, next, o.next, rest.next);
      KidsOutcome(rest.kids, rest.next, o.log + swap + rest.log)
    else
      var o := Resolve(cs[0], None, next);
      var rest := Children(parent, cs[1..], kids + [o.node], i + 1, o.next);
      assert i <= |kids| ==> rest.kids[..i] == rest.kids[..i + 1][..i];
      var append := [AppendChild(parent, o.node.id)];
      LogsConcat(o.log, append, next, o.next, o.next);
      LogsConcat(o.log + append, rest.log, next, o.next, rest.next);
      KidsOutcome(rest.kids, rest.next, o.log + [AppendChild(parent, o.node.id)] + rest.log)
  }

  /** The node one content child stands for, given the previous child at its
      position: an equal text leaf is kept, a descriptor is applied to the
      previous child, a foreign node is used as it is. */
  function Resolve(c: Content, prev: Option<Host>, next: nat): (o: Outcome)
    ensures next <= o.next
    ensures HonestReplaces(o.log)
    ensures CreatesWithin(o.log, next, o.next)
    decreases c
  {
    match c
    case TextContent(s) =>
      if prev.Some? && prev.value.Text? && prev.value.text == s then Outcome(prev.value, next, [])
      else Outcome(Text(next, s), next + 1, [CreateText(next, s)])
    case DescContent(d) => Apply(d, prev, next)
    case ForeignContent(n) => Outcome(n, next, [])
  }
}
