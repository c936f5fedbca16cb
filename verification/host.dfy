/** The retained host tree as an immutable value. Every node carries an `id`
    standing for its object identity: a node reused in place keeps its id
    (its contents may change, as a live DOM node's do), a freshly created
    node takes a new one. "Same reference" in domdiff.js is "same id" here.
    The mutation log records the writes a reconciliation pass performs on
    the live tree, so that "no mutation" can be stated. */
module Host {
  import opened Prelude

  type NodeId = nat

  /** The identity of an event callback. */
  type Callback = nat

  datatype Host =
    | Element(
        id: NodeId,
        /** `tagName`: the element name upper-cased. */
        tag: string,
        attrs: map<string, string>,
        /** The expando `handlers` object: the stored callback list per event
            type. A `on<type>` dispatcher is installed exactly for its keys. */
        handlers: map<string, seq<Callback>>,
        children: seq<Host>,
        /** The expando `key` a keyed thunk records. */
        key: Option<string>,
        /** Built and owned outside the reconciler. */
        foreign: bool)
    | Text(id: NodeId, text: string)

  /** `document.createElement(name)`. */
  function FreshElement(id: NodeId, name: string): (e: Host)
    ensures e.Element? && e.id == id && e.tag == Upper(name)
    ensures e.attrs == map[] && e.handlers == map[] && e.children == []
    ensures e.key == None && !e.foreign
  {
    Element(id, Upper(name), map[], map[], [], None, false)
  }

  /** The writes a reconciliation pass makes to the live tree. Attribute and
      dispatcher changes of one node are grouped, because the source walks an
      unordered attribute collection. */
  datatype Mutation =
    | CreateElement(node: NodeId, tag: string)
    | CreateText(node: NodeId, text: string)
    | RemoveAttributes(node: NodeId, names: set<string>)
    | SetAttributes(node: NodeId, writes: map<string, string>)
    | UninstallDispatchers(node: NodeId, types: set<string>)
    | InstallDispatchers(node: NodeId, types: set<string>)
    | RemoveLastChildren(node: NodeId, count: nat)
    | ReplaceChild(node: NodeId, index: nat, previous: NodeId, next: NodeId)
    | AppendChild(node: NodeId, child: NodeId)
    | RecordKey(node: NodeId, key: Option<string>)

  /** The callbacks one event of `eventType` on `node` runs, in order: the
      installed dispatcher reads the node's current stored list and calls
      each entry. Without a dispatcher nothing runs. */
  function Fire(node: Host, eventType: string): (calls: seq<Callback>)
    ensures node.Element? && eventType in node.handlers ==> calls == node.handlers[eventType]
    ensures node.Text? || eventType !in node.handlers ==> calls == []
  {
    if node.Element? && eventType in node.handlers then node.handlers[eventType] else []
  }
}
