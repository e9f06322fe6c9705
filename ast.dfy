/**
 * The syntax tree as the passes see it: a heap of node records, each with a
 * kind (the Shift `type` discriminant), its structural properties in their own
 * order, and its scalar attributes (names, literal values).
 *
 * A structural property holds one node or null (`Scalar`) or a list of nodes
 * in which null marks a hole (`List`). Nodes are shared by id, so one literal
 * node may end up in several places, as it does in the source once an access
 * is replaced by the literal node of a declaration.
 *
 * The depth-first `traverse` helper is not part of this model: a traversal
 * is the sequence of enter and leave events a `Walker` yields for a root in a
 * given heap. The root is entered with no parent.
 */
module Ast {
  import opened Base

  type NodeId = nat

  datatype Slot = Scalar(child: Option<NodeId>) | List(items: seq<Option<NodeId>>)

  datatype Field = Field(name: string, slot: Slot)

  /** Numbers are kept only as far as the passes use them: as integer keys. */
  datatype Attr = Text(text: string) | Number(value: int) | OtherNumber

  datatype NodeRec = NodeRec(kind: string, fields: seq<Field>, attrs: map<string, Attr>)

  type Heap = map<NodeId, NodeRec>

  datatype Event = Enter(node: NodeId, parent: Option<NodeId>) | Leave(node: NodeId)

  type Walker = (Heap, NodeId) -> seq<Event>

  function KindOf(h: Heap, n: NodeId): string {
    if n in h then h[n].kind else ""
  }

  /** The first property called `name`; JavaScript objects have one of each. */
  function SlotOf(fs: seq<Field>, name: string): Option<Slot> {
    if fs == [] then None
    else if fs[0].name == name then Some(fs[0].slot)
    else SlotOf(fs[1..], name)
  }

  /** The node a single-node property holds; a null or missing property is `None`. */
  function Child(h: Heap, n: NodeId, name: string): Option<NodeId> {
    if n !in h then None
    else match SlotOf(h[n].fields, name)
      case Some(Scalar(c)) => c
      case _ => None
  }

  /** The nodes of a list property; a missing property reads as the empty list. */
  function ListOf(h: Heap, n: NodeId, name: string): seq<Option<NodeId>> {
    if n !in h then []
    else match SlotOf(h[n].fields, name)
      case Some(List(items)) => items
      case _ => []
  }

  /** A string attribute; anything else reads as `undefined`, here `None`. */
  function TextOf(h: Heap, n: NodeId, name: string): Option<string> {
    if n in h && name in h[n].attrs && h[n].attrs[name].Text? then Some(h[n].attrs[name].text) else None
  }

  /** Any scalar attribute of a node, such as a literal's `value`. */
  function AttrOf(h: Heap, n: NodeId, name: string): Option<Attr> {
    if n in h && name in h[n].attrs then Some(h[n].attrs[name]) else None
  }

  function HasKind(h: Heap, n: Option<NodeId>, kind: string): bool {
    n.Some? && KindOf(h, n.value) == kind
  }

  /** `type.startsWith('Literal')`. */
  predicate IsLiteralKind(kind: string) {
    |kind| >= 7 && kind[..7] == "Literal"
  }

  /** The node kinds that open a lexical scope in every pass. */
  predicate IsScopeKind(kind: string) {
    kind == "Block" || kind == "FunctionBody"
  }

  /** `node.binding.name` of a `VariableDeclarator` whose binding is a `BindingIdentifier`. */
  function BindingName(h: Heap, n: NodeId): string {
    var b := Child(h, n, "binding");
    if b.Some? then (var t := TextOf(h, b.value, "name"); if t.Some? then t.value else "") else ""
  }

  /** `node.type == 'VariableDeclarator' && node.binding.type == 'BindingIdentifier' && node.init != null`. */
  predicate IsNamedDeclarator(h: Heap, n: NodeId) {
    && KindOf(h, n) == "VariableDeclarator"
    && HasKind(h, Child(h, n, "binding"), "BindingIdentifier")
    && Child(h, n, "init").Some?
  }
}
