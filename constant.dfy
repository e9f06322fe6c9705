/**
 * The constants of the unpacker (unpacker/constant.ts, array.ts, value.ts):
 * a declared name whose value is a literal array or a single literal, the
 * per-kind registry of declarators already catalogued, and the shared access
 * rewrite `replaceSimpleAccess`.
 *
 * Constants are mutable objects referred to from scope maps; here they live
 * in a sequence owned by the scope arena and the maps hold their indices.
 */
module Constants {
  import opened Base
  import opened Ast
  import opened ScopeTree
  import opened TraversalHelper

  /**
   * What a constant holds: an array's element list (holes are `None`), one
   * literal node, or, for an `RObject` (object.ts), the `ObjectExpression`
   * node itself, whose properties are read when an access is resolved.
   */
  datatype Payload = ArrayElements(items: seq<Option<NodeId>>) | ValueLiteral(literal: NodeId) | ObjectInit(init: NodeId)

  datatype Constant = Constant(
    node: NodeId,                 // the VariableDeclarator
    parentNode: Option<NodeId>,   // the node holding it (the VariableDeclaration)
    name: string,
    payload: Payload,
    overrideCount: nat,           // uses that could not be replaced
    replaceCount: nat)

  /** The unpacker's scopes map names to indices into the constant sequence. */
  type UScope = Scope<string, nat>

  /** `findVariable(name)` from scope `s`: the nearest binding on the parent chain. */
  function FindVariable(arena: seq<UScope>, s: nat, name: string): Option<nat> {
    Find<string, nat>(arena, s, name)
  }

  /** The `ID` of an instance: `'array'` for `RArray`, `'value'` for `RValue`. */
  function Id(c: Constant): (id: string)
    ensures id == "array" <==> c.payload.ArrayElements?
  {
    if c.payload.ArrayElements? then "array" else "value"
  }

  /** `new RArray(...)` / `new RValue(...)`: both counters start at zero. */
  function NewConstant(node: NodeId, parentNode: Option<NodeId>, name: string, payload: Payload): Constant {
    Constant(node, parentNode, name, payload, 0, 0)
  }

  /** No two constants share a declarator. */
  ghost predicate DistinctDeclarators(consts: seq<Constant>) {
    forall i, j :: 0 <= i < j < |consts| ==> consts[i].node != consts[j].node
  }

  /** Two lists of constants that differ at most in their counters. */
  ghost predicate SameDeclarators(a: seq<Constant>, b: seq<Constant>) {
    |a| == |b| && forall i :: 0 <= i < |a| ==> a[i].node == b[i].node
  }

  // ---------------------------------------------------------------------
  // NODES_MAP: the process-wide catalogue of declarators
  // ---------------------------------------------------------------------

  /**
   * The key under which the kind objects of the unpacker reach `NODES_MAP`.
   * The kind list holds the classes' prototypes, and `ID` is an instance
   * field assigned by the constructor, so on a prototype `this.ID` is
   * `undefined` and both kinds index the registry under that one key.
   */
  const PrototypeKey: string := "undefined"

  /** The catalogued set of a key; a key never accessed reads as empty. */
  function Catalogued(sets: map<string, set<NodeId>>, id: string): set<NodeId> {
    if id in sets then sets[id] else {}
  }

  /** `NODES_MAP`, shared by every run of every pass. */
  class NodesMap {
    var sets: map<string, set<NodeId>>

    constructor ()
      ensures sets == map[]
    {
      sets := map[];
    }

    /** The `nodesSet` getter: an empty set is created on first access, afterwards the set is returned unchanged. */
    method NodesSet(id: string) returns (s: set<NodeId>)
      modifies this
      ensures id in old(sets) ==> sets == old(sets) && s == old(sets)[id]
      ensures id !in old(sets) ==> sets == old(sets)[id := {}] && s == {}
      ensures s == Catalogued(old(sets), id)
    {
      if id !in sets {
        sets := sets[id := {}];
      }
      s := sets[id];
    }

    /** `nodesSet.add(node)`. */
    method Add(id: string, n: NodeId)
      modifies this
      ensures sets == old(sets)[id := Catalogued(old(sets), id) + {n}]
    {
      var s := NodesSet(id);
      sets := sets[id := s + {n}];
    }
  }

  // ---------------------------------------------------------------------
  // Matching a declaration
  // ---------------------------------------------------------------------

  /**
   * `getVariableDeclarator(node)`: the declared name and the initializer of a
   * not yet catalogued `VariableDeclarator` binding an identifier with a
   * non-null initializer; anything else yields no initializer.
   */
  function DeclaratorOf(h: Heap, n: NodeId, seen: set<NodeId>): (r: Option<(string, NodeId)>)
    ensures r.Some? <==> IsNamedDeclarator(h, n) && n !in seen
    ensures r.Some? ==> r.value.0 == BindingName(h, n) && Some(r.value.1) == Child(h, n, "init")
  {
    if IsNamedDeclarator(h, n) && n !in seen then Some((BindingName(h, n), Child(h, n, "init").value)) else None
  }

  // ---------------------------------------------------------------------
  // Replacements
  // ---------------------------------------------------------------------

  /**
   * The `metadata` handed to `getReplacement`: an integral numeric key, or
   * something that is not an array index (a fractional or huge number, or a
   * node as the value access passes).
   */
  datatype Key = Index(i: int) | NotIndex

  /** The key of a `LiteralNumericExpression`'s `value`. */
  function KeyOf(a: Option<Attr>): Key {
    if a.Some? && a.value.Number? then Index(a.value.value) else NotIndex
  }

  /**
   * `getReplacement(metadata)` of the constant itself: for an array the element
   * at the key unless it is out of range, a hole or a spread element; for a
   * value its literal, whatever the key; an object has none.
   */
  function GetReplacement(h: Heap, c: Constant, key: Key): (r: Option<NodeId>)
    ensures c.payload.ValueLiteral? ==> r == Some(c.payload.literal)
    ensures c.payload.ObjectInit? ==> r.None?
    ensures c.payload.ArrayElements? ==>
              (r.Some? <==> key.Index? && 0 <= key.i < |c.payload.items| && c.payload.items[key.i].Some? &&
                            KindOf(h, c.payload.items[key.i].value) != "SpreadElement")
    ensures c.payload.ArrayElements? && r.Some? ==> Some(r.value) == c.payload.items[key.i]
  {
    match c.payload
    case ValueLiteral(lit) => Some(lit)
    case ObjectInit(_) => None
    case ArrayElements(items) =>
      if key.Index? && 0 <= key.i < |items| then
        var e := items[key.i];
        if e.None? || KindOf(h, e.value) == "SpreadElement" then None else e
      else None
  }

  /** What an access rewrite leaves behind: the tree and the constants with their counters. */
  datatype Rewritten = Rewritten(h: Heap, consts: seq<Constant>)

  /** `overrideCount++` on constant `ci`. */
  function Bump(consts: seq<Constant>, ci: nat): seq<Constant>
    requires ci < |consts|
  {
    consts[ci := consts[ci].(overrideCount := consts[ci].overrideCount + 1)]
  }

  /**
   * The base `replaceSimpleAccess(node, parent, scope, name, metadata)`: the
   * name is resolved from the scope cursor; the resolved constant's own
   * replacement, if any, replaces the access in its parent, and otherwise
   * that constant's `overrideCount` goes up by one.
   */
  function SimpleAccess(walk: Walker, h: Heap, arena: seq<UScope>, consts: seq<Constant>, cursor: nat,
                        n: NodeId, parent: Option<NodeId>, name: string, key: Key): (r: Result<Rewritten>)
    ensures FindVariable(arena, cursor, name).None? ==> r == Ok(Rewritten(h, consts))
    ensures FindVariable(arena, cursor, name).Some? && FindVariable(arena, cursor, name).value < |consts| ==>
              var ci := FindVariable(arena, cursor, name).value;
              match GetReplacement(h, consts[ci], key)
              case None =>
                && r.Ok? && r.value.h == h && |r.value.consts| == |consts|
                && r.value.consts[ci].overrideCount == consts[ci].overrideCount + 1
                && r.value.consts[ci] == consts[ci].(overrideCount := r.value.consts[ci].overrideCount)
                && (forall j :: 0 <= j < |consts| && j != ci ==> r.value.consts[j] == consts[j])
              case Some(x) =>
                && (r.Ok? ==> r.value.consts == consts)
                && (parent.Some? ==> r == Then2(ReplaceSpec(h, walk(h, parent.value), n, One(x), 1, false), consts))
  {
    match FindVariable(arena, cursor, name)
    case None => Ok(Rewritten(h, consts))
    case Some(ci) =>
      if ci >= |consts| then Ok(Rewritten(h, consts))
      else
        match GetReplacement(h, consts[ci], key)
        case None => Ok(Rewritten(h, Bump(consts, ci)))
        case Some(x) =>
          match parent
          case None => Err(TypeError("replaceNode on a null root"))
          case Some(p) => Then2(ReplaceSpec(h, walk(h, p), n, One(x), 1, false), consts)
  }

  /** The edited tree, paired with unchanged constants. */
  function Then2(r: Result<Heap>, consts: seq<Constant>): Result<Rewritten> {
    match r
    case Err(e) => Err(e)
    case Ok(h') => Ok(Rewritten(h', consts))
  }

  /**
   * The replacement is chosen by the constant the name resolves to, not by the
   * kind that matched the access: an indexed access `v[i]` to a value constant
   * `v` is replaced by `v`'s literal.
   */
  lemma IndexedAccessToValueConstant(walk: Walker, h: Heap, arena: seq<UScope>, consts: seq<Constant>, cursor: nat,
                                     n: NodeId, p: NodeId, name: string, i: int)
    requires FindVariable(arena, cursor, name).Some? && FindVariable(arena, cursor, name).value < |consts|
    requires consts[FindVariable(arena, cursor, name).value].payload.ValueLiteral?
    ensures SimpleAccess(walk, h, arena, consts, cursor, n, Some(p), name, Index(i)) ==
            Then2(ReplaceSpec(h, walk(h, p), n, One(consts[FindVariable(arena, cursor, name).value].payload.literal), 1, false), consts)
  {
  }

  /** A bare identifier that resolves to an array constant is never replaced: the key is not an index, so the array's `overrideCount` rises. */
  lemma BareUseOfArrayCounts(walk: Walker, h: Heap, arena: seq<UScope>, consts: seq<Constant>, cursor: nat,
                             n: NodeId, parent: Option<NodeId>, name: string)
    requires FindVariable(arena, cursor, name).Some? && FindVariable(arena, cursor, name).value < |consts|
    requires consts[FindVariable(arena, cursor, name).value].payload.ArrayElements?
    ensures var ci := FindVariable(arena, cursor, name).value;
            SimpleAccess(walk, h, arena, consts, cursor, n, parent, name, NotIndex) == Ok(Rewritten(h, Bump(consts, ci)))
  {
  }
}
