/**
 * The two constant kinds of the unpacker (unpacker/array.ts, value.ts):
 * which declarations each one catalogues and which accesses it rewrites.
 */
module ConstantKinds {
  import opened Base
  import opened Ast
  import opened ScopeTree
  import opened TraversalHelper
  import opened Constants
  import opened UnpackerScope

  datatype Kind = ArrayKind | ValueKind

  /** `e => !e || e.type.startsWith('Literal')` over an array's elements. */
  predicate AllHoleOrLiteral(h: Heap, items: seq<Option<NodeId>>) {
    forall i :: 0 <= i < |items| ==> items[i].None? || IsLiteralKind(KindOf(h, items[i].value))
  }

  /**
   * The initializer test of `addDeclarationToScope`: an array literal whose
   * elements are holes or literals (kept as they are, so a replacement reuses
   * the literal node), or a single literal.
   */
  function Candidate(h: Heap, kind: Kind, init: NodeId): (p: Option<Payload>)
    ensures kind == ArrayKind ==>
              (p.Some? <==> KindOf(h, init) == "ArrayExpression" && AllHoleOrLiteral(h, ListOf(h, init, "elements")))
    ensures kind == ArrayKind && p.Some? ==> p.value == ArrayElements(ListOf(h, init, "elements"))
    ensures kind == ValueKind ==> (p.Some? <==> IsLiteralKind(KindOf(h, init)))
    ensures kind == ValueKind && p.Some? ==> p.value == ValueLiteral(init)
  {
    match kind
    case ArrayKind =>
      var items := ListOf(h, init, "elements");
      if KindOf(h, init) == "ArrayExpression" && AllHoleOrLiteral(h, items) then Some(ArrayElements(items)) else None
    case ValueKind =>
      if IsLiteralKind(KindOf(h, init)) then Some(ValueLiteral(init)) else None
  }

  // ---------------------------------------------------------------------
  // addDeclarationToScope
  // ---------------------------------------------------------------------

  /** What discovery carries from node to node: the scopes, the constants, `NODES_MAP`, the cursor and the flag. */
  datatype DState = DState(arena: seq<UScope>, consts: seq<Constant>, sets: map<string, set<NodeId>>, cursor: nat, found: bool)

  /**
   * `addDeclarationToScope(node, parent, scope)` of one kind: a matching,
   * not yet catalogued declarator becomes a new constant bound under its name
   * in the cursor's scope and is catalogued; anything else is refused and
   * changes nothing. Binding a name the scope already has raises.
   */
  function Declare(h: Heap, kind: Kind, st: DState, n: NodeId, parent: Option<NodeId>): (r: Result<(DState, bool)>)
    ensures r.Ok? && !r.value.1 ==> r.value.0 == st
    ensures (r.Ok? && r.value.1) || r.Err? <==>
              DeclaratorOf(h, n, Catalogued(st.sets, PrototypeKey)).Some? &&
              Candidate(h, kind, Child(h, n, "init").value).Some?
    ensures r.Ok? && r.value.1 ==>
              var st' := r.value.0;
              && n !in Catalogued(st.sets, PrototypeKey)
              && Catalogued(st'.sets, PrototypeKey) == Catalogued(st.sets, PrototypeKey) + {n}
              && st'.consts == st.consts + [NewConstant(n, parent, BindingName(h, n), Candidate(h, kind, Child(h, n, "init").value).value)]
              && st'.cursor == st.cursor && st'.found == st.found
              && (st.cursor < |st.arena| ==> FindVariable(st'.arena, st.cursor, BindingName(h, n)) == Some(|st.consts|))
    ensures r.Err? ==> st.cursor < |st.arena| && BindingName(h, n) in st.arena[st.cursor].mapping.entries
  {
    match DeclaratorOf(h, n, Catalogued(st.sets, PrototypeKey))
    case None => Ok((st, false))
    case Some((name, init)) =>
      match Candidate(h, kind, init)
      case None => Ok((st, false))
      case Some(p) =>
        var consts := st.consts + [NewConstant(n, parent, name, p)];
        match BindVariable(st.arena, consts, st.cursor, |st.consts|)
        case Err(e) => Err(e)
        case Ok(a) =>
          var sets := st.sets[PrototypeKey := Catalogued(st.sets, PrototypeKey) + {n}];
          Ok((st.(arena := a, consts := consts, sets := sets), true))
  }

  /**
   * Cataloguing happens at most once per node: after a success, the same node
   * is refused by either kind, because both read the one shared set.
   */
  lemma DeclareOnce(h: Heap, kind: Kind, kind2: Kind, st: DState, n: NodeId, parent: Option<NodeId>, parent2: Option<NodeId>)
    requires Declare(h, kind, st, n, parent).Ok? && Declare(h, kind, st, n, parent).value.1
    ensures var st' := Declare(h, kind, st, n, parent).value.0;
            Declare(h, kind2, st', n, parent2) == Ok((st', false))
  {
  }

  // ---------------------------------------------------------------------
  // replaceSimpleAccess
  // ---------------------------------------------------------------------

  /** The name read by an access, `''` when the node has none. */
  function NameOf(h: Heap, n: NodeId): string {
    var t := TextOf(h, n, "name");
    if t.Some? then t.value else ""
  }

  /**
   * The shape test of each kind's `replaceSimpleAccess`: the array kind takes
   * `x[<number>]` and passes `x` and the number; the value kind takes every
   * identifier use and passes its name and the node itself.
   */
  function AccessOf(h: Heap, kind: Kind, n: NodeId): (a: Option<(string, Key)>)
    ensures kind == ArrayKind ==>
              (a.Some? <==> KindOf(h, n) == "ComputedMemberExpression" &&
                            HasKind(h, Child(h, n, "object"), "IdentifierExpression") &&
                            HasKind(h, Child(h, n, "expression"), "LiteralNumericExpression"))
    ensures kind == ArrayKind && a.Some? ==>
              a.value == (NameOf(h, Child(h, n, "object").value), KeyOf(AttrOf(h, Child(h, n, "expression").value, "value")))
    ensures kind == ValueKind ==> (a.Some? <==> KindOf(h, n) == "IdentifierExpression")
    ensures kind == ValueKind && a.Some? ==> a.value == (NameOf(h, n), NotIndex)
  {
    match kind
    case ArrayKind =>
      var obj := Child(h, n, "object");
      var ex := Child(h, n, "expression");
      if KindOf(h, n) == "ComputedMemberExpression" && HasKind(h, obj, "IdentifierExpression") &&
         HasKind(h, ex, "LiteralNumericExpression")
      then Some((NameOf(h, obj.value), KeyOf(AttrOf(h, ex.value, "value"))))
      else None
    case ValueKind =>
      if KindOf(h, n) == "IdentifierExpression" then Some((NameOf(h, n), NotIndex)) else None
  }

  /** A kind's `replaceSimpleAccess(node, parent, scope)`: the shared rewrite for a matching shape, nothing otherwise. */
  function Access(walk: Walker, h: Heap, kind: Kind, arena: seq<UScope>, consts: seq<Constant>, cursor: nat,
                  n: NodeId, parent: Option<NodeId>): (r: Result<Rewritten>)
    ensures AccessOf(h, kind, n).None? ==> r == Ok(Rewritten(h, consts))
    ensures AccessOf(h, kind, n).Some? ==>
              r == SimpleAccess(walk, h, arena, consts, cursor, n, parent, AccessOf(h, kind, n).value.0, AccessOf(h, kind, n).value.1)
  {
    match AccessOf(h, kind, n)
    case None => Ok(Rewritten(h, consts))
    case Some((name, key)) => SimpleAccess(walk, h, arena, consts, cursor, n, parent, name, key)
  }

  /**
   * `a[i]` with `a` an array constant in scope whose element `i` is a literal
   * is replaced by that very literal node; the counters stay as they were.
   */
  lemma ArrayAccessReplaced(walk: Walker, h: Heap, arena: seq<UScope>, consts: seq<Constant>, cursor: nat,
                            n: NodeId, p: NodeId, ci: nat, i: nat)
    requires AccessOf(h, ArrayKind, n).Some? && AccessOf(h, ArrayKind, n).value.1 == Index(i)
    requires FindVariable(arena, cursor, AccessOf(h, ArrayKind, n).value.0) == Some(ci) && ci < |consts|
    requires consts[ci].payload.ArrayElements? && i < |consts[ci].payload.items|
    requires consts[ci].payload.items[i].Some? && IsLiteralKind(KindOf(h, consts[ci].payload.items[i].value))
    ensures Access(walk, h, ArrayKind, arena, consts, cursor, n, Some(p)) ==
            Then2(ReplaceSpec(h, walk(h, p), n, One(consts[ci].payload.items[i].value), 1, false), consts)
  {
    var x := consts[ci].payload.items[i].value;
    assert KindOf(h, x)[..7] == "Literal";
    assert KindOf(h, x)[0] == KindOf(h, x)[..7][0] == 'L';
  }

  // ---------------------------------------------------------------------
  // The kinds acting on the mutable scopes, registry and tree
  // ---------------------------------------------------------------------

  /**
   * `addDeclarationToScope` run on the scope objects and `NODES_MAP`; the
   * cursor and the flag stay with the caller.
   */
  method AddDeclarationToScope(kind: Kind, h: Heap, scopes: Scopes, registry: NodesMap, cursor: nat, n: NodeId, parent: Option<NodeId>)
    returns (matched: bool, err: Option<Error>)
    modifies scopes, registry
    ensures match Declare(h, kind, DState(old(scopes.arena), old(scopes.constants), old(registry.sets), cursor, false), n, parent)
      case Ok((st, m)) =>
        && err.None? && matched == m
        && (m ==> scopes.arena == st.arena && scopes.constants == st.consts && registry.sets == st.sets)
        && (!m ==> scopes.arena == old(scopes.arena) && scopes.constants == old(scopes.constants) && registry.sets == old(registry.sets))
      case Err(e) => err == Some(e)
  {
    var seen := registry.sets;
    var seenSet := Catalogued(seen, PrototypeKey);
    var decl := DeclaratorOf(h, n, seenSet);
    if decl.None? {
      return false, None;
    }
    var name := decl.value.0;
    var init := decl.value.1;
    var p := Candidate(h, kind, init);
    if p.None? {
      return false, None;
    }
    var ci := scopes.AddConstant(NewConstant(n, parent, name, p.value));
    err := scopes.AddVariable(cursor, ci);
    if err.Some? {
      return false, err;
    }
    registry.Add(PrototypeKey, n);
    matched := true;
  }

  /** A kind's `replaceSimpleAccess` run on the scope objects and the tree. */
  method ReplaceSimpleAccess(kind: Kind, walk: Walker, tree: Tree, scopes: Scopes, cursor: nat, n: NodeId, parent: Option<NodeId>)
    returns (err: Option<Error>)
    requires tree.Valid()
    modifies tree, scopes
    ensures tree.Valid() && tree.next == old(tree.next) && tree.nodes.Keys == old(tree.nodes).Keys
    ensures scopes.arena == old(scopes.arena)
    ensures match Access(walk, old(tree.nodes), kind, old(scopes.arena), old(scopes.constants), cursor, n, parent)
      case Ok(rw) => err.None? && tree.nodes == rw.h && scopes.constants == rw.consts
      case Err(e) => err == Some(e)
  {
    var a := AccessOf(tree.nodes, kind, n);
    if a.None? {
      return None;
    }
    var name := a.value.0;
    var key := a.value.1;
    var found := FindVariable(scopes.arena, cursor, name);
    if found.None? || found.value >= |scopes.constants| {
      return None;
    }
    var ci := found.value;
    var rep := GetReplacement(tree.nodes, scopes.constants[ci], key);
    if rep.None? {
      scopes.BumpOverride(ci);
      return None;
    }
    if parent.None? {
      return Some(TypeError("replaceNode on a null root"));
    }
    err := tree.ReplaceNode(walk, parent.value, n, One(rep.value), 1, false);
  }
}
