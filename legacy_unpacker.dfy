/**
 * The older array-and-object unpacker (unpacker/unpacker.ts). It drives the
 * same discovery/rewrite loop as the constant unpacker, but keeps arrays and
 * objects in two tables per scope, counts successful replacements in
 * `replaceCount`, and deletes the declarations that were replaced at least
 * once.
 *
 * The scope methods it calls (`addArray`, `findArray`, `addObject`,
 * `findObject`, and the `arrays` and `objects` tables) are not in the scope
 * class of unpacker/scope.ts. Here they are one map per scope whose keys are
 * tagged with the table: adding replaces an entry, and finding returns the
 * nearest entry on the parent chain.
 */
module LegacyUnpacker {
  import opened Base
  import opened Ast
  import opened ScopeTree
  import opened TraversalHelper
  import opened Constants
  import opened UnpackerScope
  import opened ConstantKinds
  import opened ConstantUnpacker

  /** The key of a scope entry: a name in the array table or in the object table. */
  datatype Table = ArrayName(name: string) | ObjectName(name: string)

  type LScope = Scope<Table, nat>

  /** `scope.findArray(name)`. */
  function FindArray(arena: seq<LScope>, s: nat, name: string): Option<nat> {
    Find<Table, nat>(arena, s, ArrayName(name))
  }

  /** `scope.findObject(name)`. */
  function FindObject(arena: seq<LScope>, s: nat, name: string): Option<nat> {
    Find<Table, nat>(arena, s, ObjectName(name))
  }

  /**
   * `scope.addArray(c)` / `scope.addObject(c)`: the entry is set in scope `s`,
   * replacing an earlier one; lookups from `s` then find `c`.
   */
  function AddEntry(arena: seq<LScope>, s: nat, key: Table, c: nat): (r: seq<LScope>)
    ensures |r| == |arena|
    ensures forall j :: 0 <= j < |arena| && j != s ==> r[j] == arena[j]
    ensures s < |arena| ==>
              && r[s].node == arena[s].node && r[s].parent == arena[s].parent && r[s].children == arena[s].children
              && r[s].mapping.Get(key) == Some(c)
              && (forall k :: k != key ==> r[s].mapping.Get(k) == arena[s].mapping.Get(k))
              && Find(r, s, key) == Some(c)
  {
    if s < |arena| then arena[s := arena[s].(mapping := arena[s].mapping.Set(key, c))] else arena
  }

  // ---------------------------------------------------------------------
  // Discovery
  // ---------------------------------------------------------------------

  /** `properties.every(e => e.type == 'DataProperty')`. */
  predicate AllDataProperties(h: Heap, props: seq<Option<NodeId>>) {
    forall i :: 0 <= i < |props| ==> props[i].Some? && KindOf(h, props[i].value) == "DataProperty"
  }

  /** The test of `addLiteralArrayDeclaration`: its name and element list. */
  function ArrayDeclaration(h: Heap, cfg: UnpackerConfig, seen: set<NodeId>, n: NodeId): (r: Option<(string, seq<Option<NodeId>>)>)
    ensures r.Some? <==>
              && cfg.unpackArrays && IsNamedDeclarator(h, n) && n !in seen
              && KindOf(h, Child(h, n, "init").value) == "ArrayExpression"
              && AllHoleOrLiteral(h, ListOf(h, Child(h, n, "init").value, "elements"))
    ensures r.Some? ==> r.value == (BindingName(h, n), ListOf(h, Child(h, n, "init").value, "elements"))
  {
    if cfg.unpackArrays && IsNamedDeclarator(h, n) && n !in seen then
      var init := Child(h, n, "init").value;
      var items := ListOf(h, init, "elements");
      if KindOf(h, init) == "ArrayExpression" && AllHoleOrLiteral(h, items) then Some((BindingName(h, n), items)) else None
    else None
  }

  /** The test of `addLiteralObjectDeclaration`: its name and the `ObjectExpression` node. */
  function ObjectDeclaration(h: Heap, cfg: UnpackerConfig, seen: set<NodeId>, n: NodeId): (r: Option<(string, NodeId)>)
    ensures r.Some? <==>
              && cfg.unpackObjects && IsNamedDeclarator(h, n) && n !in seen
              && KindOf(h, Child(h, n, "init").value) == "ObjectExpression"
              && AllDataProperties(h, ListOf(h, Child(h, n, "init").value, "properties"))
    ensures r.Some? ==> r.value == (BindingName(h, n), Child(h, n, "init").value)
  {
    if cfg.unpackObjects && IsNamedDeclarator(h, n) && n !in seen then
      var init := Child(h, n, "init").value;
      if KindOf(h, init) == "ObjectExpression" && AllDataProperties(h, ListOf(h, init, "properties")) then Some((BindingName(h, n), init))
      else None
    else None
  }

  /** What the legacy discovery carries: scopes, constants, the two catalogues, the cursor and the flag. */
  datatype LState = LState(arena: seq<LScope>, consts: seq<Constant>, arrayNodes: set<NodeId>, objectNodes: set<NodeId>,
                           cursor: nat, found: bool)

  /**
   * `addLiteralArrayDeclaration(...) || addLiteralObjectDeclaration(...)`: a
   * new array constant, else a new object constant, is added to the cursor's
   * scope and its node to the matching catalogue; anything else changes nothing.
   */
  function DeclareLegacy(h: Heap, cfg: UnpackerConfig, st: LState, n: NodeId, parent: Option<NodeId>): (r: LState)
    ensures r.cursor == st.cursor
    ensures ArrayDeclaration(h, cfg, st.arrayNodes, n).Some? ==>
              var (name, items) := ArrayDeclaration(h, cfg, st.arrayNodes, n).value;
              && r.consts == st.consts + [NewConstant(n, parent, name, ArrayElements(items))]
              && r.arrayNodes == st.arrayNodes + {n} && r.objectNodes == st.objectNodes && r.found
              && r.arena == AddEntry(st.arena, st.cursor, ArrayName(name), |st.consts|)
    ensures ArrayDeclaration(h, cfg, st.arrayNodes, n).None? && ObjectDeclaration(h, cfg, st.objectNodes, n).Some? ==>
              var (name, init) := ObjectDeclaration(h, cfg, st.objectNodes, n).value;
              && r.consts == st.consts + [NewConstant(n, parent, name, ObjectInit(init))]
              && r.objectNodes == st.objectNodes + {n} && r.arrayNodes == st.arrayNodes && r.found
              && r.arena == AddEntry(st.arena, st.cursor, ObjectName(name), |st.consts|)
    ensures ArrayDeclaration(h, cfg, st.arrayNodes, n).None? && ObjectDeclaration(h, cfg, st.objectNodes, n).None? ==> r == st
  {
    match ArrayDeclaration(h, cfg, st.arrayNodes, n)
    case Some((name, items)) =>
      st.(arena := AddEntry(st.arena, st.cursor, ArrayName(name), |st.consts|),
          consts := st.consts + [NewConstant(n, parent, name, ArrayElements(items))],
          arrayNodes := st.arrayNodes + {n}, found := true)
    case None =>
      match ObjectDeclaration(h, cfg, st.objectNodes, n)
      case Some((name, init)) =>
        st.(arena := AddEntry(st.arena, st.cursor, ObjectName(name), |st.consts|),
            consts := st.consts + [NewConstant(n, parent, name, ObjectInit(init))],
            objectNodes := st.objectNodes + {n}, found := true)
      case None => st
  }

  /** The `enter` and `leave` callbacks of the legacy discovery; nothing in it can fail. */
  function DiscoverStepLegacy(h: Heap, cfg: UnpackerConfig): (LState, Event) -> Result<LState> {
    (st: LState, e: Event) =>
      match e
      case Enter(n, parent) =>
        if IsScopeKind(KindOf(h, n)) then Ok(st.(arena := Register(st.arena, n, Some(st.cursor)), cursor := |st.arena|))
        else Ok(DeclareLegacy(h, cfg, st, n, parent))
      case Leave(n) => Ok(st.(cursor := LeaveCursor(st.arena, st.cursor, n)))
  }

  function DiscoverLegacy(walk: Walker, h: Heap, root: NodeId, cfg: UnpackerConfig, arena: seq<LScope>, consts: seq<Constant>,
                          arrayNodes: set<NodeId>, objectNodes: set<NodeId>): Result<LState> {
    Fold(DiscoverStepLegacy(h, cfg), LState(arena, consts, arrayNodes, objectNodes, 0, false), walk(h, root))
  }

  // ---------------------------------------------------------------------
  // Rewrite
  // ---------------------------------------------------------------------

  /** What the legacy rewrite carries: the tree, the constants and the cursor. */
  datatype LRState = LRState(h: Heap, consts: seq<Constant>, cursor: nat)

  /** `replaceCount++` on constant `ci`. */
  function Count(consts: seq<Constant>, ci: nat): (r: seq<Constant>)
    requires ci < |consts|
    ensures |r| == |consts| && r[ci].replaceCount == consts[ci].replaceCount + 1
    ensures r[ci] == consts[ci].(replaceCount := r[ci].replaceCount)
    ensures forall j :: 0 <= j < |consts| && j != ci ==> r[j] == consts[j]
  {
    consts[ci := consts[ci].(replaceCount := consts[ci].replaceCount + 1)]
  }

  /** Replace the access `n` in its parent by `x` and count the replacement on constant `ci`. */
  function ReplaceCounted(walk: Walker, st: LRState, ci: nat, n: NodeId, parent: Option<NodeId>, x: NodeId): (r: Result<LRState>)
    requires ci < |st.consts|
    ensures parent.None? ==> r.Err?
    ensures r.Ok? ==> r.value.h.Keys == st.h.Keys && r.value.cursor == st.cursor && r.value.consts == Count(st.consts, ci)
  {
    match parent
    case None => Err(TypeError("replaceNode on a null root"))
    case Some(p) =>
      ReplaceKeepsKeys(st.h, walk(st.h, p), n, One(x), 1, false);
      match ReplaceSpec(st.h, walk(st.h, p), n, One(x), 1, false)
      case Err(e) => Err(e)
      case Ok(h') => Ok(st.(h := h', consts := Count(st.consts, ci)))
  }

  /** The element `array.elements[index]` when it exists: an integral index in range that is not a hole. */
  function Element(items: seq<Option<NodeId>>, key: Key): (r: Option<NodeId>)
    ensures r.Some? <==> key.Index? && 0 <= key.i < |items| && items[key.i].Some?
    ensures r.Some? ==> Some(r.value) == items[key.i]
  {
    if key.Index? && 0 <= key.i < |items| then items[key.i] else None
  }

  /**
   * `replaceSimpleArrayAccess`: `a[i]`, with `a` an array in scope whose
   * element `i` exists, is replaced by that element and the array's
   * `replaceCount` goes up; anything else changes nothing.
   */
  function ArrayAccess(walk: Walker, arena: seq<LScope>, st: LRState, n: NodeId, parent: Option<NodeId>): (r: Result<LRState>)
    ensures r.Ok? ==> r.value.h.Keys == st.h.Keys && r.value.cursor == st.cursor && |r.value.consts| == |st.consts|
  {
    match ArrayTarget(arena, st, n)
    case None => Ok(st)
    case Some((ci, x)) => ReplaceCounted(walk, st, ci, n, parent, x)
  }

  /** The array constant an access resolves to and the element that replaces it, if any. */
  function ArrayTarget(arena: seq<LScope>, st: LRState, n: NodeId): (t: Option<(nat, NodeId)>)
    ensures t.Some? ==> t.value.0 < |st.consts|
  {
    match AccessOf(st.h, ArrayKind, n)
    case None => None
    case Some((name, key)) =>
      match FindArray(arena, st.cursor, name)
      case None => None
      case Some(ci) =>
        if ci < |st.consts| && st.consts[ci].payload.ArrayElements? then
          match Element(st.consts[ci].payload.items, key)
          case None => None
          case Some(x) => Some((ci, x))
        else None
  }


  /** The text of a string attribute, `''` when the node has none. */
  function TextOr(h: Heap, n: NodeId, name: string): string {
    var t := TextOf(h, n, name);
    if t.Some? then t.value else ""
  }

  /**
   * The object name and key of an object access: `o['k']` gives the string
   * literal, `o.k` the property name; any other shape gives nothing.
   */
  function ObjectKey(h: Heap, n: NodeId): (r: Option<(string, string)>)
    ensures r.Some? <==>
              HasKind(h, Child(h, n, "object"), "IdentifierExpression") &&
              ((KindOf(h, n) == "ComputedMemberExpression" && HasKind(h, Child(h, n, "expression"), "LiteralStringExpression")) ||
               KindOf(h, n) == "StaticMemberExpression")
    ensures r.Some? && KindOf(h, n) == "ComputedMemberExpression" ==>
              r.value == (NameOf(h, Child(h, n, "object").value), TextOr(h, Child(h, n, "expression").value, "value"))
    ensures r.Some? && KindOf(h, n) == "StaticMemberExpression" ==>
              r.value == (NameOf(h, Child(h, n, "object").value), TextOr(h, n, "property"))
  {
    var obj := Child(h, n, "object");
    var ex := Child(h, n, "expression");
    if KindOf(h, n) == "ComputedMemberExpression" && HasKind(h, obj, "IdentifierExpression") &&
       HasKind(h, ex, "LiteralStringExpression")
    then Some((NameOf(h, obj.value), TextOr(h, ex.value, "value")))
    else if KindOf(h, n) == "StaticMemberExpression" && HasKind(h, obj, "IdentifierExpression")
    then Some((NameOf(h, obj.value), TextOr(h, n, "property")))
    else None
  }

  /** A `DataProperty` whose name is a `StaticPropertyName` with value `key`. */
  predicate KeyedBy(h: Heap, p: Option<NodeId>, key: string) {
    && p.Some? && KindOf(h, p.value) == "DataProperty"
    && HasKind(h, Child(h, p.value, "name"), "StaticPropertyName")
    && TextOf(h, Child(h, p.value, "name").value, "value") == Some(key)
  }

  /** `properties.find(...)` from position `i`: the first property keyed by `key`. */
  function FirstKeyed(h: Heap, props: seq<Option<NodeId>>, key: string, i: nat): (r: Option<nat>)
    requires i <= |props|
    ensures r.Some? ==> i <= r.value < |props| && KeyedBy(h, props[r.value], key)
    ensures r.Some? ==> forall j :: i <= j < r.value ==> !KeyedBy(h, props[j], key)
    ensures r.None? ==> forall j :: i <= j < |props| ==> !KeyedBy(h, props[j], key)
    decreases |props| - i
  {
    if i == |props| then None
    else if KeyedBy(h, props[i], key) then Some(i)
    else FirstKeyed(h, props, key, i + 1)
  }

  /**
   * `replaceSimpleObjectAccess`: `o.k` or `o['k']`, with `o` an object in
   * scope whose first property keyed `k` holds a literal, is replaced by that
   * literal and the object's `replaceCount` goes up. The properties are read
   * from the tree as it is now.
   */
  function ObjectAccess(walk: Walker, arena: seq<LScope>, st: LRState, n: NodeId, parent: Option<NodeId>): (r: Result<LRState>)
    ensures r.Ok? ==> r.value.h.Keys == st.h.Keys && r.value.cursor == st.cursor && |r.value.consts| == |st.consts|
  {
    match ObjectTarget(arena, st, n)
    case None => Ok(st)
    case Some((ci, x)) => ReplaceCounted(walk, st, ci, n, parent, x)
  }

  /** The object constant an access resolves to and the literal that replaces it, if any. */
  function ObjectTarget(arena: seq<LScope>, st: LRState, n: NodeId): (t: Option<(nat, NodeId)>)
    ensures t.Some? ==> t.value.0 < |st.consts|
  {
    match ObjectKey(st.h, n)
    case None => None
    case Some((name, key)) =>
      match FindObject(arena, st.cursor, name)
      case None => None
      case Some(ci) =>
        if ci < |st.consts| && st.consts[ci].payload.ObjectInit? then
          var props := ListOf(st.h, st.consts[ci].payload.init, "properties");
          match FirstKeyed(st.h, props, key, 0)
          case None => None
          case Some(j) =>
            var x := Child(st.h, props[j].value, "expression");
            if x.Some? && IsLiteralKind(KindOf(st.h, x.value)) then Some((ci, x.value)) else None
        else None
  }


  /** The `enter` and `leave` callbacks of the legacy rewrite: every other node goes to the array rewrite, then the object one. */
  function RewriteStepLegacy(walk: Walker, arena: seq<LScope>): (LRState, Event) -> Result<LRState> {
    (st: LRState, e: Event) =>
      match e
      case Enter(n, parent) =>
        if IsScopeKind(KindOf(st.h, n)) then
          if st.cursor < |arena| && arena[st.cursor].children.Get(n).Some? then
            Ok(st.(cursor := arena[st.cursor].children.Get(n).value))
          else Err(TypeError("the scope of a block is undefined"))
        else
          (match ArrayAccess(walk, arena, st, n, parent)
           case Err(e) => Err(e)
           case Ok(st') => ObjectAccess(walk, arena, st', n, parent))
      case Leave(n) => Ok(st.(cursor := LeaveCursor(arena, st.cursor, n)))
  }

  function RewriteLegacy(walk: Walker, h: Heap, root: NodeId, arena: seq<LScope>, consts: seq<Constant>): Result<LRState> {
    Fold(RewriteStepLegacy(walk, arena), LRState(h, consts, 0), walk(h, root))
  }

  // ---------------------------------------------------------------------
  // What the legacy rules promise
  // ---------------------------------------------------------------------

  /** Once discovery catalogues a node, as an array or as an object, the node is refused from then on. */
  lemma DeclareLegacyOnce(h: Heap, cfg: UnpackerConfig, st: LState, n: NodeId, parent: Option<NodeId>, parent2: Option<NodeId>)
    requires var r := DeclareLegacy(h, cfg, st, n, parent); r.arrayNodes != st.arrayNodes || r.objectNodes != st.objectNodes
    ensures var r := DeclareLegacy(h, cfg, st, n, parent); DeclareLegacy(h, cfg, r, n, parent2) == r
  {
  }

  /** The replacement the legacy rule finds for an array access: constant `ci`'s element `x`. */
  ghost predicate ArrayHit(arena: seq<LScope>, st: LRState, n: NodeId, ci: nat, x: NodeId) {
    var a := AccessOf(st.h, ArrayKind, n);
    && a.Some? && FindArray(arena, st.cursor, a.value.0) == Some(ci)
    && ci < |st.consts| && st.consts[ci].payload.ArrayElements?
    && a.value.1.Index? && 0 <= a.value.1.i < |st.consts[ci].payload.items|
    && st.consts[ci].payload.items[a.value.1.i] == Some(x)
  }

  /** An array access that finds its element is replaced by it, and the array counts one more replacement. */
  lemma ArrayAccessHit(walk: Walker, arena: seq<LScope>, st: LRState, n: NodeId, p: NodeId, ci: nat, x: NodeId)
    requires ArrayHit(arena, st, n, ci, x)
    ensures match ReplaceSpec(st.h, walk(st.h, p), n, One(x), 1, false)
      case Ok(h') => ArrayAccess(walk, arena, st, n, Some(p)) == Ok(LRState(h', Count(st.consts, ci), st.cursor))
      case Err(e) => ArrayAccess(walk, arena, st, n, Some(p)) == Err(e)
  {
  }

  /** Any other access, or a lookup that fails, changes neither the tree nor a counter. */
  lemma ArrayAccessMiss(walk: Walker, arena: seq<LScope>, st: LRState, n: NodeId, parent: Option<NodeId>)
    requires forall ci, x :: !ArrayHit(arena, st, n, ci, x)
    ensures ArrayAccess(walk, arena, st, n, parent) == Ok(st)
  {
    var a := AccessOf(st.h, ArrayKind, n);
    if a.Some? && FindArray(arena, st.cursor, a.value.0).Some? {
      var ci := FindArray(arena, st.cursor, a.value.0).value;
      if ci < |st.consts| && st.consts[ci].payload.ArrayElements? {
        var e := Element(st.consts[ci].payload.items, a.value.1);
        if e.Some? {
          assert ArrayHit(arena, st, n, ci, e.value);
        }
      }
    }
  }

  /**
   * The replacement the legacy rule finds for an object access: property `j`
   * of object constant `ci` is the first `DataProperty` named by the key, and
   * its value `x` is a literal.
   */
  ghost predicate ObjectHit(arena: seq<LScope>, st: LRState, n: NodeId, ci: nat, j: nat, x: NodeId) {
    var k := ObjectKey(st.h, n);
    && k.Some? && FindObject(arena, st.cursor, k.value.0) == Some(ci)
    && ci < |st.consts| && st.consts[ci].payload.ObjectInit?
    && var props := ListOf(st.h, st.consts[ci].payload.init, "properties");
    && j < |props| && KeyedBy(st.h, props[j], k.value.1)
    && (forall j' :: 0 <= j' < j ==> !KeyedBy(st.h, props[j'], k.value.1))
    && Child(st.h, props[j].value, "expression") == Some(x) && IsLiteralKind(KindOf(st.h, x))
  }

  /** An object access whose first matching property holds a literal is replaced by that literal, and counted. */
  lemma ObjectAccessHit(walk: Walker, arena: seq<LScope>, st: LRState, n: NodeId, p: NodeId, ci: nat, j: nat, x: NodeId)
    requires ObjectHit(arena, st, n, ci, j, x)
    ensures match ReplaceSpec(st.h, walk(st.h, p), n, One(x), 1, false)
      case Ok(h') => ObjectAccess(walk, arena, st, n, Some(p)) == Ok(LRState(h', Count(st.consts, ci), st.cursor))
      case Err(e) => ObjectAccess(walk, arena, st, n, Some(p)) == Err(e)
  {
    var k := ObjectKey(st.h, n).value;
    var props := ListOf(st.h, st.consts[ci].payload.init, "properties");
    var f := FirstKeyed(st.h, props, k.1, 0);
    assert f == Some(j);
  }

  /** Without such a property, or with a lookup that fails, an object access changes nothing. */
  lemma ObjectAccessMiss(walk: Walker, arena: seq<LScope>, st: LRState, n: NodeId, parent: Option<NodeId>)
    requires forall ci, j, x :: !ObjectHit(arena, st, n, ci, j, x)
    ensures ObjectAccess(walk, arena, st, n, parent) == Ok(st)
  {
    var k := ObjectKey(st.h, n);
    if k.Some? && FindObject(arena, st.cursor, k.value.0).Some? {
      var ci := FindObject(arena, st.cursor, k.value.0).value;
      if ci < |st.consts| && st.consts[ci].payload.ObjectInit? {
        var props := ListOf(st.h, st.consts[ci].payload.init, "properties");
        var f := FirstKeyed(st.h, props, k.value.1, 0);
        if f.Some? {
          var x := Child(st.h, props[f.value].value, "expression");
          if x.Some? && IsLiteralKind(KindOf(st.h, x.value)) {
            assert ObjectHit(arena, st, n, ci, f.value, x.value);
          }
        }
      }
    }
  }

  // ---------------------------------------------------------------------
  // The loop
  // ---------------------------------------------------------------------

  /** The catalogues only grow, by nodes of the tree, and the flag is up exactly when one grew. */
  ghost predicate GrownLegacy(h: Heap, a0: set<NodeId>, o0: set<NodeId>, st: LState) {
    && a0 <= st.arrayNodes && st.arrayNodes <= a0 + h.Keys
    && o0 <= st.objectNodes && st.objectNodes <= o0 + h.Keys
    && (st.found <==> st.arrayNodes != a0 || st.objectNodes != o0)
  }

  /** The legacy `findVariableDeclarator` returns true exactly when it catalogued a new array or object. */
  lemma DiscoverLegacyFindsNew(walk: Walker, h: Heap, root: NodeId, cfg: UnpackerConfig, arena: seq<LScope>, consts: seq<Constant>,
                               a0: set<NodeId>, o0: set<NodeId>)
    requires DiscoverLegacy(walk, h, root, cfg, arena, consts, a0, o0).Ok?
    ensures GrownLegacy(h, a0, o0, DiscoverLegacy(walk, h, root, cfg, arena, consts, a0, o0).value)
  {
    var step := DiscoverStepLegacy(h, cfg);
    var P := (st: LState) => GrownLegacy(h, a0, o0, st);
    forall t: LState, e: Event | P(t) && step(t, e).Ok? ensures P(step(t, e).value) {
    }
    FoldKeeps(step, P, LState(arena, consts, a0, o0, 0, false), walk(h, root));
  }

  /** The legacy rewrite keeps the set of node records. */
  lemma RewriteLegacyKeepsKeys(walk: Walker, h: Heap, root: NodeId, arena: seq<LScope>, consts: seq<Constant>)
    requires RewriteLegacy(walk, h, root, arena, consts).Ok?
    ensures RewriteLegacy(walk, h, root, arena, consts).value.h.Keys == h.Keys
  {
    var step := RewriteStepLegacy(walk, arena);
    var P := (st: LRState) => st.h.Keys == h.Keys;
    forall t: LRState, e: Event | P(t) && step(t, e).Ok? ensures P(step(t, e).value) {
    }
    FoldKeeps(step, P, LRState(h, consts, 0), walk(h, root));
  }

  /** The state the legacy pass carries between rounds. */
  datatype LPass = LPass(h: Heap, arena: seq<LScope>, consts: seq<Constant>, arrayNodes: set<NodeId>, objectNodes: set<NodeId>)

  /** How many nodes of the tree are not yet catalogued as an array, plus those not yet catalogued as an object. */
  function Uncatalogued(p: LPass): nat {
    |p.h.Keys - p.arrayNodes| + |p.h.Keys - p.objectNodes|
  }

  lemma SubsetCard(x: set<NodeId>, y: set<NodeId>)
    requires x <= y
    ensures |x| <= |y|
  {
    assert y == x + (y - x) && x * (y - x) == {};
  }

  /** Growing either catalogue by nodes of the tree lowers the measure. */
  lemma CataloguesShrink(keys: set<NodeId>, a0: set<NodeId>, a: set<NodeId>, o0: set<NodeId>, o: set<NodeId>)
    requires a0 <= a && a <= a0 + keys && o0 <= o && o <= o0 + keys && (a != a0 || o != o0)
    ensures |keys - a| + |keys - o| < |keys - a0| + |keys - o0|
  {
    SubsetCard(keys - a, keys - a0);
    SubsetCard(keys - o, keys - o0);
    if a != a0 {
      UncataloguedShrinks(keys, a0, a);
    } else {
      UncataloguedShrinks(keys, o0, o);
    }
  }

  /**
   * One iteration of `while (this.findVariableDeclarator()) this.unpackObjectsArrays();`;
   * a round that goes on leaves fewer uncatalogued nodes.
   */
  function RoundLegacy(walk: Walker, root: NodeId, cfg: UnpackerConfig, p: LPass): (r: Result<(LPass, bool)>)
    ensures r.Ok? && r.value.1 ==> Uncatalogued(r.value.0) < Uncatalogued(p)
  {
    match DiscoverLegacy(walk, p.h, root, cfg, p.arena, p.consts, p.arrayNodes, p.objectNodes)
    case Err(e) => Err(e)
    case Ok(d) =>
      if !d.found then Ok((LPass(p.h, d.arena, d.consts, d.arrayNodes, d.objectNodes), false))
      else
        match RewriteLegacy(walk, p.h, root, d.arena, d.consts)
        case Err(e) => Err(e)
        case Ok(rs) =>
          DiscoverLegacyFindsNew(walk, p.h, root, cfg, p.arena, p.consts, p.arrayNodes, p.objectNodes);
          RewriteLegacyKeepsKeys(walk, p.h, root, d.arena, d.consts);
          CataloguesShrink(p.h.Keys, p.arrayNodes, d.arrayNodes, p.objectNodes, d.objectNodes);
          Ok((LPass(rs.h, d.arena, rs.consts, d.arrayNodes, d.objectNodes), true))
  }

  function RoundsLegacy(walk: Walker, root: NodeId, cfg: UnpackerConfig, p: LPass): Result<LPass>
    decreases Uncatalogued(p)
  {
    match RoundLegacy(walk, root, cfg, p)
    case Err(e) => Err(e)
    case Ok((q, more)) => if more then RoundsLegacy(walk, root, cfg, q) else Ok(q)
  }

  // ---------------------------------------------------------------------
  // removeVariableDeclaration
  // ---------------------------------------------------------------------

  /** A constant the legacy clean-up deletes: one replaced at least once. */
  predicate Replaced(consts: seq<Constant>, c: nat) {
    c < |consts| && consts[c].replaceCount > 0
  }

  /** The replaced constants of one table of a scope, in map order. */
  function ReplacedHere(consts: seq<Constant>, keys: seq<Table>, entries: map<Table, nat>, objects: bool): seq<nat>
    decreases |keys|
  {
    if keys == [] then []
    else
      var n := |keys| - 1;
      var k := keys[n];
      ReplacedHere(consts, keys[..n], entries, objects) +
        if k.ObjectName? == objects && k in entries && Replaced(consts, entries[k]) then [entries[k]] else []
  }

  lemma {:induction false} ReplacedHereMembers(consts: seq<Constant>, keys: seq<Table>, entries: map<Table, nat>, objects: bool, c: nat)
    ensures c in ReplacedHere(consts, keys, entries, objects) <==>
            Replaced(consts, c) && exists i :: 0 <= i < |keys| && keys[i].ObjectName? == objects && keys[i] in entries && entries[keys[i]] == c
    decreases |keys|
  {
    if keys != [] {
      var n := |keys| - 1;
      var pre := keys[..n];
      ReplacedHereMembers(consts, pre, entries, objects, c);
      if c in ReplacedHere(consts, pre, entries, objects) {
        var i :| 0 <= i < |pre| && pre[i].ObjectName? == objects && pre[i] in entries && entries[pre[i]] == c;
        assert keys[i] == pre[i];
      }
      if Replaced(consts, c) && exists i :: 0 <= i < |keys| && keys[i].ObjectName? == objects && keys[i] in entries && entries[keys[i]] == c {
        var i :| 0 <= i < |keys| && keys[i].ObjectName? == objects && keys[i] in entries && entries[keys[i]] == c;
        if i < n {
          assert keys[i] == pre[i];
        }
      }
    }
  }

  /** The two loops over a scope's tables: its replaced arrays, then its replaced objects. */
  function ReplacedOf(arena: seq<LScope>, consts: seq<Constant>, t: nat): seq<nat> {
    if t < |arena| then
      ReplacedHere(consts, arena[t].mapping.keys, arena[t].mapping.entries, false) +
      ReplacedHere(consts, arena[t].mapping.keys, arena[t].mapping.entries, true)
    else []
  }

  function ReplacedIn(arena: seq<LScope>, consts: seq<Constant>, scopes: seq<nat>): seq<nat> {
    Gather((t: nat) => ReplacedOf(arena, consts, t), scopes)
  }

  lemma ReplacedInSnoc(arena: seq<LScope>, consts: seq<Constant>, xs: seq<nat>, x: nat)
    ensures ReplacedIn(arena, consts, xs + [x]) == ReplacedIn(arena, consts, xs) + ReplacedOf(arena, consts, x)
  {
    GatherSnoc((t: nat) => ReplacedOf(arena, consts, t), xs, x);
  }

  lemma ReplacedInAppend(arena: seq<LScope>, consts: seq<Constant>, a: seq<nat>, b: seq<nat>)
    ensures ReplacedIn(arena, consts, a + b) == ReplacedIn(arena, consts, a) + ReplacedIn(arena, consts, b)
  {
    GatherAppend((t: nat) => ReplacedOf(arena, consts, t), a, b);
  }

  /** Constant `c` is a replaced constant of one of `scopes`. */
  ghost predicate ReplacedInSome(arena: seq<LScope>, consts: seq<Constant>, scopes: seq<nat>, c: nat) {
    exists k :: 0 <= k < |scopes| && c in ReplacedOf(arena, consts, scopes[k])
  }

  lemma ReplacedInMembers(arena: seq<LScope>, consts: seq<Constant>, scopes: seq<nat>, c: nat)
    ensures c in ReplacedIn(arena, consts, scopes) <==> ReplacedInSome(arena, consts, scopes, c)
  {
    GatherMembers((t: nat) => ReplacedOf(arena, consts, t), scopes, c);
  }

  /** The constants the legacy removal deletes from scope `s` on: each scope's arrays, then objects, then its children's, depth first. */
  function LegacyRemovalOrder(arena: seq<LScope>, consts: seq<Constant>, s: nat): seq<nat> {
    ReplacedIn(arena, consts, Preorder(arena, s))
  }

  function LegacyRemoveSpec(walk: Walker, h: Heap, arena: seq<LScope>, consts: seq<Constant>, s: nat): Result<Heap> {
    Fold(RemoveStep(walk, consts), h, LegacyRemovalOrder(arena, consts, s))
  }

  /** Constant `c` is bound in a table of a scope in the subtree of `s`. */
  ghost predicate BoundBelow(arena: seq<LScope>, s: nat, c: nat) {
    exists k, key :: 0 <= k < |Preorder(arena, s)| &&
      key in arena[Preorder(arena, s)[k]].mapping.keys && key in arena[Preorder(arena, s)[k]].mapping.entries &&
      arena[Preorder(arena, s)[k]].mapping.entries[key] == c
  }

  /**
   * The legacy removal deletes exactly the constants with a positive
   * `replaceCount` bound in scope `s` or below it: the opposite of the
   * constant unpacker's rule.
   */
  lemma LegacyRemovalTargets(arena: seq<LScope>, consts: seq<Constant>, s: nat, c: nat)
    ensures c in LegacyRemovalOrder(arena, consts, s) <==> Replaced(consts, c) && BoundBelow(arena, s, c)
  {
    var ps := Preorder(arena, s);
    ReplacedInMembers(arena, consts, ps, c);
    if c in LegacyRemovalOrder(arena, consts, s) {
      var k :| 0 <= k < |ps| && c in ReplacedOf(arena, consts, ps[k]);
      var t := ps[k];
      var keys, entries := arena[t].mapping.keys, arena[t].mapping.entries;
      ReplacedHereMembers(consts, keys, entries, false, c);
      ReplacedHereMembers(consts, keys, entries, true, c);
      var i :| 0 <= i < |keys| && keys[i] in entries && entries[keys[i]] == c;
      assert keys[i] in arena[ps[k]].mapping.keys;
    }
    if Replaced(consts, c) && BoundBelow(arena, s, c) {
      var k, key :| 0 <= k < |ps| && key in arena[ps[k]].mapping.keys && key in arena[ps[k]].mapping.entries &&
                    arena[ps[k]].mapping.entries[key] == c;
      var t := ps[k];
      var keys, entries := arena[t].mapping.keys, arena[t].mapping.entries;
      var i :| 0 <= i < |keys| && keys[i] == key;
      ReplacedHereMembers(consts, keys, entries, key.ObjectName?, c);
      assert c in ReplacedOf(arena, consts, t);
      assert ReplacedInSome(arena, consts, ps, c);
    }
  }

  /** The declarator of a constant that was never replaced stays where it is. */
  lemma UnreplacedStay(walk: Walker, h: Heap, arena: seq<LScope>, consts: seq<Constant>, s: nat, c: nat, q: NodeId)
    requires c < |consts| && consts[c].replaceCount == 0 && HoldsChild(h, q, consts[c].node)
    requires forall d :: 0 <= d < |consts| && d != c ==> consts[d].node != consts[c].node
    ensures LegacyRemoveSpec(walk, h, arena, consts, s).Ok? ==> HoldsChild(LegacyRemoveSpec(walk, h, arena, consts, s).value, q, consts[c].node)
  {
    var order := LegacyRemovalOrder(arena, consts, s);
    forall k | 0 <= k < |order| && order[k] < |consts| ensures consts[order[k]].node != consts[c].node {
      LegacyRemovalTargets(arena, consts, s, order[k]);
    }
    RemovalKeepsOthers(walk, h, consts, order, q, consts[c].node);
  }

  /**
   * The legacy removal detaches a replaced constant's declarator from its
   * recorded parent: when its turn comes, at position `k` of the order, the
   * parent holds it once, in a list, and the walk meets it once; it is gone
   * from the parent at the end.
   */
  lemma LegacyRemoveSpecDetaches(walk: Walker, h: Heap, arena: seq<LScope>, consts: seq<Constant>, s: nat, k: nat, g: Heap,
                                 pre: seq<Event>, post: seq<Event>, i: nat)
    requires k < |LegacyRemovalOrder(arena, consts, s)|
    requires Fold(RemoveStep(walk, consts), h, LegacyRemovalOrder(arena, consts, s)[..k]) == Ok(g)
    requires var c := LegacyRemovalOrder(arena, consts, s)[k];
      && c < |consts| && consts[c].parentNode.Some?
      && walk(g, consts[c].parentNode.value) == pre + [Enter(consts[c].node, consts[c].parentNode)] + post
      && HeldOnceInList(g, consts[c].parentNode.value, consts[c].node, i)
      && (forall j :: 0 <= j < |pre| ==> !EntersTarget(pre[j], consts[c].node))
      && (forall j :: 0 <= j < |post| ==> !EntersTarget(post[j], consts[c].node))
    ensures var c := LegacyRemovalOrder(arena, consts, s)[k];
      Replaced(consts, c) &&
      (LegacyRemoveSpec(walk, h, arena, consts, s).Ok? ==>
         !HoldsChild(LegacyRemoveSpec(walk, h, arena, consts, s).value, consts[c].parentNode.value, consts[c].node))
  {
    var order := LegacyRemovalOrder(arena, consts, s);
    var c := order[k];
    var step := RemoveStep(walk, consts);
    LegacyRemovalTargets(arena, consts, s, c);
    RemoveStepDetaches(walk, consts, g, c, pre, post, i);
    FoldStep(step, h, order[..k], c, g);
    TakeSnoc(order, k);
    FoldAppend(step, h, order[..k + 1], order[k + 1..]);
    assert order[..k + 1] + order[k + 1..] == order;
    RemovalKeepsDetached(walk, step(g, c).value, consts, order[k + 1..], consts[c].parentNode.value, consts[c].node);
  }

  lemma ReplacedHerePrefix(consts: seq<Constant>, keys: seq<Table>, entries: map<Table, nat>, objects: bool, m: nat)
    requires m <= |keys|
    ensures ReplacedHere(consts, keys[..m], entries, objects) <= ReplacedHere(consts, keys, entries, objects)
    decreases |keys|
  {
    if m < |keys| {
      var n := |keys| - 1;
      assert keys[..n][..m] == keys[..m];
      ReplacedHerePrefix(consts, keys[..n], entries, objects, m);
    } else {
      assert keys[..m] == keys;
    }
  }

  lemma ReplacedInPrefix(arena: seq<LScope>, consts: seq<Constant>, a: seq<nat>, b: seq<nat>)
    requires a <= b
    ensures ReplacedIn(arena, consts, a) <= ReplacedIn(arena, consts, b)
  {
    assert b == a + b[|a|..];
    ReplacedInAppend(arena, consts, a, b[|a|..]);
  }

  /** The removal order of a scope: its own tables, then its children's subtrees. */
  lemma LegacyRemovalOrderSplit(arena: seq<LScope>, consts: seq<Constant>, s: nat)
    requires s < |arena|
    ensures LegacyRemovalOrder(arena, consts, s) ==
            ReplacedOf(arena, consts, s) + ReplacedIn(arena, consts, PreorderChildren(arena, s, arena[s].children.keys))
  {
    var pc := PreorderChildren(arena, s, arena[s].children.keys);
    assert ReplacedIn(arena, consts, [s]) == ReplacedOf(arena, consts, s) by {
      assert [] + [s] == [s];
      ReplacedInSnoc(arena, consts, [], s);
    }
    ReplacedInAppend(arena, consts, [s], pc);
  }

  /** One more child handled by the last loop of the removal. */
  lemma LegacyChildrenStep(arena: seq<LScope>, consts: seq<Constant>, s: nat, keys: seq<NodeId>, j: nat)
    requires s < |arena| && j < |keys|
    ensures var before := ReplacedIn(arena, consts, PreorderChildren(arena, s, keys[..j]));
            var after := ReplacedIn(arena, consts, PreorderChildren(arena, s, keys[..j + 1]));
            match arena[s].children.Get(keys[j])
            case Some(c) => after == before + (if s < c < |arena| then LegacyRemovalOrder(arena, consts, c) else [])
            case None => after == before
  {
    assert keys[..j + 1][..j] == keys[..j];
    var pre := PreorderChildren(arena, s, keys[..j]);
    match arena[s].children.Get(keys[j])
    case Some(c) =>
      if s < c < |arena| {
        ReplacedInAppend(arena, consts, pre, Preorder(arena, c));
      }
    case None =>
  }

  /** `execute()` of the legacy pass. */
  function RunLegacy(walk: Walker, root: NodeId, cfg: UnpackerConfig, p: LPass): Result<LPass> {
    match RoundsLegacy(walk, root, cfg, p)
    case Err(e) => Err(e)
    case Ok(q) =>
      if !cfg.shouldRemove then Ok(q)
      else
        match LegacyRemoveSpec(walk, q.h, q.arena, q.consts, 0)
        case Err(e) => Err(e)
        case Ok(h') => Ok(q.(h := h'))
  }

  // ---------------------------------------------------------------------
  // Every constant has a declarator of its own
  // ---------------------------------------------------------------------

  /** The kind of a declarator's initialiser, `''` when it has none. */
  function InitKind(h: Heap, n: NodeId): string {
    var init := Child(h, n, "init");
    if init.Some? then KindOf(h, init.value) else ""
  }

  /**
   * No two constants share a declarator: an array constant's declarator is
   * in the array catalogue and initialised by an array literal, an object
   * constant's is in the object catalogue and initialised by an object
   * literal, so neither rule can take a declarator that either already took.
   */
  ghost predicate LegacyOwn(h: Heap, consts: seq<Constant>, arrayNodes: set<NodeId>, objectNodes: set<NodeId>) {
    && DistinctDeclarators(consts)
    && forall i :: 0 <= i < |consts| ==>
         || (consts[i].node in arrayNodes && InitKind(h, consts[i].node) == "ArrayExpression")
         || (consts[i].node in objectNodes && InitKind(h, consts[i].node) == "ObjectExpression")
  }

  lemma DeclareLegacyOwn(h: Heap, cfg: UnpackerConfig, st: LState, n: NodeId, parent: Option<NodeId>)
    requires LegacyOwn(h, st.consts, st.arrayNodes, st.objectNodes)
    ensures var r := DeclareLegacy(h, cfg, st, n, parent); LegacyOwn(h, r.consts, r.arrayNodes, r.objectNodes)
  {
    var r := DeclareLegacy(h, cfg, st, n, parent);
    if r.consts != st.consts {
      assert forall i :: 0 <= i < |st.consts| ==> r.consts[i] == st.consts[i];
      assert r.consts[|st.consts|].node == n;
    }
  }

  /** Legacy discovery gives every new constant a declarator of its own. */
  lemma DiscoverLegacyOwn(walk: Walker, h: Heap, root: NodeId, cfg: UnpackerConfig, arena: seq<LScope>, consts: seq<Constant>,
                          a0: set<NodeId>, o0: set<NodeId>)
    requires LegacyOwn(h, consts, a0, o0) && DiscoverLegacy(walk, h, root, cfg, arena, consts, a0, o0).Ok?
    ensures var d := DiscoverLegacy(walk, h, root, cfg, arena, consts, a0, o0).value; LegacyOwn(h, d.consts, d.arrayNodes, d.objectNodes)
  {
    var step := DiscoverStepLegacy(h, cfg);
    var P := (st: LState) => LegacyOwn(h, st.consts, st.arrayNodes, st.objectNodes);
    forall t: LState, e: Event | P(t) && step(t, e).Ok? ensures P(step(t, e).value) {
      if e.Enter? && !IsScopeKind(KindOf(h, e.node)) {
        DeclareLegacyOwn(h, cfg, t, e.node, e.parent);
      }
    }
    FoldKeeps(step, P, LState(arena, consts, a0, o0, 0, false), walk(h, root));
  }

  /**
   * Replacing an access, which is never an array or object literal, keeps
   * every declarator's initialiser in place and of the same kind, and counts
   * without moving a declarator.
   */
  lemma ReplaceCountedOwn(walk: Walker, st: LRState, ci: nat, n: NodeId, parent: Option<NodeId>, x: NodeId, a: set<NodeId>, o: set<NodeId>)
    requires ci < |st.consts| && LegacyOwn(st.h, st.consts, a, o)
    requires KindOf(st.h, n) != "ArrayExpression" && KindOf(st.h, n) != "ObjectExpression"
    ensures var r := ReplaceCounted(walk, st, ci, n, parent, x); r.Ok? ==> LegacyOwn(r.value.h, r.value.consts, a, o)
  {
    var r := ReplaceCounted(walk, st, ci, n, parent, x);
    if r.Ok? {
      var p := parent.value;
      forall i | 0 <= i < |st.consts| ensures InitKind(r.value.h, st.consts[i].node) == InitKind(st.h, st.consts[i].node) {
        var d := st.consts[i].node;
        ReplaceKeepsOtherScalar(st.h, walk(st.h, p), n, One(x), 1, false, d, "init", Child(st.h, d, "init").value);
      }
      assert forall i :: 0 <= i < |st.consts| ==> r.value.consts[i].node == st.consts[i].node;
    }
  }

  lemma ArrayAccessOwn(walk: Walker, arena: seq<LScope>, st: LRState, n: NodeId, parent: Option<NodeId>, a: set<NodeId>, o: set<NodeId>)
    requires LegacyOwn(st.h, st.consts, a, o) && ArrayAccess(walk, arena, st, n, parent).Ok?
    ensures var r := ArrayAccess(walk, arena, st, n, parent).value; LegacyOwn(r.h, r.consts, a, o)
  {
    match ArrayTarget(arena, st, n)
    case None =>
    case Some((ci, x)) => ReplaceCountedOwn(walk, st, ci, n, parent, x, a, o);
  }

  lemma ObjectAccessOwn(walk: Walker, arena: seq<LScope>, st: LRState, n: NodeId, parent: Option<NodeId>, a: set<NodeId>, o: set<NodeId>)
    requires LegacyOwn(st.h, st.consts, a, o) && ObjectAccess(walk, arena, st, n, parent).Ok?
    ensures var r := ObjectAccess(walk, arena, st, n, parent).value; LegacyOwn(r.h, r.consts, a, o)
  {
    match ObjectTarget(arena, st, n)
    case None =>
    case Some((ci, x)) => ReplaceCountedOwn(walk, st, ci, n, parent, x, a, o);
  }

  /** One event of the legacy rewrite keeps every declarator its own. */
  lemma RewriteStepLegacyOwn(walk: Walker, arena: seq<LScope>, st: LRState, e: Event, a: set<NodeId>, o: set<NodeId>)
    requires LegacyOwn(st.h, st.consts, a, o) && RewriteStepLegacy(walk, arena)(st, e).Ok?
    ensures var r := RewriteStepLegacy(walk, arena)(st, e).value; LegacyOwn(r.h, r.consts, a, o)
  {
    if e.Enter? && !IsScopeKind(KindOf(st.h, e.node)) {
      ArrayAccessOwn(walk, arena, st, e.node, e.parent, a, o);
      var st' := ArrayAccess(walk, arena, st, e.node, e.parent).value;
      ObjectAccessOwn(walk, arena, st', e.node, e.parent, a, o);
    }
  }

  /** The legacy rewrite keeps every declarator its own. */
  lemma RewriteLegacyOwn(walk: Walker, h: Heap, root: NodeId, arena: seq<LScope>, consts: seq<Constant>, a: set<NodeId>, o: set<NodeId>)
    requires LegacyOwn(h, consts, a, o) && RewriteLegacy(walk, h, root, arena, consts).Ok?
    ensures var r := RewriteLegacy(walk, h, root, arena, consts).value; LegacyOwn(r.h, r.consts, a, o)
  {
    var step := RewriteStepLegacy(walk, arena);
    var P := (st: LRState) => LegacyOwn(st.h, st.consts, a, o);
    forall t: LRState, e: Event | P(t) && step(t, e).Ok? ensures P(step(t, e).value) {
      RewriteStepLegacyOwn(walk, arena, t, e, a, o);
    }
    FoldKeeps(step, P, LRState(h, consts, 0), walk(h, root));
  }

  /** Every state the legacy rounds reach keeps each constant's declarator its own. */
  lemma {:induction false} RoundsLegacyOwn(walk: Walker, root: NodeId, cfg: UnpackerConfig, p: LPass)
    requires LegacyOwn(p.h, p.consts, p.arrayNodes, p.objectNodes) && RoundsLegacy(walk, root, cfg, p).Ok?
    ensures var q := RoundsLegacy(walk, root, cfg, p).value; LegacyOwn(q.h, q.consts, q.arrayNodes, q.objectNodes)
    decreases Uncatalogued(p)
  {
    DiscoverLegacyOwn(walk, p.h, root, cfg, p.arena, p.consts, p.arrayNodes, p.objectNodes);
    var d := DiscoverLegacy(walk, p.h, root, cfg, p.arena, p.consts, p.arrayNodes, p.objectNodes).value;
    if d.found {
      RewriteLegacyOwn(walk, p.h, root, d.arena, d.consts, d.arrayNodes, d.objectNodes);
      RoundsLegacyOwn(walk, root, cfg, RoundLegacy(walk, root, cfg, p).value.0);
    }
  }

  /**
   * `execute` from a pass with no constants yet: the clean-up keeps the
   * declarator of every constant that was never replaced, in every node that
   * held it when the rounds ended.
   */
  lemma RunLegacyKeepsUnreplaced(walk: Walker, root: NodeId, cfg: UnpackerConfig, p: LPass, c: nat, q0: NodeId)
    requires p.consts == [] && RoundsLegacy(walk, root, cfg, p).Ok?
    requires var q := RoundsLegacy(walk, root, cfg, p).value;
      c < |q.consts| && q.consts[c].replaceCount == 0 && HoldsChild(q.h, q0, q.consts[c].node)
    ensures RunLegacy(walk, root, cfg, p).Ok? ==>
              HoldsChild(RunLegacy(walk, root, cfg, p).value.h, q0, RoundsLegacy(walk, root, cfg, p).value.consts[c].node)
  {
    var q := RoundsLegacy(walk, root, cfg, p).value;
    RoundsLegacyOwn(walk, root, cfg, p);
    if cfg.shouldRemove {
      UnreplacedStay(walk, q.h, q.arena, q.consts, 0, c, q0);
    }
  }

  // ---------------------------------------------------------------------
  // The pass, updating its state in place
  // ---------------------------------------------------------------------

  /**
   * The legacy `Unpacker`: the tree it rewrites, its configuration, the
   * global scope (index 0 of the arena) with everything below it, the
   * constants the scopes bind and the two catalogues.
   */
  class LegacyPass {
    const tree: Tree
    const root: NodeId
    const config: UnpackerConfig
    var arena: seq<LScope>
    var consts: seq<Constant>
    var arrayNodes: set<NodeId>
    var objectNodes: set<NodeId>

    /** The constructor: a global scope for the whole program and two empty catalogues. */
    constructor (tree: Tree, root: NodeId, config: UnpackerConfig)
      ensures this.tree == tree && this.root == root && this.config == config
      ensures arena == [Scope(root, None, EmptyMap(), EmptyMap())] && consts == []
      ensures arrayNodes == {} && objectNodes == {}
    {
      this.tree := tree;
      this.root := root;
      this.config := config;
      arena := [Scope(root, None, EmptyMap(), EmptyMap())];
      consts := [];
      arrayNodes := {};
      objectNodes := {};
    }

    /** `addLiteralArrayDeclaration`: a matching declarator becomes an array bound in the cursor's scope, and is catalogued. */
    method AddLiteralArrayDeclaration(cursor: nat, n: NodeId, parent: Option<NodeId>) returns (added: bool)
      modifies this
      ensures var d := ArrayDeclaration(tree.nodes, config, old(arrayNodes), n);
        && added == d.Some? && objectNodes == old(objectNodes)
        && (d.Some? ==>
              && consts == old(consts) + [NewConstant(n, parent, d.value.0, ArrayElements(d.value.1))]
              && arena == AddEntry(old(arena), cursor, ArrayName(d.value.0), |old(consts)|)
              && arrayNodes == old(arrayNodes) + {n})
        && (d.None? ==> arena == old(arena) && consts == old(consts) && arrayNodes == old(arrayNodes))
    {
      var d := ArrayDeclaration(tree.nodes, config, arrayNodes, n);
      if d.None? {
        return false;
      }
      arena := AddEntry(arena, cursor, ArrayName(d.value.0), |consts|);
      consts := consts + [NewConstant(n, parent, d.value.0, ArrayElements(d.value.1))];
      arrayNodes := arrayNodes + {n};
      added := true;
    }

    /** `addLiteralObjectDeclaration`: a matching declarator becomes an object bound in the cursor's scope, and is catalogued. */
    method AddLiteralObjectDeclaration(cursor: nat, n: NodeId, parent: Option<NodeId>) returns (added: bool)
      modifies this
      ensures var d := ObjectDeclaration(tree.nodes, config, old(objectNodes), n);
        && added == d.Some? && arrayNodes == old(arrayNodes)
        && (d.Some? ==>
              && consts == old(consts) + [NewConstant(n, parent, d.value.0, ObjectInit(d.value.1))]
              && arena == AddEntry(old(arena), cursor, ObjectName(d.value.0), |old(consts)|)
              && objectNodes == old(objectNodes) + {n})
        && (d.None? ==> arena == old(arena) && consts == old(consts) && objectNodes == old(objectNodes))
    {
      var d := ObjectDeclaration(tree.nodes, config, objectNodes, n);
      if d.None? {
        return false;
      }
      arena := AddEntry(arena, cursor, ObjectName(d.value.0), |consts|);
      consts := consts + [NewConstant(n, parent, d.value.0, ObjectInit(d.value.1))];
      objectNodes := objectNodes + {n};
      added := true;
    }

    /** The discovery's `enter` or `leave` callback for one event. */
    method DiscoverEvent(cursor: nat, found: bool, e: Event) returns (cursor': nat, found': bool)
      modifies this
      ensures DiscoverStepLegacy(tree.nodes, config)(LState(old(arena), old(consts), old(arrayNodes), old(objectNodes), cursor, found), e) ==
              Ok(LState(arena, consts, arrayNodes, objectNodes, cursor', found'))
    {
      cursor', found' := cursor, found;
      if e.Leave? {
        cursor' := LeaveCursor(arena, cursor, e.node);
      } else if IsScopeKind(KindOf(tree.nodes, e.node)) {
        cursor' := |arena|;
        arena := Register(arena, e.node, Some(cursor));
      } else {
        var added := AddLiteralArrayDeclaration(cursor, e.node, e.parent);
        if !added {
          added := AddLiteralObjectDeclaration(cursor, e.node, e.parent);
        }
        found' := found || added;
      }
    }

    /** `findVariableDeclarator()`: one discovery traversal from the global scope. */
    method FindVariableDeclarator(walk: Walker) returns (found: bool)
      modifies this
      ensures DiscoverLegacy(walk, tree.nodes, root, config, old(arena), old(consts), old(arrayNodes), old(objectNodes)).Ok?
      ensures var d := DiscoverLegacy(walk, tree.nodes, root, config, old(arena), old(consts), old(arrayNodes), old(objectNodes)).value;
              arena == d.arena && consts == d.consts && arrayNodes == d.arrayNodes && objectNodes == d.objectNodes && found == d.found
    {
      var visits := walk(tree.nodes, root);
      ghost var step := DiscoverStepLegacy(tree.nodes, config);
      ghost var s0 := LState(arena, consts, arrayNodes, objectNodes, 0, false);
      var cursor: nat := 0;
      found := false;
      var i := 0;
      while i < |visits|
        invariant 0 <= i <= |visits|
        invariant Fold(step, s0, visits[..i]) == Ok(LState(arena, consts, arrayNodes, objectNodes, cursor, found))
      {
        FoldStep(step, s0, visits[..i], visits[i], LState(arena, consts, arrayNodes, objectNodes, cursor, found));
        TakeSnoc(visits, i);
        cursor, found := DiscoverEvent(cursor, found, visits[i]);
        i := i + 1;
      }
      assert visits[..i] == visits;
    }

    /** `replaceCount++` and `TraversalHelper.replaceNode(parent, node, x)`. */
    method Replace(walk: Walker, ci: nat, n: NodeId, parent: Option<NodeId>, x: NodeId) returns (err: Option<Error>)
      requires tree.Valid() && ci < |consts|
      modifies this, tree
      ensures tree.Valid() && tree.next == old(tree.next) && tree.nodes.Keys == old(tree.nodes).Keys
      ensures arena == old(arena) && arrayNodes == old(arrayNodes) && objectNodes == old(objectNodes)
      ensures match ReplaceCounted(walk, LRState(old(tree.nodes), old(consts), 0), ci, n, parent, x)
        case Ok(st) => err.None? && tree.nodes == st.h && consts == st.consts
        case Err(e) => err == Some(e)
    {
      consts := Count(consts, ci);
      if parent.None? {
        return Some(TypeError("replaceNode on a null root"));
      }
      err := tree.ReplaceNode(walk, parent.value, n, One(x), 1, false);
    }

    /** `replaceSimpleArrayAccess`. */
    method ReplaceSimpleArrayAccess(walk: Walker, cursor: nat, n: NodeId, parent: Option<NodeId>) returns (err: Option<Error>)
      requires tree.Valid()
      modifies this, tree
      ensures tree.Valid() && tree.next == old(tree.next) && tree.nodes.Keys == old(tree.nodes).Keys
      ensures arena == old(arena) && arrayNodes == old(arrayNodes) && objectNodes == old(objectNodes)
      ensures match ArrayAccess(walk, arena, LRState(old(tree.nodes), old(consts), cursor), n, parent)
        case Ok(st) => err.None? && tree.nodes == st.h && consts == st.consts
        case Err(e) => err == Some(e)
    {
      var t := ArrayTarget(arena, LRState(tree.nodes, consts, cursor), n);
      if t.Some? {
        err := Replace(walk, t.value.0, n, parent, t.value.1);
      } else {
        err := None;
      }
    }

    /** `replaceSimpleObjectAccess`. */
    method ReplaceSimpleObjectAccess(walk: Walker, cursor: nat, n: NodeId, parent: Option<NodeId>) returns (err: Option<Error>)
      requires tree.Valid()
      modifies this, tree
      ensures tree.Valid() && tree.next == old(tree.next) && tree.nodes.Keys == old(tree.nodes).Keys
      ensures arena == old(arena) && arrayNodes == old(arrayNodes) && objectNodes == old(objectNodes)
      ensures match ObjectAccess(walk, arena, LRState(old(tree.nodes), old(consts), cursor), n, parent)
        case Ok(st) => err.None? && tree.nodes == st.h && consts == st.consts
        case Err(e) => err == Some(e)
    {
      var t := ObjectTarget(arena, LRState(tree.nodes, consts, cursor), n);
      if t.Some? {
        err := Replace(walk, t.value.0, n, parent, t.value.1);
      } else {
        err := None;
      }
    }

    /** The rewrite's `enter` or `leave` callback for one event. */
    method RewriteEvent(walk: Walker, cursor: nat, e: Event) returns (cursor': nat, err: Option<Error>)
      requires tree.Valid()
      modifies this, tree
      ensures tree.Valid() && tree.next == old(tree.next) && tree.nodes.Keys == old(tree.nodes).Keys
      ensures arena == old(arena) && arrayNodes == old(arrayNodes) && objectNodes == old(objectNodes)
      ensures match RewriteStepLegacy(walk, arena)(LRState(old(tree.nodes), old(consts), cursor), e)
        case Ok(st) => err.None? && tree.nodes == st.h && consts == st.consts && cursor' == st.cursor
        case Err(x) => err == Some(x)
    {
      cursor', err := cursor, None;
      if e.Leave? {
        cursor' := LeaveCursor(arena, cursor, e.node);
      } else if IsScopeKind(KindOf(tree.nodes, e.node)) {
        if cursor < |arena| && arena[cursor].children.Get(e.node).Some? {
          cursor' := arena[cursor].children.Get(e.node).value;
        } else {
          err := Some(TypeError("the scope of a block is undefined"));
        }
      } else {
        err := ReplaceSimpleArrayAccess(walk, cursor, e.node, e.parent);
        if err.None? {
          err := ReplaceSimpleObjectAccess(walk, cursor, e.node, e.parent);
        }
      }
    }

    /** `unpackObjectsArrays()`: one rewrite traversal from the global scope, over the events of the tree it starts from. */
    method UnpackObjectsArrays(walk: Walker) returns (err: Option<Error>)
      requires tree.Valid()
      modifies this, tree
      ensures tree.Valid() && tree.next == old(tree.next) && tree.nodes.Keys == old(tree.nodes).Keys
      ensures arena == old(arena) && arrayNodes == old(arrayNodes) && objectNodes == old(objectNodes)
      ensures match RewriteLegacy(walk, old(tree.nodes), root, arena, old(consts))
        case Ok(rs) => err.None? && tree.nodes == rs.h && consts == rs.consts
        case Err(e) => err == Some(e)
    {
      var visits := walk(tree.nodes, root);
      ghost var step := RewriteStepLegacy(walk, arena);
      ghost var s0 := LRState(tree.nodes, consts, 0);
      var cursor: nat := 0;
      var i := 0;
      while i < |visits|
        invariant 0 <= i <= |visits|
        invariant tree.Valid() && tree.next == old(tree.next) && tree.nodes.Keys == old(tree.nodes).Keys
        invariant arena == old(arena) && arrayNodes == old(arrayNodes) && objectNodes == old(objectNodes)
        invariant Fold(step, s0, visits[..i]) == Ok(LRState(tree.nodes, consts, cursor))
      {
        FoldStep(step, s0, visits[..i], visits[i], LRState(tree.nodes, consts, cursor));
        TakeSnoc(visits, i);
        cursor, err := RewriteEvent(walk, cursor, visits[i]);
        if err.Some? {
          FoldErrPrefix(step, s0, visits[..i + 1], visits);
          return;
        }
        i := i + 1;
      }
      assert visits[..i] == visits;
      err := None;
    }

    /** `TraversalHelper.removeNode(constant.parentNode, constant.node)`. */
    method RemoveDeclarator(walk: Walker, c: nat) returns (err: Option<Error>)
      requires tree.Valid()
      modifies tree
      ensures tree.Valid() && tree.next == old(tree.next) && tree.nodes.Keys == old(tree.nodes).Keys
      ensures match RemoveStep(walk, consts)(old(tree.nodes), c)
        case Ok(h) => err.None? && tree.nodes == h
        case Err(e) => err == Some(e)
    {
      if c >= |consts| {
        return None;
      }
      match consts[c].parentNode
      case None => err := Some(TypeError("removeNode on a null root"));
      case Some(p) => err := tree.RemoveNode(walk, p, consts[c].node);
    }

    /** One of the two table loops of `removeVariableDeclaration`: the replaced arrays, or objects, of scope `s`. */
    method RemoveTable(walk: Walker, s: nat, objects: bool) returns (err: Option<Error>)
      requires tree.Valid() && s < |arena|
      modifies tree
      ensures tree.Valid() && tree.next == old(tree.next) && tree.nodes.Keys == old(tree.nodes).Keys
      ensures match Fold(RemoveStep(walk, consts), old(tree.nodes), ReplacedHere(consts, arena[s].mapping.keys, arena[s].mapping.entries, objects))
        case Ok(h) => err.None? && tree.nodes == h
        case Err(e) => err == Some(e)
    {
      ghost var h0 := tree.nodes;
      ghost var step := RemoveStep(walk, consts);
      var keys := arena[s].mapping.keys;
      var entries := arena[s].mapping.entries;
      var i := 0;
      while i < |keys|
        invariant 0 <= i <= |keys|
        invariant tree.Valid() && tree.next == old(tree.next) && tree.nodes.Keys == h0.Keys
        invariant Fold(step, h0, ReplacedHere(consts, keys[..i], entries, objects)) == Ok(tree.nodes)
      {
        assert keys[..i + 1][..i] == keys[..i];
        var k := keys[i];
        var pre := ReplacedHere(consts, keys[..i], entries, objects);
        if k.ObjectName? == objects && k in entries && Replaced(consts, entries[k]) {
          var c := entries[k];
          assert ReplacedHere(consts, keys[..i + 1], entries, objects) == pre + [c];
          FoldStep(step, h0, pre, c, tree.nodes);
          err := RemoveDeclarator(walk, c);
          if err.Some? {
            ReplacedHerePrefix(consts, keys, entries, objects, i + 1);
            FoldErrPrefix(step, h0, pre + [c], ReplacedHere(consts, keys, entries, objects));
            return;
          }
        } else {
          assert ReplacedHere(consts, keys[..i + 1], entries, objects) == pre + [];
          assert pre + [] == pre;
        }
        i := i + 1;
      }
      assert keys[..i] == keys;
      err := None;
    }

    /** The last loop of `removeVariableDeclaration`: every child scope, in children order. */
    method RemoveChildren(walk: Walker, s: nat) returns (err: Option<Error>)
      requires tree.Valid() && s < |arena|
      modifies tree
      ensures tree.Valid() && tree.next == old(tree.next) && tree.nodes.Keys == old(tree.nodes).Keys
      ensures match Fold(RemoveStep(walk, consts), old(tree.nodes), ReplacedIn(arena, consts, PreorderChildren(arena, s, arena[s].children.keys)))
        case Ok(h) => err.None? && tree.nodes == h
        case Err(e) => err == Some(e)
      decreases |arena| - s, 0
    {
      ghost var h0 := tree.nodes;
      ghost var step := RemoveStep(walk, consts);
      var ckeys := arena[s].children.keys;
      ghost var all := ReplacedIn(arena, consts, PreorderChildren(arena, s, ckeys));
      var j := 0;
      assert ckeys[..0] == [];
      assert ReplacedIn(arena, consts, PreorderChildren(arena, s, ckeys[..0])) == [];
      while j < |ckeys|
        decreases |ckeys| - j
        invariant 0 <= j <= |ckeys|
        invariant tree.Valid() && tree.next == old(tree.next) && tree.nodes.Keys == h0.Keys
        invariant Fold(step, h0, ReplacedIn(arena, consts, PreorderChildren(arena, s, ckeys[..j]))) == Ok(tree.nodes)
      {
        LegacyChildrenStep(arena, consts, s, ckeys, j);
        ghost var done := ReplacedIn(arena, consts, PreorderChildren(arena, s, ckeys[..j]));
        ghost var next := ReplacedIn(arena, consts, PreorderChildren(arena, s, ckeys[..j + 1]));
        var child := arena[s].children.Get(ckeys[j]);
        if child.Some? && s < child.value < |arena| {
          var c := child.value;
          assert next == done + LegacyRemovalOrder(arena, consts, c);
          err := RemoveVariableDeclaration(walk, c);
          FoldAppend(step, h0, done, LegacyRemovalOrder(arena, consts, c));
          if err.Some? {
            PreorderChildrenPrefix(arena, s, ckeys, j + 1);
            ReplacedInPrefix(arena, consts, PreorderChildren(arena, s, ckeys[..j + 1]), PreorderChildren(arena, s, ckeys));
            FoldErrPrefix(step, h0, next, all);
            return;
          }
        } else {
          assert next == done;
        }
        j := j + 1;
      }
      assert ckeys[..j] == ckeys;
      err := None;
    }

    /**
     * `removeVariableDeclaration(scope)` on scope `s`: the declarators of the
     * scope's replaced arrays, then of its replaced objects, each in map
     * order, then each child scope's. On an error the run is aborted.
     */
    method RemoveVariableDeclaration(walk: Walker, s: nat) returns (err: Option<Error>)
      requires tree.Valid()
      modifies tree
      ensures tree.Valid() && tree.next == old(tree.next) && tree.nodes.Keys == old(tree.nodes).Keys
      ensures match LegacyRemoveSpec(walk, old(tree.nodes), arena, consts, s)
        case Ok(h) => err.None? && tree.nodes == h
        case Err(e) => err == Some(e)
      decreases |arena| - s, 1
    {
      if s >= |arena| {
        return None;
      }
      ghost var h0 := tree.nodes;
      ghost var step := RemoveStep(walk, consts);
      ghost var order := LegacyRemovalOrder(arena, consts, s);
      ghost var arrays := ReplacedHere(consts, arena[s].mapping.keys, arena[s].mapping.entries, false);
      ghost var objects := ReplacedHere(consts, arena[s].mapping.keys, arena[s].mapping.entries, true);
      ghost var below := ReplacedIn(arena, consts, PreorderChildren(arena, s, arena[s].children.keys));
      LegacyRemovalOrderSplit(arena, consts, s);
      assert order == arrays + (objects + below);
      err := RemoveTable(walk, s, false);
      if err.Some? {
        FoldErrPrefix(step, h0, arrays, order);
        return;
      }
      FoldAppend(step, h0, arrays, objects + below);
      ghost var h1 := tree.nodes;
      err := RemoveTable(walk, s, true);
      if err.Some? {
        FoldErrPrefix(step, h1, objects, objects + below);
        return;
      }
      FoldAppend(step, h1, objects, below);
      err := RemoveChildren(walk, s);
    }

    /** One round of the loop in `execute()`. */
    method RunRound(walk: Walker) returns (more: bool, err: Option<Error>)
      requires tree.Valid()
      modifies this, tree
      ensures tree.Valid() && tree.next == old(tree.next)
      ensures match RoundLegacy(walk, root, config, LPass(old(tree.nodes), old(arena), old(consts), old(arrayNodes), old(objectNodes)))
        case Ok((q, m)) =>
          && err.None? && more == m && tree.nodes == q.h && arena == q.arena && consts == q.consts
          && arrayNodes == q.arrayNodes && objectNodes == q.objectNodes
        case Err(e) => err == Some(e)
    {
      more := FindVariableDeclarator(walk);
      if !more {
        return more, None;
      }
      err := UnpackObjectsArrays(walk);
    }

    /** `execute()`: discovery and rewrite alternate until a discovery finds nothing; then the optional removal. */
    method Execute(walk: Walker) returns (err: Option<Error>)
      requires tree.Valid()
      modifies this, tree
      ensures tree.Valid() && tree.next == old(tree.next)
      ensures match RunLegacy(walk, root, config, LPass(old(tree.nodes), old(arena), old(consts), old(arrayNodes), old(objectNodes)))
        case Ok(q) =>
          && err.None? && tree.nodes == q.h && arena == q.arena && consts == q.consts
          && arrayNodes == q.arrayNodes && objectNodes == q.objectNodes
        case Err(e) => err == Some(e)
    {
      ghost var p0 := LPass(tree.nodes, arena, consts, arrayNodes, objectNodes);
      while true
        invariant tree.Valid() && tree.next == old(tree.next)
        invariant RoundsLegacy(walk, root, config, p0) == RoundsLegacy(walk, root, config, LPass(tree.nodes, arena, consts, arrayNodes, objectNodes))
        decreases Uncatalogued(LPass(tree.nodes, arena, consts, arrayNodes, objectNodes))
      {
        ghost var p := LPass(tree.nodes, arena, consts, arrayNodes, objectNodes);
        var more, e := RunRound(walk);
        if e.Some? {
          assert RoundsLegacy(walk, root, config, p) == Err(e.value);
          return e;
        }
        if !more {
          break;
        }
      }
      if config.shouldRemove {
        err := RemoveVariableDeclaration(walk, 0);
      } else {
        err := None;
      }
    }
  }
}
