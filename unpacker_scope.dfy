/**
 * The scopes of the constant unpacker (unpacker/scope.ts): a name is bound
 * to a constant at most once per scope, lookup climbs the parent chain, and
 * the final clean-up removes the declarators of the constants that were
 * never used in a way the pass could not replace.
 */
module UnpackerScope {
  import opened Base
  import opened Ast
  import opened ScopeTree
  import opened TraversalHelper
  import opened Constants

  // ---------------------------------------------------------------------
  // Binding names
  // ---------------------------------------------------------------------

  /**
   * `addAlias(constant, name)` on scope `s`: refused when the constant's own
   * name (not the alias) is already bound in that scope, otherwise the alias
   * is bound to the constant. Scopes and constants outside the arena bind nothing.
   */
  function BindAlias(arena: seq<UScope>, consts: seq<Constant>, s: nat, c: nat, name: string): (r: Result<seq<UScope>>)
    ensures s < |arena| && c < |consts| ==> (r.Err? <==> consts[c].name in arena[s].mapping.entries)
    ensures r.Err? ==> s < |arena| && c < |consts| && r.error == AlreadyMapped(Id(consts[c]), consts[c].name)
    ensures !(s < |arena| && c < |consts|) ==> r == Ok(arena)
    ensures r.Ok? && s < |arena| && c < |consts| ==>
              && |r.value| == |arena|
              && r.value[s].mapping.Get(name) == Some(c)
              && (forall m :: m != name ==> r.value[s].mapping.Get(m) == arena[s].mapping.Get(m))
              && r.value[s].node == arena[s].node && r.value[s].parent == arena[s].parent
              && r.value[s].children == arena[s].children
              && (forall j :: 0 <= j < |arena| && j != s ==> r.value[j] == arena[j])
  {
    if s >= |arena| || c >= |consts| then Ok(arena)
    else if consts[c].name in arena[s].mapping.entries then Err(AlreadyMapped(Id(consts[c]), consts[c].name))
    else Ok(arena[s := arena[s].(mapping := arena[s].mapping.Set(name, c))])
  }

  /** `addVariable(constant)`: the alias is the constant's own name, which lookup then finds from that scope. */
  function BindVariable(arena: seq<UScope>, consts: seq<Constant>, s: nat, c: nat): (r: Result<seq<UScope>>)
    ensures s < |arena| && c < |consts| ==> (r.Err? <==> consts[c].name in arena[s].mapping.entries)
    ensures r.Ok? && s < |arena| && c < |consts| ==> FindVariable(r.value, s, consts[c].name) == Some(c)
  {
    if c < |consts| then BindAlias(arena, consts, s, c, consts[c].name) else Ok(arena)
  }

  /** A second constant with the same name cannot be added to the same scope. */
  lemma BindVariableTwiceFails(arena: seq<UScope>, consts: seq<Constant>, s: nat, c: nat, c2: nat)
    requires s < |arena| && c < |consts| && c2 < |consts| && consts[c2].name == consts[c].name
    requires BindVariable(arena, consts, s, c).Ok?
    ensures BindVariable(BindVariable(arena, consts, s, c).value, consts, s, c2) ==
            Err(AlreadyMapped(Id(consts[c2]), consts[c].name))
  {
    var a := BindVariable(arena, consts, s, c).value;
    assert a[s].mapping.Get(consts[c].name) == Some(c);
  }

  /**
   * Only the constant's own name is checked: an alias already bound in the
   * scope is silently rebound to the new constant.
   */
  lemma AliasRebindsBoundAlias(arena: seq<UScope>, consts: seq<Constant>, s: nat, c: nat, name: string)
    requires s < |arena| && c < |consts|
    requires name in arena[s].mapping.entries && consts[c].name !in arena[s].mapping.entries
    ensures BindAlias(arena, consts, s, c, name).Ok?
    ensures FindVariable(BindAlias(arena, consts, s, c, name).value, s, name) == Some(c)
  {
    var a := BindAlias(arena, consts, s, c, name).value;
    assert a[s].mapping.Get(name) == Some(c);
  }

  // ---------------------------------------------------------------------
  // removeVariableDeclaration
  // ---------------------------------------------------------------------

  /** A constant the clean-up deletes: one that no use ever failed to replace. */
  predicate Unused(consts: seq<Constant>, c: nat) {
    c < |consts| && consts[c].overrideCount == 0
  }

  /** The unused constants of one scope's map, in its insertion order. */
  function DeadHere(consts: seq<Constant>, keys: seq<string>, entries: map<string, nat>): seq<nat>
    decreases |keys|
  {
    if keys == [] then []
    else
      var n := |keys| - 1;
      var k := keys[n];
      DeadHere(consts, keys[..n], entries) + if k in entries && Unused(consts, entries[k]) then [entries[k]] else []
  }

  /** A scope contributes exactly the unused constants its map binds. */
  lemma {:induction false} DeadHereMembers(consts: seq<Constant>, keys: seq<string>, entries: map<string, nat>, c: nat)
    ensures c in DeadHere(consts, keys, entries) <==>
            Unused(consts, c) && exists i :: 0 <= i < |keys| && keys[i] in entries && entries[keys[i]] == c
    decreases |keys|
  {
    if keys != [] {
      var n := |keys| - 1;
      var pre := keys[..n];
      DeadHereMembers(consts, pre, entries, c);
      if c in DeadHere(consts, pre, entries) {
        var i :| 0 <= i < |pre| && pre[i] in entries && entries[pre[i]] == c;
        assert keys[i] == pre[i];
      }
      if Unused(consts, c) && exists i :: 0 <= i < |keys| && keys[i] in entries && entries[keys[i]] == c {
        var i :| 0 <= i < |keys| && keys[i] in entries && entries[keys[i]] == c;
        if i < n {
          assert keys[i] == pre[i];
        }
      }
    }
  }

  /** The unused constants of scope `t`. */
  function DeadOf(arena: seq<UScope>, consts: seq<Constant>, t: nat): seq<nat> {
    if t < |arena| then DeadHere(consts, arena[t].mapping.keys, arena[t].mapping.entries) else []
  }

  /** The unused constants of a list of scopes, scope after scope. */
  function DeadIn(arena: seq<UScope>, consts: seq<Constant>, scopes: seq<nat>): seq<nat> {
    Gather((t: nat) => DeadOf(arena, consts, t), scopes)
  }

  lemma DeadInSnoc(arena: seq<UScope>, consts: seq<Constant>, xs: seq<nat>, x: nat)
    ensures DeadIn(arena, consts, xs + [x]) == DeadIn(arena, consts, xs) + DeadOf(arena, consts, x)
  {
    GatherSnoc((t: nat) => DeadOf(arena, consts, t), xs, x);
  }

  lemma DeadInAppend(arena: seq<UScope>, consts: seq<Constant>, a: seq<nat>, b: seq<nat>)
    ensures DeadIn(arena, consts, a + b) == DeadIn(arena, consts, a) + DeadIn(arena, consts, b)
  {
    GatherAppend((t: nat) => DeadOf(arena, consts, t), a, b);
  }

  /** Constant `c` is an unused constant of one of `scopes`. */
  ghost predicate DeadInSome(arena: seq<UScope>, consts: seq<Constant>, scopes: seq<nat>, c: nat) {
    exists k :: 0 <= k < |scopes| && c in DeadOf(arena, consts, scopes[k])
  }

  lemma DeadInMembers(arena: seq<UScope>, consts: seq<Constant>, scopes: seq<nat>, c: nat)
    ensures c in DeadIn(arena, consts, scopes) <==> DeadInSome(arena, consts, scopes, c)
  {
    GatherMembers((t: nat) => DeadOf(arena, consts, t), scopes, c);
  }

  /** The constants removed from scope `s`: its own unused constants, then each child's, depth first. */
  function RemovalOrder(arena: seq<UScope>, consts: seq<Constant>, s: nat): seq<nat> {
    DeadIn(arena, consts, Preorder(arena, s))
  }

  /**
   * `removeVariableDeclaration` deletes exactly the unused constants bound in
   * scope `s` or in a scope of its subtree.
   */
  lemma RemovalTargets(arena: seq<UScope>, consts: seq<Constant>, s: nat, c: nat)
    ensures c in RemovalOrder(arena, consts, s) <==>
            Unused(consts, c) &&
            exists k, i :: 0 <= k < |Preorder(arena, s)| && var t := Preorder(arena, s)[k];
              0 <= i < |arena[t].mapping.keys| && arena[t].mapping.keys[i] in arena[t].mapping.entries &&
              arena[t].mapping.entries[arena[t].mapping.keys[i]] == c
  {
    var ps := Preorder(arena, s);
    DeadInMembers(arena, consts, ps, c);
    if c in RemovalOrder(arena, consts, s) {
      assert DeadInSome(arena, consts, ps, c);
      var k :| 0 <= k < |ps| && c in DeadOf(arena, consts, ps[k]);
      var t := ps[k];
      DeadHereMembers(consts, arena[t].mapping.keys, arena[t].mapping.entries, c);
      var i :| 0 <= i < |arena[t].mapping.keys| && arena[t].mapping.keys[i] in arena[t].mapping.entries &&
               arena[t].mapping.entries[arena[t].mapping.keys[i]] == c;
    }
    if Unused(consts, c) &&
       exists k, i :: 0 <= k < |ps| && var t := ps[k];
         0 <= i < |arena[t].mapping.keys| && arena[t].mapping.keys[i] in arena[t].mapping.entries &&
         arena[t].mapping.entries[arena[t].mapping.keys[i]] == c
    {
      var k, i :| 0 <= k < |ps| && var t := ps[k];
         0 <= i < |arena[t].mapping.keys| && arena[t].mapping.keys[i] in arena[t].mapping.entries &&
         arena[t].mapping.entries[arena[t].mapping.keys[i]] == c;
      DeadHereMembers(consts, arena[ps[k]].mapping.keys, arena[ps[k]].mapping.entries, c);
      assert c in DeadOf(arena, consts, ps[k]);
      assert DeadInSome(arena, consts, ps, c);
    }
  }

  /** `removeNode(constant.parentNode, constant.node)` for one constant. */
  function RemoveStep(walk: Walker, consts: seq<Constant>): (Heap, nat) -> Result<Heap> {
    (h: Heap, c: nat) =>
      if c < |consts| then
        match consts[c].parentNode
        case Some(p) => ReplaceSpec(h, walk(h, p), consts[c].node, Nothing, 1, false)
        case None => Err(TypeError("removeNode on a null root"))
      else Ok(h)
  }

  /** The whole clean-up from scope `s`. */
  function RemoveSpec(walk: Walker, h: Heap, arena: seq<UScope>, consts: seq<Constant>, s: nat): Result<Heap> {
    Fold(RemoveStep(walk, consts), h, RemovalOrder(arena, consts, s))
  }

  /** Removing the declarators of other constants never detaches node `n` from a node `q` holding it. */
  lemma {:induction false} RemovalKeepsOthers(walk: Walker, h: Heap, consts: seq<Constant>, order: seq<nat>, q: NodeId, n: NodeId)
    requires forall k :: 0 <= k < |order| && order[k] < |consts| ==> consts[order[k]].node != n
    requires HoldsChild(h, q, n)
    ensures Fold(RemoveStep(walk, consts), h, order).Ok? ==> HoldsChild(Fold(RemoveStep(walk, consts), h, order).value, q, n)
    decreases |order|
  {
    if order != [] {
      var m := |order| - 1;
      RemovalKeepsOthers(walk, h, consts, order[..m], q, n);
      var c := order[m];
      match Fold(RemoveStep(walk, consts), h, order[..m])
      case Err(_) =>
      case Ok(g) =>
        if c < |consts| && consts[c].parentNode.Some? {
          ReplaceKeepsOtherChildren(g, walk(g, consts[c].parentNode.value), consts[c].node, Nothing, q, n);
        }
    }
  }

  /** The declarator of a constant that is used somewhere stays where it is. */
  lemma UsedConstantsStay(walk: Walker, h: Heap, arena: seq<UScope>, consts: seq<Constant>, s: nat, c: nat, q: NodeId)
    requires c < |consts| && consts[c].overrideCount > 0 && HoldsChild(h, q, consts[c].node)
    requires forall d :: 0 <= d < |consts| && d != c ==> consts[d].node != consts[c].node
    ensures RemoveSpec(walk, h, arena, consts, s).Ok? ==> HoldsChild(RemoveSpec(walk, h, arena, consts, s).value, q, consts[c].node)
  {
    var order := RemovalOrder(arena, consts, s);
    forall k | 0 <= k < |order| && order[k] < |consts| ensures consts[order[k]].node != consts[c].node {
      RemovalTargets(arena, consts, s, order[k]);
    }
    RemovalKeepsOthers(walk, h, consts, order, q, consts[c].node);
  }

  /**
   * The step for a constant detaches its declarator when the recorded parent
   * holds it once, in a list, and the walk of the parent meets it once.
   */
  lemma RemoveStepDetaches(walk: Walker, consts: seq<Constant>, h: Heap, c: nat, pre: seq<Event>, post: seq<Event>, i: nat)
    requires c < |consts| && consts[c].parentNode.Some?
    requires walk(h, consts[c].parentNode.value) == pre + [Enter(consts[c].node, consts[c].parentNode)] + post
    requires HeldOnceInList(h, consts[c].parentNode.value, consts[c].node, i)
    requires forall k :: 0 <= k < |pre| ==> !EntersTarget(pre[k], consts[c].node)
    requires forall k :: 0 <= k < |post| ==> !EntersTarget(post[k], consts[c].node)
    ensures RemoveStep(walk, consts)(h, c).Ok?
    ensures !HoldsChild(RemoveStep(walk, consts)(h, c).value, consts[c].parentNode.value, consts[c].node)
  {
    RemoveDetaches(h, pre, consts[c].parentNode.value, post, consts[c].node, i);
  }

  /** A declarator no longer held by a node is not put back by any later removal. */
  lemma RemovalKeepsDetached(walk: Walker, h: Heap, consts: seq<Constant>, order: seq<nat>, q: NodeId, n: NodeId)
    requires !HoldsChild(h, q, n)
    ensures Fold(RemoveStep(walk, consts), h, order).Ok? ==> !HoldsChild(Fold(RemoveStep(walk, consts), h, order).value, q, n)
  {
    var step := RemoveStep(walk, consts);
    var P := (g: Heap) => !HoldsChild(g, q, n);
    forall g: Heap, c: nat | P(g) && step(g, c).Ok? ensures P(step(g, c).value) {
      if c < |consts| && consts[c].parentNode.Some? {
        RemoveNeverAttaches(g, walk(g, consts[c].parentNode.value), consts[c].node, q, n);
      }
    }
    FoldKeeps(step, P, h, order);
  }

  /**
   * The clean-up detaches an unused constant's declarator from its recorded
   * parent: when its turn comes, at position `k` of the removal order, the
   * parent holds it once, in a list, and the walk meets it once; it is gone
   * from the parent at the end.
   */
  lemma RemoveSpecDetaches(walk: Walker, h: Heap, arena: seq<UScope>, consts: seq<Constant>, s: nat, k: nat, g: Heap,
                           pre: seq<Event>, post: seq<Event>, i: nat)
    requires k < |RemovalOrder(arena, consts, s)|
    requires Fold(RemoveStep(walk, consts), h, RemovalOrder(arena, consts, s)[..k]) == Ok(g)
    requires var c := RemovalOrder(arena, consts, s)[k];
      && c < |consts| && consts[c].parentNode.Some?
      && walk(g, consts[c].parentNode.value) == pre + [Enter(consts[c].node, consts[c].parentNode)] + post
      && HeldOnceInList(g, consts[c].parentNode.value, consts[c].node, i)
      && (forall j :: 0 <= j < |pre| ==> !EntersTarget(pre[j], consts[c].node))
      && (forall j :: 0 <= j < |post| ==> !EntersTarget(post[j], consts[c].node))
    ensures var c := RemovalOrder(arena, consts, s)[k];
      Unused(consts, c) &&
      (RemoveSpec(walk, h, arena, consts, s).Ok? ==>
         !HoldsChild(RemoveSpec(walk, h, arena, consts, s).value, consts[c].parentNode.value, consts[c].node))
  {
    var order := RemovalOrder(arena, consts, s);
    var c := order[k];
    var step := RemoveStep(walk, consts);
    RemovalTargets(arena, consts, s, c);
    RemoveStepDetaches(walk, consts, g, c, pre, post, i);
    FoldStep(step, h, order[..k], c, g);
    TakeSnoc(order, k);
    FoldAppend(step, h, order[..k + 1], order[k + 1..]);
    assert order[..k + 1] + order[k + 1..] == order;
    RemovalKeepsDetached(walk, step(g, c).value, consts, order[k + 1..], consts[c].parentNode.value, consts[c].node);
  }

  // ---------------------------------------------------------------------
  // How the removal order unfolds along the recursion
  // ---------------------------------------------------------------------

  lemma RemovalOrderSplit(arena: seq<UScope>, consts: seq<Constant>, s: nat)
    requires s < |arena|
    ensures RemovalOrder(arena, consts, s) ==
            DeadOf(arena, consts, s) + DeadIn(arena, consts, PreorderChildren(arena, s, arena[s].children.keys))
  {
    var pc := PreorderChildren(arena, s, arena[s].children.keys);
    assert DeadIn(arena, consts, [s]) == DeadOf(arena, consts, s) by {
      assert [] + [s] == [s];
      DeadInSnoc(arena, consts, [], s);
    }
    DeadInAppend(arena, consts, [s], pc);
  }

  lemma DeadHerePrefix(consts: seq<Constant>, keys: seq<string>, entries: map<string, nat>, m: nat)
    requires m <= |keys|
    ensures DeadHere(consts, keys[..m], entries) <= DeadHere(consts, keys, entries)
    decreases |keys|
  {
    if m < |keys| {
      var n := |keys| - 1;
      assert keys[..n][..m] == keys[..m];
      DeadHerePrefix(consts, keys[..n], entries, m);
    } else {
      assert keys[..m] == keys;
    }
  }

  lemma DeadInPrefix(arena: seq<UScope>, consts: seq<Constant>, a: seq<nat>, b: seq<nat>)
    requires a <= b
    ensures DeadIn(arena, consts, a) <= DeadIn(arena, consts, b)
  {
    assert b == a + b[|a|..];
    DeadInAppend(arena, consts, a, b[|a|..]);
  }

  /** One more child handled by the second loop of the removal. */
  lemma ChildrenStep(arena: seq<UScope>, consts: seq<Constant>, s: nat, keys: seq<NodeId>, j: nat)
    requires s < |arena| && j < |keys|
    ensures var before := DeadIn(arena, consts, PreorderChildren(arena, s, keys[..j]));
            var after := DeadIn(arena, consts, PreorderChildren(arena, s, keys[..j + 1]));
            match arena[s].children.Get(keys[j])
            case Some(c) => after == before + (if s < c < |arena| then RemovalOrder(arena, consts, c) else [])
            case None => after == before
  {
    assert keys[..j + 1][..j] == keys[..j];
    var pre := PreorderChildren(arena, s, keys[..j]);
    match arena[s].children.Get(keys[j])
    case Some(c) =>
      if s < c < |arena| {
        DeadInAppend(arena, consts, pre, Preorder(arena, c));
      }
    case None =>
  }

  // ---------------------------------------------------------------------
  // The scopes, updated in place
  // ---------------------------------------------------------------------

  /**
   * Every `Scope` object of one unpacker run and the constants they bind.
   * The global scope, index 0, is the one built for the whole program.
   */
  class Scopes {
    var arena: seq<UScope>
    var constants: seq<Constant>

    /** `new Scope(ast)`: the global scope, with no parent. */
    constructor (root: NodeId)
      ensures arena == [Scope(root, None, EmptyMap(), EmptyMap())] && constants == []
    {
      arena := [Scope(root, None, EmptyMap(), EmptyMap())];
      constants := [];
    }

    /** `new Scope(node, parent)`: a new scope, registered in its parent's children under its node. */
    method NewScope(node: NodeId, parent: nat) returns (s: nat)
      modifies this
      ensures arena == Register(old(arena), node, Some(parent)) && s == |old(arena)|
      ensures constants == old(constants)
    {
      s := |arena|;
      arena := Register(arena, node, Some(parent));
    }

    /** `new RArray(...)` / `new RValue(...)`: the constant object is created; nothing binds it yet. */
    method AddConstant(c: Constant) returns (ci: nat)
      modifies this
      ensures constants == old(constants) + [c] && ci == |old(constants)| && arena == old(arena)
    {
      ci := |constants|;
      constants := constants + [c];
    }

    /** `scope.addAlias(constant, name)`. */
    method AddAlias(s: nat, c: nat, name: string) returns (err: Option<Error>)
      modifies this
      ensures constants == old(constants)
      ensures match BindAlias(old(arena), old(constants), s, c, name)
        case Ok(a) => err.None? && arena == a
        case Err(e) => err == Some(e) && arena == old(arena)
    {
      match BindAlias(arena, constants, s, c, name)
      case Ok(a) => arena := a; err := None;
      case Err(e) => err := Some(e);
    }

    /** `scope.addVariable(constant)`. */
    method AddVariable(s: nat, c: nat) returns (err: Option<Error>)
      modifies this
      ensures constants == old(constants)
      ensures match BindVariable(old(arena), old(constants), s, c)
        case Ok(a) => err.None? && arena == a
        case Err(e) => err == Some(e) && arena == old(arena)
    {
      if c < |constants| {
        err := AddAlias(s, c, constants[c].name);
      } else {
        err := None;
      }
    }

    /** `constant.overrideCount++`. */
    method BumpOverride(c: nat)
      requires c < |constants|
      modifies this
      ensures constants == Bump(old(constants), c) && arena == old(arena)
    {
      constants := Bump(constants, c);
    }

    /** `TraversalHelper.removeNode(constant.parentNode, constant.node)`. */
    method RemoveDeclarator(tree: Tree, walk: Walker, c: nat) returns (err: Option<Error>)
      requires tree.Valid()
      modifies tree
      ensures tree.Valid() && tree.next == old(tree.next) && tree.nodes.Keys == old(tree.nodes).Keys
      ensures match RemoveStep(walk, constants)(old(tree.nodes), c)
        case Ok(h) => err.None? && tree.nodes == h
        case Err(e) => err == Some(e)
    {
      if c >= |constants| {
        return None;
      }
      match constants[c].parentNode
      case None => err := Some(TypeError("removeNode on a null root"));
      case Some(p) => err := tree.RemoveNode(walk, p, constants[c].node);
    }

    /** The first loop of `removeVariableDeclaration`: the scope's own unused constants, in map order. */
    method RemoveHere(tree: Tree, walk: Walker, s: nat) returns (err: Option<Error>)
      requires tree.Valid() && s < |arena|
      modifies tree
      ensures tree.Valid() && tree.next == old(tree.next) && tree.nodes.Keys == old(tree.nodes).Keys
      ensures match Fold(RemoveStep(walk, constants), old(tree.nodes), DeadOf(arena, constants, s))
        case Ok(h) => err.None? && tree.nodes == h
        case Err(e) => err == Some(e)
    {
      ghost var h0 := tree.nodes;
      ghost var step := RemoveStep(walk, constants);
      var keys := arena[s].mapping.keys;
      var entries := arena[s].mapping.entries;
      var i := 0;
      while i < |keys|
        invariant 0 <= i <= |keys|
        invariant tree.Valid() && tree.next == old(tree.next) && tree.nodes.Keys == h0.Keys
        invariant Fold(step, h0, DeadHere(constants, keys[..i], entries)) == Ok(tree.nodes)
      {
        assert keys[..i + 1][..i] == keys[..i];
        var k := keys[i];
        var pre := DeadHere(constants, keys[..i], entries);
        if k in entries && Unused(constants, entries[k]) {
          var c := entries[k];
          assert DeadHere(constants, keys[..i + 1], entries) == pre + [c];
          FoldStep(step, h0, pre, c, tree.nodes);
          err := RemoveDeclarator(tree, walk, c);
          if err.Some? {
            DeadHerePrefix(constants, keys, entries, i + 1);
            FoldErrPrefix(step, h0, pre + [c], DeadHere(constants, keys, entries));
            return;
          }
        } else {
          assert DeadHere(constants, keys[..i + 1], entries) == pre + [];
          assert pre + [] == pre;
        }
        i := i + 1;
      }
      assert keys[..i] == keys;
      err := None;
    }

    /** The second loop of `removeVariableDeclaration`: every child scope, in children order. */
    method RemoveChildren(tree: Tree, walk: Walker, s: nat) returns (err: Option<Error>)
      requires tree.Valid() && s < |arena|
      modifies tree
      ensures tree.Valid() && tree.next == old(tree.next) && tree.nodes.Keys == old(tree.nodes).Keys
      ensures match Fold(RemoveStep(walk, constants), old(tree.nodes), DeadIn(arena, constants, PreorderChildren(arena, s, arena[s].children.keys)))
        case Ok(h) => err.None? && tree.nodes == h
        case Err(e) => err == Some(e)
      decreases |arena| - s, 0
    {
      ghost var h0 := tree.nodes;
      ghost var step := RemoveStep(walk, constants);
      var ckeys := arena[s].children.keys;
      ghost var all := DeadIn(arena, constants, PreorderChildren(arena, s, ckeys));
      var j := 0;
      assert ckeys[..0] == [];
      assert DeadIn(arena, constants, PreorderChildren(arena, s, ckeys[..0])) == [];
      while j < |ckeys|
        decreases |ckeys| - j
        invariant 0 <= j <= |ckeys|
        invariant tree.Valid() && tree.next == old(tree.next) && tree.nodes.Keys == h0.Keys
        invariant Fold(step, h0, DeadIn(arena, constants, PreorderChildren(arena, s, ckeys[..j]))) == Ok(tree.nodes)
      {
        ChildrenStep(arena, constants, s, ckeys, j);
        ghost var done := DeadIn(arena, constants, PreorderChildren(arena, s, ckeys[..j]));
        ghost var next := DeadIn(arena, constants, PreorderChildren(arena, s, ckeys[..j + 1]));
        var child := arena[s].children.Get(ckeys[j]);
        if child.Some? && s < child.value < |arena| {
          var c := child.value;
          assert next == done + RemovalOrder(arena, constants, c);
          err := RemoveVariableDeclaration(tree, walk, c);
          FoldAppend(step, h0, done, RemovalOrder(arena, constants, c));
          if err.Some? {
            PreorderChildrenPrefix(arena, s, ckeys, j + 1);
            DeadInPrefix(arena, constants, PreorderChildren(arena, s, ckeys[..j + 1]), PreorderChildren(arena, s, ckeys));
            FoldErrPrefix(step, h0, next, all);
            return;
          }
        } else {
          assert next == done;
        }
        j := j + 1;
      }
      assert ckeys[..j] == ckeys;
      err := None;
    }

    /**
     * `removeVariableDeclaration()` on scope `s`: the declarators of the
     * scope's unused constants in map order, then each child scope's in
     * children order. On an error the run is aborted.
     */
    method RemoveVariableDeclaration(tree: Tree, walk: Walker, s: nat) returns (err: Option<Error>)
      requires tree.Valid()
      modifies tree
      ensures tree.Valid() && tree.next == old(tree.next) && tree.nodes.Keys == old(tree.nodes).Keys
      ensures match RemoveSpec(walk, old(tree.nodes), arena, constants, s)
        case Ok(h) => err.None? && tree.nodes == h
        case Err(e) => err == Some(e)
      decreases |arena| - s, 1
    {
      if s >= |arena| {
        return None;
      }
      ghost var h0 := tree.nodes;
      ghost var step := RemoveStep(walk, constants);
      ghost var order := RemovalOrder(arena, constants, s);
      RemovalOrderSplit(arena, constants, s);
      err := RemoveHere(tree, walk, s);
      if err.Some? {
        FoldErrPrefix(step, h0, DeadOf(arena, constants, s), order);
        return;
      }
      ghost var mid := tree.nodes;
      err := RemoveChildren(tree, walk, s);
      FoldAppend(step, h0, DeadOf(arena, constants, s), DeadIn(arena, constants, PreorderChildren(arena, s, arena[s].children.keys)));
      if err.Some? {
        return;
      }
      err := None;
    }
  }
}
