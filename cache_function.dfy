/**
 * A cache function and its replacement (caches/cacheFunction.ts). A cache
 * function overrides itself on its first call (`name = function (...) {...}`)
 * and then returns a call of itself. `makeReplacement` turns the override
 * into a `let name = function ...` declaration, drops the self-calling
 * returns and puts the function's statements where the function was.
 */
module CacheFunction {
  import opened Base
  import opened Ast
  import opened TraversalHelper

  /**
   * A discovered cache function: its node, the parent it was met under, its
   * scope, its name, the statement holding the override and the returns to
   * drop. The random `id` is not modelled.
   */
  datatype CacheFn = CacheFn(node: NodeId, parentNode: Option<NodeId>, scope: nat, name: string,
                             assignment: NodeId, selfReturns: seq<NodeId>)

  /**
   * The check at the head of `makeReplacement`: the statement's expression
   * must be an assignment of a function expression, which is returned. A
   * missing expression is a `TypeError` (reading `.type` of null), a wrong
   * kind the pass's own error.
   */
  function OverridingFunction(h: Heap, a: NodeId): (r: Result<NodeId>)
    ensures r.Ok? <==>
              var x := Child(h, a, "expression");
              x.Some? && KindOf(h, x.value) == "AssignmentExpression" &&
              HasKind(h, Child(h, x.value, "expression"), "FunctionExpression")
    ensures r.Ok? ==> Child(h, Child(h, a, "expression").value, "expression") == Some(r.value)
    ensures r == Err(NotFunctionExpression) <==>
              var x := Child(h, a, "expression");
              x.Some? &&
              (KindOf(h, x.value) != "AssignmentExpression" ||
               (Child(h, x.value, "expression").Some? && KindOf(h, Child(h, x.value, "expression").value) != "FunctionExpression"))
    ensures r.Err? && r.error != NotFunctionExpression ==> r.error.TypeError?
  {
    match Child(h, a, "expression")
    case None => Err(TypeError("the override statement has no expression"))
    case Some(x) =>
      if KindOf(h, x) != "AssignmentExpression" then Err(NotFunctionExpression)
      else
        match Child(h, x, "expression")
        case None => Err(TypeError("the assignment has no expression"))
        case Some(fe) => if KindOf(h, fe) != "FunctionExpression" then Err(NotFunctionExpression) else Ok(fe)
  }

  /** The nodes of the `let name = init;` statement `makeReplacement` builds, innermost first. */
  function BindingRec(name: string): NodeRec {
    NodeRec("BindingIdentifier", [], map["name" := Text(name)])
  }

  function DeclaratorRec(binding: NodeId, init: NodeId): NodeRec {
    NodeRec("VariableDeclarator", [Field("binding", Scalar(Some(binding))), Field("init", Scalar(Some(init)))], map[])
  }

  function DeclarationRec(declarator: NodeId): NodeRec {
    NodeRec("VariableDeclaration", [Field("declarators", List([Some(declarator)]))], map["kind" := Text("let")])
  }

  function StatementRec(declaration: NodeId): NodeRec {
    NodeRec("VariableDeclarationStatement", [Field("declaration", Scalar(Some(declaration)))], map[])
  }

  /**
   * The statement's four nodes given fresh ids from `next` in construction
   * order: the binding, the declarator, the declaration and, at `next + 3`,
   * the statement.
   */
  function LetNodes(h: Heap, next: NodeId, name: string, init: NodeId): Heap {
    h[next := BindingRec(name)][next + 1 := DeclaratorRec(next, init)]
     [next + 2 := DeclarationRec(next + 1)][next + 3 := StatementRec(next + 2)]
  }

  /**
   * The new statement declares, with `let`, exactly one variable: `name`,
   * initialised with the overriding function; the existing nodes are untouched.
   */
  lemma LetDeclares(h: Heap, next: NodeId, name: string, init: NodeId)
    requires forall n :: n in h ==> n < next
    ensures var g := LetNodes(h, next, name, init);
      && KindOf(g, next + 3) == "VariableDeclarationStatement"
      && Child(g, next + 3, "declaration") == Some(next + 2)
      && KindOf(g, next + 2) == "VariableDeclaration"
      && TextOf(g, next + 2, "kind") == Some("let")
      && ListOf(g, next + 2, "declarators") == [Some(next + 1)]
      && IsNamedDeclarator(g, next + 1)
      && BindingName(g, next + 1) == name
      && Child(g, next + 1, "init") == Some(init)
      && (forall n :: n in h ==> n in g && g[n] == h[n])
  {
    var g := LetNodes(h, next, name, init);
    var fs := DeclaratorRec(next, init).fields;
    assert g[next + 1].fields == fs;
    assert fs[1..] == [Field("init", Scalar(Some(init)))];
    assert SlotOf(fs, "binding") == Some(Scalar(Some(next)));
    assert SlotOf(fs, "init") == Some(Scalar(Some(init)));
  }

  /** One `returns.forEach` step: `removeNode(this.node.body, r)`, the body read afresh. */
  function ReturnStep(walk: Walker, fn: NodeId): (Heap, NodeId) -> Result<Heap> {
    (h: Heap, r: NodeId) =>
      match Child(h, fn, "body")
      case None => Err(TypeError("the function has no body to traverse"))
      case Some(b) => ReplaceSpec(h, walk(h, b), r, Nothing, 1, false)
  }

  /** `this.returns.forEach(r => removeNode(this.node.body, r))`. */
  function RemoveReturns(walk: Walker, h: Heap, fn: NodeId, selfReturns: seq<NodeId>): Result<Heap> {
    Fold(ReturnStep(walk, fn), h, selfReturns)
  }

  /**
   * `replaceNode(this.parentNode, this.node, this.node.body.statements)`: the
   * function is replaced by the statements of its body, spliced into a list
   * property of its parent. The statements are read before the traversal.
   */
  function SpliceBody(walk: Walker, h: Heap, f: CacheFn): Result<Heap> {
    match Child(h, f.node, "body")
    case None => Err(TypeError("the function has no body"))
    case Some(b) =>
      match f.parentNode
      case None => Err(TypeError("replaceNode on a null root"))
      case Some(p) => ReplaceSpec(h, walk(h, p), f.node, Many(ListOf(h, b, "statements")), 1, false)
  }

  /** The part of `makeReplacement` after the override: the returns removed, then the body spliced in. */
  function AfterOverride(walk: Walker, h: Heap, f: CacheFn): Result<Heap> {
    match RemoveReturns(walk, h, f.node, f.selfReturns)
    case Err(e) => Err(e)
    case Ok(h') => SpliceBody(walk, h', f)
  }

  /**
   * `makeReplacement` on heap `h` with fresh ids from `next`: the override
   * check, the `let` statement in place of the override statement (walking
   * the function), the returns removed, the body spliced in. The result is the
   * new heap and the next fresh id.
   */
  function Unrolled(walk: Walker, h: Heap, next: NodeId, f: CacheFn): Result<(Heap, NodeId)> {
    match OverridingFunction(h, f.assignment)
    case Err(e) => Err(e)
    case Ok(fe) =>
      var h1 := LetNodes(h, next, f.name, fe);
      match ReplaceSpec(h1, walk(h1, f.node), f.assignment, One(next + 3), 1, false)
      case Err(e) => Err(e)
      case Ok(h2) =>
        match AfterOverride(walk, h2, f)
        case Err(e) => Err(e)
        case Ok(h4) => Ok((h4, next + 4))
  }

  /** Removing the returns raises only what `replaceNode` raises. */
  lemma RemoveReturnsRaises(walk: Walker, h: Heap, fn: NodeId, selfReturns: seq<NodeId>)
    ensures RemoveReturns(walk, h, fn, selfReturns).Err? ==> RaisedByReplace(RemoveReturns(walk, h, fn, selfReturns).error)
  {
    var step := ReturnStep(walk, fn);
    forall g: Heap, r: NodeId | step(g, r).Err? ensures RaisedByReplace(step(g, r).error) {
      if Child(g, fn, "body").Some? {
        var b := Child(g, fn, "body").value;
        ReplaceRaises(g, walk(g, b), r, Nothing, 1, false);
      }
    }
    FoldRaises(step, RaisedByReplace, h, selfReturns);
  }

  /**
   * The pass's own error is raised exactly when the override statement does
   * not assign a function expression; every later failure is a `TypeError`
   * or a list put into a single-node property.
   */
  lemma NotFunctionExactly(walk: Walker, h: Heap, next: NodeId, f: CacheFn)
    ensures Unrolled(walk, h, next, f) == Err(NotFunctionExpression) <==>
              OverridingFunction(h, f.assignment) == Err(NotFunctionExpression)
    ensures Unrolled(walk, h, next, f).Err? && OverridingFunction(h, f.assignment).Ok? ==>
              RaisedByReplace(Unrolled(walk, h, next, f).error)
  {
    match OverridingFunction(h, f.assignment)
    case Err(_) =>
    case Ok(fe) =>
      var h1 := LetNodes(h, next, f.name, fe);
      ReplaceRaises(h1, walk(h1, f.node), f.assignment, One(next + 3), 1, false);
      match ReplaceSpec(h1, walk(h1, f.node), f.assignment, One(next + 3), 1, false)
      case Err(_) =>
      case Ok(h2) =>
        RemoveReturnsRaises(walk, h2, f.node, f.selfReturns);
        match RemoveReturns(walk, h2, f.node, f.selfReturns)
        case Err(_) =>
        case Ok(h3) =>
          match Child(h3, f.node, "body")
          case None =>
          case Some(b) =>
            if f.parentNode.Some? {
              ReplaceRaises(h3, walk(h3, f.parentNode.value), f.node, Many(ListOf(h3, b, "statements")), 1, false);
            }
  }

  /** Removing returns other than `n` keeps `n` a child of every node that held it. */
  lemma {:induction false} ReturnsKeepOthers(walk: Walker, h: Heap, fn: NodeId, selfReturns: seq<NodeId>, q: NodeId, n: NodeId)
    requires n !in selfReturns && HoldsChild(h, q, n)
    ensures RemoveReturns(walk, h, fn, selfReturns).Ok? ==> HoldsChild(RemoveReturns(walk, h, fn, selfReturns).value, q, n)
    decreases |selfReturns|
  {
    if selfReturns != [] {
      var m := |selfReturns| - 1;
      assert selfReturns[..m] + [selfReturns[m]] == selfReturns;
      ReturnsKeepOthers(walk, h, fn, selfReturns[..m], q, n);
      match RemoveReturns(walk, h, fn, selfReturns[..m])
      case Err(_) =>
      case Ok(g) =>
        if Child(g, fn, "body").Some? {
          ReplaceKeepsOtherChildren(g, walk(g, Child(g, fn, "body").value), selfReturns[m], Nothing, q, n);
        }
    }
  }

  /**
   * The replacement takes out only the override statement, the listed
   * returns and the function itself: every other node stays a child of every
   * node that held it.
   */
  lemma UnrolledKeepsOthers(walk: Walker, h: Heap, next: NodeId, f: CacheFn, q: NodeId, n: NodeId)
    requires forall m :: m in h ==> m < next
    requires n != f.assignment && n != f.node && n !in f.selfReturns && HoldsChild(h, q, n)
    ensures Unrolled(walk, h, next, f).Ok? ==> HoldsChild(Unrolled(walk, h, next, f).value.0, q, n)
  {
    match OverridingFunction(h, f.assignment)
    case Err(_) =>
    case Ok(fe) =>
      var h1 := LetNodes(h, next, f.name, fe);
      LetDeclares(h, next, f.name, fe);
      assert HoldsChild(h1, q, n) by {
        assert h1[q] == h[q];
      }
      ReplaceKeepsOtherChildren(h1, walk(h1, f.node), f.assignment, One(next + 3), q, n);
      match ReplaceSpec(h1, walk(h1, f.node), f.assignment, One(next + 3), 1, false)
      case Err(_) =>
      case Ok(h2) =>
        ReturnsKeepOthers(walk, h2, f.node, f.selfReturns, q, n);
        match RemoveReturns(walk, h2, f.node, f.selfReturns)
        case Err(_) =>
        case Ok(h3) =>
          match Child(h3, f.node, "body")
          case None =>
          case Some(b) =>
            if f.parentNode.Some? {
              ReplaceKeepsOtherChildren(h3, walk(h3, f.parentNode.value), f.node, Many(ListOf(h3, b, "statements")), q, n);
            }
  }

  /**
   * When the walk from the parent meets the function once, below `d`, the
   * function's place in `d`'s list is taken by the body's statements, in order.
   */
  lemma SpliceBodyInList(walk: Walker, h: Heap, f: CacheFn, d: NodeId, pre: seq<Event>, post: seq<Event>, i: nat)
    requires f.parentNode.Some? && Child(h, f.node, "body").Some?
    requires walk(h, f.parentNode.value) == pre + [Enter(f.node, Some(d))] + post
    requires forall k :: 0 <= k < |pre| ==> !EntersTarget(pre[k], f.node)
    requires forall k :: 0 <= k < |post| ==> !EntersTarget(post[k], f.node)
    requires d in h && |h[d].fields| == 1 && h[d].fields[0].slot.List?
    requires var a := h[d].fields[0].slot.items; i < |a| && a[i] == Some(f.node) && Some(f.node) !in a[..i]
    ensures var a := h[d].fields[0].slot.items;
      var stmts := ListOf(h, Child(h, f.node, "body").value, "statements");
      SpliceBody(walk, h, f) ==
        Ok(h[d := h[d].(fields := [Field(h[d].fields[0].name, List(a[..i] + stmts + a[i + 1..]))])])
  {
    var a := h[d].fields[0].slot.items;
    var stmts := ListOf(h, Child(h, f.node, "body").value, "statements");
    ReplaceAtSingleVisit(h, pre, d, post, f.node, Many(stmts), 1, false);
    SpliceAtFirstIndex(a, f.node, i, Many(stmts), 1, false);
    var fs := h[d].fields;
    assert Min(i + 1, |a|) == i + 1;
    assert EditSlot(fs[0].slot, f.node, Many(stmts), 1, false) == Some(List(a[..i] + stmts + a[i + 1..]));
    assert fs[..0] == [];
    assert EditFields(fs[..0], h[d].kind, f.node, Many(stmts), 1, false) == Ok([]);
    var x := Field(fs[0].name, List(a[..i] + stmts + a[i + 1..]));
    assert [] + [x] == [x];
    assert |fs| - 1 == 0;
    assert EditFields(fs, h[d].kind, f.node, Many(stmts), 1, false)
        == Ok([Field(fs[0].name, List(a[..i] + stmts + a[i + 1..]))]);
  }

  /**
   * A function met as the initialiser of a declarator (the `var name =
   * function ...` form) cannot be replaced by a list of statements: the
   * splice raises on the declarator's `init` property.
   */
  lemma SpliceBodyIntoInitRaises(walk: Walker, h: Heap, f: CacheFn, d: NodeId, b: NodeId, pre: seq<Event>, post: seq<Event>)
    requires f.parentNode.Some? && Child(h, f.node, "body").Some? && b != f.node
    requires walk(h, f.parentNode.value) == pre + [Enter(f.node, Some(d))] + post
    requires forall k :: 0 <= k < |pre| ==> !EntersTarget(pre[k], f.node)
    requires d in h && h[d].kind == "VariableDeclarator"
    requires h[d].fields == [Field("binding", Scalar(Some(b))), Field("init", Scalar(Some(f.node)))]
    ensures SpliceBody(walk, h, f) == Err(ArrayIntoScalar("init", "VariableDeclarator"))
  {
    var stmts := ListOf(h, Child(h, f.node, "body").value, "statements");
    var step := VisitStep(f.node, Many(stmts), 1, false);
    EditFieldsFirstError(h[d].fields, h[d].kind, f.node, Many(stmts), 1, false, 1);
    ReplaceIgnoresOthers(h, pre, f.node, Many(stmts), 1, false);
    FoldSnoc(step, h, pre, Enter(f.node, Some(d)));
    FoldAppend(step, h, pre + [Enter(f.node, Some(d))], post);
  }

  /** The four `new Shift...` calls, allocated on the tree; the statement's id is returned. */
  method AllocLet(tree: Tree, name: string, init: NodeId) returns (statement: NodeId)
    requires tree.Valid()
    modifies tree
    ensures tree.Valid() && tree.next == old(tree.next) + 4 && statement == old(tree.next) + 3
    ensures tree.nodes == LetNodes(old(tree.nodes), old(tree.next), name, init)
  {
    var binding := tree.Alloc(BindingRec(name));
    var declarator := tree.Alloc(DeclaratorRec(binding, init));
    var declaration := tree.Alloc(DeclarationRec(declarator));
    statement := tree.Alloc(StatementRec(declaration));
  }

  /** `returns.forEach(r => removeNode(this.node.body, r))` on the tree. */
  method RemoveReturnsOn(walk: Walker, tree: Tree, fn: NodeId, selfReturns: seq<NodeId>) returns (err: Option<Error>)
    requires tree.Valid()
    modifies tree
    ensures tree.Valid() && tree.next == old(tree.next)
    ensures match RemoveReturns(walk, old(tree.nodes), fn, selfReturns)
      case Ok(h) => err.None? && tree.nodes == h
      case Err(e) => err == Some(e)
  {
    ghost var h0 := tree.nodes;
    var step := ReturnStep(walk, fn);
    var i := 0;
    while i < |selfReturns|
      invariant 0 <= i <= |selfReturns|
      invariant tree.Valid() && tree.next == old(tree.next)
      invariant Fold(step, h0, selfReturns[..i]) == Ok(tree.nodes)
    {
      FoldStep(step, h0, selfReturns[..i], selfReturns[i], tree.nodes);
      assert selfReturns[..i + 1] == selfReturns[..i] + [selfReturns[i]];
      var body := Child(tree.nodes, fn, "body");
      if body.None? {
        FoldErrPrefix(step, h0, selfReturns[..i + 1], selfReturns);
        return Some(TypeError("the function has no body to traverse"));
      }
      err := tree.RemoveNode(walk, body.value, selfReturns[i]);
      if err.Some? {
        FoldErrPrefix(step, h0, selfReturns[..i + 1], selfReturns);
        return;
      }
      i := i + 1;
    }
    assert selfReturns[..i] == selfReturns;
    err := None;
  }

  /** The returns removed and the body spliced in, on the tree. */
  method FinishReplacement(walk: Walker, tree: Tree, f: CacheFn) returns (err: Option<Error>)
    requires tree.Valid()
    modifies tree
    ensures tree.Valid() && tree.next == old(tree.next)
    ensures match AfterOverride(walk, old(tree.nodes), f)
      case Ok(h) => err.None? && tree.nodes == h
      case Err(e) => err == Some(e)
  {
    err := RemoveReturnsOn(walk, tree, f.node, f.selfReturns);
    if err.Some? {
      return;
    }
    var body := Child(tree.nodes, f.node, "body");
    if body.None? {
      return Some(TypeError("the function has no body"));
    }
    if f.parentNode.None? {
      return Some(TypeError("replaceNode on a null root"));
    }
    err := tree.ReplaceNode(walk, f.parentNode.value, f.node, Many(ListOf(tree.nodes, body.value, "statements")), 1, false);
  }

  /**
   * `makeReplacement` on the tree: the new nodes take the next fresh ids, and
   * the tree ends as `Unrolled` says or the pass stops with its error.
   */
  method MakeReplacement(walk: Walker, tree: Tree, f: CacheFn) returns (err: Option<Error>)
    requires tree.Valid()
    modifies tree
    ensures tree.Valid()
    ensures match Unrolled(walk, old(tree.nodes), old(tree.next), f)
      case Ok((h, next)) => err.None? && tree.nodes == h && tree.next == next
      case Err(e) => err == Some(e)
  {
    var check := OverridingFunction(tree.nodes, f.assignment);
    if check.Err? {
      return Some(check.error);
    }
    var statement := AllocLet(tree, f.name, check.value);
    err := tree.ReplaceNode(walk, f.node, f.assignment, One(statement), 1, false);
    if err.Some? {
      return;
    }
    err := FinishReplacement(walk, tree, f);
  }
}
