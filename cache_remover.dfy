/**
 * The cache-function pass (caches/cacheRemover.ts). A cache function is a
 * function declared with a name, or a `var name = function ...` declarator,
 * that reassigns its own name to a new function with as many parameters
 * (the override) and whose returns all call it again with its own
 * parameters. The pass finds them per scope, records and removes aliases
 * (`var g = f`), then unrolls each one with `makeReplacement`.
 */
module CacheRemover {
  import opened Base
  import opened Ast
  import opened ScopeTree
  import opened TraversalHelper
  import opened CacheScope
  import opened CacheFunction

  /** `isVariableAssignment(node, type)`: a named declarator whose initialiser has the given kind. */
  predicate IsVariableAssignment(h: Heap, n: NodeId, kind: string) {
    IsNamedDeclarator(h, n) && KindOf(h, Child(h, n, "init").value) == kind
  }

  /** `func.params.items`; a function without parameters node reads as having none. */
  function ParamsOf(h: Heap, fn: NodeId): seq<Option<NodeId>> {
    match Child(h, fn, "params")
    case None => []
    case Some(p) => ListOf(h, p, "items")
  }

  /** A name attribute, `''` when there is none. */
  function NameAttr(h: Heap, n: Option<NodeId>): string {
    if n.Some? && TextOf(h, n.value, "name").Some? then TextOf(h, n.value, "name").value else ""
  }

  // ---------------------------------------------------------------------
  // findOverrideItself
  // ---------------------------------------------------------------------

  /** `name = function (...) {...}` with as many parameters as the function `fn` itself. */
  predicate OverrideMatches(h: Heap, name: string, fn: NodeId, n: NodeId) {
    && KindOf(h, n) == "AssignmentExpression"
    && HasKind(h, Child(h, n, "expression"), "FunctionExpression")
    && |ParamsOf(h, fn)| == |ParamsOf(h, Child(h, n, "expression").value)|
    && HasKind(h, Child(h, n, "binding"), "AssignmentTargetIdentifier")
    && TextOf(h, Child(h, n, "binding").value, "name") == Some(name)
  }

  /**
   * The parent of the last entered node that `matches`, or nothing when none
   * does; a null parent reads as nothing.
   */
  function LastParent(matches: NodeId -> bool, es: seq<Event>): (r: Option<NodeId>)
    ensures r.Some? ==> exists k :: 0 <= k < |es| && es[k].Enter? && matches(es[k].node) && es[k].parent == r &&
                                    forall j :: k < j < |es| ==> !(es[j].Enter? && matches(es[j].node))
    ensures (forall k :: 0 <= k < |es| ==> !(es[k].Enter? && matches(es[k].node))) ==> r.None?
    decreases |es|
  {
    if es == [] then None
    else
      var n := |es| - 1;
      if es[n].Enter? && matches(es[n].node) then es[n].parent
      else
        assert forall k :: 0 <= k < n ==> es[..n][k] == es[k];
        LastParent(matches, es[..n])
  }

  /** One more event: a match replaces the answer, any other event keeps it. */
  lemma LastParentSnoc(matches: NodeId -> bool, es: seq<Event>, i: nat)
    requires i < |es|
    ensures LastParent(matches, es[..i + 1]) ==
              if es[i].Enter? && matches(es[i].node) then es[i].parent else LastParent(matches, es[..i])
  {
    assert es[..i + 1][..i] == es[..i];
  }

  /**
   * `findOverrideItself`: the parent of the LAST matching assignment met
   * walking the function, or nothing when none matches (a null parent reads
   * as nothing too, as both are falsy to the caller).
   */
  function LastOverride(h: Heap, name: string, fn: NodeId, es: seq<Event>): Option<NodeId> {
    LastParent((n: NodeId) => OverrideMatches(h, name, fn, n), es)
  }

  /** A later match always wins over the earlier ones. */
  lemma {:induction false} LastMatchWins(matches: NodeId -> bool, pre: seq<Event>, n: NodeId, p: NodeId, post: seq<Event>)
    requires matches(n)
    requires forall k :: 0 <= k < |post| ==> !(post[k].Enter? && matches(post[k].node))
    ensures LastParent(matches, pre + [Enter(n, Some(p))] + post) == Some(p)
    decreases |post|
  {
    var es := pre + [Enter(n, Some(p))] + post;
    if post == [] {
      assert es[|es| - 1] == Enter(n, Some(p));
    } else {
      var m := |post| - 1;
      assert es[..|es| - 1] == pre + [Enter(n, Some(p))] + post[..m];
      assert es[|es| - 1] == post[m];
      LastMatchWins(matches, pre, n, p, post[..m]);
    }
  }

  // ---------------------------------------------------------------------
  // getItselfReturnStatements
  // ---------------------------------------------------------------------

  /** One argument is the parameter at the same position, by name. */
  predicate ArgMatches(h: Heap, args: seq<Option<NodeId>>, params: seq<Option<NodeId>>, j: nat)
    requires j < |args|
  {
    args[j].Some? && j < |params| && params[j].Some? && TextOf(h, args[j].value, "name") == TextOf(h, params[j].value, "name")
  }

  /** The first position from `i` whose argument is not the parameter there, `|args|` if none. */
  function FirstMismatch(h: Heap, args: seq<Option<NodeId>>, params: seq<Option<NodeId>>, i: nat): (m: nat)
    ensures i <= m || m == |args|
    ensures m <= |args| || (m == i && i > |args|)
    ensures forall k :: i <= k < m && k < |args| ==> ArgMatches(h, args, params, k)
    ensures i <= m < |args| ==> !ArgMatches(h, args, params, m)
    decreases |args| - i
  {
    if i >= |args| then i
    else if !ArgMatches(h, args, params, i) then i
    else FirstMismatch(h, args, params, i + 1)
  }

  /**
   * `arguments.every((item, i) => item.name === params.items[i].name)` AS
   * WRITTEN, from position `i`: the first argument that is not the parameter
   * at its position decides; if it is null, or past the last parameter,
   * reading its `.name` or the parameter's raises a `TypeError`.
   */
  function ArgsForwardedAsWritten(h: Heap, args: seq<Option<NodeId>>, params: seq<Option<NodeId>>, i: nat): (r: Result<bool>)
    ensures var m := FirstMismatch(h, args, params, i);
      && (r == Ok(true) <==> m >= |args|)
      && (r.Err? <==> m < |args| && (args[m].None? || m >= |params| || params[m].None?))
    decreases |args| - i
  {
    if i >= |args| then Ok(true)
    else if !ArgMatches(h, args, params, i) then
      if args[i].None? then Err(TypeError("cannot read 'name' of null"))
      else if i >= |params| || params[i].None? then Err(TypeError("cannot read 'name' of undefined"))
      else Ok(false)
    else ArgsForwardedAsWritten(h, args, params, i + 1)
  }

  /**
   * The same test with an argument past the last parameter counted as a
   * mismatch: a self call passing more arguments than the function has
   * parameters does not forward them. Only a hole in either list raises.
   */
  function ArgsForwarded(h: Heap, args: seq<Option<NodeId>>, params: seq<Option<NodeId>>, i: nat): (r: Result<bool>)
    ensures var m := FirstMismatch(h, args, params, i);
      && (r == Ok(true) <==> m >= |args|)
      && (r.Err? <==> m < |args| && (args[m].None? || (m < |params| && params[m].None?)))
    decreases |args| - i
  {
    if i >= |args| then Ok(true)
    else if !ArgMatches(h, args, params, i) then
      if args[i].None? then Err(TypeError("cannot read 'name' of null"))
      else if i >= |params| then Ok(false)
      else if params[i].None? then Err(TypeError("cannot read 'name' of undefined"))
      else Ok(false)
    else ArgsForwarded(h, args, params, i + 1)
  }

  /** The two agree except where the written test raises on a surplus argument. */
  lemma {:induction false} ForwardedAgrees(h: Heap, args: seq<Option<NodeId>>, params: seq<Option<NodeId>>, i: nat)
    ensures ArgsForwardedAsWritten(h, args, params, i).Ok? ==>
              ArgsForwarded(h, args, params, i) == ArgsForwardedAsWritten(h, args, params, i)
    ensures (forall j :: 0 <= j < |args| ==> args[j].Some?) && (forall j :: 0 <= j < |params| ==> params[j].Some?) ==>
              ArgsForwarded(h, args, params, i).Ok?
    decreases |args| - i
  {
    if i < |args| && ArgMatches(h, args, params, i) {
      ForwardedAgrees(h, args, params, i + 1);
    }
  }

  /** The callee and the arguments of `return name(...)`, if the return has that shape. */
  function SelfCallArgs(h: Heap, name: string, ret: NodeId): Option<seq<Option<NodeId>>> {
    var x := Child(h, ret, "expression");
    if x.Some? && KindOf(h, x.value) == "CallExpression" &&
       HasKind(h, Child(h, x.value, "callee"), "IdentifierExpression") &&
       TextOf(h, Child(h, x.value, "callee").value, "name") == Some(name)
    then Some(ListOf(h, x.value, "arguments"))
    else None
  }

  /** The return test AS WRITTEN: `return name(p1, ..., pk)` with the function's own parameters. */
  function SelfCallAsWritten(h: Heap, name: string, fn: NodeId, ret: NodeId): Result<bool> {
    match SelfCallArgs(h, name, ret)
    case None => Ok(false)
    case Some(args) => ArgsForwardedAsWritten(h, args, ParamsOf(h, fn), 0)
  }

  /** The return test with surplus arguments counted as a mismatch. */
  function SelfCall(h: Heap, name: string, fn: NodeId, ret: NodeId): (r: Result<bool>)
    ensures r == Ok(true) <==>
              SelfCallArgs(h, name, ret).Some? &&
              var args := SelfCallArgs(h, name, ret).value;
              |args| <= |ParamsOf(h, fn)| && forall j :: 0 <= j < |args| ==> ArgMatches(h, args, ParamsOf(h, fn), j)
  {
    match SelfCallArgs(h, name, ret)
    case None => Ok(false)
    case Some(args) =>
      var r := ArgsForwarded(h, args, ParamsOf(h, fn), 0);
      assert r == Ok(true) ==> |args| <= |ParamsOf(h, fn)| by {
        if r == Ok(true) && |args| > 0 {
          assert ArgMatches(h, args, ParamsOf(h, fn), |args| - 1);
        }
      }
      r
  }

  /**
   * The return test the scan uses answers as the written one wherever the
   * written one does not raise: the model departs from the program only on
   * the self calls the program aborts on.
   */
  lemma SelfCallAgrees(h: Heap, name: string, fn: NodeId, ret: NodeId)
    ensures SelfCallAsWritten(h, name, fn, ret).Ok? ==> SelfCall(h, name, fn, ret) == SelfCallAsWritten(h, name, fn, ret)
  {
    if SelfCallArgs(h, name, ret).Some? {
      ForwardedAgrees(h, SelfCallArgs(h, name, ret).value, ParamsOf(h, fn), 0);
    }
  }

  /**
   * `function f(a) { f = function (b) {}; return f(a, a); }`: the written test
   * raises a `TypeError` on the second argument, where the corrected one
   * reports that the return is not a plain self call.
   */
  lemma SurplusArgumentRaises()
    ensures var h := SurplusHeap();
      && SelfCallAsWritten(h, "f", 0, 5).Err?
      && SelfCall(h, "f", 0, 5) == Ok(false)
  {
    var h := SurplusHeap();
    SurplusHeapReads();
    assert ArgMatches(h, [Some(8), Some(9)], [Some(4)], 0);
    assert FirstMismatch(h, [Some(8), Some(9)], [Some(4)], 0) == 1;
  }

  /** What the return test reads from that heap: one parameter, two arguments, all named `a`. */
  lemma SurplusHeapReads()
    ensures var h := SurplusHeap();
      && ParamsOf(h, 0) == [Some(4)]
      && SelfCallArgs(h, "f", 5) == Some([Some(8), Some(9)])
      && TextOf(h, 4, "name") == Some("a") && TextOf(h, 8, "name") == Some("a")
  {
    var h := SurplusHeap();
    assert Child(h, 0, "params") == Some(2);
    assert Child(h, 5, "expression") == Some(6);
    assert h[6].fields[1..] == [Field("arguments", List([Some(8), Some(9)]))];
    assert Child(h, 6, "callee") == Some(7);
  }

  /** The nodes of `function f(a) { ...; return f(a, a); }` that the return test reads. */
  function SurplusHeap(): Heap {
    map[
      0 := NodeRec("FunctionDeclaration", [Field("params", Scalar(Some(2)))], map[]),
      2 := NodeRec("FormalParameters", [Field("items", List([Some(4)]))], map[]),
      4 := NodeRec("BindingIdentifier", [], map["name" := Text("a")]),
      5 := NodeRec("ReturnStatement", [Field("expression", Scalar(Some(6)))], map[]),
      6 := NodeRec("CallExpression", [Field("callee", Scalar(Some(7))), Field("arguments", List([Some(8), Some(9)]))], map[]),
      7 := NodeRec("IdentifierExpression", [], map["name" := Text("f")]),
      8 := NodeRec("IdentifierExpression", [], map["name" := Text("a")]),
      9 := NodeRec("IdentifierExpression", [], map["name" := Text("a")])
    ]
  }

  /** The collected returns, the nested function body being skipped, and whether the walk was broken off. */
  datatype ScanState = ScanState(found: seq<NodeId>, skipping: Option<NodeId>, stopped: bool)

  const ScanStart := ScanState([], None, false)

  /**
   * The `enter` callback of `getItselfReturnStatements`: a nested function
   * body (one with a parent) is skipped up to its leave; a self-calling
   * return is collected; any other return empties the list and breaks off.
   * The return test is the corrected `SelfCall` (see Findings in the README):
   * a surplus argument is a mismatch here, where the code as written raises.
   */
  function ScanStep(h: Heap, name: string, fn: NodeId): (ScanState, Event) -> Result<ScanState> {
    (st: ScanState, e: Event) =>
      if st.stopped then Ok(st)
      else if st.skipping.Some? then Ok(if e == Leave(st.skipping.value) then st.(skipping := None) else st)
      else if e.Leave? then Ok(st)
      else if e.parent.Some? && KindOf(h, e.node) == "FunctionBody" then Ok(st.(skipping := Some(e.node)))
      else if KindOf(h, e.node) != "ReturnStatement" then Ok(st)
      else
        match SelfCall(h, name, fn, e.node)
        case Err(err) => Err(err)
        case Ok(true) => Ok(st.(found := st.found + [e.node]))
        case Ok(false) => Ok(ScanState([], None, true))
  }

  /** `getItselfReturnStatements(name, fn)`: the scan of a walk of the function's body. */
  function SelfReturns(walk: Walker, h: Heap, name: string, fn: NodeId): Result<seq<NodeId>> {
    match Child(h, fn, "body")
    case None => Err(TypeError("the function has no body to traverse"))
    case Some(b) =>
      match Fold(ScanStep(h, name, fn), ScanStart, walk(h, b))
      case Err(e) => Err(e)
      case Ok(st) => Ok(st.found)
  }

  /** Every collected node is a self-calling return, and a broken-off scan has collected nothing. */
  ghost predicate ScanSound(h: Heap, name: string, fn: NodeId, st: ScanState) {
    && (st.stopped ==> st.found == [])
    && forall k :: 0 <= k < |st.found| ==>
         KindOf(h, st.found[k]) == "ReturnStatement" && SelfCall(h, name, fn, st.found[k]) == Ok(true)
  }

  /** All or nothing: the list holds only self-calling returns, and is empty once one return is not. */
  lemma ScanKeepsSound(h: Heap, name: string, fn: NodeId, st: ScanState, es: seq<Event>)
    requires ScanSound(h, name, fn, st)
    ensures Fold(ScanStep(h, name, fn), st, es).Ok? ==> ScanSound(h, name, fn, Fold(ScanStep(h, name, fn), st, es).value)
  {
    var step := ScanStep(h, name, fn);
    var P := (s: ScanState) => ScanSound(h, name, fn, s);
    forall t: ScanState, e: Event | P(t) && step(t, e).Ok? ensures P(step(t, e).value) {
      if !t.stopped && t.skipping.None? && e.Enter? && !(e.parent.Some? && KindOf(h, e.node) == "FunctionBody") &&
         KindOf(h, e.node) == "ReturnStatement" && SelfCall(h, name, fn, e.node) == Ok(true) {
        var f' := t.found + [e.node];
        assert forall k :: 0 <= k < |t.found| ==> f'[k] == t.found[k];
      }
    }
    FoldKeeps(step, P, st, es);
  }

  lemma SelfReturnsSound(walk: Walker, h: Heap, name: string, fn: NodeId)
    ensures SelfReturns(walk, h, name, fn).Ok? ==>
              var rs := SelfReturns(walk, h, name, fn).value;
              forall k :: 0 <= k < |rs| ==> KindOf(h, rs[k]) == "ReturnStatement" && SelfCall(h, name, fn, rs[k]) == Ok(true)
  {
    if Child(h, fn, "body").Some? {
      ScanKeepsSound(h, name, fn, ScanStart, walk(h, Child(h, fn, "body").value));
    }
  }

  /** Unless the scan is broken off later, the returns collected so far stay collected, in front. */
  lemma ScanKeepsCollected(h: Heap, name: string, fn: NodeId, st: ScanState, es: seq<Event>)
    requires !st.stopped
    ensures var r := Fold(ScanStep(h, name, fn), st, es);
            r.Ok? && !r.value.stopped ==> st.found <= r.value.found
  {
    var step := ScanStep(h, name, fn);
    var P := (t: ScanState) => !t.stopped ==> st.found <= t.found;
    forall t: ScanState, e: Event | P(t) && step(t, e).Ok? ensures P(step(t, e).value) {
      if !t.stopped && t.skipping.None? && e.Enter? && !(e.parent.Some? && KindOf(h, e.node) == "FunctionBody") &&
         KindOf(h, e.node) == "ReturnStatement" && SelfCall(h, name, fn, e.node) == Ok(true) {
        assert t.found <= t.found + [e.node];
      }
    }
    FoldKeeps(step, P, st, es);
  }

  /**
   * The converse of `SelfReturnsSound`: a self-calling return met outside
   * nested bodies, after the returns collected so far, is collected right
   * after them. So the list holds every such return in walk order, unless a
   * return that is not a self call breaks the scan off and empties it.
   */
  lemma SelfReturnsComplete(walk: Walker, h: Heap, name: string, fn: NodeId, pre: seq<Event>, n: NodeId,
                            parent: Option<NodeId>, post: seq<Event>, st: ScanState)
    requires Child(h, fn, "body").Some? && walk(h, Child(h, fn, "body").value) == pre + [Enter(n, parent)] + post
    requires Fold(ScanStep(h, name, fn), ScanStart, pre) == Ok(st) && !st.stopped && st.skipping.None?
    requires KindOf(h, n) == "ReturnStatement" && SelfCall(h, name, fn, n) == Ok(true)
    ensures var r := Fold(ScanStep(h, name, fn), ScanStart, pre + [Enter(n, parent)] + post);
            r.Ok? && !r.value.stopped ==> st.found + [n] <= r.value.found
    ensures SelfReturns(walk, h, name, fn).Ok? ==>
              var rs := SelfReturns(walk, h, name, fn).value;
              rs == [] || st.found + [n] <= rs
  {
    var step := ScanStep(h, name, fn);
    var u := st.(found := st.found + [n]);
    FoldStep(step, ScanStart, pre, Enter(n, parent), st);
    assert step(st, Enter(n, parent)) == Ok(u);
    FoldAppend(step, ScanStart, pre + [Enter(n, parent)], post);
    ScanKeepsCollected(h, name, fn, u, post);
    ScanKeepsSound(h, name, fn, ScanStart, pre + [Enter(n, parent)] + post);
  }

  /** While a nested body is skipped, events other than its leave change nothing. */
  lemma {:induction false} SkippedEventsInert(h: Heap, name: string, fn: NodeId, st: ScanState, mid: seq<Event>)
    requires st.skipping.Some? && Leave(st.skipping.value) !in mid
    ensures Fold(ScanStep(h, name, fn), st, mid) == Ok(st)
    decreases |mid|
  {
    if mid != [] {
      var m := |mid| - 1;
      assert mid[m] in mid;
      assert forall e :: e in mid[..m] ==> e in mid;
      SkippedEventsInert(h, name, fn, st, mid[..m]);
    }
  }

  /**
   * A nested function body, from its enter to its leave, is invisible to the
   * scan: the returns of inner functions are neither collected nor able to
   * break the scan off.
   */
  lemma NestedBodySkipped(h: Heap, name: string, fn: NodeId, st: ScanState, m: NodeId, p: NodeId, mid: seq<Event>)
    requires !st.stopped && st.skipping.None? && KindOf(h, m) == "FunctionBody" && Leave(m) !in mid
    ensures Fold(ScanStep(h, name, fn), st, [Enter(m, Some(p))] + mid + [Leave(m)]) == Ok(st)
  {
    var step := ScanStep(h, name, fn);
    var inner := st.(skipping := Some(m));
    FoldAppend(step, st, [Enter(m, Some(p))], mid + [Leave(m)]);
    assert [Enter(m, Some(p))] + mid + [Leave(m)] == [Enter(m, Some(p))] + (mid + [Leave(m)]);
    FoldStep(step, st, [], Enter(m, Some(p)), st);
    assert [] + [Enter(m, Some(p))] == [Enter(m, Some(p))];
    SkippedEventsInert(h, name, fn, inner, mid);
    FoldStep(step, inner, mid, Leave(m), inner);
  }

  /** Once broken off, the scan ignores every later event. */
  lemma {:induction false} StoppedStays(h: Heap, name: string, fn: NodeId, st: ScanState, es: seq<Event>)
    requires st.stopped
    ensures Fold(ScanStep(h, name, fn), st, es) == Ok(st)
    decreases |es|
  {
    if es != [] {
      StoppedStays(h, name, fn, st, es[..|es| - 1]);
    }
  }

  /**
   * A return outside nested bodies that is not a plain self call ends the
   * scan with nothing collected, whatever came before or comes after it.
   */
  lemma MismatchEmpties(h: Heap, name: string, fn: NodeId, pre: seq<Event>, st: ScanState, n: NodeId, parent: Option<NodeId>, post: seq<Event>)
    requires Fold(ScanStep(h, name, fn), ScanStart, pre) == Ok(st) && !st.stopped && st.skipping.None?
    requires KindOf(h, n) == "ReturnStatement" && SelfCall(h, name, fn, n) == Ok(false)
    ensures Fold(ScanStep(h, name, fn), ScanStart, pre + [Enter(n, parent)] + post) == Ok(ScanState([], None, true))
  {
    var step := ScanStep(h, name, fn);
    FoldStep(step, ScanStart, pre, Enter(n, parent), st);
    FoldAppend(step, ScanStart, pre + [Enter(n, parent)], post);
    StoppedStays(h, name, fn, ScanState([], None, true), post);
  }

  // ---------------------------------------------------------------------
  // findCacheFunctions
  // ---------------------------------------------------------------------

  /**
   * The candidate test: a function declaration, under its own name, or
   * `var name = function ...`, whose function expression is the candidate.
   */
  function CandidateOf(h: Heap, n: NodeId): (c: Option<(string, NodeId)>)
    ensures c.Some? ==> KindOf(h, c.value.1) == "FunctionDeclaration" || KindOf(h, c.value.1) == "FunctionExpression"
  {
    if KindOf(h, n) == "FunctionDeclaration" then Some((NameAttr(h, Child(h, n, "name")), n))
    else if IsVariableAssignment(h, n, "FunctionExpression") then Some((BindingName(h, n), Child(h, n, "init").value))
    else None
  }

  /** What the pass's traversal carries: the scopes, the cache functions, their names and the current scope. */
  datatype CState = CState(arena: seq<CScope>, fns: seq<CacheFn>, names: set<string>, cursor: nat)

  /** A block or function body opens a new scope, which becomes the current one. */
  function EnterScope(h: Heap, st: CState, n: NodeId): CState {
    if IsScopeKind(KindOf(h, n)) then st.(arena := Register(st.arena, n, Some(st.cursor)), cursor := |st.arena|) else st
  }

  /**
   * A candidate becomes a cache function when it has an override; its
   * returns are scanned first, so a failing scan raises even without one.
   */
  function Recognise(walk: Walker, h: Heap, n: NodeId, parent: Option<NodeId>, scope: nat): Result<Option<CacheFn>> {
    match CandidateOf(h, n)
    case None => Ok(None)
    case Some((name, fn)) =>
      var assignment := LastOverride(h, name, fn, walk(h, fn));
      match SelfReturns(walk, h, name, fn)
      case Err(e) => Err(e)
      case Ok(rs) =>
        if assignment.None? then Ok(None) else Ok(Some(CacheFn(fn, parent, scope, name, assignment.value, rs)))
  }

  /** `scope.addCacheFunction(f)`, `cacheFunctions.push(f)`, `cacheFunctionNames.add(f.name)`. */
  function Record(st: CState, f: CacheFn): CState {
    st.(arena := Bind(st.arena, st.cursor, f.name, |st.fns|), fns := st.fns + [f], names := st.names + {f.name})
  }

  /** The `enter` and `leave` callbacks of `findCacheFunctions`. */
  function DiscoverStep(walk: Walker, h: Heap): (CState, Event) -> Result<CState> {
    (st: CState, e: Event) =>
      match e
      case Leave(n) => Ok(st.(cursor := LeaveCursor(st.arena, st.cursor, n)))
      case Enter(n, parent) =>
        var st1 := EnterScope(h, st, n);
        match Recognise(walk, h, n, parent, st1.cursor)
        case Err(err) => Err(err)
        case Ok(None) => Ok(st1)
        case Ok(Some(f)) => Ok(Record(st1, f))
  }

  /** The state of a fresh pass: the global scope for the root, nothing found. */
  function Initial(root: NodeId): CState {
    CState([Scope(root, None, EmptyMap(), EmptyMap())], [], {}, 0)
  }

  /** `findCacheFunctions`: one traversal of the whole tree. */
  function Discover(walk: Walker, h: Heap, root: NodeId): Result<CState> {
    Fold(DiscoverStep(walk, h), Initial(root), walk(h, root))
  }

  /**
   * What makes `f` a cache function: a function whose name is overridden
   * inside it by `f.assignment` (the last such statement) and whose body's
   * self-calling returns are `f.selfReturns`.
   */
  ghost predicate IsCacheFunction(walk: Walker, h: Heap, f: CacheFn) {
    && (KindOf(h, f.node) == "FunctionDeclaration" || KindOf(h, f.node) == "FunctionExpression")
    && LastOverride(h, f.name, f.node, walk(h, f.node)) == Some(f.assignment)
    && SelfReturns(walk, h, f.name, f.node) == Ok(f.selfReturns)
  }

  ghost predicate AllCacheFunctions(walk: Walker, h: Heap, st: CState) {
    forall k :: 0 <= k < |st.fns| ==> IsCacheFunction(walk, h, st.fns[k]) && st.fns[k].name in st.names
  }

  /** A recognised candidate is a cache function. */
  lemma RecogniseSound(walk: Walker, h: Heap, n: NodeId, parent: Option<NodeId>, scope: nat)
    ensures Recognise(walk, h, n, parent, scope).Ok? && Recognise(walk, h, n, parent, scope).value.Some? ==>
              var f := Recognise(walk, h, n, parent, scope).value.value;
              IsCacheFunction(walk, h, f) && f.parentNode == parent && f.scope == scope
  {
  }

  /**
   * The converse: a candidate qualifies whenever an override is found and
   * the scan of its returns does not raise, even when the scan collected no
   * return at all; without an override it is passed over.
   */
  lemma RecogniseComplete(walk: Walker, h: Heap, n: NodeId, parent: Option<NodeId>, scope: nat, name: string, fn: NodeId, rs: seq<NodeId>)
    requires CandidateOf(h, n) == Some((name, fn)) && SelfReturns(walk, h, name, fn) == Ok(rs)
    ensures LastOverride(h, name, fn, walk(h, fn)).Some? ==>
              Recognise(walk, h, n, parent, scope) ==
                Ok(Some(CacheFn(fn, parent, scope, name, LastOverride(h, name, fn, walk(h, fn)).value, rs)))
    ensures LastOverride(h, name, fn, walk(h, fn)).None? ==> Recognise(walk, h, n, parent, scope) == Ok(None)
  {
  }

  /** Discovery only ever appends cache functions. */
  lemma DiscoverKeepsFound(walk: Walker, h: Heap, s: CState, es: seq<Event>)
    ensures Fold(DiscoverStep(walk, h), s, es).Ok? ==> s.fns <= Fold(DiscoverStep(walk, h), s, es).value.fns
  {
    var step := DiscoverStep(walk, h);
    var P := (t: CState) => s.fns <= t.fns;
    forall t: CState, e: Event | P(t) && step(t, e).Ok? ensures P(step(t, e).value) {
      if e.Enter? {
        var t1 := EnterScope(h, t, e.node);
        assert t1.fns == t.fns;
        var r := Recognise(walk, h, e.node, e.parent, t1.cursor);
        if r.value.Some? {
          assert t1.fns <= t1.fns + [r.value.value];
        }
      }
    }
    FoldKeeps(step, P, s, es);
  }

  /**
   * Every candidate the traversal enters that has an override, and whose
   * return scan does not raise, is recorded as a cache function with that
   * override and those returns, the empty list included.
   */
  lemma DiscoverFindsCacheFunctions(walk: Walker, h: Heap, root: NodeId, k: nat, name: string, fn: NodeId, rs: seq<NodeId>)
    requires k < |walk(h, root)| && walk(h, root)[k].Enter?
    requires CandidateOf(h, walk(h, root)[k].node) == Some((name, fn))
    requires LastOverride(h, name, fn, walk(h, fn)).Some? && SelfReturns(walk, h, name, fn) == Ok(rs)
    ensures Discover(walk, h, root).Ok? ==>
              var fns := Discover(walk, h, root).value.fns;
              exists j :: 0 <= j < |fns| &&
                fns[j].node == fn && fns[j].name == name && fns[j].parentNode == walk(h, root)[k].parent &&
                fns[j].assignment == LastOverride(h, name, fn, walk(h, fn)).value && fns[j].selfReturns == rs
  {
    var es := walk(h, root);
    var step := DiscoverStep(walk, h);
    var s0 := Initial(root);
    if Discover(walk, h, root).Ok? {
      if Fold(step, s0, es[..k]).Err? {
        FoldErrPrefix(step, s0, es[..k], es);
        assert false;
      }
      var t := Fold(step, s0, es[..k]).value;
      FoldStep(step, s0, es[..k], es[k], t);
      TakeSnoc(es, k);
      var t1 := EnterScope(h, t, es[k].node);
      var f := CacheFn(fn, es[k].parent, t1.cursor, name, LastOverride(h, name, fn, walk(h, fn)).value, rs);
      RecogniseComplete(walk, h, es[k].node, es[k].parent, t1.cursor, name, fn, rs);
      var u := Record(t1, f);
      assert Fold(step, s0, es[..k + 1]) == Ok(u);
      FoldAppend(step, s0, es[..k + 1], es[k + 1..]);
      assert es[..k + 1] + es[k + 1..] == es;
      DiscoverKeepsFound(walk, h, u, es[k + 1..]);
      var fns := Discover(walk, h, root).value.fns;
      assert fns[|t1.fns|] == u.fns[|t1.fns|] == f;
    }
  }

  lemma RecordKeepsAll(walk: Walker, h: Heap, t: CState, f: CacheFn)
    requires AllCacheFunctions(walk, h, t) && IsCacheFunction(walk, h, f)
    ensures AllCacheFunctions(walk, h, Record(t, f))
  {
    var t2 := Record(t, f);
    forall k | 0 <= k < |t2.fns| ensures IsCacheFunction(walk, h, t2.fns[k]) && t2.fns[k].name in t2.names {
      if k < |t.fns| {
        assert t2.fns[k] == t.fns[k];
      }
    }
  }

  lemma DiscoverStepKeepsAll(walk: Walker, h: Heap, t: CState, e: Event)
    requires AllCacheFunctions(walk, h, t) && DiscoverStep(walk, h)(t, e).Ok?
    ensures AllCacheFunctions(walk, h, DiscoverStep(walk, h)(t, e).value)
  {
    if e.Enter? {
      var t1 := EnterScope(h, t, e.node);
      assert t1.fns == t.fns && t1.names == t.names;
      var r := Recognise(walk, h, e.node, e.parent, t1.cursor);
      if r.value.Some? {
        RecogniseSound(walk, h, e.node, e.parent, t1.cursor);
        RecordKeepsAll(walk, h, t1, r.value.value);
      }
    }
  }

  /** Every function the traversal records is a cache function, and its name is in the set of names. */
  lemma DiscoveredAreCacheFunctions(walk: Walker, h: Heap, root: NodeId)
    ensures Discover(walk, h, root).Ok? ==> AllCacheFunctions(walk, h, Discover(walk, h, root).value)
  {
    var step := DiscoverStep(walk, h);
    var P := (st: CState) => AllCacheFunctions(walk, h, st);
    forall t: CState, e: Event | P(t) && step(t, e).Ok? ensures P(step(t, e).value) {
      DiscoverStepKeepsAll(walk, h, t, e);
    }
    FoldKeeps(step, P, Initial(root), walk(h, root));
  }

  /** The current scope is always a scope of the arena, and the arena stays a tree. */
  ghost predicate ScopesValid(st: CState) {
    WellFormed(st.arena) && st.cursor < |st.arena|
  }

  lemma BindKeepsWellFormed(arena: seq<CScope>, s: nat, name: string, f: nat)
    requires WellFormed(arena)
    ensures WellFormed(Bind(arena, s, name, f))
  {
  }

  lemma DiscoverKeepsScopesValid(walk: Walker, h: Heap, root: NodeId)
    ensures Discover(walk, h, root).Ok? ==> ScopesValid(Discover(walk, h, root).value)
  {
    var step := DiscoverStep(walk, h);
    forall t: CState, e: Event | ScopesValid(t) && step(t, e).Ok? ensures ScopesValid(step(t, e).value) {
      if e.Enter? {
        var t1 := EnterScope(h, t, e.node);
        assert ScopesValid(t1);
        var r := Recognise(walk, h, e.node, e.parent, t1.cursor);
        if r.Ok? && r.value.Some? {
          BindKeepsWellFormed(t1.arena, t1.cursor, r.value.value.name, |t1.fns|);
        }
      }
    }
    FoldKeeps(step, ScopesValid, Initial(root), walk(h, root));
  }

  // ---------------------------------------------------------------------
  // findAliases
  // ---------------------------------------------------------------------

  /** What the alias traversal carries: the tree, the scopes, the names and the current scope. */
  datatype AState = AState(h: Heap, arena: seq<CScope>, names: set<string>, cursor: nat)

  /** Entering a block or function body moves to the scope registered for it; none registered raises. */
  function DescendScope(st: AState, n: NodeId): Result<nat> {
    if !IsScopeKind(KindOf(st.h, n)) then Ok(st.cursor)
    else if st.cursor < |st.arena| && st.arena[st.cursor].children.Get(n).Some? then Ok(st.arena[st.cursor].children.Get(n).value)
    else Err(TypeError("no scope was registered for this node"))
  }

  /**
   * `var g = f` with `f` a cache-function name visible from the current
   * scope: `g` is bound to the same cache function there, the declarator is
   * removed from its parent and `g` joins the names.
   */
  function AliasAt(walk: Walker, st: AState, n: NodeId, parent: Option<NodeId>): Result<AState> {
    if !IsVariableAssignment(st.h, n, "IdentifierExpression") then Ok(st)
    else
      var name := NameAttr(st.h, Child(st.h, n, "init"));
      if name !in st.names then Ok(st)
      else
        match FindCacheFunction(st.arena, st.cursor, name)
        case None => Ok(st)
        case Some(fi) =>
          var newName := BindingName(st.h, n);
          match parent
          case None => Err(TypeError("removeNode on a null root"))
          case Some(p) =>
            match ReplaceSpec(st.h, walk(st.h, p), n, Nothing, 1, false)
            case Err(err) => Err(err)
            case Ok(h') => Ok(AState(h', Bind(st.arena, st.cursor, newName, fi), st.names + {newName}, st.cursor))
  }

  /** The `enter` and `leave` callbacks of `findAliases`. */
  function AliasStep(walk: Walker): (AState, Event) -> Result<AState> {
    (st: AState, e: Event) =>
      match e
      case Leave(n) => Ok(st.(cursor := LeaveCursor(st.arena, st.cursor, n)))
      case Enter(n, parent) =>
        match DescendScope(st, n)
        case Err(err) => Err(err)
        case Ok(c) => AliasAt(walk, st.(cursor := c), n, parent)
  }

  /** `findAliases`: one traversal of the tree as it was when it started. */
  function AliasPass(walk: Walker, h: Heap, arena: seq<CScope>, names: set<string>, root: NodeId): Result<AState> {
    Fold(AliasStep(walk), AState(h, arena, names, 0), walk(h, root))
  }

  /** From the current scope, an alias resolves to the very cache function its initialiser named. */
  lemma AliasResolvesSame(walk: Walker, st: AState, n: NodeId, parent: Option<NodeId>)
    requires st.cursor < |st.arena| && IsVariableAssignment(st.h, n, "IdentifierExpression")
    requires NameAttr(st.h, Child(st.h, n, "init")) in st.names
    requires FindCacheFunction(st.arena, st.cursor, NameAttr(st.h, Child(st.h, n, "init"))).Some?
    requires AliasAt(walk, st, n, parent).Ok?
    ensures var st' := AliasAt(walk, st, n, parent).value;
      FindCacheFunction(st'.arena, st.cursor, BindingName(st.h, n)) ==
        FindCacheFunction(st.arena, st.cursor, NameAttr(st.h, Child(st.h, n, "init")))
  {
  }

  /** An alias step removes the alias declarator and nothing else. */
  lemma AliasKeepsOthers(walk: Walker, st: AState, n: NodeId, parent: Option<NodeId>, q: NodeId, m: NodeId)
    requires m != n && HoldsChild(st.h, q, m)
    ensures AliasAt(walk, st, n, parent).Ok? ==> HoldsChild(AliasAt(walk, st, n, parent).value.h, q, m)
  {
    if parent.Some? {
      ReplaceKeepsOtherChildren(st.h, walk(st.h, parent.value), n, Nothing, q, m);
    }
  }

  /**
   * An alias step detaches the alias declarator: when its parent holds it
   * once, in a list, and the walk of the parent meets it once, the step
   * succeeds and the parent no longer holds it.
   */
  lemma AliasDetaches(walk: Walker, st: AState, n: NodeId, p: NodeId, pre: seq<Event>, post: seq<Event>, i: nat)
    requires IsVariableAssignment(st.h, n, "IdentifierExpression")
    requires NameAttr(st.h, Child(st.h, n, "init")) in st.names
    requires FindCacheFunction(st.arena, st.cursor, NameAttr(st.h, Child(st.h, n, "init"))).Some?
    requires walk(st.h, p) == pre + [Enter(n, Some(p))] + post && HeldOnceInList(st.h, p, n, i)
    requires forall k :: 0 <= k < |pre| ==> !EntersTarget(pre[k], n)
    requires forall k :: 0 <= k < |post| ==> !EntersTarget(post[k], n)
    ensures AliasAt(walk, st, n, Some(p)).Ok? && !HoldsChild(AliasAt(walk, st, n, Some(p)).value.h, p, n)
  {
    RemoveDetaches(st.h, pre, p, post, n, i);
  }

  // ---------------------------------------------------------------------
  // replaceCacheFunctionUsages and execute
  // ---------------------------------------------------------------------

  function UnrollStep(walk: Walker): ((Heap, NodeId), CacheFn) -> Result<(Heap, NodeId)> {
    (st: (Heap, NodeId), f: CacheFn) => Unrolled(walk, st.0, st.1, f)
  }

  /** `replaceCacheFunctionUsages`: `makeReplacement` of each cache function, in the order they were found. */
  function ReplaceAll(walk: Walker, h: Heap, next: NodeId, fns: seq<CacheFn>): Result<(Heap, NodeId)> {
    Fold(UnrollStep(walk), (h, next), fns)
  }

  /** `execute`: find the cache functions, then the aliases, then unroll. */
  function Run(walk: Walker, h: Heap, next: NodeId, root: NodeId): Result<(Heap, NodeId)> {
    match Discover(walk, h, root)
    case Err(e) => Err(e)
    case Ok(c) =>
      match AliasPass(walk, h, c.arena, c.names, root)
      case Err(e) => Err(e)
      case Ok(a) => ReplaceAll(walk, a.h, next, c.fns)
  }

  // ---------------------------------------------------------------------
  // The pass, on the tree and the scope objects
  // ---------------------------------------------------------------------

  /** The modification object: the tree, its global scope, the cache functions and their names. */
  class Remover {
    const tree: Tree
    const root: NodeId
    const scopes: CacheScopes
    var cacheFunctions: seq<CacheFn>
    var names: set<string>

    constructor (tree: Tree, root: NodeId)
      ensures this.tree == tree && this.root == root && fresh(scopes)
      ensures scopes.arena == Initial(root).arena && cacheFunctions == [] && names == {}
    {
      this.tree := tree;
      this.root := root;
      scopes := new CacheScopes(root);
      cacheFunctions := [];
      names := {};
    }

    /** `findOverrideItself(name, fn)`: the walk of the function, keeping the last match. */
    method FindOverrideItself(walk: Walker, name: string, fn: NodeId) returns (assignment: Option<NodeId>)
      ensures assignment == LastOverride(tree.nodes, name, fn, walk(tree.nodes, fn))
    {
      var h := tree.nodes;
      var es := walk(h, fn);
      ghost var matches := (n: NodeId) => OverrideMatches(h, name, fn, n);
      assignment := None;
      var i := 0;
      while i < |es|
        invariant 0 <= i <= |es|
        invariant assignment == LastParent(matches, es[..i])
      {
        LastParentSnoc(matches, es, i);
        if es[i].Enter? && OverrideMatches(h, name, fn, es[i].node) {
          assignment := es[i].parent;
        }
        i := i + 1;
      }
      assert es[..i] == es;
    }

    /**
     * `getItselfReturnStatements(name, fn)`: the walk of the body, skipping
     * nested bodies, broken off at a mismatch; with the corrected return test.
     */
    method GetItselfReturnStatements(walk: Walker, name: string, fn: NodeId) returns (rs: seq<NodeId>, err: Option<Error>)
      ensures match SelfReturns(walk, tree.nodes, name, fn)
        case Ok(x) => err.None? && rs == x
        case Err(e) => err == Some(e)
    {
      var h := tree.nodes;
      var body := Child(h, fn, "body");
      if body.None? {
        return [], Some(TypeError("the function has no body to traverse"));
      }
      var es := walk(h, body.value);
      var step := ScanStep(h, name, fn);
      var found: seq<NodeId> := [];
      var skipping: Option<NodeId> := None;
      var i := 0;
      while i < |es|
        invariant 0 <= i <= |es|
        invariant Fold(step, ScanStart, es[..i]) == Ok(ScanState(found, skipping, false))
      {
        FoldStep(step, ScanStart, es[..i], es[i], ScanState(found, skipping, false));
        TakeSnoc(es, i);
        var e := es[i];
        if skipping.Some? {
          if e == Leave(skipping.value) {
            skipping := None;
          }
        } else if e.Enter? {
          if e.parent.Some? && KindOf(h, e.node) == "FunctionBody" {
            skipping := Some(e.node);
          } else if KindOf(h, e.node) == "ReturnStatement" {
            var call := SelfCall(h, name, fn, e.node);
            if call.Err? {
              FoldErrPrefix(step, ScanStart, es[..i + 1], es);
              return [], Some(call.error);
            }
            if call.value {
              found := found + [e.node];
            } else {
              StoppedStays(h, name, fn, ScanState([], None, true), es[i + 1..]);
              FoldAppend(step, ScanStart, es[..i + 1], es[i + 1..]);
              assert es[..i + 1] + es[i + 1..] == es;
              return [], None;
            }
          }
        }
        i := i + 1;
      }
      assert es[..i] == es;
      return found, None;
    }

    /** The candidate test of the enter callback of `findCacheFunctions`, with its two walks of the candidate. */
    method RecogniseAt(walk: Walker, n: NodeId, parent: Option<NodeId>, scope: nat) returns (r: Result<Option<CacheFn>>)
      ensures r == Recognise(walk, tree.nodes, n, parent, scope)
    {
      var c := CandidateOf(tree.nodes, n);
      if c.None? {
        return Ok(None);
      }
      var name := c.value.0;
      var fn := c.value.1;
      var assignment := FindOverrideItself(walk, name, fn);
      var rs, err := GetItselfReturnStatements(walk, name, fn);
      if err.Some? {
        return Err(err.value);
      }
      if assignment.None? {
        return Ok(None);
      }
      return Ok(Some(CacheFn(fn, parent, scope, name, assignment.value, rs)));
    }

    /** One event of `findCacheFunctions`, with the current scope passed in and out. */
    method DiscoverEvent(walk: Walker, e: Event, cursor: nat) returns (cursor': nat, err: Option<Error>)
      modifies this, scopes
      ensures match DiscoverStep(walk, tree.nodes)(CState(old(scopes.arena), old(cacheFunctions), old(names), cursor), e)
        case Ok(st) => err.None? && scopes.arena == st.arena && cacheFunctions == st.fns && names == st.names && cursor' == st.cursor
        case Err(x) => err == Some(x)
    {
      if e.Leave? {
        return LeaveCursor(scopes.arena, cursor, e.node), None;
      }
      ghost var st1 := EnterScope(tree.nodes, CState(scopes.arena, cacheFunctions, names, cursor), e.node);
      cursor' := cursor;
      if IsScopeKind(KindOf(tree.nodes, e.node)) {
        cursor' := scopes.NewScope(e.node, cursor);
      }
      assert st1 == CState(scopes.arena, cacheFunctions, names, cursor');
      var r := RecogniseAt(walk, e.node, e.parent, cursor');
      if r.Err? {
        return cursor', Some(r.error);
      }
      if r.value.Some? {
        var f := r.value.value;
        scopes.AddCacheFunction(cursor', f.name, |cacheFunctions|);
        cacheFunctions := cacheFunctions + [f];
        names := names + {f.name};
      }
      err := None;
    }

    /** `findCacheFunctions`: one walk of the tree from the global scope. */
    method FindCacheFunctions(walk: Walker) returns (err: Option<Error>)
      modifies this, scopes
      ensures match Fold(DiscoverStep(walk, tree.nodes), CState(old(scopes.arena), old(cacheFunctions), old(names), 0), walk(tree.nodes, root))
        case Ok(st) => err.None? && scopes.arena == st.arena && cacheFunctions == st.fns && names == st.names
        case Err(e) => err == Some(e)
    {
      var h := tree.nodes;
      var es := walk(h, root);
      var step := DiscoverStep(walk, h);
      ghost var s0 := CState(scopes.arena, cacheFunctions, names, 0);
      var cursor: nat := 0;
      var i := 0;
      while i < |es|
        invariant 0 <= i <= |es|
        invariant tree.nodes == h
        invariant Fold(step, s0, es[..i]) == Ok(CState(scopes.arena, cacheFunctions, names, cursor))
      {
        FoldStep(step, s0, es[..i], es[i], CState(scopes.arena, cacheFunctions, names, cursor));
        TakeSnoc(es, i);
        cursor, err := DiscoverEvent(walk, es[i], cursor);
        if err.Some? {
          FoldErrPrefix(step, s0, es[..i + 1], es);
          return;
        }
        i := i + 1;
      }
      assert es[..i] == es;
      err := None;
    }

    /** One event of `findAliases`, with the current scope passed in and out. */
    method AliasEvent(walk: Walker, e: Event, cursor: nat) returns (cursor': nat, err: Option<Error>)
      requires tree.Valid()
      modifies this, scopes, tree
      ensures tree.Valid() && tree.next == old(tree.next) && cacheFunctions == old(cacheFunctions)
      ensures match AliasStep(walk)(AState(old(tree.nodes), old(scopes.arena), old(names), cursor), e)
        case Ok(st) => err.None? && tree.nodes == st.h && scopes.arena == st.arena && names == st.names && cursor' == st.cursor
        case Err(x) => err == Some(x)
    {
      if e.Leave? {
        return LeaveCursor(scopes.arena, cursor, e.node), None;
      }
      var n := e.node;
      var d := DescendScope(AState(tree.nodes, scopes.arena, names, cursor), n);
      if d.Err? {
        return cursor, Some(d.error);
      }
      cursor' := d.value;
      var h := tree.nodes;
      if !IsVariableAssignment(h, n, "IdentifierExpression") {
        return cursor', None;
      }
      var name := NameAttr(h, Child(h, n, "init"));
      if name !in names {
        return cursor', None;
      }
      var found := FindCacheFunction(scopes.arena, cursor', name);
      if found.None? {
        return cursor', None;
      }
      var newName := BindingName(h, n);
      scopes.AddAlias(cursor', found.value, newName);
      if e.parent.None? {
        return cursor', Some(TypeError("removeNode on a null root"));
      }
      err := tree.RemoveNode(walk, e.parent.value, n);
      if err.Some? {
        return;
      }
      names := names + {newName};
    }

    /** `findAliases`: one walk of the tree as it is when the walk starts. */
    method FindAliases(walk: Walker) returns (err: Option<Error>)
      requires tree.Valid()
      modifies this, scopes, tree
      ensures tree.Valid() && tree.next == old(tree.next) && cacheFunctions == old(cacheFunctions)
      ensures match AliasPass(walk, old(tree.nodes), old(scopes.arena), old(names), root)
        case Ok(st) => err.None? && tree.nodes == st.h && scopes.arena == st.arena && names == st.names
        case Err(e) => err == Some(e)
    {
      var es := walk(tree.nodes, root);
      var step := AliasStep(walk);
      ghost var s0 := AState(tree.nodes, scopes.arena, names, 0);
      var cursor: nat := 0;
      var i := 0;
      while i < |es|
        invariant 0 <= i <= |es|
        invariant tree.Valid() && tree.next == old(tree.next) && cacheFunctions == old(cacheFunctions)
        invariant Fold(step, s0, es[..i]) == Ok(AState(tree.nodes, scopes.arena, names, cursor))
      {
        FoldStep(step, s0, es[..i], es[i], AState(tree.nodes, scopes.arena, names, cursor));
        TakeSnoc(es, i);
        cursor, err := AliasEvent(walk, es[i], cursor);
        if err.Some? {
          FoldErrPrefix(step, s0, es[..i + 1], es);
          return;
        }
        i := i + 1;
      }
      assert es[..i] == es;
      err := None;
    }

    /** `replaceCacheFunctionUsages`: `makeReplacement` of each cache function in turn. */
    method ReplaceCacheFunctionUsages(walk: Walker) returns (err: Option<Error>)
      requires tree.Valid()
      modifies tree
      ensures tree.Valid()
      ensures match ReplaceAll(walk, old(tree.nodes), old(tree.next), cacheFunctions)
        case Ok((h, next)) => err.None? && tree.nodes == h && tree.next == next
        case Err(e) => err == Some(e)
    {
      var fns := cacheFunctions;
      var step := UnrollStep(walk);
      ghost var s0 := (tree.nodes, tree.next);
      var i := 0;
      while i < |fns|
        invariant 0 <= i <= |fns|
        invariant tree.Valid()
        invariant Fold(step, s0, fns[..i]) == Ok((tree.nodes, tree.next))
      {
        FoldStep(step, s0, fns[..i], fns[i], (tree.nodes, tree.next));
        TakeSnoc(fns, i);
        err := MakeReplacement(walk, tree, fns[i]);
        if err.Some? {
          FoldErrPrefix(step, s0, fns[..i + 1], fns);
          return;
        }
        i := i + 1;
      }
      assert fns[..i] == fns;
      err := None;
    }

    /** `execute` on a fresh pass. */
    method Execute(walk: Walker) returns (err: Option<Error>)
      requires tree.Valid()
      requires scopes.arena == Initial(root).arena && cacheFunctions == [] && names == {}
      modifies this, scopes, tree
      ensures tree.Valid()
      ensures match Run(walk, old(tree.nodes), old(tree.next), root)
        case Ok((h, next)) => err.None? && tree.nodes == h && tree.next == next
        case Err(e) => err == Some(e)
    {
      err := FindCacheFunctions(walk);
      if err.Some? {
        return;
      }
      err := FindAliases(walk);
      if err.Some? {
        return;
      }
      err := ReplaceCacheFunctionUsages(walk);
    }
  }
}
