/**
 * The constant unpacker pass (unpacker/constantUnpacker.ts): alternate a
 * discovery traversal, which catalogues literal constants into scopes, with
 * a rewrite traversal, which replaces their uses, until a discovery finds
 * nothing new; then optionally delete the declarations nothing else uses.
 */
module ConstantUnpacker {
  import opened Base
  import opened Ast
  import opened ScopeTree
  import opened TraversalHelper
  import opened Constants
  import opened UnpackerScope
  import opened ConstantKinds

  /** The `unpacker` section of the configuration. */
  datatype UnpackerConfig = UnpackerConfig(unpackArrays: bool, unpackObjects: bool, unpackValues: bool, shouldRemove: bool)

  /** The entries of the kind list: the array, object and value classes. */
  datatype KindTag = ArrayTag | ObjectTag | ValueTag

  function Rank(k: KindTag): nat {
    match k
    case ArrayTag => 0
    case ObjectTag => 1
    case ValueTag => 2
  }

  /** The kind class behind an entry other than the object one. */
  function KindFor(t: KindTag): Kind {
    if t == ArrayTag then ArrayKind else ValueKind
  }

  /** The kind list: exactly the enabled kinds, each once, in the order array, object, value. */
  function KindList(cfg: UnpackerConfig): (ks: seq<KindTag>)
    ensures ArrayTag in ks <==> cfg.unpackArrays
    ensures ObjectTag in ks <==> cfg.unpackObjects
    ensures ValueTag in ks <==> cfg.unpackValues
    ensures forall i, j :: 0 <= i < j < |ks| ==> Rank(ks[i]) < Rank(ks[j])
  {
    (if cfg.unpackArrays then [ArrayTag] else []) +
    (if cfg.unpackObjects then [ObjectTag] else []) +
    (if cfg.unpackValues then [ValueTag] else [])
  }

  // ---------------------------------------------------------------------
  // Discovery: findVariableDeclarator
  // ---------------------------------------------------------------------

  /**
   * `constants.some(cls => cls.addDeclarationToScope(node, parent, scope))`:
   * the kinds are tried in order until one catalogues the node, which sets
   * the flag. The object entry is skipped: this is the corrected reading
   * (see Findings in the README); `DeclareFirstAsWritten` below is the code
   * as written, which raises a TypeError there.
   */
  function DeclareFirst(h: Heap, ks: seq<KindTag>, st: DState, n: NodeId, parent: Option<NodeId>): (r: Result<DState>)
    ensures r.Ok? ==> r.value.cursor == st.cursor && (st.found ==> r.value.found)
    decreases |ks|
  {
    if ks == [] then Ok(st)
    else if ks[0] == ObjectTag then DeclareFirst(h, ks[1..], st, n, parent)
    else
      match Declare(h, KindFor(ks[0]), st, n, parent)
      case Err(e) => Err(e)
      case Ok((st', matched)) => if matched then Ok(st'.(found := true)) else DeclareFirst(h, ks[1..], st, n, parent)
  }

  /** The `enter` and `leave` callbacks of discovery. */
  function DiscoverStep(h: Heap, ks: seq<KindTag>): (DState, Event) -> Result<DState> {
    (st: DState, e: Event) =>
      match e
      case Enter(n, parent) =>
        if IsScopeKind(KindOf(h, n)) then Ok(st.(arena := Register(st.arena, n, Some(st.cursor)), cursor := |st.arena|))
        else DeclareFirst(h, ks, st, n, parent)
      case Leave(n) => Ok(st.(cursor := LeaveCursor(st.arena, st.cursor, n)))
  }

  /** One discovery traversal from the global scope, with the flag cleared. */
  function Discover(walk: Walker, h: Heap, root: NodeId, ks: seq<KindTag>, arena: seq<UScope>, consts: seq<Constant>,
                    sets: map<string, set<NodeId>>): Result<DState> {
    Fold(DiscoverStep(h, ks), DState(arena, consts, sets, 0, false), walk(h, root))
  }

  // ---------------------------------------------------------------------
  // Rewrite: unpackConstants
  // ---------------------------------------------------------------------

  /** What the rewrite carries from node to node: the tree, the constants and the cursor. */
  datatype RState = RState(h: Heap, consts: seq<Constant>, cursor: nat)

  /**
   * `constants.some(cls => cls.replaceSimpleAccess(node, parent, scope))`:
   * the rewrite returns nothing, so every kind is offered the node in turn.
   * The object entry is skipped, as in `DeclareFirst` (corrected, see Findings).
   */
  function AccessAll(walk: Walker, arena: seq<UScope>, ks: seq<KindTag>, st: RState, n: NodeId, parent: Option<NodeId>): (r: Result<RState>)
    ensures r.Ok? ==> r.value.cursor == st.cursor
    decreases |ks|
  {
    if ks == [] then Ok(st)
    else if ks[0] == ObjectTag then AccessAll(walk, arena, ks[1..], st, n, parent)
    else
      match Access(walk, st.h, KindFor(ks[0]), arena, st.consts, st.cursor, n, parent)
      case Err(e) => Err(e)
      case Ok(rw) => AccessAll(walk, arena, ks[1..], st.(h := rw.h, consts := rw.consts), n, parent)
  }

  /**
   * The `enter` and `leave` callbacks of the rewrite. A scope node moves the
   * cursor to the child scope discovery registered for it; when there is
   * none the cursor becomes `undefined` and the next use of it raises.
   */
  function RewriteStep(walk: Walker, arena: seq<UScope>, ks: seq<KindTag>): (RState, Event) -> Result<RState> {
    (st: RState, e: Event) =>
      match e
      case Enter(n, parent) =>
        if IsScopeKind(KindOf(st.h, n)) then
          if st.cursor < |arena| && arena[st.cursor].children.Get(n).Some? then
            Ok(st.(cursor := arena[st.cursor].children.Get(n).value))
          else Err(TypeError("the scope of a block is undefined"))
        else AccessAll(walk, arena, ks, st, n, parent)
      case Leave(n) => Ok(st.(cursor := LeaveCursor(arena, st.cursor, n)))
  }

  /** One rewrite traversal from the global scope, over the tree as it is when the traversal starts. */
  function Rewrite(walk: Walker, h: Heap, root: NodeId, ks: seq<KindTag>, arena: seq<UScope>, consts: seq<Constant>): Result<RState> {
    Fold(RewriteStep(walk, arena, ks), RState(h, consts, 0), walk(h, root))
  }

  // ---------------------------------------------------------------------
  // What a round does to the catalogue and to the tree
  // ---------------------------------------------------------------------

  /**
   * One node offered to the kinds either changes nothing, or catalogues that
   * node, which is new and belongs to the tree, and raises the flag.
   */
  lemma {:induction false} DeclareFirstCatalogues(h: Heap, ks: seq<KindTag>, st: DState, n: NodeId, parent: Option<NodeId>)
    requires DeclareFirst(h, ks, st, n, parent).Ok?
    ensures var st' := DeclareFirst(h, ks, st, n, parent).value;
            || st' == st
            || (&& n in h && n !in Catalogued(st.sets, PrototypeKey)
                && Catalogued(st'.sets, PrototypeKey) == Catalogued(st.sets, PrototypeKey) + {n}
                && st'.found)
    decreases |ks|
  {
    if ks != [] {
      if ks[0] == ObjectTag {
        DeclareFirstCatalogues(h, ks[1..], st, n, parent);
      } else {
        var r := Declare(h, KindFor(ks[0]), st, n, parent);
        if !r.value.1 {
          DeclareFirstCatalogues(h, ks[1..], st, n, parent);
        }
      }
    }
  }

  /** The catalogue only grows, by nodes of the tree, and the flag is up exactly when it grew. */
  ghost predicate Grown(h: Heap, c0: set<NodeId>, st: DState) {
    var c := Catalogued(st.sets, PrototypeKey);
    c0 <= c && c <= c0 + h.Keys && (st.found <==> c != c0)
  }

  /** `findVariableDeclarator` returns true exactly when it catalogued a node that was not catalogued before. */
  lemma DiscoverFindsNew(walk: Walker, h: Heap, root: NodeId, ks: seq<KindTag>, arena: seq<UScope>, consts: seq<Constant>,
                         sets: map<string, set<NodeId>>)
    requires Discover(walk, h, root, ks, arena, consts, sets).Ok?
    ensures Grown(h, Catalogued(sets, PrototypeKey), Discover(walk, h, root, ks, arena, consts, sets).value)
  {
    var c0 := Catalogued(sets, PrototypeKey);
    var step := DiscoverStep(h, ks);
    var P := (st: DState) => Grown(h, c0, st);
    forall t: DState, e: Event | P(t) && step(t, e).Ok? ensures P(step(t, e).value) {
      if e.Enter? && !IsScopeKind(KindOf(h, e.node)) {
        DeclareFirstCatalogues(h, ks, t, e.node, e.parent);
      }
    }
    FoldKeeps(step, P, DState(arena, consts, sets, 0, false), walk(h, root));
  }

  /** Offering a node to every kind edits the tree but never adds or drops a node record. */
  lemma {:induction false} AccessAllKeepsKeys(walk: Walker, arena: seq<UScope>, ks: seq<KindTag>, st: RState, n: NodeId, parent: Option<NodeId>)
    requires AccessAll(walk, arena, ks, st, n, parent).Ok?
    ensures AccessAll(walk, arena, ks, st, n, parent).value.h.Keys == st.h.Keys
    decreases |ks|
  {
    if ks != [] {
      if ks[0] == ObjectTag {
        AccessAllKeepsKeys(walk, arena, ks[1..], st, n, parent);
      } else {
        var rw := Access(walk, st.h, KindFor(ks[0]), arena, st.consts, st.cursor, n, parent).value;
        if parent.Some? {
          ReplaceKeepsKeys(st.h, walk(st.h, parent.value), n, One(0), 1, false);
          forall x { ReplaceKeepsKeys(st.h, walk(st.h, parent.value), n, One(x), 1, false); }
        }
        assert rw.h.Keys == st.h.Keys;
        AccessAllKeepsKeys(walk, arena, ks[1..], st.(h := rw.h, consts := rw.consts), n, parent);
      }
    }
  }

  /** `unpackConstants` keeps the set of node records. */
  lemma RewriteKeepsKeys(walk: Walker, h: Heap, root: NodeId, ks: seq<KindTag>, arena: seq<UScope>, consts: seq<Constant>)
    requires Rewrite(walk, h, root, ks, arena, consts).Ok?
    ensures Rewrite(walk, h, root, ks, arena, consts).value.h.Keys == h.Keys
  {
    var step := RewriteStep(walk, arena, ks);
    var P := (st: RState) => st.h.Keys == h.Keys;
    forall t: RState, e: Event | P(t) && step(t, e).Ok? ensures P(step(t, e).value) {
      if e.Enter? && !IsScopeKind(KindOf(t.h, e.node)) {
        AccessAllKeepsKeys(walk, arena, ks, t, e.node, e.parent);
      }
    }
    FoldKeeps(step, P, RState(h, consts, 0), walk(h, root));
  }

  /** A round that found something leaves fewer uncatalogued nodes of the tree. */
  lemma UncataloguedShrinks(keys: set<NodeId>, c0: set<NodeId>, c: set<NodeId>)
    requires c0 <= c && c <= c0 + keys && c != c0
    ensures |keys - c| < |keys - c0|
  {
    var x :| x in c && x !in c0;
    var a, b := keys - c, keys - c0;
    assert x in b - a;
    assert b == a + (b - a) && a * (b - a) == {};
    assert |b - a| >= 1;
  }

  // ---------------------------------------------------------------------
  // execute
  // ---------------------------------------------------------------------

  /** The state a pass carries between rounds: the tree, the scopes, the constants and `NODES_MAP`. */
  datatype Pass = Pass(h: Heap, arena: seq<UScope>, consts: seq<Constant>, sets: map<string, set<NodeId>>)

  /**
   * One iteration of `while (this.findVariableDeclarator()) this.unpackConstants();`:
   * a discovery and, when it found something, a rewrite; the flag says
   * whether the loop goes on. A round that goes on catalogues a further node
   * of the tree and keeps the tree's nodes, so fewer nodes remain uncatalogued.
   */
  function Round(walk: Walker, root: NodeId, ks: seq<KindTag>, p: Pass): (r: Result<(Pass, bool)>)
    ensures r.Ok? && r.value.1 ==>
              |r.value.0.h.Keys - Catalogued(r.value.0.sets, PrototypeKey)| < |p.h.Keys - Catalogued(p.sets, PrototypeKey)|
  {
    match Discover(walk, p.h, root, ks, p.arena, p.consts, p.sets)
    case Err(e) => Err(e)
    case Ok(d) =>
      if !d.found then Ok((Pass(p.h, d.arena, d.consts, d.sets), false))
      else
        match Rewrite(walk, p.h, root, ks, d.arena, d.consts)
        case Err(e) => Err(e)
        case Ok(rs) =>
          DiscoverFindsNew(walk, p.h, root, ks, p.arena, p.consts, p.sets);
          RewriteKeepsKeys(walk, p.h, root, ks, d.arena, d.consts);
          UncataloguedShrinks(p.h.Keys, Catalogued(p.sets, PrototypeKey), Catalogued(d.sets, PrototypeKey));
          Ok((Pass(rs.h, d.arena, rs.consts, d.sets), true))
  }

  /** The whole loop: rounds until one stops it, or fails. */
  function Rounds(walk: Walker, root: NodeId, ks: seq<KindTag>, p: Pass): Result<Pass>
    decreases |p.h.Keys - Catalogued(p.sets, PrototypeKey)|
  {
    match Round(walk, root, ks, p)
    case Err(e) => Err(e)
    case Ok((q, more)) => if more then Rounds(walk, root, ks, q) else Ok(q)
  }

  /** `execute()`: the rounds, then, when configured, the removal from the global scope. */
  function Run(walk: Walker, root: NodeId, cfg: UnpackerConfig, p: Pass): Result<Pass> {
    match Rounds(walk, root, KindList(cfg), p)
    case Err(e) => Err(e)
    case Ok(q) =>
      if !cfg.shouldRemove then Ok(q)
      else
        match RemoveSpec(walk, q.h, q.arena, q.consts, 0)
        case Err(e) => Err(e)
        case Ok(h') => Ok(q.(h := h'))
  }

  // ---------------------------------------------------------------------
  // Per node: the first kind that catalogues wins; every kind may rewrite
  // ---------------------------------------------------------------------

  /** No enabled kind would catalogue node `n` against the catalogue `c`. */
  predicate Refused(h: Heap, ks: seq<KindTag>, c: set<NodeId>, n: NodeId) {
    forall k :: 0 <= k < |ks| && ks[k] != ObjectTag ==>
      DeclaratorOf(h, n, c).None? || Candidate(h, KindFor(ks[k]), Child(h, n, "init").value).None?
  }

  /**
   * Discovery stops at the first kind that catalogues the node: when every
   * earlier kind refuses and kind `i` succeeds, the later kinds are never
   * consulted and the result is kind `i`'s with the flag raised.
   */
  lemma {:induction false} DeclareFirstStopsAtFirst(h: Heap, ks: seq<KindTag>, i: nat, st: DState, n: NodeId, parent: Option<NodeId>, st': DState)
    requires i < |ks| && ks[i] != ObjectTag
    requires Refused(h, ks[..i], Catalogued(st.sets, PrototypeKey), n)
    requires Declare(h, KindFor(ks[i]), st, n, parent) == Ok((st', true))
    ensures DeclareFirst(h, ks, st, n, parent) == Ok(st'.(found := true))
    decreases i
  {
    if i > 0 {
      if ks[0] != ObjectTag {
        assert ks[..i][0] == ks[0];
        assert Declare(h, KindFor(ks[0]), st, n, parent) == Ok((st, false));
      }
      assert ks[1..][..i - 1] == ks[..i][1..];
      DeclareFirstStopsAtFirst(h, ks[1..], i - 1, st, n, parent, st');
    }
  }

  /** With the flag down, a node leaves the discovery state untouched exactly when every kind refuses it. */
  lemma {:induction false} DeclareFirstRefused(h: Heap, ks: seq<KindTag>, st: DState, n: NodeId, parent: Option<NodeId>)
    requires !st.found
    ensures DeclareFirst(h, ks, st, n, parent) == Ok(st) <==> Refused(h, ks, Catalogued(st.sets, PrototypeKey), n)
    decreases |ks|
  {
    var c := Catalogued(st.sets, PrototypeKey);
    if ks != [] {
      DeclareFirstRefused(h, ks[1..], st, n, parent);
      assert forall k :: 0 <= k < |ks| - 1 ==> ks[1..][k] == ks[k + 1];
      if ks[0] != ObjectTag {
        var r := Declare(h, KindFor(ks[0]), st, n, parent);
        if r.Ok? && !r.value.1 {
          assert DeclaratorOf(h, n, c).None? || Candidate(h, KindFor(ks[0]), Child(h, n, "init").value).None?;
        } else {
          assert !Refused(h, ks, c, n) by {
            assert ks[0] != ObjectTag;
            assert !(DeclaratorOf(h, n, c).None? || Candidate(h, KindFor(ks[0]), Child(h, n, "init").value).None?);
          }
        }
      }
    }
  }

  /** Discovery from position `k` of the kind list: kind `k` decides, or hands over to position `k + 1`. */
  lemma DeclareFirstAt(h: Heap, ks: seq<KindTag>, k: nat, st: DState, n: NodeId, parent: Option<NodeId>)
    requires k < |ks|
    ensures ks[k] == ObjectTag ==> DeclareFirst(h, ks[k..], st, n, parent) == DeclareFirst(h, ks[k + 1..], st, n, parent)
    ensures ks[k] != ObjectTag ==>
              DeclareFirst(h, ks[k..], st, n, parent) ==
              match Declare(h, KindFor(ks[k]), st, n, parent)
              case Err(e) => Err(e)
              case Ok((st', matched)) => if matched then Ok(st'.(found := true)) else DeclareFirst(h, ks[k + 1..], st, n, parent)
  {
    assert ks[k..][0] == ks[k] && ks[k..][1..] == ks[k + 1..];
  }

  /** The step that offers a node to one kind in the rewrite. */
  function OfferStep(walk: Walker, arena: seq<UScope>, n: NodeId, parent: Option<NodeId>): (RState, KindTag) -> Result<RState> {
    (st: RState, t: KindTag) =>
      if t == ObjectTag then Ok(st)
      else
        match Access(walk, st.h, KindFor(t), arena, st.consts, st.cursor, n, parent)
        case Err(e) => Err(e)
        case Ok(rw) => Ok(st.(h := rw.h, consts := rw.consts))
  }

  /**
   * The rewrite never short-circuits: offering a node to the kinds is the
   * fold of one offer per kind over the whole list, each seeing the tree and
   * counters the previous one left.
   */
  lemma {:induction false} AccessAllOffersEveryKind(walk: Walker, arena: seq<UScope>, ks: seq<KindTag>, st: RState, n: NodeId, parent: Option<NodeId>)
    ensures AccessAll(walk, arena, ks, st, n, parent) == Fold(OfferStep(walk, arena, n, parent), st, ks)
    decreases |ks|
  {
    var step := OfferStep(walk, arena, n, parent);
    if ks != [] {
      assert ks == [ks[0]] + ks[1..];
      FoldAppend(step, st, [ks[0]], ks[1..]);
      assert Fold(step, st, [ks[0]]) == step(st, ks[0]) by {
        assert [ks[0]][..0] == [];
      }
      match step(st, ks[0])
      case Err(_) =>
      case Ok(t) => AccessAllOffersEveryKind(walk, arena, ks[1..], t, n, parent);
    }
  }

  // ---------------------------------------------------------------------
  // The scope cursor on entering and leaving a block
  // ---------------------------------------------------------------------

  /**
   * In discovery, entering a block moves the cursor to a blank scope
   * registered for the block under the current scope, replacing any scope an
   * earlier round registered for it, and leaving the block moves it back.
   */
  lemma DiscoverBlockRoundTrip(h: Heap, ks: seq<KindTag>, st: DState, n: NodeId, parent: Option<NodeId>)
    requires IsScopeKind(KindOf(h, n)) && st.cursor < |st.arena|
    ensures var st1 := DiscoverStep(h, ks)(st, Enter(n, parent));
            && st1.Ok? && st1.value.cursor == |st.arena|
            && st1.value.arena[st1.value.cursor] == Scope(n, Some(st.cursor), EmptyMap(), EmptyMap())
            && st1.value.arena[st.cursor].children.Get(n) == Some(st1.value.cursor)
            && DiscoverStep(h, ks)(st1.value, Leave(n)) == Ok(st1.value.(cursor := st.cursor))
  {
  }

  /**
   * In the rewrite, entering a block moves the cursor to the scope discovery
   * registered for it, and leaving the block moves it back.
   */
  lemma RewriteBlockRoundTrip(walk: Walker, arena: seq<UScope>, ks: seq<KindTag>, st: RState, n: NodeId, parent: Option<NodeId>, c: nat)
    requires IsScopeKind(KindOf(st.h, n)) && st.cursor < |arena|
    requires arena[st.cursor].children.Get(n) == Some(c) && c < |arena|
    requires arena[c] == Scope(n, Some(st.cursor), arena[c].children, arena[c].mapping)
    ensures var st1 := RewriteStep(walk, arena, ks)(st, Enter(n, parent));
            && st1 == Ok(st.(cursor := c))
            && RewriteStep(walk, arena, ks)(st1.value, Leave(n)) == Ok(st)
  {
  }

  // ---------------------------------------------------------------------
  // Bindings persist across rounds
  // ---------------------------------------------------------------------

  /** Every scope of `a0` is still in `a`, binding every name it bound to the same constant. */
  ghost predicate KeepsBindings(a0: seq<UScope>, a: seq<UScope>) {
    |a0| <= |a| &&
    forall t, m :: 0 <= t < |a0| && m in a0[t].mapping.entries ==> a[t].mapping.Get(m) == a0[t].mapping.Get(m)
  }

  lemma {:induction false} DeclareFirstKeepsBindings(h: Heap, ks: seq<KindTag>, st: DState, n: NodeId, parent: Option<NodeId>)
    requires DeclareFirst(h, ks, st, n, parent).Ok?
    ensures KeepsBindings(st.arena, DeclareFirst(h, ks, st, n, parent).value.arena)
    decreases |ks|
  {
    if ks != [] {
      if ks[0] == ObjectTag {
        DeclareFirstKeepsBindings(h, ks[1..], st, n, parent);
      } else {
        var r := Declare(h, KindFor(ks[0]), st, n, parent);
        if !r.value.1 {
          DeclareFirstKeepsBindings(h, ks[1..], st, n, parent);
        }
      }
    }
  }

  /**
   * A discovery traversal never unbinds or rebinds a name: whatever the
   * scopes it starts from bind, the global scope included, they still bind
   * afterwards. Child scopes of blocks are re-created instead, so only
   * bindings made in the global scope reach the next round's lookups.
   */
  lemma DiscoverKeepsBindings(walk: Walker, h: Heap, root: NodeId, ks: seq<KindTag>, arena: seq<UScope>, consts: seq<Constant>,
                              sets: map<string, set<NodeId>>)
    requires Discover(walk, h, root, ks, arena, consts, sets).Ok?
    ensures KeepsBindings(arena, Discover(walk, h, root, ks, arena, consts, sets).value.arena)
  {
    var step := DiscoverStep(h, ks);
    var P := (st: DState) => KeepsBindings(arena, st.arena);
    forall t: DState, e: Event | P(t) && step(t, e).Ok? ensures P(step(t, e).value) {
      if e.Enter? && !IsScopeKind(KindOf(h, e.node)) {
        DeclareFirstKeepsBindings(h, ks, t, e.node, e.parent);
      }
    }
    FoldKeeps(step, P, DState(arena, consts, sets, 0, false), walk(h, root));
  }

  // ---------------------------------------------------------------------
  // Every constant has a declarator of its own
  // ---------------------------------------------------------------------

  /** No two constants share a declarator, and every constant's declarator is catalogued in `NODES_MAP`. */
  ghost predicate OwnDeclarators(consts: seq<Constant>, sets: map<string, set<NodeId>>) {
    && DistinctDeclarators(consts)
    && forall i :: 0 <= i < |consts| ==> consts[i].node in Catalogued(sets, PrototypeKey)
  }

  lemma {:induction false} DeclareFirstOwnDeclarators(h: Heap, ks: seq<KindTag>, st: DState, n: NodeId, parent: Option<NodeId>)
    requires OwnDeclarators(st.consts, st.sets) && DeclareFirst(h, ks, st, n, parent).Ok?
    ensures OwnDeclarators(DeclareFirst(h, ks, st, n, parent).value.consts, DeclareFirst(h, ks, st, n, parent).value.sets)
    decreases |ks|
  {
    if ks != [] {
      if ks[0] == ObjectTag {
        DeclareFirstOwnDeclarators(h, ks[1..], st, n, parent);
      } else {
        var r := Declare(h, KindFor(ks[0]), st, n, parent);
        if !r.value.1 {
          DeclareFirstOwnDeclarators(h, ks[1..], st, n, parent);
        } else {
          var st' := r.value.0;
          assert forall i :: 0 <= i < |st.consts| ==> st'.consts[i] == st.consts[i];
          assert st'.consts[|st.consts|].node == n;
        }
      }
    }
  }

  /**
   * Discovery gives every new constant a declarator of its own: a declarator
   * is catalogued when its constant is made, and a catalogued declarator is
   * refused by every kind.
   */
  lemma DiscoverOwnDeclarators(walk: Walker, h: Heap, root: NodeId, ks: seq<KindTag>, arena: seq<UScope>, consts: seq<Constant>,
                               sets: map<string, set<NodeId>>)
    requires OwnDeclarators(consts, sets) && Discover(walk, h, root, ks, arena, consts, sets).Ok?
    ensures OwnDeclarators(Discover(walk, h, root, ks, arena, consts, sets).value.consts,
                           Discover(walk, h, root, ks, arena, consts, sets).value.sets)
  {
    var step := DiscoverStep(h, ks);
    var P := (st: DState) => OwnDeclarators(st.consts, st.sets);
    forall t: DState, e: Event | P(t) && step(t, e).Ok? ensures P(step(t, e).value) {
      if e.Enter? && !IsScopeKind(KindOf(h, e.node)) {
        DeclareFirstOwnDeclarators(h, ks, t, e.node, e.parent);
      }
    }
    FoldKeeps(step, P, DState(arena, consts, sets, 0, false), walk(h, root));
  }

  lemma {:induction false} AccessAllKeepsDeclarators(walk: Walker, arena: seq<UScope>, ks: seq<KindTag>, st: RState, n: NodeId, parent: Option<NodeId>)
    requires AccessAll(walk, arena, ks, st, n, parent).Ok?
    ensures SameDeclarators(st.consts, AccessAll(walk, arena, ks, st, n, parent).value.consts)
    decreases |ks|
  {
    if ks != [] {
      if ks[0] == ObjectTag {
        AccessAllKeepsDeclarators(walk, arena, ks[1..], st, n, parent);
      } else {
        var rw := Access(walk, st.h, KindFor(ks[0]), arena, st.consts, st.cursor, n, parent).value;
        assert SameDeclarators(st.consts, rw.consts);
        AccessAllKeepsDeclarators(walk, arena, ks[1..], st.(h := rw.h, consts := rw.consts), n, parent);
      }
    }
  }

  /** The rewrite changes the constants' counters only. */
  lemma RewriteKeepsDeclarators(walk: Walker, h: Heap, root: NodeId, ks: seq<KindTag>, arena: seq<UScope>, consts: seq<Constant>)
    requires Rewrite(walk, h, root, ks, arena, consts).Ok?
    ensures SameDeclarators(consts, Rewrite(walk, h, root, ks, arena, consts).value.consts)
  {
    var step := RewriteStep(walk, arena, ks);
    var P := (st: RState) => SameDeclarators(consts, st.consts);
    forall t: RState, e: Event | P(t) && step(t, e).Ok? ensures P(step(t, e).value) {
      if e.Enter? && !IsScopeKind(KindOf(t.h, e.node)) {
        AccessAllKeepsDeclarators(walk, arena, ks, t, e.node, e.parent);
      }
    }
    FoldKeeps(step, P, RState(h, consts, 0), walk(h, root));
  }

  /** Every state the rounds reach keeps each constant's declarator its own. */
  lemma {:induction false} RoundsOwnDeclarators(walk: Walker, root: NodeId, ks: seq<KindTag>, p: Pass)
    requires OwnDeclarators(p.consts, p.sets) && Rounds(walk, root, ks, p).Ok?
    ensures OwnDeclarators(Rounds(walk, root, ks, p).value.consts, Rounds(walk, root, ks, p).value.sets)
    decreases |p.h.Keys - Catalogued(p.sets, PrototypeKey)|
  {
    DiscoverOwnDeclarators(walk, p.h, root, ks, p.arena, p.consts, p.sets);
    var d := Discover(walk, p.h, root, ks, p.arena, p.consts, p.sets).value;
    if d.found {
      RewriteKeepsDeclarators(walk, p.h, root, ks, d.arena, d.consts);
      RoundsOwnDeclarators(walk, root, ks, Round(walk, root, ks, p).value.0);
    }
  }

  /**
   * `execute` from a pass with no constants yet: the clean-up keeps the
   * declarator of every constant that is used somewhere, in every node that
   * held it when the rounds ended.
   */
  lemma RunKeepsUsedDeclarators(walk: Walker, root: NodeId, cfg: UnpackerConfig, p: Pass, c: nat, q0: NodeId)
    requires p.consts == [] && Rounds(walk, root, KindList(cfg), p).Ok?
    requires var q := Rounds(walk, root, KindList(cfg), p).value;
      c < |q.consts| && q.consts[c].overrideCount > 0 && HoldsChild(q.h, q0, q.consts[c].node)
    ensures Run(walk, root, cfg, p).Ok? ==>
              HoldsChild(Run(walk, root, cfg, p).value.h, q0, Rounds(walk, root, KindList(cfg), p).value.consts[c].node)
  {
    var q := Rounds(walk, root, KindList(cfg), p).value;
    RoundsOwnDeclarators(walk, root, KindList(cfg), p);
    if cfg.shouldRemove {
      UsedConstantsStay(walk, q.h, q.arena, q.consts, 0, c, q0);
    }
  }

  // ---------------------------------------------------------------------
  // The rounds end at a fixed point
  // ---------------------------------------------------------------------

  /** No node entered outside a block header would be catalogued against `c`. */
  ghost predicate Quiet(h: Heap, ks: seq<KindTag>, c: set<NodeId>, es: seq<Event>) {
    forall i :: 0 <= i < |es| && es[i].Enter? && !IsScopeKind(KindOf(h, es[i].node)) ==> Refused(h, ks, c, es[i].node)
  }

  /** A discovery that ends with the flag down changed no catalogue and met only refused nodes. */
  lemma {:induction false} QuietIfNothingFound(h: Heap, ks: seq<KindTag>, s0: DState, es: seq<Event>)
    requires !s0.found
    requires Fold(DiscoverStep(h, ks), s0, es).Ok? && !Fold(DiscoverStep(h, ks), s0, es).value.found
    ensures Quiet(h, ks, Catalogued(s0.sets, PrototypeKey), es)
    ensures Fold(DiscoverStep(h, ks), s0, es).value.sets == s0.sets
    decreases |es|
  {
    if es != [] {
      var step := DiscoverStep(h, ks);
      var pre, e := es[..|es| - 1], es[|es| - 1];
      var t := Fold(step, s0, pre).value;
      assert step(t, e) == Fold(step, s0, es);
      if e.Enter? && !IsScopeKind(KindOf(h, e.node)) {
        DeclareFirstCatalogues(h, ks, t, e.node, e.parent);
      }
      QuietIfNothingFound(h, ks, s0, pre);
      if e.Enter? && !IsScopeKind(KindOf(h, e.node)) {
        DeclareFirstRefused(h, ks, t, e.node, e.parent);
      }
      forall i | 0 <= i < |es| && es[i].Enter? && !IsScopeKind(KindOf(h, es[i].node))
        ensures Refused(h, ks, Catalogued(s0.sets, PrototypeKey), es[i].node)
      {
        if i < |pre| {
          assert es[i] == pre[i];
        }
      }
    }
  }

  /** Conversely, a traversal that meets only refused nodes succeeds with the flag down and no catalogue changed. */
  lemma {:induction false} NothingFoundIfQuiet(h: Heap, ks: seq<KindTag>, s0: DState, es: seq<Event>)
    requires !s0.found && Quiet(h, ks, Catalogued(s0.sets, PrototypeKey), es)
    ensures Fold(DiscoverStep(h, ks), s0, es).Ok?
    ensures !Fold(DiscoverStep(h, ks), s0, es).value.found && Fold(DiscoverStep(h, ks), s0, es).value.sets == s0.sets
    decreases |es|
  {
    if es != [] {
      var step := DiscoverStep(h, ks);
      var pre, e := es[..|es| - 1], es[|es| - 1];
      forall i | 0 <= i < |pre| && pre[i].Enter? && !IsScopeKind(KindOf(h, pre[i].node))
        ensures Refused(h, ks, Catalogued(s0.sets, PrototypeKey), pre[i].node)
      {
        assert pre[i] == es[i];
      }
      NothingFoundIfQuiet(h, ks, s0, pre);
      var t := Fold(step, s0, pre).value;
      if e.Enter? && !IsScopeKind(KindOf(h, e.node)) {
        DeclareFirstRefused(h, ks, t, e.node, e.parent);
      }
    }
  }

  /**
   * When the rounds stop, another discovery over the final tree, scopes and
   * catalogue would succeed, find nothing and catalogue nothing: the loop
   * stops at a fixed point of discovery.
   */
  lemma {:induction false} RoundsEndQuiet(walk: Walker, root: NodeId, ks: seq<KindTag>, p: Pass)
    requires Rounds(walk, root, ks, p).Ok?
    ensures var q := Rounds(walk, root, ks, p).value;
            var d := Discover(walk, q.h, root, ks, q.arena, q.consts, q.sets);
            d.Ok? && !d.value.found && d.value.sets == q.sets
    decreases |p.h.Keys - Catalogued(p.sets, PrototypeKey)|
  {
    var d := Discover(walk, p.h, root, ks, p.arena, p.consts, p.sets).value;
    var es := walk(p.h, root);
    if !d.found {
      QuietIfNothingFound(p.h, ks, DState(p.arena, p.consts, p.sets, 0, false), es);
      NothingFoundIfQuiet(p.h, ks, DState(d.arena, d.consts, d.sets, 0, false), es);
    } else {
      RoundsEndQuiet(walk, root, ks, Round(walk, root, ks, p).value.0);
    }
  }

  // ---------------------------------------------------------------------
  // The object entry of the kind list
  // ---------------------------------------------------------------------

  /**
   * Discovery as written: the object entry of the kind list is the `RObject`
   * prototype, which has no `addDeclarationToScope`, so offering it a node
   * raises a TypeError.
   */
  function DeclareFirstAsWritten(h: Heap, ks: seq<KindTag>, st: DState, n: NodeId, parent: Option<NodeId>): Result<DState>
    decreases |ks|
  {
    if ks == [] then Ok(st)
    else if ks[0] == ObjectTag then Err(TypeError("constant_cls.addDeclarationToScope is not a function"))
    else
      match Declare(h, KindFor(ks[0]), st, n, parent)
      case Err(e) => Err(e)
      case Ok((st', matched)) => if matched then Ok(st'.(found := true)) else DeclareFirstAsWritten(h, ks[1..], st, n, parent)
  }

  function DiscoverStepAsWritten(h: Heap, ks: seq<KindTag>): (DState, Event) -> Result<DState> {
    (st: DState, e: Event) =>
      if e.Enter? && !IsScopeKind(KindOf(h, e.node)) then DeclareFirstAsWritten(h, ks, st, e.node, e.parent)
      else DiscoverStep(h, ks)(st, e)
  }

  /**
   * With `unpackObjects` set, the first discovery fails on the very first node
   * it enters, the `Script` root, which no kind before the object entry
   * accepts.
   */
  lemma ObjectEntryRaisesOnScript(walk: Walker, h: Heap, root: NodeId, cfg: UnpackerConfig, arena: seq<UScope>,
                                  consts: seq<Constant>, sets: map<string, set<NodeId>>)
    requires cfg.unpackObjects && KindOf(h, root) == "Script"
    requires |walk(h, root)| > 0 && walk(h, root)[0] == Enter(root, None)
    ensures Fold(DiscoverStepAsWritten(h, KindList(cfg)), DState(arena, consts, sets, 0, false), walk(h, root)) ==
            Err(TypeError("constant_cls.addDeclarationToScope is not a function"))
  {
    var step := DiscoverStepAsWritten(h, KindList(cfg));
    var s0 := DState(arena, consts, sets, 0, false);
    var es := walk(h, root);
    var ks := KindList(cfg);
    var err := Err(TypeError("constant_cls.addDeclarationToScope is not a function"));
    assert !IsNamedDeclarator(h, root);
    if cfg.unpackArrays {
      assert ks[0] == ArrayTag && ks[1..][0] == ObjectTag;
      assert Declare(h, ArrayKind, s0, root, None) == Ok((s0, false));
      assert DeclareFirstAsWritten(h, ks[1..], s0, root, None) == err;
    } else {
      assert ks[0] == ObjectTag;
    }
    assert DeclareFirstAsWritten(h, ks, s0, root, None) == err;
    assert !IsScopeKind(KindOf(h, root));
    assert step(s0, es[0]) == err;
    assert [es[0]][..0] == [];
    assert Fold(step, s0, [es[0]]) == step(s0, es[0]);
    assert es[..1] == [es[0]];
    FoldErrPrefix(step, s0, [es[0]], es);
  }

  /** Dropping an object entry from anywhere in the list changes nothing about discovery. */
  lemma {:induction false} DeclareFirstSkipsObject(h: Heap, pre: seq<KindTag>, post: seq<KindTag>, st: DState, n: NodeId, parent: Option<NodeId>)
    ensures DeclareFirst(h, pre + [ObjectTag] + post, st, n, parent) == DeclareFirst(h, pre + post, st, n, parent)
    decreases |pre|
  {
    if pre == [] {
      assert (pre + [ObjectTag] + post)[1..] == pre + post;
    } else {
      assert (pre + [ObjectTag] + post)[1..] == pre[1..] + [ObjectTag] + post;
      assert (pre + post)[1..] == pre[1..] + post;
      DeclareFirstSkipsObject(h, pre[1..], post, st, n, parent);
    }
  }

  /** Nor the rewrite. */
  lemma {:induction false} AccessAllSkipsObject(walk: Walker, arena: seq<UScope>, pre: seq<KindTag>, post: seq<KindTag>, st: RState,
                                                n: NodeId, parent: Option<NodeId>)
    ensures AccessAll(walk, arena, pre + [ObjectTag] + post, st, n, parent) == AccessAll(walk, arena, pre + post, st, n, parent)
    decreases |pre|
  {
    if pre == [] {
      assert (pre + [ObjectTag] + post)[1..] == pre + post;
    } else {
      assert (pre + [ObjectTag] + post)[1..] == pre[1..] + [ObjectTag] + post;
      assert (pre + post)[1..] == pre[1..] + post;
      if pre[0] != ObjectTag {
        match Access(walk, st.h, KindFor(pre[0]), arena, st.consts, st.cursor, n, parent)
        case Err(_) =>
        case Ok(rw) => AccessAllSkipsObject(walk, arena, pre[1..], post, st.(h := rw.h, consts := rw.consts), n, parent);
      } else {
        AccessAllSkipsObject(walk, arena, pre[1..], post, st, n, parent);
      }
    }
  }

  /**
   * In the corrected pass, enabling `unpackObjects` has no effect at all: per
   * node, discovery and rewrite behave as with the flag cleared.
   */
  lemma ObjectFlagInert(walk: Walker, h: Heap, cfg: UnpackerConfig, arena: seq<UScope>, st: DState, rst: RState,
                        n: NodeId, parent: Option<NodeId>)
    ensures DeclareFirst(h, KindList(cfg), st, n, parent) == DeclareFirst(h, KindList(cfg.(unpackObjects := false)), st, n, parent)
    ensures AccessAll(walk, arena, KindList(cfg), rst, n, parent) ==
            AccessAll(walk, arena, KindList(cfg.(unpackObjects := false)), rst, n, parent)
  {
    if cfg.unpackObjects {
      var pre := if cfg.unpackArrays then [ArrayTag] else [];
      var post := if cfg.unpackValues then [ValueTag] else [];
      assert KindList(cfg) == pre + [ObjectTag] + post;
      assert KindList(cfg.(unpackObjects := false)) == pre + post;
      DeclareFirstSkipsObject(h, pre, post, st, n, parent);
      AccessAllSkipsObject(walk, arena, pre, post, rst, n, parent);
    }
  }

  // ---------------------------------------------------------------------
  // The pass object
  // ---------------------------------------------------------------------

  /** `ConstantUnpacker`: the tree it rewrites, its scopes, `NODES_MAP` and its kind list. */
  class Unpacker {
    const tree: Tree
    const scopes: Scopes
    const registry: NodesMap
    const root: NodeId
    const config: UnpackerConfig
    const kinds: seq<KindTag>

    /** The constructor: a global scope for the whole program and the kinds the configuration enables. */
    constructor (tree: Tree, registry: NodesMap, root: NodeId, config: UnpackerConfig)
      ensures this.tree == tree && this.registry == registry && this.root == root && this.config == config
      ensures kinds == KindList(config)
      ensures scopes.arena == [Scope(root, None, EmptyMap(), EmptyMap())] && scopes.constants == []
    {
      this.tree := tree;
      this.registry := registry;
      this.root := root;
      this.config := config;
      scopes := new Scopes(root);
      var ks := [];
      if config.unpackArrays {
        ks := ks + [ArrayTag];
      }
      if config.unpackObjects {
        ks := ks + [ObjectTag];
      }
      if config.unpackValues {
        ks := ks + [ValueTag];
      }
      kinds := ks;
    }

    /** The `some` over the kinds in the discovery's `enter`: the kinds are tried until one catalogues the node. */
    method OfferDeclaration(cursor: nat, found: bool, n: NodeId, parent: Option<NodeId>) returns (found': bool, err: Option<Error>)
      modifies scopes, registry
      ensures match DeclareFirst(tree.nodes, kinds, DState(old(scopes.arena), old(scopes.constants), old(registry.sets), cursor, found), n, parent)
        case Ok(st) =>
          err.None? && found' == st.found && scopes.arena == st.arena && scopes.constants == st.consts && registry.sets == st.sets
        case Err(e) => err == Some(e)
    {
      ghost var st0 := DState(scopes.arena, scopes.constants, registry.sets, cursor, found);
      var matched := false;
      var k := 0;
      while k < |kinds| && !matched
        invariant 0 <= k <= |kinds|
        invariant !matched ==> DState(scopes.arena, scopes.constants, registry.sets, cursor, found) == st0
        invariant !matched ==> DeclareFirst(tree.nodes, kinds, st0, n, parent) == DeclareFirst(tree.nodes, kinds[k..], st0, n, parent)
        invariant matched ==>
          DeclareFirst(tree.nodes, kinds, st0, n, parent) == Ok(DState(scopes.arena, scopes.constants, registry.sets, cursor, true))
      {
        DeclareFirstAt(tree.nodes, kinds, k, st0, n, parent);
        if kinds[k] != ObjectTag {
          var m, e := AddDeclarationToScope(KindFor(kinds[k]), tree.nodes, scopes, registry, cursor, n, parent);
          if e.Some? {
            return found, e;
          }
          matched := m;
        }
        k := k + 1;
      }
      found' := found || matched;
      err := None;
    }

    /** The `some` over the kinds in the rewrite's `enter`: every kind is offered the node. */
    method OfferAccess(walk: Walker, cursor: nat, n: NodeId, parent: Option<NodeId>) returns (err: Option<Error>)
      requires tree.Valid()
      modifies tree, scopes
      ensures tree.Valid() && tree.next == old(tree.next) && tree.nodes.Keys == old(tree.nodes).Keys
      ensures scopes.arena == old(scopes.arena)
      ensures match AccessAll(walk, old(scopes.arena), kinds, RState(old(tree.nodes), old(scopes.constants), cursor), n, parent)
        case Ok(st) => err.None? && tree.nodes == st.h && scopes.constants == st.consts
        case Err(e) => err == Some(e)
    {
      ghost var st0 := RState(tree.nodes, scopes.constants, cursor);
      var k := 0;
      while k < |kinds|
        invariant 0 <= k <= |kinds|
        invariant tree.Valid() && tree.next == old(tree.next) && tree.nodes.Keys == old(tree.nodes).Keys
        invariant scopes.arena == old(scopes.arena)
        invariant AccessAll(walk, scopes.arena, kinds, st0, n, parent) ==
                  AccessAll(walk, scopes.arena, kinds[k..], RState(tree.nodes, scopes.constants, cursor), n, parent)
      {
        assert kinds[k..][0] == kinds[k] && kinds[k..][1..] == kinds[k + 1..];
        if kinds[k] != ObjectTag {
          err := ReplaceSimpleAccess(KindFor(kinds[k]), walk, tree, scopes, cursor, n, parent);
          if err.Some? {
            return;
          }
        }
        k := k + 1;
      }
      err := None;
    }

    /** The discovery's `enter` or `leave` callback for one event. */
    method DiscoverEvent(cursor: nat, found: bool, e: Event) returns (cursor': nat, found': bool, err: Option<Error>)
      modifies scopes, registry
      ensures match DiscoverStep(tree.nodes, kinds)(DState(old(scopes.arena), old(scopes.constants), old(registry.sets), cursor, found), e)
        case Ok(st) =>
          && err.None? && scopes.arena == st.arena && scopes.constants == st.consts && registry.sets == st.sets
          && cursor' == st.cursor && found' == st.found
        case Err(x) => err == Some(x)
    {
      cursor', found', err := cursor, found, None;
      if e.Leave? {
        cursor' := LeaveCursor(scopes.arena, cursor, e.node);
      } else if IsScopeKind(KindOf(tree.nodes, e.node)) {
        cursor' := scopes.NewScope(e.node, cursor);
      } else {
        found', err := OfferDeclaration(cursor, found, e.node, e.parent);
      }
    }

    /** `findVariableDeclarator()`: one discovery traversal from the global scope. */
    method FindVariableDeclarator(walk: Walker) returns (found: bool, err: Option<Error>)
      modifies scopes, registry
      ensures match Discover(walk, tree.nodes, root, kinds, old(scopes.arena), old(scopes.constants), old(registry.sets))
        case Ok(d) =>
          err.None? && found == d.found && scopes.arena == d.arena && scopes.constants == d.consts && registry.sets == d.sets
        case Err(e) => err == Some(e)
    {
      var visits := walk(tree.nodes, root);
      ghost var step := DiscoverStep(tree.nodes, kinds);
      ghost var s0 := DState(scopes.arena, scopes.constants, registry.sets, 0, false);
      var cursor: nat := 0;
      found := false;
      var i := 0;
      while i < |visits|
        invariant 0 <= i <= |visits|
        invariant Fold(step, s0, visits[..i]) == Ok(DState(scopes.arena, scopes.constants, registry.sets, cursor, found))
      {
        FoldStep(step, s0, visits[..i], visits[i], DState(scopes.arena, scopes.constants, registry.sets, cursor, found));
        TakeSnoc(visits, i);
        cursor, found, err := DiscoverEvent(cursor, found, visits[i]);
        if err.Some? {
          FoldErrPrefix(step, s0, visits[..i + 1], visits);
          return;
        }
        i := i + 1;
      }
      assert visits[..i] == visits;
      err := None;
    }

    /** The rewrite's `enter` or `leave` callback for one event. */
    method RewriteEvent(walk: Walker, cursor: nat, e: Event) returns (cursor': nat, err: Option<Error>)
      requires tree.Valid()
      modifies tree, scopes
      ensures tree.Valid() && tree.next == old(tree.next) && tree.nodes.Keys == old(tree.nodes).Keys
      ensures scopes.arena == old(scopes.arena)
      ensures match RewriteStep(walk, scopes.arena, kinds)(RState(old(tree.nodes), old(scopes.constants), cursor), e)
        case Ok(st) => err.None? && tree.nodes == st.h && scopes.constants == st.consts && cursor' == st.cursor
        case Err(x) => err == Some(x)
    {
      cursor', err := cursor, None;
      if e.Leave? {
        cursor' := LeaveCursor(scopes.arena, cursor, e.node);
      } else if IsScopeKind(KindOf(tree.nodes, e.node)) {
        if cursor < |scopes.arena| && scopes.arena[cursor].children.Get(e.node).Some? {
          cursor' := scopes.arena[cursor].children.Get(e.node).value;
        } else {
          err := Some(TypeError("the scope of a block is undefined"));
        }
      } else {
        err := OfferAccess(walk, cursor, e.node, e.parent);
      }
    }

    /** `unpackConstants()`: one rewrite traversal from the global scope, over the events of the tree it starts from. */
    method UnpackConstants(walk: Walker) returns (err: Option<Error>)
      requires tree.Valid()
      modifies tree, scopes
      ensures tree.Valid() && tree.next == old(tree.next) && tree.nodes.Keys == old(tree.nodes).Keys
      ensures scopes.arena == old(scopes.arena)
      ensures match Rewrite(walk, old(tree.nodes), root, kinds, old(scopes.arena), old(scopes.constants))
        case Ok(rs) => err.None? && tree.nodes == rs.h && scopes.constants == rs.consts
        case Err(e) => err == Some(e)
    {
      var visits := walk(tree.nodes, root);
      ghost var step := RewriteStep(walk, scopes.arena, kinds);
      ghost var s0 := RState(tree.nodes, scopes.constants, 0);
      var cursor: nat := 0;
      var i := 0;
      while i < |visits|
        invariant 0 <= i <= |visits|
        invariant tree.Valid() && tree.next == old(tree.next) && tree.nodes.Keys == old(tree.nodes).Keys
        invariant scopes.arena == old(scopes.arena)
        invariant Fold(step, s0, visits[..i]) == Ok(RState(tree.nodes, scopes.constants, cursor))
      {
        FoldStep(step, s0, visits[..i], visits[i], RState(tree.nodes, scopes.constants, cursor));
        TakeSnoc(visits, i);
        cursor, err := RewriteEvent(walk, cursor, visits[i]);
        if err.Some? {
          FoldErrPrefix(step, s0, visits[..i + 1], visits);
          return;
        }
        i := i + 1;
      }
      assert visits[..i] == visits;
      err := None;
    }

    /** One round of the loop in `execute()`. */
    method RunRound(walk: Walker) returns (more: bool, err: Option<Error>)
      requires tree.Valid()
      modifies tree, scopes, registry
      ensures tree.Valid() && tree.next == old(tree.next)
      ensures match Round(walk, root, kinds, Pass(old(tree.nodes), old(scopes.arena), old(scopes.constants), old(registry.sets)))
        case Ok((q, m)) =>
          err.None? && more == m && tree.nodes == q.h && scopes.arena == q.arena && scopes.constants == q.consts && registry.sets == q.sets
        case Err(e) => err == Some(e)
    {
      more, err := FindVariableDeclarator(walk);
      if err.Some? || !more {
        return;
      }
      err := UnpackConstants(walk);
    }

    /**
     * `execute()`: discovery and rewrite alternate until a discovery finds
     * nothing; then the optional removal. The object entry of the kind list
     * is skipped (corrected, see Findings).
     */
    method Execute(walk: Walker) returns (err: Option<Error>)
      requires tree.Valid() && kinds == KindList(config)
      modifies tree, scopes, registry
      ensures tree.Valid() && tree.next == old(tree.next)
      ensures match Run(walk, root, config, Pass(old(tree.nodes), old(scopes.arena), old(scopes.constants), old(registry.sets)))
        case Ok(q) =>
          err.None? && tree.nodes == q.h && scopes.arena == q.arena && scopes.constants == q.consts && registry.sets == q.sets
        case Err(e) => err == Some(e)
    {
      ghost var p0 := Pass(tree.nodes, scopes.arena, scopes.constants, registry.sets);
      while true
        invariant tree.Valid() && tree.next == old(tree.next)
        invariant Rounds(walk, root, kinds, p0) == Rounds(walk, root, kinds, Pass(tree.nodes, scopes.arena, scopes.constants, registry.sets))
        decreases |tree.nodes.Keys - Catalogued(registry.sets, PrototypeKey)|
      {
        ghost var p := Pass(tree.nodes, scopes.arena, scopes.constants, registry.sets);
        var more, e := RunRound(walk);
        if e.Some? {
          assert Rounds(walk, root, kinds, p) == Err(e.value);
          return e;
        }
        if !more {
          break;
        }
      }
      if config.shouldRemove {
        err := scopes.RemoveVariableDeclaration(tree, walk, 0);
      } else {
        err := None;
      }
    }
  }
}
