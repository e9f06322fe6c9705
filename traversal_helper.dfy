/**
 * The in-place tree mutator every pass uses: find the property of the
 * target's parent that holds the target, then overwrite it (a single-node
 * property) or splice it (a list property).
 */
module TraversalHelper {
  import opened Base
  import opened Ast

  /** What is put in the target's place: null, one node, or a list of nodes. */
  datatype Replacement = Nothing | One(node: NodeId) | Many(nodes: seq<Option<NodeId>>)

  /** The elements a splice inserts for a replacement. */
  function Inserted(r: Replacement): seq<Option<NodeId>> {
    match r
    case Nothing => []
    case One(n) => [Some(n)]
    case Many(ns) => ns
  }

  /** `Array.prototype.indexOf`: the first position holding `t`, or -1. */
  function IndexOf(a: seq<Option<NodeId>>, t: NodeId): (i: int)
    ensures -1 <= i < |a|
    ensures 0 <= i ==> a[i] == Some(t) && Some(t) !in a[..i]
    ensures i == -1 <==> Some(t) !in a
  {
    if a == [] then -1
    else if a[0] == Some(t) then 0
    else
      var j := IndexOf(a[1..], t);
      assert a == [a[0]] + a[1..];
      if j == -1 then -1 else j + 1
  }

  /** `array.splice(start, deleteCount, ...items)` for a start within the array. */
  function Splice(a: seq<Option<NodeId>>, start: nat, deleteCount: nat, items: seq<Option<NodeId>>): seq<Option<NodeId>>
    requires start <= |a|
  {
    a[..start] + items + a[Min(start + deleteCount, |a|)..]
  }

  /**
   * The edit of one property of the parent; `None` is the exception raised
   * when a list is given for a property that holds the target itself.
   */
  function EditSlot(s: Slot, target: NodeId, r: Replacement, deleteCount: nat, after: bool): (r': Option<Slot>)
    ensures s.Scalar? ==> (r'.None? <==> s.child == Some(target) && r.Many?)
    ensures s.Scalar? && s.child != Some(target) ==> r' == Some(s)
    ensures s.Scalar? && s.child == Some(target) && !r.Many? ==>
              r' == Some(Scalar(if r.One? then Some(r.node) else None))
    ensures s.List? ==> r'.Some? && r'.value.List?
    ensures s.List? && Some(target) !in s.items ==> r' == Some(s)
  {
    match s
    case Scalar(c) =>
      if c == Some(target) then
        if r.Many? then None else Some(Scalar(if r.One? then Some(r.node) else None))
      else Some(s)
    case List(a) =>
      var i := IndexOf(a, target);
      if i == -1 then Some(s)
      else Some(List(Splice(a, if after then i + 1 else i, deleteCount, Inserted(r))))
  }

  /** Every property can take the replacement. */
  predicate AllTake(fs: seq<Field>, target: NodeId, r: Replacement, dc: nat, after: bool) {
    forall i :: 0 <= i < |fs| ==> EditSlot(fs[i].slot, target, r, dc, after).Some?
  }

  /** `out` is `fs` with every property edited in place, names and order kept. */
  predicate EditedPointwise(fs: seq<Field>, out: seq<Field>, target: NodeId, r: Replacement, dc: nat, after: bool) {
    && |out| == |fs|
    && forall i :: 0 <= i < |fs| ==>
         out[i].name == fs[i].name && Some(out[i].slot) == EditSlot(fs[i].slot, target, r, dc, after)
  }

  /**
   * The loop over the parent's own properties: every property is edited by
   * `EditSlot`, names and order are kept, and the loop succeeds exactly when
   * every property can take the replacement.
   */
  function EditFields(fs: seq<Field>, parentKind: string, target: NodeId, r: Replacement, dc: nat, after: bool)
    : (res: Result<seq<Field>>)
    ensures res.Ok? <==> AllTake(fs, target, r, dc, after)
    ensures res.Ok? ==> EditedPointwise(fs, res.value, target, r, dc, after)
    decreases |fs|
  {
    if fs == [] then Ok([])
    else
      var n := |fs| - 1;
      var pre := EditFields(fs[..n], parentKind, target, r, dc, after);
      assert forall i :: 0 <= i < n ==> fs[..n][i] == fs[i];
      match pre
      case Err(e) => Err(e)
      case Ok(acc) =>
        match EditSlot(fs[n].slot, target, r, dc, after)
        case None => Err(ArrayIntoScalar(fs[n].name, parentKind))
        case Some(s) => Ok(acc + [Field(fs[n].name, s)])
  }

  /** The edit of the parent `p` once the traversal has met the target below it. */
  function EditChild(h: Heap, p: NodeId, target: NodeId, r: Replacement, deleteCount: nat, after: bool): Result<Heap> {
    if p !in h then Ok(h)
    else
      match EditFields(h[p].fields, h[p].kind, target, r, deleteCount, after)
      case Err(e) => Err(e)
      case Ok(fs) => Ok(h[p := h[p].(fields := fs)])
  }

  /** The `enter` callback of `replaceNode`: only the target itself triggers an edit. */
  function VisitStep(target: NodeId, r: Replacement, deleteCount: nat, after: bool): (Heap, Event) -> Result<Heap> {
    (h: Heap, e: Event) =>
      if e.Enter? && e.node == target then
        match e.parent
        case Some(p) => EditChild(h, p, target, r, deleteCount, after)
        case None => Err(TypeError("the parent of the traversal root is null"))
      else Ok(h)
  }

  /** `replaceNode` over the events of one traversal of its root. */
  function ReplaceSpec(h: Heap, visits: seq<Event>, target: NodeId, r: Replacement, deleteCount: nat, after: bool): Result<Heap> {
    Fold(VisitStep(target, r, deleteCount, after), h, visits)
  }

  predicate EntersTarget(e: Event, target: NodeId) {
    e.Enter? && e.node == target
  }

  // ---------------------------------------------------------------------
  // Properties of one list property
  // ---------------------------------------------------------------------

  /** A list property is spliced at the FIRST index of the target, shifted by one with `after`. */
  lemma SpliceAtFirstIndex(a: seq<Option<NodeId>>, target: NodeId, i: nat, r: Replacement, deleteCount: nat, after: bool)
    requires i < |a| && a[i] == Some(target) && Some(target) !in a[..i]
    ensures var j := if after then i + 1 else i;
      EditSlot(List(a), target, r, deleteCount, after)
        == Some(List(a[..j] + Inserted(r) + a[Min(j + deleteCount, |a|)..]))
  {
    IndexOfIs(a, target, i);
  }

  /** A position holding `t` with no `t` before it is the one `indexOf` finds. */
  lemma IndexOfIs(a: seq<Option<NodeId>>, t: NodeId, i: nat)
    requires i < |a| && a[i] == Some(t) && Some(t) !in a[..i]
    ensures IndexOf(a, t) == i
  {
    assert a[i] in a;
  }

  /** `removeNode` takes out exactly the first occurrence of the target and nothing else. */
  lemma RemoveDeletesTarget(a: seq<Option<NodeId>>, target: NodeId, i: nat)
    requires i < |a| && a[i] == Some(target) && Some(target) !in a[..i]
    ensures EditSlot(List(a), target, Nothing, 1, false) == Some(List(a[..i] + a[i + 1..]))
    ensures multiset(a[..i] + a[i + 1..]) + multiset{Some(target)} == multiset(a)
  {
    SpliceAtFirstIndex(a, target, i, Nothing, 1, false);
    assert a[..i] + Inserted(Nothing) + a[i + 1..] == a[..i] + a[i + 1..];
    assert a == a[..i] + [a[i]] + a[i + 1..];
  }

  /**
   * `insertNode` keeps every original element (the delete count is 0) and puts
   * the new nodes right before the target, or right after it with `after`.
   */
  lemma InsertKeepsAll(a: seq<Option<NodeId>>, target: NodeId, i: nat, r: Replacement, after: bool)
    requires i < |a| && a[i] == Some(target) && Some(target) !in a[..i]
    ensures var ins := Inserted(r);
      var j := if after then i + 1 else i;
      && EditSlot(List(a), target, r, 0, after) == Some(List(a[..j] + ins + a[j..]))
      && multiset(a[..j] + ins + a[j..]) == multiset(a) + multiset(ins)
      && (a[..j] + ins + a[j..])[j..j + |ins|] == ins
      && (!after ==> (a[..j] + ins + a[j..])[i + |ins|] == Some(target))
      && (after ==> (a[..j] + ins + a[j..])[i] == Some(target))
  {
    var j := if after then i + 1 else i;
    var ins := Inserted(r);
    SpliceAtFirstIndex(a, target, i, r, 0, after);
    assert Min(j + 0, |a|) == j;
    InsertedBetween(a, j, ins);
    var b := a[..j] + ins + a[j..];
    if after {
      assert b[i] == a[..j][i];
    } else {
      assert b[i + |ins|] == a[j..][0];
    }
  }

  /** Putting `ins` at position `j` keeps every element and places `ins` at `j`. */
  lemma InsertedBetween(a: seq<Option<NodeId>>, j: nat, ins: seq<Option<NodeId>>)
    requires j <= |a|
    ensures multiset(a[..j] + ins + a[j..]) == multiset(a) + multiset(ins)
    ensures (a[..j] + ins + a[j..])[j..j + |ins|] == ins
  {
    var b := a[..j] + ins + a[j..];
    assert a == a[..j] + a[j..];
    assert multiset(b) == multiset(a[..j]) + multiset(ins) + multiset(a[j..]);
    assert b[j..j + |ins|] == ins;
  }

  // ---------------------------------------------------------------------
  // Properties of the parent's property loop
  // ---------------------------------------------------------------------

  /** The error raised is that of the first property holding the target when a list is given. */
  lemma {:induction false} EditFieldsFirstError(fs: seq<Field>, kind: string, target: NodeId, r: Replacement, dc: nat, after: bool, i: nat)
    requires i < |fs| && EditSlot(fs[i].slot, target, r, dc, after).None?
    requires forall k :: 0 <= k < i ==> EditSlot(fs[k].slot, target, r, dc, after).Some?
    ensures EditFields(fs, kind, target, r, dc, after) == Err(ArrayIntoScalar(fs[i].name, kind))
    decreases |fs|
  {
    var n := |fs| - 1;
    if i < n {
      EditFieldsFirstError(fs[..n], kind, target, r, dc, after, i);
    } else {
      assert AllTake(fs[..n], target, r, dc, after);
    }
  }

  /** One more property that takes the replacement extends the edited prefix. */
  lemma EditFieldsStep(fs: seq<Field>, kind: string, target: NodeId, r: Replacement, dc: nat, after: bool, i: nat, acc: seq<Field>)
    requires i < |fs| && EditFields(fs[..i], kind, target, r, dc, after) == Ok(acc)
    requires EditSlot(fs[i].slot, target, r, dc, after).Some?
    ensures EditFields(fs[..i + 1], kind, target, r, dc, after)
              == Ok(acc + [Field(fs[i].name, EditSlot(fs[i].slot, target, r, dc, after).value)])
  {
    assert fs[..i + 1][..i] == fs[..i];
  }

  /** A property that cannot take the replacement after an edited prefix decides the error. */
  lemma EditFieldsStopsAt(fs: seq<Field>, kind: string, target: NodeId, r: Replacement, dc: nat, after: bool, i: nat, acc: seq<Field>)
    requires i < |fs| && EditFields(fs[..i], kind, target, r, dc, after) == Ok(acc)
    requires EditSlot(fs[i].slot, target, r, dc, after).None?
    ensures EditFields(fs, kind, target, r, dc, after) == Err(ArrayIntoScalar(fs[i].name, kind))
  {
    assert AllTake(fs[..i], target, r, dc, after);
    assert forall k :: 0 <= k < i ==> fs[..i][k] == fs[k];
    EditFieldsFirstError(fs, kind, target, r, dc, after, i);
  }

  // ---------------------------------------------------------------------
  // Properties of a whole replaceNode call
  // ---------------------------------------------------------------------

  /** Only an event that enters the target itself can change anything. */
  lemma {:induction false} ReplaceIgnoresOthers(h: Heap, visits: seq<Event>, target: NodeId, r: Replacement, dc: nat, after: bool)
    requires forall k :: 0 <= k < |visits| ==> !EntersTarget(visits[k], target)
    ensures ReplaceSpec(h, visits, target, r, dc, after) == Ok(h)
    decreases |visits|
  {
    if visits != [] {
      ReplaceIgnoresOthers(h, visits[..|visits| - 1], target, r, dc, after);
    }
  }

  /**
   * When the traversal meets the target once, below parent `p`, the call is
   * exactly the edit of `p`'s properties.
   */
  lemma ReplaceAtSingleVisit(h: Heap, pre: seq<Event>, p: NodeId, post: seq<Event>, target: NodeId, r: Replacement, dc: nat, after: bool)
    requires forall k :: 0 <= k < |pre| ==> !EntersTarget(pre[k], target)
    requires forall k :: 0 <= k < |post| ==> !EntersTarget(post[k], target)
    ensures ReplaceSpec(h, pre + [Enter(target, Some(p))] + post, target, r, dc, after) == EditChild(h, p, target, r, dc, after)
  {
    var step := VisitStep(target, r, dc, after);
    ReplaceIgnoresOthers(h, pre, target, r, dc, after);
    FoldAppend(step, h, pre + [Enter(target, Some(p))], post);
    FoldSnoc(step, h, pre, Enter(target, Some(p)));
    assert [Enter(target, Some(p))][..0] == [];
    match EditChild(h, p, target, r, dc, after)
    case Err(_) =>
    case Ok(h') => ReplaceIgnoresOthers(h', post, target, r, dc, after);
  }

  /** The errors `replaceNode` can raise: a null parent, or a list put into a single-node property. */
  predicate RaisedByReplace(e: Error) {
    e.TypeError? || e.ArrayIntoScalar?
  }

  lemma {:induction false} EditFieldsRaises(fs: seq<Field>, kind: string, target: NodeId, r: Replacement, dc: nat, after: bool)
    ensures EditFields(fs, kind, target, r, dc, after).Err? ==> EditFields(fs, kind, target, r, dc, after).error.ArrayIntoScalar?
    decreases |fs|
  {
    if fs != [] {
      EditFieldsRaises(fs[..|fs| - 1], kind, target, r, dc, after);
    }
  }

  lemma ReplaceRaises(h: Heap, visits: seq<Event>, target: NodeId, r: Replacement, dc: nat, after: bool)
    ensures ReplaceSpec(h, visits, target, r, dc, after).Err? ==> RaisedByReplace(ReplaceSpec(h, visits, target, r, dc, after).error)
  {
    var step := VisitStep(target, r, dc, after);
    forall g: Heap, e: Event | step(g, e).Err? ensures RaisedByReplace(step(g, e).error) {
      if e.Enter? && e.node == target && e.parent.Some? && e.parent.value in g {
        EditFieldsRaises(g[e.parent.value].fields, g[e.parent.value].kind, target, r, dc, after);
      }
    }
    FoldRaises(step, RaisedByReplace, h, visits);
  }

  /** Editing never adds or drops a node record, so the set of node ids is fixed. */
  lemma ReplaceKeepsKeys(h: Heap, visits: seq<Event>, target: NodeId, r: Replacement, dc: nat, after: bool)
    ensures ReplaceSpec(h, visits, target, r, dc, after).Ok? ==>
              ReplaceSpec(h, visits, target, r, dc, after).value.Keys == h.Keys
  {
    var step := VisitStep(target, r, dc, after);
    FoldKeeps(step, (g: Heap) => g.Keys == h.Keys, h, visits);
  }

  /** Property slot `s` holds node `n`. */
  predicate SlotHolds(s: Slot, n: NodeId) {
    (s.Scalar? && s.child == Some(n)) || (s.List? && Some(n) in s.items)
  }

  /** Node `q` holds `n` in one of its properties. */
  ghost predicate HoldsChild(h: Heap, q: NodeId, n: NodeId) {
    q in h && exists i :: 0 <= i < |h[q].fields| && SlotHolds(h[q].fields[i].slot, n)
  }

  /** Replacing `t` in a property (one element deleted) leaves any other node it holds in place. */
  lemma ReplaceKeepsOtherInSlot(s: Slot, t: NodeId, r: Replacement, n: NodeId)
    requires t != n && SlotHolds(s, n)
    ensures EditSlot(s, t, r, 1, false).Some? && SlotHolds(EditSlot(s, t, r, 1, false).value, n)
  {
    if s.List? {
      var a := s.items;
      var i := IndexOf(a, t);
      if i != -1 {
        var j :| 0 <= j < |a| && a[j] == Some(n);
        assert Splice(a, i, 1, Inserted(r)) == a[..i] + Inserted(r) + a[i + 1..];
        if j < i {
          assert a[..i][j] == Some(n);
        } else {
          assert a[i + 1..][j - i - 1] == Some(n);
        }
      }
    }
  }

  /** One edit of a parent during a replacement of `t` keeps every other child of every node. */
  lemma ReplaceKeepsOtherInParent(h: Heap, p: NodeId, t: NodeId, r: Replacement, q: NodeId, n: NodeId)
    requires t != n && HoldsChild(h, q, n)
    ensures EditChild(h, p, t, r, 1, false).Ok? ==> HoldsChild(EditChild(h, p, t, r, 1, false).value, q, n)
  {
    if p in h && p == q && EditChild(h, p, t, r, 1, false).Ok? {
      var fs := h[p].fields;
      var out := EditFields(fs, h[p].kind, t, r, 1, false).value;
      var i :| 0 <= i < |fs| && SlotHolds(fs[i].slot, n);
      ReplaceKeepsOtherInSlot(fs[i].slot, t, r, n);
      assert SlotHolds(out[i].slot, n);
    }
  }

  /**
   * `replaceNode(root, t, r)` with one element deleted, and so `removeNode(root, t)`,
   * takes out `t` and nothing else: every other node stays a child of every
   * node that held it.
   */
  lemma ReplaceKeepsOtherChildren(h: Heap, visits: seq<Event>, t: NodeId, r: Replacement, q: NodeId, n: NodeId)
    requires t != n && HoldsChild(h, q, n)
    ensures ReplaceSpec(h, visits, t, r, 1, false).Ok? ==> HoldsChild(ReplaceSpec(h, visits, t, r, 1, false).value, q, n)
  {
    var step := VisitStep(t, r, 1, false);
    var P := (g: Heap) => HoldsChild(g, q, n);
    forall g: Heap, e: Event | P(g) && step(g, e).Ok? ensures P(step(g, e).value) {
      if e.Enter? && e.node == t && e.parent.Some? {
        ReplaceKeepsOtherInParent(g, e.parent.value, t, r, q, n);
      }
    }
    FoldKeeps(step, P, h, visits);
  }

  /** A single-node property holding a node other than the target comes out of the edit as it went in. */
  lemma {:induction false} SlotOfEdited(fs: seq<Field>, out: seq<Field>, name: string, t: NodeId, r: Replacement, dc: nat, after: bool, a: NodeId)
    requires EditedPointwise(fs, out, t, r, dc, after)
    requires SlotOf(fs, name) == Some(Scalar(Some(a))) && a != t
    ensures SlotOf(out, name) == Some(Scalar(Some(a)))
    decreases |fs|
  {
    if fs[0].name != name {
      assert EditedPointwise(fs[1..], out[1..], t, r, dc, after) by {
        forall i | 0 <= i < |fs| - 1 ensures out[1..][i].name == fs[1..][i].name {
          assert out[1..][i] == out[i + 1];
        }
      }
      SlotOfEdited(fs[1..], out[1..], name, t, r, dc, after, a);
    }
  }

  /**
   * `replaceNode` edits only the properties that hold its target: a node a
   * single-node property holds that is not the target stays there, and no
   * node changes kind.
   */
  lemma ReplaceKeepsOtherScalar(h: Heap, visits: seq<Event>, t: NodeId, r: Replacement, dc: nat, after: bool, d: NodeId, name: string, a: NodeId)
    requires Child(h, d, name) == Some(a) && a != t
    ensures ReplaceSpec(h, visits, t, r, dc, after).Ok? ==>
              var h' := ReplaceSpec(h, visits, t, r, dc, after).value;
              Child(h', d, name) == Some(a) && forall m :: KindOf(h', m) == KindOf(h, m)
  {
    var step := VisitStep(t, r, dc, after);
    var P := (g: Heap) => Child(g, d, name) == Some(a) && forall m :: KindOf(g, m) == KindOf(h, m);
    forall g: Heap, e: Event | P(g) && step(g, e).Ok? ensures P(step(g, e).value) {
      if e.Enter? && e.node == t && e.parent.Some? && e.parent.value in g {
        var p := e.parent.value;
        var out := EditFields(g[p].fields, g[p].kind, t, r, dc, after).value;
        var g' := g[p := g[p].(fields := out)];
        assert step(g, e).value == g';
        if p == d {
          SlotOfEdited(g[p].fields, out, name, t, r, dc, after, a);
        }
        assert forall m :: KindOf(g', m) == KindOf(g, m);
      }
    }
    FoldKeeps(step, P, h, visits);
  }

  /** Parent `p` holds `n` exactly once, in its list property `i`, and in none of its other properties. */
  ghost predicate HeldOnceInList(h: Heap, p: NodeId, n: NodeId, i: nat) {
    && p in h && i < |h[p].fields| && h[p].fields[i].slot.List?
    && multiset(h[p].fields[i].slot.items)[Some(n)] == 1
    && forall j :: 0 <= j < |h[p].fields| && j != i ==> !SlotHolds(h[p].fields[j].slot, n)
  }

  /**
   * `removeNode(p, target)` detaches its target: when `p` holds it once, in
   * a list property, and the traversal of `p` meets it once, the call
   * succeeds and `p` no longer holds it.
   */
  lemma RemoveDetaches(h: Heap, pre: seq<Event>, p: NodeId, post: seq<Event>, target: NodeId, i: nat)
    requires HeldOnceInList(h, p, target, i)
    requires forall k :: 0 <= k < |pre| ==> !EntersTarget(pre[k], target)
    requires forall k :: 0 <= k < |post| ==> !EntersTarget(post[k], target)
    ensures var r := ReplaceSpec(h, pre + [Enter(target, Some(p))] + post, target, Nothing, 1, false);
            r.Ok? && !HoldsChild(r.value, p, target)
  {
    ReplaceAtSingleVisit(h, pre, p, post, target, Nothing, 1, false);
    var fs := h[p].fields;
    var a := fs[i].slot.items;
    assert Some(target) in a;
    var k := IndexOf(a, target);
    RemoveDeletesTarget(a, target, k);
    assert AllTake(fs, target, Nothing, 1, false);
    var out := EditFields(fs, h[p].kind, target, Nothing, 1, false).value;
    var h' := h[p := h[p].(fields := out)];
    forall j | 0 <= j < |out| ensures !SlotHolds(out[j].slot, target) {
      if j == i {
        assert out[j].slot == List(a[..k] + a[k + 1..]);
        assert multiset(a[..k] + a[k + 1..])[Some(target)] == 0;
      }
    }
  }

  /** Removing a node from a property never puts a node into it. */
  lemma RemoveSlotNeverAttaches(s: Slot, t: NodeId, n: NodeId)
    requires !SlotHolds(s, n)
    ensures EditSlot(s, t, Nothing, 1, false).Some? ==> !SlotHolds(EditSlot(s, t, Nothing, 1, false).value, n)
  {
    if s.List? {
      var a := s.items;
      var i := IndexOf(a, t);
      if i != -1 {
        var b := Splice(a, i, 1, []);
        assert b == a[..i] + a[i + 1..];
      }
    }
  }

  /** `removeNode` never makes a node hold a node it did not hold. */
  lemma RemoveNeverAttaches(h: Heap, visits: seq<Event>, t: NodeId, q: NodeId, n: NodeId)
    requires !HoldsChild(h, q, n)
    ensures ReplaceSpec(h, visits, t, Nothing, 1, false).Ok? ==> !HoldsChild(ReplaceSpec(h, visits, t, Nothing, 1, false).value, q, n)
  {
    var step := VisitStep(t, Nothing, 1, false);
    var P := (g: Heap) => !HoldsChild(g, q, n);
    forall g: Heap, e: Event | P(g) && step(g, e).Ok? ensures P(step(g, e).value) {
      if e.Enter? && e.node == t && e.parent.Some? && e.parent.value in g && e.parent.value == q {
        var fs := g[q].fields;
        var out := EditFields(fs, g[q].kind, t, Nothing, 1, false).value;
        forall j | 0 <= j < |out| ensures !SlotHolds(out[j].slot, n) {
          RemoveSlotNeverAttaches(fs[j].slot, t, n);
        }
      }
    }
    FoldKeeps(step, P, h, visits);
  }

  // ---------------------------------------------------------------------
  // The tree, mutated in place
  // ---------------------------------------------------------------------

  class Tree {
    var nodes: Heap
    /** The next fresh node id; every id in use is below it. */
    var next: NodeId

    ghost predicate Valid()
      reads this
    {
      forall n :: n in nodes ==> n < next
    }

    constructor (h: Heap, next: NodeId)
      requires forall n :: n in h ==> n < next
      ensures Valid() && nodes == h && this.next == next
    {
      nodes := h;
      this.next := next;
    }

    /** A node created by a pass (`new Shift.X(...)`) gets a fresh id. */
    method Alloc(rec: NodeRec) returns (id: NodeId)
      requires Valid()
      modifies this
      ensures Valid() && id == old(next) && id !in old(nodes)
      ensures nodes == old(nodes)[id := rec] && next == old(next) + 1
    {
      id := next;
      nodes := nodes[id := rec];
      next := next + 1;
    }

    /** The loop over the parent's own properties (traversalHelper.ts:24-48). */
    method EditParent(p: NodeId, target: NodeId, r: Replacement, dc: nat, after: bool) returns (err: Option<Error>)
      modifies this
      ensures next == old(next)
      ensures match EditChild(old(nodes), p, target, r, dc, after)
        case Ok(h) => err.None? && nodes == h
        case Err(e) => err == Some(e) && nodes == old(nodes)
    {
      if p !in nodes {
        return None;
      }
      var fs := nodes[p].fields;
      var kind := nodes[p].kind;
      var acc: seq<Field> := [];
      var i := 0;
      while i < |fs|
        invariant 0 <= i <= |fs|
        invariant nodes == old(nodes) && next == old(next)
        invariant EditFields(fs[..i], kind, target, r, dc, after) == Ok(acc)
      {
        match EditSlot(fs[i].slot, target, r, dc, after)
        case None =>
          EditFieldsStopsAt(fs, kind, target, r, dc, after, i, acc);
          return Some(ArrayIntoScalar(fs[i].name, kind));
        case Some(s) =>
          EditFieldsStep(fs, kind, target, r, dc, after, i, acc);
          acc := acc + [Field(fs[i].name, s)];
        i := i + 1;
      }
      assert fs[..i] == fs;
      nodes := nodes[p := nodes[p].(fields := acc)];
      err := None;
    }

    /**
     * `replaceNode(root, target, replacement, delete_count, after)`: every
     * event of the traversal of `root` that enters the target edits the
     * target's parent. On an error the run is aborted, so only the node ids are
     * promised then.
     */
    method ReplaceNode(walk: Walker, root: NodeId, target: NodeId, r: Replacement, dc: nat, after: bool)
      returns (err: Option<Error>)
      requires Valid()
      modifies this
      ensures Valid() && next == old(next) && nodes.Keys == old(nodes).Keys
      ensures match ReplaceSpec(old(nodes), walk(old(nodes), root), target, r, dc, after)
        case Ok(h) => err.None? && nodes == h
        case Err(e) => err == Some(e)
    {
      var visits := walk(nodes, root);
      ghost var h0 := nodes;
      var step := VisitStep(target, r, dc, after);
      var i := 0;
      while i < |visits|
        invariant 0 <= i <= |visits|
        invariant next == old(next) && nodes.Keys == h0.Keys
        invariant Fold(step, h0, visits[..i]) == Ok(nodes)
      {
        FoldStep(step, h0, visits[..i], visits[i], nodes);
        TakeSnoc(visits, i);
        var e := visits[i];
        if e.Enter? && e.node == target {
          if e.parent.None? {
            FoldErrPrefix(step, h0, visits[..i + 1], visits);
            return Some(TypeError("the parent of the traversal root is null"));
          }
          ghost var before := nodes;
          err := EditParent(e.parent.value, target, r, dc, after);
          if err.Some? {
            FoldErrPrefix(step, h0, visits[..i + 1], visits);
            return;
          }
          assert nodes.Keys == before.Keys;
        }
        i := i + 1;
      }
      assert visits[..i] == visits;
      err := None;
    }

    /** `removeNode(root, target)`: replace by nothing, deleting one element. */
    method RemoveNode(walk: Walker, root: NodeId, target: NodeId) returns (err: Option<Error>)
      requires Valid()
      modifies this
      ensures Valid() && next == old(next) && nodes.Keys == old(nodes).Keys
      ensures match ReplaceSpec(old(nodes), walk(old(nodes), root), target, Nothing, 1, false)
        case Ok(h) => err.None? && nodes == h
        case Err(e) => err == Some(e)
    {
      err := ReplaceNode(walk, root, target, Nothing, 1, false);
    }

    /** `insertNode(root, target, insert, after)`: a splice that deletes nothing. */
    method InsertNode(walk: Walker, root: NodeId, target: NodeId, insert: Replacement, after: bool) returns (err: Option<Error>)
      requires Valid()
      modifies this
      ensures Valid() && next == old(next) && nodes.Keys == old(nodes).Keys
      ensures match ReplaceSpec(old(nodes), walk(old(nodes), root), target, insert, 0, after)
        case Ok(h) => err.None? && nodes == h
        case Err(e) => err == Some(e)
    {
      err := ReplaceNode(walk, root, target, insert, 0, after);
    }
  }
}
