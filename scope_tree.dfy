/**
 * The structure both scope classes share (unpacker/scope.ts and
 * caches/scope.ts): a scope has the node that opened it, an optional parent,
 * a `children` map from node to child scope and a name-to-entry map.
 *
 * Scopes live in one arena owned by the pass and refer to each other by
 * index; a scope is always created after its parent, so a parent's index is
 * below its children's and the parent chain ends.
 */
module ScopeTree {
  import opened Base
  import opened Ast

  datatype Scope<K(!new), V> = Scope(node: NodeId, parent: Option<nat>, children: OMap<NodeId, nat>, mapping: OMap<K, V>)

  /** Parents precede children and every child index is a later scope. */
  ghost predicate WellFormed<K(!new), V>(arena: seq<Scope<K, V>>) {
    forall i :: 0 <= i < |arena| ==>
      && (arena[i].parent.Some? ==> arena[i].parent.value < i)
      && (forall n :: n in arena[i].children.entries ==> i < arena[i].children.entries[n] < |arena|)
  }

  /**
   * `new Scope(node, parent)`: a fresh empty scope at the end of the arena
   * which, given a parent, registers itself in the parent's `children` under
   * its node, replacing any scope registered earlier for that node.
   */
  function Register<K(!new), V>(arena: seq<Scope<K, V>>, node: NodeId, parent: Option<nat>): (r: seq<Scope<K, V>>)
    ensures |r| == |arena| + 1 && r[|arena|] == Scope(node, parent, EmptyMap(), EmptyMap())
    ensures forall i :: 0 <= i < |arena| && Some(i) != parent ==> r[i] == arena[i]
    ensures parent.Some? && parent.value < |arena| ==>
              && r[parent.value].children.Get(node) == Some(|arena|)
              && r[parent.value].node == arena[parent.value].node
              && r[parent.value].parent == arena[parent.value].parent
              && r[parent.value].mapping == arena[parent.value].mapping
              && (forall n :: n != node ==> r[parent.value].children.Get(n) == arena[parent.value].children.Get(n))
    ensures WellFormed(arena) && (parent.Some? ==> parent.value < |arena|) ==> WellFormed(r)
  {
    var s := |arena|;
    var blank := Scope(node, parent, EmptyMap(), EmptyMap());
    match parent
    case None => arena + [blank]
    case Some(p) =>
      if p < s then
        var ps := arena[p];
        arena[p := ps.(children := ps.children.Set(node, s))] + [blank]
      else arena + [blank]
  }

  /**
   * `leave`: leaving the node of the cursor's scope moves the cursor to its
   * parent, if it has one. The cursor only moves on the leave of its own
   * scope's node, and then one step up the chain: in a well-formed arena it
   * stays a scope of the arena and on the chain it started from.
   */
  function LeaveCursor<K(!new), V>(arena: seq<Scope<K, V>>, cursor: nat, n: NodeId): (c: nat)
    ensures c != cursor ==> cursor < |arena| && arena[cursor].node == n
    ensures WellFormed(arena) && cursor < |arena| ==>
              c < |arena| && c in Chain(arena, cursor) && (c != cursor ==> c == Chain(arena, cursor)[1])
  {
    if cursor < |arena| && arena[cursor].node == n && arena[cursor].parent.Some? then arena[cursor].parent.value else cursor
  }

  /** The parent chain of `s`, nearest first: `s`, its parent, its grandparent, ... */
  function Chain<K(!new), V>(arena: seq<Scope<K, V>>, s: nat): (c: seq<nat>)
    ensures s < |arena| ==> |c| > 0 && c[0] == s
    ensures forall k :: 0 <= k < |c| ==> c[k] <= s && c[k] < |arena|
    decreases s
  {
    if s >= |arena| then []
    else match arena[s].parent
      case Some(p) => if p < s then [s] + Chain(arena, p) else [s]
      case None => [s]
  }

  /** `findVariable` / `findCacheFunction`: the entry of the nearest scope on the chain that has `name`. */
  function Find<K(!new), V>(arena: seq<Scope<K, V>>, s: nat, name: K): Option<V>
    decreases s
  {
    if s >= |arena| then None
    else if name in arena[s].mapping.entries then Some(arena[s].mapping.entries[name])
    else match arena[s].parent
      case Some(p) => if p < s then Find(arena, p, name) else None
      case None => None
  }

  /** The scope at chain position `k` is the nearest one binding `name`. */
  ghost predicate NearestAt<K(!new), V>(arena: seq<Scope<K, V>>, s: nat, name: K, k: nat) {
    var c := Chain(arena, s);
    && k < |c|
    && name in arena[c[k]].mapping.entries
    && forall j :: 0 <= j < k ==> name !in arena[c[j]].mapping.entries
  }

  /** Lookup returns the binding of the nearest enclosing scope that has the name. */
  lemma {:induction false} FindIsNearest<K(!new), V>(arena: seq<Scope<K, V>>, s: nat, name: K, k: nat)
    requires NearestAt(arena, s, name, k)
    ensures Find(arena, s, name) == Some(arena[Chain(arena, s)[k]].mapping.entries[name])
    decreases s
  {
    var c := Chain(arena, s);
    if k > 0 {
      var p := arena[s].parent.value;
      assert c == [s] + Chain(arena, p);
      assert name !in arena[c[0]].mapping.entries;
      forall j | 0 <= j < k - 1 ensures name !in arena[Chain(arena, p)[j]].mapping.entries {
        assert Chain(arena, p)[j] == c[j + 1];
      }
      FindIsNearest(arena, p, name, k - 1);
    }
  }

  /** Lookup finds nothing exactly when no scope on the chain has the name. */
  lemma {:induction false} FindNoneIffUnbound<K(!new), V>(arena: seq<Scope<K, V>>, s: nat, name: K)
    ensures Find(arena, s, name).None? <==>
              forall k :: 0 <= k < |Chain(arena, s)| ==> name !in arena[Chain(arena, s)[k]].mapping.entries
    decreases s
  {
    if s < |arena| && name !in arena[s].mapping.entries && arena[s].parent.Some? && arena[s].parent.value < s {
      var p := arena[s].parent.value;
      FindNoneIffUnbound(arena, p, name);
      var c := Chain(arena, s);
      assert c == [s] + Chain(arena, p);
      assert forall k :: 0 <= k < |Chain(arena, p)| ==> Chain(arena, p)[k] == c[k + 1];
    } else if s < |arena| {
      assert Chain(arena, s)[0] == s;
    }
  }

  /**
   * Lookup never consults children or siblings: two arenas that agree on the
   * parents and maps of the scopes on the chain give the same answer.
   */
  lemma {:induction false} FindOnlyReadsChain<K(!new), V>(a: seq<Scope<K, V>>, b: seq<Scope<K, V>>, s: nat, name: K)
    requires |a| == |b|
    requires forall k :: 0 <= k < |Chain(a, s)| ==>
               a[Chain(a, s)[k]].parent == b[Chain(a, s)[k]].parent &&
               a[Chain(a, s)[k]].mapping == b[Chain(a, s)[k]].mapping
    ensures Find(a, s, name) == Find(b, s, name)
    decreases s
  {
    if s < |a| {
      assert Chain(a, s)[0] == s;
    }
    if s < |a| && name !in a[s].mapping.entries && a[s].parent.Some? && a[s].parent.value < s {
      var p := a[s].parent.value;
      var c := Chain(a, s);
      assert c == [s] + Chain(a, p);
      forall k | 0 <= k < |Chain(a, p)|
        ensures a[Chain(a, p)[k]].parent == b[Chain(a, p)[k]].parent && a[Chain(a, p)[k]].mapping == b[Chain(a, p)[k]].mapping
      {
        assert Chain(a, p)[k] == c[k + 1];
      }
      FindOnlyReadsChain(a, b, p, name);
    }
  }

  /** A binding added to a scope is invisible from a scope whose chain does not pass through it. */
  lemma BindingInvisibleOffChain<K(!new), V>(arena: seq<Scope<K, V>>, s: nat, t: nat, name: K, v: V)
    requires t < |arena| && t !in Chain(arena, s)
    ensures var sc := arena[t];
      Find(arena[t := sc.(mapping := sc.mapping.Set(name, v))], s, name) == Find(arena, s, name)
  {
    var sc := arena[t];
    var b := arena[t := sc.(mapping := sc.mapping.Set(name, v))];
    forall k | 0 <= k < |Chain(arena, s)|
      ensures arena[Chain(arena, s)[k]].parent == b[Chain(arena, s)[k]].parent &&
              arena[Chain(arena, s)[k]].mapping == b[Chain(arena, s)[k]].mapping
    {
      assert Chain(arena, s)[k] != t;
    }
    FindOnlyReadsChain(arena, b, s, name);
  }

  /** In a well-formed arena the parent of a child scope is an ancestor, never the child itself. */
  lemma ParentNotOnChildChain<K(!new), V>(arena: seq<Scope<K, V>>, child: nat, parent: nat)
    requires parent < child
    ensures child !in Chain(arena, parent)
  {
  }

  /**
   * The scopes of the subtree of `s` in the order `removeVariableDeclaration`
   * visits them: `s` itself, then each child's subtree in `children` order.
   * Only later scopes are followed, which `WellFormed` guarantees of children.
   */
  function Preorder<K(!new), V>(arena: seq<Scope<K, V>>, s: nat): (r: seq<nat>)
    ensures s < |arena| ==> |r| > 0 && r[0] == s
    ensures forall k :: 0 <= k < |r| ==> s <= r[k] < |arena|
    decreases |arena| - s, 1
  {
    if s >= |arena| then []
    else [s] + PreorderChildren(arena, s, arena[s].children.keys)
  }

  function PreorderChildren<K(!new), V>(arena: seq<Scope<K, V>>, s: nat, keys: seq<NodeId>): (r: seq<nat>)
    requires s < |arena|
    ensures forall k :: 0 <= k < |r| ==> s < r[k] < |arena|
    decreases |arena| - s, 0, |keys|
  {
    if keys == [] then []
    else
      var n := |keys| - 1;
      var rest := PreorderChildren(arena, s, keys[..n]);
      match arena[s].children.Get(keys[n])
      case Some(c) => if s < c < |arena| then rest + Preorder(arena, c) else rest
      case None => rest
  }

  /** The scopes reached through the first `m` children are a prefix of those reached through all of them. */
  lemma {:induction false} PreorderChildrenPrefix<K(!new), V>(arena: seq<Scope<K, V>>, s: nat, keys: seq<NodeId>, m: nat)
    requires s < |arena| && m <= |keys|
    ensures PreorderChildren(arena, s, keys[..m]) <= PreorderChildren(arena, s, keys)
    decreases |keys|
  {
    if m < |keys| {
      var n := |keys| - 1;
      assert keys[..n][..m] == keys[..m];
      PreorderChildrenPrefix(arena, s, keys[..n], m);
    } else {
      assert keys[..m] == keys;
    }
  }

  /** Every scope of a registered child's subtree is in the subtree of its parent. */
  lemma {:induction false} ChildSubtreeIncluded<K(!new), V>(arena: seq<Scope<K, V>>, s: nat, keys: seq<NodeId>, i: nat, x: nat)
    requires s < |arena| && i < |keys|
    requires arena[s].children.Get(keys[i]).Some?
    requires s < arena[s].children.Get(keys[i]).value < |arena|
    requires x in Preorder(arena, arena[s].children.Get(keys[i]).value)
    ensures x in PreorderChildren(arena, s, keys)
    decreases |keys|
  {
    var n := |keys| - 1;
    if i < n {
      assert keys[..n][i] == keys[i];
      ChildSubtreeIncluded(arena, s, keys[..n], i, x);
    }
  }

  /** So the subtree of `s` holds every scope registered below it, at any depth. */
  lemma SubtreeOfChild<K(!new), V>(arena: seq<Scope<K, V>>, s: nat, key: NodeId, x: nat)
    requires s < |arena| && key in arena[s].children.keys
    requires arena[s].children.Get(key).Some? && s < arena[s].children.Get(key).value < |arena|
    requires x in Preorder(arena, arena[s].children.Get(key).value)
    ensures x in Preorder(arena, s)
  {
    var i :| 0 <= i < |arena[s].children.keys| && arena[s].children.keys[i] == key;
    ChildSubtreeIncluded(arena, s, arena[s].children.keys, i, x);
  }
}
