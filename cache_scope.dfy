/**
 * The scope class of the cache-function pass (caches/scope.ts): the same
 * tree of scopes as the unpacker's, whose name map holds cache functions
 * (here their index in the pass's list). Unlike the unpacker's scope, both
 * ways of binding a name silently replace an earlier binding.
 */
module CacheScope {
  import opened Base
  import opened Ast
  import opened ScopeTree

  type CScope = Scope<string, nat>

  /** `findCacheFunction(name)`: the nearest binding on the parent chain, or none. */
  function FindCacheFunction(arena: seq<CScope>, s: nat, name: string): Option<nat> {
    Find<string, nat>(arena, s, name)
  }

  /**
   * `cacheFunctions.set(name, f)` on scope `s`, the one update behind both
   * `addCacheFunction` (under the function's own name) and `addAlias`: it
   * never fails, the name now finds `f` from `s`, and nothing else changes.
   */
  function Bind(arena: seq<CScope>, s: nat, name: string, f: nat): (r: seq<CScope>)
    ensures |r| == |arena|
    ensures forall j :: 0 <= j < |arena| && j != s ==> r[j] == arena[j]
    ensures s < |arena| ==>
              && r[s].node == arena[s].node && r[s].parent == arena[s].parent && r[s].children == arena[s].children
              && r[s].mapping.Get(name) == Some(f)
              && (forall k :: k != name ==> r[s].mapping.Get(k) == arena[s].mapping.Get(k))
    ensures s < |arena| ==> FindCacheFunction(r, s, name) == Some(f)
    ensures s >= |arena| ==> r == arena
  {
    if s < |arena| then arena[s := arena[s].(mapping := arena[s].mapping.Set(name, f))] else arena
  }

  /**
   * Binding a name that is already bound in the same scope replaces the entry:
   * there is no "already mapped" error as in the unpacker's scope.
   */
  lemma BindOverwrites(arena: seq<CScope>, s: nat, name: string, f: nat, g: nat)
    requires s < |arena|
    ensures FindCacheFunction(Bind(Bind(arena, s, name, f), s, name, g), s, name) == Some(g)
  {
  }

  /** A lookup of another name from any scope is not affected by a binding. */
  lemma BindKeepsOtherNames(arena: seq<CScope>, s: nat, t: nat, name: string, other: string, f: nat)
    requires other != name
    ensures FindCacheFunction(Bind(arena, s, name, f), t, other) == FindCacheFunction(arena, t, other)
  {
    var b := Bind(arena, s, name, f);
    forall k | 0 <= k < |Chain(arena, t)|
      ensures arena[Chain(arena, t)[k]].parent == b[Chain(arena, t)[k]].parent
    {
    }
    NameLookupAgrees(arena, b, t, other);
  }

  /** Two arenas with the same parents and the same entry for `name` on the chain give the same lookup of `name`. */
  lemma {:induction false} NameLookupAgrees(a: seq<CScope>, b: seq<CScope>, s: nat, name: string)
    requires |a| == |b|
    requires forall k :: 0 <= k < |Chain(a, s)| ==> a[Chain(a, s)[k]].parent == b[Chain(a, s)[k]].parent
    requires forall j :: 0 <= j < |a| ==> a[j].mapping.Get(name) == b[j].mapping.Get(name)
    ensures Find(a, s, name) == Find(b, s, name)
    decreases s
  {
    if s < |a| {
      assert Chain(a, s)[0] == s;
      assert (name in a[s].mapping.entries) == (a[s].mapping.Get(name).Some?);
      assert (name in b[s].mapping.entries) == (b[s].mapping.Get(name).Some?);
      if name !in a[s].mapping.entries && a[s].parent.Some? && a[s].parent.value < s {
        var p := a[s].parent.value;
        var c := Chain(a, s);
        assert c == [s] + Chain(a, p);
        forall k | 0 <= k < |Chain(a, p)|
          ensures a[Chain(a, p)[k]].parent == b[Chain(a, p)[k]].parent
        {
          assert Chain(a, p)[k] == c[k + 1];
        }
        NameLookupAgrees(a, b, p, name);
      }
    }
  }

  /**
   * A lookup from a scope never sees a binding added to a scope created after
   * it, such as one of its children: those are not on its parent chain.
   */
  lemma ChildBindingInvisible(arena: seq<CScope>, s: nat, child: nat, name: string, f: nat)
    requires s < child < |arena|
    ensures FindCacheFunction(Bind(arena, child, name, f), s, name) == FindCacheFunction(arena, s, name)
  {
    assert child !in Chain(arena, s);
    BindingInvisibleOffChain(arena, s, child, name, f);
  }

  /**
   * The pass's scopes, updated in place: the global scope is index 0 and
   * every scope created later registers in its parent's `children`.
   */
  class CacheScopes {
    var arena: seq<CScope>

    /** `new Scope(ast)`: the global scope, with no parent. */
    constructor (root: NodeId)
      ensures arena == [Scope(root, None, EmptyMap(), EmptyMap())]
    {
      arena := [Scope(root, None, EmptyMap(), EmptyMap())];
    }

    /** `new Scope(node, parent)`: a new scope, registered in its parent's children under its node. */
    method NewScope(node: NodeId, parent: nat) returns (s: nat)
      modifies this
      ensures arena == Register(old(arena), node, Some(parent)) && s == |old(arena)|
    {
      s := |arena|;
      arena := Register(arena, node, Some(parent));
    }

    /** `addCacheFunction(f)`: `f` is bound under its own name, replacing any earlier entry. */
    method AddCacheFunction(s: nat, name: string, f: nat)
      modifies this
      ensures arena == Bind(old(arena), s, name, f)
    {
      arena := Bind(arena, s, name, f);
    }

    /** `addAlias(f, name)`: `f` is also bound under `name`, with no duplicate check. */
    method AddAlias(s: nat, f: nat, name: string)
      modifies this
      ensures arena == Bind(old(arena), s, name, f)
    {
      arena := Bind(arena, s, name, f);
    }
  }
}
