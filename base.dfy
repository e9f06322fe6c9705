/**
 * Shared vocabulary of the model: optional values, the errors the passes can
 * raise, JavaScript's insertion-ordered `Map`, and a left fold over a sequence
 * of steps that may fail. Every traversal of the passes is such a fold.
 */
module Base {

  datatype Option<+T> = None | Some(value: T)

  /** The exceptions the core can raise; each one aborts the whole run. */
  datatype Error =
    | ArrayIntoScalar(prop: string, parentKind: string) // a node list given for a single-node property
    | AlreadyMapped(kindId: string, name: string)       // a constant name bound twice in one scope
    | NotFunctionExpression                             // the cache override changed shape
    | TypeError(reason: string)                         // a property read of undefined, a missing method

  datatype Result<+T> = Ok(value: T) | Err(error: Error)

  function Min(a: int, b: int): int { if a <= b then a else b }

  /**
   * A JavaScript `Map`: the keys in insertion order and the entries.
   * Setting an existing key replaces its value and keeps its position.
   */
  datatype OMap<K(!new), V> = OMap(keys: seq<K>, entries: map<K, V>) {

    ghost predicate Valid() {
      && (forall k :: k in entries <==> k in keys)
      && (forall i, j :: 0 <= i < j < |keys| ==> keys[i] != keys[j])
    }

    function Get(k: K): Option<V> {
      if k in entries then Some(entries[k]) else None
    }

    function Set(k: K, v: V): (m: OMap<K, V>)
      ensures m.entries == entries[k := v]
      ensures m.Get(k) == Some(v)
      ensures forall k' :: k' != k ==> m.Get(k') == Get(k')
      ensures k in entries ==> m.keys == keys
      ensures k !in entries ==> m.keys == keys + [k]
    {
      if k in entries then OMap(keys, entries[k := v]) else OMap(keys + [k], entries[k := v])
    }
  }

  function EmptyMap<K(!new), V>(): (m: OMap<K, V>)
    ensures m.Valid() && m.keys == [] && m.entries == map[]
  {
    OMap([], map[])
  }

  /** Setting a key keeps a map free of repeated keys and in step with its entries. */
  lemma SetKeepsValid<K(!new), V>(m: OMap<K, V>, k: K, v: V)
    requires m.Valid()
    ensures m.Set(k, v).Valid()
  {
    var m' := m.Set(k, v);
    if k !in m.entries {
      forall i, j | 0 <= i < j < |m'.keys| ensures m'.keys[i] != m'.keys[j] {
        if j == |m.keys| {
          assert m'.keys[i] == m.keys[i];
        }
      }
    }
  }

  /**
   * Left fold of a step that may fail: the first failing step ends the fold.
   * Defined on the last element so that a loop over `es[..i]` follows it.
   */
  function Fold<S, E>(step: (S, E) -> Result<S>, s: S, es: seq<E>): Result<S>
    decreases |es|
  {
    if es == [] then Ok(s)
    else
      match Fold(step, s, es[..|es| - 1])
      case Err(e) => Err(e)
      case Ok(t) => step(t, es[|es| - 1])
  }

  function Then<S, E>(step: (S, E) -> Result<S>, r: Result<S>, es: seq<E>): Result<S> {
    match r
    case Err(e) => Err(e)
    case Ok(t) => Fold(step, t, es)
  }

  lemma FoldSnoc<S, E>(step: (S, E) -> Result<S>, s: S, es: seq<E>, e: E)
    ensures Fold(step, s, es + [e]) == Then(step, Fold(step, s, es), [e])
  {
    assert (es + [e])[..|es|] == es;
    match Fold(step, s, es)
    case Err(_) =>
    case Ok(t) =>
      assert [e][..0] == [];
      assert Fold(step, t, [e][..0]) == Ok(t);
      assert Fold(step, t, [e]) == step(t, e);
  }

  /** A prefix one longer is the prefix and the next element. */
  lemma TakeSnoc<E>(es: seq<E>, i: nat)
    requires i < |es|
    ensures es[..i + 1] == es[..i] + [es[i]]
  {
  }

  /** One more step after a successful prefix. */
  lemma FoldStep<S, E>(step: (S, E) -> Result<S>, s: S, es: seq<E>, e: E, t: S)
    requires Fold(step, s, es) == Ok(t)
    ensures Fold(step, s, es + [e]) == step(t, e)
  {
    FoldSnoc(step, s, es, e);
  }

  lemma {:induction false} FoldAppend<S, E>(step: (S, E) -> Result<S>, s: S, a: seq<E>, b: seq<E>)
    ensures Fold(step, s, a + b) == Then(step, Fold(step, s, a), b)
    decreases |b|
  {
    if b == [] {
      assert a + b == a;
      match Fold(step, s, a)
      case Err(_) =>
      case Ok(_) =>
    } else {
      var b' := b[..|b| - 1];
      assert a + b == (a + b') + [b[|b| - 1]];
      FoldSnoc(step, s, a + b', b[|b| - 1]);
      FoldAppend(step, s, a, b');
      match Fold(step, s, a)
      case Err(_) =>
      case Ok(t) => FoldSnoc(step, t, b', b[|b| - 1]); assert b' + [b[|b| - 1]] == b;
    }
  }

  /** Once a prefix of the steps has failed, the whole fold fails with the same error. */
  lemma FoldErrSticks<S, E>(step: (S, E) -> Result<S>, s: S, es: seq<E>, i: nat)
    requires i <= |es| && Fold(step, s, es[..i]).Err?
    ensures Fold(step, s, es) == Fold(step, s, es[..i])
  {
    FoldAppend(step, s, es[..i], es[i..]);
    assert es[..i] + es[i..] == es;
  }

  /** A failing prefix decides the fold. */
  lemma FoldErrPrefix<S, E>(step: (S, E) -> Result<S>, s: S, pre: seq<E>, es: seq<E>)
    requires pre <= es && Fold(step, s, pre).Err?
    ensures Fold(step, s, es) == Fold(step, s, pre)
  {
    assert es[..|pre|] == pre;
    FoldErrSticks(step, s, es, |pre|);
  }

  /** A property every successful step keeps holds after the whole fold. */
  lemma {:induction false} FoldKeeps<S, E>(step: (S, E) -> Result<S>, P: S -> bool, s: S, es: seq<E>)
    requires P(s)
    requires forall t, e :: P(t) && step(t, e).Ok? ==> P(step(t, e).value)
    ensures Fold(step, s, es).Ok? ==> P(Fold(step, s, es).value)
    decreases |es|
  {
    if es != [] {
      FoldKeeps(step, P, s, es[..|es| - 1]);
    }
  }

  /** A fold fails only with an error some step can fail with. */
  lemma {:induction false} FoldRaises<S, E>(step: (S, E) -> Result<S>, Q: Error -> bool, s: S, es: seq<E>)
    requires forall t, e :: step(t, e).Err? ==> Q(step(t, e).error)
    ensures Fold(step, s, es).Err? ==> Q(Fold(step, s, es).error)
    decreases |es|
  {
    if es != [] {
      FoldRaises(step, Q, s, es[..|es| - 1]);
    }
  }

  /** The lists `f` gives for each of `xs`, joined in order. */
  function Gather<T>(f: nat -> seq<T>, xs: seq<nat>): seq<T>
    decreases |xs|
  {
    if xs == [] then [] else Gather(f, xs[..|xs| - 1]) + f(xs[|xs| - 1])
  }

  lemma GatherSnoc<T>(f: nat -> seq<T>, xs: seq<nat>, x: nat)
    ensures Gather(f, xs + [x]) == Gather(f, xs) + f(x)
  {
    assert (xs + [x])[..|xs|] == xs;
  }

  lemma {:induction false} GatherAppend<T>(f: nat -> seq<T>, a: seq<nat>, b: seq<nat>)
    ensures Gather(f, a + b) == Gather(f, a) + Gather(f, b)
    decreases |b|
  {
    if b == [] {
      assert a + b == a;
    } else {
      var n := |b| - 1;
      assert b == b[..n] + [b[n]];
      assert a + b == (a + b[..n]) + [b[n]];
      GatherSnoc(f, a + b[..n], b[n]);
      GatherSnoc(f, b[..n], b[n]);
      GatherAppend(f, a, b[..n]);
    }
  }

  /** An element of the joined lists comes from the list of some element of `xs`. */
  lemma {:induction false} GatherMembers<T>(f: nat -> seq<T>, xs: seq<nat>, y: T)
    ensures y in Gather(f, xs) <==> exists k :: 0 <= k < |xs| && y in f(xs[k])
    decreases |xs|
  {
    if xs != [] {
      var n := |xs| - 1;
      var pre := xs[..n];
      GatherMembers(f, pre, y);
      assert xs == pre + [xs[n]];
      GatherSnoc(f, pre, xs[n]);
      if y in Gather(f, pre) {
        var k :| 0 <= k < |pre| && y in f(pre[k]);
        assert xs[k] == pre[k];
      }
      if exists k :: 0 <= k < |xs| && y in f(xs[k]) {
        var k :| 0 <= k < |xs| && y in f(xs[k]);
        if k < n {
          assert pre[k] == xs[k];
        }
      }
    }
  }
}
