/**
 The get-or-insert step every `deduplicate*` operation performs on its store, written
 once for any content type.

 A store is keyed by content (the `equals`/`hashCode` of the key), so looking up a value
 finds the entry of any content-equal object. A self-store maps each key to the canonical
 instance holding it; an optional store maps each key to the canonical `Optional` wrapping
 it.
 */
module Stores {
  import opened Objects

  /** Every key of a self-store maps to an instance whose content is that key. */
  ghost predicate SelfKeyed<T>(m: map<T, Ref<T>>) {
    forall k | k in m :: m[k].val == k
  }

  /** Every key of an optional store of a value kind maps to a present wrapper of that key. */
  ghost predicate ValueKeyed<T>(m: map<T, Optional<T>>) {
    forall k | k in m :: m[k].Present? && m[k].get == k
  }

  /** Every key of an optional store maps to a present wrapper holding the instance the
      base self-store holds for that key. */
  ghost predicate WrapsBase<T>(om: map<T, Optional<Ref<T>>>, m: map<T, Ref<T>>) {
    forall k | k in om :: k in m && om[k].Present? && om[k].get == m[k]
  }

  /** Every instance a store holds has an identity below `bound`. */
  ghost predicate RefsBelow<K, T>(m: map<K, Ref<T>>, bound: nat) {
    forall k | k in m :: m[k].id < bound
  }

  /** Every wrapper an optional store holds is present and has an identity below `bound`. */
  ghost predicate WrappersBelow<K, T>(m: map<K, Optional<T>>, bound: nat) {
    forall k | k in m :: m[k].Present? && m[k].id < bound
  }

  /** No entry of `m` has been removed or replaced in `m'`. */
  ghost predicate Retains<K, V>(m: map<K, V>, m': map<K, V>) {
    forall k | k in m :: k in m' && m'[k] == m[k]
  }

  /** What a miss stores: the argument object itself, or a fresh copy of it. */
  datatype Policy = KeepArgument | StoreCopy

  datatype Interned<T> = Interned(canonical: Ref<T>, store: map<T, Ref<T>>, nextId: nat)

  /** Get-or-insert on a self-store: return the instance stored for `x`'s content, or make
      `x` (or, under `StoreCopy`, a fresh copy of it) the canonical instance. */
  function Intern<T(==)>(m: map<T, Ref<T>>, nextId: nat, x: Ref<T>, policy: Policy): (r: Interned<T>)
    // afterwards the store holds the result under the argument's content
    ensures x.val in r.store && r.store[x.val] == r.canonical
    // hit: the stored instance, nothing changes
    ensures x.val in m ==> r == Interned(m[x.val], m, nextId)
    // miss: exactly one entry is added, and the result has the argument's content
    ensures x.val !in m ==> r.store == m[x.val := r.canonical] && r.canonical.val == x.val
    ensures x.val !in m && policy == KeepArgument ==> r.canonical == x
    ensures x.val !in m && policy == StoreCopy ==> nextId <= r.canonical.id && r.canonical.id != x.id
    ensures Retains(m, r.store) && nextId <= r.nextId
    ensures SelfKeyed(m) ==> SelfKeyed(r.store) && r.canonical.val == x.val
    ensures RefsBelow(m, nextId) ==> RefsBelow(r.store, r.nextId)
  {
    if x.val in m then
      Interned(m[x.val], m, nextId)
    else
      var c := if policy == KeepArgument then x else Ref(Past(nextId, x.id), x.val);
      Interned(c, m[c.val := c], Past(nextId, c.id))
  }

  datatype InternedOptional<T> =
    InternedOptional(wrapper: Optional<Ref<T>>, optional: map<T, Optional<Ref<T>>>, base: map<T, Ref<T>>, nextId: nat)

  /** Get-or-insert on an optional store: on a miss the value is first interned in the base
      self-store, then a fresh `Optional` wrapping that canonical instance is stored under
      the canonical instance's content. */
  function InternOptional<T(==)>(om: map<T, Optional<Ref<T>>>, m: map<T, Ref<T>>, nextId: nat, x: Ref<T>, policy: Policy)
    : (r: InternedOptional<T>)
    // hit: the stored wrapper, neither store changes
    ensures x.val in om ==> r == InternedOptional(om[x.val], om, m, nextId)
    // miss: the base store is updated exactly as interning `x` there would, and a fresh
    // wrapper holds the base store's instance
    ensures x.val !in om ==>
              var b := Intern(m, nextId, x, policy);
              && r.base == b.store
              && r.wrapper.Present? && r.wrapper.get == b.canonical
              && b.nextId <= r.wrapper.id && r.wrapper.id != x.id
    ensures x.val !in om && SelfKeyed(m) ==> r.optional == om[x.val := r.wrapper]
    ensures Retains(m, r.base) && nextId <= r.nextId
    ensures SelfKeyed(m) ==> Retains(om, r.optional)
    ensures SelfKeyed(m) && WrapsBase(om, m) ==>
              && SelfKeyed(r.base) && WrapsBase(r.optional, r.base)
              && r.wrapper.Present? && r.wrapper.get.val == x.val && r.wrapper.get == r.base[x.val]
    ensures RefsBelow(m, nextId) && WrappersBelow(om, nextId) ==>
              RefsBelow(r.base, r.nextId) && WrappersBelow(r.optional, r.nextId)
  {
    if x.val in om then
      InternedOptional(om[x.val], om, m, nextId)
    else
      var b := Intern(m, nextId, x, policy);
      var w := Present(Past(b.nextId, x.id), b.canonical);
      InternedOptional(w, om[b.canonical.val := w], b.store, w.id + 1)
  }

  datatype InternedValue<T> = InternedValue(wrapper: Optional<T>, store: map<T, Optional<T>>, nextId: nat)

  /** Get-or-insert on an optional store of a by-value kind: there is no base store, the
      fresh wrapper holds the value itself. */
  function InternValue<T(==)>(om: map<T, Optional<T>>, nextId: nat, x: T): (r: InternedValue<T>)
    ensures x in r.store && r.store[x] == r.wrapper
    ensures x in om ==> r == InternedValue(om[x], om, nextId)
    ensures x !in om ==> r.store == om[x := r.wrapper] && r.wrapper.Present? && r.wrapper.get == x && nextId <= r.wrapper.id
    ensures Retains(om, r.store) && nextId <= r.nextId
    ensures ValueKeyed(om) ==> ValueKeyed(r.store) && r.wrapper.Present? && r.wrapper.get == x
    ensures WrappersBelow(om, nextId) ==> WrappersBelow(r.store, r.nextId)
  {
    if x in om then
      InternedValue(om[x], om, nextId)
    else
      var w := Present(nextId, x);
      InternedValue(w, om[x := w], nextId + 1)
  }
}
