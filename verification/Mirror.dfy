/** When a cache of values by name mirrors a store of values by key: the agreement both
    sides keep, independent of what keys, names and values are. */
module Mirror {

  /** No two keys have the same name. */
  ghost predicate Apart<K(!new), N(!new)>(names: map<K, N>) {
    forall k, l, n :: Backs(names, k, n) && Backs(names, l, n) ==> k == l
  }

  /** Every stored key has a name. */
  ghost predicate Covers<K(!new), N(!new), U(!new)>(names: map<K, N>, store: map<K, U>) {
    forall k :: k in store ==> k in names
  }

  ghost predicate Backs<K(!new), N(!new)>(names: map<K, N>, k: K, n: N) {
    k in names && names[k] == n
  }

  /** Each stored key's name is cached with its value, and only names of keys in use are. */
  ghost predicate Serves<K(!new), N(!new), U(!new)>(cache: map<N, U>, store: map<K, U>, names: map<K, N>) {
    && Covers(names, store)
    && (forall k, n :: k in store && Backs(names, k, n) ==> n in cache && cache[n] == store[k])
    && (forall n :: n in cache ==> exists k :: Backs(names, k, n))
  }

  /** No cached value belongs to a key in use that is not stored. */
  ghost predicate NoneGone<K(!new), N(!new), U(!new)>(cache: map<N, U>, store: map<K, U>, names: map<K, N>, none: U) {
    forall k, n :: Backs(names, k, n) && k !in store && n in cache ==> cache[n] == none
  }

  /** Each stored key's name is cached with its value, and whatever else is cached is a
      tombstone with the empty value, for one of the keys in use. */
  ghost predicate Agrees<K(!new), N(!new), U(!new)>(cache: map<N, U>, store: map<K, U>, names: map<K, N>, none: U) {
    Serves(cache, store, names) && NoneGone(cache, store, names, none)
  }

  /** The names an agreeing cache holds a value for are exactly the stored ones. */
  lemma AgreementShows<K(!new), N(!new), U(!new)>(cache: map<N, U>, store: map<K, U>, names: map<K, N>, none: U, n: N, u: U)
    requires Agrees(cache, store, names, none) && u != none
    ensures (n in cache && cache[n] == u) <==> exists k :: k in store && Backs(names, k, n) && store[k] == u
  {
    if n in cache && cache[n] == u {
      var k :| Backs(names, k, n);
      assert k in store && store[k] == u;
    }
  }

  /** The cache and the store change at one key and its name only, and in step. */
  ghost predicate ChangesAt<K(!new), N(!new), U(!new)>(cache: map<N, U>, cache': map<N, U>, store: map<K, U>, store': map<K, U>,
                                                       key: K, n: N, none: U) {
    && (forall m :: m != n ==> (m in cache' <==> m in cache) && (m in cache ==> cache'[m] == cache[m]))
    && (forall k :: k != key ==> (k in store' <==> k in store) && (k in store ==> store'[k] == store[k]))
    && (key in store' ==> n in cache' && cache'[n] == store'[key])
    && (key !in store' ==> n in cache' ==> cache'[n] == none)
  }

  /** A change of one key and its name on both sides keeps whatever agreement there is. */
  lemma AgreesAfter<K(!new), N(!new), U(!new)>(cache: map<N, U>, cache': map<N, U>, store: map<K, U>, store': map<K, U>,
                                               key: K, names: map<K, N>, none: U)
    requires Apart(names) && key in names && Serves(cache, store, names)
    requires ChangesAt(cache, cache', store, store', key, names[key], none)
    ensures Serves(cache', store', names)
    ensures NoneGone(cache, store, names, none) ==> NoneGone(cache', store', names, none)
  {
    var m := names[key];
    assert Backs(names, key, m);
    forall k, n | k in store' && Backs(names, k, n) ensures n in cache' && cache'[n] == store'[k] {
      assert k == key <==> n == m;
    }
    forall n | n in cache' ensures exists k :: Backs(names, k, n) {
      assert n != m ==> n in cache;
    }
    if NoneGone(cache, store, names, none) {
      forall k, n | Backs(names, k, n) && k !in store' && n in cache' ensures cache'[n] == none {
        assert k == key <==> n == m;
      }
    }
  }

  /** A listing by name of everything stored, and of nothing else. */
  ghost predicate ListedLive<K(!new), N(!new), U(!new)>(listed: map<N, U>, store: map<K, U>, names: map<K, N>) {
    && (forall k, n :: k in store && Backs(names, k, n) ==> n in listed && listed[n] == store[k])
    && (forall n :: n in listed ==> exists k :: k in store && Backs(names, k, n))
  }

  /** The cache that laying a listing over another cache gives. */
  ghost predicate Overlays<N(!new), U(!new)>(laid: map<N, U>, cache: map<N, U>, listed: map<N, U>) {
    forall n ::
      && (n in laid <==> n in cache || n in listed)
      && (n in laid ==> laid[n] == if n in listed then listed[n] else cache[n])
  }

  /** Laying a listing over a cache serves every stored key, and gives agreement exactly when
      nothing cached is gone. */
  lemma OverlayAgreesExactly<K(!new), N(!new), U(!new)>(
    laid: map<N, U>, cache: map<N, U>, store: map<K, U>, listed: map<N, U>, names: map<K, N>, none: U)
    requires Overlays(laid, cache, listed) && Apart(names) && Covers(names, store)
    requires ListedLive(listed, store, names) && forall n :: n in cache ==> exists k :: Backs(names, k, n)
    ensures Serves(laid, store, names)
    ensures Agrees(laid, store, names, none) <==> NoneGone(cache, store, names, none)
  {
    forall n | n in laid ensures exists k :: Backs(names, k, n) {
      assert n in cache || n in listed;
    }
    forall k, n | Backs(names, k, n) && k !in store && n in cache ensures n in laid && laid[n] == cache[n] {
      assert n !in listed;
    }
    forall k, n | Backs(names, k, n) && k !in store && n in laid ensures n in cache {
      assert n !in listed;
    }
  }
}
