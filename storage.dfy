/**
 * The browser-side key-value store of the library front end: a `Storage` object that
 * namespaces every key with a prefix, stamps entries with an optional expiry time, and
 * hides (and deletes) entries once that time has passed; plus the two most-recently-used
 * lists kept in it (recent searches, recently viewed books) and the login test.
 *
 * `localStorage` is the map `local`; the clock is the parameter `now` (milliseconds).
 * Stored values are abstract (`V`) and are assumed to be JSON-safe, so that encoding and
 * parsing give them back unchanged (which `undefined`, `NaN` or a `Date` would not be), and
 * none of them is `null`, which `get` would return just as it does for a missing key.
 */
module ClientStorage {
  import opened Wrappers

  /** The default namespace of every key this front end writes. */
  const DefaultPrefix: string := "booklib_"

  const MillisPerMinute: int := 60 * 1000

  /** A stored entry: the value and, when it can expire, the time after which it is stale. */
  datatype Item<V> = Item(value: V, expiry: Option<int>)

  /**
   * The expiry stamped by `set`: a falsy minute count (absent or 0) stores none; any other
   * count, negative ones included, stores `now` plus that many minutes.
   */
  function ExpiryFor(now: int, minutes: Option<int>): (e: Option<int>)
    ensures e.None? <==> (minutes.None? || minutes.value == 0)
    ensures e.Some? ==> e.value - now == minutes.value * MillisPerMinute
  {
    if minutes.None? || minutes.value == 0 then None else Some(now + minutes.value * MillisPerMinute)
  }

  /** An entry is stale when it has a truthy (non-zero) expiry and the clock is strictly past it. */
  predicate Expired<V>(item: Item<V>, now: int) {
    item.expiry.Some? && item.expiry.value != 0 && now > item.expiry.value
  }

  /** What `get` answers for the full key `k`: nothing for a missing or stale entry. */
  function Lookup<V>(store: map<string, Item<V>>, k: string, now: int): (r: Option<V>)
    ensures r.Some? <==> (k in store && !Expired(store[k], now))
    ensures r.Some? ==> r.value == store[k].value
  {
    if k !in store || Expired(store[k], now) then None else Some(store[k].value)
  }

  /** The store after `get` has looked at `k`: a stale entry is deleted, nothing else changes. */
  function Pruned<V>(store: map<string, Item<V>>, k: string, now: int): (s: map<string, Item<V>>)
    ensures s.Keys == if k in store && Expired(store[k], now) then store.Keys - {k} else store.Keys
    ensures forall j | j in s :: s[j] == store[j]
  {
    if k in store && Expired(store[k], now) then store - {k} else store
  }

  /** `key.startsWith(prefix)`. */
  predicate HasPrefix(key: string, prefix: string) {
    prefix <= key
  }

  /** The keys in the namespace `prefix`. */
  function PrefixedKeys<V>(store: map<string, Item<V>>, prefix: string): (ks: set<string>)
    ensures ks <= store.Keys
    ensures forall k | k in store :: k in ks <==> HasPrefix(k, prefix)
  {
    set k | k in store && HasPrefix(k, prefix)
  }

  /** The store with every key of the namespace `prefix` removed. */
  function WithoutPrefix<V>(store: map<string, Item<V>>, prefix: string): (s: map<string, Item<V>>)
    ensures forall k :: k in s <==> k in store && !HasPrefix(k, prefix)
    ensures forall k | k in s :: s[k] == store[k]
  {
    map k | k in store && !HasPrefix(k, prefix) :: store[k]
  }

  /** Part way through `clear`: the namespaced keys already visited are gone, the rest are kept. */
  function ClearedOutside<V>(store: map<string, Item<V>>, prefix: string, pending: set<string>): map<string, Item<V>> {
    map k | k in store && (k in pending || !HasPrefix(k, prefix)) :: store[k]
  }

  lemma ClearBounds<V>(store: map<string, Item<V>>, prefix: string)
    ensures ClearedOutside(store, prefix, store.Keys) == store
    ensures ClearedOutside(store, prefix, {}) == WithoutPrefix(store, prefix)
  {
  }

  /** Visiting one key: it is deleted exactly when it is in the namespace. */
  lemma ClearStep<V>(store: map<string, Item<V>>, prefix: string, pending: set<string>, k: string)
    requires k in pending && k in store
    ensures ClearedOutside(store, prefix, pending - {k})
         == if HasPrefix(k, prefix) then ClearedOutside(store, prefix, pending) - {k}
            else ClearedOutside(store, prefix, pending)
  {
    var before := ClearedOutside(store, prefix, pending);
    var after := ClearedOutside(store, prefix, pending - {k});
    var stepped := if HasPrefix(k, prefix) then before - {k} else before;
    assert stepped.Keys == after.Keys;
    forall j | j in after ensures stepped[j] == after[j] {
    }
  }

  /** The store after `clear`, written as a loop over a snapshot of the keys. */
  method ClearPrefix<V>(store: map<string, Item<V>>, prefix: string) returns (s: map<string, Item<V>>)
    ensures s == WithoutPrefix(store, prefix)
  {
    ClearBounds(store, prefix);
    s := store;
    var keys := store.Keys;
    while keys != {}
      invariant keys <= store.Keys
      invariant s == ClearedOutside(store, prefix, keys)
      decreases keys
    {
      var k :| k in keys;
      ClearStep(store, prefix, keys, k);
      if HasPrefix(k, prefix) {
        s := s - {k};
      }
      keys := keys - {k};
    }
  }

  class Storage<V> {
    const prefix: string
    var local: map<string, Item<V>>

    /** A store over the browser's current `localStorage`, namespaced by `prefix`. */
    constructor(prefix: string, local: map<string, Item<V>>)
      ensures this.prefix == prefix && this.local == local
    {
      this.prefix := prefix;
      this.local := local;
    }

    /** A store with the default prefix, as the front end's one shared instance is built. */
    constructor Default(local: map<string, Item<V>>)
      ensures prefix == DefaultPrefix && this.local == local
    {
      prefix := DefaultPrefix;
      this.local := local;
    }

    /** The full key of `key`: the prefix followed by the key. */
    function Key(key: string): (k: string)
      ensures HasPrefix(k, prefix) && |k| == |prefix| + |key|
      ensures k[|prefix|..] == key
    {
      prefix + key
    }

    /** Stores `value` under `Key(key)`, replacing whatever was there. */
    method Set(key: string, value: V, expiryInMinutes: Option<int>, now: int)
      modifies this
      ensures local == old(local)[Key(key) := Item(value, ExpiryFor(now, expiryInMinutes))]
    {
      local := local[Key(key) := Item(value, ExpiryFor(now, expiryInMinutes))];
    }

    /** The value under `Key(key)`, or nothing; a stale entry is deleted on the way. */
    method Get(key: string, now: int) returns (r: Option<V>)
      modifies this
      ensures r == Lookup(old(local), Key(key), now)
      ensures local == Pruned(old(local), Key(key), now)
    {
      var k := Key(key);
      if k !in local {
        return None;
      }
      var item := local[k];
      if item.expiry.Some? && item.expiry.value != 0 && now > item.expiry.value {
        Remove(key);
        return None;
      }
      r := Some(item.value);
    }

    /** Deletes `Key(key)` and nothing else. */
    method Remove(key: string)
      modifies this
      ensures local == old(local) - {Key(key)}
    {
      local := local - {Key(key)};
    }

    /** Deletes every key of this namespace and keeps every other key. */
    method Clear()
      modifies this
      ensures local == WithoutPrefix(old(local), prefix)
    {
      local := ClearPrefix(local, prefix);
    }

    /** Whether `get` would find a value; like `get`, deletes a stale entry. */
    method Exists(key: string, now: int) returns (b: bool)
      modifies this
      ensures b <==> Lookup(old(local), Key(key), now).Some?
      ensures local == Pruned(old(local), Key(key), now)
    {
      var r := Get(key, now);
      b := r.Some?;
    }

    /** The number of keys in this namespace, stale ones included. */
    function Size(): (n: nat)
      reads this
      ensures n <= |local|
      ensures n == 0 <==> forall k | k in local :: !HasPrefix(k, prefix)
    {
      SubsetCard(PrefixedKeys(local, prefix), local.Keys);
      |PrefixedKeys(local, prefix)|
    }
  }

  // ---- What the store promises across calls ----

  /** A fresh entry is found until its expiry; one stored without minutes is found forever. */
  lemma SetThenGet<V>(store: map<string, Item<V>>, k: string, v: V, minutes: Option<int>, now: int, later: int)
    requires minutes.Some? && minutes.value != 0 ==> later <= now + minutes.value * MillisPerMinute
    ensures Lookup(store[k := Item(v, ExpiryFor(now, minutes))], k, later) == Some(v)
    ensures Pruned(store[k := Item(v, ExpiryFor(now, minutes))], k, later) == store[k := Item(v, ExpiryFor(now, minutes))]
  {
  }

  /** Past its (non-zero) expiry an entry is gone: `get` answers nothing and deletes it. */
  lemma StaleEntryIsDeleted<V>(store: map<string, Item<V>>, k: string, v: V, e: int, later: int)
    requires e != 0 && later > e
    ensures Lookup(store[k := Item(v, Some(e))], k, later) == None
    ensures Pruned(store[k := Item(v, Some(e))], k, later) == store - {k}
  {
    var s := store[k := Item(v, Some(e))];
    assert Pruned(s, k, later) == s - {k};
    assert s - {k} == store - {k};
  }

  /** The boundary is inclusive: at the expiry instant the entry is still there, one tick later it is not. */
  lemma ExpiryBoundary<V>(item: Item<V>, e: int)
    requires item.expiry == Some(e) && e != 0
    ensures !Expired(item, e) && Expired(item, e + 1)
  {
  }

  /** Writing one key changes what every other key answers in no way. */
  lemma SetLeavesOthers<V>(store: map<string, Item<V>>, k: string, item: Item<V>, j: string, now: int)
    requires j != k
    ensures Lookup(store[k := item], j, now) == Lookup(store, j, now)
  {
  }

  /** Removing one key empties it and changes no other key. */
  lemma RemoveOnlyThatKey<V>(store: map<string, Item<V>>, k: string, j: string, now: int)
    ensures Lookup(store - {k}, j, now) == if j == k then None else Lookup(store, j, now)
  {
  }

  /** `get` is idempotent: asking twice gives the same answer and deletes nothing more. */
  lemma GetIdempotent<V>(store: map<string, Item<V>>, k: string, now: int)
    ensures Lookup(Pruned(store, k, now), k, now) == Lookup(store, k, now)
    ensures Pruned(Pruned(store, k, now), k, now) == Pruned(store, k, now)
  {
  }

  /** Pruning never changes an answer, for any key. */
  lemma PruneKeepsAnswers<V>(store: map<string, Item<V>>, k: string, j: string, now: int)
    ensures Lookup(Pruned(store, k, now), j, now) == Lookup(store, j, now)
  {
  }

  /** A write after a `get` of the same key is as if the `get` had not been there. */
  lemma PruneThenSet<V>(store: map<string, Item<V>>, k: string, now: int, item: Item<V>)
    ensures Pruned(store, k, now)[k := item] == store[k := item]
  {
    var s := Pruned(store, k, now)[k := item];
    assert s.Keys == store[k := item].Keys;
  }

  /** After `clear` the namespace is empty and every other key answers as before. */
  lemma ClearScope<V>(store: map<string, Item<V>>, prefix: string, j: string, now: int)
    ensures Lookup(WithoutPrefix(store, prefix), j, now) == if HasPrefix(j, prefix) then None else Lookup(store, j, now)
    ensures PrefixedKeys(WithoutPrefix(store, prefix), prefix) == {}
  {
  }

  /** Writing a key of the namespace grows its size by one exactly when the key is new. */
  lemma SizeAfterSet<V>(store: map<string, Item<V>>, prefix: string, k: string, item: Item<V>)
    requires HasPrefix(k, prefix)
    ensures |PrefixedKeys(store[k := item], prefix)| == |PrefixedKeys(store, prefix)| + (if k in store then 0 else 1)
  {
    var before := PrefixedKeys(store, prefix);
    assert PrefixedKeys(store[k := item], prefix) == before + {k};
    if k in store {
      assert k in before;
      assert before + {k} == before;
    } else {
      assert k !in before;
    }
  }

  /** Two keys share a full key only when they are the same key. */
  lemma KeyInjective<V>(st: Storage<V>, a: string, b: string)
    ensures st.Key(a) == st.Key(b) <==> a == b
  {
    if st.Key(a) == st.Key(b) {
      assert a == st.Key(a)[|st.prefix|..];
    }
  }

  lemma SubsetCard<T>(a: set<T>, b: set<T>)
    requires a <= b
    ensures |a| <= |b|
  {
    if a != {} {
      var x :| x in a;
      SubsetCard(a - {x}, b - {x});
    }
  }
}
