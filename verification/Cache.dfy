/** The fixed-size ARP and DNS caches: first-free stores that fall back on slot 0, read as maps. */
module Cache {
  import opened SlotTable

  datatype Option<+V> = None | Some(value: V)

  /** The slot a store uses: the first empty or matching one, or slot 0. */
  function Slot<K(==), V>(t: seq<Cell<K, V>>, key: K): (k: nat)
    ensures |t| > 0 ==> k < |t|
  {
    var k := Match(t, key);
    if k < |t| then k else 0
  }

  function Match<K(==), V>(t: seq<Cell<K, V>>, key: K): (k: nat)
    ensures k <= |t|
    ensures k < |t| ==> t[k].Empty? || t[k].key == key
    ensures forall i :: 0 <= i < k ==> t[i].Bound? && t[i].key != key
  {
    if |t| == 0 || t[0].Empty? || t[0].key == key then 0 else 1 + Match(t[1..], key)
  }

  function Lookup<K(==), V>(t: seq<Cell<K, V>>, key: K): (r: Option<V>)
    ensures r.Some? <==> exists k :: 0 <= k < |t| && t[k].Bound? && t[k].key == key
  {
    if |t| == 0 then None
    else if t[0].Bound? && t[0].key == key then Some(t[0].value)
    else
      var r := Lookup(t[1..], key);
      assert r.Some? ==> exists k :: 0 <= k < |t| && t[k].Bound? && t[k].key == key by {
        if r.Some? {
          var k :| 0 <= k < |t[1..]| && t[1..][k].Bound? && t[1..][k].key == key;
          assert t[k + 1].Bound? && t[k + 1].key == key;
        }
      }
      assert r.None? ==> forall k :: 0 <= k < |t| && t[k].Bound? ==> t[k].key != key by {
        assert forall k :: 0 < k < |t| ==> t[k] == t[1..][k - 1];
      }
      r
  }

  /** A store looks for `key` and records it as `stored`; the two differ only for names cut short. */
  function Store<K(==), V>(t: seq<Cell<K, V>>, key: K, stored: K, v: V): (r: seq<Cell<K, V>>)
    requires |t| > 0
    ensures |r| == |t|
  {
    t[Slot(t, key) := Bound(stored, v)]
  }

  /** Used slots come first and have distinct keys. */
  ghost predicate CacheInv<K, V>(t: seq<Cell<K, V>>) {
    Distinct(t) && forall i, j :: 0 <= i < j < |t| && t[j].Bound? ==> t[i].Bound?
  }

  lemma EmptyInv<K, V>(t: seq<Cell<K, V>>)
    requires forall i :: 0 <= i < |t| ==> t[i].Empty?
    ensures CacheInv(t) && ToMap(t) == map[]
  {
    assert Keys(t) == {};
  }

  ghost predicate Full<K, V>(t: seq<Cell<K, V>>) {
    forall i :: 0 <= i < |t| ==> t[i].Bound?
  }

  lemma SlotFound<K, V>(t: seq<Cell<K, V>>, key: K)
    requires |t| > 0 && CacheInv(t)
    ensures key in ToMap(t) ==> t[Slot(t, key)].Bound? && t[Slot(t, key)].key == key
    ensures key !in ToMap(t) && !Full(t) ==> t[Slot(t, key)].Empty?
    ensures key !in ToMap(t) && Full(t) ==> Slot(t, key) == 0
  {
    var m := Match(t, key);
    if key in ToMap(t) {
      var k := SlotOf(t, key);
      assert m <= k;
    } else if m == |t| {
      assert Full(t);
    }
  }

  /**
   * A store is a map update; only a new key in a full cache drops another binding, that of slot 0.
   */
  lemma StoreRefines<K, V>(t: seq<Cell<K, V>>, key: K, v: V)
    requires |t| > 0 && CacheInv(t)
    ensures var r := Store(t, key, key, v);
      && CacheInv(r)
      && ToMap(r) == (if key !in ToMap(t) && Full(t) then ToMap(t) - {t[0].key} else ToMap(t))[key := v]
  {
    var k, r := Slot(t, key), Store(t, key, key, v);
    SlotFound(t, key);
    forall i | 0 <= i < |t| && t[i].Bound? && i != k ensures t[i].key != key {
      ToMapAt(t, i);
    }
    forall j | 0 <= j < |t| && r[j].Bound? ensures forall i :: 0 <= i < j ==> r[i].Bound? {
      assert j == k ==> forall i :: 0 <= i < k ==> t[i].Bound?;
    }
    ToMapUpdate(t, k, Bound(key, v));
    if t[k].Bound? && t[k].key == key {
      assert (ToMap(t) - {key})[key := v] == ToMap(t)[key := v];
    }
  }

  /** Reading the cache is reading the map. */
  lemma {:induction false} LookupIsMap<K, V>(t: seq<Cell<K, V>>, key: K)
    requires CacheInv(t)
    ensures Lookup(t, key) == if key in ToMap(t) then Some(ToMap(t)[key]) else None
  {
    if key in ToMap(t) {
      LookupAt(t, SlotOf(t, key));
    } else {
      assert key !in Keys(t);
    }
  }

  lemma {:induction false} LookupAt<K, V>(t: seq<Cell<K, V>>, k: nat)
    requires k < |t| && t[k].Bound? && forall i :: 0 <= i < k ==> !(t[i].Bound? && t[i].key == t[k].key)
    ensures Lookup(t, t[k].key) == Some(t[k].value)
    decreases k
  {
    if k > 0 {
      assert t[1..][k - 1] == t[k];
      LookupAt(t[1..], k - 1);
    }
  }

  // ----- runs -----

  function StoreAll<K(==), V>(t: seq<Cell<K, V>>, kvs: seq<(K, V)>): (r: seq<Cell<K, V>>)
    requires |t| > 0
    ensures |r| == |t|
  {
    if |kvs| == 0 then t
    else
      var (k, v) := kvs[|kvs| - 1];
      Store(StoreAll(t, kvs[..|kvs| - 1]), k, k, v)
  }

  /** The last value stored under a key. */
  function Latest<K(==), V>(kvs: seq<(K, V)>, key: K): Option<V> {
    if |kvs| == 0 then None
    else if kvs[|kvs| - 1].0 == key then Some(kvs[|kvs| - 1].1)
    else Latest(kvs[..|kvs| - 1], key)
  }

  ghost function KeysOf<K, V>(kvs: seq<(K, V)>): set<K> {
    set i | 0 <= i < |kvs| :: kvs[i].0
  }

  /**
   * After any stores into an empty cache: it is well formed, whatever is found is the latest value
   * stored under that key, and while no more keys were stored than there are slots, every one is found.
   */
  lemma {:induction false} StoresFound<K, V>(t: seq<Cell<K, V>>, kvs: seq<(K, V)>, key: K)
    requires |t| > 0 && forall i :: 0 <= i < |t| ==> t[i].Empty?
    ensures var r := StoreAll(t, kvs);
      && CacheInv(r) && ToMap(r).Keys <= KeysOf(kvs)
      && (Lookup(r, key).Some? ==> Lookup(r, key) == Latest(kvs, key))
      && (|KeysOf(kvs)| <= |t| ==> Lookup(r, key) == Latest(kvs, key))
    decreases |kvs|
  {
    EmptyInv(t);
    var r := StoreAll(t, kvs);
    if |kvs| == 0 {
      LookupIsMap(t, key);
    } else {
      var n := |kvs| - 1;
      var (k, v) := kvs[n];
      var q := StoreAll(t, kvs[..n]);
      StoresFound(t, kvs[..n], key);
      StoreRefines(q, k, v);
      LookupIsMap(q, key);
      LookupIsMap(r, key);
      assert KeysOf(kvs) == KeysOf(kvs[..n]) + {k};
      if |KeysOf(kvs)| <= |t| {
        Subset(KeysOf(kvs[..n]), KeysOf(kvs));
        if k !in ToMap(q) && Full(q) {
          FullKeys(q);
          assert ToMap(q).Keys == Keys(q);
          Subset(ToMap(q).Keys + {k}, KeysOf(kvs));
        }
      }
    }
  }

  /** The most recent store is always found. */
  lemma LastStoreFound<K, V>(t: seq<Cell<K, V>>, kvs: seq<(K, V)>)
    requires |t| > 0 && |kvs| > 0 && forall i :: 0 <= i < |t| ==> t[i].Empty?
    ensures Lookup(StoreAll(t, kvs), kvs[|kvs| - 1].0) == Some(kvs[|kvs| - 1].1)
  {
    var n := |kvs| - 1;
    var (k, v) := kvs[n];
    StoresFound(t, kvs[..n], k);
    StoreRefines(StoreAll(t, kvs[..n]), k, v);
    LookupIsMap(StoreAll(t, kvs), k);
  }

  lemma Subset<T>(a: set<T>, b: set<T>)
    requires a <= b
    ensures |a| <= |b|
  {
    if a != b {
      assert b == a + (b - a);
    }
  }

  /** A full cache binds as many keys as it has slots. */
  lemma {:induction false} FullKeys<K, V>(t: seq<Cell<K, V>>)
    requires Full(t) && Distinct(t)
    ensures |Keys(t)| == |t|
    decreases |t|
  {
    if |t| == 0 {
      assert Keys(t) == {};
    } else {
      var n := |t| - 1;
      FullKeys(t[..n]);
      assert forall k :: 0 <= k < n ==> t[..n][k] == t[k];
      assert Keys(t) == Keys(t[..n]) + {t[n].key};
      assert t[n].key !in Keys(t[..n]);
    }
  }

  /** A store under a cut-short key is found again exactly when nothing was cut. */
  lemma FoundUncut<K, V>(t: seq<Cell<K, V>>, key: K, stored: K, v: V)
    requires |t| > 0 && (forall i :: 0 <= i < |t| && t[i].Bound? && stored != key ==> t[i].key != key)
    ensures Lookup(Store(t, key, stored, v), key) == Some(v) <==> stored == key
  {
    var k := Slot(t, key);
    if stored == key {
      LookupAt(Store(t, key, key, v), k);
    }
  }

  // ----- the tables -----

  class Cache<K(==), V> {
    const cells: array<Cell<K, V>>

    constructor (size: nat)
      ensures fresh(cells) && cells.Length == size
      ensures CacheInv(cells[..]) && ToMap(cells[..]) == map[]
    {
      cells := new Cell<K, V>[size](_ => Empty);
      new;
      EmptyInv(cells[..]);
    }

    method Put(key: K, stored: K, value: V)
      requires cells.Length > 0
      modifies cells
      ensures cells[..] == Store(old(cells[..]), key, stored, value)
    {
      ghost var was := cells[..];
      for i := 0 to cells.Length
        invariant cells[..] == was
        invariant Match(was, key) >= i
      {
        if cells[i].Empty? || cells[i].key == key {
          cells[i] := Bound(stored, value);
          return;
        }
      }
      cells[0] := Bound(stored, value);
    }

    method Find(key: K) returns (r: Option<V>)
      ensures r == Lookup(cells[..], key)
    {
      for i := 0 to cells.Length
        invariant forall k :: 0 <= k < i ==> !(cells[k].Bound? && cells[k].key == key)
      {
        if cells[i].Bound? && cells[i].key == key {
          LookupAt(cells[..], i);
          return Some(cells[i].value);
        }
      }
      return None;
    }
  }
}
