/** A table of slots read as a map: each used slot binds its key. */
module SlotTable {
  datatype Cell<K, V> = Empty | Bound(key: K, value: V)

  ghost predicate Distinct<K, V>(t: seq<Cell<K, V>>) {
    forall i, j :: 0 <= i < j < |t| && t[i].Bound? && t[j].Bound? ==> t[i].key != t[j].key
  }

  ghost function Keys<K, V>(t: seq<Cell<K, V>>): set<K> {
    set k | 0 <= k < |t| && t[k].Bound? :: t[k].key
  }

  ghost function SlotOf<K, V>(t: seq<Cell<K, V>>, key: K): (k: nat)
    requires key in Keys(t)
    ensures k < |t| && t[k].Bound? && t[k].key == key
  {
    var k :| 0 <= k < |t| && t[k].Bound? && t[k].key == key;
    k
  }

  ghost function ToMap<K, V>(t: seq<Cell<K, V>>): map<K, V>
    requires Distinct(t)
  {
    map key | key in Keys(t) :: t[SlotOf(t, key)].value
  }

  lemma ToMapAt<K, V>(t: seq<Cell<K, V>>, k: nat)
    requires Distinct(t) && k < |t| && t[k].Bound?
    ensures t[k].key in ToMap(t) && ToMap(t)[t[k].key] == t[k].value
  {
    assert t[k].key in Keys(t);
    assert SlotOf(t, t[k].key) == k;
  }

  /** The map once slot `k` holds `c`: the old binding of the slot goes, the new one comes. */
  ghost function Rebound<K, V>(t: seq<Cell<K, V>>, k: nat, c: Cell<K, V>): map<K, V>
    requires Distinct(t) && k < |t|
  {
    var rest := if t[k].Bound? then ToMap(t) - {t[k].key} else ToMap(t);
    if c.Bound? then rest[c.key := c.value] else rest
  }

  lemma ToMapUpdate<K, V>(t: seq<Cell<K, V>>, k: nat, c: Cell<K, V>)
    requires Distinct(t) && k < |t| && Distinct(t[k := c])
    ensures ToMap(t[k := c]) == Rebound(t, k, c)
  {
    var r := t[k := c];
    forall key | key in ToMap(r)
      ensures key in Rebound(t, k, c) && ToMap(r)[key] == Rebound(t, k, c)[key]
    {
      var j := SlotOf(r, key);
      ToMapAt(r, j);
      if j != k {
        assert r[j] == t[j] && r[k] == c;
        ToMapAt(t, j);
        assert t[k].Bound? ==> t[k].key != key;
        assert c.Bound? ==> c.key != key;
      }
    }
    forall key | key in Rebound(t, k, c)
      ensures key in ToMap(r)
    {
      if c.Bound? && key == c.key {
        ToMapAt(r, k);
      } else {
        ToMapAt(r, SlotOf(t, key));
      }
    }
  }
}
