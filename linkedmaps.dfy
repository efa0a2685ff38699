/**
 * java.util.LinkedHashMap with String keys: a table together with the order
 * in which its keys were first inserted.
 */
module LinkedMaps {

  datatype LinkedMap<V> = LinkedMap(keys: seq<string>, table: map<string, V>) {

    /** Every key is listed exactly once, and only keys of the table are listed. */
    ghost predicate Valid() {
      && (forall i, j :: 0 <= i < j < |keys| ==> keys[i] != keys[j])
      && (forall k :: k in table <==> k in keys)
    }

    /** The entries in iteration order, as `forEach` visits them. */
    function Entries(): (es: seq<(string, V)>)
      requires Valid()
      ensures |es| == |keys|
      ensures forall i :: 0 <= i < |keys| ==> es[i] == (keys[i], table[keys[i]])
    {
      seq(|keys|, i requires 0 <= i < |keys| => (keys[i], table[keys[i]]))
    }

    /**
     * LinkedHashMap.put: a key already present keeps its position and takes
     * the new value; a new key goes to the end; every other entry is kept.
     */
    function Put(k: string, v: V): (r: LinkedMap<V>)
      ensures Valid() ==> r.Valid()
      ensures k in r.table && r.table[k] == v
      ensures forall k' :: k' != k ==> (k' in r.table <==> k' in table)
      ensures forall k' :: k' != k && k' in table ==> r.table[k'] == table[k']
      ensures k in table ==> r.keys == keys
      ensures k !in table ==> r.keys == keys + [k]
    {
      if k in table then LinkedMap(keys, table[k := v])
      else LinkedMap(keys + [k], table[k := v])
    }
  }

  /** Seen as a list of entries, put replaces one entry in place or appends one. */
  lemma PutEntries<V>(m: LinkedMap<V>, k: string, v: V)
    requires m.Valid()
    ensures var r := m.Put(k, v);
      && r.Valid()
      && (k !in m.table ==> r.Entries() == m.Entries() + [(k, v)])
      && (forall i :: 0 <= i < |m.keys| && m.keys[i] == k ==> r.Entries() == m.Entries()[i := (k, v)])
  {
    var r := m.Put(k, v);
    if k !in m.table {
      assert r.Entries() == m.Entries() + [(k, v)];
    }
    forall i | 0 <= i < |m.keys| && m.keys[i] == k
      ensures r.Entries() == m.Entries()[i := (k, v)]
    {
      forall j | 0 <= j < |m.keys| && j != i ensures m.keys[j] != k {
        if j < i { assert m.keys[j] != m.keys[i]; } else { assert m.keys[i] != m.keys[j]; }
      }
    }
  }
}
