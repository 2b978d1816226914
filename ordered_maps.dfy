/** Python dictionaries keyed by strings, with the insertion order that an
    `OrderedDict` keeps: assigning a new key appends it, assigning an existing
    key replaces its value in place. */
module OrderedMaps {
  import opened Wrappers

  datatype OrderedMap<V> = OrderedMap(keys: seq<string>, entries: map<string, V>) {

    /** Each key listed once, and exactly the keys that have values. */
    ghost predicate Valid() {
      && (forall i, j :: 0 <= i < j < |keys| ==> keys[i] != keys[j])
      && (forall k :: k in entries <==> k in keys)
    }

    /** `d[k] = v`: the value is stored under `k`; a new key goes last, an
        existing key keeps its place. */
    function Set(k: string, v: V): (r: OrderedMap<V>)
      ensures Valid() ==> r.Valid()
      ensures r.entries == entries[k := v]
      ensures r.keys == if k in entries then keys else keys + [k]
      ensures |r.keys| <= |keys| + 1
    {
      OrderedMap(if k in entries then keys else keys + [k], entries[k := v])
    }

    /** `d.get(k)`. */
    function Get(k: string): Option<V> {
      if k in entries then Some(entries[k]) else None
    }
  }

  function Empty<V>(): (r: OrderedMap<V>)
    ensures r.Valid()
  {
    OrderedMap([], map[])
  }

  /** A key in neither the original keys nor the appended ones is absent. */
  lemma AbsentFromAppended<V>(t: OrderedMap<V>, r: OrderedMap<V>, extra: seq<string>, k: string)
    requires t.Valid() && r.Valid() && r.keys == t.keys + extra
    requires k !in t.entries && k !in extra
    ensures k !in r.entries
  {
    forall i | 0 <= i < |r.keys|
      ensures r.keys[i] != k
    {
      if i >= |t.keys| {
        assert r.keys[i] == extra[i - |t.keys|];
      }
    }
  }

  /** Replacing values without adding or removing keys keeps the map valid. */
  lemma SameKeysValid<V>(t: OrderedMap<V>, m: map<string, V>)
    requires t.Valid() && m.Keys == t.entries.Keys
    ensures OrderedMap(t.keys, m).Valid()
  {
    forall k
      ensures k in m <==> k in t.keys
    {
      assert k in m <==> k in t.entries;
    }
  }
}
