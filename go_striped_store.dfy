/**
 * `Store` of the older Go server: one map guarded by 1024 reader/writer
 * locks, the lock of a key chosen by the FNV-1a hash of the key
 * (`Fnv.Bucket`). The locks are not modelled: each call is one atomic step,
 * so which lock a call takes has no effect on the map.
 */
module StripedStore {
  import opened Strings

  class Store {
    var data: map<Text, Text>

    /** `NewStore`: an empty map. */
    constructor ()
      ensures data == map[]
    {
      data := map[];
    }

    /** `Set`: takes the key's lock and inserts or replaces the value. */
    method Set(key: Text, value: Text)
      modifies this
      ensures data == old(data)[key := value]
    {
      data := data[key := value];
    }

    /** `Get`: the value and `true` when `key` is present, otherwise the empty string and `false`. */
    method Get(key: Text) returns (value: Text, found: bool)
      ensures found <==> key in data
      ensures value == if key in data then data[key] else []
    {
      if key in data {
        value, found := data[key], true;
      } else {
        value, found := [], false;
      }
    }

    /** `Delete`: takes the key's lock and removes the key, if it is there. */
    method Delete(key: Text)
      modifies this
      ensures data == old(data) - {key}
    {
      data := data - {key};
    }
  }

  /** After `Set(k, v)`, `Get(k)` gives `(v, true)` and every other key keeps its mapping. */
  method SetThenGet(s: Store, key: Text, value: Text) returns (v: Text, found: bool)
    modifies s
    ensures v == value && found
    ensures forall k :: k != key ==> (k in s.data <==> k in old(s.data)) && (k in s.data ==> s.data[k] == old(s.data)[k])
  {
    s.Set(key, value);
    v, found := s.Get(key);
  }

  /** Deleting twice is deleting once, and deleting an absent key changes nothing. */
  method DeleteTwice(s: Store, key: Text)
    modifies s
    ensures s.data == old(s.data) - {key}
    ensures key !in old(s.data) ==> s.data == old(s.data)
  {
    s.Delete(key);
    s.Delete(key);
    assert s.data == old(s.data) - {key};
  }
}
