/**
 * `SimpleStore` of the Go server: one map from keys to values behind a
 * reader/writer lock. The lock is not modelled; each call is one atomic step.
 */
module GoSimpleStore {
  import opened Strings

  class SimpleStore {
    var data: map<Text, Text>

    /** `NewSimpleStore`: an empty map. */
    constructor ()
      ensures data == map[]
    {
      data := map[];
    }

    /** `Set`: inserts or replaces the value under `key`. */
    method Set(key: Text, value: Text)
      modifies this
      ensures data == old(data)[key := value]
    {
      data := data[key := value];
    }

    /** `Get`: the value and `true` when `key` is present, otherwise the empty string and `false`. */
    method Get(key: Text) returns (value: Text, found: bool)
      ensures found <==> key in data
      ensures value == if key in data then data[key] else []
    {
      if key in data {
        value, found := data[key], true;
      } else {
        value, found := [], false;
      }
    }

    /** `Delete`: removes `key`, if it is there. */
    method Delete(key: Text)
      modifies this
      ensures data == old(data) - {key}
    {
      data := data - {key};
    }
  }

  /** After `Set(k, v)`, `Get(k)` gives `(v, true)` and every other key keeps its mapping. */
  method SetThenGet(s: SimpleStore, key: Text, value: Text) returns (v: Text, found: bool)
    modifies s
    ensures v == value && found
    ensures forall k :: k != key ==> (k in s.data <==> k in old(s.data)) && (k in s.data ==> s.data[k] == old(s.data)[k])
  {
    s.Set(key, value);
    v, found := s.Get(key);
  }

  /** After `Delete(k)`, `Get(k)` gives `("", false)` and every other key keeps its mapping. */
  method DeleteThenGet(s: SimpleStore, key: Text) returns (v: Text, found: bool)
    modifies s
    ensures v == [] && !found
    ensures forall k :: k != key ==> (k in s.data <==> k in old(s.data)) && (k in s.data ==> s.data[k] == old(s.data)[k])
  {
    s.Delete(key);
    v, found := s.Get(key);
  }

  /** Deleting an absent key leaves the map as it was. */
  method DeleteAbsent(s: SimpleStore, key: Text)
    requires key !in s.data
    modifies s
    ensures s.data == old(s.data)
  {
    s.Delete(key);
    assert s.data == old(s.data);
  }
}
