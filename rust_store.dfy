/**
 * The key-value store of the Rust server: one map from keys to values. The
 * reader/writer lock that guards the map is not modelled; each call is one
 * atomic step.
 */
module RustStore {
  import opened Strings

  class Store {
    var data: map<Text, Text>

    /** `Store::new`: an empty map. */
    constructor ()
      ensures data == map[]
    {
      data := map[];
    }

    /** `get`: the value stored under `key`, if any; the map is only read. */
    method Get(key: Text) returns (r: Option<Text>)
      ensures key in data ==> r == Some(data[key])
      ensures key !in data ==> r == None
    {
      if key in data {
        r := Some(data[key]);
      } else {
        r := None;
      }
    }

    /** `set`: inserts or replaces the value under `key`. */
    method Set(key: Text, value: Text)
      modifies this
      ensures data == old(data)[key := value]
    {
      data := data[key := value];
    }

    /** `delete`: removes `key`, if it is there. */
    method Delete(key: Text)
      modifies this
      ensures data == old(data) - {key}
    {
      data := data - {key};
    }
  }

  /** A value read right after it was set is the value set; every other key keeps its mapping. */
  method SetThenGet(s: Store, key: Text, value: Text) returns (r: Option<Text>)
    modifies s
    ensures r == Some(value)
    ensures forall k :: k != key ==> (k in s.data <==> k in old(s.data)) && (k in s.data ==> s.data[k] == old(s.data)[k])
  {
    s.Set(key, value);
    r := s.Get(key);
  }

  /** After a delete the key reads as absent and other keys are untouched. */
  method DeleteThenGet(s: Store, key: Text) returns (r: Option<Text>)
    modifies s
    ensures r == None
    ensures forall k :: k != key ==> (k in s.data <==> k in old(s.data)) && (k in s.data ==> s.data[k] == old(s.data)[k])
  {
    s.Delete(key);
    r := s.Get(key);
  }

  /** Deleting twice is deleting once. */
  method DeleteTwice(s: Store, key: Text)
    modifies s
    ensures s.data == old(s.data) - {key}
  {
    s.Delete(key);
    s.Delete(key);
    assert s.data == old(s.data) - {key};
  }

  /** Deleting an absent key leaves the map as it was. */
  method DeleteAbsent(s: Store, key: Text)
    requires key !in s.data
    modifies s
    ensures s.data == old(s.data)
  {
    s.Delete(key);
    assert s.data == old(s.data);
  }
}
