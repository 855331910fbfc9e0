/**
 * `ShardedStore` of the Go server: 1024 maps, a key living in the map its
 * FNV-1a bucket picks, and an optional write-ahead log that every `Set` and
 * `Delete` writes to before changing a map.
 *
 * The per-shard locks, the per-value write lock and the atomic value cell
 * are not modelled: each shard holds the value itself, and each call is one
 * atomic step. `contents` is the map the store stands for.
 */
module ShardedStore {
  import opened Strings
  import opened Fnv
  import opened Wal

  class ShardedStore {
    /** `shardIndex`: the placement of keys, fixed to `Bucket` when the store is made. */
    const place: Text -> nat
    var shards: array<map<Text, Text>>
    var wal: WriteAheadLog?
    ghost var contents: map<Text, Text>

    /** There are 1024 shards, every key lives only in the shard of its bucket, and the shards together hold `contents`. */
    ghost predicate Valid()
      reads this, shards
    {
      Distributed(place, shards[..], contents)
    }

    /** `NewShardedStore`: 1024 empty shards and no log. */
    constructor ()
      ensures Valid() && fresh(shards)
      ensures forall i :: 0 <= i < shards.Length ==> shards[i] == map[]
      ensures contents == map[] && wal == null
      ensures place == Bucket
    {
      var a := new map<Text, Text>[BucketCount];
      var i := 0;
      while i < a.Length
        invariant 0 <= i <= a.Length
        invariant forall j :: 0 <= j < i ==> a[j] == map[]
      {
        a[i] := map[];
        i := i + 1;
      }
      place := Bucket;
      shards := a;
      wal := null;
      contents := map[];
    }

    /** `SetWAL`: attaches a log; the maps are unchanged. */
    method SetWAL(log: WriteAheadLog)
      requires Valid()
      modifies this
      ensures Valid() && wal == log
      ensures shards == old(shards) && contents == old(contents)
    {
      wal := log;
    }

    /** `Set`: logs `("SET", key, value)` when a log is attached, then stores the value in the key's shard. */
    method Set(key: Text, value: Text, now: int)
      requires Valid()
      modifies this, shards, wal
      ensures Valid() && shards == old(shards) && wal == old(wal)
      ensures contents == old(contents)[key := value]
      ensures shards[place(key)] == old(shards[place(key)])[key := value]
      ensures forall i :: 0 <= i < shards.Length && i != place(key) ==> shards[i] == old(shards[i])
      ensures wal != null ==> wal.lines == old(wal.lines) + [Entry(LogEntry(now, SetOp, key, value))]
    {
      var index := place(key);
      ghost var before := shards[..];
      if wal != null {
        wal.Log(SetOp, key, value, now);
      }
      shards[index] := shards[index][key := value];
      assert shards[..] == before[index := before[index][key := value]];
      DistributedSet(place, before, contents, key, value);
      contents := contents[key := value];
    }

    /** `Get`: the value and `true` when the key's shard holds it, otherwise the empty string and `false`. */
    method Get(key: Text) returns (value: Text, found: bool)
      requires Valid()
      ensures found <==> key in contents
      ensures value == if key in contents then contents[key] else []
    {
      var index := place(key);
      if key in shards[index] {
        value, found := shards[index][key], true;
      } else {
        value, found := [], false;
      }
    }

    /** `Delete`: logs `("DELETE", key, "")` when a log is attached, then removes the key from its shard. */
    method Delete(key: Text, now: int)
      requires Valid()
      modifies this, shards, wal
      ensures Valid() && shards == old(shards) && wal == old(wal)
      ensures contents == old(contents) - {key}
      ensures shards[place(key)] == old(shards[place(key)]) - {key}
      ensures forall i :: 0 <= i < shards.Length && i != place(key) ==> shards[i] == old(shards[i])
      ensures wal != null ==> wal.lines == old(wal.lines) + [Entry(LogEntry(now, DeleteOp, key, []))]
    {
      var index := place(key);
      ghost var before := shards[..];
      if wal != null {
        wal.Log(DeleteOp, key, [], now);
      }
      shards[index] := shards[index] - {key};
      assert shards[..] == before[index := before[index] - {key}];
      DistributedDelete(place, before, contents, key);
      contents := contents - {key};
    }

    /** `GetAll`: every shard's mappings gathered into one map, which is exactly `contents`. */
    method GetAll() returns (result: map<Text, Text>)
      requires Valid()
      ensures result == contents
    {
      ghost var all := shards[..];
      result := map[];
      var i := 0;
      while i < shards.Length
        invariant 0 <= i <= shards.Length
        invariant result == Merged(all, i)
      {
        assert shards[i] == all[i];
        result := Gather(result, shards[i]);
        i := i + 1;
      }
      MergedAll(place, all, contents);
    }

    /** The log, replayed from an empty map, rebuilds `contents`. */
    ghost predicate Recovers(cutoff: int)
      reads this, wal
    {
      wal != null && Replay(wal.lines, cutoff, map[]) == Replayed(contents, true)
    }
  }

  /**
   * Every key lives only in the shard `place` assigns it, and the 1024 shards
   * together hold `contents`. (The store places keys by `Bucket`; the facts
   * below hold for any placement.)
   */
  ghost predicate Distributed(place: Text -> nat, shards: seq<map<Text, Text>>, contents: map<Text, Text>) {
    && |shards| == BucketCount
    && (forall k :: place(k) < |shards|)
    && (forall i, k :: 0 <= i < |shards| && k in shards[i] ==> place(k) == i)
    && (forall k :: k in contents <==> k in shards[place(k)])
    && (forall k :: k in contents ==> contents[k] == shards[place(k)][k])
  }

  /** Storing a value in the key's shard keeps the keys distributed. */
  lemma DistributedSet(place: Text -> nat, shards: seq<map<Text, Text>>, contents: map<Text, Text>, key: Text, value: Text)
    requires Distributed(place, shards, contents)
    ensures Distributed(place, shards[place(key) := shards[place(key)][key := value]], contents[key := value])
  {
  }

  /** Removing a key from its shard keeps the keys distributed. */
  lemma DistributedDelete(place: Text -> nat, shards: seq<map<Text, Text>>, contents: map<Text, Text>, key: Text)
    requires Distributed(place, shards, contents)
    ensures Distributed(place, shards[place(key) := shards[place(key)] - {key}], contents - {key})
  {
  }

  /** The first `n` shards merged. */
  function Merged(shards: seq<map<Text, Text>>, n: nat): map<Text, Text>
    requires n <= |shards|
  {
    if n == 0 then map[] else Merged(shards, n - 1) + shards[n - 1]
  }

  /** The first `n` shards hold exactly the keys whose bucket is below `n`, with their values. */
  lemma {:induction false} MergedSpec(place: Text -> nat, shards: seq<map<Text, Text>>, contents: map<Text, Text>, n: nat)
    requires Distributed(place, shards, contents) && n <= |shards|
    ensures forall k :: k in Merged(shards, n) <==> k in contents && place(k) < n
    ensures forall k :: k in Merged(shards, n) ==> Merged(shards, n)[k] == contents[k]
  {
    if n > 0 {
      MergedSpec(place, shards, contents, n - 1);
    }
  }

  /** All the shards merged are exactly the contents. */
  lemma MergedAll(place: Text -> nat, shards: seq<map<Text, Text>>, contents: map<Text, Text>)
    requires Distributed(place, shards, contents)
    ensures Merged(shards, |shards|) == contents
  {
    MergedSpec(place, shards, contents, |shards|);
  }

  /** The inner loop of `GetAll`: each mapping of one shard copied into `acc`, in whatever order the map yields them. */
  method Gather(acc: map<Text, Text>, shard: map<Text, Text>) returns (result: map<Text, Text>)
    ensures result == acc + shard
  {
    result := acc;
    var pending := shard.Keys;
    while pending != {}
      invariant pending <= shard.Keys
      invariant result == acc + (shard - pending)
      decreases pending
    {
      var k :| k in pending;
      GatherStep(acc, shard, pending, k);
      result := result[k := shard[k]];
      pending := pending - {k};
    }
    assert shard - {} == shard;
  }

  /** Adding one more key of a shard to the gathered map. */
  lemma GatherStep(done: map<Text, Text>, shard: map<Text, Text>, pending: set<Text>, k: Text)
    requires k in pending && pending <= shard.Keys
    ensures (done + (shard - pending))[k := shard[k]] == done + (shard - (pending - {k}))
  {
  }

  /** After `Set(k, v)`, `Get(k)` gives `(v, true)`. */
  method SetThenGet(s: ShardedStore, key: Text, value: Text, now: int) returns (v: Text, found: bool)
    requires s.Valid()
    modifies s, s.shards, s.wal
    ensures s.Valid()
    ensures v == value && found
  {
    s.Set(key, value, now);
    v, found := s.Get(key);
  }

  /** After `Delete(k)`, `Get(k)` gives `("", false)` and every other key keeps its mapping. */
  method DeleteThenGet(s: ShardedStore, key: Text, now: int) returns (v: Text, found: bool)
    requires s.Valid()
    modifies s, s.shards, s.wal
    ensures s.Valid()
    ensures v == [] && !found
    ensures forall k :: k != key ==> (k in s.contents <==> k in old(s.contents)) && (k in s.contents ==> s.contents[k] == old(s.contents)[k])
  {
    s.Delete(key, now);
    v, found := s.Get(key);
  }

  /**
   * A store whose log rebuilds it still does after a `Set` or a `Delete`
   * stamped after the cutoff: the log is written before the maps change.
   */
  method LoggedWrite(s: ShardedStore, delete: bool, key: Text, value: Text, now: int, ghost cutoff: int)
    requires s.Valid() && s.Recovers(cutoff) && now > cutoff
    modifies s, s.shards, s.wal
    ensures s.Valid() && s.Recovers(cutoff)
  {
    ghost var before := s.wal.lines;
    if delete {
      s.Delete(key, now);
      ReplayLogged(before, LogEntry(now, DeleteOp, key, []), cutoff, map[], old(s.contents));
    } else {
      s.Set(key, value, now);
      ReplayLogged(before, LogEntry(now, SetOp, key, value), cutoff, map[], old(s.contents));
    }
  }
}
