/**
 * The 32-bit FNV-1a hash (Go's `hash/fnv.New32a`) and the index of the
 * shard or lock a key is assigned to: the hash of the key's bytes modulo 1024.
 */
module Fnv {
  import opened Strings

  const OffsetBasis: bv32 := 2166136261
  const Prime: bv32 := 16777619

  /** One FNV-1a round: exclusive-or the byte in, then multiply by the prime, modulo 2^32. */
  function Round(h: bv32, b: byte): bv32 {
    (h ^ b as bv32) * Prime
  }

  /** `f` applied to `h` and each byte of `data` in turn. */
  function Fold(f: (bv32, byte) -> bv32, h: bv32, data: seq<byte>): bv32
    decreases |data|
  {
    if data == [] then h else Fold(f, f(h, data[0]), data[1..])
  }

  /** `fnv.New32a()`, `Write(data)`, `Sum32()`: the rounds over the bytes, from the offset basis. */
  function Hash(data: seq<byte>): bv32 {
    Fold(Round, OffsetBasis, data)
  }

  /** Folding in two parts gives the fold of both parts at once. */
  lemma {:induction false} FoldConcat(f: (bv32, byte) -> bv32, h: bv32, a: seq<byte>, b: seq<byte>)
    ensures Fold(f, h, a + b) == Fold(f, Fold(f, h, a), b)
    decreases |a|
  {
    if a != [] {
      assert (a + b)[0] == a[0];
      assert (a + b)[1..] == a[1..] + b;
      FoldConcat(f, f(h, a[0]), a[1..], b);
    } else {
      assert a + b == b;
    }
  }

  /** Hashing bytes written in two parts is one more round per byte of the second part. */
  lemma HashConcat(a: seq<byte>, b: seq<byte>)
    ensures Hash(a + b) == Fold(Round, Hash(a), b)
  {
    FoldConcat(Round, OffsetBasis, a, b);
  }

  /** Appending one byte is one more round. */
  lemma HashSnoc(data: seq<byte>, b: byte)
    ensures Hash(data + [b]) == Round(Hash(data), b)
  {
    FoldConcat(Round, OffsetBasis, data, [b]);
    assert [b][1..] == [];
  }

  /** Published test vectors of 32-bit FNV-1a. */
  lemma TestVectors()
    ensures Hash([]) == 0x811c9dc5
    ensures Hash([97]) == 0xe40c292c
  {
    assert [97][1..] == [];
    assert Round(OffsetBasis, 97) == 0xe40c292c;
  }

  /** The test vector for `foobar`, one round at a time. */
  lemma FoobarVector()
    ensures Hash([102, 111, 111, 98, 97, 114]) == 0xbf9cf968
  {
    var s: seq<byte> := [102, 111, 111, 98, 97, 114];
    assert Round(OffsetBasis, 102) == 0xe30c2799;
    assert Hash(s) == Fold(Round, 0xe30c2799, [111, 111, 98, 97, 114]);
    assert Round(0xe30c2799, 111) == 0x6222e842;
    assert Hash(s) == Fold(Round, 0x6222e842, [111, 98, 97, 114]);
    assert Round(0x6222e842, 111) == 0xa9f37ed7;
    assert Hash(s) == Fold(Round, 0xa9f37ed7, [98, 97, 114]);
    assert Round(0xa9f37ed7, 98) == 0x3f5076ef;
    assert Hash(s) == Fold(Round, 0x3f5076ef, [97, 114]);
    assert Round(0x3f5076ef, 97) == 0x39aaa18a;
    assert Hash(s) == Fold(Round, 0x39aaa18a, [114]);
    assert Round(0x39aaa18a, 114) == 0xbf9cf968;
    assert [114][1..] == [];
  }

  const BucketCount: nat := 1024

  /** `shardIndex` and `lockIndex`: the bucket of a key, `Sum32() % 1024`. */
  function Bucket(key: Text): (r: nat)
    ensures r < BucketCount
  {
    (Hash(ToBytes(key)) % 1024) as nat
  }
}
