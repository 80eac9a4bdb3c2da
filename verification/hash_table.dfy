/** The separate-chaining hash table: a bucket array fixed at construction,
    each bucket a chain of keys in insertion order, and the hash function the
    table was built with.  `insert` appends to one chain; `remove` erases every
    copy of the key from that chain. */
module HashTable {
  import opened CppInt
  import opened HashFunctions
  import opened Chains

  datatype Table = Table(kind: HashKind, buckets: seq<seq<Int32>>)

  /** `key` can be inserted into or removed from a table of `size` buckets
      built with `kind`: the hash lands on an existing bucket.  The source
      indexes the bucket array unchecked, so this is what it demands of its
      callers. */
  predicate Addressable(kind: HashKind, size: int, key: Int32) {
    0 < size && 0 <= Hash(kind, key, size) < size
  }

  /** Every key in `keys` is addressable. */
  predicate AllAddressable(kind: HashKind, size: int, keys: seq<Int32>) {
    forall k :: k in keys ==> Addressable(kind, size, k)
  }

  /** The bucket `key` hashes to. */
  function Index(t: Table, key: Int32): (i: nat)
    requires Addressable(t.kind, |t.buckets|, key)
    ensures i < |t.buckets|
  {
    Hash(t.kind, key, |t.buckets|)
  }

  /** The table invariant: every stored key sits in the bucket its hash
      selects. */
  predicate Valid(t: Table) {
    forall i, k :: 0 <= i < |t.buckets| && k in t.buckets[i] ==>
      Addressable(t.kind, |t.buckets|, k) && Hash(t.kind, k, |t.buckets|) == i
  }

  /** Number of keys stored across all buckets. */
  function Total(buckets: seq<seq<Int32>>): nat {
    if buckets == [] then 0 else |buckets[0]| + Total(buckets[1..])
  }

  /** Replacing one bucket changes the total by the difference in lengths. */
  lemma {:induction false} TotalUpdate(buckets: seq<seq<Int32>>, i: nat, b: seq<Int32>)
    requires i < |buckets|
    ensures Total(buckets[i := b]) == Total(buckets) - |buckets[i]| + |b|
  {
    if i > 0 {
      assert buckets[i := b][1..] == buckets[1..][i - 1 := b];
      TotalUpdate(buckets[1..], i - 1, b);
    }
  }

  lemma {:induction false} TotalOfEmpty(buckets: seq<seq<Int32>>)
    requires forall i :: 0 <= i < |buckets| ==> buckets[i] == []
    ensures Total(buckets) == 0
  {
    if buckets != [] {
      TotalOfEmpty(buckets[1..]);
    }
  }

  /** The constructor: `size` buckets, all empty. */
  function Create(size: nat, kind: HashKind): (t: Table)
    requires size <= INT_MAX
    ensures t.kind == kind && |t.buckets| == size
    ensures forall i :: 0 <= i < size ==> t.buckets[i] == []
    ensures Total(t.buckets) == 0
    ensures Valid(t)
  {
    var buckets := seq(size, _ => []);
    TotalOfEmpty(buckets);
    Table(kind, buckets)
  }

  /** `insert`: append `key` to the end of its bucket's chain.  Duplicates
      are kept; every other bucket and the bucket count are untouched. */
  function Insert(t: Table, key: Int32): (r: Table)
    requires Addressable(t.kind, |t.buckets|, key)
    ensures r.kind == t.kind && |r.buckets| == |t.buckets|
    ensures r.buckets[Index(t, key)] == t.buckets[Index(t, key)] + [key]
    ensures forall i :: 0 <= i < |t.buckets| && i != Index(t, key) ==> r.buckets[i] == t.buckets[i]
    ensures Total(r.buckets) == Total(t.buckets) + 1
    ensures Valid(t) ==> Valid(r)
  {
    var h := Index(t, key);
    TotalUpdate(t.buckets, h, t.buckets[h] + [key]);
    t.(buckets := t.buckets[h := t.buckets[h] + [key]])
  }

  /** `remove`: erase every copy of `key` from its bucket's chain, keeping
      the order of the rest.  An absent key leaves the table as it was; in a
      valid table the key is afterwards stored nowhere. */
  function Remove(t: Table, key: Int32): (r: Table)
    requires Addressable(t.kind, |t.buckets|, key)
    ensures r.kind == t.kind && |r.buckets| == |t.buckets|
    ensures r.buckets[Index(t, key)] == RemoveAll(t.buckets[Index(t, key)], key)
    ensures forall i :: 0 <= i < |t.buckets| && i != Index(t, key) ==> r.buckets[i] == t.buckets[i]
    ensures key !in t.buckets[Index(t, key)] ==> r == t
    ensures Total(r.buckets) == Total(t.buckets) - multiset(t.buckets[Index(t, key)])[key]
    ensures Valid(t) ==> Valid(r) && forall i :: 0 <= i < |r.buckets| ==> key !in r.buckets[i]
  {
    var h := Index(t, key);
    TotalUpdate(t.buckets, h, RemoveAll(t.buckets[h], key));
    RemovePreservesValid(t, key);
    t.(buckets := t.buckets[h := RemoveAll(t.buckets[h], key)])
  }

  lemma RemovePreservesValid(t: Table, key: Int32)
    requires Addressable(t.kind, |t.buckets|, key)
    ensures var h := Index(t, key);
      var r := t.(buckets := t.buckets[h := RemoveAll(t.buckets[h], key)]);
      Valid(t) ==> Valid(r) && forall i :: 0 <= i < |r.buckets| ==> key !in r.buckets[i]
  {
    var h := Index(t, key);
    var r := t.(buckets := t.buckets[h := RemoveAll(t.buckets[h], key)]);
    if Valid(t) {
      forall i, k | 0 <= i < |r.buckets| && k in r.buckets[i]
        ensures Addressable(r.kind, |r.buckets|, k) && Hash(r.kind, k, |r.buckets|) == i
      {
        assert k in t.buckets[i];
      }
    }
  }

  /** Inserting a key that its bucket does not hold and then removing it
      restores the table exactly. */
  lemma InsertThenRemove(t: Table, key: Int32)
    requires Addressable(t.kind, |t.buckets|, key)
    requires key !in t.buckets[Index(t, key)]
    ensures Remove(Insert(t, key), key) == t
  {
    var h := Index(t, key);
    var b := t.buckets[h];
    RemoveAllConcat(b, [key], key);
    assert RemoveAll(b + [key], key) == b;
    assert Remove(Insert(t, key), key).buckets == t.buckets;
  }

  /** Insert followed by remove keeps the number of stored keys exactly when
      the key was absent from its bucket; each earlier copy is lost as well,
      because `remove` erases all of them. */
  lemma InsertThenRemoveCount(t: Table, key: Int32)
    requires Addressable(t.kind, |t.buckets|, key)
    ensures Total(Remove(Insert(t, key), key).buckets)
         == Total(t.buckets) - multiset(t.buckets[Index(t, key)])[key]
    ensures Total(Remove(Insert(t, key), key).buckets) == Total(t.buckets)
         <==> key !in t.buckets[Index(t, key)]
  {
    var h := Index(t, key);
    assert multiset(t.buckets[h] + [key])[key] == multiset(t.buckets[h])[key] + 1;
  }

  /** The insertion loop: insert each key in order. */
  function InsertAll(t: Table, keys: seq<Int32>): (r: Table)
    requires AllAddressable(t.kind, |t.buckets|, keys)
    ensures r.kind == t.kind && |r.buckets| == |t.buckets|
    ensures Total(r.buckets) == Total(t.buckets) + |keys|
    ensures Valid(t) ==> Valid(r)
    decreases |keys|
  {
    if keys == [] then t
    else
      assert keys[0] in keys;
      InsertAll(Insert(t, keys[0]), keys[1..])
  }

  /** The removal loop: remove each key in order. */
  function RemoveKeys(t: Table, keys: seq<Int32>): (r: Table)
    requires AllAddressable(t.kind, |t.buckets|, keys)
    ensures r.kind == t.kind && |r.buckets| == |t.buckets|
    ensures Total(r.buckets) <= Total(t.buckets)
    ensures Valid(t) ==> Valid(r)
    decreases |keys|
  {
    if keys == [] then t
    else
      assert keys[0] in keys;
      RemoveKeys(Remove(t, keys[0]), keys[1..])
  }

  /** The keys of `keys` that hash to bucket `i`, in their order. */
  function Routed(kind: HashKind, size: int, keys: seq<Int32>, i: int): (r: seq<Int32>)
    requires AllAddressable(kind, size, keys)
    ensures forall k :: k in r <==> k in keys && Hash(kind, k, size) == i
  {
    if keys == [] then []
    else
      assert keys[0] in keys;
      assert keys == [keys[0]] + keys[1..];
      (if Hash(kind, keys[0], size) == i then [keys[0]] else [])
        + Routed(kind, size, keys[1..], i)
  }

  /** No key is routed to a bucket none of them hashes to. */
  lemma RoutedNone(kind: HashKind, size: int, keys: seq<Int32>, i: int)
    requires AllAddressable(kind, size, keys)
    requires forall k :: k in keys ==> Hash(kind, k, size) != i
    ensures Routed(kind, size, keys, i) == []
  {
  }

  /** A single key is routed to its own bucket only. */
  lemma RoutedSingle(kind: HashKind, size: int, key: Int32, i: int)
    requires Addressable(kind, size, key)
    ensures AllAddressable(kind, size, [key])
    ensures Routed(kind, size, [key], i) == if Hash(kind, key, size) == i then [key] else []
  {
    assert [key][1..] == [];
  }

  /** When every key hashes to bucket `b`, bucket `b` receives all of them,
      in order. */
  lemma {:induction false} RoutedAllToOne(kind: HashKind, size: int, keys: seq<Int32>, b: int)
    requires AllAddressable(kind, size, keys)
    requires forall k :: k in keys ==> Hash(kind, k, size) == b
    ensures Routed(kind, size, keys, b) == keys
  {
    if keys != [] {
      assert keys[0] in keys;
      assert keys == [keys[0]] + keys[1..];
      RoutedAllToOne(kind, size, keys[1..], b);
    }
  }

  /** Routing is computed element by element, so it distributes over
      concatenation. */
  lemma {:induction false} RoutedConcat(kind: HashKind, size: int, a: seq<Int32>, c: seq<Int32>, i: int)
    requires AllAddressable(kind, size, a) && AllAddressable(kind, size, c)
    ensures Routed(kind, size, a + c, i) == Routed(kind, size, a, i) + Routed(kind, size, c, i)
  {
    if a == [] {
      assert a + c == c;
    } else {
      assert (a + c)[0] == a[0];
      assert (a + c)[1..] == a[1..] + c;
      RoutedConcat(kind, size, a[1..], c, i);
    }
  }

  /** The set of keys of `keys` that hash to bucket `i`. */
  function KeysAt(kind: HashKind, size: int, keys: seq<Int32>, i: int): set<Int32>
    requires AllAddressable(kind, size, keys)
  {
    set k | k in keys && Hash(kind, k, size) == i
  }

  /** After the insertion loop, bucket `i` is its old chain followed by the
      keys routed to it, in insertion order. */
  lemma {:induction false} InsertAllBucket(t: Table, keys: seq<Int32>, i: nat)
    requires AllAddressable(t.kind, |t.buckets|, keys)
    requires i < |t.buckets|
    ensures InsertAll(t, keys).buckets[i] == t.buckets[i] + Routed(t.kind, |t.buckets|, keys, i)
    decreases |keys|
  {
    if keys != [] {
      assert keys[0] in keys;
      var t' := Insert(t, keys[0]);
      InsertAllBucket(t', keys[1..], i);
    }
  }

  /** One removal, seen from bucket `i`: the bucket loses the key when the
      key is routed to it, and is untouched otherwise. */
  lemma RemoveBucket(t: Table, key: Int32, i: nat)
    requires Addressable(t.kind, |t.buckets|, key)
    requires i < |t.buckets|
    ensures Remove(t, key).buckets[i]
         == Strip(t.buckets[i], if Index(t, key) == i then {key} else {})
  {
    if Index(t, key) == i {
      RemoveAllIsStrip(t.buckets[i], key);
    } else {
      StripDisjoint(t.buckets[i], {});
    }
  }

  lemma KeysAtCons(kind: HashKind, size: int, keys: seq<Int32>, i: int)
    requires AllAddressable(kind, size, keys)
    requires keys != []
    ensures keys[0] in keys
    ensures KeysAt(kind, size, keys, i)
         == (if Hash(kind, keys[0], size) == i then {keys[0]} else {})
            + KeysAt(kind, size, keys[1..], i)
  {
    assert keys == [keys[0]] + keys[1..];
  }

  /** After the removal loop, bucket `i` is its old chain with every key
      routed to it filtered out. */
  lemma {:induction false} RemoveKeysBucket(t: Table, keys: seq<Int32>, i: nat)
    requires AllAddressable(t.kind, |t.buckets|, keys)
    requires i < |t.buckets|
    ensures RemoveKeys(t, keys).buckets[i] == Strip(t.buckets[i], KeysAt(t.kind, |t.buckets|, keys, i))
    decreases |keys|
  {
    var size := |t.buckets|;
    if keys == [] {
      assert KeysAt(t.kind, size, keys, i) == {};
      StripDisjoint(t.buckets[i], {});
    } else {
      var k := keys[0];
      KeysAtCons(t.kind, size, keys, i);
      var first: set<Int32> := if Index(t, k) == i then {k} else {};
      var t' := Remove(t, k);
      RemoveKeysBucket(t', keys[1..], i);
      RemoveBucket(t, k, i);
      StripStrip(t.buckets[i], first, KeysAt(t.kind, size, keys[1..], i));
    }
  }

  /** In a valid table, the removal loop leaves no key of `keys` anywhere. */
  lemma RemoveKeysClears(t: Table, keys: seq<Int32>)
    requires AllAddressable(t.kind, |t.buckets|, keys)
    requires Valid(t)
    ensures forall i, k :: 0 <= i < |t.buckets| && k in keys ==> k !in RemoveKeys(t, keys).buckets[i]
  {
    var r := RemoveKeys(t, keys);
    forall i, k | 0 <= i < |t.buckets| && k in keys
      ensures k !in r.buckets[i]
    {
      RemoveKeysBucket(t, keys, i);
    }
  }

  /** Inserting `keys` and then removing the same `keys` leaves each bucket
      as it was with every key of `keys` filtered out, duplicates or not. */
  lemma FillThenDrain(t: Table, keys: seq<Int32>, i: nat)
    requires AllAddressable(t.kind, |t.buckets|, keys)
    requires i < |t.buckets|
    ensures RemoveKeys(InsertAll(t, keys), keys).buckets[i]
         == Strip(t.buckets[i], KeysAt(t.kind, |t.buckets|, keys, i))
  {
    var size := |t.buckets|;
    var filled := InsertAll(t, keys);
    var routed := Routed(t.kind, size, keys, i);
    var at := KeysAt(t.kind, size, keys, i);
    InsertAllBucket(t, keys, i);
    RemoveKeysBucket(filled, keys, i);
    StripConcat(t.buckets[i], routed, at);
    StripCovered(routed, at);
  }

  /** The benchmark's round trip: starting from a fresh table, removing the
      inserted keys empties every bucket. */
  lemma FillThenDrainEmpties(size: nat, kind: HashKind, keys: seq<Int32>)
    requires size <= INT_MAX
    requires AllAddressable(kind, size, keys)
    ensures forall i :: 0 <= i < size ==> RemoveKeys(InsertAll(Create(size, kind), keys), keys).buckets[i] == []
    ensures Total(RemoveKeys(InsertAll(Create(size, kind), keys), keys).buckets) == 0
  {
    var t := Create(size, kind);
    var drained := RemoveKeys(InsertAll(t, keys), keys);
    forall i | 0 <= i < size
      ensures drained.buckets[i] == []
    {
      FillThenDrain(t, keys, i);
    }
    TotalOfEmpty(drained.buckets);
  }

  /** When no key of `keys` is already stored, inserting and then removing
      `keys` restores the table exactly. */
  lemma FillThenDrainRestores(t: Table, keys: seq<Int32>)
    requires AllAddressable(t.kind, |t.buckets|, keys)
    requires forall i, k :: 0 <= i < |t.buckets| && k in keys ==> k !in t.buckets[i]
    ensures RemoveKeys(InsertAll(t, keys), keys) == t
  {
    var size := |t.buckets|;
    var drained := RemoveKeys(InsertAll(t, keys), keys);
    forall i | 0 <= i < size
      ensures drained.buckets[i] == t.buckets[i]
    {
      FillThenDrain(t, keys, i);
      StripDisjoint(t.buckets[i], KeysAt(t.kind, size, keys, i));
    }
    assert drained.buckets == t.buckets;
  }
}
