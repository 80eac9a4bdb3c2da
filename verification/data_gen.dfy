/** The benchmark's key generator, `generateData(n, type, tableSize)`: one
    branch per scenario label, each a loop of `n` pushes, and an empty vector
    for any other label. */
module DataGen {
  import opened CppInt
  import opened HashFunctions
  import opened Chains
  import opened HashTable

  /** The scenario labels the generator recognises, spelled as in the
      source. */
  const OPTIMISTIC: string := "optymistyczny"
  const AVERAGE: string := "sredni"
  const PESSIMISTIC: string := "pesymistyczny"

  /** Bounds of the uniform distribution the average scenario draws from. */
  const DRAW_MIN: int := 1
  const DRAW_MAX: int := 1_000_000

  /** The number of iterations of `for (int i = 0; i < n; ++i)`. */
  function Iterations(n: int): nat {
    if n < 0 then 0 else n
  }

  /** The pseudo-random values stand in for the generator's draws: all lie in
      the distribution's range. */
  predicate UniformDraws(draws: seq<Int32>) {
    forall d :: d in draws ==> DRAW_MIN <= d <= DRAW_MAX
  }

  /** `i * tableSize` does not overflow for any `i` the pessimistic loop
      visits; the products are monotone in `i`, so the last one decides. */
  predicate ProductsFit(n: int, size: int) {
    n <= 0 || INT_MIN <= (n - 1) * size <= INT_MAX
  }

  /** A product with a factor between 0 and `m` lies between 0 and the
      product with `m`. */
  lemma ProductBetween(i: int, m: int, size: int)
    requires 0 <= i <= m
    ensures 0 <= size ==> 0 <= i * size <= m * size
    ensures size < 0 ==> m * size <= i * size <= 0
  {
    assert m * size - i * size == (m - i) * size;
    if 0 <= size {
      assert 0 <= (m - i) * size;
      assert 0 <= i * size;
    } else {
      assert (m - i) * size <= 0;
      assert i * size <= 0;
    }
  }

  /** The optimistic loop: `0, 1, ..., n - 1`. */
  function Ascending(n: Int32): (r: seq<Int32>)
    ensures |r| == Iterations(n)
    ensures forall i :: 0 <= i < |r| ==> r[i] == i
  {
    if n <= 0 then [] else Ascending(n - 1) + [n - 1]
  }

  /** The pessimistic loop: `0, size, 2 * size, ..., (n - 1) * size`. */
  function Multiples(n: Int32, size: Int32): (r: seq<Int32>)
    requires ProductsFit(n, size)
    ensures |r| == Iterations(n)
    ensures forall i :: 0 <= i < |r| ==> r[i] == i * size
  {
    if n <= 0 then []
    else
      assert ProductsFit(n - 1, size) by {
        if n >= 2 {
          ProductBetween(n - 2, n - 1, size);
        }
      }
      Multiples(n - 1, size) + [(n - 1) * size]
  }

  /** `generateData`.  The average scenario's Mersenne-Twister draws are the
      parameter `draws`, of which the loop consumes the first `n`. */
  function GenerateData(n: Int32, scenario: string, tableSize: Int32, draws: seq<Int32>): (r: seq<Int32>)
    requires scenario == AVERAGE ==> Iterations(n) <= |draws| && UniformDraws(draws)
    requires scenario == PESSIMISTIC ==> ProductsFit(n, tableSize)
    ensures scenario == OPTIMISTIC ==>
      |r| == Iterations(n) && forall i :: 0 <= i < |r| ==> r[i] == i
    ensures scenario == AVERAGE ==>
      r == draws[..Iterations(n)] && forall k :: k in r ==> DRAW_MIN <= k <= DRAW_MAX
    ensures scenario == PESSIMISTIC ==>
      |r| == Iterations(n) && forall i :: 0 <= i < |r| ==> r[i] == i * tableSize
    ensures scenario != OPTIMISTIC && scenario != AVERAGE && scenario != PESSIMISTIC ==> r == []
  {
    if scenario == OPTIMISTIC then Ascending(n)
    else if scenario == AVERAGE then
      assert forall k :: k in draws[..Iterations(n)] ==> k in draws;
      draws[..Iterations(n)]
    else if scenario == PESSIMISTIC then Multiples(n, tableSize)
    else []
  }

  /** With a positive table size every generated key is non-negative, so
      every key can be inserted and removed under every hash function. */
  lemma GeneratedKeysAddressable(n: Int32, scenario: string, tableSize: Int32, draws: seq<Int32>, kind: HashKind)
    requires scenario == AVERAGE ==> Iterations(n) <= |draws| && UniformDraws(draws)
    requires scenario == PESSIMISTIC ==> ProductsFit(n, tableSize)
    requires 0 < tableSize
    ensures AllAddressable(kind, tableSize, GenerateData(n, scenario, tableSize, draws))
  {
    var data := GenerateData(n, scenario, tableSize, draws);
    forall k | k in data
      ensures 0 <= k
    {
      var i :| 0 <= i < |data| && data[i] == k;
      if scenario == PESSIMISTIC {
        ProductBetween(i, i, tableSize);
      }
    }
  }

  /** Every pessimistic key is a non-negative multiple of the table size and
      so lands in bucket 0 under `hash1`. */
  lemma PessimisticKeysHashToZero(n: Int32, tableSize: Int32, draws: seq<Int32>)
    requires ProductsFit(n, tableSize) && 0 < tableSize
    ensures var data := GenerateData(n, PESSIMISTIC, tableSize, draws);
      AllAddressable(Modulo, tableSize, data) &&
      forall k :: k in data ==> Hash(Modulo, k, tableSize) == 0
  {
    var data := GenerateData(n, PESSIMISTIC, tableSize, draws);
    forall k | k in data
      ensures 0 <= k && Hash(Modulo, k, tableSize) == 0
    {
      var i :| 0 <= i < |data| && data[i] == k;
      ProductBetween(i, n - 1, tableSize);
      MultiplesHashToZero(i, tableSize);
    }
  }

  /** The pessimistic dataset under `hash1`: the whole dataset forms one
      chain in bucket 0, in generation order, and every other bucket stays
      empty. */
  lemma PessimisticSingleChain(n: Int32, tableSize: Int32, draws: seq<Int32>)
    requires ProductsFit(n, tableSize) && 0 < tableSize
    ensures var data := GenerateData(n, PESSIMISTIC, tableSize, draws);
      AllAddressable(Modulo, tableSize, data) &&
      InsertAll(Create(tableSize, Modulo), data).buckets[0] == data &&
      forall i :: 0 < i < tableSize ==> InsertAll(Create(tableSize, Modulo), data).buckets[i] == []
  {
    var data := GenerateData(n, PESSIMISTIC, tableSize, draws);
    PessimisticKeysHashToZero(n, tableSize, draws);
    var t := Create(tableSize, Modulo);
    RoutedAllToOne(Modulo, tableSize, data, 0);
    InsertAllBucket(t, data, 0);
    assert t.buckets[0] + data == data;
    forall i | 0 < i < tableSize
      ensures InsertAll(t, data).buckets[i] == []
    {
      RoutedNone(Modulo, tableSize, data, i);
      InsertAllBucket(t, data, i);
    }
  }

  /** The optimistic keys are non-negative, so every hash function can place
      them in a table with buckets. */
  lemma AscendingAddressable(n: Int32, kind: HashKind, tableSize: int)
    requires 0 < tableSize
    ensures AllAddressable(kind, tableSize, Ascending(n))
  {
    var data := Ascending(n);
    forall k | k in data
      ensures 0 <= k
    {
      var j :| 0 <= j < |data| && data[j] == k;
    }
  }

  /** Under `hash1` the optimistic keys `0 .. n - 1` of a table with at least
      `n` buckets each get a bucket of their own: bucket `i` receives exactly
      `[i]` for `i < n` and nothing beyond. */
  lemma {:induction false} OptimisticSpreads(n: Int32, tableSize: Int32, i: nat)
    requires 0 <= n <= tableSize
    requires i < tableSize
    requires AllAddressable(Modulo, tableSize, Ascending(n))
    ensures Routed(Modulo, tableSize, Ascending(n), i) == if i < n then [i] else []
    decreases n
  {
    if n > 0 {
      var prefix := Ascending(n - 1);
      var last: Int32 := n - 1;
      assert Ascending(n) == prefix + [last];
      AscendingAddressable(n - 1, Modulo, tableSize);
      OptimisticSpreads(n - 1, tableSize, i);
      SmallKeysHashToThemselves(last, tableSize);
      RoutedSingle(Modulo, tableSize, last, i);
      RoutedConcat(Modulo, tableSize, prefix, [last], i);
    } else {
      assert Ascending(n) == [];
    }
  }

  /** The optimistic dataset under `hash1` in a fresh table with enough
      buckets: one key per bucket, in the first `n` buckets. */
  lemma OptimisticOneKeyPerBucket(n: Int32, tableSize: Int32, draws: seq<Int32>)
    requires 0 <= n <= tableSize
    ensures var data := GenerateData(n, OPTIMISTIC, tableSize, draws);
      AllAddressable(Modulo, tableSize, data) &&
      forall i :: 0 <= i < tableSize ==>
        InsertAll(Create(tableSize, Modulo), data).buckets[i] == if i < n then [i] else []
  {
    var data := GenerateData(n, OPTIMISTIC, tableSize, draws);
    if 0 < tableSize {
      AscendingAddressable(n, Modulo, tableSize);
    } else {
      assert data == [];
    }
    var t := Create(tableSize, Modulo);
    forall i | 0 <= i < tableSize
      ensures InsertAll(t, data).buckets[i] == if i < n then [i] else []
    {
      OptimisticSpreads(n, tableSize, i);
      InsertAllBucket(t, data, i);
    }
  }
}
