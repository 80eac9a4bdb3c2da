/** The benchmark runner `testHashFunction` and the per-scenario body of
    `main`, without the clock readings and console output: a fresh table is
    filled from one dataset and drained with a second one. */
module Benchmark {
  import opened CppInt
  import opened HashFunctions
  import opened HashTable
  import opened DataGen

  /** One trial: construct a table of `tableSize` buckets bound to `kind`,
      insert `dataInsert` in order, then remove `dataRemove` in order.
      Returns the table after each of the two loops. */
  method RunTrial(kind: HashKind, tableSize: nat, dataInsert: seq<Int32>, dataRemove: seq<Int32>)
    returns (filled: Table, drained: Table)
    requires tableSize <= INT_MAX
    requires AllAddressable(kind, tableSize, dataInsert)
    requires AllAddressable(kind, tableSize, dataRemove)
    ensures filled == InsertAll(Create(tableSize, kind), dataInsert)
    ensures drained == RemoveKeys(filled, dataRemove)
    ensures filled.kind == drained.kind == kind
    ensures |filled.buckets| == |drained.buckets| == tableSize
    ensures Total(filled.buckets) == |dataInsert|
    ensures dataRemove == dataInsert ==> Drained(drained, kind, tableSize)
  {
    var ht := Create(tableSize, kind);
    ghost var empty := ht;
    var j := 0;
    while j < |dataInsert|
      invariant 0 <= j <= |dataInsert|
      invariant ht.kind == kind && |ht.buckets| == tableSize
      invariant AllAddressable(kind, tableSize, dataInsert[j..])
      invariant InsertAll(ht, dataInsert[j..]) == InsertAll(empty, dataInsert)
    {
      assert dataInsert[j] in dataInsert[j..];
      assert dataInsert[j..][1..] == dataInsert[j + 1..];
      ht := Insert(ht, dataInsert[j]);
      j := j + 1;
    }
    filled := ht;

    j := 0;
    while j < |dataRemove|
      invariant 0 <= j <= |dataRemove|
      invariant ht.kind == kind && |ht.buckets| == tableSize
      invariant AllAddressable(kind, tableSize, dataRemove[j..])
      invariant RemoveKeys(ht, dataRemove[j..]) == RemoveKeys(filled, dataRemove)
    {
      assert dataRemove[j] in dataRemove[j..];
      assert dataRemove[j..][1..] == dataRemove[j + 1..];
      ht := Remove(ht, dataRemove[j]);
      j := j + 1;
    }
    drained := ht;

    if dataRemove == dataInsert {
      FillThenDrainEmpties(tableSize, kind, dataInsert);
    }
  }

  /** `t` is a table of `size` empty buckets bound to `kind`. */
  predicate Drained(t: Table, kind: HashKind, size: nat) {
    t.kind == kind && |t.buckets| == size && forall i :: 0 <= i < size ==> t.buckets[i] == []
  }

  /** `d` is the table a trial ends with when it fills a fresh table of
      `size` buckets bound to `kind` from `data` and then removes the same
      keys, in the same order. */
  predicate FillDrainOutcome(d: Table, kind: HashKind, size: int, data: seq<Int32>) {
    0 <= size <= INT_MAX && AllAddressable(kind, size, data) &&
    d == RemoveKeys(InsertAll(Create(size, kind), data), data)
  }

  /** The three hash functions in the order `main` runs them. */
  const KINDS: seq<HashKind> := [Modulo, DivTenModulo, XorShiftModulo]

  /** One iteration of `main`'s scenario loop: generate the dataset, copy it
      as the removal dataset, and run a trial with each hash function.
      Returns the dataset and the table each trial ends with; every trial
      fills a fresh table from the dataset and drains it with the same keys,
      so every trial ends with an empty table. */
  method RunScenario(n: Int32, scenario: string, tableSize: Int32, draws: seq<Int32>)
    returns (data: seq<Int32>, drained: seq<Table>)
    requires 0 < tableSize
    requires scenario == AVERAGE ==> Iterations(n) <= |draws| && UniformDraws(draws)
    requires scenario == PESSIMISTIC ==> ProductsFit(n, tableSize)
    ensures data == GenerateData(n, scenario, tableSize, draws)
    ensures |drained| == |KINDS|
    ensures forall t :: 0 <= t < |drained| ==> FillDrainOutcome(drained[t], KINDS[t], tableSize, data)
    ensures forall t :: 0 <= t < |drained| ==> Drained(drained[t], KINDS[t], tableSize)
  {
    data := GenerateData(n, scenario, tableSize, draws);
    var removeData := data;
    drained := [];
    for t := 0 to |KINDS|
      invariant |drained| == t
      invariant forall u :: 0 <= u < t ==> FillDrainOutcome(drained[u], KINDS[u], tableSize, data)
      invariant forall u :: 0 <= u < t ==> Drained(drained[u], KINDS[u], tableSize)
    {
      GeneratedKeysAddressable(n, scenario, tableSize, draws, KINDS[t]);
      var filled, empty := RunTrial(KINDS[t], tableSize, data, removeData);
      drained := drained + [empty];
    }
  }

  /** The constants `main` runs with (ten thousand keys, 10007 buckets) meet
      the generator's no-overflow requirement for the pessimistic scenario. */
  lemma MainConfigurationFits()
    ensures ProductsFit(10000, 10007)
    ensures (10000 - 1) * 10007 == 100_059_993
  {
  }
}
