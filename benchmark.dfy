/**
 * The correctness check of the benchmark driver: append n, n - 1, ..., 1 to a
 * fresh list, sum it, and compare with the closed form n * (n + 1) / 2.
 * Timing, allocation statistics and the report are not modelled.
 */
module Benchmark {
  import opened Ints
  import opened ListSpec
  import IndexImpl
  import HandleImpl
  import RcImpl
  import NonNullImpl

  /** The element count of the main configuration. */
  const ITERATIONS: int := 10_000_000
  /** The largest n whose closed-form sum still fits in an i32. */
  const I32_ITERATIONS: int := 65_535

  lemma TriangleMonotone(n: nat, m: nat)
    requires n <= m
    ensures n * (n + 1) / 2 <= m * (m + 1) / 2
  {
    assert n * (n + 1) <= n * (m + 1);
    assert n * (m + 1) <= m * (m + 1);
  }

  /** The appended values keep every running sum within [0, bound] when n fits the bound. */
  lemma BenchmarkSumsWithin(n: nat, bound: int)
    requires n * (n + 1) / 2 <= bound
    ensures RunningSumsWithin([0] + Descending(n, n), 0, bound)
  {
    BenchmarkSum(n);
    BenchmarkValuesNonNegative(n, n);
    NonNegativeRunningSums([0] + Descending(n, n), bound);
  }

  lemma DescendingExtend(n: nat, k: nat)
    requires k < n
    ensures [0] + Descending(n, k + 1) == [0] + Descending(n, k) + [n - k]
  {
  }

  /** The fill phase for the index list: a fresh list holding 0, n, ..., 1. */
  method FillIndex(n: nat) returns (obj: IndexImpl.DoubleLinkedList)
    requires n <= ITERATIONS
    ensures fresh(obj) && obj.Valid()
    ensures IndexImpl.Values(obj.data) == [0] + Descending(n, n)
  {
    obj := new IndexImpl.DoubleLinkedList();
    for index := 0 to n
      invariant fresh(obj) && obj.Valid()
      invariant IndexImpl.Values(obj.data) == [0] + Descending(n, index)
    {
      DescendingExtend(n, index);
      obj.Add(n - index);
    }
  }

  method BenchIndex(n: nat) returns (sum: u64)
    requires n <= ITERATIONS
    ensures sum == n * (n + 1) / 2
  {
    var obj := FillIndex(n);
    TriangleMonotone(n, ITERATIONS);
    BenchmarkSum(n);
    sum := obj.SumAll();
  }

  /** The fill phase for the handle list, drawing ids from a fresh counter. */
  method FillHandle(n: nat) returns (obj: HandleImpl.DoubleLinkedList)
    requires n <= ITERATIONS
    ensures fresh(obj) && obj.Valid()
    ensures HandleImpl.Values(obj.data) == [0] + Descending(n, n)
  {
    var ids := new HandleImpl.IdCounter();
    obj := new HandleImpl.DoubleLinkedList(n + 1, ids);
    for index := 0 to n
      invariant fresh(obj) && fresh(ids) && obj.Valid()
      invariant |obj.data| == index + 1
      invariant HandleImpl.Values(obj.data) == [0] + Descending(n, index)
    {
      AddNextHandle(obj, ids, n, index);
    }
  }

  /** One iteration of the handle fill loop: appends n - index. */
  method AddNextHandle(obj: HandleImpl.DoubleLinkedList, ids: HandleImpl.IdCounter, n: nat, index: nat)
    requires n <= ITERATIONS && index < n
    requires obj.Valid() && |obj.data| == index + 1
    requires HandleImpl.Values(obj.data) == [0] + Descending(n, index)
    modifies obj, ids
    ensures obj.Valid() && |obj.data| == index + 2
    ensures HandleImpl.Values(obj.data) == [0] + Descending(n, index + 1)
  {
    DescendingExtend(n, index);
    obj.Add(n - index, ids);
  }

  method BenchHandle(n: nat) returns (sum: u64)
    requires n <= ITERATIONS
    ensures sum == n * (n + 1) / 2
  {
    var obj := FillHandle(n);
    TriangleMonotone(n, ITERATIONS);
    BenchmarkSum(n);
    sum := obj.SumAll();
  }

  /** The fill phase for the shared-counted list. */
  method FillRc(n: nat) returns (obj: RcImpl.DoubleLinkedList)
    requires n <= I32_ITERATIONS
    ensures fresh(obj) && obj.Valid()
    ensures obj.contents == [0] + Descending(n, n)
  {
    obj := new RcImpl.DoubleLinkedList();
    for index := 0 to n
      invariant fresh(obj) && fresh(obj.Repr) && obj.Valid()
      invariant obj.contents == [0] + Descending(n, index)
    {
      DescendingExtend(n, index);
      obj.Add(n - index);
    }
  }

  method BenchRc(n: nat) returns (sum: i32)
    requires n <= I32_ITERATIONS
    ensures sum == n * (n + 1) / 2
  {
    var obj := FillRc(n);
    TriangleMonotone(n, I32_ITERATIONS);
    BenchmarkSumsWithin(n, I32_MAX);
    BenchmarkSum(n);
    sum := obj.SumAll();
  }

  /** The fill phase for the owning-pointer list. */
  method FillNonNull(n: nat) returns (obj: NonNullImpl.DoubleLinkedList)
    requires n <= I32_ITERATIONS
    ensures fresh(obj) && obj.Valid()
    ensures obj.contents == [0] + Descending(n, n)
  {
    obj := new NonNullImpl.DoubleLinkedList();
    for index := 0 to n
      invariant fresh(obj) && fresh(obj.Repr) && obj.Valid()
      invariant obj.contents == [0] + Descending(n, index)
    {
      DescendingExtend(n, index);
      obj.Add(n - index);
    }
  }

  method BenchNonNull(n: nat) returns (sum: i32)
    requires n <= I32_ITERATIONS
    ensures sum == n * (n + 1) / 2
  {
    var obj := FillNonNull(n);
    TriangleMonotone(n, I32_ITERATIONS);
    BenchmarkSumsWithin(n, I32_MAX);
    BenchmarkSum(n);
    sum := obj.SumAll();
  }

  /** Summing is a pure read: a second call sees the same list and returns the same value. */
  method RepeatedSumIndex(obj: IndexImpl.DoubleLinkedList) returns (first: u64, second: u64)
    requires obj.Valid()
    requires Sum(IndexImpl.Values(obj.data)) < U64_LIMIT
    ensures first == second == Sum(IndexImpl.Values(obj.data))
  {
    first := obj.SumAll();
    second := obj.SumAll();
  }
}
