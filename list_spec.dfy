/**
 * Machine integer widths used by the list variants and the allocator, and the
 * abstract contract every list variant shares: a list holds a sequence of
 * values, its sentinel first, and `sum_all` returns their sum.
 */
module Ints {
  const U32_LIMIT: int := 0x1_0000_0000
  const U64_LIMIT: int := 0x1_0000_0000_0000_0000
  const I32_MIN: int := -0x8000_0000
  const I32_MAX: int := 0x7FFF_FFFF

  type u32 = x: int | 0 <= x < U32_LIMIT
  /** `u64` and `usize` (the target is 64-bit) */
  type u64 = x: int | 0 <= x < U64_LIMIT
  type usize = u64
  type i32 = x: int | I32_MIN <= x <= I32_MAX
}

module Wrappers {
  datatype Option<T> = None | Some(value: T)
}

module ListSpec {
  import opened Ints

  /** The sum of a sequence of values, accumulated front to back. */
  function Sum(s: seq<int>): int
  {
    if s == [] then 0 else Sum(s[..|s| - 1]) + s[|s| - 1]
  }

  /** Extending a prefix by one element adds that element to the running sum. */
  lemma SumPrefixStep(s: seq<int>, k: nat)
    requires k < |s|
    ensures Sum(s[..k + 1]) == Sum(s[..k]) + s[k]
  {
    assert s[..k + 1][..k] == s[..k];
  }

  lemma {:induction false} SumAppend(s: seq<int>, t: seq<int>)
    ensures Sum(s + t) == Sum(s) + Sum(t)
    decreases |t|
  {
    if t == [] {
      assert s + t == s;
    } else {
      var t' := t[..|t| - 1];
      assert (s + t)[..|s + t| - 1] == s + t';
      SumAppend(s, t');
    }
  }

  predicate AllNonNegative(s: seq<int>)
  {
    forall i :: 0 <= i < |s| ==> 0 <= s[i]
  }

  /** With no negative values, every running sum lies between 0 and the total. */
  lemma {:induction false} SumPrefixBounded(s: seq<int>, k: nat)
    requires AllNonNegative(s)
    requires k <= |s|
    ensures 0 <= Sum(s[..k]) <= Sum(s)
    decreases |s|
  {
    assert s[..|s|] == s;
    if s != [] {
      var s' := s[..|s| - 1];
      if k == |s| {
        SumPrefixBounded(s', |s'|);
        assert s'[..|s'|] == s';
      } else {
        assert s'[..k] == s[..k];
        SumPrefixBounded(s', k);
      }
    }
  }

  /**
   * No running sum leaves [lo, hi]: the condition under which accumulating the
   * values one by one in a fixed-width integer never overflows.
   */
  ghost predicate RunningSumsWithin(s: seq<int>, lo: int, hi: int)
  {
    forall k :: 0 <= k <= |s| ==> lo <= Sum(s[..k]) <= hi
  }

  lemma NonNegativeRunningSums(s: seq<int>, hi: int)
    requires AllNonNegative(s)
    requires Sum(s) <= hi
    ensures RunningSumsWithin(s, 0, hi)
  {
    forall k | 0 <= k <= |s|
      ensures 0 <= Sum(s[..k]) <= hi
    {
      SumPrefixBounded(s, k);
    }
  }

  /** The first k values the benchmark appends: n, n - 1, ..., n - k + 1. */
  function Descending(n: nat, k: nat): (s: seq<int>)
    requires k <= n
    ensures |s| == k
    ensures forall i :: 0 <= i < k ==> s[i] == n - i
  {
    seq(k, i requires 0 <= i < k => n - i)
  }

  /** n + (n - 1) + ... + 1 is the closed form n * (n + 1) / 2. */
  lemma {:induction false} DescendingSum(n: nat)
    ensures Sum(Descending(n, n)) == n * (n + 1) / 2
  {
    if n > 0 {
      assert Descending(n, n) == [n] + Descending(n - 1, n - 1);
      SumAppend([n], Descending(n - 1, n - 1));
      assert Sum([n]) == Sum([n][..0]) + n;
      DescendingSum(n - 1);
    }
  }

  /**
   * The list the benchmark builds holds the sentinel 0 followed by n, ..., 1,
   * so its sum is n * (n + 1) / 2.
   */
  lemma BenchmarkSum(n: nat)
    ensures Sum([0] + Descending(n, n)) == n * (n + 1) / 2
  {
    SumAppend([0], Descending(n, n));
    assert Sum([0]) == Sum([0][..0]) + 0;
    DescendingSum(n);
  }

  lemma BenchmarkValuesNonNegative(n: nat, k: nat)
    requires k <= n
    ensures AllNonNegative([0] + Descending(n, k))
  {
  }
}
