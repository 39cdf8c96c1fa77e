/**
 * The index-in-vector list: nodes live by value in a growable vector and link
 * to each other by position, with `INVALID_INDEX` (usize::MAX) meaning "none".
 */
module IndexImpl {
  import opened Ints
  import opened ListSpec
  import opened Wrappers

  const INVALID_INDEX: usize := U64_LIMIT - 1

  datatype Node = Node(next: usize, prec: usize, value: u64)

  /** The values held by the nodes, in vector order. */
  function Values(data: seq<Node>): (vs: seq<int>)
    ensures |vs| == |data|
    ensures forall i :: 0 <= i < |data| ==> vs[i] == data[i].value
    ensures AllNonNegative(vs)
  {
    seq(|data|, i requires 0 <= i < |data| => data[i].value)
  }

  /**
   * The list invariant: node i is the i-th node added, its successor is i + 1
   * and its predecessor i - 1; the head is slot 0, the tail the last slot, and
   * the ends point to INVALID_INDEX. Every slot index stays below INVALID_INDEX.
   */
  ghost predicate WellLinked(data: seq<Node>, head: usize, tail: usize)
  {
    1 <= |data| <= INVALID_INDEX &&
    head == 0 && tail == |data| - 1 &&
    (forall i :: 0 <= i < |data| - 1 ==> data[i].next == i + 1) &&
    data[|data| - 1].next == INVALID_INDEX &&
    data[0].prec == INVALID_INDEX &&
    (forall i :: 0 < i < |data| ==> data[i].prec == i - 1)
  }

  /** Bounds-checked lookup: the node at `index` if there is one. */
  function GetNode(data: seq<Node>, index: usize): (r: Option<Node>)
    ensures r.Some? <==> index < |data|
    ensures r.Some? ==> r.value == data[index]
  {
    if index < |data| then Some(data[index]) else None
  }

  /** INVALID_INDEX never names a node, so following it ends any traversal. */
  lemma InvalidIndexResolvesToNothing(data: seq<Node>, head: usize, tail: usize)
    requires WellLinked(data, head, tail)
    ensures GetNode(data, INVALID_INDEX) == None
  {
  }

  class DoubleLinkedList {
    var data: seq<Node>
    var head: usize
    var tail: usize

    ghost predicate Valid()
      reads this
    {
      WellLinked(data, head, tail)
    }

    constructor ()
      ensures Valid()
      ensures data == [Node(INVALID_INDEX, INVALID_INDEX, 0)]
      ensures head == 0 && tail == 0
      ensures Values(data) == [0]
    {
      head, tail := 0, 0;
      data := [Node(INVALID_INDEX, INVALID_INDEX, 0)];
    }

    method Add(value: u64)
      requires Valid()
      requires |data| < INVALID_INDEX
      modifies this
      ensures Valid()
      ensures |data| == old(|data|) + 1
      ensures data[|data| - 1] == Node(INVALID_INDEX, old(tail), value)
      ensures data[old(tail)] == old(data[tail]).(next := |data| - 1)
      ensures forall i :: 0 <= i < old(|data|) && i != old(tail) ==> data[i] == old(data[i])
      ensures tail == |data| - 1 && head == old(head)
      ensures Values(data) == old(Values(data)) + [value]
    {
      var newNode := Node(INVALID_INDEX, tail, value);
      data := data + [newNode];
      var lastIndex := |data| - 1;
      data := data[tail := data[tail].(next := lastIndex)];
      tail := lastIndex;
    }

    method SumAll() returns (sum: u64)
      requires Valid()
      requires Sum(Values(data)) < U64_LIMIT
      ensures sum == Sum(Values(data))
    {
      sum := 0;
      var current := head;
      ghost var pos := 0;
      var node := GetNode(data, current);
      while node.Some?
        invariant 0 <= pos <= |data|
        invariant current == if pos < |data| then pos else INVALID_INDEX
        invariant node == GetNode(data, current)
        invariant sum == Sum(Values(data)[..pos])
        decreases |data| - pos
      {
        SumPrefixStep(Values(data), pos);
        SumPrefixBounded(Values(data), pos + 1);
        sum := sum + node.value.value;
        current := node.value.next;
        pos := pos + 1;
        node := GetNode(data, current);
      }
      assert Values(data)[..|data|] == Values(data);
    }
  }
}
