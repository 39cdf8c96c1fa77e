/**
 * The generation-checked handle list: nodes live by value in a growable
 * vector, and every link is a handle (slot index, unique id). A handle
 * resolves to a node only when the slot exists and carries the same id.
 */
module HandleImpl {
  import opened Ints
  import opened ListSpec
  import opened Wrappers

  datatype Handle = Handle(index: u32, uniqueId: u32)

  /** The id stamped into INVALID; no issued id ever equals it. */
  const INVALID_ID: u32 := 0xFFFF_FFFF
  const INVALID: Handle := Handle(0xFFFF_FFFF, INVALID_ID)

  /** Issued ids are reduced modulo this, so they stay below INVALID_ID - 1. */
  const ID_MODULUS: int := 0xFFFF_FFFE

  /**
   * The id a handle receives when the global counter reads `count`: the
   * counter is truncated to 32 bits, then reduced modulo 0xFFFF_FFFE.
   */
  function UniqueIdFor(count: usize): u32
  {
    (count % U32_LIMIT) % ID_MODULUS
  }

  /**
   * An issued id stays below the modulus, so it never equals INVALID_ID, and
   * until the counter reaches the modulus the id is the counter itself.
   */
  lemma UniqueIdRange(count: usize)
    ensures UniqueIdFor(count) < ID_MODULUS
    ensures UniqueIdFor(count) != INVALID_ID
    ensures count < ID_MODULUS ==> UniqueIdFor(count) == count
  {
  }

  /**
   * Ids are unique across a window of 0xFFFF_FFFE consecutive handles that
   * the 32-bit truncation has not yet reached; past it they repeat.
   */
  lemma UniqueIdsInWindow(c1: usize, c2: usize)
    requires c1 < c2 < U32_LIMIT
    requires c2 - c1 < ID_MODULUS
    ensures UniqueIdFor(c1) != UniqueIdFor(c2)
  {
  }

  /** The counter after one wrapping increment. */
  function NextCount(count: usize): usize
  {
    if count == U64_LIMIT - 1 then 0 else count + 1
  }

  /** The process-wide unique-id counter, a plain sequential counter here. */
  class IdCounter {
    var count: usize

    constructor ()
      ensures count == 0
    {
      count := 0;
    }

    /** `Handle::new`: stamps the current counter into a handle and bumps it (wrapping). */
    method NewHandle(index: u32) returns (h: Handle)
      modifies this
      ensures h == Handle(index, UniqueIdFor(old(count)))
      ensures h.uniqueId != INVALID_ID
      ensures count == NextCount(old(count))
    {
      UniqueIdRange(count);
      var id := count;
      count := NextCount(count);
      h := Handle(index, UniqueIdFor(id));
    }
  }

  datatype Node = Node(next: Handle, prec: Handle, value: u64, uniqueId: u32)

  function Values(data: seq<Node>): (vs: seq<int>)
    ensures |vs| == |data|
    ensures forall i :: 0 <= i < |data| ==> vs[i] == data[i].value
    ensures AllNonNegative(vs)
  {
    seq(|data|, i requires 0 <= i < |data| => data[i].value)
  }

  /** The handle that names slot i: its index and the id stamped into that node. */
  function HandleAt(data: seq<Node>, i: nat): (h: Handle)
    requires i < |data| <= U32_LIMIT
    ensures h.index == i && h.uniqueId == data[i].uniqueId
  {
    Handle(i, data[i].uniqueId)
  }

  /**
   * The list invariant: node i links forward to the handle of node i + 1 and
   * back to the handle of node i - 1, the ends link to INVALID, head and tail
   * are the handles of the first and last slot, every slot index fits in 32
   * bits, and no node carries INVALID's id.
   */
  ghost predicate WellLinked(data: seq<Node>, head: Handle, tail: Handle)
  {
    1 <= |data| <= U32_LIMIT &&
    (forall i :: 0 <= i < |data| ==> data[i].uniqueId != INVALID_ID) &&
    head == HandleAt(data, 0) && tail == HandleAt(data, |data| - 1) &&
    (forall i {:trigger data[i].next} :: 0 <= i < |data| - 1 ==> data[i].next == HandleAt(data, i + 1)) &&
    data[|data| - 1].next == INVALID &&
    data[0].prec == INVALID &&
    (forall i {:trigger data[i].prec} :: 0 < i < |data| ==> data[i].prec == HandleAt(data, i - 1))
  }

  /**
   * The checked dereference: a node only when the index is in range and the
   * slot carries the handle's id; a stale or out-of-range handle yields None,
   * never some other slot's node.
   */
  function GetNode(data: seq<Node>, handle: Handle): (r: Option<Node>)
    ensures r.Some? <==> handle.index < |data| && data[handle.index].uniqueId == handle.uniqueId
    ensures r.Some? ==> r.value == data[handle.index]
  {
    var index := handle.index;
    if index < |data| then
      var obj := data[index];
      if obj.uniqueId == handle.uniqueId then Some(data[index]) else None
    else
      None
  }

  /**
   * In a well-linked list INVALID resolves to nothing even when slot
   * 0xFFFF_FFFF exists, because no node carries INVALID's id; the head
   * resolves to the first node, and each node's `next` resolves to the node
   * after it, or to nothing at the tail.
   */
  lemma ResolveInWellLinked(data: seq<Node>, head: Handle, tail: Handle)
    requires WellLinked(data, head, tail)
    ensures GetNode(data, INVALID) == None
    ensures GetNode(data, head) == Some(data[0])
    ensures forall i {:trigger data[i].next} :: 0 <= i < |data| ==>
      GetNode(data, data[i].next) == if i + 1 < |data| then Some(data[i + 1]) else None
  {
    forall i | 0 <= i < |data|
      ensures GetNode(data, data[i].next) == if i + 1 < |data| then Some(data[i + 1]) else None
    {
      if i + 1 < |data| {
        assert data[i].next == HandleAt(data, i + 1);
      }
    }
  }

  /**
   * Appending a node that links back to the old tail, with the old tail's
   * `next` now naming it, keeps the list well linked with the new handle as tail.
   */
  lemma AppendKeepsWellLinked(data: seq<Node>, head: Handle, tail: Handle, h: Handle, value: u64, d: seq<Node>)
    requires WellLinked(data, head, tail)
    requires h.index == |data| && h.uniqueId != INVALID_ID
    requires |d| == |data| + 1
    requires forall i :: 0 <= i < |data| - 1 ==> d[i] == data[i]
    requires d[|data| - 1] == data[|data| - 1].(next := h)
    requires d[|data|] == Node(INVALID, tail, value, h.uniqueId)
    ensures WellLinked(d, head, h)
  {
    forall i | 0 <= i < |d| - 1
      ensures d[i].next == HandleAt(d, i + 1)
    {
      if i < |data| - 1 {
        assert data[i].next == HandleAt(data, i + 1);
        assert d[i + 1].uniqueId == data[i + 1].uniqueId;
      }
    }
    forall i | 0 < i < |d|
      ensures d[i].prec == HandleAt(d, i - 1)
    {
      if i < |data| {
        assert data[i].prec == HandleAt(data, i - 1);
      }
    }
  }

  /** Appending a node and relinking existing ones appends its value and keeps the others. */
  lemma AppendValues(data: seq<Node>, value: u64, d: seq<Node>)
    requires |d| == |data| + 1
    requires forall i :: 0 <= i < |data| ==> d[i].value == data[i].value
    requires d[|data|].value == value
    ensures Values(d) == Values(data) + [value]
  {
    assert Values(d)[..|data|] == Values(data);
  }

  class DoubleLinkedList {
    var data: seq<Node>
    var head: Handle
    var tail: Handle

    ghost predicate Valid()
      reads this
    {
      WellLinked(data, head, tail)
    }

    /** The vector's initial capacity is not modelled; it has no observable effect. */
    constructor (capacity: usize, ids: IdCounter)
      modifies ids
      ensures Valid()
      ensures head == tail == Handle(0, UniqueIdFor(old(ids.count)))
      ensures data == [Node(INVALID, INVALID, 0, head.uniqueId)]
      ensures ids.count == NextCount(old(ids.count))
      ensures Values(data) == [0]
    {
      var firstElementHandle := ids.NewHandle(0);
      head := firstElementHandle;
      tail := firstElementHandle;
      data := [Node(INVALID, INVALID, 0, firstElementHandle.uniqueId)];
    }

    method Add(value: u64, ids: IdCounter)
      requires Valid()
      requires |data| < U32_LIMIT
      modifies this, ids
      ensures Valid()
      ensures |data| == old(|data|) + 1
      ensures tail == Handle(old(|data|), UniqueIdFor(old(ids.count)))
      ensures data[|data| - 1] == Node(INVALID, old(tail), value, tail.uniqueId)
      ensures data[old(tail).index] == old(data[tail.index]).(next := tail)
      ensures forall i :: 0 <= i < old(|data|) && i != old(tail).index ==> data[i] == old(data[i])
      ensures head == old(head)
      ensures ids.count == NextCount(old(ids.count))
      ensures Values(data) == old(Values(data)) + [value]
    {
      var newElemIndex := |data|;
      var newNodeHandle := ids.NewHandle(newElemIndex);
      var newNode := Node(INVALID, tail, value, newNodeHandle.uniqueId);
      data := data + [newNode];
      data := data[tail.index := data[tail.index].(next := newNodeHandle)];
      AppendKeepsWellLinked(old(data), head, tail, newNodeHandle, value, data);
      AppendValues(old(data), value, data);
      tail := newNodeHandle;
    }

    method SumAll() returns (sum: u64)
      requires Valid()
      requires Sum(Values(data)) < U64_LIMIT
      ensures sum == Sum(Values(data))
    {
      ghost var vs := Values(data);
      sum := 0;
      var current := head;
      ghost var pos := 0;
      ResolveInWellLinked(data, head, tail);
      var node := GetNode(data, current);
      while node.Some?
        invariant 0 <= pos <= |data|
        invariant node == if pos < |data| then Some(data[pos]) else None
        invariant sum == Sum(vs[..pos])
        decreases |data| - pos
      {
        SumPrefixStep(vs, pos);
        SumPrefixBounded(vs, pos + 1);
        sum := sum + node.value.value;
        current := node.value.next;
        pos := pos + 1;
        node := GetNode(data, current);
      }
      assert vs[..|data|] == vs;
    }
  }
}
