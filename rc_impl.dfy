/**
 * The shared-counted list: heap nodes linked forward by a strong reference
 * and backward by a weak one. Reference counts and borrow flags are not
 * modelled; both links are plain references, `null` standing for None.
 */
module RcImpl {
  import opened Ints
  import opened ListSpec

  class Node {
    var next: Node?
    var prec: Node?
    var value: i32

    constructor (value: i32, prec: Node?)
      ensures this.next == null && this.prec == prec && this.value == value
    {
      this.next := null;
      this.prec := prec;
      this.value := value;
    }
  }

  class DoubleLinkedList {
    var head: Node
    var tail: Node

    /** The nodes from head to tail in insertion order, and their values. */
    ghost var nodes: seq<Node>
    ghost var contents: seq<int>
    ghost var Repr: set<object>

    /**
     * The chain from head follows `next` through `nodes` in order and ends
     * at tail, whose `next` is None; each `prec` points one step back; the
     * nodes are pairwise distinct, so the chain has no cycle.
     */
    ghost predicate Valid()
      reads this, Repr
    {
      this in Repr &&
      1 <= |nodes| == |contents| &&
      (forall i :: 0 <= i < |nodes| ==> nodes[i] in Repr) &&
      nodes[0] == head && nodes[|nodes| - 1] == tail &&
      (forall i :: 0 <= i < |nodes| - 1 ==> nodes[i].next == nodes[i + 1]) &&
      tail.next == null &&
      head.prec == null &&
      (forall i :: 0 < i < |nodes| ==> nodes[i].prec == nodes[i - 1]) &&
      (forall i :: 0 <= i < |nodes| ==> nodes[i].value == contents[i]) &&
      (forall i, j :: 0 <= i < j < |nodes| ==> nodes[i] != nodes[j])
    }

    constructor ()
      ensures Valid() && fresh(Repr)
      ensures head == tail && nodes == [head]
      ensures head.value == 0 && head.next == null && head.prec == null
      ensures contents == [0]
    {
      var startNode := new Node(0, null);
      head := startNode;
      tail := startNode;
      nodes := [startNode];
      contents := [0];
      Repr := {this, startNode};
    }

    method Add(value: i32)
      requires Valid()
      modifies this, tail
      ensures Valid() && fresh(Repr - old(Repr))
      ensures fresh(tail) && nodes == old(nodes) + [tail]
      ensures tail.value == value && tail.next == null && tail.prec == old(tail)
      ensures old(tail).next == tail
      ensures head == old(head)
      ensures contents == old(contents) + [value]
    {
      var newNode := new Node(value, tail);
      tail.next := newNode;
      tail := newNode;
      nodes := nodes + [newNode];
      contents := contents + [value];
      Repr := Repr + {newNode};
    }

    /** Requires that no running sum overflows i32 (an overflow panics). */
    method SumAll() returns (sum: i32)
      requires Valid()
      requires RunningSumsWithin(contents, I32_MIN, I32_MAX)
      ensures sum == Sum(contents)
    {
      sum := 0;
      var current := head;
      ghost var pos := 0;
      while true
        invariant Valid()
        invariant 0 <= pos < |nodes|
        invariant current == nodes[pos]
        invariant sum == Sum(contents[..pos])
        decreases |nodes| - pos
      {
        SumPrefixStep(contents, pos);
        sum := sum + current.value;
        var nextNode := current.next;
        assert pos < |nodes| - 1 ==> nextNode == nodes[pos + 1];
        if nextNode == null {
          assert contents[..pos + 1] == contents;
          break;
        }
        current := nextNode;
        pos := pos + 1;
      }
    }
  }
}
