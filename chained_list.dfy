/**
 * The chained list buffer: a singly linked FIFO of timestamps behind a
 * permanent sentinel node (node_t with head_init, push and pop).
 *
 * The C code keeps the element counter in a separate `int` that every call
 * receives by pointer; here it is the field `length` of the list object, and
 * Valid() ties it to the number of nodes after the sentinel.
 */
module ChainedListBuffer {
  import opened CTypes

  /** node_t: one timestamp and the link to the next node. */
  class Node {
    var val: u64
    var next: Node?

    constructor (val: u64)
      ensures this.val == val && next == null
    {
      this.val := val;
      next := null;
    }
  }

  class ChainedList {
    /** The sentinel; it is never removed and its value is never read. */
    const head: Node
    /** The counter that head_init, push and pop maintain beside the list. */
    var length: int
    /** The stored values, first to be popped first. */
    ghost var contents: seq<u64>
    /** The chain from the sentinel: nodes[0] is head, nodes[i + 1] holds contents[i]. */
    ghost var nodes: seq<Node>
    ghost var Repr: set<object>

    ghost predicate Valid()
      reads this, Repr
    {
      this in Repr &&
      |nodes| == |contents| + 1 && nodes[0] == head &&
      (forall i :: 0 <= i < |nodes| ==> nodes[i] in Repr) &&
      (forall i, j :: 0 <= i < j < |nodes| ==> nodes[i] != nodes[j]) &&
      (forall i :: 0 <= i < |nodes| - 1 ==> nodes[i].next == nodes[i + 1]) &&
      nodes[|nodes| - 1].next == null &&
      (forall i :: 0 <= i < |contents| ==> nodes[i + 1].val == contents[i]) &&
      length == |contents|
    }

    /** head_init: a sentinel holding 0 with no successor, and length 0. */
    constructor Init()
      ensures Valid() && fresh(Repr)
      ensures contents == [] && length == 0
      ensures head.val == 0 && head.next == null
    {
      head := new Node(0);
      length := 0;
      new;
      contents := [];
      nodes := [head];
      Repr := {this, head};
    }

    /**
     * push: walk from the sentinel to the last node and link a new node
     * holding v after it; the earlier values stay as they were.
     */
    method Push(v: u64)
      requires Valid() && length < INT_MAX
      modifies Repr
      ensures Valid() && fresh(Repr - old(Repr))
      ensures contents == old(contents) + [v]
      ensures length == old(length) + 1
    {
      var current := head;
      ghost var i := 0;
      while current.next != null
        invariant Valid()
        invariant 0 <= i < |nodes| && current == nodes[i]
        invariant i < |nodes| - 1 ==> current.next == nodes[i + 1]
        decreases |nodes| - i
      {
        current := current.next;
        i := i + 1;
      }
      assert i == |nodes| - 1;
      var node := new Node(v);
      current.next := node;
      length := length + 1;
      nodes := nodes + [node];
      contents := contents + [v];
      Repr := Repr + {node};
    }

    /**
     * pop: unlink the node after the sentinel and return its value. On an
     * empty list it returns 0, which a caller cannot tell apart from a
     * stored 0, and changes nothing.
     */
    method Pop() returns (r: u64)
      requires Valid()
      modifies Repr
      ensures Valid() && Repr <= old(Repr)
      ensures old(contents) == [] ==> r == 0 && contents == [] && length == old(length) && unchanged(Repr)
      ensures old(contents) != [] ==>
                r == old(contents)[0] && contents == old(contents)[1..] && length == old(length) - 1
    {
      if head.next == null {
        return 0;
      }
      var nextNode := head.next.next;
      r := head.next.val;
      ghost var removed := head.next;
      assert removed == nodes[1];
      assert forall j :: 0 <= j < |nodes| && j != 1 ==> nodes[j] != removed;
      head.next := nextNode;
      length := length - 1;
      nodes := [head] + nodes[2..];
      contents := contents[1..];
      Repr := Repr - {removed};
    }
  }

  /** Scenario: push 5, push 7, pop, push 9, then pop until past empty. */
  method ScenarioFifoOrder() returns (a: u64, b: u64, c: u64, d: u64, len: int)
    ensures a == 5 && b == 7 && c == 9 && d == 0 && len == 0
  {
    var q := new ChainedList.Init();
    q.Push(5);
    q.Push(7);
    a := q.Pop();
    q.Push(9);
    b := q.Pop();
    c := q.Pop();
    d := q.Pop();
    len := q.length;
  }
}
