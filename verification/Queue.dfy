/** queue.c: a linked first-in first-out queue. */
module Queue {
  class QueueNode<T> {
    const data: T
    var next: QueueNode?<T>

    /** new_queue_node */
    constructor (data: T)
      ensures this.data == data && next == null
    {
      this.data, next := data, null;
    }
  }

  function Data<T>(nodes: seq<QueueNode<T>>): seq<T> {
    seq(|nodes|, i requires 0 <= i < |nodes| => nodes[i].data)
  }

  class Queue<T> {
    var size: nat
    var start: QueueNode?<T>
    var end: QueueNode?<T>
    ghost var nodes: seq<QueueNode<T>>

    /** The nodes reachable from start, in order; end is the last of them. */
    ghost predicate Valid()
      reads this, nodes
    {
      && size == |nodes|
      && start == (if nodes == [] then null else nodes[0])
      && end == (if nodes == [] then null else nodes[|nodes| - 1])
      && (forall i, j | 0 <= i < j < |nodes| :: nodes[i] != nodes[j])
      && (forall i {:trigger nodes[i].next} | 0 <= i < |nodes| ::
            nodes[i].next == if i + 1 < |nodes| then nodes[i + 1] else null)
    }

    ghost function Contents(): seq<T>
      reads this
    {
      Data(nodes)
    }

    /** new_queue */
    constructor ()
      ensures Valid() && nodes == [] && Contents() == []
    {
      size, start, end, nodes := 0, null, null, [];
    }

    /** queue_push: the node must be new to the queue and unlinked. */
    method Push(node: QueueNode<T>)
      requires Valid() && node !in nodes && node.next == null
      modifies this, end
      ensures Valid() && nodes == old(nodes) + [node]
      ensures Contents() == old(Contents()) + [node.data]
    {
      if end == null {
        start := node;
      } else {
        end.next := node;
      }
      end := node;
      size := size + 1;
      nodes := nodes + [node];
    }

    /** queue_peek */
    method Peek() returns (node: QueueNode?<T>)
      requires Valid()
      ensures node == null <==> Contents() == []
      ensures node != null ==> node.data == Contents()[0]
    {
      node := start;
    }

    /** queue_pop: the oldest element goes; on an empty queue nothing happens. */
    method Pop()
      requires Valid()
      modifies this
      ensures Valid() && nodes == if old(nodes) == [] then [] else old(nodes)[1..]
      ensures Contents() == if old(Contents()) == [] then [] else old(Contents())[1..]
    {
      if start == null {
        return;
      }
      ghost var was := nodes;
      assert was[0].next == if 1 < |was| then was[1] else null;
      var nextStart := start.next;
      start := nextStart;
      if start == null {
        end := null;
      }
      size := size - 1;
      nodes := nodes[1..];
      assert forall i {:trigger nodes[i].next} | 0 <= i < |nodes| :: nodes[i].next == was[i + 1].next;
    }

    /** The loop of remove_queue. Its index rises while the size falls, so it stops half way:
        it pops the first ceil(n / 2) nodes and leaves the others in order. */
    method RemoveQueue() returns (pops: nat)
      requires Valid()
      modifies this
      ensures Valid()
      ensures pops == (old(size) + 1) / 2
      ensures Contents() == old(Contents())[pops..] && size == old(size) / 2
    {
      ghost var all := nodes;
      var i := 0;
      while i < size
        invariant Valid() && size == |all| - i >= 0 && 2 * i <= |all| + 1
        invariant nodes == all[i..]
        decreases size
      {
        Pop();
        i := i + 1;
      }
      pops := i;
    }

    /** A loop on non-emptiness, as remove_queue is meant to be, drains the queue. */
    method Drain() returns (pops: nat)
      requires Valid()
      modifies this
      ensures Valid() && Contents() == [] && size == 0 && pops == old(size)
    {
      pops := 0;
      ghost var all := nodes;
      while start != null
        invariant Valid() && size == |all| - pops >= 0
        decreases size
      {
        Pop();
        pops := pops + 1;
      }
    }

    /** print_queue: every element once, oldest first. */
    method PrintQueue() returns (printed: seq<T>)
      requires Valid()
      ensures printed == Contents()
    {
      printed := [];
      var current := start;
      ghost var i := 0;
      while current != null
        invariant 0 <= i <= |nodes|
        invariant current == if i < |nodes| then nodes[i] else null
        invariant printed == Contents()[..i]
        decreases |nodes| - i
      {
        printed := printed + [current.data];
        current := current.next;
        i := i + 1;
      }
    }
  }

  datatype Call<T> = PushCall(value: T) | PopCall

  /** What a sequence of pushes and pops leaves in the queue. */
  function Left<T>(calls: seq<Call<T>>): seq<T> {
    if calls == [] then []
    else
      var q := Left(calls[..|calls| - 1]);
      match calls[|calls| - 1]
      case PushCall(v) => q + [v]
      case PopCall => if q == [] then [] else q[1..]
  }

  /** The values popped, in the order they came out. */
  function Popped<T>(calls: seq<Call<T>>): seq<T> {
    if calls == [] then []
    else
      var q := Left(calls[..|calls| - 1]);
      Popped(calls[..|calls| - 1]) + if calls[|calls| - 1].PopCall? && q != [] then [q[0]] else []
  }

  function Pushed<T>(calls: seq<Call<T>>): seq<T> {
    if calls == [] then []
    else
      Pushed(calls[..|calls| - 1])
      + match calls[|calls| - 1]
        case PushCall(v) => [v]
        case PopCall => []
  }

  /** First in, first out: what came out and what is left make up what went in. */
  lemma {:induction false} PopsFollowPushes<T>(calls: seq<Call<T>>)
    ensures Popped(calls) + Left(calls) == Pushed(calls)
  {
    if calls != [] {
      PopsFollowPushes(calls[..|calls| - 1]);
      var q := Left(calls[..|calls| - 1]);
      if q != [] {
        assert q == [q[0]] + q[1..];
      }
    }
  }

  /** Any sequence of calls on a new queue: each push is of a new node, each pop looks at the
      oldest node before it goes. What is left and what came out are as above. */
  method Perform<T>(calls: seq<Call<T>>) returns (queue: Queue<T>, popped: seq<T>)
    ensures fresh(queue) && queue.Valid()
    ensures queue.Contents() == Left(calls) && popped == Popped(calls)
    ensures popped + queue.Contents() == Pushed(calls)
  {
    queue := new Queue();
    popped := [];
    for i := 0 to |calls|
      invariant fresh(queue) && queue.Valid() && fresh(set n | n in queue.nodes)
      invariant queue.Contents() == Left(calls[..i]) && popped == Popped(calls[..i])
    {
      assert calls[..i + 1][..i] == calls[..i];
      match calls[i]
      case PushCall(v) =>
        var node := new QueueNode(v);
        queue.Push(node);
      case PopCall =>
        var oldest := queue.Peek();
        if oldest != null {
          popped := popped + [oldest.data];
        }
        queue.Pop();
    }
    assert calls[..|calls|] == calls;
    PopsFollowPushes(calls);
  }
}
