/** The driver's queue of messages that wait for the adapter (net/ne2k/ne2k.c:62-85). */
module SendQueue {
  import opened Messages

  class Node {
    var msg: Msg
    var next: Node?

    constructor (msg: Msg)
      ensures this.msg == msg && next == null
    {
      this.msg, next := msg, null;
    }
  }

  function Head(ns: seq<Node>, i: nat): Node? { if i < |ns| then ns[i] else null }

  /** `ns` are the nodes of a NULL-terminated list. */
  ghost predicate IsList(ns: seq<Node>)
    reads ns
  {
    && (forall i {:trigger ns[i].next} :: 0 <= i < |ns| ==> ns[i].next == Head(ns, i + 1))
    && (forall i, j :: 0 <= i < j < |ns| ==> ns[i] != ns[j])
  }

  /** The messages in the queue, oldest first. */
  ghost function Queued(ns: seq<Node>): (ms: seq<Msg>)
    reads ns
    ensures |ms| == |ns|
  {
    seq(|ns|, i requires 0 <= i < |ns| reads ns => ns[i].msg)
  }

  /** net/ne2k/ne2k.c:67-75: append by recursion. */
  method Add(queue: Node?, buf: Msg, ghost ns: seq<Node>, ghost i: nat) returns (r: Node, ghost n: Node)
    requires IsList(ns) && i <= |ns| && queue == Head(ns, i)
    modifies ns
    ensures fresh(n) && n.msg == buf && n.next == null && r == (if i < |ns| then ns[i] else n)
    ensures forall k :: 0 <= k < |ns| ==> ns[k].msg == old(ns[k].msg)
    ensures forall k :: 0 <= k < |ns| ==> ns[k].next == if k == |ns| - 1 && i < |ns| then n else old(ns[k].next)
    decreases |ns| - i
  {
    if queue == null {
      r := new Node(buf);
      n := r;
    } else {
      var rest;
      rest, n := Add(queue.next, buf, ns, i + 1);
      queue.next := rest;
      r := queue;
    }
  }

  /** net/ne2k/ne2k.c:79-85: the list without its front. */
  method Del(queue: Node?, ghost ns: seq<Node>) returns (r: Node?)
    requires IsList(ns) && queue == Head(ns, 0)
    ensures ns == [] ==> r == null
    ensures ns != [] ==> r == Head(ns[1..], 0) && IsList(ns[1..]) && Queued(ns[1..]) == Queued(ns)[1..]
  {
    r := null;
    if queue != null {
      r := queue.next;
      TailIsList(ns);
    }
  }

  lemma TailIsList(ns: seq<Node>)
    requires IsList(ns) && ns != []
    ensures IsList(ns[1..]) && Queued(ns[1..]) == Queued(ns)[1..] && ns[0].next == Head(ns[1..], 0)
  {
    forall i | 0 <= i < |ns| - 1
      ensures ns[1..][i].next == Head(ns[1..], i + 1)
    {
      assert ns[i + 1].next == Head(ns, i + 2);
    }
  }
}
