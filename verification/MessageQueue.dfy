/** The linked list of sub.c between the decoder and the timer, with its allocations. */
module MessageQueues {
  import opened Session

  /** pending_message_t; only the link changes after construction. */
  class PendingMessage {
    const data: Pending
    var next: PendingMessage?

    constructor (data: Pending)
      ensures this.data == data && next == null
    {
      this.data := data;
      next := null;
    }
  }

  ghost function NodeAt(nodes: seq<PendingMessage>, i: int): PendingMessage? {
    if 0 <= i < |nodes| then nodes[i] else null
  }

  ghost function DataOf(nodes: seq<PendingMessage>): (s: seq<Pending>)
    ensures |s| == |nodes| && forall i :: 0 <= i < |nodes| ==> s[i] == nodes[i].data
  {
    seq(|nodes|, i requires 0 <= i < |nodes| => nodes[i].data)
  }

  ghost function Nodes(nodes: seq<PendingMessage>): set<PendingMessage> {
    set n | n in nodes
  }

  lemma NodesPrefix(nodes: seq<PendingMessage>, k: nat)
    requires k < |nodes|
    ensures Nodes(nodes[..k + 1]) == Nodes(nodes[..k]) + {nodes[k]}
  {
    assert nodes[..k + 1] == nodes[..k] + [nodes[k]];
  }

  class MessageQueue {
    var head: PendingMessage?
    var tail: PendingMessage?
    var count: int

    ghost var spine: seq<PendingMessage>  // the nodes from head to tail
    ghost var live: set<PendingMessage>  // nodes allocated and not yet freed

    ghost predicate Valid()
      reads this, live
    {
      && (forall n :: n in spine ==> n in live)
      && count == |spine|
      && head == NodeAt(spine, 0)
      && tail == NodeAt(spine, |spine| - 1)
      && (forall i :: 0 <= i < |spine| ==> spine[i].next == NodeAt(spine, i + 1))
      && (forall i, j :: 0 <= i < j < |spine| ==> spine[i] != spine[j])
    }

    /** The queue as a value, oldest message first. */
    ghost function Contents(): (s: seq<Pending>)
      reads this
    {
      DataOf(spine)
    }

    ghost predicate NoLeak()
      reads this
    {
      forall n :: n in live ==> n in spine
    }

    constructor ()
      ensures Valid() && Contents() == [] && spine == [] && NoLeak()
    {
      head, tail, count := null, null, 0;
      spine, live := [], {};
    }

    method Enqueue(data: Pending)
      requires Valid()
      modifies this, live
      ensures Valid() && Contents() == old(Contents()) + [data]
      ensures tail != null && fresh(tail) && spine == old(spine) + [tail] && live == old(live) + {tail}
    {
      var msg := new PendingMessage(data);
      if tail != null {
        tail.next := msg;
        tail := msg;
      } else {
        head, tail := msg, msg;
      }
      count := count + 1;
      spine, live := spine + [msg], live + {msg};
      assert DataOf(spine) == DataOf(old(spine)) + [data];
    }

    /** The caller owns the returned node and must free it. */
    method Dequeue() returns (msg: PendingMessage?)
      requires Valid()
      modifies this
      ensures Valid() && live == old(live)
      ensures msg == null <==> old(Contents()) == []
      ensures msg == null ==> spine == old(spine) && Contents() == []
      ensures msg != null ==> msg == old(spine)[0] && msg.data == old(Contents())[0] && spine == old(spine)[1..]
      ensures msg != null ==> Contents() == old(Contents())[1..] && msg in live && msg !in spine
    {
      if head == null {
        return null;
      }
      msg := head;
      head := msg.next;
      if head == null {
        tail := null;
      }
      count := count - 1;
      spine := spine[1..];
    }

    /** free(msg): only a live node that is no longer linked may be released. */
    method Free(msg: PendingMessage)
      requires Valid() && msg in live && msg !in spine
      modifies this`live
      ensures Valid() && live == old(live) - {msg}
    {
      live := live - {msg};
    }

    /** cleanup_message_queue: every linked node is released once, and no other. */
    method Cleanup()
      requires Valid()
      modifies this
      ensures Valid() && Contents() == [] && head == null && count == 0
      ensures live == old(live) - Nodes(old(spine))
    {
      ghost var nodes, freed := spine, 0;
      while head != null
        invariant Valid() && freed <= |nodes| && spine == nodes[freed..]
        invariant live == old(live) - Nodes(nodes[..freed])
        decreases |spine|
      {
        var msg := Dequeue();
        if msg != null {
          Free(msg);
          NodesPrefix(nodes, freed);
          freed := freed + 1;
        }
      }
      assert nodes[..freed] == nodes;
    }
  }
}
