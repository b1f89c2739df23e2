/** The linked message queue between the threads, as one thread sees it while it holds the mutex. */
module MsgQueue {
  import opened Bytes

  class MsgNode {
    const msg: seq<byte>
    var next: MsgNode?

    constructor (msg: seq<byte>)
      ensures this.msg == msg && next == null
    {
      this.msg := msg;
      next := null;
    }
  }

  ghost function Messages(nodes: seq<MsgNode>): (r: seq<seq<byte>>)
    ensures |r| == |nodes| && forall i :: 0 <= i < |nodes| ==> r[i] == nodes[i].msg
  {
    seq(|nodes|, i requires 0 <= i < |nodes| => nodes[i].msg)
  }

  /** Different nodes, each pointing to the next. */
  ghost predicate Linked(nodes: seq<MsgNode>)
    reads nodes
  {
    && (forall i, j :: 0 <= i < j < |nodes| ==> nodes[i] != nodes[j])
    && forall i {:trigger nodes[i].next} :: 0 <= i < |nodes| ==>
         nodes[i].next == if i + 1 < |nodes| then nodes[i + 1] else null
  }

  lemma LinkedInFront(nodes: seq<MsgNode>, node: MsgNode)
    requires Linked(nodes) && node !in nodes
    requires node.next == if nodes == [] then null else nodes[0]
    ensures Linked([node] + nodes) && Messages([node] + nodes) == [node.msg] + Messages(nodes)
  {
    var all := [node] + nodes;
    assert forall i :: 0 <= i < |all| ==> all[i] == if i == 0 then node else nodes[i - 1];
  }

  lemma LinkedBehind(nodes: seq<MsgNode>, node: MsgNode)
    requires (forall i, j :: 0 <= i < j < |nodes| ==> nodes[i] != nodes[j]) && node !in nodes
    requires forall i {:trigger nodes[i].next} :: 0 <= i < |nodes| ==>
               nodes[i].next == if i + 1 < |nodes| then nodes[i + 1] else node
    requires node.next == null
    ensures Linked(nodes + [node]) && Messages(nodes + [node]) == Messages(nodes) + [node.msg]
  {
    var all := nodes + [node];
    assert forall i :: 0 <= i < |all| ==> all[i] == if i < |nodes| then nodes[i] else node;
  }

  /** Two pointers and the nodes between them; `nodes` names the nodes for the proof. */
  class Queue {
    var head: MsgNode?
    var tail: MsgNode?
    ghost var nodes: seq<MsgNode>

    ghost predicate Valid()
      reads this, nodes
    {
      && Linked(nodes)
      && head == (if nodes == [] then null else nodes[0])
      && tail == (if nodes == [] then null else nodes[|nodes| - 1])
    }

    ghost function Contents(): seq<seq<byte>>
      reads this
    {
      Messages(nodes)
    }

    constructor ()
      ensures Valid() && Contents() == [] && nodes == []
    {
      head, tail := null, null;
      nodes := [];
    }

    /** `eb_ws_msgEnQ`, and with `fromHead` false `iothubMsgEnQ`. */
    method EnQ(msg: seq<byte>, fromHead: bool)
      requires Valid()
      modifies this, nodes
      ensures Valid() && Contents() == if fromHead then [msg] + old(Contents()) else old(Contents()) + [msg]
      ensures forall n :: n in nodes ==> n in old(nodes) || fresh(n)
    {
      hide Messages;
      var node := new MsgNode(msg);
      if fromHead {
        node.next := head;
        if head == null {
          tail := node;
        }
        head := node;
        LinkedInFront(nodes, node);
        nodes := [node] + nodes;
      } else {
        node.next := null;
        if head == null {
          head := node;
        }
        if tail != null {
          tail.next := node;
        }
        tail := node;
        LinkedBehind(nodes, node);
        nodes := nodes + [node];
      }
    }

    /** `eb_ws_msgDeQ` and `iothubMsgDeQ`; null stands for a pointer that is not assigned. */
    method DeQ() returns (node: MsgNode?)
      requires Valid()
      modifies this
      ensures Valid()
      ensures old(Contents()) == [] ==> node == null && Contents() == []
      ensures old(Contents()) != [] ==> node != null && [node.msg] + Contents() == old(Contents())
      ensures forall n :: n in nodes ==> n in old(nodes)
    {
      node := null;
      if head != null {
        node := head;
        if head == tail {
          head := null;
          tail := null;
        } else {
          head := head.next;
        }
        nodes := nodes[1..];
      }
    }
  }
}
