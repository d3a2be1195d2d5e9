/** src/client/message_keep.c: the in-flight queue as a null-terminated list of nodes. */
module MessageKeep {
  import opened Bytes
  import opened Entries

  /** `message_send_t`. The number of additions before this one is not stored by the code. */
  class Node {
    ghost const k: nat
    const packetId: uint16
    const message: array<byte>
    const qos: byte
    var timestamp: int
    var next: Node?

    constructor (ghost k: nat, packetId: uint16, message: array<byte>, qos: byte)
      ensures this.k == k && this.packetId == packetId && this.message == message && this.qos == qos
      ensures timestamp == 0 && next == null
    {
      this.k, this.packetId, this.message, this.qos := k, packetId, message, qos;
      timestamp, next := 0, null;
    }

    ghost function Value(): Entry
      reads this`timestamp, message
    {
      Entry(k, packetId, message[..], qos, timestamp)
    }
  }

  method Duplicate(message: array<byte>, messageLen: nat) returns (bytes: array<byte>)
    requires messageLen <= message.Length
    ensures fresh(bytes) && bytes[..] == message[..messageLen]
  {
    bytes := new byte[messageLen];
    Copy(bytes, 0, message[..messageLen]);
    assert bytes[..] == bytes[..messageLen];
  }

  function At(nodes: seq<Node>, i: nat): Node? {
    if i < |nodes| then nodes[i] else null
  }

  /** `head` starts a null-terminated list through exactly `nodes`, in that order. */
  ghost predicate Linked(head: Node?, nodes: seq<Node>)
    reads nodes
  {
    && head == At(nodes, 0)
    && (forall i {:trigger nodes[i].next} :: 0 <= i < |nodes| ==> nodes[i].next == At(nodes, i + 1))
  }

  /** Makes node `i` skip its successor. */
  method Bypass(curr: Node, ghost head: Node?, ghost nodes: seq<Node>, ghost i: nat)
    requires i + 1 < |nodes| && curr == nodes[i] && Linked(head, nodes)
    requires forall a, b :: 0 <= a < b < |nodes| ==> nodes[a] != nodes[b]
    modifies curr`next
    ensures Linked(head, Without(nodes, i + 1))
    ensures nodes[i + 1].next == old(nodes[i + 1].next)
  {
    var next := curr.next;
    curr.next := next.next;
    ghost var rest := Without(nodes, i + 1);
    forall j | 0 <= j < |rest| ensures rest[j].next == At(rest, j + 1) {
      if j != i {
        assert rest[j] == nodes[if j < i then j else j + 1];
      }
    }
  }

  /** A `message_send_t *` with the nodes and entries that it stands for. */
  class SendList {
    var head: Node?
    ghost var nodes: seq<Node>
    ghost var contents: seq<Entry>
    ghost var Repr: set<object>

    ghost predicate Owned()
      reads this
    {
      this in Repr && forall n <- nodes :: n in Repr && n.message in Repr
    }

    ghost predicate Distinct()
      reads this
    {
      forall i, j :: 0 <= i < j < |nodes| ==> nodes[i] != nodes[j]
    }

    ghost predicate Matching()
      reads this, nodes, set n | n in nodes :: n.message
    {
      |contents| == |nodes| && forall i :: 0 <= i < |nodes| ==> contents[i] == nodes[i].Value()
    }

    ghost predicate Valid()
      reads this, Repr
      ensures Valid() ==> this in Repr
    {
      Owned() && Distinct() && Linked(head, nodes) && Matching()
    }

    constructor ()
      ensures Valid() && fresh(Repr) && contents == []
    {
      head, nodes, contents, Repr := null, [], [], {this};
    }

    /** `message_send_add`: the new node is last and holds its own copy of the message. */
    method Add(packetId: uint16, message: array<byte>, messageLen: nat, qos: byte, ghost k: nat)
      requires Valid()
      requires messageLen <= message.Length
      modifies Repr
      ensures Valid() && fresh(Repr - old(Repr))
      ensures contents == old(contents) + [Entry(k, packetId, old(message[..messageLen]), qos, 0)]
      ensures |nodes| == |old(nodes)| + 1 && nodes[..|nodes| - 1] == old(nodes)
      ensures fresh(nodes[|nodes| - 1]) && fresh(nodes[|nodes| - 1].message)
    {
      var bytes := Duplicate(message, messageLen);
      var node := new Node(k, packetId, bytes, qos);
      Link(node);
    }

    /** Hangs a new node behind the last one. */
    method Link(node: Node)
      requires Valid() && node.next == null && node !in Repr
      modifies Repr
      ensures Valid() && Repr == old(Repr) + {node, node.message}
      ensures contents == old(contents) + [old(node.Value())]
      ensures nodes == old(nodes) + [node]
    {
      if head == null {
        head := node;
      } else {
        var curr := Last();
        curr.next := node;
      }
      Grow(node);
    }

    /** Bookkeeping after `node` was hung behind the last node. */
    ghost method Grow(node: Node)
      requires Owned() && Matching() && Distinct()
      requires node !in nodes && Linked(head, nodes + [node])
      modifies this`nodes, this`contents, this`Repr
      ensures Valid() && Repr == old(Repr) + {node, node.message}
      ensures contents == old(contents) + [node.Value()]
      ensures nodes == old(nodes) + [node]
    {
      nodes, contents := nodes + [node], contents + [node.Value()];
      Repr := Repr + {node, node.message};
    }

    /** The walk to the end of a list that is not empty. */
    method Last() returns (curr: Node)
      requires Valid() && head != null
      ensures nodes != [] && curr == nodes[|nodes| - 1]
    {
      curr := head;
      ghost var i := 0;
      while curr.next != null
        invariant 0 <= i < |nodes| && curr == nodes[i]
        decreases |nodes| - i
      {
        curr := curr.next;
        i := i + 1;
      }
    }

    /** `message_send_find`: only the return code reaches the caller. */
    method Find(packetId: uint16) returns (status: Status)
      requires Valid()
      ensures status == if Present(contents, packetId) then Success else Unknown
    {
      PresentIff(contents, packetId);
      var curr := head;
      ghost var i := 0;
      while curr != null
        invariant 0 <= i <= |nodes| && curr == At(nodes, i)
        invariant i <= IndexOf(contents, packetId)
        decreases |nodes| - i
      {
        assert contents[i] == nodes[i].Value();
        if curr.packetId == packetId {
          return Success;
        }
        curr := curr.next;
        i := i + 1;
      }
      status := Unknown;
    }

    /** `message_send_remove` on a list that is not empty: unlinks the first entry with the
        id. The unlinked node keeps its `next`. */
    method Remove(packetId: uint16) returns (status: Status, ghost at: nat)
      requires Valid() && head != null
      modifies this, nodes`next
      ensures Valid() && Repr == old(Repr)
      ensures at == IndexOf(old(contents), packetId)
      ensures status == if at < |old(contents)| then Success else Unknown
      ensures contents == RemoveFirst(old(contents), packetId)
      ensures if at < |old(nodes)| then
                nodes == Without(old(nodes), at) && old(nodes)[at].next == old(nodes[at].next)
              else
                nodes == old(nodes)
    {
      at := IndexOf(contents, packetId);
      assert contents[0] == nodes[0].Value();
      if head.packetId == packetId {
        IndexIs(contents, packetId, 0);
        UnlinkFirst();
        return Success, at;
      }
      var curr := head;
      ghost var i := 0;
      while curr.next != null
        invariant 0 <= i < |nodes| && curr == nodes[i]
        invariant i < at
        decreases |nodes| - i
      {
        assert contents[i + 1] == nodes[i + 1].Value();
        if curr.next.packetId == packetId {
          IndexIs(contents, packetId, i + 1);
          Unlink(curr, i);
          return Success, at;
        }
        curr := curr.next;
        i := i + 1;
      }
      status := Unknown;
    }

    /** Takes the successor of node `i` out of the list. */
    method Unlink(curr: Node, ghost i: nat)
      requires Valid() && i + 1 < |nodes| && curr == nodes[i]
      modifies this, curr`next
      ensures Valid() && Repr == old(Repr)
      ensures nodes == Without(old(nodes), i + 1) && contents == Without(old(contents), i + 1)
      ensures old(nodes)[i + 1].next == old(nodes[i + 1].next)
    {
      ghost var entries := contents;
      ghost var ns := nodes;
      Bypass(curr, head, ns, i);
      forall j | 0 <= j < |ns| ensures entries[j] == ns[j].Value() {
        assert old(ns[j].Value()) == entries[j];
      }
      Drop(i + 1);
    }

    method UnlinkFirst()
      requires Valid() && head != null
      modifies this
      ensures Valid() && Repr == old(Repr)
      ensures nodes == Without(old(nodes), 0) && contents == Without(old(contents), 0)
    {
      head := head.next;
      Drop(0);
    }

    /** Bookkeeping after node `i` was bypassed. */
    ghost method Drop(i: nat)
      requires Owned() && Matching() && Distinct() && i < |nodes|
      requires Linked(head, Without(nodes, i))
      modifies this`nodes, this`contents
      ensures Valid()
      ensures nodes == Without(old(nodes), i) && contents == Without(old(contents), i)
    {
      WithoutKeeps(nodes, i);
      nodes, contents := Without(nodes, i), Without(contents, i);
    }
  }
}
