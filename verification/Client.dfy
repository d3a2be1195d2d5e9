/** The client object with its in-flight queue, against the steps of `Session`. */
module Client {
  import opened Bytes
  import opened Entries
  import opened MessageKeep
  import opened Session
  import TF = TopicFilters
  import P = Publish
  import Ledger
  import Runs

  /** The walk of `process_timer_event`: it deletes from the list under its own feet and goes
      on through the `next` that an unlinked node keeps. `fired` are the callback's arguments. */
  method SweepList(list: SendList, timeout: int, now: int) returns (fired: seq<Node>)
    requires list.Valid()
    modifies list.Repr
    ensures list.Valid() && list.Repr == old(list.Repr)
    ensures list.contents == Swept(old(list.contents), timeout, now)
    ensures Values(fired, Dead(old(list.contents), timeout, now))
  {
    ghost var all, nodes := list.contents, list.nodes;
    var curr := list.head;
    ghost var i := 0;
    fired := [];
    WalkEnds(list, all, nodes, timeout, now);
    while curr != null
      invariant list.Valid() && list.Repr == old(list.Repr)
      invariant 0 <= i <= |nodes| == |all| && curr == At(nodes, i)
      invariant Walked(list, all, nodes, i, timeout, now)
      invariant Values(fired, Dead(all[..i], timeout, now))
      decreases |nodes| - i
    {
      curr, fired := SweepOne(list, curr, fired, timeout, now, all, nodes, i);
      i := i + 1;
    }
    WalkEnds(list, all, nodes, timeout, now);
  }

  /** The walk before its first turn and after its last. */
  lemma WalkEnds(list: SendList, all: seq<Entry>, nodes: seq<Node>, timeout: int, now: int)
    ensures Dead(all[..0], timeout, now) == []
    ensures Dead(all[..|all|], timeout, now) == Dead(all, timeout, now)
    ensures list.contents == all && list.nodes == nodes && |nodes| == |all| ==>
              Walked(list, all, nodes, 0, timeout, now)
    ensures Walked(list, all, nodes, |all|, timeout, now) ==> list.contents == Swept(all, timeout, now)
  {
    assert all[..|all|] == all;
    assert Swept(all[..0], timeout, now) == [];
  }

  ghost predicate Values(ns: seq<Node>, es: seq<Entry>)
    reads ns`timestamp, set n | n in ns :: n.message
  {
    |ns| == |es| && forall i :: 0 <= i < |ns| ==> ns[i].Value() == es[i]
  }

  /** What the list holds when the walk stands at node `i`. */
  ghost predicate Walked(list: SendList, all: seq<Entry>, nodes: seq<Node>, i: nat, timeout: int, now: int)
    requires i <= |all|
    reads list
  {
    var kept := Swept(all[..i], timeout, now);
    && i <= |nodes| == |all|
    && |list.nodes| == |list.contents|
    && list.contents == kept + all[i..]
    && list.nodes[|kept|..] == nodes[i..]
  }

  method SweepOne(list: SendList, curr: Node, fired: seq<Node>, timeout: int, now: int,
                  ghost all: seq<Entry>, ghost nodes: seq<Node>, ghost i: nat)
    returns (next: Node?, fired': seq<Node>)
    requires list.Valid()
    requires i < |nodes| == |all| && curr == nodes[i]
    requires Walked(list, all, nodes, i, timeout, now)
    requires Values(fired, Dead(all[..i], timeout, now))
    modifies list, list.nodes`next
    ensures list.Valid() && list.Repr == old(list.Repr)
    ensures next == At(nodes, i + 1)
    ensures Walked(list, all, nodes, i + 1, timeout, now)
    ensures Values(fired', Dead(all[..i + 1], timeout, now))
  {
    DeadStep(all, i, timeout, now);
    ghost var at := |Swept(all[..i], timeout, now)|;
    Standing(list, all, nodes, i, timeout, now, at);
    fired' := fired;
    if curr.timestamp + timeout < now {
      RemoveCurrent(list, curr, nodes, i, at);
      ValuesAppend(fired, Dead(all[..i], timeout, now), curr, all[i]);
      fired' := fired' + [curr];
    } else {
      NextOf(list, at, nodes, i);
    }
    next := curr.next;
  }

  /** Where the walk stands in the list, and what the list holds after this turn. */
  lemma Standing(list: SendList, all: seq<Entry>, nodes: seq<Node>, i: nat, timeout: int, now: int, at: nat)
    requires i < |nodes| == |all| && Walked(list, all, nodes, i, timeout, now)
    requires at == |Swept(all[..i], timeout, now)|
    ensures at < |list.nodes| == |list.contents|
    ensures list.nodes[at] == nodes[i] && list.contents[at] == all[i]
    ensures list.nodes[at + 1..] == nodes[i + 1..]
    ensures var kept := Swept(all[..i + 1], timeout, now);
            if Expired(all[i], timeout, now) then
              && IndexOf(list.contents, all[i].packetId) <= at == |kept|
              && RemoveFirst(list.contents, all[i].packetId) == kept + all[i + 1..]
            else |kept| == at + 1 && list.contents == kept + all[i + 1..]
  {
    SweepStep(all, i, timeout, now);
    TailOf(list.nodes, nodes, i, at);
  }

  /** `message_send_remove` with the walk standing on node `at` of the list: the walk can go
      on from there, whether that node or one in front of it was unlinked. */
  method RemoveCurrent(list: SendList, curr: Node, ghost nodes: seq<Node>, ghost i: nat, ghost at: nat)
    requires list.Valid() && i < |nodes| && at < |list.nodes| && list.nodes[at] == curr
    requires list.nodes[at + 1..] == nodes[i + 1..]
    requires IndexOf(list.contents, curr.packetId) <= at
    modifies list, list.nodes`next
    ensures list.Valid() && list.Repr == old(list.Repr)
    ensures list.contents == RemoveFirst(old(list.contents), curr.packetId)
    ensures at <= |list.nodes| == |list.contents| && list.nodes[at..] == nodes[i + 1..]
    ensures curr.next == At(nodes, i + 1)
  {
    ghost var before := list.nodes;
    NextOf(list, at, nodes, i);
    var _, removed := list.Remove(curr.packetId);
    TailWithout(before, nodes, i, at, removed);
    if removed < at {
      NextOf(list, at - 1, nodes, i);
    }
  }

  lemma ValuesAppend(ns: seq<Node>, es: seq<Entry>, n: Node, e: Entry)
    requires Values(ns, es) && n.Value() == e
    ensures Values(ns + [n], es + [e])
  {
  }

  lemma TailOf(before: seq<Node>, nodes: seq<Node>, i: nat, at: nat)
    requires i < |nodes| && at < |before| && before[at..] == nodes[i..]
    ensures before[at + 1..] == nodes[i + 1..]
  {
    assert before[at + 1..] == before[at..][1..];
    assert nodes[i + 1..] == nodes[i..][1..];
  }

  lemma TailWithout(before: seq<Node>, nodes: seq<Node>, i: nat, at: nat, removed: nat)
    requires i < |nodes| && removed <= at < |before| && before[at + 1..] == nodes[i + 1..]
    ensures Without(before, removed)[at..] == nodes[i + 1..]
    ensures removed < at ==> Without(before, removed)[at - 1] == before[at]
  {
    assert Without(before, removed)[at..] == before[at + 1..];
  }

  /** The successor in the list is the successor in the walk. */
  lemma NextOf(list: SendList, j: nat, nodes: seq<Node>, i: nat)
    requires list.Valid() && j < |list.nodes| && i < |nodes|
    requires list.nodes[j + 1..] == nodes[i + 1..]
    ensures list.nodes[j].next == At(nodes, i + 1)
  {
    assert |list.nodes[j + 1..]| == |nodes[i + 1..]|;
    if i + 1 < |nodes| {
      assert list.nodes[j + 1] == list.nodes[j + 1..][0] == nodes[i + 1..][0];
    }
  }

  /** `mqtt_client_t` with the globals `message_send_list` and `keep_alive_timestamp`. */
  class Client {
    var keepAlive: uint16
    var timeoutSec: uint16
    var packetIdNext: uint16
    var keepAliveTimestamp: int
    const sendList: SendList
    ghost var issued: nat
    ghost const start: State
    ghost var run: seq<Event>  // what happened since the CONNECT

    ghost predicate Valid()
      reads this, sendList, sendList.Repr
    {
      && this !in sendList.Repr && sendList.Valid()
      && start == Connected(start.keepAlive, start.timeoutSec, start.timestamp)
      && Abs() == Exec(start, run)
    }

    ghost function Abs(): State
      reads this, sendList
    {
      State(sendList.contents, issued, packetIdNext, keepAlive, timeoutSec, keepAliveTimestamp)
    }

    /** The end of `connect_message_send`, once the broker has accepted the connection. */
    constructor (configKeepAlive: uint16, timeoutSec: uint16, now: int)
      ensures Valid() && fresh(sendList) && fresh(sendList.Repr)
      ensures Abs() == start == Connected(configKeepAlive, timeoutSec, now) && run == []
      ensures keepAlive == if configKeepAlive == 0 then 60 else configKeepAlive
      ensures this.timeoutSec == timeoutSec && keepAliveTimestamp == now
      ensures sendList.contents == [] && packetIdNext == 1
    {
      sendList := new SendList();
      this.timeoutSec := timeoutSec;
      keepAlive := if configKeepAlive == 0 then KEEP_ALIVE_DEFAULT else configKeepAlive;
      keepAliveTimestamp := now;
      packetIdNext := 1;
      issued := 0;
      start, run := Connected(configKeepAlive, timeoutSec, now), [];
    }

    /** Notes the event that a method is about to carry out. */
    ghost method Happened(e: Event)
      requires Valid()
      modifies this`run
      ensures run == old(run) + [e] && Exec(start, run) == Apply(Abs(), e)
    {
      ExecStep(start, run, e);
      run := run + [e];
    }

    /** `mqtt_client_subscribe`: build, send, keep a copy, advance the packet id. The buffer
        of the calculated size is always enough, so that the build cannot fail. */
    method Subscribe(topic: array<byte>, topicLen: uint16, qos: byte, sendOk: bool, ghost time: int)
      returns (status: Status)
      requires Valid() && topicLen <= topic.Length
      modifies this, sendList.Repr
      ensures Valid() && fresh(sendList.Repr - old(sendList.Repr))
      ensures Abs() == DoSubscribe(old(Abs()), old(topic[..topicLen]), qos, sendOk)
      ensures run == old(run) + [Event.Subscribe(old(topic[..topicLen]), qos, sendOk, time)]
      ensures status == if topicLen == 0 then InvalidParam else if !sendOk then MessageSendError else Success
      ensures status != Success ==> Abs() == old(Abs())
      ensures status == Success ==>
                && sendList.contents ==
                   old(sendList.contents)
                   + [Entry(old(issued), old(packetIdNext),
                            TF.SubscribeFrame(old(packetIdNext), [TF.Filter(old(topic[..topicLen]), qos)]), qos, 0)]
                && packetIdNext == if old(packetIdNext) == 0xFFFF then 1 else old(packetIdNext) + 1
    {
      Happened(Event.Subscribe(topic[..topicLen], qos, sendOk, time));
      if topicLen == 0 {
        return InvalidParam;
      }
      var message, messageLen := BuildSubscribe(packetIdNext, topic, topicLen, qos);
      if !sendOk {
        return MessageSendError;
      }
      Keep(message, messageLen, qos);
      status := Success;
    }

    /** The end of `mqtt_client_subscribe`: the message goes into the queue under the next
        packet id, which then moves on past 0. */
    method Keep(message: array<byte>, messageLen: nat, qos: byte)
      requires sendList.Valid() && this !in sendList.Repr && messageLen <= message.Length
      modifies this`packetIdNext, this`issued, sendList, sendList.Repr
      ensures sendList.Valid() && this !in sendList.Repr && fresh(sendList.Repr - old(sendList.Repr))
      ensures Abs() == Stored(old(Abs()), old(message[..messageLen]), qos)
    {
      sendList.Add(packetIdNext, message, messageLen, qos, issued);
      packetIdNext := (packetIdNext as int + 1) % 0x1_0000;
      if packetIdNext == 0 {
        packetIdNext := 1;
      }
      issued := issued + 1;
    }

    /** `process_timer_event`. `now` and `stamp` are its two readings of the clock. */
    method TimerTick(readOk: bool, now: int, stamp: int, pingOk: bool) returns (status: Status, fired: seq<Node>)
      requires Valid()
      modifies this, sendList.Repr
      ensures Valid() && sendList.Repr == old(sendList.Repr)
      ensures Abs() == DoTick(old(Abs()), Tick(readOk, now, stamp, pingOk))
      ensures run == old(run) + [Tick(readOk, now, stamp, pingOk)]
      ensures status == if !readOk then TimerReadError
                        else if now - old(keepAliveTimestamp) >= old(keepAlive) && !pingOk then MessageSendError
                        else Success
      ensures Values(fired, if status == Success then Dead(old(sendList.contents), old(timeoutSec), now) else [])
      ensures status != Success ==> Abs() == old(Abs())
      ensures status == Success ==>
                && sendList.contents == Swept(old(sendList.contents), timeoutSec, now)
                && keepAliveTimestamp ==
                   if now - old(keepAliveTimestamp) >= old(keepAlive) then stamp else old(keepAliveTimestamp)
    {
      Happened(Tick(readOk, now, stamp, pingOk));
      fired := [];
      if !readOk {
        return TimerReadError, fired;
      }
      if now - keepAliveTimestamp >= keepAlive {
        if !pingOk {
          return MessageSendError, fired;
        }
        keepAliveTimestamp := stamp;
      }
      fired := SweepList(sendList, timeoutSec, now);
      status := Success;
    }

    /** `puback_msg_sent`: whether the id was in the queue does not matter to the caller. */
    method PubackSent(packetId: uint16, sendOk: bool) returns (status: Status)
      requires sendList.Valid() && (sendOk ==> sendList.contents != [])
      modifies sendList.Repr
      ensures sendList.Valid() && sendList.Repr == old(sendList.Repr)
      ensures sendList.contents ==
              if sendOk then RemoveFirst(old(sendList.contents), packetId) else old(sendList.contents)
      ensures status == if sendOk then Success else MessageSendError
    {
      if !sendOk {
        return MessageSendError;
      }
      var _, _ := sendList.Remove(packetId);
      status := Success;
    }

    /** `publish_msg_process`, with `puback_msg_sent` for QoS 1. */
    method InboundPublish(message: array<byte>, messageLen: uint32, sendOk: bool) returns (status: Status)
      requires Valid() && messageLen <= message.Length
      requires Defined(Abs(), Inbound(message[..messageLen], sendOk))
      modifies this, sendList.Repr
      ensures Valid() && sendList.Repr == old(sendList.Repr)
      ensures Abs() == DoInbound(old(Abs()), old(message[..messageLen]), sendOk)
      ensures run == old(run) + [Inbound(old(message[..messageLen]), sendOk)]
      ensures status == InboundStatus(old(message[..messageLen]), sendOk)
      ensures status != Success || old(message[0]) / 2 % 4 != 1 ==> Abs() == old(Abs())
    {
      Happened(Inbound(message[..messageLen], sendOk));
      P.PlacesDenote(message[..messageLen]);
      var p;
      status, p := P.PublishMessageParse(message, messageLen);
      if status != Success {
        return;
      }
      if p.qos == 1 {
        status := PubackSent(p.packetId, sendOk);
      } else if p.qos == 2 && !sendOk {
        status := MessageSendError;
      }
    }
  }

  /** Every client object is in a state that its run reaches from the CONNECT, so that the
      theorems of `Runs` hold of it: its queue is ordered, ids follow the allocation numbers
      and every stored message is the frame of its request; and its books are in order. */
  lemma ClientsAreTraced(c: Client)
    requires c.Valid()
    ensures Runs.Traced(c.Abs(), Runs.Requests(c.run))
    ensures Ledger.Books(c.Abs(),
                         Ledger.After(c.keepAlive, c.timeoutSec, c.start.timestamp, c.run), Runs.Requests(c.run))
  {
    Runs.RunTraced(c.start.keepAlive, c.start.timeoutSec, c.start.timestamp, c.run);
    Runs.ParametersKept(c.start, c.run);
    Ledger.RunBooks(c.start.keepAlive, c.start.timeoutSec, c.start.timestamp, c.run);
  }

  method BuildSubscribe(packetId: uint16, topic: array<byte>, topicLen: uint16, qos: byte)
    returns (message: array<byte>, messageLen: nat)
    requires topicLen <= topic.Length
    ensures fresh(message) && messageLen <= message.Length
    ensures message[..messageLen] == SubscribeMessage(packetId, topic[..topicLen], qos)
  {
    ghost var f := TF.Filter(topic[..topicLen], qos);
    var filter := new TF.FilterNode(topic, 0, topicLen, qos);
    SingleFilter(packetId, f);
    var _, size := TF.SubscribeMessageLenCalc(filter, [filter], [f]);
    message := new byte[size];
    var status;
    status, messageLen := TF.FilterMessageBuild(packetId, filter, message, size, true, [filter], [f]);
  }

  /** The size calculated for one filter is enough for its message. */
  lemma SingleFilter(packetId: uint16, f: TF.Filter)
    ensures |TF.Body(packetId, [f], true)| == |f.topic| + 5
    ensures |TF.SubscribeFrame(packetId, [f])| <= 7 + TF.FiltersSize([f], true) < 0x1_0000_0000
  {
    TF.FiltersSizeExact([f], true);
    assert [f][1..] == [];
    TF.SubscribeCalcEnough(packetId, [f]);
  }
}
