/** The client's state machine: src/client/client.c, src/client/client_deamon.c and
    src/client/client_message_process.c as steps on values. */
module Session {
  import opened Bytes
  import opened Entries
  import TopicFilters
  import Publish

  const KEEP_ALIVE_DEFAULT: uint16 := 60

  /** `issued` counts the packet ids handed out; the code keeps no such counter. */
  datatype State = State(entries: seq<Entry>, issued: nat, packetIdNext: uint16,
                         keepAlive: uint16, timeoutSec: uint16, timestamp: int)

  /** Each send is an oracle: `sendOk` and `pingOk` say whether the network took it. `readOk`
      says whether the timer descriptor could be read. A tick reads the clock as `now` and,
      after a ping, again as `stamp`. The time of a subscription is only there to be talked
      about: the code does not look at the clock then. */
  datatype Event =
    | Subscribe(topic: str16, qos: byte, sendOk: bool, time: int)
    | Tick(readOk: bool, now: int, stamp: int, pingOk: bool)
    | Inbound(frame: seq<byte>, sendOk: bool)

  /** Just after a CONNECT was accepted. */
  function Connected(keepAlive: uint16, timeoutSec: uint16, now: int): State {
    State([], 0, 1, if keepAlive == 0 then KEEP_ALIVE_DEFAULT else keepAlive, timeoutSec, now)
  }

  /** The 16-bit increment that skips 0. */
  function NextId(id: uint16): uint16 {
    if (id as int + 1) % 0x1_0000 == 0 then 1 else (id as int + 1) % 0x1_0000
  }

  function SubscribeMessage(packetId: uint16, topic: str16, qos: byte): seq<byte> {
    TopicFilters.SubscribeFrame(packetId, [TopicFilters.Filter(topic, qos)])
  }

  /** `message` is in the queue under the next packet id. */
  function Stored(s: State, message: seq<byte>, qos: byte): State {
    s.(entries := s.entries + [Entry(s.issued, s.packetIdNext, message, qos, 0)],
       issued := s.issued + 1, packetIdNext := NextId(s.packetIdNext))
  }

  function DoSubscribe(s: State, topic: str16, qos: byte, sendOk: bool): State {
    if topic == [] || !sendOk then s
    else Stored(s, SubscribeMessage(s.packetIdNext, topic, qos), qos)
  }

  predicate PingDue(s: State, now: int) {
    now - s.timestamp >= s.keepAlive
  }

  /** A failed read or a failed ping ends the step before the sweep. */
  predicate Sweeps(s: State, e: Event) {
    e.Tick? && e.readOk && (PingDue(s, e.now) ==> e.pingOk)
  }

  function DoTick(s: State, e: Event): State
    requires e.Tick?
  {
    if !Sweeps(s, e) then s
    else s.(timestamp := if PingDue(s, e.now) then e.stamp else s.timestamp,
            entries := Swept(s.entries, s.timeoutSec, e.now))
  }

  /** The id that an inbound packet acknowledges, for a PUBLISH of QoS 1. */
  function AckedId(frame: seq<byte>): Option<uint16> {
    match Publish.ParsePublish(frame)
    case Ok(p) => if p.qos == 1 then Some(p.packetId) else None
    case Err(_) => None
    case Undefined => None
  }

  /** The return code of `publish_msg_process`. */
  function InboundStatus(frame: seq<byte>, sendOk: bool): Status {
    match Publish.ParsePublish(frame)
    case Ok(p) => if p.qos > 0 && !sendOk then MessageSendError else Success
    case Err(e) => e
    case Undefined => Unknown
  }

  function DoInbound(s: State, frame: seq<byte>, sendOk: bool): State {
    match AckedId(frame)
    case Some(id) => if sendOk then s.(entries := RemoveFirst(s.entries, id)) else s
    case None => s
  }

  function Apply(s: State, e: Event): State {
    match e
    case Subscribe(topic, qos, sendOk, _) => DoSubscribe(s, topic, qos, sendOk)
    case Tick(_, _, _, _) => DoTick(s, e)
    case Inbound(frame, sendOk) => DoInbound(s, frame, sendOk)
  }

  /** The steps on which the C code is defined: an acknowledged packet id is looked up through
      the head of the list, so the list must not be empty. */
  predicate Defined(s: State, e: Event) {
    e.Inbound? ==>
      && !Publish.ParsePublish(e.frame).Undefined?
      && (AckedId(e.frame).Some? && e.sendOk ==> s.entries != [])
  }

  // ---------- what each step keeps ----------

  /** A ping that could not be sent stays due at every later reading, and no entry expires. */
  lemma MissedPing(s: State, now: int, stamp: int, later: int)
    requires now >= s.timestamp + s.keepAlive && now <= later
    ensures var t := Apply(s, Tick(true, now, stamp, false)); t == s && PingDue(t, later)
  {
  }

  /** Every packet that a PUBLISH builder accepts: only QoS 1 with a sent PUBACK removes an entry,
      the first with its id. The step succeeds unless an acknowledgement could not be sent. */
  lemma InboundOfBuilt(s: State, p: Publish.Publication, sendOk: bool)
    requires Publish.Buildable(p)
    ensures DoInbound(s, Publish.Written(p), sendOk) ==
            if p.qos == 1 && sendOk then s.(entries := RemoveFirst(s.entries, p.packetId)) else s
    ensures InboundStatus(Publish.Written(p), sendOk) == if p.qos > 0 && !sendOk then MessageSendError else Success
  {
    Publish.PublishRoundTrip(p, []);
    assert Publish.Written(p) + [] == Publish.Written(p);
  }

  /** Any frame: without the QoS bits 01, or without a sent PUBACK, nothing changes; with them the
      first entry with the frame's id goes, if the frame is accepted at all. */
  lemma InboundStep(s: State, frame: seq<byte>, sendOk: bool)
    ensures frame == [] || frame[0] / 2 % 4 != 1 || !sendOk || !Publish.ParsePublish(frame).Ok? ==>
              DoInbound(s, frame, sendOk) == s
    ensures frame != [] && frame[0] / 2 % 4 == 1 && sendOk && Publish.ParsePublish(frame).Ok? ==>
              DoInbound(s, frame, sendOk) ==
              s.(entries := RemoveFirst(s.entries, Publish.ParsePublish(frame).value.packetId))
    ensures match Publish.ParsePublish(frame)
            case Ok(p) => InboundStatus(frame, sendOk) == if p.qos > 0 && !sendOk then MessageSendError else Success
            case Err(e) => InboundStatus(frame, sendOk) == e
            case Undefined => true
  {
  }

  function Exec(s: State, run: seq<Event>): State {
    if run == [] then s else Apply(Exec(s, run[..|run| - 1]), run[|run| - 1])
  }

  lemma ExecStep(s: State, run: seq<Event>, e: Event)
    ensures Exec(s, run + [e]) == Apply(Exec(s, run), e)
  {
    assert (run + [e])[..|run|] == run;
  }

  lemma {:induction false} ExecConcat(s: State, a: seq<Event>, b: seq<Event>)
    ensures Exec(s, a + b) == Exec(Exec(s, a), b)
  {
    if b == [] {
      assert a + b == a;
    } else {
      var front, e := b[..|b| - 1], b[|b| - 1];
      ExecConcat(s, a, front);
      ExecStep(s, a + front, e);
      ExecStep(Exec(s, a), front, e);
      assert front + [e] == b;
      Assoc(a, front, [e]);
    }
  }
}
