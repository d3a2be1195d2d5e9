/** What the builders write, sent back to back, splits into what was built. */
module Streams {
  import opened Bytes
  import opened Message
  import opened Framing
  import Connect
  import TF = TopicFilters
  import Publish
  import Suback

  datatype Built =
    | BuiltConnect(c: Connect.Connection)
    | BuiltSubscribe(packetId: uint16, filters: seq<TF.Filter>)
    | BuiltUnsubscribe(packetId: uint16, filters: seq<TF.Filter>)
    | BuiltPublish(p: Publish.Publication)
    | BuiltSuback(packetId: uint16, codes: seq<byte>)

  /** The builder accepts it, and its Remaining Length is not cut off. */
  predicate Buildable(b: Built) {
    match b
    case BuiltConnect(c) => c.Buildable()
    case BuiltSubscribe(id, fs) => fs != [] && |TF.Body(id, fs, true)| < MAX_BODY
    case BuiltUnsubscribe(id, fs) => fs != [] && |TF.Body(id, fs, false)| < MAX_BODY
    case BuiltPublish(p) => Publish.Buildable(p) && |Publish.Body(p)| <= 0xFFFF
    case BuiltSuback(_, codes) => |codes| <= 0xFFFF && forall c <- codes :: c in {0, 1, 2, 0x80}
  }

  /** The bytes that each builder's contract promises. */
  function BytesOf(b: Built): seq<byte>
    requires Buildable(b)
  {
    match b
    case BuiltConnect(c) => Connect.ConnectFrame(c)
    case BuiltSubscribe(id, fs) => TF.SubscribeFrame(id, fs)
    case BuiltUnsubscribe(id, fs) => TF.UnsubscribeFrame(id, fs)
    case BuiltPublish(p) => Publish.Written(p)
    case BuiltSuback(id, codes) => Suback.SubackFrame(id, codes)
  }

  /** The control packet types of section 2.2.1 of MQTT 3.1.1. */
  function TypeOf(b: Built): byte {
    match b
    case BuiltConnect(_) => 1
    case BuiltPublish(_) => 3
    case BuiltSubscribe(_, _) => 8
    case BuiltSuback(_, _) => 9
    case BuiltUnsubscribe(_, _) => 10
  }

  function BuiltStream(bs: seq<Built>): seq<byte>
    requires forall b <- bs :: Buildable(b)
  {
    if bs == [] then [] else BytesOf(bs[0]) + BuiltStream(bs[1..])
  }

  function PiecesOf(bs: seq<Built>): seq<Piece>
    requires forall b <- bs :: Buildable(b)
  {
    if bs == [] then [] else [Piece(TypeOf(bs[0]), BytesOf(bs[0]))] + PiecesOf(bs[1..])
  }

  lemma IsPacket(b: Built) returns (p: Packet)
    requires Buildable(b)
    ensures Sendable(p) && Wire(p) == BytesOf(b) && p.first / 16 == TypeOf(b)
  {
    match b
    case BuiltConnect(c) =>
      Connect.ConnectSizes(c);
      p := Packet(Connect.CONNECT_FIRST, Connect.Body(c));
    case BuiltSubscribe(id, fs) => p := Packet(TF.SUBSCRIBE_FIRST, TF.Body(id, fs, true));
    case BuiltUnsubscribe(id, fs) => p := Packet(TF.UNSUBSCRIBE_FIRST, TF.Body(id, fs, false));
    case BuiltPublish(q) =>
      Publish.PublishFramedIff(q);
      Publish.FirstByteFields(q);
      p := Packet(Publish.FirstByte(q.dup, q.qos, q.retain), Publish.Body(q));
    case BuiltSuback(id, codes) => p := Packet(Suback.SUBACK_FIRST, Be16(id) + codes);
  }

  lemma {:induction false} ArePackets(bs: seq<Built>) returns (ps: seq<Packet>)
    requires forall b <- bs :: Buildable(b)
    ensures forall p <- ps :: Sendable(p)
    ensures Stream(ps) == BuiltStream(bs) && Pieces(ps) == PiecesOf(bs)
  {
    ps := [];
    if bs == [] {
    } else {
      var p := IsPacket(bs[0]);
      var rest := ArePackets(bs[1..]);
      ps := [p] + rest;
      assert ps[1..] == rest;
    }
  }

  /** Splitting the concatenation of any list of built packets recovers exactly that list, with
      the right types. */
  lemma BuiltPacketsSplit(bs: seq<Built>)
    requires forall b <- bs :: Buildable(b)
    ensures Split(BuiltStream(bs)) == (PiecesOf(bs), [])
  {
    var ps := ArePackets(bs);
    SplitStream(ps);
  }

  /** The fixed header of a built packet announces exactly the packet's length, from its first
      min(5, length) bytes alone. */
  lemma BuiltHeader(b: Built, buffer: seq<byte>, received: nat)
    requires Buildable(b)
    requires var k := if |BytesOf(b)| <= 5 then |BytesOf(b)| else 5;
             k <= received && k <= |buffer| && buffer[..k] == BytesOf(b)[..k]
    ensures FixedHeader(buffer, received).messageLen == |BytesOf(b)|
    ensures FixedHeader(buffer, received).messageType == TypeOf(b)
  {
    var p := IsPacket(b);
    HeaderOfPrefix(p, buffer, received);
  }

  // One packet of each kind, byte by byte: the order of fields and the constants on the wire.

  lemma SubscribeOnTheWire()
    ensures TF.SubscribeFrame(10, [TF.Filter([0x61, 0x2F], 1)]) == [0x80, 7, 0, 10, 0, 2, 0x61, 0x2F, 1]
    ensures TF.UnsubscribeFrame(10, [TF.Filter([0x61, 0x2F], 1)]) == [0xA0, 6, 0, 10, 0, 2, 0x61, 0x2F]
  {
    var f := TF.Filter([0x61, 0x2F], 1);
    assert [f][1..] == [];
    assert TF.FiltersBytes([f], true) == TF.FilterBytes(f, true) == [0, 2, 0x61, 0x2F, 1];
    assert TF.FiltersBytes([f], false) == TF.FilterBytes(f, false) == [0, 2, 0x61, 0x2F];
  }

  lemma PublishAndSubackOnTheWire()
    ensures Suback.SubackFrame(258, [0, 1, 2, 0x80]) == [0x90, 6, 1, 2, 0, 1, 2, 0x80]
    ensures Publish.Written(Publish.Publication(1, 1, 1, [0x61], 10, [7])) == [0x3B, 6, 0, 1, 0x61, 0, 10, 7]
  {
  }

  /** The fields of section 3.1.3 of MQTT 3.1.1 in its order, behind the flags of section 3.1.2. */
  lemma ConnectOnTheWire(c: Connect.Connection)
    requires c.clientId.Ptr? && c.HasWill() && c.HasPassword()
    requires c.cleanSession == 1 && c.willRetain == 1 && c.willQos == 2 && c.keepAlive == 60
    ensures Connect.Body(c) ==
            [0, 4, 0x4D, 0x51, 0x54, 0x54, 4, 0xF6, 0, 60]
            + (Str(c.clientId.s) + (Str(c.willTopic.s) + (Str(c.willMsg.s)
               + (Str(c.username.s) + Str(c.password.s)))))
  {
    Connect.FourSlots(Connect.SlotsOf(c), Connect.Optionals(c));
    assert Str(c.password.s) + [] == Str(c.password.s);
    assert Connect.VarHeader(Connect.Flags(c), 60) == [0, 4, 0x4D, 0x51, 0x54, 0x54, 4, 0xF6, 0, 60];
  }
}
