/** src/message/msg_publish.c. */
module Publish {
  import opened Bytes
  import opened Message

  datatype Publication = Publication(dup: byte, qos: byte, retain: byte,
                                     topic: str16, packetId: uint16, payload: seq<byte>)

  // ---------- bytes ----------

  function FirstByte(dup: byte, qos: byte, retain: byte): byte
    requires qos <= 2
  {
    0x30 + (if dup != 0 then 8 else 0) + 2 * qos as int + (if retain != 0 then 1 else 0)
  }

  function Body(p: Publication): (s: seq<byte>) {
    Str(p.topic) + (if p.qos > 0 then Be16(p.packetId) else []) + p.payload
  }

  /** What the builder writes: its Remaining Length is summed in 16 bits. */
  function Written(p: Publication): seq<byte>
    requires p.qos <= 2
  {
    [FirstByte(p.dup, p.qos, p.retain)] + EncodeLength(|Body(p)| % 0x1_0000) + Body(p)
  }

  /** What the builder accepts: a valid QoS and a topic that is not empty. */
  predicate Buildable(p: Publication) {
    p.qos <= 2 && p.topic != []
  }

  /** Flags come back as 0 or 1, and a QoS 0 packet carries no packet id. */
  function Sent(p: Publication): Publication {
    p.(dup := if p.dup != 0 then 1 else 0,
       retain := if p.retain != 0 then 1 else 0,
       packetId := if p.qos > 0 then p.packetId else 0)
  }

  /** The part of the parser behind the Remaining Length. The payload is everything up to
      the end of the buffer. */
  function ParseRest(first: byte, rest: seq<byte>): Parsed<Publication> {
    var qos := first / 2 % 4;
    if |rest| < 2 || |rest| < 2 + StrLen(rest) then Undefined
    else
      var topic, after := rest[2..2 + StrLen(rest)], rest[2 + StrLen(rest)..];
      if qos == 0 then Ok(Publication(first / 8 % 2, 0, first % 2, topic, 0, after))
      else if |after| < 2 then Undefined
      else Ok(Publication(first / 8 % 2, qos, first % 2, topic, FromBe16(after), after[2..]))
  }

  /** When the length field runs past the message, the remaining count wraps to a huge number
      and the code reads outside the frame. */
  function ParsePublish(m: seq<byte>): Parsed<Publication> {
    if m == [] then Err(InvalidParam)
    else if m[0] / 16 != 3 then Err(MessageTypeError)
    else if m[0] / 2 % 4 == 3 then Err(PublishQosError)
    else
      var d := RemainLength(m);
      if |m| < 1 + d.used then Undefined
      else if d.length > |m| - 1 - d.used then Err(PublishMessageError)
      else ParseRest(m[0], m[1 + d.used..])
  }

  /** What the parser hands out: flags, id, and where topic and payload are in the buffer. */
  datatype Places = Places(dup: byte, qos: byte, retain: byte, topic: nat, topicLen: nat,
                           packetId: uint16, payload: nat, payloadLen: nat)

  /** Without a packet id the parser only moves pointers behind the topic's length prefix: it
      succeeds even when the topic runs past the frame, with a payload length that has wrapped. */
  function LocateRest(first: byte, m: seq<byte>, start: nat): Parsed<Places>
    requires start <= |m|
  {
    if |m| < start + 2 then Undefined
    else
      var topicLen := StrLen(m[start..]);
      var after := start + 2 + topicLen;
      if first / 2 % 4 == 0 then
        Ok(Places(first / 8 % 2, 0, first % 2, start + 2, topicLen, 0, after, (|m| - after) % 0x1_0000_0000))
      else if |m| < after + 2 then Undefined
      else Ok(Places(first / 8 % 2, first / 2 % 4, first % 2, start + 2, topicLen,
                     FromBe16(m[after..]), after + 2, |m| - after - 2))
  }

  function ParsePlaces(m: seq<byte>): Parsed<Places> {
    if m == [] then Err(InvalidParam)
    else if m[0] / 16 != 3 then Err(MessageTypeError)
    else if m[0] / 2 % 4 == 3 then Err(PublishQosError)
    else
      var d := RemainLength(m);
      if |m| < 1 + d.used then Undefined
      else if d.length > |m| - 1 - d.used then Err(PublishMessageError)
      else LocateRest(m[0], m, 1 + d.used)
  }

  /** The places lie inside the frame. */
  predicate Inside(p: Places, m: seq<byte>) {
    p.topic + p.topicLen <= |m| && p.topicLen < 0x1_0000 && p.payload <= |m|
  }

  function Denoted(p: Places, m: seq<byte>): Publication
    requires Inside(p, m)
  {
    Publication(p.dup, p.qos, p.retain, m[p.topic..p.topic + p.topicLen], p.packetId, m[p.payload..])
  }

  /** The places `r` stand for the outcome `q`. Where they leave the frame, which takes a QoS 0
      packet whose topic runs past it, they stand for nothing in it, and the payload's length
      has wrapped. */
  predicate Denote(r: Parsed<Places>, m: seq<byte>, q: Parsed<Publication>) {
    match r
    case Ok(p) =>
      && p.payload == p.topic + p.topicLen + (if p.qos > 0 then 2 else 0)
      && p.payloadLen == (|m| - p.payload) % 0x1_0000_0000
      && if Inside(p, m) then q == Ok(Denoted(p, m))
         else q.Undefined? && p.qos == 0 && 2 <= p.topic <= |m| && p.topicLen == StrLen(m[p.topic - 2..])
    case Err(e) => q == Err(e)
    case Undefined => q.Undefined?
  }

  lemma RestDenotes(first: byte, m: seq<byte>, start: nat)
    requires start <= |m| < 0x1_0000_0000
    ensures Denote(LocateRest(first, m, start), m, ParseRest(first, m[start..]))
  {
    if |m| >= start + 2 {
      var rest := m[start..];
      var n := StrLen(rest);
      if |rest| >= n + 2 {
        Slice(m, start, start + 2, |m|);
        assert rest[2..2 + n] == m[start + 2..start + 2 + n];
        assert rest[2 + n..] == m[start + 2 + n..];
        assert |m| >= start + n + 4 ==> m[start + 2 + n..][2..] == m[start + n + 4..];
      }
    }
  }

  lemma PlacesDenote(m: seq<byte>)
    requires |m| < 0x1_0000_0000
    ensures Denote(ParsePlaces(m), m, ParsePublish(m))
  {
    if m != [] {
      var d := RemainLength(m);
      if |m| >= 1 + d.used {
        RestDenotes(m[0], m, 1 + d.used);
      }
    }
  }

  // ---------- build, then parse ----------

  lemma FirstByteFields(p: Publication)
    requires p.qos <= 2
    ensures var b := FirstByte(p.dup, p.qos, p.retain);
            && b / 16 == 3 && b / 2 % 4 == p.qos
            && b / 8 % 2 == Sent(p).dup && b % 2 == Sent(p).retain
  {
  }

  lemma RestRoundTrip(p: Publication, extra: seq<byte>)
    requires p.qos <= 2
    ensures ParseRest(FirstByte(p.dup, p.qos, p.retain), Body(p) + extra) ==
            Ok(Sent(p).(payload := p.payload + extra))
  {
    FirstByteFields(p);
    var id := if p.qos > 0 then Be16(p.packetId) else [];
    var tail := p.payload + extra;
    assert Body(p) + extra == Str(p.topic) + (id + tail);
    StrRoundTrip(p.topic, id + tail);
    if p.qos > 0 {
      Be16RoundTrip(p.packetId, tail);
      assert (id + tail)[2..] == tail;
    } else {
      assert id + tail == tail;
    }
  }

  lemma LengthOfWritten(p: Publication, extra: seq<byte>)
    requires p.qos <= 2
    ensures var m, n := Written(p) + extra, |Body(p)| % 0x1_0000;
            && RemainLength(m) == Decoded(n, |EncodeLength(n)|)
            && m[1 + |EncodeLength(n)|..] == Body(p) + extra
            && m[0] == FirstByte(p.dup, p.qos, p.retain)
  {
    var m, n := Written(p) + extra, |Body(p)| % 0x1_0000;
    var e := EncodeLength(n);
    LengthRoundTrip(n, Body(p) + extra);
    assert m == [m[0]] + (e + (Body(p) + extra));
    assert m[1..] == e + (Body(p) + extra);
    assert m[1..][|e|..] == Body(p) + extra;
  }

  lemma ParseOpened(m: seq<byte>, d: Decoded, rest: seq<byte>)
    requires m != [] && m[0] / 16 == 3 && m[0] / 2 % 4 != 3
    requires d == RemainLength(m) && 1 + d.used <= |m| && rest == m[1 + d.used..] && d.length <= |rest|
    ensures ParsePublish(m) == ParseRest(m[0], rest)
  {
  }

  lemma PublishParsesTo(p: Publication, extra: seq<byte>)
    requires p.qos <= 2
    ensures ParsePublish(Written(p) + extra) == Ok(Sent(p).(payload := p.payload + extra))
  {
    LengthOfWritten(p, extra);
    FirstByteFields(p);
    var n := |Body(p)| % 0x1_0000;
    ParseOpened(Written(p) + extra, Decoded(n, |EncodeLength(n)|), Body(p) + extra);
    RestRoundTrip(p, extra);
  }

  /** Parsing gives back every field, whatever the size; bytes behind the frame end up in
      the payload, so the payload is right exactly when there are none. */
  lemma PublishRoundTrip(p: Publication, extra: seq<byte>)
    requires Buildable(p)
    ensures ParsePublish(Written(p) + extra) == Ok(Sent(p).(payload := p.payload + extra))
    ensures ParsePublish(Written(p) + extra) == Ok(Sent(p)) <==> extra == []
  {
    PublishParsesTo(p, extra);
    NothingAdded(p.payload, extra);
  }

  lemma NothingAdded(s: seq<byte>, extra: seq<byte>)
    ensures s + extra == s <==> extra == []
  {
    assert |s + extra| == |s| + |extra|;
  }

  /** The fixed header announces the frame's real size exactly when the body fits 16 bits. */
  lemma PublishFramedIff(p: Publication)
    requires Buildable(p)
    ensures FixedHeader(Written(p), |Written(p)|).messageLen == |Written(p)| <==> |Body(p)| <= 0xFFFF
    ensures |Body(p)| <= 0xFFFF ==> Written(p) == Frame(FirstByte(p.dup, p.qos, p.retain), Body(p))
  {
    var m, n := Written(p), |Body(p)| % 0x1_0000;
    LengthOfWritten(p, []);
    assert m + [] == m;
    BodyFitsFour(n);
    HeaderOfWhole(m);
  }

  /** The builder leaves the packet id byte-swapped; building again with what is left sends
      the right id exactly when its two bytes are equal. */
  lemma RebuildWithLeftoverIdIff(p: Publication)
    requires Buildable(p) && p.qos > 0
    ensures ParsePublish(Written(p.(packetId := Swap16(p.packetId)))) == Ok(Sent(p)) <==>
            p.packetId / 256 == p.packetId % 256
    ensures ParsePublish(Written(p.(packetId := Swap16(p.packetId)))) ==
            Ok(Sent(p).(packetId := p.packetId % 256 * 256 + p.packetId / 256))
  {
    var q := p.(packetId := Swap16(p.packetId));
    WholeParses(q);
    assert Sent(q) == Sent(p).(packetId := q.packetId);
    assert q.packetId == p.packetId <==> p.packetId / 256 == p.packetId % 256;
  }

  lemma WholeParses(p: Publication)
    requires Buildable(p)
    ensures ParsePublish(Written(p)) == Ok(Sent(p))
  {
    PublishRoundTrip(p, []);
    assert Written(p) + [] == Written(p);
  }

  /** 65533 payload bytes behind a one-letter topic make the 16-bit sum wrap to 0: the header
      announces a packet of two bytes. */
  lemma PublishWraps()
    ensures var p := Publication(0, 0, 0, [0x61], 0, seq(65533, _ => 0));
            FixedHeader(Written(p), |Written(p)|).messageLen == 2 && |Written(p)| == 65538
  {
    var p := Publication(0, 0, 0, [0x61], 0, seq(65533, _ => 0));
    assert |Body(p)| == 65536;
    LengthOfWritten(p, []);
    assert Written(p) + [] == Written(p);
    HeaderOfWhole(Written(p));
  }

  /** Packet id 1 goes out as 1 the first time and as 256 the second time. */
  lemma LeftoverIdExample()
    ensures var p := Publication(0, 1, 0, [0x61], 1, []);
            var again := p.(packetId := Swap16(p.packetId));
            && ParsePublish(Written(p)) == Ok(p)
            && ParsePublish(Written(again)) == Ok(p.(packetId := 256))
  {
    var p := Publication(0, 1, 0, [0x61], 1, []);
    var again := p.(packetId := 256);
    PublishRoundTrip(p, []);
    PublishRoundTrip(again, []);
    assert Written(p) + [] == Written(p);
    assert Written(again) + [] == Written(again);
  }

  // ---------- parse, then build ----------

  lemma FirstByteAgain(first: byte)
    requires first / 16 == 3 && first / 2 % 4 != 3
    ensures FirstByte(first / 8 % 2, first / 2 % 4, first % 2) == first
  {
  }

  lemma RestAgain(first: byte, rest: seq<byte>)
    requires ParseRest(first, rest).Ok?
    ensures Body(ParseRest(first, rest).value) == rest
  {
    StrAgain(rest);
    var p, after := ParseRest(first, rest).value, rest[2 + StrLen(rest)..];
    if p.qos > 0 {
      FromBe16RoundTrip(after);
      assert after == Be16(p.packetId) + p.payload;
      Assoc(Str(p.topic), Be16(p.packetId), p.payload);
    } else {
      assert Body(p) == Str(p.topic) + p.payload;
    }
  }

  lemma WrittenAgainIff(m: seq<byte>)
    requires ParsePublish(m).Ok?
    ensures var d := RemainLength(m);
            && ParsePublish(m).value.qos <= 2
            && (Written(ParsePublish(m).value) == m <==>
                MinimalLength(m) && d.length == (|m| - 1 - d.used) % 0x1_0000)
  {
    var p, d := ParsePublish(m).value, RemainLength(m);
    var rest := m[1 + d.used..];
    RestAgain(m[0], rest);
    FirstByteAgain(m[0]);
    var n := |rest| % 0x1_0000;
    MiddleIff(m, EncodeLength(n), 1 + d.used);
    assert Written(p) == [m[0]] + EncodeLength(n) + rest;
    LengthFieldIs(m, n);
  }

  /** The builder accepts what was parsed and writes the same bytes exactly when the topic is
      not empty, the length field is minimal and is the body's size modulo 2^16. */
  lemma PublishRebuildIff(m: seq<byte>)
    requires ParsePublish(m).Ok?
    ensures var p, d := ParsePublish(m).value, RemainLength(m);
            Buildable(p) && Written(p) == m <==>
            p.topic != [] && MinimalLength(m) && d.length == (|m| - 1 - d.used) % 0x1_0000
  {
    WrittenAgainIff(m);
  }

  /** The parser accepts an empty topic, which the builder refuses. */
  lemma EmptyTopicExample()
    ensures ParsePublish([0x30, 2, 0, 0]) == Ok(Publication(0, 0, 0, [], 0, []))
    ensures !Buildable(Publication(0, 0, 0, [], 0, []))
  {
    var m: seq<byte> := [0x30, 2, 0, 0];
    assert m[1..] == [2, 0, 0];
    assert m[2..] == [0, 0];
    assert RemainLength(m) == Decoded(2, 1);
    assert [0 as byte, 0][2..2] == [] && [0 as byte, 0][2..] == [];
  }

  // ---------- the code ----------

  lemma WrittenParts(p: Publication)
    requires p.qos <= 2
    ensures Written(p) == [FirstByte(p.dup, p.qos, p.retain)] + EncodeLength(|Body(p)| % 0x1_0000)
                          + Str(p.topic) + (if p.qos > 0 then Be16(p.packetId) else []) + p.payload
  {
    var head := [FirstByte(p.dup, p.qos, p.retain)] + EncodeLength(|Body(p)| % 0x1_0000);
    var id := if p.qos > 0 then Be16(p.packetId) else [];
    Assoc(head, Str(p.topic) + id, p.payload);
    Assoc(head, Str(p.topic), id);
  }

  method TypeWithFlags(dup: byte, qos: byte, retain: byte) returns (b: byte)
    requires qos <= 2
    ensures b == FirstByte(dup, qos, retain)
  {
    var flags: int := 0x30;
    if dup != 0 {
      flags := flags + 8;
    }
    if retain != 0 {
      flags := flags + 1;
    }
    if qos == 1 {
      flags := flags + 2;
    } else if qos == 2 {
      flags := flags + 4;
    }
    b := flags;
  }

  /** The Remaining Length as the code adds it up, in a `uint16_t`. */
  method RemainLen16(topicLen: nat, qos: byte, payloadLen: nat) returns (remainLen: nat)
    ensures remainLen == (topicLen + 2 + (if qos > 0 then 2 else 0) + payloadLen) % 0x1_0000
  {
    remainLen := (topicLen + 2) % 0x1_0000;
    if qos > 0 {
      remainLen := (remainLen + 2) % 0x1_0000;
    }
    remainLen := (remainLen + payloadLen) % 0x1_0000;
  }

  /** `publish_message_build`. The buffer must hold what is really written, which the code's
      own check guarantees only for bodies of up to 65535 bytes. */
  method PublishMessageBuild(dup: byte, qos: byte, retain: byte, topic: str16, packetId: Option<uint16>,
                             payload: seq<byte>, message: array<byte>, bufferLen: uint32)
    returns (status: Status, messageLen: nat, packetId': Option<uint16>)
    requires bufferLen <= message.Length
    requires qos <= 2 ==>
               var p := Publication(dup, qos, retain, topic, packetId.GetOr(0), payload);
               var n := |Body(p)| % 0x1_0000;
               bufferLen < 1 + |EncodeLength(n)| + n || |Written(p)| <= message.Length
    modifies message
    ensures var p := Publication(dup, qos, retain, topic, packetId.GetOr(0), payload);
            var n := |Body(p)| % 0x1_0000;
            status == if qos > 2 || topic == [] || (qos > 0 && packetId.None?) then InvalidParam
                      else if bufferLen < 1 + |EncodeLength(n)| + n then NoBuffer
                      else Success
    ensures status == Success ==>
              var p := Publication(dup, qos, retain, topic, packetId.GetOr(0), payload);
              && messageLen == |Written(p)| && message[..messageLen] == Written(p)
              && (forall j :: messageLen <= j < message.Length ==> message[j] == old(message[j]))
              && packetId' == if qos > 0 then Some(Swap16(packetId.value)) else packetId
    ensures status != Success ==>
              messageLen == bufferLen && packetId' == packetId && message[..] == old(message[..])
  {
    messageLen, packetId' := bufferLen, packetId;
    if |topic| == 0 || qos >= 3 {
      return InvalidParam, messageLen, packetId';
    }
    if qos > 0 && packetId.None? {
      return InvalidParam, messageLen, packetId';
    }
    ghost var p := Publication(dup, qos, retain, topic, packetId.GetOr(0), payload);
    var typeWithFlags := TypeWithFlags(dup, qos, retain);
    var remainLen := RemainLen16(|topic|, qos, |payload|);
    assert remainLen == |Body(p)| % 0x1_0000;
    var encoded := EncodeField(remainLen);
    if bufferLen < 1 + |encoded| + remainLen {
      return NoBuffer, messageLen, packetId';
    }
    WrittenParts(p);
    messageLen, packetId' := EmitPublish(typeWithFlags, encoded, topic, qos, packetId, payload, message);
    status := Success;
  }

  /** The writing half of the builder. */
  method EmitPublish(first: byte, encoded: seq<byte>, topic: str16, qos: byte, packetId: Option<uint16>,
                     payload: seq<byte>, message: array<byte>)
    returns (messageLen: nat, packetId': Option<uint16>)
    requires qos > 0 ==> packetId.Some?
    requires 1 + |encoded| + |topic| + 2 + (if qos > 0 then 2 else 0) + |payload| <= message.Length
    modifies message
    ensures messageLen == 1 + |encoded| + |topic| + 2 + (if qos > 0 then 2 else 0) + |payload|
    ensures message[..messageLen] ==
            [first] + encoded + Str(topic) + (if qos > 0 then Be16(packetId.value) else []) + payload
    ensures forall j :: messageLen <= j < message.Length ==> message[j] == old(message[j])
    ensures packetId' == if qos > 0 then Some(Swap16(packetId.value)) else packetId
  {
    messageLen := PutHeader(message, first, encoded);
    var fieldLen := BuildStringField(topic, message, messageLen);
    messageLen := messageLen + fieldLen;
    packetId' := packetId;
    if qos > 0 {
      packetId' := Some(Swap16(packetId.value));
      Copy(message, messageLen, Be16(packetId.value));
      messageLen := messageLen + 2;
    } else {
      assert message[..messageLen] + [] == message[..messageLen];
    }
    Copy(message, messageLen, payload);
    messageLen := messageLen + |payload|;
  }

  /** The type, QoS and length checks. */
  method OpenPublish(message: array<byte>, messageLen: uint32)
    returns (status: Status, first: byte, start: nat)
    requires 1 <= messageLen <= message.Length
    requires !ParsePlaces(message[..messageLen]).Undefined?
    ensures first == message[0]
    ensures status == Success ==>
              && start <= messageLen && first / 2 % 4 != 3
              && ParsePlaces(message[..messageLen]) == LocateRest(first, message[..messageLen], start)
    ensures status != Success ==> ParsePlaces(message[..messageLen]) == Err(status)
  {
    first, start := message[0], 0;
    if first / 16 != 3 {
      status := MessageTypeError;
      return;
    }
    if first / 2 % 2 == 1 && first / 4 % 2 == 1 {
      status := PublishQosError;
      return;
    }
    var remainLen, fieldLen := RemainLengthDecode(message, 1, messageLen - 1);
    ghost var m, avail := message[..messageLen], messageLen - 1;
    assert message[1..1 + if avail <= 4 then avail else 4] == Limit(m[1..]);
    if remainLen > messageLen - 1 - fieldLen {
      status := PublishMessageError;
      return;
    }
    status, start := Success, 1 + fieldLen;
  }

  method QosBits(first: byte) returns (qos: byte)
    requires first / 2 % 4 != 3
    ensures qos == first / 2 % 4
  {
    if first / 4 % 2 == 1 {
      qos := 2;
    } else if first / 2 % 2 == 1 {
      qos := 1;
    } else {
      qos := 0;
    }
  }

  method LocateRestAt(message: array<byte>, start: nat, end: nat, first: byte) returns (p: Places)
    requires start <= end <= message.Length && first / 2 % 4 != 3
    requires !LocateRest(first, message[..end], start).Undefined?
    ensures LocateRest(first, message[..end], start) == Ok(p)
  {
    ghost var m := message[..end];
    var qos := QosBits(first);
    var topic, topicLen := LocateStringField(message, start);
    assert topicLen == StrLen(m[start..]);
    var payload := topic + topicLen;
    if qos > 0 {
      var packetId := message[payload] as int * 256 + message[payload + 1] as int;
      assert packetId == FromBe16(m[payload..]);
      p := Places(first / 8 % 2, qos, first % 2, topic, topicLen, packetId, payload + 2, end - payload - 2);
    } else {
      p := Places(first / 8 % 2, qos, first % 2, topic, topicLen, 0, payload, (end - payload) % 0x1_0000_0000);
    }
  }

  /** `publish_message_parse`. Topic and payload are returned as places in the message. */
  method PublishMessageParse(message: array<byte>, messageLen: uint32) returns (status: Status, p: Places)
    requires messageLen <= message.Length
    requires !ParsePlaces(message[..messageLen]).Undefined?
    ensures ParsePlaces(message[..messageLen]) == if status == Success then Ok(p) else Err(status)
  {
    p := Places(0, 0, 0, 0, 0, 0, 0, 0);
    if messageLen == 0 {
      return InvalidParam, p;
    }
    var first, start;
    status, first, start := OpenPublish(message, messageLen);
    if status == Success {
      p := LocateRestAt(message, start, messageLen, first);
    }
  }
}
