/** The builder and the parser of src/message/msg_connect.c, against the functions of `Connect`. */
module ConnectCode {
  import opened Bytes
  import opened Message
  import opened Connect

  // ---------- build ----------

  /** The flags and the first sizing pass. Every bit starts clear, so setting it adds it. */
  method FlagsAndSize(c: Connection) returns (flags: byte, payloadLen: nat)
    ensures flags == Flags(c) && payloadLen == PayloadSize(c)
  {
    var f: nat := 0;
    payloadLen := c.clientId.Len() as nat + 2;
    if c.cleanSession != 0 {
      f := f + 2;
    }
    if c.willTopic.Given() && c.willMsg.Given() {
      f := f + 4;
      payloadLen := payloadLen + (c.willTopic.Len() as nat + 2);
      payloadLen := payloadLen + (c.willMsg.Len() as nat + 2);
    }
    if c.HasWill() {
      if c.willQos == 1 {
        f := f + 8;
      } else if c.willQos == 2 {
        f := f + 16;
      }
    }
    if c.willRetain != 0 && c.HasWill() {
      f := f + 32;
    }
    if c.username.Given() && c.password.Given() {
      f := f + 64;
      payloadLen := payloadLen + (c.password.Len() as nat + 2);
    }
    if c.username.Given() {
      f := f + 128;
      payloadLen := payloadLen + (c.username.Len() as nat + 2);
    }
    flags := f;
  }

  /** One optional field of the payload, when its flag bit is set. */
  method PutField(present: bool, f: Field, payload: array<byte>, ptr: nat, ghost slot: Slot) returns (after: nat)
    requires slot.present == present && (present ==> f.Ptr?)
    requires ptr + SlotSize(present, f) <= payload.Length
    modifies payload
    ensures after == ptr + SlotSize(present, f)
    ensures payload[..after] == old(payload[..ptr]) + SlotBytes(slot, f)
  {
    after := ptr;
    if present {
      var fieldLen := BuildStringField(f.s, payload, ptr);
      after := after + fieldLen;
    } else {
      assert payload[..ptr] + [] == payload[..ptr];
    }
  }

  lemma PayloadParts(c: Connection)
    ensures var s, f := SlotsOf(c), Optionals(c);
            Payload(c) == FieldBytes(c.clientId) + SlotBytes(s[0], f[0]) + SlotBytes(s[1], f[1])
                          + SlotBytes(s[2], f[2]) + SlotBytes(s[3], f[3])
  {
    var s, f := SlotsOf(c), Optionals(c);
    FourSlots(s, f);
    var id := FieldBytes(c.clientId);
    var a, b, d, e := SlotBytes(s[0], f[0]), SlotBytes(s[1], f[1]), SlotBytes(s[2], f[2]), SlotBytes(s[3], f[3]);
    assert e + [] == e;
    Assoc(id, a, b + (d + e));
    Assoc(id + a, b, d + e);
    Assoc(id + a + b, d, e);
  }

  /** The second pass fills the buffer that the first pass sized, to the last byte. */
  method WritePayload(c: Connection, flags: byte, payload: array<byte>) returns (payloadLen: nat)
    requires c.Buildable() && flags == Flags(c)
    requires payload.Length == PayloadSize(c)
    modifies payload
    ensures payloadLen == payload.Length && payload[..] == Payload(c)
  {
    FlagsRoundTrip(c);
    PayloadParts(c);
    ghost var s := SlotsOf(c);
    var fieldLen := BuildStringField(if c.clientId.Ptr? then c.clientId.s else [], payload, 0);
    var ptr := fieldLen;
    assert payload[..ptr] == FieldBytes(c.clientId);
    ptr := PutField(flags / 4 % 2 == 1, c.willTopic, payload, ptr, s[0]);
    ptr := PutField(flags / 4 % 2 == 1, c.willMsg, payload, ptr, s[1]);
    ptr := PutField(flags / 128 % 2 == 1, c.username, payload, ptr, s[2]);
    ptr := PutField(flags / 64 % 2 == 1, c.password, payload, ptr, s[3]);
    payloadLen := ptr;
    assert payload[..] == payload[..ptr];
  }

  /** Both passes, with the allocation between them. */
  method MakePayload(c: Connection) returns (flags: byte, bytes: seq<byte>)
    requires c.Buildable()
    ensures flags == Flags(c) && bytes == Payload(c)
  {
    var payloadLen;
    flags, payloadLen := FlagsAndSize(c);
    var payload := new byte[payloadLen];
    payloadLen := WritePayload(c, flags, payload);
    bytes := payload[..];
  }

  /** `connect_message_build`. The builder trusts the buffer to be large enough. */
  method ConnectMessageBuild(c: Connection, message: array<byte>, bufferLen: nat)
    returns (status: Status, messageLen: nat)
    requires c.Buildable() ==> |ConnectFrame(c)| <= message.Length
    modifies message
    ensures status == if c.Buildable() then Success else InvalidParam
    ensures status == Success ==>
              && messageLen == |ConnectFrame(c)| && message[..messageLen] == ConnectFrame(c)
              && forall j :: messageLen <= j < message.Length ==> message[j] == old(message[j])
    ensures status != Success ==> messageLen == bufferLen && message[..] == old(message[..])
  {
    if c.clientId.Len() > CLIENT_ID_MAX {
      return InvalidParam, bufferLen;
    }
    if c.clientId.Null? && c.clientId.n != 0 {
      return InvalidParam, bufferLen;
    }
    var flags, payload := MakePayload(c);
    ConnectSizes(c);
    var encoded := EncodeField(|payload| + 10);
    ConnectParts(c);
    messageLen := EmitConnect(encoded, VarHeader(flags, c.keepAlive), payload, message);
    status := Success;
  }

  lemma ConnectParts(c: Connection)
    ensures ConnectFrame(c) ==
            [CONNECT_FIRST] + EncodeLength(|Body(c)|) + VarHeader(Flags(c), c.keepAlive) + Payload(c)
  {
    Assoc([CONNECT_FIRST] + EncodeLength(|Body(c)|), VarHeader(Flags(c), c.keepAlive), Payload(c));
  }

  method EmitConnect(encoded: seq<byte>, varHeader: seq<byte>, payload: seq<byte>, message: array<byte>)
    returns (messageLen: nat)
    requires 1 + |encoded| + |varHeader| + |payload| <= message.Length
    modifies message
    ensures messageLen == 1 + |encoded| + |varHeader| + |payload|
    ensures message[..messageLen] == [CONNECT_FIRST] + encoded + varHeader + payload
    ensures forall j :: messageLen <= j < message.Length ==> message[j] == old(message[j])
  {
    messageLen := PutHeader(message, CONNECT_FIRST, encoded);
    Copy(message, messageLen, varHeader);
    messageLen := messageLen + |varHeader|;
    Copy(message, messageLen, payload);
    messageLen := messageLen + |payload|;
  }

  // ---------- parse ----------

  ghost function After(field: Field, r: Parsed<seq<Field>>): Parsed<seq<Field>> {
    if r.Ok? then Ok([field] + r.value) else r
  }

  /** One optional field: the length first, then a private copy of the bytes. */
  method TakeFieldAt(message: array<byte>, ptr: nat, end: nat, present: bool, mayBeEmpty: bool)
    returns (status: Status, field: Field, after: nat)
    requires ptr <= end <= message.Length
    requires !TakeField(Slot(present, mayBeEmpty), message[ptr..end]).Undefined?
    ensures status == Success ==>
              && ptr <= after <= end
              && TakeField(Slot(present, mayBeEmpty), message[ptr..end]) == Ok(Taken(field, message[after..end]))
    ensures status != Success ==> TakeField(Slot(present, mayBeEmpty), message[ptr..end]) == Err(status)
  {
    field, after, status := Null(0), ptr, Success;
    if present {
      ghost var s := message[ptr..end];
      var str, len := LocateStringField(message, ptr);
      assert len == StrLen(s);
      if (len == 0 && !mayBeEmpty) || len > end - ptr - 2 {
        status := ConnectMessageError;
        return;
      }
      Window(message, ptr, end, 2, len + 2);
      WindowTail(message, ptr, end, len + 2);
      if len != 0 {
        field := Ptr(message[str..str + len]);
      }
      after := ptr + len + 2;
    }
  }

  /** One step of the payload: what is parsed so far is what the rest comes after. */
  method TakeNext(message: array<byte>, ptr: nat, end: nat, present: bool, mayBeEmpty: bool, ghost slots: seq<Slot>)
    returns (status: Status, field: Field, after: nat)
    requires ptr <= end <= message.Length
    requires slots != [] && slots[0] == Slot(present, mayBeEmpty)
    requires !TakeFields(slots, message[ptr..end]).Undefined?
    ensures status == Success ==>
              && ptr <= after <= end
              && TakeFields(slots, message[ptr..end]) == After(field, TakeFields(slots[1..], message[after..end]))
    ensures status != Success ==> TakeFields(slots, message[ptr..end]) == Err(status)
  {
    status, field, after := TakeFieldAt(message, ptr, end, present, mayBeEmpty);
  }

  method TakeFieldsAt(message: array<byte>, start: nat, end: nat, will: bool, username: bool, password: bool)
    returns (status: Status, topic: Field, msg: Field, user: Field, pass: Field)
    requires start <= end <= message.Length
    requires !TakeFields(Slots(will, username, password), message[start..end]).Undefined?
    ensures TakeFields(Slots(will, username, password), message[start..end]) ==
            if status == Success then Ok([topic, msg, user, pass]) else Err(status)
  {
    ghost var slots: seq<Slot> := [Slot(will, false), Slot(will, false), Slot(username, false), Slot(password, true)];
    SlotTails(slots);
    topic, msg, user, pass := Null(0), Null(0), Null(0), Null(0);
    var ptr;
    status, topic, ptr := TakeNext(message, start, end, will, false, slots);
    if status != Success { return; }
    status, msg, ptr := TakeNext(message, ptr, end, will, false, slots[1..]);
    if status != Success { return; }
    status, user, ptr := TakeNext(message, ptr, end, username, false, slots[2..]);
    if status != Success { return; }
    status, pass, ptr := TakeNext(message, ptr, end, password, true, slots[3..]);
    if status != Success { return; }
    if end - ptr != 0 {
      status := ConnectMessageError;
      return;
    }
    assert [topic] + ([msg] + ([user] + ([pass] + []))) == [topic, msg, user, pass];
  }

  lemma SlotTails(slots: seq<Slot>)
    requires |slots| == 4
    ensures slots[1..][1..] == slots[2..] && slots[2..][1..] == slots[3..] && slots[3..][1..] == []
  {
  }

  method TakeClientIdAt(message: array<byte>, ptr: nat, end: nat)
    returns (status: Status, field: Field, after: nat)
    requires ptr <= end <= message.Length
    ensures status == Success ==>
              && ptr <= after <= end
              && TakeClientId(message[ptr..end]) == Ok(Taken(field, message[after..end]))
    ensures status != Success ==> TakeClientId(message[ptr..end]) == Err(status)
  {
    field, after := Null(0), ptr;
    if end - ptr < 2 {
      status := ConnectMessageError;
      return;
    }
    ghost var s := message[ptr..end];
    var str, len := LocateStringField(message, ptr);
    assert len == StrLen(s);
    if len == 0 || len > CLIENT_ID_MAX {
      status := ClientIdLengthUnsupport;
      return;
    }
    if end - ptr - 2 < len {
      status := ConnectMessageError;
      return;
    }
    Window(message, ptr, end, 2, len + 2);
    WindowTail(message, ptr, end, len + 2);
    field, after, status := Ptr(message[str..str + len]), ptr + len + 2, Success;
  }

  /** Protocol name and level, in the order in which the code reads them. */
  method CheckProtocol(message: array<byte>, start: nat, end: nat) returns (status: Status)
    requires start <= end <= message.Length
    requires !CheckedHeader(message[start..end]).Undefined?
    ensures CheckedHeader(message[start..end]) == if status == Success then Ok(()) else Err(status)
  {
    ghost var body := message[start..end];
    assert body[0] == message[start];
    if message[start] != 0x00 || message[start + 1] != 0x04 {
      return ProtocolUnsupport;
    }
    NameBytes(message, start, end);
    if message[start + 2] != 0x4D || message[start + 3] != 0x51
       || message[start + 4] != 0x54 || message[start + 5] != 0x54 {
      return ProtocolUnsupport;
    }
    if message[start + 6] != 4 {
      return ProtocolLevelUnsupport;
    }
    status := Success;
  }

  lemma NameBytes(message: array<byte>, start: nat, end: nat)
    requires start + 6 <= end <= message.Length
    ensures message[start..end][2..6] ==
            [message[start + 2], message[start + 3], message[start + 4], message[start + 5]]
  {
    Window(message, start, end, 2, 6);
  }

  /** The flag bits and their conflicts. With out-pointers that are never NULL the will test
      only looks at the will flag. */
  method CheckFlags(flags: byte) returns (status: Status, b: FlagBits)
    ensures b == Unflag(flags)
    ensures status == if FlagsConflict(b, AsWritten) then ConnectFlagsError else Success
  {
    var q := flags / 8 % 2 + flags / 16 % 2 * 2;
    WillQosBits(flags);
    b := FlagBits(flags / 128 % 2 == 1, flags / 64 % 2 == 1, flags / 32 % 2 == 1,
                  if q > 2 then 0 else q, flags / 4 % 2 == 1, flags / 2 % 2 == 1);
    if !b.will {
      return ConnectFlagsError, b;
    }
    if !b.username && b.password {
      return ConnectFlagsError, b;
    }
    status := Success;
  }

  lemma WillQosBits(flags: byte)
    ensures flags / 8 % 2 + flags / 16 % 2 * 2 == flags / 8 % 4
  {
    assert flags / 16 == flags / 8 / 2;
  }

  /** `connect_message_parse`, as it is written. */
  method ConnectMessageParse(message: array<byte>, messageLen: uint32)
    returns (status: Status, c: Connection)
    requires messageLen <= message.Length
    requires !ParseConnect(message[..messageLen], AsWritten).Undefined?
    ensures ParseConnect(message[..messageLen], AsWritten) == if status == Success then Ok(c) else Err(status)
  {
    c := Connection(Null(0), Null(0), Null(0), Null(0), Null(0), 0, 0, 0, 0);
    var start;
    status, start := OpenMessage(message, messageLen, CONNECT_FIRST, InvalidParam);
    if status == Success {
      status, c := ParseBodyAt(message, start, messageLen);
    }
  }

  method ParseBodyAt(message: array<byte>, start: nat, end: nat) returns (status: Status, c: Connection)
    requires start <= end <= message.Length
    requires !ParseBody(message[start..end], AsWritten).Undefined?
    ensures ParseBody(message[start..end], AsWritten) == if status == Success then Ok(c) else Err(status)
  {
    c := Connection(Null(0), Null(0), Null(0), Null(0), Null(0), 0, 0, 0, 0);
    status := CheckProtocol(message, start, end);
    if status == Success {
      status, c := ParseCheckedAt(message, start, end);
    }
  }

  method ParseCheckedAt(message: array<byte>, start: nat, end: nat) returns (status: Status, c: Connection)
    requires start + 10 <= end <= message.Length
    requires !ParseChecked(message[start..end], AsWritten).Undefined?
    ensures ParseChecked(message[start..end], AsWritten) == if status == Success then Ok(c) else Err(status)
  {
    c := Connection(Null(0), Null(0), Null(0), Null(0), Null(0), 0, 0, 0, 0);
    ghost var body := message[start..end];
    assert body[7] == message[start + 7];
    var keepAlive := message[start + 8] as int * 256 + message[start + 9] as int;
    assert keepAlive == FromBe16(body[8..]);
    var b;
    status, b := CheckFlags(message[start + 7]);
    if status != Success { return; }
    WindowTail(message, start, end, 10);
    var f;
    status, f := ParseFieldsAt(message, start + 10, end, b);
    if status == Success {
      c := Connection(f[0], f[1], f[2], f[3], f[4], keepAlive, if b.clean then 1 else 0,
                      if b.retain then 1 else 0, b.qos);
    }
  }

  method ParseFieldsAt(message: array<byte>, start: nat, end: nat, b: FlagBits)
    returns (status: Status, f: seq<Field>)
    requires start <= end <= message.Length
    requires !ParseFields(b, message[start..end]).Undefined?
    ensures ParseFields(b, message[start..end]) == if status == Success then Ok(f) else Err(status)
    ensures status == Success ==> |f| == 5
  {
    var id, ptr;
    f := [];
    status, id, ptr := TakeClientIdAt(message, start, end);
    if status != Success { return; }
    var topic, msg, user, pass;
    status, topic, msg, user, pass := TakeFieldsAt(message, ptr, end, b.will, b.username, b.password);
    if status == Success {
      f := [id, topic, msg, user, pass];
      assert f == [id] + [topic, msg, user, pass];
    }
  }
}
