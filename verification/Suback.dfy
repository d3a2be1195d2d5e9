/** src/message/msg_suback.c: the growable array of return codes and the SUBACK packet. */
module Suback {
  import opened Bytes
  import opened Message

  const SUBACK_FIRST: byte := 0x90
  const DEFAULT_CAPACITY := 10
  const THRESHOLD := 40

  // ---------- growth policy ----------

  /** The new capacity before it is cut to 16 bits. */
  function Grown(capacity: nat): nat {
    if capacity < THRESHOLD then capacity * 2 else capacity + DEFAULT_CAPACITY
  }

  /** Capacity and number of reallocations after `n` appends to a default array. */
  function CapacityAfter(n: nat): (nat, nat) {
    if n == 0 then (DEFAULT_CAPACITY, 0)
    else
      var (c, g) := CapacityAfter(n - 1);
      if n - 1 >= c then (Grown(c), g + 1) else (c, g)
  }

  lemma {:induction false} GrowthClosedForm(n: nat)
    ensures var (c, g) := CapacityAfter(n);
            && n <= c
            && (n <= 10 ==> c == 10 && g == 0)
            && (10 < n <= 20 ==> c == 20 && g == 1)
            && (20 < n <= 40 ==> c == 40 && g == 2)
            && (40 < n ==> c == (n + 9) / 10 * 10 && c - n < 10 && g == 2 + (n - 40 + 9) / 10)
  {
    if n == 0 {
    } else {
      GrowthClosedForm(n - 1);
    }
  }

  /** Growing from the default, the capacity still fits its `uint16_t` exactly up to 65530 elements. */
  lemma CapacityFitsIff(n: nat)
    ensures CapacityAfter(n).0 <= 0xFFFF <==> n <= 65530
  {
    GrowthClosedForm(n);
    RoundedUpFitsIff(n);
  }

  lemma RoundedUpFitsIff(n: nat)
    ensures (n + 9) / 10 * 10 <= 0xFFFF <==> n <= 65530
  {
    var q := (n + 9) / 10;
    assert q * 10 <= n + 9 < q * 10 + 10;
    assert q * 10 <= 0xFFFF <==> q <= 6553;
  }

  /** The most elements an array of capacity `c` can take before its capacity wraps around. */
  function Room(c: nat): (r: nat)
    requires 0 < c <= 0xFFFF
    ensures c <= r <= 0xFFFF
    decreases 0xFFFF - c
  {
    if Grown(c) > 0xFFFF then c else Room(Grown(c))
  }

  function InitialCapacity(capacity: uint16): (c: uint16)
    ensures c > 0
  {
    if capacity == 0 then DEFAULT_CAPACITY else capacity
  }

  lemma RoomToAppend(size: nat, c: nat)
    requires 0 < c <= 0xFFFF && size <= c && size < Room(c)
    ensures size < c || (Grown(c) <= 0xFFFF && Room(Grown(c)) == Room(c))
  {
  }

  class SubackData {
    var qos: array<byte>
    var size: uint16
    var capacity: uint16
    ghost var growths: nat  // reallocations since `suback_data_init`

    ghost predicate Valid()
      reads this
    {
      size <= capacity == qos.Length && capacity > 0
    }

    ghost function Codes(): seq<byte>
      requires Valid()
      reads this, qos
    {
      qos[..size]
    }

    /** `suback_data_init`. */
    constructor (capacity: uint16)
      ensures Valid() && fresh(qos) && Codes() == [] && size == 0
      ensures this.capacity == InitialCapacity(capacity)
      ensures growths == 0
      ensures capacity == 0 ==> (this.capacity, growths) == CapacityAfter(size)
    {
      this.capacity := if capacity == 0 then DEFAULT_CAPACITY else capacity;
      qos := new byte[if capacity == 0 then DEFAULT_CAPACITY else capacity];
      size, growths := 0, 0;
    }

    /** `suback_data_append`: there must be a free slot, or a larger capacity that fits 16 bits. */
    method Append(code: byte)
      requires Valid()
      requires size < capacity || Grown(capacity) <= 0xFFFF
      modifies this, qos
      ensures Valid() && size == old(size) + 1
      ensures Codes() == old(Codes()) + [code]
      ensures old(size < capacity) ==> qos == old(qos) && capacity == old(capacity) && growths == old(growths)
      ensures old(size == capacity) ==>
                fresh(qos) && capacity == Grown(old(capacity)) && growths == old(growths) + 1
      ensures old((capacity, growths) == CapacityAfter(size)) ==> (capacity, growths) == CapacityAfter(size)
      ensures Room(capacity) == Room(old(capacity))
    {
      if size >= capacity {
        var newCapacity: nat := capacity;
        if capacity < THRESHOLD {
          newCapacity := newCapacity * 2 % 0x1_0000;
        } else {
          newCapacity := (newCapacity + DEFAULT_CAPACITY) % 0x1_0000;
        }
        var newQos := Realloc(qos, newCapacity);
        qos, capacity, growths := newQos, newCapacity, growths + 1;
      }
      Put(qos, size, code);
      size := size + 1;
    }
  }

  method Realloc(a: array<byte>, n: nat) returns (b: array<byte>)
    requires a.Length <= n
    ensures fresh(b) && b.Length == n && b[..a.Length] == a[..]
  {
    b := new byte[n];
    Copy(b, 0, a[..]);
  }

  // ---------- bytes ----------

  datatype Acks = Acks(packetId: uint16, codes: seq<byte>)

  predicate Legal(code: byte) {
    code < 3 || code == 0x80
  }

  /** How many codes come before the first illegal one. */
  function LegalPrefix(codes: seq<byte>): (i: nat)
    ensures i <= |codes|
    ensures forall j :: 0 <= j < i ==> codes[j] in {0, 1, 2, 0x80}
    ensures i < |codes| ==> codes[i] !in {0, 1, 2, 0x80}
  {
    if codes == [] || !Legal(codes[0]) then 0 else 1 + LegalPrefix(codes[1..])
  }

  function SubackFrame(packetId: uint16, codes: seq<byte>): seq<byte> {
    Frame(SUBACK_FIRST, Be16(packetId) + codes)
  }

  /** The initial capacity is the number of codes cut to 16 bits, so only very long packets
      can make the array grow, and then its capacity wraps. */
  function ParseCodes(codes: seq<byte>): Parsed<seq<byte>> {
    var i := LegalPrefix(codes);
    if i > Room(InitialCapacity(|codes| % 0x1_0000)) then Undefined
    else if i < |codes| then Err(SubackQosError)
    else Ok(codes)
  }

  function ParseParts(packetId: uint16, codes: seq<byte>): Parsed<Acks> {
    match ParseCodes(codes)
    case Ok(codes) => Ok(Acks(packetId, codes))
    case Err(e) => Err(e)
    case Undefined => Undefined
  }

  function ParseBody(body: seq<byte>): Parsed<Acks> {
    if |body| < 2 then Undefined else ParseParts(FromBe16(body), body[2..])
  }

  function ParseSuback(m: seq<byte>): Parsed<Acks> {
    if m == [] then Err(InvalidParam)
    else
      match OpenBody(m, SUBACK_FIRST, SubackMessageError)
      case Ok(body) => ParseBody(body)
      case Err(e) => Err(e)
      case Undefined => Undefined
  }

  /** The codes of section 3.9.3 of MQTT 3.1.1. */
  lemma LegalIff(codes: seq<byte>)
    ensures LegalPrefix(codes) == |codes| <==> forall c <- codes :: c in {0, 1, 2, 0x80}
  {
    var i := LegalPrefix(codes);
    if i < |codes| {
      assert codes[i] in codes;
    } else {
      forall c <- codes ensures c in {0, 1, 2, 0x80} {
        var j :| 0 <= j < |codes| && codes[j] == c;
      }
    }
  }

  /** A built SUBACK parses back to its own id and codes exactly when all codes are those of
      section 3.9.3 and there are at most 65535 of them. */
  lemma SubackRoundTripIff(packetId: uint16, codes: seq<byte>)
    requires |codes| + 2 < MAX_BODY
    ensures ParseSuback(SubackFrame(packetId, codes)) == Ok(Acks(packetId, codes)) <==>
            |codes| <= 0xFFFF && forall c <- codes :: c in {0, 1, 2, 0x80}
    ensures |codes| <= 0xFFFF && (exists c <- codes :: c !in {0, 1, 2, 0x80}) ==>
              ParseSuback(SubackFrame(packetId, codes)) == Err(SubackQosError)
  {
    var body := Be16(packetId) + codes;
    OpenBodyOfFrame(SUBACK_FIRST, body, SubackMessageError);
    assert body[2..] == codes;
    Be16RoundTrip(packetId, codes);
    LegalIff(codes);
    ShortCodes(codes);
  }

  lemma ShortCodes(codes: seq<byte>)
    ensures |codes| <= 0xFFFF ==> !ParseCodes(codes).Undefined?
    ensures ParseCodes(codes) == Ok(codes) <==> |codes| <= 0xFFFF && LegalPrefix(codes) == |codes|
  {
    var c := InitialCapacity(|codes| % 0x1_0000);
    assert Room(c) >= c;
    if |codes| <= 0xFFFF {
      assert |codes| <= c;
    }
  }

  lemma SubackRebuildIff(m: seq<byte>)
    requires ParseSuback(m).Ok?
    ensures SubackFrame(ParseSuback(m).value.packetId, ParseSuback(m).value.codes) == m <==> MinimalLength(m)
  {
    OpenBodyReframe(m, SUBACK_FIRST, SubackMessageError);
    var body := OpenBody(m, SUBACK_FIRST, SubackMessageError).value;
    FromBe16RoundTrip(body);
    assert body == body[..2] + body[2..];
  }

  // ---------- the code ----------

  /** `suback_message_build`. An illegal code stops the writing loop in front of it. */
  method SubackMessageBuild(packetId: uint16, data: SubackData, message: array<byte>, bufferLen: uint32)
    returns (status: Status, messageLen: nat)
    requires data.Valid() && data.qos != message
    requires bufferLen <= message.Length
    modifies message
    ensures status == if bufferLen < |SubackFrame(packetId, data.Codes())| then InvalidParam
                      else if forall c <- data.Codes() :: c in {0, 1, 2, 0x80} then Success
                      else SubackQosError
    ensures status == InvalidParam ==> messageLen == bufferLen && message[..] == old(message[..])
    ensures status != InvalidParam ==>
              && messageLen == |SubackFrame(packetId, data.Codes())| - |data.Codes()| + LegalPrefix(data.Codes())
              && message[..messageLen] == SubackFrame(packetId, data.Codes())[..messageLen]
              && forall j :: messageLen <= j < message.Length ==> message[j] == old(message[j])
  {
    ghost var codes := data.Codes();
    var remainLen := 2 + data.size;
    var encoded := EncodeField(remainLen);
    if bufferLen < remainLen + |encoded| + 1 {
      return InvalidParam, bufferLen;
    }
    var pos := PutHeader(message, SUBACK_FIRST, encoded);
    Copy(message, pos, Be16(packetId));
    messageLen := WriteCodes(data, message, pos + 2);
    status := if messageLen - (pos + 2) < data.size then SubackQosError else Success;
    LegalIff(codes);
    ghost var head := [SUBACK_FIRST] + encoded + Be16(packetId);
    FrameHead(packetId, codes, LegalPrefix(codes));
  }

  lemma FrameHead(packetId: uint16, codes: seq<byte>, i: nat)
    requires i <= |codes|
    ensures var head := [SUBACK_FIRST] + EncodeLength(2 + |codes|) + Be16(packetId);
            && SubackFrame(packetId, codes) == head + codes
            && SubackFrame(packetId, codes)[..|head| + i] == head + codes[..i]
  {
    var head := [SUBACK_FIRST] + EncodeLength(2 + |codes|) + Be16(packetId);
    assert SubackFrame(packetId, codes) == head + codes;
    assert (head + codes)[..|head| + i] == head + codes[..i];
  }

  /** The writing loop; it stops in front of an illegal code. */
  method WriteCodes(data: SubackData, message: array<byte>, start: nat) returns (end: nat)
    requires data.Valid() && data.qos != message
    requires start + data.size <= message.Length
    modifies message
    ensures end == start + LegalPrefix(data.Codes())
    ensures message[..end] == old(message[..start]) + data.Codes()[..LegalPrefix(data.Codes())]
    ensures forall j :: end <= j < message.Length ==> message[j] == old(message[j])
  {
    ghost var codes, k := data.Codes(), LegalPrefix(data.Codes());
    end := start;
    var i := 0;
    while i < data.size
      invariant 0 <= i <= k && end == start + i
      invariant data.Codes() == codes
      invariant message[..end] == old(message[..start]) + codes[..i]
      invariant forall j :: end <= j < message.Length ==> message[j] == old(message[j])
    {
      assert data.qos[i] == codes[i];
      if data.qos[i] >= 3 && data.qos[i] != 0x80 {
        return;
      }
      Put(message, end, data.qos[i]);
      assert codes[..i + 1] == codes[..i] + [codes[i]];
      end := end + 1;
      i := i + 1;
    }
  }

  method AppendNext(data: SubackData, code: byte, ghost codes: seq<byte>, ghost i: nat)
    requires data.Valid() && i < |codes| && code == codes[i]
    requires data.Codes() == codes[..i] && i < Room(data.capacity)
    modifies data, data.qos
    ensures data.Valid() && data.Codes() == codes[..i + 1]
    ensures Room(data.capacity) == old(Room(data.capacity))
    ensures i < old(data.capacity) ==> data.capacity == old(data.capacity) && data.growths == old(data.growths)
    ensures data.qos == old(data.qos) || fresh(data.qos)
  {
    RoomToAppend(i, data.capacity);
    data.Append(code);
    assert codes[..i + 1] == codes[..i] + [code];
  }

  lemma LegalPrefixAt(codes: seq<byte>, i: nat)
    requires i < |codes| && i <= LegalPrefix(codes)
    ensures Legal(codes[i]) <==> i < LegalPrefix(codes)
  {
  }

  lemma Decided(codes: seq<byte>)
    requires !ParseCodes(codes).Undefined?
    ensures LegalPrefix(codes) <= Room(InitialCapacity(|codes| % 0x1_0000))
    ensures ParseCodes(codes) == if LegalPrefix(codes) < |codes| then Err(SubackQosError) else Ok(codes)
  {
  }

  /** The reading loop; it stops in front of an illegal code. When all codes fit the initial
      capacity, the array is never reallocated. */
  method ReadCodes(message: array<byte>, start: nat, data: SubackData, ghost codes: seq<byte>, count: nat)
    returns (status: Status)
    requires start + count <= message.Length && message[start..start + count] == codes
    requires data.Valid() && data.Codes() == [] && data.qos != message
    requires LegalPrefix(codes) <= Room(data.capacity)
    modifies data, data.qos
    ensures data.Valid() && data.Codes() == codes[..LegalPrefix(codes)]
    ensures status == if LegalPrefix(codes) < |codes| then SubackQosError else Success
    ensures data.qos == old(data.qos) || fresh(data.qos)
    ensures count <= old(data.capacity) ==> data.capacity == old(data.capacity) && data.growths == old(data.growths)
  {
    ghost var k, c := LegalPrefix(codes), data.capacity;
    ghost var qos, g := data.qos, data.growths;
    var i := 0;
    while i < count
      invariant 0 <= i <= k
      invariant data.Valid() && data.Codes() == codes[..i]
      invariant message[start..start + count] == codes
      invariant data.qos != message && (data.qos == qos || fresh(data.qos))
      invariant Room(data.capacity) == Room(c) && (i <= c ==> data.capacity == c && data.growths == g)
    {
      var code := message[start + i];
      assert code == codes[i];
      LegalPrefixAt(codes, i);
      if code >= 3 && code != 0x80 {
        return SubackQosError;
      }
      AppendNext(data, code, codes, i);
      i := i + 1;
    }
    status := Success;
  }

  /** When every code can be held, the initial capacity is enough. */
  lemma AllHeld(n: nat, cut: uint16, room: uint16)
    requires cut == n % 0x1_0000 && n <= room
    ensures n == cut && n <= InitialCapacity(cut) && (n > 0 ==> InitialCapacity(cut) == n)
  {
  }

  lemma BodyParts(message: array<byte>, start: nat, end: nat, packetId: uint16, codes: seq<byte>)
    requires start + 2 <= end <= message.Length
    requires packetId == message[start] as int * 256 + message[start + 1] as int
    requires codes == message[start + 2..end] && !ParseBody(message[start..end]).Undefined?
    ensures LegalPrefix(codes) <= Room(InitialCapacity(|codes| % 0x1_0000))
    ensures ParseBody(message[start..end]) ==
            if LegalPrefix(codes) < |codes| then Err(SubackQosError) else Ok(Acks(packetId, codes))
  {
    WindowTail(message, start, end, 2);
    assert FromBe16(message[start..end]) == packetId;
    Decided(codes);
  }

  method ParseBodyAt(message: array<byte>, start: nat, end: nat)
    returns (status: Status, packetId: uint16, data: SubackData, ghost codes: seq<byte>)
    requires start <= end <= message.Length
    requires !ParseBody(message[start..end]).Undefined?
    ensures fresh(data) && fresh(data.qos) && data.Valid()
    ensures ParseBody(message[start..end]) == if status == Success then Ok(Acks(packetId, codes)) else Err(status)
    ensures status == Success ==>
              data.Codes() == codes && (codes != [] ==> data.capacity == |codes| && data.growths == 0)
  {
    packetId := message[start] as int * 256 + message[start + 1] as int;
    codes := message[start + 2..end];
    BodyParts(message, start, end, packetId, codes);
    if LegalPrefix(codes) == |codes| {
      AllHeld(|codes|, |codes| % 0x1_0000, Room(InitialCapacity(|codes| % 0x1_0000)));
    }
    data := new SubackData((end - start - 2) % 0x1_0000);
    status := ReadCodes(message, start + 2, data, codes, end - start - 2);
  }

  /** `suback_message_parse`. */
  method SubackMessageParse(message: array<byte>, messageLen: uint32)
    returns (status: Status, packetId: uint16, data: SubackData?)
    requires messageLen <= message.Length
    requires !ParseSuback(message[..messageLen]).Undefined?
    ensures ParseSuback(message[..messageLen]).Err? ==> ParseSuback(message[..messageLen]) == Err(status)
    ensures status == Success <==> ParseSuback(message[..messageLen]).Ok?
    ensures status == Success ==>
              var acks := ParseSuback(message[..messageLen]).value;
              && packetId == acks.packetId
              && data != null && fresh(data) && fresh(data.qos) && data.Valid() && data.Codes() == acks.codes
              && (acks.codes != [] ==> data.capacity == |acks.codes| && data.growths == 0)
  {
    packetId, data := 0, null;
    if messageLen == 0 {
      return InvalidParam, 0, null;
    }
    var start;
    status, start := OpenMessage(message, messageLen, SUBACK_FIRST, SubackMessageError);
    if status == Success {
      ghost var codes;
      status, packetId, data, codes := ParseBodyAt(message, start, messageLen);
    }
  }
}
