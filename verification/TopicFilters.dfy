/** The `topic_filter_t` list of common.h, and the packets of msg_subscribe.c and
    msg_unsubscribe.c, which differ only in their first byte and in the QoS byte that
    follows each topic of a SUBSCRIBE. */
module TopicFilters {
  import opened Bytes
  import opened Message

  const SUBSCRIBE_FIRST: byte := 0x80
  const UNSUBSCRIBE_FIRST: byte := 0xA0

  datatype Filter = Filter(topic: str16, qos: byte)
  datatype Subscription = Subscription(packetId: uint16, filters: seq<Filter>)

  // ---------- bytes ----------

  /** The bytes of a filter besides its topic: the length prefix and, in a SUBSCRIBE, the QoS. */
  function Overhead(withQos: bool): (k: nat)
    ensures 2 <= k <= 3
  {
    if withQos then 3 else 2
  }

  function FilterBytes(f: Filter, withQos: bool): (r: seq<byte>) {
    Str(f.topic) + if withQos then [f.qos % 4] else []
  }

  function FiltersBytes(fs: seq<Filter>, withQos: bool): seq<byte> {
    if fs == [] then [] else FilterBytes(fs[0], withQos) + FiltersBytes(fs[1..], withQos)
  }

  function Body(packetId: uint16, fs: seq<Filter>, withQos: bool): seq<byte> {
    Be16(packetId) + FiltersBytes(fs, withQos)
  }

  function First(withQos: bool): byte {
    if withQos then SUBSCRIBE_FIRST else UNSUBSCRIBE_FIRST
  }

  function FilterFrame(packetId: uint16, fs: seq<Filter>, withQos: bool): seq<byte> {
    Frame(First(withQos), Body(packetId, fs, withQos))
  }

  function SubscribeFrame(packetId: uint16, fs: seq<Filter>): seq<byte> {
    FilterFrame(packetId, fs, true)
  }

  function UnsubscribeFrame(packetId: uint16, fs: seq<Filter>): seq<byte> {
    FilterFrame(packetId, fs, false)
  }

  function ParseFilters(s: seq<byte>, withQos: bool): Parsed<seq<Filter>> {
    if s == [] then Ok([])
    else if |s| < 2 then Undefined
    else
      var n := StrLen(s);
      var size: nat := n + Overhead(withQos);
      if |s| < size then Undefined
      else if withQos && s[n + 2] > 2 then Err(SubscribeMessageError)
      else
        match ParseFilters(s[size..], withQos)
        case Ok(fs) => Ok([Filter(s[2..n + 2], if withQos then s[n + 2] else 0)] + fs)
        case Err(e) => Err(e)
        case Undefined => Undefined
  }

  /** The QoS of the first filter is invalid. */
  predicate FirstRejected(s: seq<byte>, withQos: bool) {
    withQos && |s| >= 2 && |s| >= StrLen(s) + 3 && s[StrLen(s) + 2] > 2
  }

  /** The dummy head's `next` is set when the first filter is linked. Before that, the way out
      after an invalid QoS and the normal way out both follow an unset pointer. */
  function ParseBody(body: seq<byte>, withQos: bool): Parsed<Subscription> {
    if |body| < 2 || FirstRejected(body[2..], withQos) then Undefined
    else
      match ParseFilters(body[2..], withQos)
      case Ok(fs) => if fs == [] then Undefined else Ok(Subscription(FromBe16(body), fs))
      case Err(e) => Err(e)
      case Undefined => Undefined
  }

  function ParseFilterMessage(m: seq<byte>, withQos: bool): Parsed<Subscription> {
    if m == [] then Err(InvalidParam)
    else
      match OpenBody(m, First(withQos), SubscribeMessageError)
      case Ok(body) => ParseBody(body, withQos)
      case Err(e) => Err(e)
      case Undefined => Undefined
  }

  function ParseSubscribe(m: seq<byte>): Parsed<Subscription> {
    ParseFilterMessage(m, true)
  }

  function ParseUnsubscribe(m: seq<byte>): Parsed<Subscription> {
    ParseFilterMessage(m, false)
  }

  // ---------- build, then parse ----------

  predicate Grantable(fs: seq<Filter>) {
    forall f <- fs :: f.qos % 4 != 3
  }

  function Carried(fs: seq<Filter>, withQos: bool): (r: seq<Filter>)
    ensures |r| == |fs|
    ensures forall i :: 0 <= i < |fs| ==> r[i] == Filter(fs[i].topic, if withQos then fs[i].qos % 4 else 0)
  {
    seq(|fs|, i requires 0 <= i < |fs| => Filter(fs[i].topic, if withQos then fs[i].qos % 4 else 0))
  }

  /** One turn of the parsing loop on a filter that was just written. */
  lemma ParseWritten(f: Filter, rest: seq<byte>, withQos: bool)
    ensures ParseFilters(FilterBytes(f, withQos) + rest, withQos) ==
            if withQos && f.qos % 4 == 3 then Err(SubscribeMessageError)
            else
              match ParseFilters(rest, withQos)
              case Ok(fs) => Ok([Filter(f.topic, if withQos then f.qos % 4 else 0)] + fs)
              case Err(e) => Err(e)
              case Undefined => Undefined
  {
    var q := if withQos then [f.qos % 4] else [];
    var s := FilterBytes(f, withQos) + rest;
    assert s == Str(f.topic) + (q + rest);
    StrRoundTrip(f.topic, q + rest);
    assert s[|f.topic| + 2 + |q|..] == rest;
    if withQos {
      assert s[|f.topic| + 2] == q[0];
    }
  }

  lemma {:induction false} FiltersRoundTrip(fs: seq<Filter>, withQos: bool)
    ensures ParseFilters(FiltersBytes(fs, withQos), withQos) ==
            if withQos && !Grantable(fs) then Err(SubscribeMessageError) else Ok(Carried(fs, withQos))
  {
    if fs == [] {
      assert Carried(fs, withQos) == [];
    } else {
      ParseWritten(fs[0], FiltersBytes(fs[1..], withQos), withQos);
      FiltersRoundTrip(fs[1..], withQos);
      assert Grantable(fs) <==> fs[0].qos % 4 != 3 && Grantable(fs[1..]) by {
        assert forall f :: f in fs <==> f == fs[0] || f in fs[1..];
      }
      assert [Carried(fs, withQos)[0]] + Carried(fs[1..], withQos) == Carried(fs, withQos);
    }
  }

  lemma FirstRejectedIff(fs: seq<Filter>, withQos: bool)
    requires fs != []
    ensures FirstRejected(FiltersBytes(fs, withQos), withQos) <==> withQos && fs[0].qos % 4 == 3
  {
    var s, rest := FiltersBytes(fs, withQos), FiltersBytes(fs[1..], withQos);
    if withQos {
      assert s == Str(fs[0].topic) + ([fs[0].qos % 4] + rest);
      StrRoundTrip(fs[0].topic, [fs[0].qos % 4] + rest);
      assert s[|fs[0].topic| + 2] == fs[0].qos % 4;
    }
  }

  /** What parsing makes of any frame that the builders write: a QoS byte of 3 is fatal in the
      first filter and an error in a later one. */
  lemma FilterMessageRoundTrip(packetId: uint16, fs: seq<Filter>, withQos: bool)
    requires fs != [] && |Body(packetId, fs, withQos)| < MAX_BODY
    ensures ParseFilterMessage(FilterFrame(packetId, fs, withQos), withQos) ==
            if withQos && fs[0].qos % 4 == 3 then Undefined
            else if withQos && !Grantable(fs) then Err(SubscribeMessageError)
            else Ok(Subscription(packetId, Carried(fs, withQos)))
  {
    var body := Body(packetId, fs, withQos);
    OpenBodyOfFrame(First(withQos), body, SubscribeMessageError);
    FiltersRoundTrip(fs, withQos);
    FirstRejectedIff(fs, withQos);
    assert body[2..] == FiltersBytes(fs, withQos);
    Be16RoundTrip(packetId, FiltersBytes(fs, withQos));
  }

  /** SUBSCRIBE: parsing returns the packet id and the filters that were built exactly when
      every QoS is at most 2. */
  lemma SubscribeRoundTripIff(packetId: uint16, fs: seq<Filter>)
    requires fs != [] && |Body(packetId, fs, true)| < MAX_BODY
    ensures ParseSubscribe(SubscribeFrame(packetId, fs)) == Ok(Subscription(packetId, fs)) <==>
            forall f <- fs :: f.qos <= 2
  {
    FilterMessageRoundTrip(packetId, fs, true);
    CarriedIff(fs);
  }

  lemma CarriedIff(fs: seq<Filter>)
    ensures Grantable(fs) && Carried(fs, true) == fs <==> forall f <- fs :: f.qos <= 2
  {
    if Grantable(fs) && Carried(fs, true) == fs {
      forall f <- fs ensures f.qos <= 2 {
        var i :| 0 <= i < |fs| && fs[i] == f;
        assert Carried(fs, true)[i].qos == f.qos % 4;
      }
    }
    if forall f <- fs :: f.qos <= 2 {
      assert Carried(fs, true) == fs;
    }
  }

  lemma OneFilterMessage(packetId: uint16, f: Filter, kept: Filter)
    requires kept == Filter(f.topic, f.qos % 4)
    ensures ParseSubscribe(SubscribeFrame(packetId, [f])) ==
            if f.qos % 4 == 3 then Undefined else Ok(Subscription(packetId, [kept]))
  {
    FiltersSizeExact([f], true);
    assert [f][1..] == [];
    FilterMessageRoundTrip(packetId, [f], true);
    assert Carried([f], true) == [kept];
  }

  lemma TwoFilterMessage(packetId: uint16, f: Filter, g: Filter)
    requires f.qos % 4 != 3 && g.qos % 4 == 3
    ensures ParseSubscribe(SubscribeFrame(packetId, [f, g])) == Err(SubscribeMessageError)
  {
    FiltersSizeExact([f, g], true);
    assert [f, g][1..] == [g] && [g][1..] == [];
    assert FiltersSize([g], true) == |g.topic| + 3;
    assert FiltersSize([f, g], true) == |f.topic| + 3 + FiltersSize([g], true);
    FilterMessageRoundTrip(packetId, [f, g], true);
    assert [f, g][1] == g;
  }

  /** A QoS of 3 leaves the parser undefined in the only filter, and is rejected behind a valid
      one; a QoS of 4 comes back as 0. */
  lemma InvalidQosExample(topic: str16)
    ensures ParseSubscribe(SubscribeFrame(1, [Filter(topic, 3)])) == Undefined
    ensures ParseSubscribe(SubscribeFrame(1, [Filter(topic, 0), Filter(topic, 3)])) == Err(SubscribeMessageError)
    ensures ParseSubscribe(SubscribeFrame(1, [Filter(topic, 4)])) == Ok(Subscription(1, [Filter(topic, 0)]))
  {
    OneFilterMessage(1, Filter(topic, 3), Filter(topic, 3));
    OneFilterMessage(1, Filter(topic, 4), Filter(topic, 0));
    TwoFilterMessage(1, Filter(topic, 0), Filter(topic, 3));
  }

  /** Sections 3.8.1 and 3.10.1 of MQTT 3.1.1 ask for the reserved bits 0010. Every frame that
      is built has 0000, and of the frames of the right type the parser accepts only those
      bits, so that it turns away every conforming one. */
  lemma ReservedBits(packetId: uint16, fs: seq<Filter>, withQos: bool, m: seq<byte>)
    requires m != [] && m[0] / 16 == First(withQos) / 16
    ensures FilterFrame(packetId, fs, withQos)[0] % 16 == 0
    ensures ParseFilterMessage(m, withQos) == Err(MessageTypeError) <==> m[0] % 16 != 0
    ensures m[0] % 16 == 2 ==> ParseFilterMessage(m, withQos) == Err(MessageTypeError)
  {
    assert m[0] == m[0] / 16 * 16 + m[0] % 16;
    if m[0] == First(withQos) {
      NoTypeError(m, withQos);
    }
  }

  lemma {:induction false} FiltersNoTypeError(s: seq<byte>, withQos: bool)
    ensures ParseFilters(s, withQos) != Err(MessageTypeError)
  {
    if s == [] || |s| < 2 || |s| < StrLen(s) + Overhead(withQos) {
    } else {
      FiltersNoTypeError(s[StrLen(s) + Overhead(withQos)..], withQos);
    }
  }

  lemma NoTypeError(m: seq<byte>, withQos: bool)
    requires m != [] && m[0] == First(withQos)
    ensures ParseFilterMessage(m, withQos) != Err(MessageTypeError)
  {
    var r := OpenBody(m, First(withQos), SubscribeMessageError);
    if r.Ok? && |r.value| >= 2 {
      FiltersNoTypeError(r.value[2..], withQos);
    }
  }

  /** UNSUBSCRIBE: parsing returns the packet id and the topics in order; QoS is not sent. */
  lemma UnsubscribeRoundTrip(packetId: uint16, fs: seq<Filter>)
    requires fs != [] && |Body(packetId, fs, false)| < MAX_BODY
    ensures var r := ParseUnsubscribe(UnsubscribeFrame(packetId, fs));
            && r.Ok? && r.value.packetId == packetId && |r.value.filters| == |fs|
            && forall i :: 0 <= i < |fs| ==> r.value.filters[i] == Filter(fs[i].topic, 0)
  {
    FilterMessageRoundTrip(packetId, fs, false);
  }

  // ---------- parse, then build ----------

  lemma FilterAgain(s: seq<byte>, withQos: bool)
    requires |s| >= 2 && |s| >= StrLen(s) + Overhead(withQos)
    requires withQos ==> s[StrLen(s) + 2] <= 2
    ensures var n := StrLen(s);
            FilterBytes(Filter(s[2..n + 2], if withQos then s[n + 2] else 0), withQos) ==
            s[..n + Overhead(withQos)]
  {
    FromBe16RoundTrip(s);
    var n := StrLen(s);
    assert s[..n + 2] == s[..2] + s[2..n + 2];
    if withQos {
      assert s[..n + 3] == s[..n + 2] + [s[n + 2]];
    }
  }

  /** One turn of the parsing loop, read backwards. */
  lemma RewriteParsed(s: seq<byte>, withQos: bool)
    requires s != [] && ParseFilters(s, withQos).Ok?
    ensures |s| >= 2
    ensures var size: nat := StrLen(s) + Overhead(withQos);
            var fs := ParseFilters(s, withQos).value;
            && size <= |s| && fs != []
            && ParseFilters(s[size..], withQos) == Ok(fs[1..])
            && FilterBytes(fs[0], withQos) == s[..size]
  {
    FilterAgain(s, withQos);
    var size: nat := StrLen(s) + Overhead(withQos);
    var fs, rest := ParseFilters(s, withQos).value, ParseFilters(s[size..], withQos).value;
    assert fs == [fs[0]] + rest;
    assert fs[1..] == rest;
  }

  /** Every filter takes at least its length prefix, and its QoS byte, of the body. */
  lemma {:induction false} FiltersRebuild(s: seq<byte>, withQos: bool)
    requires ParseFilters(s, withQos).Ok?
    ensures FiltersBytes(ParseFilters(s, withQos).value, withQos) == s
    ensures |s| >= Overhead(withQos) * |ParseFilters(s, withQos).value|
  {
    if s == [] {
    } else {
      var size: nat := StrLen(s) + Overhead(withQos);
      RewriteParsed(s, withQos);
      FiltersRebuild(s[size..], withQos);
      assert s == s[..size] + s[size..];
    }
  }

  /** Building what was parsed gives the same bytes exactly when the Remaining Length is
      minimal, for SUBSCRIBE and UNSUBSCRIBE alike. */
  lemma RebuildIff(m: seq<byte>, withQos: bool)
    requires ParseFilterMessage(m, withQos).Ok?
    ensures var r := ParseFilterMessage(m, withQos).value;
            FilterFrame(r.packetId, r.filters, withQos) == m <==> MinimalLength(m)
  {
    OpenBodyReframe(m, First(withQos), SubscribeMessageError);
    var body := OpenBody(m, First(withQos), SubscribeMessageError).value;
    FiltersRebuild(body[2..], withQos);
    FromBe16RoundTrip(body);
    var r := ParseFilterMessage(m, withQos).value;
    assert Body(r.packetId, r.filters, withQos) == body[..2] + body[2..] == body;
  }

  /** Two different frames with minimal lengths never parse to the same result. */
  lemma ParseInjective(m: seq<byte>, m': seq<byte>, withQos: bool)
    requires ParseFilterMessage(m, withQos).Ok? && MinimalLength(m)
    requires m' != [] && MinimalLength(m')
    requires ParseFilterMessage(m, withQos) == ParseFilterMessage(m', withQos)
    ensures m == m'
  {
    RebuildIff(m, withQos);
    RebuildIff(m', withQos);
  }

  // ---------- sizes ----------

  /** What the counting loops add up. */
  function FiltersSize(fs: seq<Filter>, withQos: bool): nat {
    if fs == [] then 0
    else |fs[0].topic| + Overhead(withQos) + FiltersSize(fs[1..], withQos)
  }

  /** The size counted in the first loop is the number of bytes that the second loop writes. */
  lemma {:induction false} FiltersSizeExact(fs: seq<Filter>, withQos: bool)
    ensures |FiltersBytes(fs, withQos)| == FiltersSize(fs, withQos)
  {
    if fs == [] {
    } else {
      FiltersSizeExact(fs[1..], withQos);
    }
  }

  /** `subscribe_message_len_calc`'s answer is always enough, and exceeds the frame by what
      the length field leaves of four bytes. */
  lemma SubscribeCalcEnough(packetId: uint16, fs: seq<Filter>)
    requires |Body(packetId, fs, true)| < MAX_BODY
    ensures 7 + FiltersSize(fs, true) ==
            |SubscribeFrame(packetId, fs)| + 4 - |EncodeLength(|Body(packetId, fs, true)|)|
    ensures |SubscribeFrame(packetId, fs)| <= 7 + FiltersSize(fs, true)
  {
    FiltersSizeExact(fs, true);
    BodyFitsFour(|Body(packetId, fs, true)|);
  }

  // ---------- the linked list ----------

  /** `topic` is a pointer into a buffer: a buffer and an offset. */
  class FilterNode {
    const buf: array<byte>
    const off: nat
    const len: uint16
    const qos: byte
    var next: FilterNode?

    constructor (buf: array<byte>, off: nat, len: uint16, qos: byte)
      ensures this.buf == buf && this.off == off && this.len == len && this.qos == qos
      ensures next == null
    {
      this.buf, this.off, this.len, this.qos := buf, off, len, qos;
      next := null;
    }

    ghost function Value(): Filter
      requires off + len <= buf.Length
      reads buf
    {
      Filter(buf[off..off + len], qos)
    }
  }

  function NodeAt(nodes: seq<FilterNode>, i: nat): FilterNode? {
    if i < |nodes| then nodes[i] else null
  }

  /** `head` starts a null-terminated list through exactly `nodes`, in that order. */
  ghost predicate FiltersLinked(head: FilterNode?, nodes: seq<FilterNode>)
    reads nodes
  {
    && head == NodeAt(nodes, 0)
    && forall i {:trigger nodes[i].next} :: 0 <= i < |nodes| ==> nodes[i].next == NodeAt(nodes, i + 1)
  }

  ghost predicate Holds(nodes: seq<FilterNode>, fs: seq<Filter>)
    reads set n | n in nodes :: n.buf
  {
    && |fs| == |nodes|
    && forall i :: 0 <= i < |nodes| ==>
         nodes[i].off + nodes[i].len <= nodes[i].buf.Length && nodes[i].Value() == fs[i]
  }

  lemma SizeStep(fs: seq<Filter>, i: nat, withQos: bool)
    requires i < |fs|
    ensures FiltersSize(fs[i..], withQos) ==
            |fs[i].topic| + Overhead(withQos) + FiltersSize(fs[i + 1..], withQos)
  {
    assert fs[i..][1..] == fs[i + 1..];
  }

  lemma BytesStep(fs: seq<Filter>, i: nat, withQos: bool)
    requires i < |fs|
    ensures FiltersBytes(fs[i..], withQos) ==
            Str(fs[i].topic) + (if withQos then [fs[i].qos % 4] else []) + FiltersBytes(fs[i + 1..], withQos)
  {
    assert fs[i..][1..] == fs[i + 1..];
  }

  /** The counting loop, from a given start value. */
  method CountFilters(start: nat, head: FilterNode?, withQos: bool,
                      ghost nodes: seq<FilterNode>, ghost fs: seq<Filter>)
    returns (total: nat)
    requires FiltersLinked(head, nodes) && Holds(nodes, fs)
    ensures total == start + FiltersSize(fs, withQos)
  {
    total := start;
    var cur := head;
    ghost var i := 0;
    assert fs[0..] == fs;
    while cur != null
      invariant 0 <= i <= |nodes|
      invariant cur == NodeAt(nodes, i)
      invariant total + FiltersSize(fs[i..], withQos) == start + FiltersSize(fs, withQos)
      decreases |nodes| - i
    {
      SizeStep(fs, i, withQos);
      assert cur == nodes[i] && |fs[i].topic| == cur.len;
      total := total + cur.len + Overhead(withQos);
      cur := cur.next;
      i := i + 1;
    }
  }

  /** `subscribe_message_len_calc`; its `uint32_t` sum wraps. */
  method SubscribeMessageLenCalc(head: FilterNode?, ghost nodes: seq<FilterNode>, ghost fs: seq<Filter>)
    returns (status: Status, messageLen: nat)
    requires FiltersLinked(head, nodes) && Holds(nodes, fs)
    ensures status == if fs == [] then InvalidParam else Success
    ensures fs != [] ==> messageLen == (7 + FiltersSize(fs, true)) % 0x1_0000_0000
  {
    if head == null {
      return InvalidParam, 0;
    }
    messageLen := CountFilters(7, head, true, nodes, fs);
    messageLen := messageLen % 0x1_0000_0000;
    status := Success;
  }

  /** The writing loop, from offset `start`. */
  method WriteFilters(message: array<byte>, start: nat, head: FilterNode?, withQos: bool,
                      ghost nodes: seq<FilterNode>, ghost fs: seq<Filter>)
    returns (end: nat)
    requires FiltersLinked(head, nodes) && Holds(nodes, fs)
    requires forall n <- nodes :: n.buf != message
    requires start + |FiltersBytes(fs, withQos)| <= message.Length
    modifies message
    ensures end == start + |FiltersBytes(fs, withQos)|
    ensures message[..end] == old(message[..start]) + FiltersBytes(fs, withQos)
    ensures forall j :: end <= j < message.Length ==> message[j] == old(message[j])
  {
    end := start;
    var cur := head;
    ghost var i := 0;
    ghost var goal := message[..start] + FiltersBytes(fs, withQos);
    assert fs[0..] == fs;
    while cur != null
      invariant 0 <= i <= |nodes|
      invariant cur == NodeAt(nodes, i)
      invariant FiltersLinked(head, nodes) && Holds(nodes, fs)
      invariant end <= message.Length
      invariant goal == message[..end] + FiltersBytes(fs[i..], withQos)
      invariant forall j :: |goal| <= j < message.Length ==> message[j] == old(message[j])
      decreases |nodes| - i
    {
      BytesStep(fs, i, withQos);
      end := WriteFilter(message, end, cur, withQos, fs[i], FiltersBytes(fs[i + 1..], withQos));
      assert cur == nodes[i];
      cur := cur.next;
      i := i + 1;
    }
  }

  method WriteFilter(message: array<byte>, start: nat, cur: FilterNode, withQos: bool,
                     ghost f: Filter, ghost rest: seq<byte>)
    returns (end: nat)
    requires cur.off + cur.len <= cur.buf.Length && cur.Value() == f && cur.buf != message
    requires start + |FilterBytes(f, withQos)| <= message.Length
    modifies message
    ensures end == start + |FilterBytes(f, withQos)|
    ensures message[..end] + rest == old(message[..start]) + (FilterBytes(f, withQos) + rest)
    ensures forall j :: end <= j < message.Length ==> message[j] == old(message[j])
  {
    var fieldLen := BuildStringField(cur.buf[cur.off..cur.off + cur.len], message, start);
    end := start + fieldLen;
    if withQos {
      Put(message, end, cur.qos % 4);
      end := end + 1;
    }
  }

  lemma FrameParts(packetId: uint16, fs: seq<Filter>, withQos: bool)
    ensures FilterFrame(packetId, fs, withQos) ==
            [First(withQos)] + EncodeLength(|Body(packetId, fs, withQos)|)
            + Be16(packetId) + FiltersBytes(fs, withQos)
  {
  }

  lemma FrameSize(packetId: uint16, fs: seq<Filter>, withQos: bool)
    ensures var n := 2 + FiltersSize(fs, withQos);
            |Body(packetId, fs, withQos)| == n && |FilterFrame(packetId, fs, withQos)| == 1 + |EncodeLength(n)| + n
  {
    FiltersSizeExact(fs, withQos);
  }

  /** The writing half of the builders, once the buffer is known to be large enough. */
  method EmitFilterMessage(packetId: uint16, head: FilterNode?, message: array<byte>, withQos: bool,
                           encoded: seq<byte>,
                           ghost nodes: seq<FilterNode>, ghost fs: seq<Filter>)
    returns (messageLen: nat)
    requires FiltersLinked(head, nodes) && Holds(nodes, fs)
    requires forall n <- nodes :: n.buf != message
    requires |encoded| + 3 + |FiltersBytes(fs, withQos)| <= message.Length
    modifies message
    ensures messageLen == |encoded| + 3 + |FiltersBytes(fs, withQos)|
    ensures message[..messageLen] == [First(withQos)] + encoded + Be16(packetId) + FiltersBytes(fs, withQos)
    ensures forall j :: messageLen <= j < message.Length ==> message[j] == old(message[j])
  {
    var pos := PutHeader(message, if withQos then SUBSCRIBE_FIRST else UNSUBSCRIBE_FIRST, encoded);
    Copy(message, pos, Be16(packetId));
    messageLen := WriteFilters(message, pos + 2, head, withQos, nodes, fs);
  }

  /** `subscribe_message_build` and `unsubscribe_message_build`. A buffer that is too small
      is left alone, and so is the caller's length. */
  method FilterMessageBuild(packetId: uint16, head: FilterNode?, message: array<byte>, bufferLen: uint32,
                            withQos: bool, ghost nodes: seq<FilterNode>, ghost fs: seq<Filter>)
    returns (status: Status, messageLen: nat)
    requires FiltersLinked(head, nodes) && Holds(nodes, fs)
    requires forall n <- nodes :: n.buf != message
    requires |Body(packetId, fs, withQos)| < MAX_BODY
    requires bufferLen <= message.Length
    modifies message
    ensures status == if fs != [] && |FilterFrame(packetId, fs, withQos)| <= bufferLen then Success else InvalidParam
    ensures status == Success ==>
              && messageLen == |FilterFrame(packetId, fs, withQos)|
              && message[..messageLen] == FilterFrame(packetId, fs, withQos)
              && forall j :: messageLen <= j < message.Length ==> message[j] == old(message[j])
    ensures status != Success ==> messageLen == bufferLen && message[..] == old(message[..])
  {
    if head == null {
      return InvalidParam, bufferLen;
    }
    var remainLen := CountFilters(2, head, withQos, nodes, fs);
    FrameSize(packetId, fs, withQos);
    var encoded := EncodeField(remainLen);
    if bufferLen < |encoded| + remainLen + 1 {
      return InvalidParam, bufferLen;
    }
    FrameParts(packetId, fs, withQos);
    messageLen := EmitFilterMessage(packetId, head, message, withQos, encoded, nodes, fs);
    status := Success;
  }

  ghost function Prefixed(done: seq<Filter>, r: Parsed<seq<Filter>>): Parsed<seq<Filter>> {
    if r.Ok? then Ok(done + r.value) else r
  }

  lemma PrefixedTwice(done: seq<Filter>, f: Filter, r: Parsed<seq<Filter>>)
    ensures Prefixed(done, Prefixed([f], r)) == Prefixed(done + [f], r)
  {
    if r.Ok? {
      assert done + ([f] + r.value) == done + [f] + r.value;
    }
  }

  lemma ParseBounds(s: seq<byte>, withQos: bool)
    requires s != [] && !ParseFilters(s, withQos).Undefined?
    ensures |s| >= 2 && |s| >= StrLen(s) + Overhead(withQos)
  {
  }

  /** One turn of the parsing loop, with its parts as variables. */
  lemma ParseStep(s: seq<byte>, withQos: bool, n: nat, topic: str16, qos: byte, rest: seq<byte>)
    requires s != [] && !ParseFilters(s, withQos).Undefined?
    requires |s| >= 2 && n == StrLen(s) && |s| >= n + Overhead(withQos)
    requires topic == s[2..n + 2] && qos == (if withQos then s[n + 2] else 0)
    requires rest == s[n + Overhead(withQos)..]
    ensures ParseFilters(s, withQos) ==
            if withQos && qos > 2 then Err(SubscribeMessageError)
            else Prefixed([Filter(topic, qos)], ParseFilters(rest, withQos))
  {
  }

  /** One filter at `pos`: where its topic is, its QoS and where it ends. */
  method ScanFilter(message: array<byte>, pos: nat, end: nat, withQos: bool)
    returns (status: Status, topic: nat, len: nat, qos: byte, after: nat, ghost f: Filter)
    requires pos < end <= message.Length
    requires !ParseFilters(message[pos..end], withQos).Undefined?
    ensures topic + len <= message.Length && len < 0x1_0000
    ensures f.topic == message[topic..topic + len] && f.qos == qos
    ensures status == Success ==>
              && pos < after <= end
              && ParseFilters(message[pos..end], withQos) ==
                 Prefixed([f], ParseFilters(message[after..end], withQos))
    ensures status != Success ==> ParseFilters(message[pos..end], withQos) == Err(status)
  {
    ScanBounds(message, pos, end, withQos);
    topic, len := LocateStringField(message, pos);
    after, qos := topic + len, 0;
    if withQos {
      qos := message[after];
      after := after + 1;
    }
    f := Filter(message[topic..topic + len], qos);
    ScanIs(message, pos, end, withQos, len, qos, after, f);
    status := if qos > 2 then SubscribeMessageError else Success;
  }

  lemma ScanBounds(message: array<byte>, pos: nat, end: nat, withQos: bool)
    requires pos < end <= message.Length
    requires !ParseFilters(message[pos..end], withQos).Undefined?
    ensures pos + 2 <= end && pos + StrLen(message[pos..pos + 2]) + Overhead(withQos) <= end
  {
    ParseBounds(message[pos..end], withQos);
    FirstTwo(message, pos, end);
  }

  /** What was scanned at `pos` is what the parser makes of the bytes there. */
  lemma ScanIs(message: array<byte>, pos: nat, end: nat, withQos: bool, len: nat, qos: byte, after: nat, f: Filter)
    requires pos + 2 <= end <= message.Length && len == StrLen(message[pos..pos + 2])
    requires after == pos + len + Overhead(withQos) <= end
    requires qos == if withQos then message[pos + 2 + len] else 0
    requires f.topic == message[pos + 2..pos + 2 + len] && f.qos == qos
    requires !ParseFilters(message[pos..end], withQos).Undefined?
    ensures ParseFilters(message[pos..end], withQos) ==
            if withQos && qos > 2 then Err(SubscribeMessageError)
            else Prefixed([f], ParseFilters(message[after..end], withQos))
  {
    FirstTwo(message, pos, end);
    Window(message, pos, end, 2, len + 2);
    WindowTail(message, pos, end, len + Overhead(withQos));
    var s := message[pos..end];
    assert withQos ==> s[len + 2] == message[pos + 2 + len];
    ParseStep(s, withQos, len, f.topic, qos, message[after..end]);
  }

  lemma FirstTwo(message: array<byte>, pos: nat, end: nat)
    requires pos + 2 <= end <= message.Length
    ensures StrLen(message[pos..pos + 2]) == StrLen(message[pos..end])
  {
  }

  method ReadFilter(message: array<byte>, pos: nat, end: nat, withQos: bool)
    returns (status: Status, cur: FilterNode, after: nat, ghost f: Filter)
    requires pos < end <= message.Length
    requires !ParseFilters(message[pos..end], withQos).Undefined?
    ensures fresh(cur) && cur.next == null && cur.buf == message
    ensures cur.off + cur.len <= message.Length && cur.Value() == f
    ensures status == Success ==>
              && pos < after <= end
              && ParseFilters(message[pos..end], withQos) ==
                 Prefixed([f], ParseFilters(message[after..end], withQos))
    ensures status != Success ==> ParseFilters(message[pos..end], withQos) == Err(status)
  {
    var topic, len, qos;
    status, topic, len, qos, after, f := ScanFilter(message, pos, end, withQos);
    cur := new FilterNode(message, topic, len, qos);
  }

  /** `pre` is the last node of the list that hangs off the dummy head. */
  ghost predicate Chained(dummy: FilterNode, pre: FilterNode, nodes: seq<FilterNode>)
    reads dummy, nodes
  {
    && FiltersLinked(dummy.next, nodes)
    && dummy !in nodes
    && (forall i, j :: 0 <= i < j < |nodes| ==> nodes[i] != nodes[j])
    && pre == if nodes == [] then dummy else nodes[|nodes| - 1]
  }

  method LinkLast(dummy: FilterNode, pre: FilterNode, cur: FilterNode,
                  ghost nodes: seq<FilterNode>, ghost fs: seq<Filter>, ghost f: Filter)
    requires Chained(dummy, pre, nodes) && Holds(nodes, fs)
    requires cur != dummy && cur !in nodes && cur.next == null
    requires cur.off + cur.len <= cur.buf.Length && cur.Value() == f
    modifies pre
    ensures Chained(dummy, cur, nodes + [cur]) && Holds(nodes + [cur], fs + [f])
  {
    pre.next := cur;
  }

  ghost predicate Within(nodes: seq<FilterNode>, message: array<byte>) {
    forall n <- nodes :: n.buf == message
  }

  /** One turn of the parsing loop. */
  method ReadNext(message: array<byte>, pos: nat, end: nat, withQos: bool,
                  dummy: FilterNode, pre: FilterNode, ghost nodes: seq<FilterNode>, ghost fs: seq<Filter>)
    returns (status: Status, cur: FilterNode, after: nat, ghost f: Filter)
    requires pos < end <= message.Length
    requires !ParseFilters(message[pos..end], withQos).Undefined?
    requires Chained(dummy, pre, nodes) && Holds(nodes, fs) && Within(nodes, message)
    modifies pre
    ensures fresh(cur)
    ensures status == Success ==>
              && pos < after <= end
              && Chained(dummy, cur, nodes + [cur]) && Holds(nodes + [cur], fs + [f]) && Within(nodes + [cur], message)
              && Prefixed(fs, ParseFilters(message[pos..end], withQos)) ==
                 Prefixed(fs + [f], ParseFilters(message[after..end], withQos))
    ensures status != Success ==> ParseFilters(message[pos..end], withQos) == Err(status)
  {
    status, cur, after, f := ReadFilter(message, pos, end, withQos);
    if status == Success {
      PrefixedTwice(fs, f, ParseFilters(message[after..end], withQos));
      LinkLast(dummy, pre, cur, nodes, fs, f);
    }
  }

  /** The parsing loop. The topics of the list point into the message. */
  method ReadFilters(message: array<byte>, start: nat, end: nat, withQos: bool)
    returns (status: Status, head: FilterNode?, ghost nodes: seq<FilterNode>, ghost fs: seq<Filter>)
    requires start <= end <= message.Length
    requires !ParseFilters(message[start..end], withQos).Undefined?
    ensures ParseFilters(message[start..end], withQos) == if status == Success then Ok(fs) else Err(status)
    ensures status == Success ==> FiltersLinked(head, nodes) && Holds(nodes, fs) && Within(nodes, message)
  {
    var dummy := new FilterNode(message, 0, 0, 0);
    var pre, pos := dummy, start;
    head, nodes, fs := null, [], [];
    ghost var goal := ParseFilters(message[start..end], withQos);
    assert goal.Ok? ==> [] + goal.value == goal.value;
    while pos < end
      invariant start <= pos <= end
      invariant Chained(dummy, pre, nodes) && Holds(nodes, fs) && Within(nodes, message)
      invariant goal == Prefixed(fs, ParseFilters(message[pos..end], withQos))
      invariant fresh(pre)
      decreases end - pos
    {
      var cur, after;
      ghost var f;
      status, cur, after, f := ReadNext(message, pos, end, withQos, dummy, pre, nodes, fs);
      if status != Success {
        return;
      }
      pre, pos := cur, after;
      nodes, fs := nodes + [cur], fs + [f];
    }
    assert fs + [] == fs;
    status, head := Success, dummy.next;
  }

  method ParseBodyAt(message: array<byte>, start: nat, end: nat, withQos: bool)
    returns (status: Status, packetId: uint16, head: FilterNode?,
             ghost nodes: seq<FilterNode>, ghost fs: seq<Filter>)
    requires start <= end <= message.Length
    requires !ParseBody(message[start..end], withQos).Undefined?
    ensures ParseBody(message[start..end], withQos) ==
            if status == Success then Ok(Subscription(packetId, fs)) else Err(status)
    ensures status == Success ==> FiltersLinked(head, nodes) && Holds(nodes, fs) && Within(nodes, message)
  {
    ghost var body := message[start..end];
    packetId := message[start] as int * 256 + message[start + 1] as int;
    assert packetId == FromBe16(body);
    assert body[2..] == message[start + 2..end];
    status, head, nodes, fs := ReadFilters(message, start + 2, end, withQos);
  }

  /** `subscribe_message_parse` and `unsubscribe_message_parse`, on frames for which the C
      code is defined. */
  method FilterMessageParse(message: array<byte>, messageLen: uint32, withQos: bool)
    returns (status: Status, packetId: uint16, head: FilterNode?, ghost nodes: seq<FilterNode>)
    requires messageLen <= message.Length
    requires !ParseFilterMessage(message[..messageLen], withQos).Undefined?
    ensures ParseFilterMessage(message[..messageLen], withQos).Err? ==>
              ParseFilterMessage(message[..messageLen], withQos) == Err(status)
    ensures status == Success <==> ParseFilterMessage(message[..messageLen], withQos).Ok?
    ensures status == Success ==> packetId == ParseFilterMessage(message[..messageLen], withQos).value.packetId
    ensures status == Success ==>
              && FiltersLinked(head, nodes) && Within(nodes, message)
              && Holds(nodes, ParseFilterMessage(message[..messageLen], withQos).value.filters)
  {
    packetId, head, nodes := 0, null, [];
    if messageLen == 0 {
      return InvalidParam, 0, null, [];
    }
    var start;
    status, start := OpenMessage(message, messageLen, if withQos then SUBSCRIBE_FIRST else UNSUBSCRIBE_FIRST,
                                 SubscribeMessageError);
    if status == Success {
      ghost var fs;
      status, packetId, head, nodes, fs := ParseBodyAt(message, start, messageLen, withQos);
    }
  }
}
