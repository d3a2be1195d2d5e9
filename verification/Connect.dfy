/** src/message/msg_connect.c: what CONNECT means as bytes, and that building and parsing
    undo each other. */
module Connect {
  import opened Bytes
  import opened Message

  const CONNECT_FIRST: byte := 0x10
  const CLIENT_ID_MAX := 23

  /** A pointer with a length: the caller may leave the pointer NULL. */
  datatype Field = Null(n: uint16) | Ptr(s: str16) {
    function Len(): uint16 {
      match this
      case Null(n) => n
      case Ptr(s) => |s|
    }

    /** `p != NULL && len > 0`. */
    predicate Given() {
      Ptr? && s != []
    }
  }

  datatype Connection = Connection(clientId: Field, willTopic: Field, willMsg: Field,
                                   username: Field, password: Field, keepAlive: uint16,
                                   cleanSession: byte, willRetain: byte, willQos: byte) {
    predicate HasWill() {
      willTopic.Given() && willMsg.Given()
    }

    predicate HasUsername() {
      username.Given()
    }

    predicate HasPassword() {
      username.Given() && password.Given()
    }

    /** The builder accepts everything but an overlong or missing client id. */
    predicate Buildable() {
      clientId.Len() <= CLIENT_ID_MAX && (clientId.Null? ==> clientId.n == 0)
    }
  }

  // ---------- bytes ----------

  function Bit(b: bool): int {
    if b then 1 else 0
  }

  /** The will QoS bits: an invalid QoS leaves them clear. */
  function QosField(c: Connection): int {
    if c.HasWill() && c.willQos <= 2 then c.willQos else 0
  }

  function Flags(c: Connection): byte {
    2 * Bit(c.cleanSession != 0) + 4 * Bit(c.HasWill()) + 8 * QosField(c)
    + 32 * Bit(c.HasWill() && c.willRetain != 0) + 64 * Bit(c.HasPassword()) + 128 * Bit(c.HasUsername())
  }

  function VarHeader(flags: byte, keepAlive: uint16): (s: seq<byte>)
    ensures |s| == 10
  {
    [0, 4, 0x4D, 0x51, 0x54, 0x54, 4, flags] + Be16(keepAlive)
  }

  /** The string field of `f`; a NULL pointer of length 0 is an empty string. */
  function FieldBytes(f: Field): seq<byte> {
    if f.Ptr? then Str(f.s) else Str([])
  }

  /** One optional field of the payload: whether its flag is set, and whether it may be empty. */
  datatype Slot = Slot(present: bool, mayBeEmpty: bool)

  /** Will topic, will message, user name and password, in the order of section 3.1.3. */
  function Slots(will: bool, username: bool, password: bool): (r: seq<Slot>)
    ensures |r| == 4
  {
    [Slot(will, false), Slot(will, false), Slot(username, false), Slot(password, true)]
  }

  function SlotBytes(slot: Slot, f: Field): seq<byte> {
    if slot.present then FieldBytes(f) else []
  }

  function SlotsBytes(slots: seq<Slot>, fs: seq<Field>): seq<byte>
    requires |slots| == |fs|
  {
    if slots == [] then [] else SlotBytes(slots[0], fs[0]) + SlotsBytes(slots[1..], fs[1..])
  }

  function SlotsOf(c: Connection): seq<Slot> {
    Slots(c.HasWill(), c.HasUsername(), c.HasPassword())
  }

  function Optionals(c: Connection): (r: seq<Field>)
    ensures |r| == 4
  {
    [c.willTopic, c.willMsg, c.username, c.password]
  }

  function Payload(c: Connection): seq<byte> {
    FieldBytes(c.clientId) + SlotsBytes(SlotsOf(c), Optionals(c))
  }

  function Body(c: Connection): seq<byte> {
    VarHeader(Flags(c), c.keepAlive) + Payload(c)
  }

  function ConnectFrame(c: Connection): seq<byte> {
    Frame(CONNECT_FIRST, Body(c))
  }

  /** What reaches the other side: incomplete wills, passwords without a user name and flags
      other than 0 and 1 are not sent. */
  function Sent(c: Connection): Connection {
    Connection(c.clientId,
               if c.HasWill() then c.willTopic else Null(0),
               if c.HasWill() then c.willMsg else Null(0),
               if c.HasUsername() then c.username else Null(0),
               if c.HasPassword() then c.password else Null(0),
               c.keepAlive, Bit(c.cleanSession != 0),
               Bit(c.HasWill() && c.willRetain != 0), QosField(c))
  }

  // ---------- parsing ----------

  /** The conflict check on the will flags tests the out-pointers, which are never NULL.
      `AsLogged` is the test that its own log message describes: the values. */
  datatype Reading = AsWritten | AsLogged

  datatype Taken = Taken(field: Field, rest: seq<byte>)

  /** A field of the payload when its flag is set: user name and will must not be empty, an
      empty password leaves the pointer NULL. */
  function TakeField(slot: Slot, s: seq<byte>): Parsed<Taken> {
    if !slot.present then Ok(Taken(Null(0), s))
    else if |s| < 2 then Undefined
    else
      var n := StrLen(s);
      if n == 0 && !slot.mayBeEmpty then Err(ConnectMessageError)
      else if n > |s| - 2 then Err(ConnectMessageError)
      else Ok(Taken(if n == 0 then Null(0) else Ptr(s[2..n + 2]), s[n + 2..]))
  }

  function TakeFields(slots: seq<Slot>, s: seq<byte>): (r: Parsed<seq<Field>>)
    ensures r.Ok? ==> |r.value| == |slots|
  {
    if slots == [] then if s == [] then Ok([]) else Err(ConnectMessageError)
    else
      match TakeField(slots[0], s)
      case Err(e) => Err(e)
      case Undefined => Undefined
      case Ok(p) =>
        match TakeFields(slots[1..], p.rest)
        case Ok(fs) => Ok([p.field] + fs)
        case Err(e) => Err(e)
        case Undefined => Undefined
  }

  function TakeClientId(s: seq<byte>): Parsed<Taken> {
    if |s| < 2 then Err(ConnectMessageError)
    else
      var n := StrLen(s);
      if n == 0 || n > CLIENT_ID_MAX then Err(ClientIdLengthUnsupport)
      else if |s| - 2 < n then Err(ConnectMessageError)
      else Ok(Taken(Ptr(s[2..n + 2]), s[n + 2..]))
  }

  datatype FlagBits = FlagBits(username: bool, password: bool, retain: bool, qos: byte, will: bool, clean: bool)

  function Unflag(flags: byte): FlagBits {
    var q := flags / 8 % 4;
    FlagBits(flags / 128 % 2 == 1, flags / 64 % 2 == 1, flags / 32 % 2 == 1,
             if q > 2 then 0 else q, flags / 4 % 2 == 1, flags / 2 % 2 == 1)
  }

  function SlotsIn(b: FlagBits): seq<Slot> {
    Slots(b.will, b.username, b.password)
  }

  /** Client id first, then the optional fields. */
  function ParseFields(b: FlagBits, s: seq<byte>): (r: Parsed<seq<Field>>)
    ensures r.Ok? ==> |r.value| == 5
  {
    match TakeClientId(s)
    case Err(e) => Err(e)
    case Undefined => Undefined
    case Ok(p) =>
      match TakeFields(SlotsIn(b), p.rest)
      case Ok(fs) => Ok([p.field] + fs)
      case Err(e) => Err(e)
      case Undefined => Undefined
  }

  function FlagsConflict(b: FlagBits, reading: Reading): bool {
    || (!b.will && (reading.AsWritten? || b.retain || b.qos != 0))
    || (!b.username && b.password)
  }

  /** Protocol name and level, byte by byte: a mismatch is reported before the bytes behind it
      are read, so that even a short body may be rejected inside the frame. */
  function CheckedHeader(body: seq<byte>): Parsed<()> {
    if body == [] then Undefined
    else if body[0] != 0 then Err(ProtocolUnsupport)
    else if |body| < 2 then Undefined
    else if body[1] != 4 then Err(ProtocolUnsupport)
    else if |body| < 6 then Undefined
    else if body[2..6] != [0x4D, 0x51, 0x54, 0x54] then Err(ProtocolUnsupport)
    else if |body| < 7 then Undefined
    else if body[6] != 4 then Err(ProtocolLevelUnsupport)
    else if |body| < 10 then Undefined
    else Ok(())
  }

  /** Behind the protocol level: flags, keep-alive and the payload. */
  function ParseChecked(body: seq<byte>, reading: Reading): Parsed<Connection>
    requires |body| >= 10
  {
    var b := Unflag(body[7]);
    if FlagsConflict(b, reading) then Err(ConnectFlagsError)
    else
      match ParseFields(b, body[10..])
      case Ok(f) => Ok(Connection(f[0], f[1], f[2], f[3], f[4],
                                  FromBe16(body[8..]), Bit(b.clean), Bit(b.retain), b.qos))
      case Err(e) => Err(e)
      case Undefined => Undefined
  }

  function ParseBody(body: seq<byte>, reading: Reading): Parsed<Connection> {
    match CheckedHeader(body)
    case Ok(_) => ParseChecked(body, reading)
    case Err(e) => Err(e)
    case Undefined => Undefined
  }

  function ParseConnect(m: seq<byte>, reading: Reading): Parsed<Connection> {
    if m == [] then Undefined
    else
      match OpenBody(m, CONNECT_FIRST, InvalidParam)
      case Ok(body) => ParseBody(body, reading)
      case Err(e) => Err(e)
      case Undefined => Undefined
  }

  // ---------- sizes ----------

  function SlotSize(present: bool, f: Field): nat {
    if present then f.Len() + 2 else 0
  }

  /** The first sizing pass of the builder. */
  function PayloadSize(c: Connection): nat {
    c.clientId.Len() + 2
    + SlotSize(c.HasWill(), c.willTopic) + SlotSize(c.HasWill(), c.willMsg)
    + SlotSize(c.HasPassword(), c.password) + SlotSize(c.HasUsername(), c.username)
  }

  /** `connect_message_len_calc`: every field counts, sent or not. */
  function CalcSize(c: Connection): nat {
    15 + (c.clientId.Len() + 2) + (c.willTopic.Len() + 2) + (c.willMsg.Len() + 2)
    + (c.username.Len() + 2) + (c.password.Len() + 2)
  }

  /** The first pass counts exactly the bytes that the second pass writes, for every
      combination of fields, and the calculated buffer is always large enough. */
  lemma ConnectSizes(c: Connection)
    requires c.Buildable()
    ensures |Payload(c)| == PayloadSize(c)
    ensures |Body(c)| == 10 + PayloadSize(c) < MAX_BODY
    ensures |ConnectFrame(c)| == 1 + |EncodeLength(10 + PayloadSize(c))| + 10 + PayloadSize(c) <= CalcSize(c)
  {
    FourSlots(SlotsOf(c), Optionals(c));
    BodyFitsFour(|Body(c)|);
  }

  lemma FourSlots(slots: seq<Slot>, fs: seq<Field>)
    requires |slots| == |fs| == 4
    ensures SlotsBytes(slots, fs) ==
            SlotBytes(slots[0], fs[0]) + (SlotBytes(slots[1], fs[1])
            + (SlotBytes(slots[2], fs[2]) + (SlotBytes(slots[3], fs[3]) + [])))
  {
    SlotsStep(slots, fs, 0);
    SlotsStep(slots, fs, 1);
    SlotsStep(slots, fs, 2);
    SlotsStep(slots, fs, 3);
    assert slots[0..] == slots && fs[0..] == fs;
  }

  lemma SlotsStep(slots: seq<Slot>, fs: seq<Field>, i: nat)
    requires i < |slots| == |fs|
    ensures SlotsBytes(slots[i..], fs[i..]) == SlotBytes(slots[i], fs[i]) + SlotsBytes(slots[i + 1..], fs[i + 1..])
  {
    assert slots[i..][1..] == slots[i + 1..] && fs[i..][1..] == fs[i + 1..];
  }

  // ---------- build, then parse ----------

  /** What a flagged field may hold: only a password may be empty. */
  predicate Fits(slot: Slot, f: Field) {
    f.Given() || (slot.mayBeEmpty && f == Null(0))
  }

  lemma TakeWritten(slot: Slot, f: Field, tail: seq<byte>)
    requires slot.present ==> Fits(slot, f)
    ensures TakeField(slot, SlotBytes(slot, f) + tail) == Ok(Taken(if slot.present then f else Null(0), tail))
  {
    if slot.present {
      StrRoundTrip(if f.Ptr? then f.s else [], tail);
    } else {
      assert [] + tail == tail;
    }
  }

  function Present(slots: seq<Slot>, fs: seq<Field>): (r: seq<Field>)
    requires |slots| == |fs|
    ensures |r| == |fs|
    ensures forall i :: 0 <= i < |fs| ==> r[i] == if slots[i].present then fs[i] else Null(0)
  {
    seq(|fs|, i requires 0 <= i < |fs| => if slots[i].present then fs[i] else Null(0))
  }

  lemma {:induction false} TakeFieldsWritten(slots: seq<Slot>, fs: seq<Field>)
    requires |slots| == |fs|
    requires forall i :: 0 <= i < |fs| && slots[i].present ==> Fits(slots[i], fs[i])
    ensures TakeFields(slots, SlotsBytes(slots, fs)) == Ok(Present(slots, fs))
  {
    if slots == [] {
      assert Present(slots, fs) == [];
    } else {
      TakeWritten(slots[0], fs[0], SlotsBytes(slots[1..], fs[1..]));
      TakeFieldsWritten(slots[1..], fs[1..]);
      assert [Present(slots, fs)[0]] + Present(slots[1..], fs[1..]) == Present(slots, fs);
    }
  }

  lemma FlagsRoundTrip(c: Connection)
    ensures Unflag(Flags(c)) ==
            FlagBits(c.HasUsername(), c.HasPassword(), c.HasWill() && c.willRetain != 0,
                     QosField(c), c.HasWill(), c.cleanSession != 0)
    ensures Flags(c) % 2 == 0 && Flags(c) / 8 % 4 == QosField(c)
  {
    var u, p, r := Bit(c.HasUsername()), Bit(c.HasPassword()), Bit(c.HasWill() && c.willRetain != 0);
    var q, w, s := QosField(c), Bit(c.HasWill()), Bit(c.cleanSession != 0);
    FlagArithmetic(u, p, r, q, w, s);
  }

  lemma FlagArithmetic(u: nat, p: nat, r: nat, q: nat, w: nat, s: nat)
    requires u <= 1 && p <= 1 && r <= 1 && q <= 3 && w <= 1 && s <= 1
    ensures var f := 2 * s + 4 * w + 8 * q + 32 * r + 64 * p + 128 * u;
            && f / 128 % 2 == u && f / 64 % 2 == p && f / 32 % 2 == r
            && f / 8 % 4 == q && f / 4 % 2 == w && f / 2 % 2 == s && f % 2 == 0
  {
    var f := 2 * s + 4 * w + 8 * q + 32 * r + 64 * p + 128 * u;
    assert f / 2 == s + 2 * (w + 2 * q + 8 * r + 16 * p + 32 * u);
    assert f / 4 == w + 2 * (q + 4 * r + 8 * p + 16 * u);
    assert f / 8 == q + 4 * (r + 2 * p + 4 * u);
    assert f / 32 == r + 2 * (p + 2 * u);
    assert f / 64 == p + 2 * u;
  }

  lemma FieldsRoundTrip(c: Connection)
    requires c.Buildable() && c.clientId.Given()
    ensures var d := Sent(c);
            ParseFields(Unflag(Flags(c)), Payload(c)) ==
            Ok([d.clientId, d.willTopic, d.willMsg, d.username, d.password])
  {
    FlagsRoundTrip(c);
    StrRoundTrip(c.clientId.s, SlotsBytes(SlotsOf(c), Optionals(c)));
    TakeFieldsWritten(SlotsOf(c), Optionals(c));
    var d := Sent(c);
    assert Present(SlotsOf(c), Optionals(c)) == Optionals(d);
    assert [d.clientId] + Optionals(d) == [d.clientId, d.willTopic, d.willMsg, d.username, d.password];
  }

  lemma NoClientId(c: Connection)
    requires c.Buildable() && !c.clientId.Given()
    ensures ParseFields(Unflag(Flags(c)), Payload(c)) == Err(ClientIdLengthUnsupport)
  {
    var tail := Payload(c)[2..];
    assert FieldBytes(c.clientId) == [0, 0];
    assert Payload(c)[0] == 0 && Payload(c)[1] == 0;
  }

  lemma HeaderRoundTrip(flags: byte, keepAlive: uint16, payload: seq<byte>)
    ensures var body := VarHeader(flags, keepAlive) + payload;
            && CheckedHeader(body) == Ok(())
            && body[7] == flags && FromBe16(body[8..]) == keepAlive && body[10..] == payload
  {
    var body := VarHeader(flags, keepAlive) + payload;
    assert body[2..6] == [0x4D, 0x51, 0x54, 0x54];
    assert body[8] == keepAlive / 256 && body[9] == keepAlive % 256;
  }

  /** Everything the builder accepts: parsed as written, a frame without a will is rejected,
      whatever else it holds; an empty client id is rejected; and otherwise parsing gives
      back exactly what was sent. */
  lemma ConnectParsesTo(c: Connection, reading: Reading)
    requires c.Buildable()
    ensures ParseConnect(ConnectFrame(c), reading) ==
            if reading.AsWritten? && !c.HasWill() then Err(ConnectFlagsError)
            else if !c.clientId.Given() then Err(ClientIdLengthUnsupport)
            else Ok(Sent(c))
  {
    ConnectSizes(c);
    OpenBodyOfFrame(CONNECT_FIRST, Body(c), InvalidParam);
    HeaderRoundTrip(Flags(c), c.keepAlive, Payload(c));
    FlagsRoundTrip(c);
    if c.clientId.Given() {
      FieldsRoundTrip(c);
    } else {
      NoClientId(c);
    }
  }

  /** A caller's condition for sending everything as given. */
  predicate SendsAll(c: Connection) {
    && (c.HasWill() || (c.willTopic == Null(0) && c.willMsg == Null(0) && c.willRetain == 0 && c.willQos == 0))
    && (c.HasUsername() || c.username == Null(0))
    && (c.HasPassword() || c.password == Null(0))
    && c.cleanSession <= 1 && c.willRetain <= 1 && c.willQos <= 2
  }

  /** Building and then parsing gives the same connection exactly when all of it is sent, the
      client id is not empty and, as the parser is written, there is a will. */
  lemma ConnectRoundTripIff(c: Connection, reading: Reading)
    requires c.Buildable()
    ensures ParseConnect(ConnectFrame(c), reading) == Ok(c) <==>
            SendsAll(c) && c.clientId.Given() && (reading.AsWritten? ==> c.HasWill())
  {
    ConnectParsesTo(c, reading);
    assert Sent(c) == c <==> SendsAll(c);
  }

  /** A connection without a will that a caller would expect to come back: as the parser is
      written it is rejected, read as its log message says it round-trips. */
  lemma WillLessConnection()
    ensures var c := Connection(Ptr([0x61]), Null(0), Null(0), Null(0), Null(0), 60, 1, 0, 0);
            && ParseConnect(ConnectFrame(c), AsWritten) == Err(ConnectFlagsError)
            && ParseConnect(ConnectFrame(c), AsLogged) == Ok(c)
  {
    var c := Connection(Ptr([0x61]), Null(0), Null(0), Null(0), Null(0), 60, 1, 0, 0);
    ConnectParsesTo(c, AsWritten);
    ConnectRoundTripIff(c, AsLogged);
  }

  // ---------- parse, then build ----------

  lemma TakeAgain(slot: Slot, s: seq<byte>)
    requires TakeField(slot, s).Ok?
    ensures var p := TakeField(slot, s).value;
            && SlotBytes(slot, p.field) + p.rest == s
            && (slot.present && !slot.mayBeEmpty ==> p.field.Given())
            && (!slot.present ==> p.field == Null(0))
            && (p.field == Null(0) || p.field.Given())
  {
    if slot.present {
      StrAgain(s);
      assert s[2..2 + 0] == [];
    } else {
      assert [] + s == s;
    }
  }

  lemma {:induction false} TakeFieldsAgain(slots: seq<Slot>, s: seq<byte>)
    requires TakeFields(slots, s).Ok?
    ensures var fs := TakeFields(slots, s).value;
            && SlotsBytes(slots, fs) == s
            && forall i :: 0 <= i < |fs| ==>
                 && (slots[i].present && !slots[i].mayBeEmpty ==> fs[i].Given())
                 && (!slots[i].present ==> fs[i] == Null(0))
                 && (fs[i] == Null(0) || fs[i].Given())
  {
    if slots == [] {
    } else {
      TakeAgain(slots[0], s);
      var p := TakeField(slots[0], s).value;
      TakeFieldsAgain(slots[1..], p.rest);
      var fs := TakeFields(slots, s).value;
      assert fs[1..] == TakeFields(slots[1..], p.rest).value;
    }
  }

  /** The flag byte that the builder would compute for what was parsed. */
  lemma FlagsAgainIff(c: Connection, flags: byte)
    requires var b := Unflag(flags);
             && c.HasWill() == b.will && c.HasUsername() == b.username
             && c.cleanSession == Bit(b.clean) && c.willRetain == Bit(b.retain) && c.willQos == b.qos
             && (!b.will ==> !b.retain && b.qos == 0)
             && (!b.username ==> !b.password) && (!b.password ==> !c.HasPassword())
    ensures Flags(c) == flags <==>
            flags % 2 == 0 && flags / 8 % 4 != 3 && (flags / 64 % 2 == 1 ==> c.HasPassword())
  {
    FlagsRoundTrip(c);
    SameBitsIff(Flags(c), flags);
  }

  lemma SameBitsIff(f: byte, g: byte)
    ensures f == g <==> f % 2 == g % 2 && f / 8 % 4 == g / 8 % 4 && Unflag(f) == Unflag(g)
  {
    BitsOf(f);
    BitsOf(g);
    SameFlag(f / 128, g / 128);
    SameFlag(f / 64, g / 64);
    SameFlag(f / 32, g / 32);
    SameFlag(f / 4, g / 4);
    SameFlag(f / 2, g / 2);
  }

  lemma SameFlag(x: nat, y: nat)
    ensures (x % 2 == 1) == (y % 2 == 1) <==> x % 2 == y % 2
  {
  }

  lemma NestedHalves(n: nat)
    ensures n / 4 == n / 2 / 2 && n / 8 == n / 4 / 2 && n / 32 == n / 8 / 4
    ensures n / 64 == n / 32 / 2 && n / 128 == n / 64 / 2
  {
  }

  lemma BitsOf(f: byte)
    ensures f == f % 2 + 2 * (f / 2 % 2) + 4 * (f / 4 % 2) + 8 * (f / 8 % 4)
                 + 32 * (f / 32 % 2) + 64 * (f / 64 % 2) + 128 * (f / 128 % 2)
  {
    NestedHalves(f);
    Digits(f, f / 2, f / 4, f / 8, f / 32, f / 64, f / 128);
  }

  lemma Digits(f: nat, a: nat, b: nat, c: nat, d: nat, e: nat, g: nat)
    requires f < 256 && a == f / 2 && b == a / 2 && c == b / 2 && d == c / 4 && e == d / 2 && g == e / 2
    ensures f == f % 2 + 2 * (a % 2) + 4 * (b % 2) + 8 * (c % 4) + 32 * (d % 2) + 64 * (e % 2) + 128 * (g % 2)
  {
    assert g <= 1;
  }

  lemma HeaderAgain(body: seq<byte>)
    requires CheckedHeader(body).Ok?
    ensures VarHeader(body[7], FromBe16(body[8..])) + body[10..] == body
  {
    FromBe16RoundTrip(body[8..]);
    assert body[..2] == [0, 4];
    assert body[..10] == body[..2] + body[2..6] + [4, body[7]] + body[8..][..2];
    assert [0, 4] + [0x4D, 0x51, 0x54, 0x54] + [4, body[7]] == [0, 4, 0x4D, 0x51, 0x54, 0x54, 4, body[7]];
  }

  /** What an accepted CONNECT says about its bytes. */
  lemma FieldsAgain(b: FlagBits, s: seq<byte>)
    requires ParseFields(b, s).Ok?
    ensures var f := ParseFields(b, s).value;
            && FieldBytes(f[0]) + SlotsBytes(SlotsIn(b), f[1..]) == s
            && f[0].Given() && f[0].Len() <= CLIENT_ID_MAX
            && (if b.will then f[1].Given() && f[2].Given() else f[1] == Null(0) && f[2] == Null(0))
            && (if b.username then f[3].Given() else f[3] == Null(0))
            && (f[4] == Null(0) || (b.password && f[4].Given()))
  {
    var id := TakeClientId(s).value;
    StrAgain(s);
    TakeFieldsAgain(SlotsIn(b), id.rest);
    var fs := TakeFields(SlotsIn(b), id.rest).value;
    assert ParseFields(b, s).value[1..] == fs;
  }

  /** Building what was parsed gives the same bytes exactly when the Remaining Length is
      minimal, the reserved flag bit is 0, the will QoS bits are not 11 and a password that is
      flagged is not empty. */
  lemma ConnectRebuildIff(m: seq<byte>, reading: Reading)
    requires ParseConnect(m, reading).Ok?
    ensures var c, flags := ParseConnect(m, reading).value, OpenBody(m, CONNECT_FIRST, InvalidParam).value[7];
            && c.Buildable()
            && (ConnectFrame(c) == m <==>
                && MinimalLength(m) && flags % 2 == 0 && flags / 8 % 4 != 3
                && (flags / 64 % 2 == 1 ==> c.password.Given()))
  {
    OpenBodyReframe(m, CONNECT_FIRST, InvalidParam);
    var body := OpenBody(m, CONNECT_FIRST, InvalidParam).value;
    var c := ParseConnect(m, reading).value;
    BodyAgainIff(body, reading);
    ConnectSizes(c);
    if ConnectFrame(c) == m {
      OpenBodyOfFrame(CONNECT_FIRST, Body(c), InvalidParam);
      assert Body(c) == body;
    }
  }

  lemma BodyAgainIff(body: seq<byte>, reading: Reading)
    requires ParseBody(body, reading).Ok?
    ensures var c, flags := ParseBody(body, reading).value, body[7];
            && c.Buildable()
            && (Body(c) == body <==>
                flags % 2 == 0 && flags / 8 % 4 != 3 && (flags / 64 % 2 == 1 ==> c.password.Given()))
  {
    var c, flags := ParseBody(body, reading).value, body[7];
    var b := Unflag(flags);
    FieldsAgain(b, body[10..]);
    FlagsAgainIff(c, flags);
    HeaderAgain(body);
    if Flags(c) == flags {
      var f := ParseFields(b, body[10..]).value;
      assert Optionals(c) == f[1..];
      assert SlotsOf(c) == SlotsIn(b);
    } else {
      assert Body(c)[7] == Flags(c);
    }
  }
}
