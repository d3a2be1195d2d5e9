/** CONNECT byte by byte, after sections 3.1.2 and 3.1.3 of MQTT 3.1.1, and the proof that the
    builder writes it and that the parser accepts exactly it. */
module ConnectFormat {
  import opened Bytes
  import opened Message
  import opened Connect
  import opened Formats

  /** A string field; what is missing is sent as an empty string. */
  function Text(f: Field): seq<byte> {
    if f.Ptr? then [|f.s| / 256, |f.s| % 256] + f.s else [0, 0]
  }

  function Filled(f: Field): bool {
    f.Ptr? && |f.s| > 0
  }

  /** Will topic, will message, user name and password, behind their flags. */
  function Flagged(c: Connection, flags: byte): seq<byte> {
    (if flags / 4 % 2 == 1 then Text(c.willTopic) + Text(c.willMsg) else [])
    + ((if flags / 128 % 2 == 1 then Text(c.username) else [])
       + (if flags / 64 % 2 == 1 then Text(c.password) else []))
  }

  function Layout(c: Connection, flags: byte): seq<byte> {
    [0, 4, 0x4D, 0x51, 0x54, 0x54, 4, flags, c.keepAlive / 256, c.keepAlive % 256]
    + (Text(c.clientId) + Flagged(c, flags))
  }

  lemma SameText(f: Field)
    ensures Text(f) == FieldBytes(f)
  {
  }

  lemma FlaggedIs(c: Connection, flags: byte)
    ensures Flagged(c, flags) == SlotsBytes(SlotsIn(Unflag(flags)), Optionals(c))
  {
    var slots, fs := SlotsIn(Unflag(flags)), Optionals(c);
    FourSlots(slots, fs);
    SlotText(slots[0], fs[0]);
    SlotText(slots[1], fs[1]);
    SlotText(slots[2], fs[2]);
    SlotText(slots[3], fs[3]);
    FourParts(SlotBytes(slots[0], fs[0]), SlotBytes(slots[1], fs[1]), SlotBytes(slots[2], fs[2]),
              SlotBytes(slots[3], fs[3]));
  }

  lemma SlotText(slot: Slot, f: Field)
    ensures SlotBytes(slot, f) == if slot.present then Text(f) else []
  {
    SameText(f);
  }

  lemma LayoutIs(c: Connection, flags: byte)
    ensures Layout(c, flags) ==
            VarHeader(flags, c.keepAlive)
            + (FieldBytes(c.clientId) + SlotsBytes(SlotsIn(Unflag(flags)), Optionals(c)))
  {
    FlaggedIs(c, flags);
    SameText(c.clientId);
    assert VarHeader(flags, c.keepAlive) ==
           [0, 4, 0x4D, 0x51, 0x54, 0x54, 4, flags, c.keepAlive / 256, c.keepAlive % 256];
  }

  lemma FourParts(a: seq<byte>, b: seq<byte>, c: seq<byte>, d: seq<byte>)
    ensures a + (b + (c + (d + []))) == a + b + (c + d)
  {
  }

  // ---------- building ----------

  /** The flag byte, bit by bit, as the caller's fields decide it: a will needs topic and
      message, a password needs a user name, and an invalid will QoS is sent as 0. */
  predicate FlagsFor(c: Connection, flags: byte) {
    var will := Filled(c.willTopic) && Filled(c.willMsg);
    && flags % 2 == 0
    && (flags / 2 % 2 == 1 <==> c.cleanSession != 0)
    && (flags / 4 % 2 == 1 <==> will)
    && flags / 8 % 4 == (if will && c.willQos <= 2 then c.willQos else 0)
    && (flags / 32 % 2 == 1 <==> will && c.willRetain != 0)
    && (flags / 64 % 2 == 1 <==> Filled(c.username) && Filled(c.password))
    && (flags / 128 % 2 == 1 <==> Filled(c.username))
  }

  /** Every CONNECT that is built starts with 0x10 and carries this layout. */
  lemma ConnectBuilt(c: Connection)
    requires c.Buildable()
    ensures FlagsFor(c, Flags(c))
    ensures Carries(ConnectFrame(c), 0x10, Layout(c, Flags(c)))
    ensures ConnectFrame(c)[0] == 0x10
  {
    FlagsRoundTrip(c);
    BuiltFlags(c);
    LayoutIs(c, Flags(c));
    ConnectSizes(c);
    FrameCarries(0x10, Body(c));
  }

  lemma BuiltFlags(c: Connection)
    ensures FlagsFor(c, Flags(c))
  {
    FlagsRoundTrip(c);
    var b := Unflag(Flags(c));
    assert b.will == c.HasWill() && b.username == c.HasUsername() && b.password == c.HasPassword();
    assert b.retain == (c.HasWill() && c.willRetain != 0) && b.clean == (c.cleanSession != 0);
  }

  // ---------- parsing ----------

  /** Fields that go with the flags: what is flagged is not empty, except the password, and
      what is not flagged is NULL. As the parser is written, there must be a will. */
  predicate Consistent(c: Connection, flags: byte, reading: Reading) {
    var will, user, pass := flags / 4 % 2 == 1, flags / 128 % 2 == 1, flags / 64 % 2 == 1;
    && c.clientId.Ptr? && 1 <= |c.clientId.s| <= 23
    && (if will then Filled(c.willTopic) && Filled(c.willMsg) else c.willTopic == Null(0) == c.willMsg)
    && (if user then Filled(c.username) else c.username == Null(0))
    && (c.password == Null(0) || (pass && Filled(c.password)))
    && (pass ==> user)
    && c.cleanSession == flags / 2 % 2 && c.willRetain == flags / 32 % 2
    && c.willQos == (if flags / 8 % 4 == 3 then 0 else flags / 8 % 4)
    && (if reading.AsWritten? then will else will || (c.willRetain == 0 && c.willQos == 0))
  }

  ghost predicate IsConnect(m: seq<byte>, c: Connection, flags: byte, reading: Reading) {
    Consistent(c, flags, reading) && Carries(m, 0x10, Layout(c, flags))
  }

  lemma SlotsFit(c: Connection, flags: byte, reading: Reading)
    requires Consistent(c, flags, reading)
    ensures var slots, fs := SlotsIn(Unflag(flags)), Optionals(c);
            forall i :: 0 <= i < 4 ==> if slots[i].present then Fits(slots[i], fs[i]) else fs[i] == Null(0)
  {
  }

  lemma FieldsParse(b: FlagBits, id: Field, fs: seq<Field>)
    requires id.Ptr? && 1 <= |id.s| <= 23 && |fs| == 4
    requires forall i :: 0 <= i < 4 ==>
               if SlotsIn(b)[i].present then Fits(SlotsIn(b)[i], fs[i]) else fs[i] == Null(0)
    ensures ParseFields(b, FieldBytes(id) + SlotsBytes(SlotsIn(b), fs)) == Ok([id] + fs)
  {
    StrRoundTrip(id.s, SlotsBytes(SlotsIn(b), fs));
    TakeFieldsWritten(SlotsIn(b), fs);
    assert Present(SlotsIn(b), fs) == fs;
  }

  lemma BitsFit(c: Connection, flags: byte, reading: Reading)
    requires Consistent(c, flags, reading)
    ensures var b := Unflag(flags);
            && !FlagsConflict(b, reading)
            && c.cleanSession == Bit(b.clean) && c.willRetain == Bit(b.retain) && c.willQos == b.qos
  {
  }

  lemma BodyParses(body: seq<byte>, b: FlagBits, reading: Reading, f: seq<Field>)
    requires CheckedHeader(body).Ok? && |body| >= 10 && b == Unflag(body[7])
    requires !FlagsConflict(b, reading) && |f| == 5 && ParseFields(b, body[10..]) == Ok(f)
    ensures ParseBody(body, reading) ==
            Ok(Connection(f[0], f[1], f[2], f[3], f[4], FromBe16(body[8..]), Bit(b.clean), Bit(b.retain), b.qos))
  {
  }

  lemma BodyParsed(body: seq<byte>, c: Connection, reading: Reading) returns (f: seq<Field>)
    requires ParseBody(body, reading) == Ok(c)
    ensures CheckedHeader(body).Ok? && |body| >= 10 && !FlagsConflict(Unflag(body[7]), reading)
    ensures var b := Unflag(body[7]);
            && ParseFields(b, body[10..]) == Ok(f) && |f| == 5
            && c == Connection(f[0], f[1], f[2], f[3], f[4], FromBe16(body[8..]), Bit(b.clean), Bit(b.retain), b.qos)
  {
    f := ParseFields(Unflag(body[7]), body[10..]).value;
  }

  lemma LayoutParses(c: Connection, flags: byte, reading: Reading)
    requires Consistent(c, flags, reading)
    ensures ParseBody(Layout(c, flags), reading) == Ok(c)
  {
    var slots, fs := SlotsIn(Unflag(flags)), Optionals(c);
    var payload := FieldBytes(c.clientId) + SlotsBytes(slots, fs);
    LayoutIs(c, flags);
    HeaderRoundTrip(flags, c.keepAlive, payload);
    SlotsFit(c, flags, reading);
    FieldsParse(Unflag(flags), c.clientId, fs);
    BitsFit(c, flags, reading);
    BodyParses(Layout(c, flags), Unflag(flags), reading, [c.clientId] + fs);
    assert [c.clientId] + fs == [c.clientId, c.willTopic, c.willMsg, c.username, c.password];
  }

  lemma ParsedLayout(body: seq<byte>, c: Connection, reading: Reading)
    requires ParseBody(body, reading) == Ok(c)
    ensures |body| >= 10 && Consistent(c, body[7], reading) && body == Layout(c, body[7])
  {
    var f := BodyParsed(body, c, reading);
    FieldsAgain(Unflag(body[7]), body[10..]);
    ParsedConsistent(c, body[7], f, reading);
    assert Optionals(c) == f[1..];
    LayoutOf(body, c);
  }

  lemma LayoutOf(body: seq<byte>, c: Connection)
    requires CheckedHeader(body).Ok? && c.keepAlive == FromBe16(body[8..])
    requires FieldBytes(c.clientId) + SlotsBytes(SlotsIn(Unflag(body[7])), Optionals(c)) == body[10..]
    ensures body == Layout(c, body[7])
  {
    HeaderAgain(body);
    LayoutIs(c, body[7]);
  }

  lemma ParsedConsistent(c: Connection, flags: byte, f: seq<Field>, reading: Reading)
    requires |f| == 5 && !FlagsConflict(Unflag(flags), reading)
    requires var b := Unflag(flags);
             && f[0].Given() && f[0].Len() <= CLIENT_ID_MAX
             && (if b.will then f[1].Given() && f[2].Given() else f[1] == Null(0) && f[2] == Null(0))
             && (if b.username then f[3].Given() else f[3] == Null(0))
             && (f[4] == Null(0) || (b.password && f[4].Given()))
             && c == Connection(f[0], f[1], f[2], f[3], f[4], c.keepAlive, Bit(b.clean), Bit(b.retain), b.qos)
    ensures Consistent(c, flags, reading)
  {
  }

  /** The parser accepts exactly the packets with this layout and consistent flags, and hands
      out what they carry. */
  lemma ConnectIff(m: seq<byte>, c: Connection, reading: Reading)
    ensures ParseConnect(m, reading) == Ok(c) <==> exists flags :: IsConnect(m, c, flags, reading)
  {
    if ParseConnect(m, reading) == Ok(c) {
      var body := OpenBody(m, 0x10, InvalidParam).value;
      OpenBodyIff(m, 0x10, InvalidParam, body);
      ParsedLayout(body, c, reading);
      assert IsConnect(m, c, body[7], reading);
    }
    forall flags | IsConnect(m, c, flags, reading) ensures ParseConnect(m, reading) == Ok(c) {
      OpenBodyIff(m, 0x10, InvalidParam, Layout(c, flags));
      LayoutParses(c, flags, reading);
    }
  }

  // ---------- rejecting ----------

  lemma {:induction false} FieldErrors(slots: seq<Slot>, s: seq<byte>)
    ensures TakeFields(slots, s).Err? ==> TakeFields(slots, s) == Err(ConnectMessageError)
  {
    if slots == [] {
    } else if TakeField(slots[0], s).Ok? {
      FieldErrors(slots[1..], TakeField(slots[0], s).value.rest);
    }
  }

  /** `body` is long enough to be compared with the first `k` bytes of the protocol header,
      and differs from them. */
  predicate Differs(body: seq<byte>, k: nat)
    requires k <= 6
  {
    |body| >= k && body[..k] != [0, 4, 0x4D, 0x51, 0x54, 0x54][..k]
  }

  lemma HeaderErrors(body: seq<byte>)
    ensures CheckedHeader(body) ==
            if Differs(body, 1) || Differs(body, 2) || Differs(body, 6) then Err(ProtocolUnsupport)
            else if |body| >= 7 && body[6] != 4 then Err(ProtocolLevelUnsupport)
            else if |body| < 10 then Undefined
            else Ok(())
  {
    var h := [0, 4, 0x4D, 0x51, 0x54, 0x54];
    assert h[..6] == h && h[..1] == [0] && h[..2] == [0, 4];
    if |body| >= 6 {
      assert body[..6] == body[..2] + body[2..6];
      assert h == h[..2] + [0x4D, 0x51, 0x54, 0x54];
    }
    if |body| >= 2 {
      assert body[..2] == [body[0], body[1]];
    }
    if |body| >= 1 {
      assert body[..1] == [body[0]];
    }
  }

  predicate Conflict(flags: byte, reading: Reading) {
    var will, retain, qos := flags / 4 % 2 == 1, flags / 32 % 2 == 1, flags / 8 % 4;
    || (!will && (reading.AsWritten? || retain || 1 <= qos <= 2))
    || (flags / 64 % 2 == 1 && flags / 128 % 2 == 0)
  }

  lemma ConflictIs(flags: byte, reading: Reading)
    ensures Conflict(flags, reading) <==> FlagsConflict(Unflag(flags), reading)
  {
  }

  /** How the client id fails, and what is left behind it when it does not. */
  lemma ClientIdErrors(s: seq<byte>)
    ensures TakeClientId(s) == Err(ClientIdLengthUnsupport) <==>
            |s| >= 2 && (s[0] as int * 256 + s[1] as int == 0 || s[0] as int * 256 + s[1] as int > 23)
    ensures TakeClientId(s).Err? <==> TakeClientId(s) == Err(ClientIdLengthUnsupport) || TakeClientId(s) == Err(ConnectMessageError)
    ensures !TakeClientId(s).Undefined?
  {
  }

  /** One of the flagged fields has no room for its two length bytes. */
  predicate CutShort(slots: seq<Slot>, s: seq<byte>, fs: seq<Field>, rest: seq<byte>) {
    && |fs| < |slots| && slots[|fs|].present && |rest| < 2
    && (forall i :: 0 <= i < |fs| ==> if slots[i].present then Fits(slots[i], fs[i]) else fs[i] == Null(0))
    && s == SlotsBytes(slots[..|fs|], fs) + rest
  }

  ghost predicate IsCutShort(slots: seq<Slot>, s: seq<byte>) {
    exists fs, rest :: CutShort(slots, s, fs, rest)
  }

  lemma {:induction false} CutShortParses(slots: seq<Slot>, s: seq<byte>, fs: seq<Field>, rest: seq<byte>)
    requires CutShort(slots, s, fs, rest)
    ensures TakeFields(slots, s).Undefined?
    decreases |fs|
  {
    if fs == [] {
      assert s == rest;
    } else {
      var front := slots[..|fs|];
      var tail := SlotsBytes(front[1..], fs[1..]) + rest;
      assert front[1..] == slots[1..][..|fs| - 1];
      Assoc(SlotBytes(slots[0], fs[0]), SlotsBytes(front[1..], fs[1..]), rest);
      TakeWritten(slots[0], fs[0], tail);
      CutShortParses(slots[1..], tail, fs[1..], rest);
    }
  }

  lemma {:induction false} FindCutShort(slots: seq<Slot>, s: seq<byte>) returns (fs: seq<Field>, rest: seq<byte>)
    requires TakeFields(slots, s).Undefined?
    ensures CutShort(slots, s, fs, rest)
  {
    if TakeField(slots[0], s).Undefined? {
      fs, rest := [], s;
      assert slots[..0] == [];
    } else {
      TakeAgain(slots[0], s);
      var p := TakeField(slots[0], s).value;
      var gs;
      gs, rest := FindCutShort(slots[1..], p.rest);
      fs := [p.field] + gs;
      assert fs[1..] == gs;
      assert slots[..|fs|][1..] == slots[1..][..|gs|];
      Assoc(SlotBytes(slots[0], p.field), SlotsBytes(slots[1..][..|gs|], gs), rest);
    }
  }

  /** What follows a good protocol header: the flags, the client id, the flagged fields. */
  lemma CheckedErrors(body: seq<byte>, reading: Reading)
    requires |body| >= 10
    ensures ParseChecked(body, reading) == Err(ConnectFlagsError) <==> Conflict(body[7], reading)
    ensures ParseChecked(body, reading) == Err(ClientIdLengthUnsupport) <==>
            !Conflict(body[7], reading) && TakeClientId(body[10..]) == Err(ClientIdLengthUnsupport)
    ensures ParseChecked(body, reading).Err? ==>
              ParseChecked(body, reading).status in {ConnectFlagsError, ClientIdLengthUnsupport, ConnectMessageError}
    ensures ParseChecked(body, reading).Undefined? <==>
            && !Conflict(body[7], reading) && TakeClientId(body[10..]).Ok?
            && TakeFields(SlotsIn(Unflag(body[7])), TakeClientId(body[10..]).value.rest).Undefined?
  {
    ConflictIs(body[7], reading);
    ClientIdErrors(body[10..]);
    var id := TakeClientId(body[10..]);
    if id.Ok? {
      FieldErrors(SlotsIn(Unflag(body[7])), id.value.rest);
    }
  }

  lemma CutShortIff(slots: seq<Slot>, s: seq<byte>)
    ensures TakeFields(slots, s).Undefined? <==> IsCutShort(slots, s)
  {
    if TakeFields(slots, s).Undefined? {
      var fs, rest := FindCutShort(slots, s);
    }
    forall fs, rest | CutShort(slots, s, fs, rest) ensures TakeFields(slots, s).Undefined? {
      CutShortParses(slots, s, fs, rest);
    }
  }

  /** How a CONNECT is turned away: the type, the length, the protocol header in the order in
      which it is read, conflicting flags, the client id's length; whatever else is not
      accepted is malformed, unless a flagged field's length bytes are missing, which the
      code reads behind the frame. */
  lemma ConnectErrors(m: seq<byte>, body: seq<byte>, reading: Reading)
    requires m != []
    ensures ParseConnect(m, reading) == Err(MessageTypeError) <==> m[0] != 0x10
    ensures ParseConnect(m, reading) == Err(InvalidParam) <==> m[0] == 0x10 && forall b :: !Carries(m, 0x10, b)
    ensures Carries(m, 0x10, body) ==> BodyOutcome(body, reading, ParseConnect(m, reading))
  {
    OpenBodyErrors(m, 0x10, InvalidParam);
    var r := OpenBody(m, 0x10, InvalidParam);
    if r.Ok? {
      BodyErrors(r.value, reading);
    }
    if Carries(m, 0x10, body) {
      OpenBodyIff(m, 0x10, InvalidParam, body);
    }
  }

  /** The outcome `r` of a body: the first mismatch with the protocol header that is found
      before the body ends, then conflicting flags, then the fields. */
  ghost predicate BodyOutcome(body: seq<byte>, reading: Reading, r: Parsed<Connection>) {
    if Differs(body, 1) || Differs(body, 2) || Differs(body, 6) then r == Err(ProtocolUnsupport)
    else if |body| >= 7 && body[6] != 4 then r == Err(ProtocolLevelUnsupport)
    else if |body| < 10 then r.Undefined?
    else if Conflict(body[7], reading) then r == Err(ConnectFlagsError)
    else RestErrors(body, r)
  }

  /** The outcome `r` when header and flags are good. */
  ghost predicate RestErrors(body: seq<byte>, r: Parsed<Connection>)
    requires |body| >= 10
  {
    if |body| < 12 then r == Err(ConnectMessageError)
    else
      var n := body[10] as int * 256 + body[11] as int;
      if n == 0 || n > 23 then r == Err(ClientIdLengthUnsupport)
      else if |body| < 12 + n then r == Err(ConnectMessageError)
      else
        var will, user, pass := body[7] / 4 % 2 == 1, body[7] / 128 % 2 == 1, body[7] / 64 % 2 == 1;
        var slots := [Slot(will, false), Slot(will, false), Slot(user, false), Slot(pass, true)];
        && (r.Err? ==> r == Err(ConnectMessageError))
        && (r.Undefined? <==> IsCutShort(slots, body[12 + n..]))
  }

  lemma BodyErrors(body: seq<byte>, reading: Reading)
    ensures BodyOutcome(body, reading, ParseBody(body, reading))
    ensures ParseBody(body, reading) != Err(MessageTypeError) && ParseBody(body, reading) != Err(InvalidParam)
  {
    HeaderErrors(body);
    if CheckedHeader(body).Ok? {
      CheckedErrors(body, reading);
      if !Conflict(body[7], reading) {
        RestOf(body, reading);
      }
    }
  }

  lemma RestOf(body: seq<byte>, reading: Reading)
    requires CheckedHeader(body).Ok? && |body| >= 10 && !Conflict(body[7], reading)
    ensures RestErrors(body, ParseBody(body, reading))
  {
    CheckedErrors(body, reading);
    ClientIdOf(body);
    if TakeClientId(body[10..]).Ok? {
      CutShortIff(SlotsIn(Unflag(body[7])), TakeClientId(body[10..]).value.rest);
    }
  }

  lemma ClientIdOf(body: seq<byte>)
    requires |body| >= 10
    ensures |body| < 12 ==> TakeClientId(body[10..]) == Err(ConnectMessageError)
    ensures |body| >= 12 ==>
              var n, r := body[10] as int * 256 + body[11] as int, TakeClientId(body[10..]);
              if n == 0 || n > 23 then r == Err(ClientIdLengthUnsupport)
              else if |body| < 12 + n then r == Err(ConnectMessageError)
              else r.Ok? && r.value.rest == body[12 + n..]
  {
    var s := body[10..];
    if |body| >= 12 {
      var n := body[10] as int * 256 + body[11] as int;
      assert StrLen(s) == n;
      assert |body| >= 12 + n ==> s[n + 2..] == body[12 + n..];
    }
  }
}
