/** The packets of MQTT 3.1.1 byte by byte, without the functions that build and parse them,
    and the proof that these functions mean exactly these packets. */
module Formats {
  import opened Bytes
  import opened Message
  import C = Connect
  import TF = TopicFilters
  import P = Publish
  import S = Suback

  // ---------- the length field ----------

  /** A length field with the value `n`. Four bytes that all continue are taken as a length
      too, and the byte behind them is skipped. */
  predicate LengthField(f: seq<byte>, n: nat) {
    || (Terminated(f) && |f| <= 4 && n == Base128(f))
    || (|f| == 5 && (forall i :: 0 <= i < 4 ==> f[i] >= 128) && n == Base128(f[..4]))
  }

  predicate Framed(m: seq<byte>, first: byte, f: seq<byte>, body: seq<byte>) {
    LengthField(f, |body|) && m == [first] + f + body
  }

  /** `m` is a packet with this first byte and body, and nothing behind it. */
  ghost predicate Carries(m: seq<byte>, first: byte, body: seq<byte>) {
    exists f :: Framed(m, first, f, body)
  }

  /** Whatever it is given, the decoder adds up the bytes that it counts. */
  lemma {:induction false} DecodeMeaning(s: seq<byte>)
    ensures var d := DecodeLength(s);
            1 <= d.used <= |s| + 1 && d.length == Base128(s[..if d.used <= |s| then d.used else |s|])
  {
    if s == [] {
    } else {
      var u := DecodeLength(s).used;
      var seen := s[..if u <= |s| then u else |s|];
      DecodeMeaning(s[1..]);
      Base128Cons(seen);
      if s[0] < 128 {
        assert seen[1..] == [];
      } else {
        assert seen[1..] == s[1..][..|seen| - 1];
      }
    }
  }

  lemma DecodeField(m: seq<byte>, f: seq<byte>, n: nat, tail: seq<byte>)
    requires LengthField(f, n) && m != [] && m[1..] == f + tail
    ensures RemainLength(m) == Decoded(n, |f|)
  {
    if |f| == 5 {
      var seen := f[..4];
      assert Limit(m[1..]) == seen;
      UnterminatedIff(seen);
      DecodeMeaning(seen);
      assert seen[..4] == seen;
    } else {
      DecodeTerminated(f, tail);
    }
  }

  lemma FieldDecoded(m: seq<byte>)
    requires m != [] && 1 + RemainLength(m).used <= |m|
    ensures LengthField(m[1..1 + RemainLength(m).used], RemainLength(m).length)
  {
    var rest := m[1..];
    var seen, u := Limit(rest), RemainLength(m).used;
    UnterminatedIff(seen);
    DecodeMeaning(seen);
    assert m[1..1 + u] == rest[..u];
    if u <= |seen| {
      assert seen[..u] == rest[..u];
    } else {
      assert seen[..|seen|] == seen == rest[..u][..4];
    }
  }

  lemma FramedOpens(m: seq<byte>, first: byte, f: seq<byte>, body: seq<byte>, lengthError: Status)
    requires Framed(m, first, f, body)
    ensures OpenBody(m, first, lengthError) == Ok(body)
  {
    HeadAndTail(first, f, body);
    DecodeField(m, f, |body|, body);
  }

  lemma HeadAndTail(first: byte, f: seq<byte>, tail: seq<byte>)
    ensures var m := [first] + f + tail;
            m[0] == first && m[1..] == f + tail && m[1 + |f|..] == tail && |m| == 1 + |f| + |tail|
  {
  }

  lemma OpenedFramed(m: seq<byte>, first: byte, lengthError: Status)
    requires m != [] && OpenBody(m, first, lengthError).Ok?
    ensures Framed(m, first, m[1..1 + RemainLength(m).used], OpenBody(m, first, lengthError).value)
  {
    LengthCut(m);
  }

  lemma LengthCut(m: seq<byte>)
    requires m != [] && 1 + RemainLength(m).used <= |m|
    ensures var d := RemainLength(m);
            LengthField(m[1..1 + d.used], d.length) && m == [m[0]] + m[1..1 + d.used] + m[1 + d.used..]
  {
    FieldDecoded(m);
    Cut(m, 1, 1 + RemainLength(m).used);
    assert m[..1] == [m[0]];
  }

  /** Behind a fixed first byte, the parsers open exactly the packets that carry a body. */
  lemma OpenBodyIff(m: seq<byte>, first: byte, lengthError: Status, body: seq<byte>)
    requires m != []
    ensures OpenBody(m, first, lengthError) == Ok(body) <==> Carries(m, first, body)
  {
    if OpenBody(m, first, lengthError) == Ok(body) {
      OpenedFramed(m, first, lengthError);
    }
    if Carries(m, first, body) {
      var f :| Framed(m, first, f, body);
      FramedOpens(m, first, f, body, lengthError);
    }
  }

  lemma OpenBodyErrors(m: seq<byte>, first: byte, lengthError: Status)
    requires m != [] && lengthError != MessageTypeError
    ensures OpenBody(m, first, lengthError) == Err(MessageTypeError) <==> m[0] != first
    ensures OpenBody(m, first, lengthError) == Err(lengthError) <==>
            m[0] == first && forall body :: !Carries(m, first, body)
  {
    var r := OpenBody(m, first, lengthError);
    if r.Ok? {
      OpenBodyIff(m, first, lengthError, r.value);
    } else {
      forall body ensures !Carries(m, first, body) {
        OpenBodyIff(m, first, lengthError, body);
      }
    }
  }

  lemma SeenOfField(first: byte, f: seq<byte>, tail: seq<byte>, k: nat)
    requires |f| <= k <= |f| + |tail|
    ensures ([first] + f + tail)[1..1 + k] == f + tail[..k - |f|]
  {
  }

  /** The fixed header of any packet with a terminated length field, however long the field
      and however many bytes behind it were received. */
  lemma HeaderOfField(first: byte, f: seq<byte>, tail: seq<byte>, n: nat)
    requires Terminated(f) && |f| <= 4 && |f| <= n
    ensures FixedHeader([first] + f + tail, n) == Header(first / 16, 1 + |f| + Base128(f), Base128(f))
  {
    var m := [first] + f + tail;
    var k := if n <= 4 && 1 + n <= |m| then n else |m| - 1;
    SeenOfField(first, f, tail, k);
    DecodeTerminated(f, tail[..k - |f|]);
    HeaderSeen(m, n, k, Decoded(Base128(f), |f|));
  }

  lemma HeaderSeen(m: seq<byte>, n: nat, k: nat, d: Decoded)
    requires m != [] && k == (if n <= 4 && 1 + n <= |m| then n else |m| - 1)
    requires d == DecodeLength(Limit(m[1..1 + k]))
    ensures FixedHeader(m, n) == Header(m[0] / 16, d.length + d.used + 1, d.length)
  {
  }

  lemma EncodedField(n: nat)
    requires n < MAX_BODY
    ensures LengthField(EncodeLength(n), n)
  {
    var e := EncodeLength(n);
    EncodedTerminated(n);
    BodyFitsFour(n);
    DecodeWhole(e, []);
    DecodeEncoded(n, []);
  }

  lemma FrameCarries(first: byte, body: seq<byte>)
    requires |body| < MAX_BODY
    ensures Carries(Frame(first, body), first, body)
  {
    EncodedField(|body|);
    assert Framed(Frame(first, body), first, EncodeLength(|body|), body);
  }

  // ---------- SUBSCRIBE and UNSUBSCRIBE ----------

  /** What the builders write for any filters and any QoS values. */
  lemma FiltersBuilt(id: uint16, fs: seq<TF.Filter>)
    requires |TF.Body(id, fs, true)| < MAX_BODY
    ensures Carries(TF.SubscribeFrame(id, fs), 0x80, [id / 256, id % 256] + TF.FiltersBytes(fs, true))
    ensures Carries(TF.UnsubscribeFrame(id, fs), 0xA0, [id / 256, id % 256] + TF.FiltersBytes(fs, false))
  {
    FrameCarries(0x80, TF.Body(id, fs, true));
    WithoutQosShorter(fs);
    FrameCarries(0xA0, TF.Body(id, fs, false));
  }

  lemma {:induction false} WithoutQosShorter(fs: seq<TF.Filter>)
    ensures |TF.FiltersBytes(fs, false)| <= |TF.FiltersBytes(fs, true)|
  {
    if fs == [] {
    } else {
      WithoutQosShorter(fs[1..]);
    }
  }

  /** The bytes of a filter list, one filter at a time. */
  lemma FilterOnTheWire(f: TF.Filter)
    ensures TF.FiltersBytes([], true) == [] == TF.FiltersBytes([], false)
    ensures TF.FiltersBytes([f], true) == [|f.topic| / 256, |f.topic| % 256] + f.topic + [f.qos % 4]
    ensures TF.FiltersBytes([f], false) == [|f.topic| / 256, |f.topic| % 256] + f.topic
  {
    assert [f][1..] == [];
  }

  lemma {:induction false} FiltersInOrder(fs: seq<TF.Filter>, gs: seq<TF.Filter>, withQos: bool)
    ensures TF.FiltersBytes(fs + gs, withQos) == TF.FiltersBytes(fs, withQos) + TF.FiltersBytes(gs, withQos)
  {
    if fs == [] {
      assert fs + gs == gs;
    } else {
      FiltersInOrder(fs[1..], gs, withQos);
      assert (fs + gs)[1..] == fs[1..] + gs;
      Assoc(TF.FilterBytes(fs[0], withQos), TF.FiltersBytes(fs[1..], withQos), TF.FiltersBytes(gs, withQos));
    }
  }

  predicate Acceptable(fs: seq<TF.Filter>, withQos: bool) {
    forall f <- fs :: if withQos then f.qos <= 2 else f.qos == 0
  }

  lemma {:induction false} ParsedAcceptable(s: seq<byte>, withQos: bool)
    requires TF.ParseFilters(s, withQos).Ok?
    ensures Acceptable(TF.ParseFilters(s, withQos).value, withQos)
  {
    if s == [] {
    } else {
      TF.RewriteParsed(s, withQos);
      var fs := TF.ParseFilters(s, withQos).value;
      ParsedAcceptable(s[StrLen(s) + TF.Overhead(withQos)..], withQos);
      assert forall f <- fs :: f == fs[0] || f in fs[1..];
    }
  }

  lemma AcceptableCarried(fs: seq<TF.Filter>, withQos: bool)
    requires Acceptable(fs, withQos)
    ensures withQos ==> TF.Grantable(fs)
    ensures TF.Carried(fs, withQos) == fs
  {
    var r := TF.Carried(fs, withQos);
    forall i | 0 <= i < |fs| ensures r[i] == fs[i] {
      var f := fs[i];
      assert f in fs;
      assert r[i] == TF.Filter(f.topic, if withQos then f.qos % 4 else 0);
    }
  }

  lemma ParseFiltersIff(s: seq<byte>, fs: seq<TF.Filter>, withQos: bool)
    ensures TF.ParseFilters(s, withQos) == Ok(fs) <==> s == TF.FiltersBytes(fs, withQos) && Acceptable(fs, withQos)
  {
    if TF.ParseFilters(s, withQos) == Ok(fs) {
      TF.FiltersRebuild(s, withQos);
      ParsedAcceptable(s, withQos);
    }
    if Acceptable(fs, withQos) {
      TF.FiltersRoundTrip(fs, withQos);
      AcceptableCarried(fs, withQos);
    }
  }

  lemma FilterBodyIff(body: seq<byte>, s: TF.Subscription, withQos: bool)
    ensures TF.ParseBody(body, withQos) == Ok(s) <==>
            && s.filters != [] && Acceptable(s.filters, withQos)
            && body == [s.packetId / 256, s.packetId % 256] + TF.FiltersBytes(s.filters, withQos)
  {
    var id, rest := [s.packetId / 256, s.packetId % 256], TF.FiltersBytes(s.filters, withQos);
    if |body| >= 2 {
      ParseFiltersIff(body[2..], s.filters, withQos);
      FromBe16RoundTrip(body);
      assert body == body[..2] + body[2..];
    }
    if body == id + rest {
      assert body[2..] == rest;
      Be16RoundTrip(s.packetId, rest);
    }
  }

  lemma FilterMessageIff(m: seq<byte>, s: TF.Subscription, withQos: bool)
    ensures TF.ParseFilterMessage(m, withQos) == Ok(s) <==>
            && s.filters != [] && Acceptable(s.filters, withQos)
            && Carries(m, TF.First(withQos),
                       [s.packetId / 256, s.packetId % 256] + TF.FiltersBytes(s.filters, withQos))
  {
    var body := [s.packetId / 256, s.packetId % 256] + TF.FiltersBytes(s.filters, withQos);
    if m != [] {
      OpenBodyIff(m, TF.First(withQos), SubscribeMessageError, body);
      var r := OpenBody(m, TF.First(withQos), SubscribeMessageError);
      if r.Ok? {
        FilterBodyIff(r.value, s, withQos);
      }
    }
  }

  /** A SUBSCRIBE is accepted with these contents exactly when it is one, byte by byte. */
  lemma SubscribeIff(m: seq<byte>, s: TF.Subscription)
    ensures TF.ParseSubscribe(m) == Ok(s) <==>
            && s.filters != [] && (forall f <- s.filters :: f.qos <= 2)
            && Carries(m, 0x80, [s.packetId / 256, s.packetId % 256] + TF.FiltersBytes(s.filters, true))
  {
    FilterMessageIff(m, s, true);
  }

  lemma UnsubscribeIff(m: seq<byte>, s: TF.Subscription)
    ensures TF.ParseUnsubscribe(m) == Ok(s) <==>
            && s.filters != [] && (forall f <- s.filters :: f.qos == 0)
            && Carries(m, 0xA0, [s.packetId / 256, s.packetId % 256] + TF.FiltersBytes(s.filters, false))
  {
    FilterMessageIff(m, s, false);
  }

  /** Valid filters, then one whose QoS is above 2, then anything. */
  predicate Rejected(s: seq<byte>, fs: seq<TF.Filter>, topic: str16, qos: byte, rest: seq<byte>) {
    && Acceptable(fs, true) && qos > 2
    && s == TF.FiltersBytes(fs, true) + ([|topic| / 256, |topic| % 256] + topic + [qos] + rest)
  }

  lemma BadFilter(topic: str16, qos: byte, rest: seq<byte>)
    requires qos > 2
    ensures var s := [|topic| / 256, |topic| % 256] + topic + [qos] + rest;
            TF.FirstRejected(s, true) && TF.ParseFilters(s, true) == Err(SubscribeMessageError)
  {
    var s := [|topic| / 256, |topic| % 256] + topic + [qos] + rest;
    assert s == Str(topic) + ([qos] + rest);
    StrRoundTrip(topic, [qos] + rest);
    assert s[|topic| + 2] == qos;
  }

  lemma {:induction false} RejectedParses(s: seq<byte>, fs: seq<TF.Filter>, topic: str16, qos: byte, rest: seq<byte>)
    requires Rejected(s, fs, topic, qos, rest)
    ensures TF.ParseFilters(s, true) == Err(SubscribeMessageError)
    ensures TF.FirstRejected(s, true) <==> fs == []
    decreases |fs|
  {
    var bad := [|topic| / 256, |topic| % 256] + topic + [qos] + rest;
    if fs == [] {
      assert s == bad;
      BadFilter(topic, qos, rest);
    } else {
      var tail := TF.FiltersBytes(fs[1..], true) + bad;
      Assoc(TF.FilterBytes(fs[0], true), TF.FiltersBytes(fs[1..], true), bad);
      assert fs[0] in fs;
      TF.ParseWritten(fs[0], tail, true);
      RejectedParses(tail, fs[1..], topic, qos, rest);
      FirstAccepted(s, fs[0], tail);
    }
  }

  lemma FirstAccepted(s: seq<byte>, f: TF.Filter, tail: seq<byte>)
    requires f.qos <= 2 && s == TF.FilterBytes(f, true) + tail
    ensures !TF.FirstRejected(s, true)
  {
    assert s == Str(f.topic) + ([f.qos] + tail);
    StrRoundTrip(f.topic, [f.qos] + tail);
    assert s[|f.topic| + 2] == f.qos;
  }

  lemma {:induction false} FindRejected(s: seq<byte>)
    returns (fs: seq<TF.Filter>, topic: str16, qos: byte, rest: seq<byte>)
    requires TF.ParseFilters(s, true).Err?
    ensures Rejected(s, fs, topic, qos, rest)
  {
    var n := StrLen(s);
    if s[n + 2] > 2 {
      fs, topic, qos, rest := [], s[2..n + 2], s[n + 2], s[n + 3..];
      FromBe16RoundTrip(s);
      assert s == s[..2] + topic + [qos] + rest;
      assert s[..2] == [n / 256, n % 256];
    } else {
      var f := TF.Filter(s[2..n + 2], s[n + 2]);
      var gs;
      gs, topic, qos, rest := FindRejected(s[n + 3..]);
      fs := [f] + gs;
      TF.FilterAgain(s, true);
      assert fs[1..] == gs;
      assert s == s[..n + 3] + s[n + 3..];
      Assoc(TF.FilterBytes(f, true), TF.FiltersBytes(gs, true),
            [|topic| / 256, |topic| % 256] + topic + [qos] + rest);
    }
  }

  /** The beginning of a filter that is not complete. */
  predicate Stub(s: seq<byte>, withQos: bool) {
    s != [] && (|s| < 2 || |s| < s[0] as int * 256 + s[1] as int + if withQos then 3 else 2)
  }

  /** Valid filters, then a beginning of one. */
  predicate Torn(s: seq<byte>, fs: seq<TF.Filter>, rest: seq<byte>, withQos: bool) {
    Acceptable(fs, withQos) && s == TF.FiltersBytes(fs, withQos) + rest && Stub(rest, withQos)
  }

  lemma StubParses(s: seq<byte>, withQos: bool)
    requires Stub(s, withQos)
    ensures TF.ParseFilters(s, withQos).Undefined?
  {
  }

  lemma BehindFilter(f: TF.Filter, tail: seq<byte>, withQos: bool)
    requires withQos ==> f.qos <= 2
    ensures TF.ParseFilters(TF.FilterBytes(f, withQos) + tail, withQos).Undefined? <==>
            TF.ParseFilters(tail, withQos).Undefined?
  {
    TF.ParseWritten(f, tail, withQos);
  }

  lemma TornHead(fs: seq<TF.Filter>, rest: seq<byte>, withQos: bool)
    requires fs != []
    ensures TF.FiltersBytes(fs, withQos) + rest ==
            TF.FilterBytes(fs[0], withQos) + (TF.FiltersBytes(fs[1..], withQos) + rest)
  {
    Assoc(TF.FilterBytes(fs[0], withQos), TF.FiltersBytes(fs[1..], withQos), rest);
  }

  lemma {:induction false} TornParses(s: seq<byte>, fs: seq<TF.Filter>, rest: seq<byte>, withQos: bool)
    requires Torn(s, fs, rest, withQos)
    ensures TF.ParseFilters(s, withQos).Undefined?
    decreases |fs|
  {
    if fs == [] {
      assert s == rest;
      StubParses(rest, withQos);
    } else {
      var tail := TF.FiltersBytes(fs[1..], withQos) + rest;
      TornHead(fs, rest, withQos);
      assert fs[0] in fs;
      BehindFilter(fs[0], tail, withQos);
      TornParses(tail, fs[1..], rest, withQos);
    }
  }

  lemma TornBehind(s: seq<byte>, size: nat, f: TF.Filter, gs: seq<TF.Filter>, rest: seq<byte>, withQos: bool)
    requires size <= |s| && TF.FilterBytes(f, withQos) == s[..size] && Acceptable([f], withQos)
    requires Torn(s[size..], gs, rest, withQos)
    ensures Torn(s, [f] + gs, rest, withQos)
  {
    var fs := [f] + gs;
    assert fs[1..] == gs && f in [f];
    assert s == s[..size] + s[size..];
    TornHead(fs, rest, withQos);
  }

  lemma {:induction false} FindTorn(s: seq<byte>, withQos: bool) returns (fs: seq<TF.Filter>, rest: seq<byte>)
    requires TF.ParseFilters(s, withQos).Undefined?
    ensures Torn(s, fs, rest, withQos)
  {
    if |s| < 2 || |s| < StrLen(s) + TF.Overhead(withQos) {
      fs, rest := [], s;
    } else {
      var n := StrLen(s);
      var f := TF.Filter(s[2..n + 2], if withQos then s[n + 2] else 0);
      var gs;
      gs, rest := FindTorn(s[n + TF.Overhead(withQos)..], withQos);
      fs := [f] + gs;
      TF.FilterAgain(s, withQos);
      TornBehind(s, n + TF.Overhead(withQos), f, gs, rest, withQos);
    }
  }

  /** The parsing loop reads behind the end exactly on a torn filter list. */
  ghost predicate IsTorn(s: seq<byte>, withQos: bool) {
    exists fs, rest :: Torn(s, fs, rest, withQos)
  }

  lemma TornIff(s: seq<byte>, withQos: bool)
    ensures TF.ParseFilters(s, withQos).Undefined? <==> IsTorn(s, withQos)
  {
    if TF.ParseFilters(s, withQos).Undefined? {
      var fs, rest := FindTorn(s, withQos);
    }
    forall fs, rest | Torn(s, fs, rest, withQos) ensures TF.ParseFilters(s, withQos).Undefined? {
      TornParses(s, fs, rest, withQos);
    }
  }

  ghost predicate IsRejected(s: seq<byte>, behindValid: bool) {
    exists fs, topic, qos, rest :: Rejected(s, fs, topic, qos, rest) && (fs != []) == behindValid
  }

  lemma RejectedIff(s: seq<byte>, behindValid: bool)
    ensures IsRejected(s, behindValid) <==>
            TF.ParseFilters(s, true) == Err(SubscribeMessageError) && TF.FirstRejected(s, true) != behindValid
  {
    if TF.ParseFilters(s, true).Err? {
      var fs, topic, qos, rest := FindRejected(s);
      RejectedParses(s, fs, topic, qos, rest);
    }
    forall fs, topic, qos, rest | Rejected(s, fs, topic, qos, rest)
      ensures TF.ParseFilters(s, true) == Err(SubscribeMessageError)
      ensures TF.FirstRejected(s, true) <==> fs == []
    {
      RejectedParses(s, fs, topic, qos, rest);
    }
  }

  /** The outcome `r` of a body. An invalid QoS is an error behind a valid filter; in the first
      filter it leads to the unset pointer, like an empty list. */
  ghost predicate FilterOutcome(body: seq<byte>, withQos: bool, r: Parsed<TF.Subscription>) {
    if |body| < 2 then r.Undefined?
    else
      var s := body[2..];
      && (r.Err? ==> r == Err(SubscribeMessageError))
      && (r.Err? <==> withQos && IsRejected(s, true))
      && (r.Undefined? <==> s == [] || IsTorn(s, withQos) || (withQos && IsRejected(s, false)))
  }

  lemma {:induction false} OnlyQosErrors(s: seq<byte>, withQos: bool)
    ensures TF.ParseFilters(s, withQos).Err? ==> withQos && TF.ParseFilters(s, withQos) == Err(SubscribeMessageError)
  {
    if s == [] || |s| < 2 || |s| < StrLen(s) + TF.Overhead(withQos) {
    } else {
      OnlyQosErrors(s[StrLen(s) + TF.Overhead(withQos)..], withQos);
    }
  }

  lemma FilterBodyErrors(body: seq<byte>, withQos: bool)
    ensures FilterOutcome(body, withQos, TF.ParseBody(body, withQos))
  {
    if |body| >= 2 {
      var s := body[2..];
      TornIff(s, withQos);
      OnlyQosErrors(s, withQos);
      ParseFiltersIff(s, [], withQos);
      RejectedIff(s, true);
      RejectedIff(s, false);
      RejectedFirst(s);
    }
  }

  lemma RejectedFirst(s: seq<byte>)
    ensures TF.FirstRejected(s, true) ==> TF.ParseFilters(s, true) == Err(SubscribeMessageError)
  {
  }

  lemma FilterErrors(m: seq<byte>, body: seq<byte>, withQos: bool)
    requires m != []
    ensures var r := TF.ParseFilterMessage(m, withQos);
            && (r == Err(MessageTypeError) <==> m[0] != TF.First(withQos))
            && (m[0] == TF.First(withQos) && (forall b :: !Carries(m, TF.First(withQos), b)) ==>
                 r == Err(SubscribeMessageError))
            && (Carries(m, TF.First(withQos), body) ==> FilterOutcome(body, withQos, r))
  {
    OpenBodyErrors(m, TF.First(withQos), SubscribeMessageError);
    if m[0] == TF.First(withQos) {
      TF.NoTypeError(m, withQos);
    }
    if Carries(m, TF.First(withQos), body) {
      OpenBodyIff(m, TF.First(withQos), SubscribeMessageError, body);
      FilterBodyErrors(body, withQos);
    }
  }

  /** How a SUBSCRIBE is turned away: the type, the length, or an invalid QoS. */
  lemma SubscribeErrors(m: seq<byte>, body: seq<byte>)
    requires m != []
    ensures TF.ParseSubscribe(m) == Err(MessageTypeError) <==> m[0] != 0x80
    ensures m[0] == 0x80 && (forall b :: !Carries(m, 0x80, b)) ==> TF.ParseSubscribe(m) == Err(SubscribeMessageError)
    ensures Carries(m, 0x80, body) ==> FilterOutcome(body, true, TF.ParseSubscribe(m))
  {
    FilterErrors(m, body, true);
  }

  lemma UnsubscribeErrors(m: seq<byte>, body: seq<byte>)
    requires m != []
    ensures TF.ParseUnsubscribe(m) == Err(MessageTypeError) <==> m[0] != 0xA0
    ensures m[0] == 0xA0 && (forall b :: !Carries(m, 0xA0, b)) ==> TF.ParseUnsubscribe(m) == Err(SubscribeMessageError)
    ensures Carries(m, 0xA0, body) ==> FilterOutcome(body, false, TF.ParseUnsubscribe(m))
  {
    FilterErrors(m, body, false);
  }

  // ---------- SUBACK ----------

  lemma SubackBodyIff(body: seq<byte>, a: S.Acks)
    ensures S.ParseBody(body) == Ok(a) <==>
            && |a.codes| <= 0xFFFF && (forall c <- a.codes :: c in {0, 1, 2, 0x80})
            && body == [a.packetId / 256, a.packetId % 256] + a.codes
  {
    S.LegalIff(a.codes);
    S.ShortCodes(a.codes);
    if |body| >= 2 {
      FromBe16RoundTrip(body);
      assert body == body[..2] + body[2..];
    }
    if body == [a.packetId / 256, a.packetId % 256] + a.codes {
      assert body[2..] == a.codes;
      Be16RoundTrip(a.packetId, a.codes);
    }
  }

  lemma SubackBuilt(id: uint16, codes: seq<byte>)
    requires |codes| + 2 < MAX_BODY
    ensures Carries(S.SubackFrame(id, codes), 0x90, [id / 256, id % 256] + codes)
  {
    FrameCarries(0x90, Be16(id) + codes);
  }

  /** A SUBACK is accepted with these contents exactly when it is one, byte by byte, and the
      count of its codes fits 16 bits. */
  lemma SubackIff(m: seq<byte>, a: S.Acks)
    ensures S.ParseSuback(m) == Ok(a) <==>
            && |a.codes| <= 0xFFFF && (forall c <- a.codes :: c in {0, 1, 2, 0x80})
            && Carries(m, 0x90, [a.packetId / 256, a.packetId % 256] + a.codes)
  {
    var body := [a.packetId / 256, a.packetId % 256] + a.codes;
    if m != [] {
      OpenBodyIff(m, 0x90, SubackMessageError, body);
      var r := OpenBody(m, 0x90, SubackMessageError);
      if r.Ok? {
        SubackBodyIff(r.value, a);
      }
    }
  }

  lemma SubackErrors(m: seq<byte>, id: uint16, codes: seq<byte>)
    requires m != []
    ensures S.ParseSuback(m) == Err(MessageTypeError) <==> m[0] != 0x90
    ensures S.ParseSuback(m) == Err(SubackMessageError) <==> m[0] == 0x90 && forall body :: !Carries(m, 0x90, body)
    ensures Carries(m, 0x90, [id / 256, id % 256] + codes) && |codes| <= 0xFFFF ==>
              (S.ParseSuback(m) == Err(SubackQosError) <==> exists c <- codes :: c !in {0, 1, 2, 0x80})
  {
    OpenBodyErrors(m, 0x90, SubackMessageError);
    var body := [id / 256, id % 256] + codes;
    if Carries(m, 0x90, body) {
      OpenBodyIff(m, 0x90, SubackMessageError, body);
      assert body[2..] == codes;
      S.LegalIff(codes);
      S.ShortCodes(codes);
    }
  }

  // ---------- PUBLISH ----------

  function PublishBytes(p: P.Publication): seq<byte> {
    [|p.topic| / 256, |p.topic| % 256] + p.topic
    + (if p.qos > 0 then [p.packetId / 256, p.packetId % 256] else []) + p.payload
  }

  predicate PublishFramed(m: seq<byte>, p: P.Publication, f: seq<byte>, n: nat) {
    && p.dup <= 1 && p.retain <= 1 && p.qos <= 2 && (p.qos == 0 ==> p.packetId == 0)
    && LengthField(f, n) && n <= |PublishBytes(p)|
    && m == [0x30 + 8 * p.dup as int + 2 * p.qos as int + p.retain as int] + f + PublishBytes(p)
  }

  /** A PUBLISH is accepted with these contents exactly when it is one, byte by byte, whatever
      part of it the length field covers. */
  lemma PublishIff(m: seq<byte>, p: P.Publication)
    ensures P.ParsePublish(m) == Ok(p) <==> exists f, n :: PublishFramed(m, p, f, n)
  {
    if P.ParsePublish(m) == Ok(p) {
      PublishParsed(m, p);
    }
    forall f, n | PublishFramed(m, p, f, n) ensures P.ParsePublish(m) == Ok(p) {
      PublishParses(m, p, f, n);
    }
  }

  lemma PublishParsed(m: seq<byte>, p: P.Publication)
    requires P.ParsePublish(m) == Ok(p)
    ensures m != [] && PublishFramed(m, p, m[1..1 + RemainLength(m).used], RemainLength(m).length)
  {
    var d := RemainLength(m);
    LengthCut(m);
    RestParsed(m[0], m[1 + d.used..], p);
  }

  lemma RestParsed(first: byte, rest: seq<byte>, p: P.Publication)
    requires first / 16 == 3 && first / 2 % 4 != 3 && P.ParseRest(first, rest) == Ok(p)
    ensures p.dup <= 1 && p.retain <= 1 && p.qos <= 2 && (p.qos == 0 ==> p.packetId == 0)
    ensures first == 0x30 + 8 * p.dup as int + 2 * p.qos as int + p.retain as int
    ensures PublishBytes(p) == rest
  {
    P.RestAgain(first, rest);
    P.FirstByteAgain(first);
    assert p.dup == first / 8 % 2 && p.qos == first / 2 % 4 && p.retain == first % 2;
    assert PublishBytes(p) == P.Body(p);
  }

  lemma PublishParses(m: seq<byte>, p: P.Publication, f: seq<byte>, n: nat)
    requires PublishFramed(m, p, f, n)
    ensures P.ParsePublish(m) == Ok(p)
  {
    var body := PublishBytes(p);
    HeadAndTail(m[0], f, body);
    DecodeField(m, f, n, body);
    PublishHead(p);
    P.ParseOpened(m, Decoded(n, |f|), body);
    P.RestRoundTrip(p, []);
    assert P.Body(p) + [] == body && p.payload + [] == p.payload;
  }

  lemma PublishHead(p: P.Publication)
    requires p.dup <= 1 && p.retain <= 1 && p.qos <= 2 && (p.qos == 0 ==> p.packetId == 0)
    ensures var b := P.FirstByte(p.dup, p.qos, p.retain);
            && b == 0x30 + 8 * p.dup as int + 2 * p.qos as int + p.retain as int
            && b / 16 == 3 && b / 2 % 4 == p.qos
    ensures P.Sent(p) == p
  {
  }

  /** What the builder writes, with its length cut to 16 bits. */
  lemma PublishBuilt(p: P.Publication)
    requires P.Buildable(p)
    ensures var f, n := EncodeLength(|PublishBytes(p)| % 0x1_0000), |PublishBytes(p)| % 0x1_0000;
            && LengthField(f, n)
            && P.Written(p) ==
               [0x30 + (if p.dup != 0 then 8 else 0) + 2 * p.qos as int + (if p.retain != 0 then 1 else 0)]
               + f + PublishBytes(p)
  {
    EncodedField(|PublishBytes(p)| % 0x1_0000);
    assert PublishBytes(p) == P.Body(p);
  }

  /** The length field `f` announces more than there is behind it. */
  predicate TooLong(m: seq<byte>, f: seq<byte>, n: nat, rest: seq<byte>) {
    m != [] && m == [m[0]] + f + rest && LengthField(f, n) && n > |rest|
  }

  lemma PublishErrors(m: seq<byte>)
    requires m != []
    ensures P.ParsePublish(m) == Err(MessageTypeError) <==> m[0] / 16 != 3
    ensures P.ParsePublish(m) == Err(PublishQosError) <==> m[0] / 16 == 3 && m[0] / 2 % 4 == 3
    ensures P.ParsePublish(m) == Err(PublishMessageError) <==>
            && m[0] / 16 == 3 && m[0] / 2 % 4 != 3
            && exists f, n, rest :: TooLong(m, f, n, rest)
  {
    var d := RemainLength(m);
    if 1 + d.used <= |m| && d.length > |m| - 1 - d.used {
      LengthCut(m);
      assert TooLong(m, m[1..1 + d.used], d.length, m[1 + d.used..]);
    }
    forall f, n, rest | TooLong(m, f, n, rest) ensures 1 + d.used <= |m| && d.length > |m| - 1 - d.used {
      HeadAndTail(m[0], f, rest);
      DecodeField(m, f, n, rest);
    }
  }

  /** Without a single byte every one of these parsers rejects its arguments. */
  lemma NothingReceived()
    ensures TF.ParseSubscribe([]) == Err(InvalidParam) && TF.ParseUnsubscribe([]) == Err(InvalidParam)
    ensures S.ParseSuback([]) == Err(InvalidParam) && P.ParsePublish([]) == Err(InvalidParam)
  {
  }

  lemma FourContinued(skipped: byte)
    ensures LengthField([0x83, 0x80, 0x80, 0x80, skipped], 3)
  {
    var four := [0x83 as byte, 0x80, 0x80, 0x80];
    assert [0x83, 0x80, 0x80, 0x80, skipped][..4] == four;
    assert four[1..] == [0x80, 0x80, 0x80] && four[1..][1..] == [0x80, 0x80];
    assert [0x80 as byte, 0x80][1..] == [0x80] && [0x80 as byte][1..] == [];
    Base128Cons(four);
    Base128Cons([0x80, 0x80, 0x80]);
    Base128Cons([0x80, 0x80]);
    Base128Cons([0x80]);
  }

  /** Four continued length bytes, which section 2.2.3 does not allow, are taken as the number
      they would be, and the byte behind them is skipped. */
  lemma FifthLengthByteExample(skipped: byte)
    ensures S.ParseSuback([0x90, 0x83, 0x80, 0x80, 0x80, skipped, 0, 1, 0]) == Ok(S.Acks(1, [0]))
  {
    var m := [0x90, 0x83, 0x80, 0x80, 0x80, skipped, 0, 1, 0];
    var f, body := [0x83, 0x80, 0x80, 0x80, skipped], [0, 1, 0];
    FourContinued(skipped);
    assert m == [0x90] + f + body;
    assert Framed(m, 0x90, f, body);
    var a := S.Acks(1, [0]);
    assert [a.packetId / 256, a.packetId % 256] + a.codes == body;
    SubackIff(m, a);
  }
}
