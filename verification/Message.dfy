/** src/message/message.c: Remaining Length, length-prefixed strings and the fixed header. */
module Message {
  import opened Bytes

  /** One more than the largest Remaining Length of four bytes (section 2.2.3 of MQTT 3.1.1). */
  const MAX_BODY := 0x1000_0000

  // ---------- Remaining Length ----------

  function EncodeLength(n: nat): (s: seq<byte>)
    ensures |s| >= 1
  {
    if n < 128 then [n] else [128 + n % 128] + EncodeLength(n / 128)
  }

  datatype Decoded = Decoded(length: nat, used: nat)

  /** What the decoding loop computes from the bytes its limit lets it see. Without a
      terminating byte it reports one byte more than it saw. */
  function DecodeLength(s: seq<byte>): Decoded {
    if s == [] then Decoded(0, 1)
    else if s[0] < 128 then Decoded(s[0], 1)
    else
      var d := DecodeLength(s[1..]);
      Decoded(s[0] - 128 + 128 * d.length, d.used + 1)
  }

  /** The decoder never looks past four bytes. */
  function Limit(s: seq<byte>): seq<byte> {
    if |s| <= 4 then s else s[..4]
  }

  function Pow128(k: nat): nat {
    if k == 0 then 1 else 128 * Pow128(k - 1)
  }

  /** The value that section 2.2.3 of MQTT 3.1.1 gives to `s`: the sum of (s[i] mod 128) * 128^i. */
  function Base128(s: seq<byte>): nat {
    if s == [] then 0 else Base128(s[..|s| - 1]) + s[|s| - 1] % 128 * Pow128(|s| - 1)
  }

  /** Every byte but the last has its continuation bit set. */
  predicate Terminated(s: seq<byte>) {
    s != [] && s[|s| - 1] < 128 && forall i :: 0 <= i < |s| - 1 ==> s[i] >= 128
  }

  method RemainLengthEncode(length: uint32, encode: array<byte>, off: nat)
    returns (status: Status, encodeLen: nat)
    requires off + |EncodeLength(length)| <= encode.Length
    modifies encode
    ensures encodeLen == |EncodeLength(length)|
    ensures encode[..off + encodeLen] == old(encode[..off]) + EncodeLength(length)
    ensures forall j :: off + encodeLen <= j < encode.Length ==> encode[j] == old(encode[j])
    ensures status == if length < MAX_BODY then Success else InvalidParam
  {
    var rest: nat, index, more := length, 0, true;
    ghost var goal := encode[..off] + EncodeLength(length);
    while more
      invariant off + index <= encode.Length
      invariant goal == encode[..off + index] + if more then EncodeLength(rest) else []
      invariant forall j :: off + index <= j < encode.Length ==> encode[j] == old(encode[j])
      decreases more, rest
    {
      EncodeStep(rest, encode[..off + index]);
      var b: byte := rest % 128;
      rest := rest / 128;
      if rest > 0 {
        b := b + 128;
      }
      Put(encode, off + index, b);
      more := rest > 0;
      index := index + 1;
    }
    encodeLen := index;
    EncodedWithin(length, 4);
    FourDigits();
    status := if encodeLen > 4 then InvalidParam else Success;
  }

  lemma EncodeStep(n: nat, before: seq<byte>)
    ensures var b := if n / 128 > 0 then n % 128 + 128 else n % 128;
            before + EncodeLength(n) == before + [b] + if n / 128 > 0 then EncodeLength(n / 128) else []
  {
    if n < 128 {
      Assoc(before, [n % 128], []);
    } else {
      Assoc(before, [n % 128 + 128], EncodeLength(n / 128));
    }
  }

  /** `remain_length_encode` into the local `uint8_t buffer[4]` of a builder. */
  method EncodeField(length: uint32) returns (encoded: seq<byte>)
    requires length < MAX_BODY
    ensures encoded == EncodeLength(length)
  {
    BodyFitsFour(length);
    var buffer := new byte[4];
    var _, encodeLen := RemainLengthEncode(length, buffer, 0);
    encoded := buffer[..encodeLen];
  }

  /** A length takes the fewest base-128 digits that can hold it. */
  lemma {:induction false} EncodedSize(n: nat)
    ensures var k := |EncodeLength(n)|; n < Pow128(k) && (k == 1 || Pow128(k - 1) <= n)
  {
    if n < 128 {
    } else {
      EncodedSize(n / 128);
    }
  }

  lemma {:induction false} EncodedWithin(n: nat, k: nat)
    requires k >= 1
    ensures |EncodeLength(n)| <= k <==> n < Pow128(k)
  {
    Pow128Positive(k - 1);
    if n < 128 || k == 1 {
    } else {
      EncodedWithin(n / 128, k - 1);
    }
  }

  lemma BodyFitsFour(n: nat)
    requires n < MAX_BODY
    ensures 1 <= |EncodeLength(n)| <= 4
  {
    EncodedWithin(n, 4);
    FourDigits();
  }

  lemma FourDigits()
    ensures Pow128(4) == MAX_BODY
  {
    assert Pow128(2) == 0x4000;
    assert Pow128(3) == 0x20_0000;
  }

  lemma {:induction false} EncodedTerminated(n: nat)
    ensures var s := EncodeLength(n); Terminated(s) && (|s| > 1 ==> s[|s| - 1] != 0)
  {
    if n < 128 {
    } else {
      EncodedTerminated(n / 128);
    }
  }

  lemma {:induction false} DecodeEncoded(n: nat, tail: seq<byte>)
    ensures DecodeLength(EncodeLength(n) + tail) == Decoded(n, |EncodeLength(n)|)
  {
    if n >= 128 {
      DecodeEncoded(n / 128, tail);
      assert (EncodeLength(n) + tail)[1..] == EncodeLength(n / 128) + tail;
    } else {
      assert (EncodeLength(n) + tail)[0] == n;
    }
  }

  /** Decoding, through the four-byte window, inverts encoding whatever follows. */
  lemma LengthRoundTrip(n: nat, tail: seq<byte>)
    requires n < MAX_BODY
    ensures DecodeLength(Limit(EncodeLength(n) + tail)) == Decoded(n, |EncodeLength(n)|)
  {
    BodyFitsFour(n);
    var e := EncodeLength(n);
    var seen := Limit(e + tail);
    assert seen == e + seen[|e|..];
    DecodeEncoded(n, seen[|e|..]);
  }

  lemma {:induction false} Base128Cons(s: seq<byte>)
    requires s != []
    ensures Base128(s) == s[0] % 128 + 128 * Base128(s[1..])
  {
    if |s| > 1 {
      var init := s[..|s| - 1];
      Base128Cons(init);
      assert init[1..] == s[1..][..|s| - 2];
      assert s[1..][|s| - 2] == s[|s| - 1];
      assert Pow128(|s| - 1) == 128 * Pow128(|s| - 2);
      var d, p := s[|s| - 1] % 128, Pow128(|s| - 2);
      assert d * (128 * p) == 128 * (d * p);
    } else {
      assert s[..0] == [] && s[1..] == [];
    }
  }

  lemma {:induction false} DecodeWhole(s: seq<byte>, tail: seq<byte>)
    requires Terminated(s)
    ensures DecodeLength(s + tail) == Decoded(Base128(s), |s|)
  {
    Base128Cons(s);
    assert (s + tail)[0] == s[0];
    if |s| > 1 {
      assert (s + tail)[1..] == s[1..] + tail;
      DecodeWhole(s[1..], tail);
    } else {
      assert s[1..] == [];
    }
  }

  /** Any terminated string of at most four bytes decodes to its base-128 sum, whatever follows. */
  lemma DecodeTerminated(s: seq<byte>, tail: seq<byte>)
    requires Terminated(s) && |s| <= 4
    ensures DecodeLength(Limit(s + tail)) == Decoded(Base128(s), |s|)
  {
    var seen := Limit(s + tail);
    assert seen == s + seen[|s|..];
    DecodeWhole(s, seen[|s|..]);
  }

  /** Encoding inverts decoding exactly on strings without a superfluous last zero byte. */
  lemma {:induction false} ReencodeIff(s: seq<byte>)
    requires Terminated(s)
    ensures EncodeLength(Base128(s)) == s <==> (|s| == 1 || s[|s| - 1] != 0)
  {
    var n := Base128(s);
    if |s| == 1 || s[|s| - 1] != 0 {
      Reencode(s);
    } else {
      EncodedTerminated(n);
    }
  }

  lemma {:induction false} Reencode(s: seq<byte>)
    requires Terminated(s)
    requires |s| == 1 || s[|s| - 1] != 0
    ensures EncodeLength(Base128(s)) == s
    ensures s != [0] ==> Base128(s) > 0
  {
    Base128Cons(s);
    if |s| > 1 {
      Reencode(s[1..]);
      assert s == [s[0]] + s[1..];
    } else {
      assert s[1..] == [] && s == [s[0]];
    }
  }

  /** The decoder reports one byte more than its window exactly when no byte there ends the length. */
  lemma {:induction false} UnterminatedIff(s: seq<byte>)
    ensures DecodeLength(s).used <= |s| + 1
    ensures DecodeLength(s).used == |s| + 1 <==> forall i :: 0 <= i < |s| ==> s[i] >= 128
    ensures DecodeLength(s).used <= |s| ==> Terminated(s[..DecodeLength(s).used])
    ensures DecodeLength(s).length < Pow128(|s|)
  {
    if s == [] {
    } else {
      UnterminatedIff(s[1..]);
      assert forall i :: 0 < i < |s| ==> s[i] == s[1..][i - 1];
      var u := DecodeLength(s).used;
      if s[0] < 128 {
        assert Pow128(|s| - 1) >= 1 by { Pow128Positive(|s| - 1); }
      } else if u <= |s| {
        assert s[..u][1..] == s[1..][..u - 1];
      }
    }
  }

  lemma {:induction false} Pow128Positive(k: nat)
    ensures Pow128(k) >= 1
  {
    if k == 0 {
    } else {
      Pow128Positive(k - 1);
    }
  }

  /** The vectors of the repository's own test: the smallest and largest length of each size. */
  lemma LengthVectors()
    ensures EncodeLength(0) == [0x00] && EncodeLength(127) == [0x7F]
    ensures EncodeLength(128) == [0x80, 0x01] && EncodeLength(16383) == [0xFF, 0x7F]
    ensures EncodeLength(16384) == [0x80, 0x80, 0x01] && EncodeLength(2097151) == [0xFF, 0xFF, 0x7F]
    ensures EncodeLength(2097152) == [0x80, 0x80, 0x80, 0x01]
    ensures EncodeLength(268435455) == [0xFF, 0xFF, 0xFF, 0x7F]
  {
    assert EncodeLength(16383) == [0xFF] + EncodeLength(127);
    assert EncodeLength(16384) == [0x80] + EncodeLength(128);
    assert EncodeLength(2097151) == [0xFF] + EncodeLength(16383);
    assert EncodeLength(2097152) == [0x80] + EncodeLength(16384);
    assert EncodeLength(268435455) == [0xFF] + EncodeLength(2097151);
  }

  /** The outcome when `index` bytes are decoded to `length`, and `s` is still to be read. */
  ghost function Pending(length: nat, index: nat, base: nat, s: seq<byte>): Decoded {
    var d := DecodeLength(s);
    Decoded(length + base * d.length, index + d.used)
  }

  lemma DecodeStep(length: nat, index: nat, base: nat, s: seq<byte>)
    ensures s == [] ==> Pending(length, index, base, s) == Decoded(length, index + 1)
    ensures s != [] ==>
              var sum := length + s[0] % 128 * base;
              Pending(length, index, base, s) ==
              if s[0] < 128 then Decoded(sum, index + 1) else Pending(sum, index + 1, base * 128, s[1..])
  {
    if s != [] {
      var digit, rest := s[0] % 128, DecodeLength(s[1..]).length;
      assert base * (digit + 128 * rest) == base * digit + base * (128 * rest);
      assert base * (128 * rest) == (base * 128) * rest;
    }
  }

  /** `avail` is the caller's byte count; the window is the smaller of it and 4. */
  method RemainLengthDecode(encode: array<byte>, off: nat, avail: nat)
    returns (length: nat, encodeLen: nat)
    requires off + (if avail <= 4 then avail else 4) <= encode.Length
    ensures Decoded(length, encodeLen) ==
            DecodeLength(encode[off..off + (if avail <= 4 then avail else 4)])
  {
    var limit := if avail <= 4 then avail else 4;
    ghost var all := encode[off..off + limit];
    var base: nat, index := 1, 0;
    length := 0;
    ghost var goal := DecodeLength(all);
    assert all[0..] == all;
    while index < limit
      invariant 0 <= index <= limit
      invariant Pending(length, index, base, all[index..]) == goal
    {
      DecodeStep(length, index, base, all[index..]);
      var b := encode[off + index];
      length := length + b % 128 * base;
      if b < 128 {
        break;
      }
      base := base * 128;
      assert all[index..][1..] == all[index + 1..];
      index := index + 1;
    }
    if index == limit {
      DecodeStep(length, index, base, []);
    }
    encodeLen := index + 1;
  }

  // ---------- length-prefixed strings ----------

  function Str(s: str16): (r: seq<byte>)
    ensures |r| == |s| + 2
  {
    Be16(|s|) + s
  }

  /** The bytes that the prefix at the front of `s` announces. */
  function StrLen(s: seq<byte>): (n: nat)
    requires |s| >= 2
    ensures n < 0x1_0000
  {
    FromBe16(s)
  }

  lemma StrRoundTrip(s: str16, tail: seq<byte>)
    ensures var m := Str(s) + tail; StrLen(m) == |s| && m[2..2 + |s|] == s && m[2 + |s|..] == tail
  {
  }

  lemma StrAgain(m: seq<byte>)
    requires |m| >= 2 && |m| >= 2 + StrLen(m)
    ensures Str(m[2..2 + StrLen(m)]) + m[2 + StrLen(m)..] == m
  {
    FromBe16RoundTrip(m);
    assert m == m[..2] + m[2..2 + StrLen(m)] + m[2 + StrLen(m)..];
  }

  method BuildStringField(str: str16, buffer: array<byte>, off: nat) returns (fieldLen: nat)
    requires off + |str| + 2 <= buffer.Length
    modifies buffer
    ensures fieldLen == |str| + 2
    ensures buffer[..off + fieldLen] == old(buffer[..off]) + Str(str)
    ensures forall j :: off + fieldLen <= j < buffer.Length ==> buffer[j] == old(buffer[j])
  {
    Copy(buffer, off, Be16(|str|));
    Copy(buffer, off + 2, str);
    fieldLen := |str| + 2;
  }

  /** `locate_string_field` and the first call of `parse_string_field`: both read the prefix only. */
  method LocateStringField(buffer: array<byte>, off: nat) returns (str: nat, strLen: nat)
    requires off + 2 <= buffer.Length
    ensures str == off + 2 && strLen == StrLen(buffer[off..off + 2])
  {
    str := off + 2;
    strLen := buffer[off] as int * 256 + buffer[off + 1] as int;
  }

  // ---------- frames ----------

  /** A control packet: the first byte, the Remaining Length, then that many bytes. */
  function Frame(first: byte, body: seq<byte>): (m: seq<byte>)
    ensures |m| == 1 + |EncodeLength(|body|)| + |body| && m[0] == first
  {
    [first] + EncodeLength(|body|) + body
  }

  /** The first byte and the already encoded Remaining Length, copied to the front of a buffer. */
  method PutHeader(message: array<byte>, first: byte, encoded: seq<byte>) returns (end: nat)
    requires 1 + |encoded| <= message.Length
    modifies message
    ensures end == 1 + |encoded|
    ensures message[..end] == [first] + encoded
    ensures forall j :: end <= j < message.Length ==> message[j] == old(message[j])
  {
    Put(message, 0, first);
    Copy(message, 1, encoded);
    end := 1 + |encoded|;
  }

  /** The Remaining Length field of a packet as every parser reads it. */
  function RemainLength(m: seq<byte>): Decoded
    requires m != []
  {
    DecodeLength(Limit(m[1..]))
  }

  /** The Remaining Length field ends within four bytes and has no superfluous last zero byte. */
  predicate MinimalLength(m: seq<byte>)
    requires m != []
  {
    var used := RemainLength(m).used;
    used <= 4 && used < |m| && m[used] < 128 && (used == 1 || m[used] != 0)
  }

  lemma OpenFrame(first: byte, body: seq<byte>, tail: seq<byte>)
    requires |body| < MAX_BODY
    ensures var m := Frame(first, body) + tail;
            var d := RemainLength(m);
            && d == Decoded(|body|, |EncodeLength(|body|)|)
            && m[1 + d.used..] == body + tail
            && MinimalLength(m)
  {
    var m, e := Frame(first, body) + tail, EncodeLength(|body|);
    assert m[1..] == e + (body + tail);
    LengthRoundTrip(|body|, body + tail);
    EncodedTerminated(|body|);
    BodyFitsFour(|body|);
    assert m[|e|] == e[|e| - 1];
  }

  lemma LengthFieldIff(s: seq<byte>, tail: seq<byte>)
    requires Terminated(s)
    ensures var d := DecodeLength(s + tail);
            d.used == |s| && (EncodeLength(d.length) == s <==> |s| == 1 || s[|s| - 1] != 0)
  {
    DecodeWhole(s, tail);
    ReencodeIff(s);
  }

  /** A length field holds the encoding of its value exactly when it is minimal. */
  lemma LengthFieldMinimalIff(m: seq<byte>)
    requires m != [] && 1 + RemainLength(m).used <= |m|
    ensures var d := RemainLength(m);
            d.length < MAX_BODY && (EncodeLength(d.length) == m[1..1 + d.used] <==> MinimalLength(m))
  {
    var seen, d := Limit(m[1..]), RemainLength(m);
    UnterminatedIff(seen);
    Pow128Monotone(|seen|, 4);
    FourDigits();
    if d.used <= |seen| {
      assert seen == m[1..1 + |seen|];
      Slice(m, 1, 1 + d.used, 1 + |seen|);
      assert seen[..d.used] == m[1..1 + d.used] && m[1..1 + d.used][d.used - 1] == m[d.used];
      LengthFieldIff(m[1..1 + d.used], seen[d.used..]);
    } else {
      BodyFitsFour(d.length);
    }
  }

  /** A length field holds the encoding of `n` exactly when it is minimal and its value is `n`. */
  lemma LengthFieldIs(m: seq<byte>, n: nat)
    requires m != [] && 1 + RemainLength(m).used <= |m|
    requires n < MAX_BODY
    ensures var d := RemainLength(m);
            EncodeLength(n) == m[1..1 + d.used] <==> MinimalLength(m) && d.length == n
  {
    var d := RemainLength(m);
    LengthFieldMinimalIff(m);
    if EncodeLength(n) == m[1..1 + d.used] {
      assert m[1..] == EncodeLength(n) + m[1 + d.used..];
      LengthRoundTrip(n, m[1 + d.used..]);
    }
  }

  /** Re-framing the body of a packet whose length field is exact gives the packet back
      exactly when that field is minimal. */
  lemma ReframeIff(m: seq<byte>)
    requires m != []
    requires var d := RemainLength(m); 1 + d.used <= |m| && d.length == |m| - 1 - d.used
    ensures RemainLength(m).length < MAX_BODY
    ensures Frame(m[0], m[1 + RemainLength(m).used..]) == m <==> MinimalLength(m)
  {
    var d := RemainLength(m);
    LengthFieldMinimalIff(m);
    assert |m[1 + d.used..]| == d.length;
    MiddleIff(m, EncodeLength(d.length), 1 + d.used);
  }

  lemma {:induction false} Pow128Monotone(j: nat, k: nat)
    requires j <= k
    ensures Pow128(j) <= Pow128(k)
  {
    if j == k {
    } else {
      Pow128Monotone(j, k - 1);
    }
  }

  /** The checks that open every parser of a packet with a fixed first byte. When the length
      field runs past the message, the unsigned subtraction wraps far above any Remaining
      Length, so the comparison fails there too. */
  function OpenBody(m: seq<byte>, first: byte, lengthError: Status): Parsed<seq<byte>>
    requires m != []
  {
    if m[0] != first then Err(MessageTypeError)
    else
      var d := RemainLength(m);
      if 1 + d.used <= |m| && d.length == |m| - 1 - d.used then Ok(m[1 + d.used..]) else Err(lengthError)
  }

  lemma OpenBodyOfFrame(first: byte, body: seq<byte>, lengthError: Status)
    requires |body| < MAX_BODY
    ensures OpenBody(Frame(first, body), first, lengthError) == Ok(body)
  {
    OpenFrame(first, body, []);
    assert Frame(first, body) + [] == Frame(first, body);
    assert body + [] == body;
  }

  lemma OpenBodyReframe(m: seq<byte>, first: byte, lengthError: Status)
    requires m != [] && OpenBody(m, first, lengthError).Ok?
    ensures var body := OpenBody(m, first, lengthError).value;
            |body| < MAX_BODY && (Frame(first, body) == m <==> MinimalLength(m))
  {
    ReframeIff(m);
  }

  method OpenMessage(message: array<byte>, messageLen: uint32, first: byte, lengthError: Status)
    returns (status: Status, start: nat)
    requires 1 <= messageLen <= message.Length
    requires lengthError != Success
    ensures status == Success ==>
              && start <= messageLen
              && OpenBody(message[..messageLen], first, lengthError) == Ok(message[start..messageLen])
    ensures status != Success ==> OpenBody(message[..messageLen], first, lengthError) == Err(status)
  {
    start := 0;
    if message[0] != first {
      return MessageTypeError, 0;
    }
    var remainLen, fieldLen := RemainLengthDecode(message, 1, messageLen - 1);
    LengthSeen(message, messageLen);
    OpenedWith(message[..messageLen], lengthError, Decoded(remainLen, fieldLen));
    if messageLen - 1 < fieldLen || remainLen != messageLen - 1 - fieldLen {
      return lengthError, 0;
    }
    status, start := Success, 1 + fieldLen;
    WindowTail(message, 0, messageLen, start);
  }

  lemma OpenedWith(m: seq<byte>, lengthError: Status, d: Decoded)
    requires m != [] && RemainLength(m) == d
    ensures OpenBody(m, m[0], lengthError) ==
            if 1 + d.used <= |m| && d.length == |m| - 1 - d.used then Ok(m[1 + d.used..]) else Err(lengthError)
  {
  }

  /** What the decoder sees of a message is its Remaining Length field. */
  lemma LengthSeen(message: array<byte>, messageLen: nat)
    requires 1 <= messageLen <= message.Length
    ensures var avail := messageLen - 1;
            RemainLength(message[..messageLen]) == DecodeLength(message[1..1 + if avail <= 4 then avail else 4])
  {
    var avail := messageLen - 1;
    assert message[1..1 + if avail <= 4 then avail else 4] == Limit(message[..messageLen][1..]);
  }

  // ---------- fixed header ----------

  datatype Header = Header(messageType: byte, messageLen: nat, remainLen: nat)

  /** `message_fixed_header_decode` on the buffer `m` when `n` bytes were received. */
  function FixedHeader(m: seq<byte>, n: nat): Header
    requires m != []
  {
    var seen := m[1..if n <= 4 && 1 + n <= |m| then 1 + n else |m|];
    var d := DecodeLength(Limit(seen));
    Header(m[0] / 16, d.length + d.used + 1, d.length)
  }

  lemma HeaderOfWhole(m: seq<byte>)
    requires m != []
    ensures var d := RemainLength(m); FixedHeader(m, |m|) == Header(m[0] / 16, d.length + d.used + 1, d.length)
  {
    assert m[1..|m|] == m[1..];
  }

  method MessageFixedHeaderDecode(message: array<byte>, messageLen: uint32) returns (h: Header)
    requires message.Length >= 1 + (if messageLen <= 4 then messageLen else 4)
    ensures h == FixedHeader(message[..], messageLen)
  {
    var remainLen, encodeLen := RemainLengthDecode(message, 1, messageLen);
    h := Header(message[0] / 16, remainLen + encodeLen + 1, remainLen);
    ghost var m := message[..];
    ghost var limit := if messageLen <= 4 then messageLen else 4;
    assert message[1..1 + limit] == Limit(m[1..if messageLen <= 4 then 1 + messageLen else |m|]);
  }
}
