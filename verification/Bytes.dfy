/** Machine integers, byte strings, status codes and `memcpy`, shared by every other module. */
module Bytes {

  type byte = b: int | 0 <= b < 0x100
  type uint16 = n: int | 0 <= n < 0x1_0000
  type uint32 = n: int | 0 <= n < 0x1_0000_0000

  /** A byte string whose length fits the two-byte length prefix. */
  type str16 = s: seq<byte> | |s| < 0x1_0000

  /** The return codes of mqtt.h that the modelled functions use. */
  datatype Status =
    | Success
    | Unknown
    | InvalidParam
    | NoBuffer
    | MessageTypeError
    | ProtocolUnsupport
    | ProtocolLevelUnsupport
    | ConnectMessageError
    | ClientIdLengthUnsupport
    | ConnectFlagsError
    | PublishMessageError
    | PublishQosError
    | SubscribeMessageError
    | SubackQosError
    | SubackMessageError
    | MessageSendError
    | TimerReadError  // the -1 of a failed `read`

  /** The outcome of a parser. `Undefined` means that the C code reads outside the
      frame it was given, hands out a place outside it, or follows a pointer that it
      never set. */
  datatype Parsed<+T> = Ok(value: T) | Err(status: Status) | Undefined

  datatype Option<+T> = None | Some(value: T) {
    function GetOr(default: T): T {
      match this
      case None => default
      case Some(v) => v
    }
  }

  /** Two bytes, most significant first: `htons` followed by `memcpy`. */
  function Be16(n: uint16): (s: seq<byte>)
    ensures |s| == 2
  {
    [n / 256, n % 256]
  }

  /** `memcpy` followed by `ntohs`. */
  function FromBe16(s: seq<byte>): uint16
    requires |s| >= 2
  {
    s[0] as int * 256 + s[1] as int
  }

  /** `htons` as a number, on a little-endian host. */
  function Swap16(n: uint16): uint16 {
    n % 256 * 256 + n / 256
  }

  lemma Be16RoundTrip(n: uint16, tail: seq<byte>)
    ensures FromBe16(Be16(n) + tail) == n
  {
  }

  lemma FromBe16RoundTrip(s: seq<byte>)
    requires |s| >= 2
    ensures Be16(FromBe16(s)) == s[..2]
  {
  }

  lemma Assoc<T>(a: seq<T>, b: seq<T>, c: seq<T>)
    ensures a + (b + c) == a + b + c
  {
  }

  lemma Cut<T>(m: seq<T>, i: nat, j: nat)
    requires i <= j <= |m|
    ensures m == m[..i] + m[i..j] + m[j..]
  {
  }

  lemma Slice<T>(m: seq<T>, i: nat, j: nat, k: nat)
    requires i <= j <= k <= |m|
    ensures m[i..k][..j - i] == m[i..j] && m[i..k][j - i..] == m[j..k]
    ensures m[i..k] == m[i..j] + m[j..k]
  {
  }

  /** Replacing a middle part of a string changes nothing exactly when the part is the same. */
  lemma MiddleIff<T>(m: seq<T>, e: seq<T>, j: nat)
    requires 1 <= j <= |m|
    ensures [m[0]] + e + m[j..] == m <==> e == m[1..j]
  {
    var t := [m[0]] + e + m[j..];
    Cut(m, 1, j);
    if t == m {
      assert |e| == j - 1;
      assert t[1..j] == e;
    }
  }

  /** A window of a window of a buffer. */
  lemma Window(a: array<byte>, lo: nat, hi: nat, i: nat, j: nat)
    requires i <= j && lo + j <= hi <= a.Length
    ensures a[lo..hi][i..j] == a[lo + i..lo + j]
  {
    var s, t := a[lo..hi][i..j], a[lo + i..lo + j];
    assert |s| == |t|;
    forall k | 0 <= k < |s| ensures s[k] == t[k] {
      assert s[k] == a[lo..hi][i + k] == a[lo + i + k];
    }
  }

  lemma WindowTail(a: array<byte>, lo: nat, hi: nat, i: nat)
    requires lo + i <= hi <= a.Length
    ensures a[lo..hi][i..] == a[lo + i..hi]
  {
    var s := a[lo..hi];
    Window(a, lo, hi, i, |s|);
    assert s[i..|s|] == s[i..];
  }

  /** `memcpy(dst + off, src, |src|)`. */
  method Copy(dst: array<byte>, off: nat, src: seq<byte>)
    requires off + |src| <= dst.Length
    modifies dst
    ensures dst[..off + |src|] == old(dst[..off]) + src
    ensures forall j :: off + |src| <= j < dst.Length ==> dst[j] == old(dst[j])
  {
    forall i | 0 <= i < |src| {
      dst[off + i] := src[i];
    }
  }

  /** `dst[off] = b`. */
  method Put(dst: array<byte>, off: nat, b: byte)
    requires off < dst.Length
    modifies dst
    ensures dst[..off + 1] == old(dst[..off]) + [b]
    ensures forall j :: off < j < dst.Length ==> dst[j] == old(dst[j])
  {
    dst[off] := b;
  }
}
