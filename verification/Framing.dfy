/** Splitting a byte stream into control packets with the fixed header alone. */
module Framing {
  import opened Bytes
  import opened Message

  /** A packet as a builder produces it. */
  datatype Packet = Packet(first: byte, body: seq<byte>)

  predicate Sendable(p: Packet) {
    |p.body| < MAX_BODY
  }

  function Wire(p: Packet): seq<byte> {
    Frame(p.first, p.body)
  }

  function Stream(ps: seq<Packet>): seq<byte> {
    if ps == [] then [] else Wire(ps[0]) + Stream(ps[1..])
  }

  datatype Piece = Piece(messageType: byte, bytes: seq<byte>)

  /** Cuts a stream at the lengths that the fixed header announces, until what is left is
      shorter than announced. */
  function Split(s: seq<byte>): (r: (seq<Piece>, seq<byte>)) {
    if s == [] then ([], [])
    else
      var h := FixedHeader(s, |s|);
      if h.messageLen > |s| then ([], s)
      else
        var (pieces, left) := Split(s[h.messageLen..]);
        ([Piece(h.messageType, s[..h.messageLen])] + pieces, left)
  }

  function Pieces(ps: seq<Packet>): seq<Piece> {
    if ps == [] then [] else [Piece(ps[0].first / 16, Wire(ps[0]))] + Pieces(ps[1..])
  }

  /** The header of a frame depends only on its first min(5, length) bytes, however many more
      bytes were received and whatever follows in the buffer. */
  lemma HeaderOfPrefix(p: Packet, m: seq<byte>, n: nat)
    requires Sendable(p)
    requires var k := if |Wire(p)| <= 5 then |Wire(p)| else 5;
             k <= n && k <= |m| && m[..k] == Wire(p)[..k]
    ensures FixedHeader(m, n) == Header(p.first / 16, |Wire(p)|, |p.body|)
  {
    BodyFitsFour(|p.body|);
    var f, e := Wire(p), EncodeLength(|p.body|);
    var seen := m[1..if n <= 4 && 1 + n <= |m| then 1 + n else |m|];
    forall i | 0 <= i < |e| ensures seen[i] == e[i] {
      var k := if |f| <= 5 then |f| else 5;
      assert seen[i] == m[..k][i + 1] == f[..k][i + 1];
    }
    assert seen == e + seen[|e|..];
    LengthRoundTrip(|p.body|, seen[|e|..]);
    assert m[0] == m[..1][0];
  }

  lemma HeaderInStream(p: Packet, tail: seq<byte>)
    requires Sendable(p)
    ensures FixedHeader(Wire(p) + tail, |Wire(p) + tail|) == Header(p.first / 16, |Wire(p)|, |p.body|)
  {
    var m, k := Wire(p) + tail, if |Wire(p)| <= 5 then |Wire(p)| else 5;
    assert m[..k] == Wire(p)[..k];
    HeaderOfPrefix(p, m, |m|);
  }

  /** Splitting a concatenation of frames recovers exactly those frames, with their types. */
  lemma {:induction false} SplitStream(ps: seq<Packet>)
    requires forall p <- ps :: Sendable(p)
    ensures Split(Stream(ps)) == (Pieces(ps), [])
  {
    if ps == [] {
    } else {
      var f, tail := Wire(ps[0]), Stream(ps[1..]);
      HeaderInStream(ps[0], tail);
      assert (f + tail)[..|f|] == f && (f + tail)[|f|..] == tail;
      SplitStream(ps[1..]);
    }
  }

  function Joined(pieces: seq<Piece>): seq<byte> {
    if pieces == [] then [] else pieces[0].bytes + Joined(pieces[1..])
  }

  lemma JoinedCons(p: Piece, ps: seq<Piece>)
    ensures Joined([p] + ps) == p.bytes + Joined(ps)
  {
    assert ([p] + ps)[1..] == ps;
  }

  lemma SplitStep(s: seq<byte>)
    requires s != []
    ensures var h := FixedHeader(s, |s|);
            h.messageLen <= |s| ==>
              var (pieces, left) := Split(s[h.messageLen..]);
              Split(s) == ([Piece(h.messageType, s[..h.messageLen])] + pieces, left)
  {
  }

  /** Cutting loses nothing: the pieces and the remainder are the stream. */
  lemma {:induction false} SplitKeepsBytes(s: seq<byte>)
    ensures Joined(Split(s).0) + Split(s).1 == s
  {
    if s == [] || FixedHeader(s, |s|).messageLen > |s| {
      assert [] + s == s;
    } else {
      var h := FixedHeader(s, |s|);
      var (pieces, left) := Split(s[h.messageLen..]);
      SplitKeepsBytes(s[h.messageLen..]);
      Glue(s, Piece(h.messageType, s[..h.messageLen]), pieces, left);
      SplitStep(s);
    }
  }

  lemma Glue(s: seq<byte>, p: Piece, pieces: seq<Piece>, left: seq<byte>)
    requires p.bytes <= s
    requires Joined(pieces) + left == s[|p.bytes|..]
    ensures Joined([p] + pieces) + left == s
  {
    JoinedCons(p, pieces);
    assert s == p.bytes + (Joined(pieces) + left);
  }
}
