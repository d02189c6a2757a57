/** Framing of messages on a byte stream: what the sender writes in pieces, what the
    receiver reassembles from other pieces, and the end-to-end theorem between them. */
module MessageFraming {
  import opened MessageQueue

  const HEADER_LEN: nat := 16
  const MAX_RECV_BODY_LEN: nat := 64 * 1024 * 1024

  // ---- headers

  datatype Header = Header(kind: int, result: int, bodyLen: nat, seqNo: nat, crc: nat)

  predicate Int16(x: int) { -0x8000 <= x < 0x8000 }

  predicate HeaderOk(h: Header) {
    Int16(h.kind) && Int16(h.result) && h.bodyLen < 0x1_0000_0000 && h.seqNo < 0x1_0000_0000 && h.crc < 0x1_0000_0000
  }

  /** Little-endian memory image of an unsigned value. */
  function Image(x: nat, n: nat): (s: seq<Byte>)
    ensures |s| == n
  {
    if n == 0 then [] else [x % 256] + Image(x / 256, n - 1)
  }

  function Unsigned(s: seq<Byte>): nat {
    if s == [] then 0 else s[0] + 256 * Unsigned(s[1..])
  }

  function Pow256(n: nat): nat { if n == 0 then 1 else 256 * Pow256(n - 1) }

  lemma {:induction false} ImageRoundTrip(x: nat, n: nat)
    requires x < Pow256(n)
    ensures Unsigned(Image(x, n)) == x
  {
    if n == 0 {
    } else {
      ImageRoundTrip(x / 256, n - 1);
      assert Image(x, n)[1..] == Image(x / 256, n - 1);
    }
  }

  lemma Powers()
    ensures Pow256(2) == 0x1_0000 && Pow256(4) == 0x1_0000_0000
  {
    assert Pow256(2) == 256 * Pow256(1) && Pow256(1) == 256 * Pow256(0);
    assert Pow256(4) == 256 * Pow256(3) && Pow256(3) == 256 * Pow256(2);
  }

  function Wrap16(x: int): nat
    requires Int16(x)
  {
    if x < 0 then x + 0x1_0000 else x
  }

  function Signed16(u: nat): int { if u >= 0x8000 then u - 0x1_0000 else u }

  /** The 16 bytes of the header structure. */
  function Encode(h: Header): (s: seq<Byte>)
    requires HeaderOk(h)
    ensures |s| == HEADER_LEN
  {
    Image(Wrap16(h.kind), 2) + Image(Wrap16(h.result), 2) + Image(h.bodyLen, 4) + Image(h.seqNo, 4) + Image(h.crc, 4)
  }

  function Decode(s: seq<Byte>): (h: Header)
    requires |s| == HEADER_LEN
  {
    Header(Signed16(Unsigned(s[..2])), Signed16(Unsigned(s[2..4])), Unsigned(s[4..8]), Unsigned(s[8..12]),
      Unsigned(s[12..]))
  }

  lemma HeaderRoundTrip(h: Header)
    requires HeaderOk(h)
    ensures Decode(Encode(h)) == h
  {
    hide Image, Unsigned, Pow256;
    Powers();
    ImageRoundTrip(Wrap16(h.kind), 2);
    ImageRoundTrip(Wrap16(h.result), 2);
    ImageRoundTrip(h.bodyLen, 4);
    ImageRoundTrip(h.seqNo, 4);
    ImageRoundTrip(h.crc, 4);
    var s := Encode(h);
    assert s[..2] == Image(Wrap16(h.kind), 2) && s[2..4] == Image(Wrap16(h.result), 2);
    assert s[4..8] == Image(h.bodyLen, 4) && s[8..12] == Image(h.seqNo, 4) && s[12..] == Image(h.crc, 4);
  }

  lemma Image2(x: nat)
    requires x < 0x1_0000
    ensures var s: seq<int> := Image(x, 2); s[0] + 256 * s[1] == x
  {
    assert Image(x, 2) == [x % 256] + Image(x / 256, 1);
    assert Image(x / 256, 1) == [x / 256 % 256] + Image(x / 256 / 256, 0);
  }

  lemma Image4(x: nat)
    requires x < 0x1_0000_0000
    ensures var s: seq<int> := Image(x, 4); s[0] + 256 * s[1] + 65536 * s[2] + 16777216 * s[3] == x
  {
    var y := x / 65536;
    assert Image(x, 4) == [x % 256] + Image(x / 256, 3);
    assert Image(x / 256, 3) == [x / 256 % 256] + Image(x / 256 / 256, 2);
    assert x / 256 / 256 == y;
    Image2(y);
    assert Image(x, 4)[2] == Image(y, 2)[0] && Image(x, 4)[3] == Image(y, 2)[1];
  }

  /** Where the fields lie: 16 bytes, each field with its lowest byte first, negative 16-bit
      values as two's complement. */
  lemma HeaderLayout(h: Header)
    requires HeaderOk(h)
    ensures var s: seq<int> := Encode(h);
      && |s| == 16 && s[0] + 256 * s[1] == h.kind % 65536 && s[2] + 256 * s[3] == h.result % 65536
      && s[4] + 256 * s[5] + 65536 * s[6] + 16777216 * s[7] == h.bodyLen
      && s[8] + 256 * s[9] + 65536 * s[10] + 16777216 * s[11] == h.seqNo
      && s[12] + 256 * s[13] + 65536 * s[14] + 16777216 * s[15] == h.crc
  {
    hide Image;
    Image2(Wrap16(h.kind));
    Image2(Wrap16(h.result));
    Image4(h.bodyLen);
    Image4(h.seqNo);
    Image4(h.crc);
  }

  // ---- messages and streams

  datatype Message = Message(header: Header, body: seq<Byte>)

  /** What the link accepts: the header announces the body and the body is not too long. */
  predicate Sendable(m: Message) { HeaderOk(m.header) && m.header.bodyLen == |m.body| <= MAX_RECV_BODY_LEN }

  ghost predicate AllSendable(ms: seq<Message>) { forall i :: 0 <= i < |ms| ==> Sendable(ms[i]) }

  function Frame(m: Message): seq<Byte>
    requires Sendable(m)
  {
    Encode(m.header) + m.body
  }

  ghost function Stream(ms: seq<Message>): seq<Byte>
    requires AllSendable(ms)
  {
    if ms == [] then [] else Frame(ms[0]) + Stream(ms[1..])
  }

  lemma {:induction false} StreamAppend(ms: seq<Message>, m: Message)
    requires AllSendable(ms) && Sendable(m)
    ensures AllSendable(ms + [m]) && Stream(ms + [m]) == Stream(ms) + Frame(m)
  {
    hide Frame, Sendable;
    if ms == [] {
      assert [m][1..] == [];
    } else {
      assert (ms + [m])[1..] == ms[1..] + [m];
      StreamAppend(ms[1..], m);
    }
  }

  /** Equal leading bytes mean equal leading messages. */
  lemma FrameUnique(a: Message, b: Message, x: seq<Byte>, y: seq<Byte>)
    requires Sendable(a) && Sendable(b) && Frame(a) + x <= Frame(b) + y
    ensures a == b && x <= y
  {
    hide Encode, Decode;
    var s, t := Frame(a) + x, Frame(b) + y;
    assert Encode(a.header) == s[..HEADER_LEN] == t[..HEADER_LEN] == Encode(b.header);
    HeaderRoundTrip(a.header);
    HeaderRoundTrip(b.header);
    var n := HEADER_LEN + |a.body|;
    assert a.body == s[HEADER_LEN..n] == t[HEADER_LEN..n] == b.body;
    assert x == s[n..] && y == t[n..];
  }

  /** Whatever was parsed off a prefix of a stream is a prefix of its messages, and the
      rest of the prefix belongs to the next message. */
  lemma {:induction false} ParsedIsPrefix(ds: seq<Message>, rest: seq<Byte>, ms: seq<Message>)
    requires AllSendable(ds) && AllSendable(ms) && Stream(ds) + rest <= Stream(ms)
    ensures ds <= ms && rest <= Stream(ms[|ds|..])
  {
    hide Frame;
    if ds == [] {
      assert Stream(ds) + rest == rest && ms[0..] == ms;
    } else {
      assert ms != [] by { FrameLength(ds[0]); }
      assert Stream(ds) + rest == Frame(ds[0]) + (Stream(ds[1..]) + rest);
      FrameUnique(ds[0], ms[0], Stream(ds[1..]) + rest, Stream(ms[1..]));
      ParsedIsPrefix(ds[1..], rest, ms[1..]);
      assert ms[1..][|ds| - 1..] == ms[|ds|..];
    }
  }

  lemma FrameLength(m: Message)
    requires Sendable(m)
    ensures |Frame(m)| == HEADER_LEN + |m.body|
  {
  }
}
