/** The orch-vpn/encap-v0 frame: 4 magic bytes, version, message type, two reserved bytes, a big-endian
    32-bit payload length, then the payload. */
module EncapV0 {
  import opened Common

  type Byte = b: int | 0 <= b < 256

  const HEADER_LEN := 12
  const MAX_UINT32 := 0xFFFF_FFFF
  const MAGIC: seq<Byte> := [0x4F, 0x52, 0x43, 0x30]  // "ORC0"

  const MSG_HEARTBEAT: Byte := 0
  const MSG_IPV4_PAYLOAD: Byte := 1
  const MSG_HEARTBEAT_ACK: Byte := 2

  datatype Message = Message(msgType: Byte, payload: seq<Byte>)

  datatype DecodeError = TooShort | BadMagic | UnsupportedVersion(version: Byte) | LengthOutOfRange

  datatype Decoded = Frame(message: Message) | Rejected(error: DecodeError)

  /** The four bytes of a 32-bit number, most significant first. */
  function BigEndian32(n: nat): (r: seq<Byte>)
    requires n <= MAX_UINT32
    ensures |r| == 4
  {
    var n1, n2, n3 := n / 256, n / 256 / 256, n / 256 / 256 / 256;
    [n3, n2 % 256, n1 % 256, n % 256]
  }

  function Uint32(b: seq<Byte>): (n: nat)
    requires |b| == 4
    ensures n <= MAX_UINT32
  {
    Shift(Shift(Shift(b[0], b[1]), b[2]), b[3])
  }

  function Shift(hi: nat, lo: Byte): (n: nat)
    ensures n / 256 == hi && n % 256 == lo
  {
    hi * 256 + lo
  }

  lemma Uint32BigEndian(n: nat)
    requires n <= MAX_UINT32
    ensures Uint32(BigEndian32(n)) == n
  {
    var n1, n2, n3 := n / 256, n / 256 / 256, n / 256 / 256 / 256;
    assert Shift(n3, n2 % 256) == n2;
    assert Shift(n2, n1 % 256) == n1;
    assert Shift(n1, n % 256) == n;
  }

  lemma BigEndianUint32(b: seq<Byte>)
    requires |b| == 4
    ensures BigEndian32(Uint32(b)) == b
  {
    var n2 := Shift(b[0], b[1]);
    var n1 := Shift(n2, b[2]);
    assert Shift(n1, b[3]) == Uint32(b);
  }

  /** The wire layout with the two reserved bytes left open. */
  function Layout(m: Message, r0: Byte, r1: Byte): seq<Byte>
    requires |m.payload| <= MAX_UINT32
  {
    MAGIC + [0, m.msgType, r0, r1] + BigEndian32(|m.payload|) + m.payload
  }

  /** DecodeEncapV0. */
  function Decode(b: seq<Byte>): Decoded {
    if |b| < HEADER_LEN then Rejected(TooShort)
    else if b[0..4] != MAGIC then Rejected(BadMagic)
    else if b[4] != 0 then Rejected(UnsupportedVersion(b[4]))
    else
      var n := Uint32(b[8..12]);
      if HEADER_LEN + n > |b| then Rejected(LengthOutOfRange)
      else Frame(Message(b[5], b[HEADER_LEN..HEADER_LEN + n]))
  }

  /** EncodeEncapV0: fills a fresh buffer in place. A payload over 2^32-1 bytes panics in the source. */
  method Encode(msgType: Byte, payload: seq<Byte>) returns (out: array<Byte>)
    requires |payload| <= MAX_UINT32
    ensures fresh(out)
    ensures out[..] == Layout(Message(msgType, payload), 0, 0)
    ensures forall trailing: seq<Byte> :: Decode(out[..] + trailing) == Frame(Message(msgType, payload))
  {
    out := new Byte[HEADER_LEN + |payload|];
    forall i | 0 <= i < 4 { out[i] := MAGIC[i]; }
    out[4] := 0;
    out[5] := msgType;
    out[6], out[7] := 0, 0;
    var length := BigEndian32(|payload|);
    forall i | 0 <= i < 4 { out[8 + i] := length[i]; }
    forall i | 0 <= i < |payload| { out[HEADER_LEN + i] := payload[i]; }
    assert out[..] == Layout(Message(msgType, payload), 0, 0);
    forall trailing: seq<Byte> ensures Decode(out[..] + trailing) == Frame(Message(msgType, payload)) {
      DecodeLayout(Message(msgType, payload), 0, 0, trailing);
    }
  }

  /** A laid-out frame decodes to its message whatever the reserved bytes are and whatever follows it. */
  lemma DecodeLayout(m: Message, r0: Byte, r1: Byte, trailing: seq<Byte>)
    requires |m.payload| <= MAX_UINT32
    ensures Decode(Layout(m, r0, r1) + trailing) == Frame(m)
  {
    var b := Layout(m, r0, r1) + trailing;
    var n := |m.payload|;
    assert b[0..4] == MAGIC;
    assert b[4] == 0 && b[5] == m.msgType;
    assert b[8..12] == BigEndian32(n);
    Uint32BigEndian(n);
    assert b[HEADER_LEN..HEADER_LEN + n] == m.payload;
  }

  lemma AcceptedIsLaidOut(b: seq<Byte>, m: Message)
    requires Decode(b) == Frame(m)
    ensures |m.payload| <= MAX_UINT32 && HEADER_LEN + |m.payload| <= |b|
    ensures b == Layout(m, b[6], b[7]) + b[HEADER_LEN + |m.payload|..]
  {
    var n := Uint32(b[8..12]);
    assert |m.payload| == n;
    BigEndianUint32(b[8..12]);
    assert b[4..8] == [0, m.msgType, b[6], b[7]];
    Pieces(b, n, Layout(m, b[6], b[7]));
  }

  lemma Pieces(b: seq<Byte>, n: nat, front: seq<Byte>)
    requires 12 + n <= |b| && front == b[0..4] + b[4..8] + b[8..12] + b[12..12 + n]
    ensures b == front + b[12 + n..]
  {
  }

  /** The accepted byte strings are exactly the laid-out frames with anything behind them: every accepted
      string re-encodes to itself except for its two reserved bytes and what follows the payload. */
  lemma AcceptedExactly(b: seq<Byte>, m: Message)
    ensures Decode(b) == Frame(m) <==>
      && |m.payload| <= MAX_UINT32 && HEADER_LEN + |m.payload| <= |b|
      && b == Layout(m, b[6], b[7]) + b[HEADER_LEN + |m.payload|..]
  {
    if Decode(b) == Frame(m) {
      AcceptedIsLaidOut(b, m);
    } else if |m.payload| <= MAX_UINT32 && HEADER_LEN + |m.payload| <= |b| {
      DecodeLayout(m, b[6], b[7], b[HEADER_LEN + |m.payload|..]);
    }
  }

  /** No proper prefix of a frame decodes, so a truncated datagram is never taken for a shorter frame. */
  lemma NoProperPrefixDecodes(m: Message, r0: Byte, r1: Byte, cut: nat)
    requires |m.payload| <= MAX_UINT32 && cut < |Layout(m, r0, r1)|
    ensures Decode(Layout(m, r0, r1)[..cut]).Rejected?
  {
    var full := Layout(m, r0, r1);
    var b := full[..cut];
    if HEADER_LEN <= cut {
      assert b[8..12] == full[8..12] == BigEndian32(|m.payload|);
      Uint32BigEndian(|m.payload|);
    }
  }

  function Number(a: int, b: int, c: int, d: int): int { ((a * 256 + b) * 256 + c) * 256 + d }

  /** The wire format, byte by byte: an accepted frame starts with the letters ORC0 and version zero, then comes the
      type, then two bytes that do not matter, then the payload's length with its most significant byte first, and
      then the payload. */
  lemma WireFormat(b: seq<Byte>, m: Message)
    ensures Decode(b) == Frame(m) <==>
      && |b| >= 12 && b[0] == 0x4F && b[1] == 0x52 && b[2] == 0x43 && b[3] == 0x30 && b[4] == 0
      && b[5] == m.msgType
      && |m.payload| == Number(b[8], b[9], b[10], b[11])
      && 12 + |m.payload| <= |b| && m.payload == b[12..12 + |m.payload|]
  {
    if |b| >= 12 {
      assert b[0..4] == MAGIC <==> b[0] == 0x4F && b[1] == 0x52 && b[2] == 0x43 && b[3] == 0x30;
      assert Uint32(b[8..12]) == Shift(Shift(Shift(b[8], b[9]), b[10]), b[11]);
    }
  }
}
