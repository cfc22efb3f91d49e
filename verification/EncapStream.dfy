/** What travels in encap-v0 frames: the gateway's dispatcher and the two pumps of a forwarder. */
module EncapStream {
  import opened Common
  import opened GoStrings
  import opened EncapV0

  const READ_BUFFER := 65535

  /** A datagram read into the receive buffer: longer ones lose their tail. */
  function Received(datagram: seq<Byte>): seq<Byte> {
    if |datagram| <= READ_BUFFER then datagram else datagram[..READ_BUFFER]
  }

  // ---- IPv4 payloads ----

  /** The pumps' test: only the version nibble. */
  predicate IsIPv4Packet(packet: seq<Byte>) { |packet| > 0 && packet[0] / 16 == 4 }

  function Dotted(b: seq<Byte>): string
    requires |b| == 4
  {
    Itoa(b[0]) + "." + Itoa(b[1]) + "." + Itoa(b[2]) + "." + Itoa(b[3])
  }

  /** SummarizeEncapIPv4Payload: inner source and destination when the header is plausible. */
  function Summarize(b: seq<Byte>): Option<(string, string)> {
    if |b| < 20 then None
    else if b[0] / 16 != 4 then None
    else
      var words: int := b[0] % 16;
      var ihl := words * 4;
      if ihl < 20 || ihl > |b| then None
      else Some((Dotted(b[12..16]), Dotted(b[16..20])))
  }

  /** Section 3.1 of RFC 791: version 4, and an IHL of at least five words that the packet really holds. */
  predicate WellFormedIPv4(p: seq<Byte>) {
    && IsIPv4Packet(p)
    && var first: int := p[0];
    0x45 <= first <= 0x4F && |p| >= 4 * (first - 0x40)
  }

  /** A payload is summarized exactly when its header is well formed, by its source and then its destination
      address. */
  lemma SummarizeExactly(p: seq<Byte>, src: string, dst: string)
    ensures Summarize(p) == Some((src, dst)) <==>
      && WellFormedIPv4(p)
      && src == Itoa(p[12]) + "." + Itoa(p[13]) + "." + Itoa(p[14]) + "." + Itoa(p[15])
      && dst == Itoa(p[16]) + "." + Itoa(p[17]) + "." + Itoa(p[18]) + "." + Itoa(p[19])
  {
    SummarizedWhen(p);
  }

  lemma SummarizedWhen(p: seq<Byte>)
    ensures Summarize(p).Some? <==> WellFormedIPv4(p)
  {
    if |p| > 0 {
      var first: int := p[0];
      assert first / 16 == 4 ==> first % 16 == first - 0x40;
    }
  }

  // ---- the gateway's dispatcher ----

  datatype Event =
    | BadFrame(error: DecodeError, bytes: nat)
    | BadInner(bytes: nat)
    | Heartbeat
    | HeartbeatAck
    | IPv4Inner(src: string, dst: string, inner: seq<Byte>)
    | UnknownMessage(msgType: Byte, payload: seq<Byte>)
    | AckWriteFailed

  /** The socket an acknowledgement goes to. */
  datatype Link = NoSocket | Writable | Broken

  function Acks(packet: seq<Byte>, ack: seq<Byte>, link: Link): seq<seq<Byte>> {
    var d := Decode(packet);
    if d.Frame? && d.message.msgType == MSG_HEARTBEAT && ack != [] && link.Writable? then [ack] else []
  }

  function Events(packet: seq<Byte>, ack: seq<Byte>, link: Link): seq<Event> {
    match Decode(packet)
    case Rejected(error) => [BadFrame(error, |packet|)]
    case Frame(Message(msgType, payload)) =>
      if msgType == MSG_HEARTBEAT then
        [Heartbeat] + if ack != [] && link.Broken? then [AckWriteFailed] else []
      else if msgType == MSG_HEARTBEAT_ACK then [HeartbeatAck]
      else if msgType == MSG_IPV4_PAYLOAD then
        match Summarize(payload) {
          case None => [BadInner(|packet|)]
          case Some((src, dst)) => [IPv4Inner(src, dst, payload)]
        }
      else [UnknownMessage(msgType, payload)]
  }

  /** What the observer is told of a message in a datagram of that many bytes: a heartbeat, and the loss of its
      acknowledgement if the socket is broken; an inner packet with its addresses, or that it is malformed; an
      acknowledgement; any other message as it is. */
  ghost predicate Tells(m: Message, bytes: nat, ack: seq<Byte>, link: Link, told: seq<Event>) {
    if m.msgType == 0 then told == if ack != [] && link == Broken then [Heartbeat, AckWriteFailed] else [Heartbeat]
    else if m.msgType == 1 then
      if WellFormedIPv4(m.payload)
      then exists src, dst :: Summarize(m.payload) == Some((src, dst)) && told == [IPv4Inner(src, dst, m.payload)]
      else told == [BadInner(bytes)]
    else if m.msgType == 2 then told == [HeartbeatAck]
    else told == [UnknownMessage(m.msgType, m.payload)]
  }

  lemma FrameTells(packet: seq<Byte>, m: Message, ack: seq<Byte>, link: Link)
    requires Decode(packet) == Frame(m)
    ensures Tells(m, |packet|, ack, link, Events(packet, ack, link))
  {
    SummarizedWhen(m.payload);
    if WellFormedIPv4(m.payload) {
      var (src, dst) := Summarize(m.payload).value;
      assert Summarize(m.payload) == Some((src, dst));
    }
  }

  /** The events of every frame, whatever its reserved bytes and whatever follows it. */
  lemma EventsExactly(m: Message, r0: Byte, r1: Byte, trailing: seq<Byte>, ack: seq<Byte>, link: Link)
    requires |m.payload| <= MAX_UINT32
    ensures var packet := Layout(m, r0, r1) + trailing;
      |packet| == 12 + |m.payload| + |trailing| && Tells(m, |packet|, ack, link, Events(packet, ack, link))
  {
    DecodeLayout(m, r0, r1, trailing);
    FrameTells(Layout(m, r0, r1) + trailing, m, ack, link);
  }

  /** Anything that is no frame is reported as such, with its length, and not acknowledged. */
  lemma NoFrameIsReported(packet: seq<Byte>, ack: seq<Byte>, link: Link)
    requires Decode(packet).Rejected?
    ensures Events(packet, ack, link) == [BadFrame(Decode(packet).error, |packet|)] && Acks(packet, ack, link) == []
  {
  }

  /** Receives decoded frames; `ack` is what its heartbeat callback returns. */
  class Observer {
    var events: seq<Event>
    const ack: seq<Byte>

    constructor (ack: seq<Byte>)
      ensures events == [] && this.ack == ack
    {
      events := [];
      this.ack := ack;
    }

    method Record(e: Event)
      modifies this
      ensures events == old(events) + [e]
    {
      events := events + [e];
    }
  }

  class Socket {
    var sent: seq<seq<Byte>>
    const works: bool

    constructor (works: bool)
      ensures sent == [] && this.works == works
    {
      sent := [];
      this.works := works;
    }

    method WriteTo(b: seq<Byte>) returns (ok: bool)
      modifies this
      ensures ok == works
      ensures sent == old(sent) + if works then [b] else []
    {
      if works { sent := sent + [b]; }
      ok := works;
    }
  }

  function LinkOf(pc: Socket?): Link {
    if pc == null then NoSocket else if pc.works then Writable else Broken
  }

  /** HandleEncapUDP: one datagram gives the observer exactly the events of its message. */
  method HandleEncapUDP(pc: Socket?, packet: seq<Byte>, obs: Observer)
    modifies obs, pc
    ensures obs.events == old(obs.events) + Events(packet, obs.ack, LinkOf(pc))
    ensures pc != null ==> pc.sent == old(pc.sent) + Acks(packet, obs.ack, LinkOf(pc))
  {
    match Decode(packet)
    case Rejected(error) => obs.Record(BadFrame(error, |packet|));
    case Frame(Message(msgType, payload)) =>
      if msgType == MSG_HEARTBEAT {
        obs.Record(Heartbeat);
        if |obs.ack| > 0 && pc != null {
          var ok := pc.WriteTo(obs.ack);
          if !ok { obs.Record(AckWriteFailed); }
        }
      } else if msgType == MSG_HEARTBEAT_ACK {
        obs.Record(HeartbeatAck);
      } else if msgType == MSG_IPV4_PAYLOAD {
        match Summarize(payload) {
          case None => obs.Record(BadInner(|packet|));
          case Some((src, dst)) => obs.Record(IPv4Inner(src, dst, payload));
        }
      } else {
        obs.Record(UnknownMessage(msgType, payload));
      }
  }

  // ---- the pumps ----

  function FrameOf(packet: seq<Byte>): seq<Byte>
    requires |packet| <= MAX_UINT32
  {
    Layout(Message(MSG_IPV4_PAYLOAD, packet), 0, 0)
  }

  predicate Readable(packets: seq<seq<Byte>>) { forall p | p in packets :: |p| <= READ_BUFFER }

  /** The frames that a run of device reads puts on the wire. */
  function Frames(packets: seq<seq<Byte>>): (frames: seq<seq<Byte>>)
    requires Readable(packets)
  {
    if packets == [] then []
    else if IsIPv4Packet(packets[0]) then [FrameOf(packets[0])] + Frames(packets[1..])
    else Frames(packets[1..])
  }

  function DecodeTunnelPayload(frame: seq<Byte>): Option<seq<Byte>> {
    match Decode(frame)
    case Frame(Message(msgType, payload)) =>
      if msgType == MSG_IPV4_PAYLOAD && IsIPv4Packet(payload) then Some(payload) else None
    case Rejected(_) => None
  }

  /** The packets that a run of received datagrams writes to the device. */
  function Payloads(datagrams: seq<seq<Byte>>): seq<seq<Byte>> {
    if datagrams == [] then []
    else
      var rest := Payloads(datagrams[1..]);
      match DecodeTunnelPayload(Received(datagrams[0]))
      case Some(p) => [p] + rest
      case None => rest
  }

  lemma {:induction false} FramesAppend(a: seq<seq<Byte>>, p: seq<Byte>)
    requires Readable(a + [p]) && Readable(a) && Readable([p])
    ensures Frames(a + [p]) == Frames(a) + Frames([p])
  {
    if a == [] {
      assert a + [p] == [p];
    } else {
      assert (a + [p])[1..] == a[1..] + [p];
      FramesAppend(a[1..], p);
    }
  }

  /** pumpTUNToUDP, reading `packets` until the device fails; the write after `writes` good ones fails. */
  method PumpTunToUdp(packets: seq<seq<Byte>>, writes: nat) returns (frames: seq<seq<Byte>>)
    requires Readable(packets)
    ensures frames == if |Frames(packets)| <= writes then Frames(packets) else Frames(packets)[..writes]
  {
    frames := [];
    var i := 0;
    while i < |packets|
      invariant 0 <= i <= |packets|
      invariant frames == Frames(packets[..i]) && |frames| <= writes
    {
      var packet := packets[i];
      FramesAppend(packets[..i], packet);
      FramesPrefix(packets, i + 1);
      assert packets[..i + 1] == packets[..i] + [packet];
      i := i + 1;
      if IsIPv4Packet(packet) {
        var frame := Encode(MSG_IPV4_PAYLOAD, packet);
        if |frames| == writes { return; }
        frames := frames + [frame[..]];
      }
    }
    assert packets[..i] == packets;
  }

  lemma {:induction false} FramesPrefix(packets: seq<seq<Byte>>, k: nat)
    requires Readable(packets) && k <= |packets|
    ensures Readable(packets[..k]) && Frames(packets[..k]) <= Frames(packets)
  {
    if k > 0 {
      assert packets[..k][1..] == packets[1..][..k - 1];
      FramesPrefix(packets[1..], k - 1);
    }
  }

  lemma {:induction false} PayloadsAppend(a: seq<seq<Byte>>, d: seq<Byte>)
    ensures Payloads(a + [d]) == Payloads(a) + Payloads([d])
  {
    if a == [] {
      assert a + [d] == [d];
    } else {
      assert (a + [d])[1..] == a[1..] + [d];
      PayloadsAppend(a[1..], d);
    }
  }

  /** pumpUDPToTUN: a device write that fails is only logged, so every payload is offered. */
  method PumpUdpToTun(datagrams: seq<seq<Byte>>) returns (packets: seq<seq<Byte>>)
    ensures packets == Payloads(datagrams)
  {
    packets := [];
    for i := 0 to |datagrams|
      invariant packets == Payloads(datagrams[..i])
    {
      PayloadsAppend(datagrams[..i], datagrams[i]);
      assert datagrams[..i + 1] == datagrams[..i] + [datagrams[i]];
      match DecodeTunnelPayload(Received(datagrams[i])) {
        case Some(p) => packets := packets + [p];
        case None =>
      }
    }
    assert datagrams[..|datagrams|] == datagrams;
  }

  // ---- end to end ----

  /** A packet whose frame fits the receive buffer. */
  predicate Fits(packet: seq<Byte>) { HEADER_LEN + |packet| <= READ_BUFFER }

  lemma ReceivedFrame(packet: seq<Byte>)
    requires |packet| <= READ_BUFFER
    ensures Fits(packet) ==> Decode(Received(FrameOf(packet))) == Frame(Message(MSG_IPV4_PAYLOAD, packet))
    ensures !Fits(packet) ==> Decode(Received(FrameOf(packet))).Rejected?
  {
    var m := Message(MSG_IPV4_PAYLOAD, packet);
    if Fits(packet) {
      DecodeLayout(m, 0, 0, []);
      assert FrameOf(packet) + [] == FrameOf(packet);
    } else {
      NoProperPrefixDecodes(m, 0, 0, READ_BUFFER);
    }
  }

  function Carried(packets: seq<seq<Byte>>): seq<seq<Byte>> {
    if packets == [] then []
    else if VersionFour(packets[0]) && 12 + |packets[0]| <= 65535 then [packets[0]] + Carried(packets[1..])
    else Carried(packets[1..])
  }

  /** The first byte is between 0x40 and 0x4F. */
  predicate VersionFour(p: seq<Byte>) { |p| > 0 && var first: int := p[0]; 0x40 <= first <= 0x4F }

  /** Two pumps back to back carry exactly the IPv4 packets whose frames fit, unchanged and in order. */
  lemma {:induction false} PumpsCarryPackets(packets: seq<seq<Byte>>)
    requires Readable(packets)
    ensures Payloads(Frames(packets)) == Carried(packets)
  {
    if packets != [] {
      var p := packets[0];
      PumpsCarryPackets(packets[1..]);
      if IsIPv4Packet(p) {
        ReceivedFrame(p);
        assert Frames(packets)[1..] == Frames(packets[1..]);
      }
    }
  }

  /** A packet that the pump sends reaches the gateway's observer unchanged exactly when its IPv4 header is
      well formed and its frame fits the receive buffer; otherwise the observer sees one invalid frame. */
  lemma GatewayObserves(packet: seq<Byte>, ack: seq<Byte>, link: Link)
    requires IsIPv4Packet(packet) && |packet| <= READ_BUFFER
    ensures var seen := Events(Received(FrameOf(packet)), ack, link);
      if WellFormedIPv4(packet) && Fits(packet)
      then seen == [IPv4Inner(Dotted(packet[12..16]), Dotted(packet[16..20]), packet)]
      else |seen| == 1 && (seen[0].BadFrame? || seen[0].BadInner?)
  {
    ReceivedFrame(packet);
    SummarizedWhen(packet);
  }

  function ObservedInner(packets: seq<seq<Byte>>, ack: seq<Byte>, link: Link): seq<seq<Byte>> {
    if packets == [] then []
    else
      var seen := Events(Received(packets[0]), ack, link);
      (if |seen| == 1 && seen[0].IPv4Inner? then [seen[0].inner] else []) + ObservedInner(packets[1..], ack, link)
  }

  function Observable(packets: seq<seq<Byte>>): seq<seq<Byte>> {
    if packets == [] then []
    else (if WellFormedIPv4(packets[0]) && Fits(packets[0]) then [packets[0]] else []) + Observable(packets[1..])
  }

  /** Over a whole stream of device reads, the inner packets that the gateway observes are exactly the well
      formed ones whose frames fit, unchanged and in order. */
  lemma {:induction false} GatewayObservesStream(packets: seq<seq<Byte>>, ack: seq<Byte>, link: Link)
    requires Readable(packets)
    ensures ObservedInner(Frames(packets), ack, link) == Observable(packets)
  {
    if packets != [] {
      var p := packets[0];
      GatewayObservesStream(packets[1..], ack, link);
      if IsIPv4Packet(p) {
        GatewayObserves(p, ack, link);
        assert Frames(packets)[1..] == Frames(packets[1..]);
      }
    }
  }

  /** decodeIPv4TunnelPayload accepts exactly the payload frames whose packet has version four. */
  lemma TunnelPayloadExactly(frame: seq<Byte>, packet: seq<Byte>)
    ensures DecodeTunnelPayload(frame) == Some(packet) <==>
      Decode(frame) == Frame(Message(1, packet)) && VersionFour(packet)
  {
    if |packet| > 0 {
      var first: int := packet[0];
      assert first / 16 == 4 <==> 0x40 <= first <= 0x4F;
    }
  }

  /** sendEncapHeartbeat's test of the reply. */
  predicate AckAccepted(reply: seq<Byte>) {
    var d := Decode(reply);
    d.Frame? && d.message.msgType == MSG_HEARTBEAT_ACK
  }

  /** A heartbeat, whatever its payload, reserved bytes and trailing bytes, makes a gateway with a working socket
      send its acknowledgement once, unless that is empty. The workstation accepts every acknowledgement frame and
      no heartbeat, and no acknowledgement is ever acknowledged. */
  lemma HeartbeatHandshake(payload: seq<Byte>, r0: Byte, r1: Byte, trailing: seq<Byte>, ack: seq<Byte>, link: Link)
    requires |payload| <= MAX_UINT32
    ensures Acks(Layout(Message(MSG_HEARTBEAT, payload), r0, r1) + trailing, ack, link) ==
      if link == Writable && ack != [] then [ack] else []
    ensures Acks(Layout(Message(MSG_HEARTBEAT_ACK, payload), r0, r1) + trailing, ack, link) == []
    ensures AckAccepted(Layout(Message(MSG_HEARTBEAT_ACK, payload), r0, r1) + trailing)
    ensures !AckAccepted(Layout(Message(MSG_HEARTBEAT, payload), r0, r1) + trailing)
  {
    DecodeLayout(Message(MSG_HEARTBEAT_ACK, payload), r0, r1, trailing);
    DecodeLayout(Message(MSG_HEARTBEAT, payload), r0, r1, trailing);
  }
}
