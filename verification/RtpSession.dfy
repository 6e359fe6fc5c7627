// The sending side of an RTP session: numbering, counters and video frames
// (src/rtp/rtp_session.cpp and the fragment loop of SendVideoFrame).
module RtpSessions {
  import opened Words
  import opened RtpPackets
  import H264

  const SEND_BUFFER_SIZE := 1472  // kRtpMaxPayloadSize + kRtpHeaderSize

  datatype Datagram = Datagram(bytes: seq<byte>, address: string, port: uint16)

  /** The session's fields, and every datagram the network has accepted from it. */
  datatype Session = Session(
    ssrc: uint32, payloadType: byte, hasSendSocket: bool,
    remoteAddr: string, remotePort: uint16,
    sequence: uint16, timestamp: uint32,
    packetsSent: uint32, bytesSent: uint64,
    sent: seq<Datagram>)

  datatype Event =
    | Send(payload: seq<byte>, destAddr: string, destPort: uint16, marker: bool, accepted: bool)
    | Advance(increment: uint32)
    | SetRemote(addr: string, port: uint16)
    | OpenSendSocket

  function Address(s: Session, destAddr: string): string {
    if destAddr == "" then s.remoteAddr else destAddr
  }

  function Port(s: Session, destPort: uint16): uint16 {
    if destPort == 0 then s.remotePort else destPort
  }

  /** What must hold for a packet to be handed to the network. */
  predicate CanSend(s: Session, payload: seq<byte>, destAddr: string, destPort: uint16) {
    && s.hasSendSocket
    && Address(s, destAddr) != "" && Port(s, destPort) != 0
    && RTP_HEADER_SIZE + |payload| <= SEND_BUFFER_SIZE
  }

  function NextPacket(s: Session, payload: seq<byte>, marker: bool): (p: Packet)
    ensures p.header.InRange()
  {
    Built(s.payloadType, s.sequence, s.timestamp, s.ssrc, marker, payload)
  }

  /** The network has taken the datagram. */
  function Accepted(s: Session, d: Datagram): Session {
    s.(sequence := Wrap16(s.sequence + 1), packetsSent := Wrap32(s.packetsSent + 1),
       bytesSent := Wrap64(s.bytesSent + |d.bytes|), sent := s.sent + [d])
  }

  function Apply(s: Session, e: Event): Session {
    match e
    case Send(payload, destAddr, destPort, marker, accepted) =>
      if CanSend(s, payload, destAddr, destPort) && accepted then
        Accepted(s, Datagram(Wire(NextPacket(s, payload, marker)), Address(s, destAddr), Port(s, destPort)))
      else s
    case Advance(increment) => s.(timestamp := Wrap32(s.timestamp + increment))
    case SetRemote(addr, port) => s.(remoteAddr := addr, remotePort := port)
    case OpenSendSocket => s.(hasSendSocket := true)
  }

  function After(s: Session, events: seq<Event>): Session {
    if events == [] then s
    else Apply(After(s, events[..|events| - 1]), events[|events| - 1])
  }

  /** What one call of SendPacket does: with a socket, an address, a port and room in the 1472 bytes of
      the buffer, and if the network accepts, one datagram goes to the given destination, or to the stored
      one where none is given, and is numbered and counted; otherwise nothing changes. */
  lemma SendIs(s: Session, payload: seq<byte>, destAddr: string, destPort: uint16, marker: bool, accepted: bool)
    ensures var after := Apply(s, Send(payload, destAddr, destPort, marker, accepted));
            var addr := if destAddr != "" then destAddr else s.remoteAddr;
            var port := if destPort != 0 then destPort else s.remotePort;
            if s.hasSendSocket && addr != "" && port != 0 && 12 + |payload| <= 1472 && accepted then
              && after == s.(sequence := (s.sequence + 1) % 0x1_0000,
                             packetsSent := (s.packetsSent + 1) % 0x1_0000_0000,
                             bytesSent := (s.bytesSent + 12 + |payload|) % 0x1_0000_0000_0000_0000,
                             sent := after.sent)
              && |after.sent| == |s.sent| + 1 && after.sent[..|s.sent|] == s.sent
              && after.sent[|s.sent|].address == addr && after.sent[|s.sent|].port == port
              && var p := Parsed(after.sent[|s.sent|].bytes);
                 && p.payload == payload && p.Sequence() == s.sequence && p.header.timestamp == s.timestamp
                 && p.header.ssrc == s.ssrc && p.header.marker == marker
                 && p.header.payloadType == s.payloadType % 128
            else after == s
  {
    ParseInvertsBuild(s.payloadType, s.sequence, s.timestamp, s.ssrc, marker, payload);
    hide Parsed, Wire;
  }

  /** A destination learned later is used by the sends after it, where none is given. */
  lemma LearnedDestinationIsUsed(s: Session, addr: string, port: uint16, payload: seq<byte>, marker: bool)
    requires addr != "" && port != 0 && 12 + |payload| <= 1472
    ensures var ready := Apply(Apply(s, OpenSendSocket), SetRemote(addr, port));
            var after := Apply(ready, Send(payload, "", 0, marker, true));
            |after.sent| == |s.sent| + 1 && after.sent[|s.sent|].address == addr && after.sent[|s.sent|].port == port
  {
    var ready := Apply(Apply(s, OpenSendSocket), SetRemote(addr, port));
    SendIs(ready, payload, "", 0, marker, true);
  }

  // The sum of what AdvanceTimestamp was called with.
  function Increments(events: seq<Event>): nat {
    if events == [] then 0
    else
      var e := events[|events| - 1];
      Increments(events[..|events| - 1]) + if e.Advance? then e.increment else 0
  }

  /** Over every run the timestamp is the initial one plus all increments, modulo 2^32. */
  lemma {:induction false} RunAdvancesTimestamp(s: Session, events: seq<Event>)
    ensures After(s, events).timestamp == (s.timestamp + Increments(events)) % 0x1_0000_0000
  {
    hide Wire, NextPacket, CanSend;
    if events != [] {
      RunAdvancesTimestamp(s, events[..|events| - 1]);
      Wrap32Adds(s.timestamp + Increments(events[..|events| - 1]),
                 Increments(events) - Increments(events[..|events| - 1]));
    }
  }

  // ---- Numbering over every run ----

  function TotalBytes(ds: seq<Datagram>): nat {
    if ds == [] then 0 else TotalBytes(ds[..|ds| - 1]) + |ds[|ds| - 1].bytes|
  }

  predicate IsFresh(s: Session) {
    s.sequence == 0 && s.packetsSent == 0 && s.bytesSent == 0 && s.sent == []
  }

  ghost predicate Numbered(s: Session) {
    && s.sequence == Wrap16(|s.sent|)
    && s.packetsSent == Wrap32(|s.sent|)
    && s.bytesSent == Wrap64(TotalBytes(s.sent))
    && forall i :: 0 <= i < |s.sent| ==> CarriesNumber(s.sent[i].bytes, i, s.ssrc)
  }

  // A receiver reads this sequence number and source from the datagram.
  ghost predicate CarriesNumber(bytes: seq<byte>, i: nat, ssrc: uint32) {
    && |bytes| <= SEND_BUFFER_SIZE
    && Parsed(bytes).Sequence() == Wrap16(i)
    && Parsed(bytes).header.ssrc == ssrc
  }

  lemma NextCarriesNumber(s: Session, payload: seq<byte>, marker: bool)
    requires s.sequence == Wrap16(|s.sent|) && RTP_HEADER_SIZE + |payload| <= SEND_BUFFER_SIZE
    ensures CarriesNumber(Wire(NextPacket(s, payload, marker)), |s.sent|, s.ssrc)
  {
    ParseInvertsBuild(s.payloadType, s.sequence, s.timestamp, s.ssrc, marker, payload);
  }

  lemma AcceptedIsNumbered(s: Session, d: Datagram)
    requires Numbered(s) && CarriesNumber(d.bytes, |s.sent|, s.ssrc)
    ensures Numbered(Accepted(s, d))
  {
    var after := Accepted(s, d);
    assert after.sent[..|after.sent| - 1] == s.sent;
    WrapAdds(|s.sent|, 1);
    WrapAdds(TotalBytes(s.sent), |d.bytes|);
  }

  lemma StepIsNumbered(s: Session, e: Event)
    requires Numbered(s)
    ensures Numbered(Apply(s, e)) && Apply(s, e).ssrc == s.ssrc
  {
    if e.Send? && CanSend(s, e.payload, e.destAddr, e.destPort) && e.accepted {
      NextCarriesNumber(s, e.payload, e.marker);
      var d := Datagram(Wire(NextPacket(s, e.payload, e.marker)), Address(s, e.destAddr), Port(s, e.destPort));
      AcceptedIsNumbered(s, d);
    }
  }

  /** Over every run of sends that succeed or fail, datagram i carries sequence number i mod 2^16,
      and the counters count exactly what the network accepted. */
  lemma {:induction false} RunIsNumbered(s: Session, events: seq<Event>)
    requires IsFresh(s)
    ensures Numbered(After(s, events)) && After(s, events).ssrc == s.ssrc
  {
    if events != [] {
      var before := After(s, events[..|events| - 1]);
      RunIsNumbered(s, events[..|events| - 1]);
      StepIsNumbered(before, events[|events| - 1]);
      assert After(s, events) == Apply(before, events[|events| - 1]);
    }
  }

  /** The next sequence number is the number of packets sent, modulo 2^16, whatever was sent. */
  lemma SequenceCountsPackets(s: Session, events: seq<Event>)
    requires IsFresh(s)
    ensures After(s, events).sequence == After(s, events).packetsSent % TWO16
  {
    RunIsNumbered(s, events);
    var n := |After(s, events).sent|;
    assert After(s, events).sequence == Wrap16(n) && After(s, events).packetsSent == Wrap32(n);
    LowHalfOfWrap32(n);
  }

  // ---- Video frames ----

  function FrameEvents(fragments: seq<seq<byte>>, destAddr: string, destPort: uint16,
                       accepted: seq<bool>, k: nat): (es: seq<Event>)
    requires k <= |fragments| == |accepted|
    ensures |es| == k
  {
    seq(k, i requires 0 <= i < k =>
      Send(fragments[i], destAddr, destPort, i == |fragments| - 1, accepted[i]))
  }

  function FrameDatagram(s: Session, fragments: seq<seq<byte>>, destAddr: string, destPort: uint16, i: nat): Datagram
    requires i < |fragments|
  {
    Datagram(Wire(Built(s.payloadType, Wrap16(s.sequence + i), s.timestamp, s.ssrc,
                        i == |fragments| - 1, fragments[i])),
             Address(s, destAddr), Port(s, destPort))
  }

  function FrameDatagrams(s: Session, fragments: seq<seq<byte>>, destAddr: string, destPort: uint16, k: nat)
    : (ds: seq<Datagram>)
    requires k <= |fragments|
    ensures |ds| == k && forall i :: 0 <= i < k ==> ds[i] == FrameDatagram(s, fragments, destAddr, destPort, i)
  {
    seq(k, i requires 0 <= i < k => FrameDatagram(s, fragments, destAddr, destPort, i))
  }

  /** The session after the network has accepted these datagrams of one frame. */
  ghost predicate SentOn(s: Session, after: Session, ds: seq<Datagram>) {
    && after.sent == s.sent + ds && after.sequence == Wrap16(s.sequence + |ds|)
    && after == s.(sequence := after.sequence, packetsSent := after.packetsSent,
                   bytesSent := after.bytesSent, sent := after.sent)
  }

  /** When every send succeeds, a frame's fragments go out in order under consecutive sequence
      numbers, one timestamp, and the marker on the last only. */
  lemma {:induction false} FrameSentWhole(s: Session, fragments: seq<seq<byte>>, destAddr: string, destPort: uint16,
                                          accepted: seq<bool>, k: nat)
    requires k <= |fragments| == |accepted|
    requires forall i :: 0 <= i < |fragments| ==> accepted[i] && CanSend(s, fragments[i], destAddr, destPort)
    ensures SentOn(s, After(s, FrameEvents(fragments, destAddr, destPort, accepted, k)),
                   FrameDatagrams(s, fragments, destAddr, destPort, k))
  {
    hide SentOn, After, FrameEvents, FrameDatagrams, CanSend;
    if k == 0 {
      NothingSent(s, fragments, destAddr, destPort, accepted);
    } else {
      FrameSentWhole(s, fragments, destAddr, destPort, accepted, k - 1);
      OneMoreEvent(s, fragments, destAddr, destPort, accepted, k - 1);
      assert accepted[k - 1];
      NextInFrame(s, After(s, FrameEvents(fragments, destAddr, destPort, accepted, k - 1)),
                  fragments, destAddr, destPort, k - 1);
    }
  }

  lemma NoEvents(s: Session, fragments: seq<seq<byte>>, destAddr: string, destPort: uint16, accepted: seq<bool>)
    requires |fragments| == |accepted|
    ensures After(s, FrameEvents(fragments, destAddr, destPort, accepted, 0)) == s
  {
    assert FrameEvents(fragments, destAddr, destPort, accepted, 0) == [];
  }

  lemma NothingSent(s: Session, fragments: seq<seq<byte>>, destAddr: string, destPort: uint16, accepted: seq<bool>)
    requires |fragments| == |accepted|
    ensures SentOn(s, After(s, FrameEvents(fragments, destAddr, destPort, accepted, 0)),
                   FrameDatagrams(s, fragments, destAddr, destPort, 0))
  {
    NoEvents(s, fragments, destAddr, destPort, accepted);
    hide After, FrameEvents;
    assert FrameDatagrams(s, fragments, destAddr, destPort, 0) == [];
  }

  lemma OneMoreEvent(s: Session, fragments: seq<seq<byte>>, destAddr: string, destPort: uint16,
                     accepted: seq<bool>, i: nat)
    requires i < |fragments| == |accepted|
    ensures var send := Send(fragments[i], destAddr, destPort, i == |fragments| - 1, accepted[i]);
            After(s, FrameEvents(fragments, destAddr, destPort, accepted, i + 1))
            == Apply(After(s, FrameEvents(fragments, destAddr, destPort, accepted, i)), send)
  {
    hide Apply;
    var events := FrameEvents(fragments, destAddr, destPort, accepted, i + 1);
    assert events[..i] == FrameEvents(fragments, destAddr, destPort, accepted, i);
  }

  // The session while a frame goes out, and its next fragment.
  lemma NextInFrame(s: Session, before: Session, fragments: seq<seq<byte>>, destAddr: string, destPort: uint16, i: nat)
    requires i < |fragments| && CanSend(s, fragments[i], destAddr, destPort)
    requires SentOn(s, before, FrameDatagrams(s, fragments, destAddr, destPort, i))
    ensures SentOn(s, Apply(before, Send(fragments[i], destAddr, destPort, i == |fragments| - 1, true)),
                   FrameDatagrams(s, fragments, destAddr, destPort, i + 1))
  {
    hide Wire, Built, Wrap16, Wrap32, Wrap64;
    var next := FrameDatagram(s, fragments, destAddr, destPort, i);
    assert FrameDatagrams(s, fragments, destAddr, destPort, i + 1)
           == FrameDatagrams(s, fragments, destAddr, destPort, i) + [next];
    Wrap16Adds(s.sequence + i, 1);
  }

  lemma FrameDatagramsParse(s: Session, fragments: seq<seq<byte>>, destAddr: string, destPort: uint16, i: nat)
    requires i < |fragments|
    ensures var p := Parsed(FrameDatagram(s, fragments, destAddr, destPort, i).bytes);
            && p.Sequence() == Wrap16(s.sequence + i) && p.header.timestamp == s.timestamp
            && (p.header.marker <==> i == |fragments| - 1) && p.payload == fragments[i]
            && p.header.ssrc == s.ssrc && p.header.payloadType == s.payloadType % 128
  {
    hide Parsed, Wire, Built, Wrap16;
    ParseInvertsBuild(s.payloadType, Wrap16(s.sequence + i), s.timestamp, s.ssrc,
                      i == |fragments| - 1, fragments[i]);
  }

  class RtpSession {
    const ssrc: uint32
    const payloadType: byte
    var hasSendSocket: bool
    var remoteAddr: string
    var remotePort: uint16
    var currentSeq: uint16
    var currentTimestamp: uint32
    var packetsSent: uint32
    var bytesSent: uint64
    ghost var sent: seq<Datagram>

    ghost function State(): Session
      reads this
    {
      Session(ssrc, payloadType, hasSendSocket, remoteAddr, remotePort,
              currentSeq, currentTimestamp, packetsSent, bytesSent, sent)
    }

    /** The random numbers are parameters; a source of 0 asks for one of them. */
    constructor (ssrc: uint32, payloadType: byte, randomSsrc: uint32, initialTimestamp: uint32)
      ensures IsFresh(State())
      ensures State() == Session(if ssrc != 0 then ssrc else randomSsrc, payloadType, false, "", 0, 0,
                                 initialTimestamp, 0, 0, [])
    {
      this.ssrc, this.payloadType := if ssrc != 0 then ssrc else randomSsrc, payloadType;
      hasSendSocket, remoteAddr, remotePort := false, "", 0;
      currentSeq, currentTimestamp, packetsSent, bytesSent := 0, initialTimestamp, 0, 0;
      sent := [];
    }

    /** `accepted` is whether the socket takes the datagram. */
    method SendPacket(payload: seq<byte>, destAddr: string, destPort: uint16, marker: bool, accepted: bool)
      returns (ok: bool)
      modifies this
      ensures ok <==> old(CanSend(State(), payload, destAddr, destPort)) && accepted
      ensures State() == Apply(old(State()), Send(payload, destAddr, destPort, marker, accepted))
    {
      hide Wire, Wrap16, Wrap32, Wrap64;
      if !hasSendSocket {
        return false;
      }
      var dst := if destAddr == "" then remoteAddr else destAddr;
      var dport := if destPort == 0 then remotePort else destPort;
      if dst == "" || dport == 0 {
        return false;
      }
      var packet := Built(payloadType, currentSeq, currentTimestamp, ssrc, marker, payload);
      var buffer := new byte[SEND_BUFFER_SIZE](_ => 0);
      var total := Serialize(packet, buffer, SEND_BUFFER_SIZE);
      if total == 0 || !accepted {
        return false;
      }
      assert buffer[..total] == Wire(packet);
      sent := sent + [Datagram(buffer[..total], dst, dport)];
      currentSeq := Wrap16(currentSeq + 1);
      packetsSent := Wrap32(packetsSent + 1);
      bytesSent := Wrap64(bytesSent + total);
      ok := true;
    }

    method AdvanceTimestamp(increment: uint32)
      modifies this
      ensures State() == Apply(old(State()), Advance(increment))
    {
      currentTimestamp := Wrap32(currentTimestamp + increment);
    }

    /** The encoded frame is fragmented and each fragment sent, whatever becomes of the others;
        then the timestamp advances by one frame of the 90 kHz clock. `encoded` is None without a
        context or an encoder, or when encoding fails: then nothing is sent. */
    method SendVideoFrame(encoded: Option<seq<byte>>, destAddr: string, destPort: uint16, fps: uint32,
                          accepted: seq<bool>)
      returns (ok: bool)
      requires fps > 0
      requires encoded.Some? ==> |accepted| == |H264.Fragments(encoded.value, H264.MAX_PAYLOAD)|
      modifies this
      ensures ok <==> encoded.Some?
      ensures if encoded.None? then State() == old(State())
              else
                var fragments := H264.Fragments(encoded.value, H264.MAX_PAYLOAD);
                State() == Apply(After(old(State()), FrameEvents(fragments, destAddr, destPort, accepted, |fragments|)),
                                 Advance(90000 / fps))
    {
      hide Apply, After, FrameEvents, CanSend;
      if encoded.None? {
        return false;
      }
      var fragments := H264.Fragment(encoded.value, H264.MAX_PAYLOAD);
      NoEvents(State(), fragments, destAddr, destPort, accepted);
      for i := 0 to |fragments|
        invariant State() == After(old(State()), FrameEvents(fragments, destAddr, destPort, accepted, i))
      {
        OneMoreEvent(old(State()), fragments, destAddr, destPort, accepted, i);
        var _ := SendPacket(fragments[i], destAddr, destPort, i == |fragments| - 1, accepted[i]);
      }
      AdvanceTimestamp(90000 / fps);
      ok := true;
    }
  }
}
