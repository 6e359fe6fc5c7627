// The whole path of a video NAL unit: fragment, number, serialize, arrive in any order, parse,
// sort in the jitter buffer, extract, defragment.
module VideoPath {
  import opened Words
  import opened Sequences
  import opened RtpPackets
  import H264
  import opened RtpSessions
  import JB = JitterBuffers
  import J = JitterRuns
  import F = JitterFifo
  import opened JitterPlayout
  import L = ReceiveLoop

  const PARSED := (d: Datagram) => Parsed(d.bytes)
  const PAYLOAD := (p: Packet) => p.payload

  /** The session sends the unit's fragments and every send succeeds. */
  ghost predicate SendsWhole(s: Session, nal: seq<byte>, destAddr: string, destPort: uint16) {
    var fragments := H264.Fragments(nal, H264.MAX_PAYLOAD);
    && H264.MAX_PAYLOAD < |nal| && |fragments| <= JB.MAX_BUFFER_SIZE
    && s.hasSendSocket && Address(s, destAddr) != "" && Port(s, destPort) != 0
  }

  predicate NumbersDoNotWrap(s: Session, nal: seq<byte>) {
    s.sequence + |H264.Fragments(nal, H264.MAX_PAYLOAD)| <= TWO16
  }

  // The datagrams that one frame adds to what the network accepted.
  function FrameOnWire(s: Session, nal: seq<byte>, destAddr: string, destPort: uint16): (ds: seq<Datagram>) {
    var fragments := H264.Fragments(nal, H264.MAX_PAYLOAD);
    var accepted := seq(|fragments|, _ => true);
    var after := After(s, FrameEvents(fragments, destAddr, destPort, accepted, |fragments|));
    if |s.sent| <= |after.sent| then after.sent[|s.sent|..] else []
  }

  lemma FrameOnWireIs(s: Session, nal: seq<byte>, destAddr: string, destPort: uint16)
    requires SendsWhole(s, nal, destAddr, destPort)
    ensures var fragments := H264.Fragments(nal, H264.MAX_PAYLOAD);
            FrameOnWire(s, nal, destAddr, destPort) == FrameDatagrams(s, fragments, destAddr, destPort, |fragments|)
  {
    var fragments := H264.Fragments(nal, H264.MAX_PAYLOAD);
    var accepted := seq(|fragments|, _ => true);
    H264.FragmentsFit(nal);
    assert forall i :: 0 <= i < |fragments| ==> fragments[i] in fragments;
    FrameSentWhole(s, fragments, destAddr, destPort, accepted, |fragments|);
  }

  /** What the receiver parses from the frame, in sending order: the fragments as payloads, under
      numbers that increase exactly when the 16-bit counter does not wrap within the frame. */
  lemma ParsedFrame(s: Session, nal: seq<byte>, destAddr: string, destPort: uint16) returns (ps: seq<Packet>)
    requires SendsWhole(s, nal, destAddr, destPort)
    ensures ps == Map(FrameOnWire(s, nal, destAddr, destPort), PARSED)
    ensures IncreasingBy(ps, F.NUMBER) <==> NumbersDoNotWrap(s, nal)
    ensures Map(ps, PAYLOAD) == H264.Fragments(nal, H264.MAX_PAYLOAD)
  {
    hide FrameOnWire, FrameDatagram, Parsed, Wrap16, IncreasingBy;
    FrameOnWireIs(s, nal, destAddr, destPort);
    var fragments := H264.Fragments(nal, H264.MAX_PAYLOAD);
    ps := Map(FrameOnWire(s, nal, destAddr, destPort), PARSED);
    forall i | 0 <= i < |ps|
      ensures ps[i].Sequence() == Wrap16(s.sequence + i) && ps[i].payload == fragments[i]
    {
      FrameDatagramsParse(s, fragments, destAddr, destPort, i);
    }
    NumbersIncrease(ps, s.sequence);
  }

  lemma NumbersIncrease(ps: seq<Packet>, first: uint16)
    requires |ps| <= TWO16 && forall i :: 0 <= i < |ps| ==> ps[i].Sequence() == Wrap16(first + i)
    ensures IncreasingBy(ps, F.NUMBER) <==> first + |ps| <= TWO16
  {
    if TWO16 < first + |ps| {
      var i := TWO16 - first;
      assert F.NUMBER(ps[i - 1]) == TWO16 - 1 && F.NUMBER(ps[i]) == 0;
    }
  }

  function FrameLength(nal: seq<byte>): nat { |H264.Fragments(nal, H264.MAX_PAYLOAD)| }

  // The packets of a frame as the receiver parses them, in sending order.
  function FramePackets(s: Session, nal: seq<byte>, destAddr: string, destPort: uint16): seq<Packet> {
    Map(FrameOnWire(s, nal, destAddr, destPort), PARSED)
  }

  // Packets that come after a frame in the stream, by their raw numbers.
  ghost predicate AllBelow(frame: seq<Packet>, later: seq<Packet>) {
    forall p, q :: p in frame && q in later ==> p.Sequence() < q.Sequence()
  }

  lemma FrameIs(s: Session, nal: seq<byte>, destAddr: string, destPort: uint16)
    requires SendsWhole(s, nal, destAddr, destPort)
    ensures var ps := FramePackets(s, nal, destAddr, destPort);
            && |ps| == FrameLength(nal) && Map(ps, PAYLOAD) == H264.Fragments(nal, H264.MAX_PAYLOAD)
            && (IncreasingBy(ps, F.NUMBER) <==> NumbersDoNotWrap(s, nal))
  {
    hide FrameOnWire, IncreasingBy, Map;
    var ps := ParsedFrame(s, nal, destAddr, destPort);
    assert |Map(ps, PAYLOAD)| == |ps|;
  }

  // The part of what has been handed out that a frame takes, after `at` earlier packets.
  function FrameHandedOut(delivered: seq<Packet>, at: nat, nal: seq<byte>): seq<Packet>
    requires at + FrameLength(nal) <= |delivered|
  {
    delivered[at..at + FrameLength(nal)]
  }

  /** End to end, for any delay and anywhere in a stream: a NAL unit of more than 1460 bytes in at most
      500 fragments, numbered after `earlier` packets and before `later` ones without a wrap. All of them
      arrive in any order, insertions and extractions interleaved in any way in which no arrival is late
      and every extraction finds the front ready. Then the fragments come in order right after the
      earlier packets; and once all have been handed out they reassemble to the unit exactly. */
  lemma EndToEnd(s: Session, nal: seq<byte>, destAddr: string, destPort: uint16,
                 earlier: seq<Packet>, later: seq<Packet>,
                 cfg: JB.Config, hs: seq<J.History>, es: seq<J.Event>, n: nat)
    requires SendsWhole(s, nal, destAddr, destPort)
    requires var upTo := earlier + FramePackets(s, nal, destAddr, destPort);
             && IncreasingBy(upTo, F.NUMBER) && AllBelow(upTo, later)
             && J.Run(cfg, hs, es) && n < |hs| && multiset(hs[n].inserted) == multiset(upTo) + multiset(later)
    requires AllKept(hs[n]) && RunInOrder(hs, es, n)
    ensures earlier + FramePackets(s, nal, destAddr, destPort) <= Line(hs[n])
    ensures |earlier| + FrameLength(nal) <= |hs[n].delivered| ==>
              H264.Defragmented(Map(FrameHandedOut(hs[n].delivered, |earlier|, nal), PAYLOAD)) == nal
  {
    hide FramePackets, J.Run, RunInOrder, AllKept, IncreasingBy, H264.Defragmented;
    var ps := FramePackets(s, nal, destAddr, destPort);
    FrameIs(s, nal, destAddr, destPort);
    hide H264.Fragments;
    LeastPlayFirst(cfg, hs, es, n, earlier + ps, later);
    if |earlier + ps| <= |hs[n].delivered| {
      SegmentOf(hs[n].delivered, J.Packets(hs[n].s.items), earlier, ps);
      H264.DefragmentInvertsFragment(nal, H264.MAX_PAYLOAD);
    }
  }

  lemma SegmentOf(delivered: seq<Packet>, buffered: seq<Packet>, earlier: seq<Packet>, ps: seq<Packet>)
    requires earlier + ps <= delivered + buffered && |earlier| + |ps| <= |delivered|
    ensures delivered[|earlier|..|earlier| + |ps|] == ps
  {
    var line, end := delivered + buffered, |earlier| + |ps|;
    assert line[..end] == earlier + ps;
    assert delivered[..end] == line[..end];
    assert delivered[|earlier|..end] == delivered[..end][|earlier|..];
  }

  // ---- A stream of frames ----

  lemma FrameNumbers(s: Session, nal: seq<byte>, destAddr: string, destPort: uint16)
    requires SendsWhole(s, nal, destAddr, destPort)
    ensures var ps := FramePackets(s, nal, destAddr, destPort);
            |ps| == FrameLength(nal) && forall i :: 0 <= i < |ps| ==> ps[i].Sequence() == Wrap16(s.sequence + i)
  {
    hide FrameOnWire, FrameDatagram, Parsed, Wrap16;
    FrameOnWireIs(s, nal, destAddr, destPort);
    var fragments, ps := H264.Fragments(nal, H264.MAX_PAYLOAD), FramePackets(s, nal, destAddr, destPort);
    forall i | 0 <= i < |ps|
      ensures ps[i].Sequence() == Wrap16(s.sequence + i)
    {
      FrameDatagramsParse(s, fragments, destAddr, destPort, i);
    }
  }

  // The session after it has sent a frame and moved its clock on.
  function AfterFrame(s: Session, nal: seq<byte>, destAddr: string, destPort: uint16, step: uint32): Session {
    var fragments := H264.Fragments(nal, H264.MAX_PAYLOAD);
    Apply(After(s, FrameEvents(fragments, destAddr, destPort, seq(|fragments|, _ => true), |fragments|)), Advance(step))
  }

  // The session after it has sent all frames.
  function AfterFrames(s: Session, nals: seq<seq<byte>>, destAddr: string, destPort: uint16, step: uint32): Session {
    if nals == [] then s
    else AfterFrame(AfterFrames(s, nals[..|nals| - 1], destAddr, destPort, step), nals[|nals| - 1],
                    destAddr, destPort, step)
  }

  // The packets of all frames as the receiver parses them, in sending order.
  function StreamPackets(s: Session, nals: seq<seq<byte>>, destAddr: string, destPort: uint16, step: uint32)
    : seq<Packet>
  {
    if nals == [] then []
    else
      var init := nals[..|nals| - 1];
      StreamPackets(s, init, destAddr, destPort, step)
      + FramePackets(AfterFrames(s, init, destAddr, destPort, step), nals[|nals| - 1], destAddr, destPort)
  }

  function StreamLength(nals: seq<seq<byte>>): nat {
    if nals == [] then 0 else StreamLength(nals[..|nals| - 1]) + FrameLength(nals[|nals| - 1])
  }

  // Every frame can be sent.
  ghost predicate SendsAll(s: Session, nals: seq<seq<byte>>, destAddr: string, destPort: uint16) {
    forall j :: 0 <= j < |nals| ==> SendsWhole(s, nals[j], destAddr, destPort)
  }

  lemma AfterFrameIs(s: Session, nal: seq<byte>, destAddr: string, destPort: uint16, step: uint32)
    requires SendsWhole(s, nal, destAddr, destPort)
    ensures var after := AfterFrame(s, nal, destAddr, destPort, step);
            && after.sequence == Wrap16(s.sequence + FrameLength(nal)) && after.hasSendSocket == s.hasSendSocket
            && after.remoteAddr == s.remoteAddr && after.remotePort == s.remotePort
            && after.timestamp == Wrap32(s.timestamp + step)
  {
    hide After, FrameEvents, FrameDatagrams, Wrap16, Wrap32;
    var fragments := H264.Fragments(nal, H264.MAX_PAYLOAD);
    H264.FragmentsFit(nal);
    assert forall i :: 0 <= i < |fragments| ==> fragments[i] in fragments;
    FrameSentWhole(s, fragments, destAddr, destPort, seq(|fragments|, _ => true), |fragments|);
  }

  // The frames of a stream are numbered on from one another.
  lemma {:induction false} StreamIsNumbered(s: Session, nals: seq<seq<byte>>, destAddr: string, destPort: uint16,
                                            step: uint32)
    requires SendsAll(s, nals, destAddr, destPort)
    ensures var after := AfterFrames(s, nals, destAddr, destPort, step);
            && after.sequence == Wrap16(s.sequence + StreamLength(nals)) && after.hasSendSocket == s.hasSendSocket
            && after.remoteAddr == s.remoteAddr && after.remotePort == s.remotePort
    ensures var ps := StreamPackets(s, nals, destAddr, destPort, step);
            && |ps| == StreamLength(nals)
            && forall i :: 0 <= i < |ps| ==> ps[i].Sequence() == Wrap16(s.sequence + i)
  {
    hide AfterFrame, FramePackets, FrameLength, Wrap16;
    if nals == [] {
      assert Wrap16(s.sequence) == s.sequence by { InRange(s.sequence); }
    } else {
      var init, last := nals[..|nals| - 1], nals[|nals| - 1];
      StreamIsNumbered(s, init, destAddr, destPort, step);
      var before := AfterFrames(s, init, destAddr, destPort, step);
      assert SendsWhole(before, last, destAddr, destPort);
      AfterFrameIs(before, last, destAddr, destPort, step);
      FrameNumbers(before, last, destAddr, destPort);
      hide SendsWhole, SendsAll;
      Wrap16Adds(s.sequence + StreamLength(init), FrameLength(last));
      NumberedOn(s.sequence, StreamPackets(s, init, destAddr, destPort, step), before.sequence,
                 FramePackets(before, last, destAddr, destPort));
    }
  }

  lemma NumberedOn(first: uint16, a: seq<Packet>, second: uint16, b: seq<Packet>)
    requires forall i :: 0 <= i < |a| ==> a[i].Sequence() == Wrap16(first + i)
    requires forall i :: 0 <= i < |b| ==> b[i].Sequence() == Wrap16(second + i)
    requires second == Wrap16(first + |a|)
    ensures forall i :: 0 <= i < |a + b| ==> (a + b)[i].Sequence() == Wrap16(first + i)
  {
    hide Wrap16;
    forall i | |a| <= i < |a + b|
      ensures (a + b)[i].Sequence() == Wrap16(first + i)
    {
      assert (a + b)[i] == b[i - |a|];
      Wrap16Adds(first + |a|, i - |a|);
    }
  }

  /** The frames of a stream are one step of the clock apart: each packet of frame j carries the first
      timestamp plus j steps, modulo 2^32, and the marker is on the last packet of each frame. */
  lemma StreamIsTimed(s: Session, nals: seq<seq<byte>>, destAddr: string, destPort: uint16, step: uint32, j: nat)
    requires SendsAll(s, nals, destAddr, destPort) && j < |nals|
    ensures var ps := FramePackets(AfterFrames(s, nals[..j], destAddr, destPort, step), nals[j], destAddr, destPort);
            forall i :: 0 <= i < |ps| ==>
              && ps[i].header.timestamp == (s.timestamp + j * step) % 0x1_0000_0000
              && (ps[i].header.marker <==> i == |ps| - 1)
  {
    hide AfterFrames, FramePackets, FrameLength, SendsWhole;
    PrefixSends(s, nals, destAddr, destPort, j);
    StreamIsNumbered(s, nals[..j], destAddr, destPort, step);
    FramesStep(s, nals[..j], destAddr, destPort, step);
    assert |nals[..j]| == j;
    var before := AfterFrames(s, nals[..j], destAddr, destPort, step);
    assert SendsWhole(before, nals[j], destAddr, destPort) by { SendsLater(s, before, nals[j], destAddr, destPort); }
    FrameIsTimed(before, nals[j], destAddr, destPort);
  }

  lemma SendsLater(s: Session, later: Session, nal: seq<byte>, destAddr: string, destPort: uint16)
    requires SendsWhole(s, nal, destAddr, destPort) && later.hasSendSocket == s.hasSendSocket
    requires later.remoteAddr == s.remoteAddr && later.remotePort == s.remotePort
    ensures SendsWhole(later, nal, destAddr, destPort)
  {
  }

  lemma FrameIsTimed(s: Session, nal: seq<byte>, destAddr: string, destPort: uint16)
    requires SendsWhole(s, nal, destAddr, destPort)
    ensures var ps := FramePackets(s, nal, destAddr, destPort);
            forall i :: 0 <= i < |ps| ==>
              ps[i].header.timestamp == s.timestamp && (ps[i].header.marker <==> i == |ps| - 1)
  {
    hide FrameOnWire, FrameDatagram, Parsed, Wrap16;
    FrameOnWireIs(s, nal, destAddr, destPort);
    var fragments, ps := H264.Fragments(nal, H264.MAX_PAYLOAD), FramePackets(s, nal, destAddr, destPort);
    forall i | 0 <= i < |ps|
      ensures ps[i].header.timestamp == s.timestamp && (ps[i].header.marker <==> i == |ps| - 1)
    {
      FrameDatagramsParse(s, fragments, destAddr, destPort, i);
    }
  }

  lemma {:induction false} FramesStep(s: Session, nals: seq<seq<byte>>, destAddr: string, destPort: uint16,
                                      step: uint32)
    requires SendsAll(s, nals, destAddr, destPort)
    ensures AfterFrames(s, nals, destAddr, destPort, step).timestamp == Wrap32(s.timestamp + |nals| * step)
  {
    hide AfterFrame, SendsWhole, Wrap16, Wrap32, StreamPackets, StreamLength, FrameLength;
    TimesStep(s.timestamp, |nals| - 1, step);
    if nals != [] {
      var init, last := nals[..|nals| - 1], nals[|nals| - 1];
      FramesStep(s, init, destAddr, destPort, step);
      StreamIsNumbered(s, init, destAddr, destPort, step);
      var before := AfterFrames(s, init, destAddr, destPort, step);
      SendsLater(s, before, last, destAddr, destPort);
      AfterFrameIs(before, last, destAddr, destPort, step);
    }
  }

  lemma TimesStep(first: uint32, n: int, step: uint32)
    ensures Wrap32(first + 0 * step) == first
    ensures Wrap32(Wrap32(first + n * step) + step) == Wrap32(first + (n + 1) * step)
  {
    Wrap32Adds(first + n * step, step);
    assert n * step + step == (n + 1) * step;
  }

  lemma InRange(x: uint16)
    ensures Wrap16(x) == x
  {
  }

  // Where a frame stands in its stream.
  lemma {:induction false} FrameInStream(s: Session, nals: seq<seq<byte>>, destAddr: string, destPort: uint16,
                                         step: uint32, j: nat)
    requires SendsAll(s, nals, destAddr, destPort) && j < |nals|
    ensures var before := AfterFrames(s, nals[..j], destAddr, destPort, step);
            && SendsWhole(before, nals[j], destAddr, destPort)
            && StreamPackets(s, nals[..j], destAddr, destPort, step) + FramePackets(before, nals[j], destAddr, destPort)
               <= StreamPackets(s, nals, destAddr, destPort, step)
    decreases |nals|
  {
    hide AfterFrame, FramePackets, FrameLength, H264.Fragments;
    var init := nals[..|nals| - 1];
    if j < |init| {
      FrameInStream(s, init, destAddr, destPort, step, j);
      assert init[..j] == nals[..j];
    } else {
      StreamIsNumbered(s, init, destAddr, destPort, step);
    }
  }

  /** A stream that one session sends: frames one after the other, numbered without a wrap, with later
      packets that may follow. Under the same conditions on the receiver every frame that has been handed
      out whole reassembles, at its place, to its unit. */
  lemma StreamEndToEnd(s: Session, nals: seq<seq<byte>>, destAddr: string, destPort: uint16, step: uint32,
                       later: seq<Packet>, cfg: JB.Config, hs: seq<J.History>, es: seq<J.Event>, n: nat, j: nat)
    requires SendsAll(s, nals, destAddr, destPort) && s.sequence + StreamLength(nals) <= TWO16 && j < |nals|
    requires AllBelow(StreamPackets(s, nals, destAddr, destPort, step), later)
    requires J.Run(cfg, hs, es) && n < |hs| && AllKept(hs[n]) && RunInOrder(hs, es, n)
    requires multiset(hs[n].inserted)
             == multiset(StreamPackets(s, nals, destAddr, destPort, step)) + multiset(later)
    ensures var at := StreamLength(nals[..j]);
            at + FrameLength(nals[j]) <= |hs[n].delivered| ==>
              H264.Defragmented(Map(FrameHandedOut(hs[n].delivered, at, nals[j]), PAYLOAD)) == nals[j]
  {
    hide StreamPackets, StreamLength, AfterFrames, FramePackets, SendsWhole, J.Run, RunInOrder, AllKept, AllBelow;
    hide H264.Defragmented, H264.Fragments, FrameLength, FrameHandedOut, IncreasingBy;
    StreamIncreases(s, nals, destAddr, destPort, step);
    var before, earlier, rest := StreamSplits(s, nals, destAddr, destPort, step, j);
    var upTo := earlier + FramePackets(before, nals[j], destAddr, destPort);
    PrefixOfStream(upTo, rest, later);
    EndToEnd(before, nals[j], destAddr, destPort, earlier, rest + later, cfg, hs, es, n);
  }

  lemma PrefixSends(s: Session, nals: seq<seq<byte>>, destAddr: string, destPort: uint16, j: nat)
    requires SendsAll(s, nals, destAddr, destPort) && j < |nals|
    ensures SendsAll(s, nals[..j], destAddr, destPort)
  {
    hide SendsWhole;
  }

  lemma StreamHasLength(s: Session, nals: seq<seq<byte>>, destAddr: string, destPort: uint16, step: uint32)
    requires SendsAll(s, nals, destAddr, destPort)
    ensures |StreamPackets(s, nals, destAddr, destPort, step)| == StreamLength(nals)
  {
    hide StreamPackets, SendsAll;
    StreamIsNumbered(s, nals, destAddr, destPort, step);
  }

  lemma StreamIncreases(s: Session, nals: seq<seq<byte>>, destAddr: string, destPort: uint16, step: uint32)
    requires SendsAll(s, nals, destAddr, destPort) && s.sequence + StreamLength(nals) <= TWO16
    ensures IncreasingBy(StreamPackets(s, nals, destAddr, destPort, step), F.NUMBER)
  {
    hide StreamPackets, StreamLength, SendsAll, Wrap16, IncreasingBy;
    StreamIsNumbered(s, nals, destAddr, destPort, step);
    NumbersIncrease(StreamPackets(s, nals, destAddr, destPort, step), s.sequence);
  }

  lemma StreamSplits(s: Session, nals: seq<seq<byte>>, destAddr: string, destPort: uint16, step: uint32, j: nat)
    returns (before: Session, earlier: seq<Packet>, rest: seq<Packet>)
    requires SendsAll(s, nals, destAddr, destPort) && j < |nals|
    ensures |earlier| == StreamLength(nals[..j]) && SendsWhole(before, nals[j], destAddr, destPort)
    ensures var stream := StreamPackets(s, nals, destAddr, destPort, step);
            stream == earlier + FramePackets(before, nals[j], destAddr, destPort) + rest
  {
    PrefixSends(s, nals, destAddr, destPort, j);
    hide StreamPackets, AfterFrames, FramePackets, StreamLength, SendsWhole, SendsAll;
    var stream := StreamPackets(s, nals, destAddr, destPort, step);
    earlier := StreamPackets(s, nals[..j], destAddr, destPort, step);
    before := AfterFrames(s, nals[..j], destAddr, destPort, step);
    StreamHasLength(s, nals[..j], destAddr, destPort, step);
    FrameInStream(s, nals, destAddr, destPort, step, j);
    rest := RestOf(earlier + FramePackets(before, nals[j], destAddr, destPort), stream);
  }

  lemma RestOf(first: seq<Packet>, whole: seq<Packet>) returns (rest: seq<Packet>)
    requires first <= whole
    ensures whole == first + rest
  {
    rest := whole[|first|..];
  }

  lemma PrefixOfStream(first: seq<Packet>, rest: seq<Packet>, later: seq<Packet>)
    requires IncreasingBy(first + rest, F.NUMBER) && AllBelow(first + rest, later)
    ensures IncreasingBy(first, F.NUMBER) && AllBelow(first, rest + later)
    ensures multiset(first + rest) + multiset(later) == multiset(first) + multiset(rest + later)
  {
    var stream := first + rest;
    forall i, j | 0 <= i < j < |first|
      ensures F.NUMBER(first[i]) < F.NUMBER(first[j])
    {
      assert first[i] == stream[i] && first[j] == stream[j];
    }
    forall p, q | p in first && q in rest + later
      ensures p.Sequence() < q.Sequence()
    {
      assert p in stream;
      if q in rest {
        var i :| 0 <= i < |first| && first[i] == p;
        var j :| 0 <= j < |rest| && rest[j] == q;
        assert stream[i] == p && stream[|first| + j] == q;
        assert F.NUMBER(p) < F.NUMBER(q);
      }
    }
  }

  // ---- A playout schedule ----

  /** The packets are inserted, then n are extracted. */
  ghost predicate FillThenDrain(hs: seq<J.History>, es: seq<J.Event>, inserted: seq<Packet>, n: nat)
    requires |hs| == |es| + 1
  {
    && |es| == |inserted| + n
    && (forall i :: 0 <= i < |inserted| ==> es[i].Insert? && es[i].packet == inserted[i])
    && (forall i :: |inserted| <= i < |es| ==> es[i].Extract?)
  }

  /** At the last insertion each packet of the frame has waited the delay then in force. */
  ghost predicate FrameHasWaited(hs: seq<J.History>, es: seq<J.Event>, inserted: seq<Packet>, frame: seq<Packet>)
    requires |inserted| <= |es| < |hs| && forall i :: 0 <= i < |inserted| ==> es[i].Insert?
  {
    var last := |inserted| - 1;
    forall i :: 0 <= i < |inserted| && inserted[i] in frame ==>
      hs[last].s.delay <= Millis(es[last].now - es[i].now) < TWO32
  }

  lemma {:induction false} Filling(cfg: JB.Config, hs: seq<J.History>, es: seq<J.Event>, inserted: seq<Packet>,
                                   n: nat, i: nat)
    requires J.Run(cfg, hs, es) && FillThenDrain(hs, es, inserted, n) && i <= |inserted|
    ensures hs[i].inserted == inserted[..i] && hs[i].delivered == [] && hs[i].discarded == []
  {
    hide JB.SortedPermutation, JB.AfterInsert;
    if i > 0 {
      Filling(cfg, hs, es, inserted, n, i - 1);
      assert J.Step(cfg, hs[i - 1], es[i - 1], hs[i]);
    }
  }

  /** Filled with no more than it can hold, the buffer has the packets of least numbers in front. */
  lemma FilledInOrder(cfg: JB.Config, hs: seq<J.History>, es: seq<J.Event>, inserted: seq<Packet>, n: nat,
                      first: seq<Packet>, others: seq<Packet>)
    requires J.Run(cfg, hs, es) && FillThenDrain(hs, es, inserted, n) && |inserted| <= JB.MAX_BUFFER_SIZE
    requires multiset(inserted) == multiset(first) + multiset(others)
    requires IncreasingBy(first, F.NUMBER) && AllBelow(first, others)
    ensures var h := hs[|inserted|];
            && h.inserted == inserted && h.delivered == [] && AllKept(h) && RunInOrder(hs, es, |inserted|)
            && first <= J.Packets(h.s.items)
  {
    hide J.Waited, J.Represented;
    var N := |inserted|;
    forall i | 0 <= i <= N
      ensures hs[i].inserted == inserted[..i] && hs[i].delivered == [] && hs[i].discarded == []
    {
      Filling(cfg, hs, es, inserted, n, i);
    }
    J.RunKeepsBuffer(cfg, hs, es, N);
    assert inserted[..N] == inserted;
    hide J.Run, AllBelow, J.Packets, IncreasingBy;
    LeastPlayFirst(cfg, hs, es, N, first, others);
    assert [] + J.Packets(hs[N].s.items) == J.Packets(hs[N].s.items);
  }

  /** With the first n items ready, n extractions hand out just these, front to back. */
  lemma {:induction false} Draining(cfg: JB.Config, hs: seq<J.History>, es: seq<J.Event>, inserted: seq<Packet>,
                                    n: nat, j: nat)
    requires J.Run(cfg, hs, es) && FillThenDrain(hs, es, inserted, n) && j <= n
    requires var filled := hs[|inserted|];
             && n <= |filled.s.items| && filled.delivered == []
             && forall i :: 0 <= i < n ==> filled.s.items[i].ready
    ensures var filled := hs[|inserted|].s.items;
            && hs[|inserted| + j].s.items == filled[j..]
            && hs[|inserted| + j].delivered == J.Packets(filled)[..j]
  {
    if j > 0 {
      Draining(cfg, hs, es, inserted, n, j - 1);
      var filled, h := hs[|inserted|].s.items, hs[|inserted| + j - 1];
      assert h.s.items[0] == filled[j - 1];
      L.DrainStep(cfg, h, es[|inserted| + j - 1], hs[|inserted| + j]);
    }
  }

  // An item of a packet that has waited is ready.
  lemma WaitedIsReady(cfg: JB.Config, hs: seq<J.History>, es: seq<J.Event>, inserted: seq<Packet>, n: nat,
                      frame: seq<Packet>, item: JB.Item)
    requires J.Run(cfg, hs, es) && FillThenDrain(hs, es, inserted, n) && inserted != []
    requires FrameHasWaited(hs, es, inserted, frame)
    requires item in hs[|inserted|].s.items && item.packet in frame
    ensures item.ready
  {
    hide JB.AfterInsert, JB.SortedPermutation, Millis;
    var last, h := |inserted| - 1, hs[|inserted|];
    RunMarksExactly(cfg, hs, es, |inserted|);
    assert J.Step(cfg, hs[last], es[last], h);
    assert h.clock == es[last].now && h.markDelay == hs[last].s.delay;
    var i :| 0 <= i < |inserted| && es[i].Insert? && es[i].packet == item.packet && es[i].now == item.arrival;
    assert inserted[i] in frame;
    assert Wrap32(Millis(h.clock - item.arrival)) == Millis(h.clock - item.arrival);
  }

  /** A schedule that does it, whatever the delay: the frame arrives in any order, mixed with later
      packets, the last of them when each packet of the frame has waited its delay; then as many
      extractions as the frame has packets rebuild the unit. */
  lemma PlayoutEndToEnd(s: Session, nal: seq<byte>, destAddr: string, destPort: uint16,
                        inserted: seq<Packet>, later: seq<Packet>,
                        cfg: JB.Config, hs: seq<J.History>, es: seq<J.Event>)
    requires SendsWhole(s, nal, destAddr, destPort) && NumbersDoNotWrap(s, nal)
    requires AllBelow(FramePackets(s, nal, destAddr, destPort), later) && |inserted| <= JB.MAX_BUFFER_SIZE
    requires multiset(inserted) == multiset(FramePackets(s, nal, destAddr, destPort)) + multiset(later)
    requires J.Run(cfg, hs, es) && FillThenDrain(hs, es, inserted, FrameLength(nal))
    requires FrameHasWaited(hs, es, inserted, FramePackets(s, nal, destAddr, destPort))
    ensures hs[|es|].delivered == FramePackets(s, nal, destAddr, destPort)
    ensures H264.Defragmented(Map(hs[|es|].delivered, PAYLOAD)) == nal
  {
    assert |hs| == |es| + 1;
    hide FramePackets, J.Run, H264.Fragments, H264.Defragmented, FrameHasWaited, AllBelow, IncreasingBy, RunInOrder;
    var ps, n := FramePackets(s, nal, destAddr, destPort), FrameLength(nal);
    FrameIs(s, nal, destAddr, destPort);
    assert n > 0 by { FrameIsNotEmpty(nal); }
    FrameDrains(cfg, hs, es, inserted, ps, later);
    H264.DefragmentInvertsFragment(nal, H264.MAX_PAYLOAD);
  }

  // The same for any packets of distinct numbers, below all others.
  lemma FrameDrains(cfg: JB.Config, hs: seq<J.History>, es: seq<J.Event>, inserted: seq<Packet>,
                    frame: seq<Packet>, later: seq<Packet>)
    requires J.Run(cfg, hs, es) && FillThenDrain(hs, es, inserted, |frame|) && |inserted| <= JB.MAX_BUFFER_SIZE
    requires multiset(inserted) == multiset(frame) + multiset(later) && frame != []
    requires IncreasingBy(frame, F.NUMBER) && AllBelow(frame, later)
    requires FrameHasWaited(hs, es, inserted, frame)
    ensures hs[|es|].delivered == frame
  {
    assert |hs| == |es| + 1 && |es| == |inserted| + |frame|;
    hide J.Run, FillThenDrain, FrameHasWaited, IncreasingBy, AllBelow, RunInOrder, AllKept, J.Packets;
    SumIsNotEmpty(inserted, frame, later);
    FilledInOrder(cfg, hs, es, inserted, |frame|, frame, later);
    FrameIsReady(cfg, hs, es, inserted, frame);
    Draining(cfg, hs, es, inserted, |frame|, |frame|);
  }

  lemma SumIsNotEmpty(all: seq<Packet>, some: seq<Packet>, rest: seq<Packet>)
    requires multiset(all) == multiset(some) + multiset(rest) && some != []
    ensures all != []
  {
    assert some[0] in multiset(all);
  }

  lemma FrameIsReady(cfg: JB.Config, hs: seq<J.History>, es: seq<J.Event>, inserted: seq<Packet>, frame: seq<Packet>)
    requires J.Run(cfg, hs, es) && FillThenDrain(hs, es, inserted, |frame|) && inserted != []
    requires FrameHasWaited(hs, es, inserted, frame) && frame <= J.Packets(hs[|inserted|].s.items)
    ensures forall i :: 0 <= i < |frame| ==> hs[|inserted|].s.items[i].ready
  {
    var items := hs[|inserted|].s.items;
    hide J.Run, FillThenDrain, FrameHasWaited;
    forall i | 0 <= i < |frame|
      ensures items[i].ready
    {
      assert items[i].packet == J.Packets(items)[i] == frame[i];
      WaitedIsReady(cfg, hs, es, inserted, |frame|, frame, items[i]);
    }
  }

  lemma FrameIsNotEmpty(nal: seq<byte>)
    ensures nal != [] ==> FrameLength(nal) > 0
  {
  }

  /** With a sound configuration it is enough that the last packet comes the maximal delay after the frame. */
  lemma MaxDelayIsEnough(cfg: JB.Config, hs: seq<J.History>, es: seq<J.Event>, inserted: seq<Packet>,
                         frame: seq<Packet>, n: nat)
    requires J.SoundConfig(cfg) && J.Run(cfg, hs, es) && FillThenDrain(hs, es, inserted, n) && inserted != []
    requires var now := es[|inserted| - 1].now;
             forall i :: 0 <= i < |inserted| && inserted[i] in frame ==>
               cfg.maxDelay <= Millis(now - es[i].now) < TWO32
    ensures FrameHasWaited(hs, es, inserted, frame)
  {
    hide Millis;
    J.RunBoundsDelay(cfg, hs, es, |inserted| - 1);
  }

  // ---- A frame within which the numbers wrap ----

  // Where the 16-bit counter comes round, or the whole frame.
  function WrapAt(s: Session, nal: seq<byte>): nat {
    if NumbersDoNotWrap(s, nal) then 0 else TWO16 - s.sequence
  }

  // What comes out of a buffer that goes by raw numbers: the part after the wrap first.
  function InRawOrder(ps: seq<Packet>, k: nat): seq<Packet>
    requires k <= |ps|
  {
    ps[k..] + ps[..k]
  }

  lemma RawNumber(first: uint16, n: nat, k: nat, i: nat)
    requires n < TWO16 && i < n && k == if first + n <= TWO16 then 0 else TWO16 - first
    ensures k <= n
    ensures var at := if i < n - k then k + i else i - (n - k);
            Wrap16(first + at) == if k == 0 then first + i else if i < n - k then i else first + i - (n - k)
  {
  }

  lemma RawOrderIncreases(ps: seq<Packet>, first: uint16, k: nat)
    requires 0 < |ps| < TWO16 && forall i :: 0 <= i < |ps| ==> ps[i].Sequence() == Wrap16(first + i)
    requires k == if first + |ps| <= TWO16 then 0 else TWO16 - first
    ensures k <= |ps| && IncreasingBy(InRawOrder(ps, k), F.NUMBER)
    ensures multiset(InRawOrder(ps, k)) == multiset(ps)
    ensures InRawOrder(ps, k) == ps <==> first + |ps| <= TWO16
  {
    var raw := InRawOrder(ps, k);
    RawNumbers(ps, first, k);
    hide Wrap16, InRawOrder;
    assert multiset(raw) == multiset(ps) by { RawPermutes(ps, k); }
    if k > 0 {
      assert F.NUMBER(raw[0]) == 0 && F.NUMBER(ps[0]) == first by { RawNumber(first, |ps|, k, |ps| - k); }
    } else {
      RawPermutes(ps, 0);
    }
  }

  lemma RawPermutes(ps: seq<Packet>, k: nat)
    requires k <= |ps|
    ensures multiset(InRawOrder(ps, k)) == multiset(ps) && |InRawOrder(ps, k)| == |ps|
    ensures k == 0 ==> InRawOrder(ps, k) == ps
  {
    assert ps == ps[..k] + ps[k..];
  }

  lemma RawNumbers(ps: seq<Packet>, first: uint16, k: nat)
    requires 0 < |ps| < TWO16 && forall i :: 0 <= i < |ps| ==> ps[i].Sequence() == Wrap16(first + i)
    requires k == if first + |ps| <= TWO16 then 0 else TWO16 - first
    ensures var n, raw := |ps|, InRawOrder(ps, k);
            && k <= n == |raw|
            && forall i :: 0 <= i < n ==>
                 F.NUMBER(raw[i]) == if k == 0 then first + i else if i < n - k then i else first + i - (n - k)
  {
    hide Wrap16;
    var n, raw := |ps|, InRawOrder(ps, k);
    forall i | 0 <= i < n
      ensures F.NUMBER(raw[i]) == if k == 0 then first + i else if i < n - k then i else first + i - (n - k)
    {
      RawNumber(first, n, k, i);
      assert raw[i] == ps[if i < n - k then k + i else i - (n - k)];
    }
  }

  /** With only the frame inserted, in any order, and played in raw order, what has come out followed by
      what is buffered is the frame rotated to where its numbers wrap; so it is the frame in sending
      order exactly when they do not wrap. */
  lemma FrameInLine(s: Session, nal: seq<byte>, destAddr: string, destPort: uint16,
                    cfg: JB.Config, hs: seq<J.History>, es: seq<J.Event>, n: nat)
    requires SendsWhole(s, nal, destAddr, destPort)
    requires J.Run(cfg, hs, es) && n < |hs| && AllKept(hs[n]) && RunInOrder(hs, es, n)
    requires multiset(hs[n].inserted) == multiset(FramePackets(s, nal, destAddr, destPort))
    ensures var ps := FramePackets(s, nal, destAddr, destPort);
            && WrapAt(s, nal) <= |ps| && Line(hs[n]) == InRawOrder(ps, WrapAt(s, nal))
            && (Line(hs[n]) == ps <==> NumbersDoNotWrap(s, nal))
  {
    hide FramePackets, J.Run, RunInOrder, AllKept, Line, IncreasingBy, InRawOrder;
    var ps := FramePackets(s, nal, destAddr, destPort);
    FrameNumbers(s, nal, destAddr, destPort);
    FrameIsNotEmpty(nal);
    RawOrderIncreases(ps, s.sequence, WrapAt(s, nal));
    var raw := InRawOrder(ps, WrapAt(s, nal));
    LeastPlayFirst(cfg, hs, es, n, raw, []);
    LineIsInserted(cfg, hs, es, n);
    SameMultisetSameLength(Line(hs[n]), raw);
  }

  /** When the whole frame has come out it reassembles to the unit if its numbers do not wrap, and
      otherwise to the unit with the bytes after the wrap in front; so the unit comes back exactly when
      the numbers do not wrap or the two parts read the same either way round. */
  lemma FrameComesBack(s: Session, nal: seq<byte>, destAddr: string, destPort: uint16,
                       cfg: JB.Config, hs: seq<J.History>, es: seq<J.Event>, n: nat)
    requires SendsWhole(s, nal, destAddr, destPort)
    requires J.Run(cfg, hs, es) && n < |hs| && AllKept(hs[n]) && RunInOrder(hs, es, n)
    requires multiset(hs[n].inserted) == multiset(FramePackets(s, nal, destAddr, destPort))
    requires hs[n].s.items == []
    ensures var cut := 1 + WrapAt(s, nal) * H264.MAX_FU_PAYLOAD;
            var unit := H264.Defragmented(Map(hs[n].delivered, PAYLOAD));
            && cut < |nal|
            && unit == (if NumbersDoNotWrap(s, nal) then nal else H264.Rotated(nal, WrapAt(s, nal)))
            && (unit == nal <==> NumbersDoNotWrap(s, nal) || nal[cut..] + nal[1..cut] == nal[1..cut] + nal[cut..])
  {
    hide FramePackets, J.Run, RunInOrder, AllKept, H264.Defragmented;
    var ps, k := FramePackets(s, nal, destAddr, destPort), WrapAt(s, nal);
    FrameInLine(s, nal, destAddr, destPort, cfg, hs, es, n);
    FrameIs(s, nal, destAddr, destPort);
    assert hs[n].delivered == Line(hs[n]) == InRawOrder(ps, k);
    PayloadsInRawOrder(ps, k);
    ReassemblesTo(nal, k);
  }

  lemma PayloadsInRawOrder(ps: seq<Packet>, k: nat)
    requires k <= |ps|
    ensures Map(InRawOrder(ps, k), PAYLOAD) == Map(ps, PAYLOAD)[k..] + Map(ps, PAYLOAD)[..k]
  {
  }

  lemma ReassemblesTo(nal: seq<byte>, k: nat)
    requires H264.MAX_PAYLOAD < |nal| && k < FrameLength(nal)
    ensures var fs, cut := H264.Fragments(nal, H264.MAX_PAYLOAD), 1 + k * H264.MAX_FU_PAYLOAD;
            && cut < |nal|
            && H264.Defragmented(fs[k..] + fs[..k]) == (if k == 0 then nal else H264.Rotated(nal, k))
            && (H264.Defragmented(fs[k..] + fs[..k]) == nal <==> nal[cut..] + nal[1..cut] == nal[1..cut] + nal[cut..])
  {
    hide H264.Defragmented, H264.FragmentAt, H264.FirstFragments, H264.Rotated, H264.FragmentCount;
    if k == 0 {
      H264.DefragmentInvertsFragment(nal, H264.MAX_PAYLOAD);
      NoRotation(H264.Fragments(nal, H264.MAX_PAYLOAD), nal);
    } else {
      H264.RotatedReassembly(nal, k);
      RotationIs(nal, k);
    }
  }

  lemma NoRotation(fs: seq<seq<byte>>, nal: seq<byte>)
    requires nal != []
    ensures fs[0..] + fs[..0] == fs && nal[1..] + nal[1..1] == nal[1..1] + nal[1..]
  {
  }

  lemma RotationIs(nal: seq<byte>, k: nat)
    requires 1 + k * H264.MAX_FU_PAYLOAD < |nal|
    ensures var cut := 1 + k * H264.MAX_FU_PAYLOAD;
            H264.Rotated(nal, k) == nal <==> nal[cut..] + nal[1..cut] == nal[1..cut] + nal[cut..]
  {
    var cut, rotated := 1 + k * H264.MAX_FU_PAYLOAD, H264.Rotated(nal, k);
    assert nal == [nal[0]] + (nal[1..cut] + nal[cut..]);
    assert rotated == [nal[0]] + (nal[cut..] + nal[1..cut]);
    assert rotated[1..] == nal[cut..] + nal[1..cut] && nal[1..] == nal[1..cut] + nal[cut..];
  }

  // ---- A frame that comes back wrong ----

  // 1461 bytes: a header, the 1446 bytes of the first fragment, and the 14 of the second.
  const UNIT: seq<byte> := [0x65] + seq(1446, _ => 0) + seq(14, _ => 1)

  const SERVER := JB.Config(20, 200, 0)

  lemma UnitHasTwoFragments()
    ensures |UNIT| == 1461 && FrameLength(UNIT) == 2
  {
  }

  lemma UnitIsNoRotation()
    ensures |UNIT| == 1461 && UNIT[1447..] + UNIT[1..1447] != UNIT[1..1447] + UNIT[1447..]
  {
    assert (UNIT[1447..] + UNIT[1..1447])[0] == 1 && (UNIT[1..1447] + UNIT[1447..])[0] == 0;
  }

  lemma TwoInTwoOut(a: Packet, b: Packet) returns (hs: seq<J.History>, es: seq<J.Event>)
    requires a.Sequence() == TWO16 - 1 && b.Sequence() == 0
    ensures es == [J.Insert(TWO16 - 1, a, 0, 0), J.Insert(TWO16, b, 0, 0), J.Extract, J.Extract]
    ensures J.Run(SERVER, hs, es) && hs[4].delivered == [b, a]
  {
    es := [J.Insert(TWO16 - 1, a, 0, 0), J.Insert(TWO16, b, 0, 0), J.Extract, J.Extract];
    hs := J.RunExists(SERVER, es);
    assert hs[0] == J.Start(SERVER) && J.Step(SERVER, hs[0], es[0], hs[1]);
    hide J.Run, J.Step, J.Feasible, Millis;
    L.ZeroDelayMarksAll(SERVER, hs[0], es[0], hs[1]);
    F.MillisOfNothing();
    assert FrameHasWaited(hs, es, [a, b], [b, a]);
    hide FrameHasWaited, J.Start;
    FrameDrains(SERVER, hs, es, [a, b], [b, a], []);
  }

  /** A frame of two packets, numbered 65535 and 0, that arrives in the order it was sent: the server's
      buffer hands out the second packet first, and the unit comes back wrong. */
  lemma WrappedFrameComesBackWrong(s: Session, destAddr: string, destPort: uint16)
    returns (hs: seq<J.History>, es: seq<J.Event>)
    requires SendsWhole(s, UNIT, destAddr, destPort) && s.sequence == TWO16 - 1
    ensures var ps := FramePackets(s, UNIT, destAddr, destPort);
            && |ps| == 2 && J.Run(SERVER, hs, es) && |es| == 4
            && es[0] == J.Insert(TWO16 - 1, ps[0], 0, 0) && es[1] == J.Insert(TWO16, ps[1], 0, 0)
            && es[2].Extract? && es[3].Extract? && hs[4].delivered == [ps[1], ps[0]]
    ensures H264.Defragmented(Map(hs[4].delivered, PAYLOAD)) != UNIT
  {
    hide FramePackets, J.Run, H264.Defragmented, H264.Fragments, FrameLength;
    var ps := FramePackets(s, UNIT, destAddr, destPort);
    UnitHasTwoFragments();
    FrameNumbers(s, UNIT, destAddr, destPort);
    FrameIs(s, UNIT, destAddr, destPort);
    assert ps[0].Sequence() == TWO16 - 1 && ps[1].Sequence() == 0;
    hs, es := TwoInTwoOut(ps[0], ps[1]);
    assert [ps[1], ps[0]] == InRawOrder(ps, 1);
    PayloadsInRawOrder(ps, 1);
    ReassemblesTo(UNIT, 1);
    UnitIsNoRotation();
  }
}
