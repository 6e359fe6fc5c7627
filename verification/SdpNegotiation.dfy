// What the two ends of a call learn from each other's SDP (ProcessIncomingSdp and BuildSdpAnswer
// in src/sip/sip_manager.cpp).
module SdpNegotiation {
  import opened Words
  import S = Sdp
  import P = SdpProofs

  const AAC_TYPE := 96
  const H264_TYPE := 97
  const NO_SESSION := S.Session("", [])

  datatype Remote = Remote(addr: string, audioPort: uint16, videoPort: uint16)

  /** The answer advertises the receive ports, two above the send ports in 16 bits. */
  function Advertised(localAddr: string, audioSendPort: uint16, videoSendPort: uint16): string {
    S.BuildAnswer(localAddr, Wrap16(audioSendPort + 2), Wrap16(videoSendPort + 2), AAC_TYPE, H264_TYPE)
  }

  /** What a call takes over from a body: nothing if it has no media; otherwise the address, and
      the port of each kind of media that is there. */
  function Learned(body: string, r: Remote): Option<Remote> {
    var s := S.Parsed(body, NO_SESSION);
    if s.media == [] then None
    else Some(Remote(s.connAddr,
                     if s.FindAudio().Some? then s.FindAudio().value.port else r.audioPort,
                     if s.FindVideo().Some? then s.FindVideo().value.port else r.videoPort))
  }

  /** The far end learns from an answer exactly the address and the ports that this end receives on,
      whatever it had stored before. */
  lemma PeerLearnsReceivePorts(localAddr: string, audioSendPort: uint16, videoSendPort: uint16, before: Remote)
    requires P.IsWord(localAddr)
    ensures Learned(Advertised(localAddr, audioSendPort, videoSendPort), before)
            == Some(Remote(localAddr, Wrap16(audioSendPort + 2), Wrap16(videoSendPort + 2)))
  {
    hide S.BuildAnswer, S.Parsed, P.AnswerLines, P.Text, S.Dec;
    P.AnswerRoundTrip(localAddr, Wrap16(audioSendPort + 2), Wrap16(videoSendPort + 2), AAC_TYPE, H264_TYPE, "\r");
  }

  /** It offers AAC as type 96 and H.264 as type 97, each alone. */
  lemma AnswerOffersTypes(localAddr: string, audioSendPort: uint16, videoSendPort: uint16)
    requires P.IsWord(localAddr)
    ensures var s := S.Parsed(Advertised(localAddr, audioSendPort, videoSendPort), NO_SESSION);
            && s.FindAudio().Some? && s.FindAudio().value.formats == [96]
            && s.FindVideo().Some? && s.FindVideo().value.formats == [97]
  {
    hide S.BuildAnswer, S.Parsed, P.AnswerLines, P.Text, S.Dec;
    P.AnswerRoundTrip(localAddr, Wrap16(audioSendPort + 2), Wrap16(videoSendPort + 2), AAC_TYPE, H264_TYPE, "\r");
  }

  /** From a body with one medium the call takes over the address and that medium's port, and keeps the
      other port; a body without media changes nothing. */
  lemma OneMediumKeepsOther(addr: string, port: uint16, pt: nat, codec: string, eol: string, before: Remote)
    requires P.IsWord(addr) && pt < 0x8000_0000 && P.Plain(codec) && codec != [] && P.IsEol(eol)
    ensures Learned(P.Text(P.HeadLines(addr) + P.MediaLines("audio", port, pt, codec), eol), before)
            == Some(Remote(addr, port, before.videoPort))
    ensures Learned(P.Text(P.HeadLines(addr) + P.MediaLines("video", port, pt, codec), eol), before)
            == Some(Remote(addr, before.audioPort, port))
    ensures Learned(P.Text(P.HeadLines(addr), eol), before) == None
  {
    hide S.Parsed, S.AfterLines, P.Text, P.HeadLines, P.MediaLines, P.MapText, P.Plain, S.FirstOf;
    AfterHead(addr, eol);
    P.AnswerPieces();
    AfterOneMedium(addr, "audio", port, pt, codec, eol);
    AfterOneMedium(addr, "video", port, pt, codec, eol);
    var audio := S.Media("audio", port, "RTP/AVP", [pt], P.MapText(pt, codec));
    var video := S.Media("video", port, "RTP/AVP", [pt], P.MapText(pt, codec));
    assert "audio"[0] != "video"[0];
    OnlyOne(audio, "video");
    OnlyOne(video, "audio");
  }

  /** Nothing is kept of the address: a body with a medium but without a c= line erases the one stored before. */
  lemma NoConnectionErases(kind: string, port: uint16, pt: nat, codec: string, eol: string, before: Remote)
    requires P.IsWord(kind) && pt < 0x8000_0000 && P.Plain(codec) && codec != [] && P.IsEol(eol)
    ensures var learned := Learned(P.Text(P.MediaLines(kind, port, pt, codec), eol), before);
            && learned.Some? && learned.value.addr == ""
            && (kind != "audio" ==> learned.value.audioPort == before.audioPort)
            && (kind != "video" ==> learned.value.videoPort == before.videoPort)
  {
    hide S.Parsed, S.AfterLines, P.Text, P.MapText, P.MediaText, P.Plain;
    var p := S.Progress(NO_SESSION, false);
    P.MediaLinesAdd(p, kind, port, pt, codec);
    P.ParsedText(P.MediaLines(kind, port, pt, codec), eol, NO_SESSION);
  }

  lemma OnlyOne(m: S.Media, other: string)
    requires m.kind != other
    ensures S.FirstOf([m], m.kind) == Some(m) && S.FirstOf([m], other) == None
  {
    assert S.FirstOf([m][1..], other) == None;
  }

  lemma AfterHead(addr: string, eol: string)
    requires P.IsWord(addr) && P.IsEol(eol)
    ensures S.Parsed(P.Text(P.HeadLines(addr), eol), NO_SESSION) == S.Session(addr, [])
  {
    hide S.Parsed, S.AfterLines, P.Text, P.HeadLines, P.Plain;
    P.HeadSetsAddress(S.Progress(NO_SESSION, false), addr);
    assert |P.HeadLines(addr)| == 5 by { FiveLines(addr); }
    P.ParsedText(P.HeadLines(addr), eol, NO_SESSION);
  }

  lemma FiveLines(addr: string)
    ensures |P.HeadLines(addr)| == 5
  {
  }

  lemma AfterOneMedium(addr: string, kind: string, port: uint16, pt: nat, codec: string, eol: string)
    requires P.IsWord(addr) && P.IsWord(kind) && pt < 0x8000_0000 && P.Plain(codec) && codec != [] && P.IsEol(eol)
    ensures S.Parsed(P.Text(P.HeadLines(addr) + P.MediaLines(kind, port, pt, codec), eol), NO_SESSION)
            == S.Session(addr, [S.Media(kind, port, "RTP/AVP", [pt], P.MapText(pt, codec))])
  {
    hide S.Parsed, S.AfterLines, P.Text, P.HeadLines, P.MapText, P.MediaText, P.Plain;
    var p := S.Progress(NO_SESSION, false);
    P.HeadSetsAddress(p, addr);
    FiveLines(addr);
    P.MediaLinesAdd(S.AfterLines(p, P.HeadLines(addr)), kind, port, pt, codec);
    P.AfterLinesConcat(p, P.HeadLines(addr), P.MediaLines(kind, port, pt, codec));
    P.ParsedText(P.HeadLines(addr) + P.MediaLines(kind, port, pt, codec), eol, NO_SESSION);
  }

  /** The calls, each with the part of its CallSessionInfo that a received body sets. */
  class Calls {
    var remotes: map<string, Remote>

    constructor (remotes: map<string, Remote>)
      ensures this.remotes == remotes
    {
      this.remotes := remotes;
    }

    /** Fails, and changes nothing, for a body without media and for an unknown call. */
    method ProcessIncomingSdp(id: string, body: string) returns (ok: bool)
      modifies this
      ensures ok <==> id in old(remotes) && Learned(body, old(remotes)[id]).Some?
      ensures remotes == if ok then old(remotes)[id := Learned(body, old(remotes)[id]).value] else old(remotes)
    {
      var parsed, session := S.Parse(body, NO_SESSION);
      if !parsed {
        return false;
      }
      if id !in remotes {
        return false;
      }
      var remote := remotes[id].(addr := session.connAddr);
      var audio := session.FindAudio();
      if audio.Some? {
        remote := remote.(audioPort := audio.value.port);
      }
      var video := session.FindVideo();
      if video.Some? {
        remote := remote.(videoPort := video.value.port);
      }
      remotes := remotes[id := remote];
      ok := true;
    }
  }
}
