// RTP packets: header layout, serialization and parsing (src/rtp/rtp_packet.cpp).
module RtpPackets {
  import opened Words
  import opened Sequences

  const RTP_VERSION := 2
  const RTP_HEADER_SIZE := 12

  /** The twelve fixed header bytes as the packed struct names them; numbers are in host order. */
  datatype Header = Header(
    csrcCount: int, extension: bool, padding: bool, version: int,
    payloadType: int, marker: bool,
    sequence: uint16, timestamp: uint32, ssrc: uint32)
  {
    ghost predicate InRange() {
      0 <= csrcCount < 16 && 0 <= version < 4 && 0 <= payloadType < 128
    }
  }

  datatype Packet = Packet(header: Header, payload: seq<byte>) {
    function Sequence(): uint16 { header.sequence }
    function TotalSize(): nat { RTP_HEADER_SIZE + |payload| }
  }

  function Bit(b: bool): int { if b then 1 else 0 }

  // A default-constructed packet: every header byte is zero.
  const EMPTY_PACKET := Packet(Header(0, false, false, 0, 0, false, 0, 0, 0), [])

  function EncodeHeader(h: Header): (b: seq<byte>)
    requires h.InRange()
    ensures |b| == RTP_HEADER_SIZE
  {
    FlagBytes(h) + Put16(h.sequence) + Put32(h.timestamp) + Put32(h.ssrc)
  }

  // The bit fields, packed from the low end of each byte.
  function FlagBytes(h: Header): (b: seq<byte>)
    requires h.InRange()
    ensures |b| == 2
  {
    [h.version * 64 + Bit(h.padding) * 32 + Bit(h.extension) * 16 + h.csrcCount,
     Bit(h.marker) * 128 + h.payloadType]
  }

  function DecodeHeader(b: seq<byte>): (h: Header)
    requires |b| == RTP_HEADER_SIZE
    ensures h.InRange()
  {
    Header(b[0] % 16, b[0] / 16 % 2 == 1, b[0] / 32 % 2 == 1, b[0] / 64,
           b[1] % 128, b[1] / 128 == 1,
           Get16(b[2..4]), Get32(b[4..8]), Get32(b[8..12]))
  }

  // The struct overlay is a bijection between in-range headers and twelve bytes.
  lemma HeaderDecodesEncoding(h: Header)
    requires h.InRange()
    ensures DecodeHeader(EncodeHeader(h)) == h
  {
    var bits := FlagBytes(h);
    FlagBytesDecode(h);
    hide Put16, Put32, Get16, Get32, FlagBytes;
    var b := EncodeHeader(h);
    assert b[0] == bits[0] && b[1] == bits[1];
    Middle(bits, Put16(h.sequence), Put32(h.timestamp) + Put32(h.ssrc));
    Middle(bits + Put16(h.sequence), Put32(h.timestamp), Put32(h.ssrc));
    Middle(bits + Put16(h.sequence) + Put32(h.timestamp), Put32(h.ssrc), []);
    assert b == bits + Put16(h.sequence) + (Put32(h.timestamp) + Put32(h.ssrc));
    assert b == b + [];
    Word16RoundTrip(h.sequence);
    Word32RoundTrip(h.timestamp);
    Word32RoundTrip(h.ssrc);
  }

  lemma FlagBytesDecode(h: Header)
    requires h.InRange()
    ensures var b := FlagBytes(h);
            && b[0] % 16 == h.csrcCount && (b[0] / 16 % 2 == 1 <==> h.extension) && (b[0] / 32 % 2 == 1 <==> h.padding)
            && b[0] / 64 == h.version && b[1] % 128 == h.payloadType && (b[1] / 128 == 1 <==> h.marker)
  {
    FirstByteFields(h.version, Bit(h.padding), Bit(h.extension), h.csrcCount);
  }

  lemma FirstByteFields(version: int, padding: int, extension: int, count: int)
    requires 0 <= version < 4 && 0 <= padding < 2 && 0 <= extension < 2 && 0 <= count < 16
    ensures var b := version * 64 + padding * 32 + extension * 16 + count;
            b % 16 == count && b / 16 % 2 == extension && b / 32 % 2 == padding && b / 64 == version
  {
    var b := version * 64 + padding * 32 + extension * 16 + count;
    assert b / 16 == version * 4 + padding * 2 + extension;
    assert b / 32 == version * 2 + padding;
  }

  lemma FlagBytesEncode(b0: byte, b1: byte)
    ensures b0 / 64 * 64 + b0 / 32 % 2 * 32 + b0 / 16 % 2 * 16 + b0 % 16 == b0
    ensures b1 / 128 * 128 + b1 % 128 == b1
  {
  }

  lemma HeaderEncodesDecoding(b: seq<byte>)
    requires |b| == RTP_HEADER_SIZE
    ensures EncodeHeader(DecodeHeader(b)) == b
  {
    hide Put16, Put32, Get16, Get32;
    FlagBytesEncode(b[0], b[1]);
    assert FlagBytes(DecodeHeader(b)) == [b[0], b[1]];
    hide FlagBytes;
    assert b == [b[0], b[1]] + b[2..4] + b[4..8] + b[8..12];
    Bytes16RoundTrip(b[2..4]);
    Bytes32RoundTrip(b[4..8]);
    Bytes32RoundTrip(b[8..12]);
  }

  /** The fixed header of section 5.1 of RFC 3550, byte by byte. */
  lemma HeaderLayout(h: Header)
    requires h.InRange()
    ensures var b := EncodeHeader(h);
            && |b| == 12
            && b[0] / 64 == h.version && (b[0] / 32 % 2 == 1 <==> h.padding) && (b[0] / 16 % 2 == 1 <==> h.extension)
            && b[0] % 16 == h.csrcCount && (b[1] / 128 == 1 <==> h.marker) && b[1] % 128 == h.payloadType
            && BigEndian(b[2..4]) == h.sequence && BigEndian(b[4..8]) == h.timestamp && BigEndian(b[8..12]) == h.ssrc
  {
    FlagBytesDecode(h);
    hide Put16, Put32, FlagBytes, BigEndian;
    var b, bits := EncodeHeader(h), FlagBytes(h);
    assert b[0] == bits[0] && b[1] == bits[1];
    assert b[2..4] == Put16(h.sequence) && b[4..8] == Put32(h.timestamp) && b[8..12] == Put32(h.ssrc);
    NetworkOrder(h.sequence, 0, h.timestamp);
    NetworkOrder(h.sequence, 0, h.ssrc);
  }

  // ---- Build and Serialize ----

  /** The packet Build makes; the seven-bit payload type field keeps the low seven bits. */
  function Built(payloadType: byte, sequence: uint16, timestamp: uint32, ssrc: uint32,
                 marker: bool, payload: seq<byte>): (p: Packet)
    ensures p.header.InRange()
  {
    Packet(Header(0, false, false, RTP_VERSION, payloadType % 128, marker, sequence, timestamp, ssrc), payload)
  }

  function Wire(p: Packet): (b: seq<byte>)
    requires p.header.InRange()
    ensures |b| == p.TotalSize()
  {
    EncodeHeader(p.header) + p.payload
  }

  /** Writes the packet into the caller's buffer, or writes nothing when it does not fit. */
  method Serialize(p: Packet, buffer: array<byte>, bufferLen: nat) returns (total: nat)
    requires p.header.InRange() && bufferLen <= buffer.Length
    modifies buffer
    ensures bufferLen < p.TotalSize() ==> total == 0 && buffer[..] == old(buffer[..])
    ensures p.TotalSize() <= bufferLen ==>
              total == p.TotalSize() &&
              buffer[..] == Wire(p) + old(buffer[total..])
  {
    total := p.TotalSize();
    if bufferLen < total {
      return 0;
    }
    var header := EncodeHeader(p.header);
    forall i | 0 <= i < RTP_HEADER_SIZE {
      buffer[i] := header[i];
    }
    if p.payload != [] {
      forall i | 0 <= i < |p.payload| {
        buffer[RTP_HEADER_SIZE + i] := p.payload[i];
      }
    }
  }

  // ---- Parse ----

  // Where the payload starts: past the CSRC list and, when there is room for its
  // four-byte head and at least one more byte, past the header extension.
  function PayloadOffset(h: Header, data: seq<byte>): nat
    requires h.InRange() && RTP_HEADER_SIZE <= |data|
  {
    var base := RTP_HEADER_SIZE + h.csrcCount * 4;
    if h.extension && base + 4 < |data| then
      base + 4 + Get16(data[base + 2..base + 4]) * 4
    else base
  }

  // The payload without the padding that its last byte counts, if that count leaves any payload.
  function Unpadded(padding: bool, body: seq<byte>): seq<byte> {
    if padding && body != [] && body[|body| - 1] < |body|
    then body[..|body| - body[|body| - 1]]
    else body
  }

  function Parsed(data: seq<byte>): (p: Packet)
    ensures p.header.InRange()
  {
    if |data| < RTP_HEADER_SIZE then EMPTY_PACKET
    else
      var h := DecodeHeader(data[..RTP_HEADER_SIZE]);
      var offset := PayloadOffset(h, data);
      Packet(h, if offset < |data| then Unpadded(h.padding, data[offset..]) else [])
  }

  lemma UnpaddedIs(padding: bool, data: seq<byte>, offset: nat, len: nat)
    requires offset < |data|
    requires var last, room := data[|data| - 1], |data| - offset;
             len == if padding && last < room then room - last else room
    ensures data[offset..offset + len] == Unpadded(padding, data[offset..])
  {
    assert data[offset..][|data| - offset - 1] == data[|data| - 1];
  }

  method Parse(data: seq<byte>) returns (p: Packet)
    ensures p == Parsed(data)
  {
    hide DecodeHeader, Get16, Unpadded;
    p := EMPTY_PACKET;
    if |data| < RTP_HEADER_SIZE {
      return;
    }
    p := p.(header := DecodeHeader(data[..RTP_HEADER_SIZE]));
    var payloadOffset := RTP_HEADER_SIZE + p.header.csrcCount * 4;
    if p.header.extension && payloadOffset + 4 < |data| {
      var extLen: int := Get16(data[payloadOffset + 2..payloadOffset + 4]);
      payloadOffset := payloadOffset + 4 + extLen * 4;
    }
    if payloadOffset < |data| {
      var payloadLen := |data| - payloadOffset;
      if p.header.padding && 0 < payloadLen {
        var padLen := data[|data| - 1];
        if padLen < payloadLen {
          payloadLen := payloadLen - padLen;
        }
      }
      UnpaddedIs(p.header.padding, data, payloadOffset, payloadLen);
      p := p.(payload := data[payloadOffset..payloadOffset + payloadLen]);
    }
  }

  /** Fewer than twelve bytes parse to the packet whose header bytes are all zero. */
  lemma ShortIsEmpty(data: seq<byte>)
    requires |data| < 12
    ensures Parsed(data) == Packet(Header(0, false, false, 0, 0, false, 0, 0, 0), [])
  {
  }

  /** A packet cut off within its CSRC list or its extension has no payload. Without room for more than
      the head of an extension, what is there counts as payload. */
  lemma TruncatedIsEmpty(data: seq<byte>)
    requires 12 <= |data|
    ensures var h := Parsed(data).header;
            var base := 12 + 4 * h.csrcCount;
            && (|data| <= base ==> Parsed(data).payload == [])
            && (h.extension && base + 4 < |data| <= base + 4 + 4 * BigEndian(data[base + 2..base + 4]) ==>
                  Parsed(data).payload == [])
            && (h.extension && !h.padding && base < |data| <= base + 4 ==> Parsed(data).payload == data[base..])
  {
    hide DecodeHeader, Get16, BigEndian;
    var base := 12 + 4 * Parsed(data).header.csrcCount;
    if base + 4 < |data| {
      ReadInNetworkOrder(data[base + 2..base + 4]);
    }
  }

  /** Padding that claims all of what is there, or more, is not taken off. */
  lemma OverlongPaddingStays(data: seq<byte>)
    requires 12 < |data|
    ensures var h := Parsed(data).header;
            h.csrcCount == 0 && !h.extension && h.padding && |data| - 12 <= data[|data| - 1] ==>
              Parsed(data).payload == data[12..]
  {
    hide DecodeHeader;
  }

  // ---- The layout of RFC 3550, sections 5.1 and 5.3.1 ----

  datatype Extension = Extension(profile: uint16, words: seq<uint32>)

  /** An RTP packet as the standard lays it out. `padding` is the number of padding bytes, 0 for none. */
  datatype Layout = Layout(header: Header, csrc: seq<uint32>, extension: Option<Extension>,
                           payload: seq<byte>, padding: byte)
  {
    ghost predicate Valid() {
      && header.InRange()
      && header.csrcCount == |csrc|
      && header.extension == extension.Some?
      && header.padding == (padding > 0)
      && (extension.Some? ==> |extension.value.words| < TWO16)
    }
  }

  function WordBytes(ws: seq<uint32>): (b: seq<byte>)
    ensures |b| == 4 * |ws|
  {
    if ws == [] then [] else Put32(ws[0]) + WordBytes(ws[1..])
  }

  function ExtensionBytes(e: Option<Extension>): seq<byte>
    requires e.Some? ==> |e.value.words| < TWO16
  {
    match e
    case None => []
    case Some(x) => Put16(x.profile) + Put16(|x.words|) + WordBytes(x.words)
  }

  function PaddingBytes(n: byte): (b: seq<byte>)
    ensures |b| == n
  {
    if n == 0 then [] else seq(n - 1, _ => 0) + [n]
  }

  function LayoutBytes(l: Layout): seq<byte>
    requires l.Valid()
  {
    EncodeHeader(l.header) + WordBytes(l.csrc) + ExtensionBytes(l.extension)
    + l.payload + PaddingBytes(l.padding)
  }

  // Where Parse starts reading the payload of a laid-out packet: right, except that an
  // extension of no words with nothing after it is not skipped.
  lemma LayoutOffset(l: Layout)
    requires l.Valid()
    ensures var data := LayoutBytes(l);
            var tail := l.payload + PaddingBytes(l.padding);
            var offset := PayloadOffset(l.header, data);
            && RTP_HEADER_SIZE <= |data| && data[..RTP_HEADER_SIZE] == EncodeHeader(l.header)
            && offset <= |data|
            && data[offset..] ==
               (if l.extension.Some? && l.extension.value.words == [] && tail == []
                then ExtensionBytes(l.extension) else tail)
  {
    hide EncodeHeader, WordBytes, PaddingBytes, Put16, Get16;
    var data := LayoutBytes(l);
    var tail := l.payload + PaddingBytes(l.padding);
    var base := RTP_HEADER_SIZE + 4 * |l.csrc|;
    var ext := ExtensionBytes(l.extension);
    var head := EncodeHeader(l.header) + WordBytes(l.csrc);
    assert data == head + (ext + tail) && |head| == base;
    Halves(head, ext + tail);
    assert data[..RTP_HEADER_SIZE] == EncodeHeader(l.header);
    if l.extension.Some? {
      ExtensionIs(l.extension.value);
      Word16RoundTrip(|l.extension.value.words|);
      hide ExtensionBytes, LayoutBytes;
      AtOffset(data, base, ext, tail);
    }
  }

  lemma AtOffset(data: seq<byte>, base: nat, ext: seq<byte>, tail: seq<byte>)
    requires base <= |data| && data[base..] == ext + tail && 4 <= |ext|
    ensures data[base + 2..base + 4] == ext[2..4] && data[base + |ext|..] == tail
  {
    assert data[base + 2..base + 4] == data[base..][2..4];
    assert data[base + |ext|..] == data[base..][|ext|..];
  }

  lemma Halves(a: seq<byte>, b: seq<byte>)
    ensures (a + b)[..|a|] == a && (a + b)[|a|..] == b
  {
  }

  lemma ExtensionIs(x: Extension)
    requires |x.words| < TWO16
    ensures var ext := ExtensionBytes(Some(x));
            |ext| == 4 + 4 * |x.words| && ext[2..4] == Put16(|x.words|)
  {
    hide Put16, WordBytes;
  }

  lemma UnpaddedStripsPadding(payload: seq<byte>, n: byte)
    ensures Unpadded(n > 0, payload + PaddingBytes(n)) == payload
            <==> payload != [] || n == 0
  {
    var body := payload + PaddingBytes(n);
    if n > 0 {
      assert body[|body| - 1] == n;
      if payload != [] {
        assert body[..|body| - n] == payload;
      }
    }
  }

  /** Parse inverts the layout exactly when the payload is non-empty, or there is neither
      padding nor an extension of zero words for the empty payload to be confused with. */
  lemma ParseInvertsLayout(l: Layout)
    requires l.Valid()
    ensures Parsed(LayoutBytes(l)).header == l.header
    ensures Parsed(LayoutBytes(l)).payload == l.payload
            <==> l.payload != [] || (l.padding == 0 && !(l.extension.Some? && l.extension.value.words == []))
  {
    LayoutOffset(l);
    HeaderDecodesEncoding(l.header);
    var body := l.payload + PaddingBytes(l.padding);
    UnpaddedStripsPadding(l.payload, l.padding);
    var data := LayoutBytes(l);
    var offset := PayloadOffset(l.header, data);
    if l.extension.Some? && l.extension.value.words == [] && body == [] {
      assert |data[offset..]| == 4;
    } else {
      assert data[offset..] == body;
      if body == [] {
        assert Parsed(data).payload == [];
      } else {
        assert Parsed(data).payload == Unpadded(l.header.padding, body);
      }
    }
  }

  /** What Build makes, Serialize writes and Parse reads back: every field and the payload,
      empty or not, and the payload type exactly when it fits its seven bits. */
  lemma ParseInvertsBuild(payloadType: byte, sequence: uint16, timestamp: uint32, ssrc: uint32,
                          marker: bool, payload: seq<byte>)
    ensures var p := Parsed(Wire(Built(payloadType, sequence, timestamp, ssrc, marker, payload)));
            && p == Built(payloadType, sequence, timestamp, ssrc, marker, payload)
            && p.header.sequence == sequence && p.header.timestamp == timestamp && p.header.ssrc == ssrc
            && p.header.marker == marker && p.header.version == 2 && p.payload == payload
            && p.header.csrcCount == 0 && !p.header.extension && !p.header.padding
            && p.header.payloadType == payloadType % 128
            && (p.header.payloadType == payloadType <==> payloadType < 128)
  {
    var h := Built(payloadType, sequence, timestamp, ssrc, marker, payload).header;
    var l := Layout(h, [], None, payload, 0);
    ParseInvertsLayout(l);
    assert LayoutBytes(l) == EncodeHeader(h) + payload;
  }
}
