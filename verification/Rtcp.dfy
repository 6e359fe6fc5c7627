// RTCP reports: building them and walking a compound datagram (src/rtp/rtcp_handler.cpp).
module Rtcp {
  import opened Words
  import opened Sequences

  const SENDER_REPORT := 200
  const RECEIVER_REPORT := 201
  const BLOCK_SIZE := 24

  datatype Block = Block(
    ssrc: uint32, fractionLost: byte, cumulativeLost: uint24, highestSeq: uint32,
    jitter: uint32, lastSr: uint32, delaySinceLastSr: uint32)

  // ---- Report blocks ----

  function BlockBytes(b: Block): (r: seq<byte>)
    ensures |r| == BLOCK_SIZE
  {
    Put32(b.ssrc) + [b.fractionLost] + Put24(b.cumulativeLost) + Put32(b.highestSeq)
    + Put32(b.jitter) + Put32(b.lastSr) + Put32(b.delaySinceLastSr)
  }

  // Parse converts every field from network order but cumulative_lost.
  function BlockFrom(r: seq<byte>): Block
    requires |r| == BLOCK_SIZE
  {
    Block(Get32(r[0..4]), r[4], r[5] as int + r[6] as int * 0x100 + r[7] as int * 0x1_0000,
          Get32(r[8..12]), Get32(r[12..16]), Get32(r[16..20]), Get32(r[20..24]))
  }

  function ByteReversed24(x: uint24): uint24 {
    x % 0x100 * 0x1_0000 + x / 0x100 % 0x100 * 0x100 + x / 0x1_0000
  }

  const READ_BACK := (b: Block) => b.(cumulativeLost := ByteReversed24(b.cumulativeLost))

  lemma BlockReadsBack(b: Block)
    ensures BlockFrom(BlockBytes(b)) == READ_BACK(b)
  {
    hide Put32, Get32;
    var r := BlockBytes(b);
    assert r[0..4] == Put32(b.ssrc) && r[8..12] == Put32(b.highestSeq) && r[12..16] == Put32(b.jitter);
    assert r[16..20] == Put32(b.lastSr) && r[20..24] == Put32(b.delaySinceLastSr);
    assert r[5..8] == Put24(b.cumulativeLost);
    assert r[5] == r[5..8][0] && r[6] == r[5..8][1] && r[7] == r[5..8][2];
    Word32RoundTrip(b.ssrc);
    Word32RoundTrip(b.highestSeq);
    Word32RoundTrip(b.jitter);
    Word32RoundTrip(b.lastSr);
    Word32RoundTrip(b.delaySinceLastSr);
  }

  /** A block survives the trip exactly when its cumulative loss reads the same from both ends. */
  lemma BlockSurvives(b: Block)
    ensures BlockFrom(BlockBytes(b)) == b <==> b.cumulativeLost / 0x1_0000 == b.cumulativeLost % 0x100
  {
    BlockReadsBack(b);
    Palindrome24(b.cumulativeLost);
    hide BlockFrom, BlockBytes, ByteReversed24;
  }

  lemma Palindrome24(x: uint24)
    ensures ByteReversed24(x) == x <==> x / 0x1_0000 == x % 0x100
  {
    var hi, mid, lo := x / 0x1_0000, x / 0x100 % 0x100, x % 0x100;
    assert x == hi * 0x1_0000 + mid * 0x100 + lo;
  }

  function BlocksBytes(bs: seq<Block>): (r: seq<byte>)
    ensures |r| == BLOCK_SIZE * |bs|
  {
    if bs == [] then [] else BlocksBytes(bs[..|bs| - 1]) + BlockBytes(bs[|bs| - 1])
  }

  /** The report block of section 6.4.1 of RFC 3550, byte by byte. */
  lemma BlockLayout(b: Block)
    ensures var r := BlockBytes(b);
            && |r| == 24 && r[4] == b.fractionLost && BigEndian(r[5..8]) == b.cumulativeLost
            && BigEndian(r[0..4]) == b.ssrc && BigEndian(r[8..12]) == b.highestSeq && BigEndian(r[12..16]) == b.jitter
            && BigEndian(r[16..20]) == b.lastSr && BigEndian(r[20..24]) == b.delaySinceLastSr
  {
    hide Put32, Put24, BigEndian;
    NetworkOrder(0, b.cumulativeLost, b.ssrc);
    NetworkOrder(0, b.cumulativeLost, b.highestSeq);
    NetworkOrder(0, b.cumulativeLost, b.jitter);
    NetworkOrder(0, b.cumulativeLost, b.lastSr);
    NetworkOrder(0, b.cumulativeLost, b.delaySinceLastSr);
    var r := BlockBytes(b);
    assert r[0..4] == Put32(b.ssrc) && r[5..8] == Put24(b.cumulativeLost) && r[8..12] == Put32(b.highestSeq);
    assert r[12..16] == Put32(b.jitter) && r[16..20] == Put32(b.lastSr) && r[20..24] == Put32(b.delaySinceLastSr);
  }

  // ---- Frames ----

  /** One packet of a compound: first byte (version and count), type, and a body of whole words. */
  datatype Frame = Frame(first: byte, kind: byte, body: seq<byte>) {
    ghost predicate Framed() { |body| % 4 == 0 && |body| / 4 < TWO16 }

    // A well-formed report holds at least its SSRC.
    ghost predicate Valid() { Framed() && (IsReport() ==> 4 <= |body|) }

    predicate IsReport() { kind == SENDER_REPORT || kind == RECEIVER_REPORT }
  }

  function FrameBytes(f: Frame): (r: seq<byte>)
    requires f.Framed()
    ensures |r| == 4 + |f.body|
  {
    [f.first, f.kind] + Put16(|f.body| / 4) + f.body
  }

  /** A frame's length field counts its 32-bit words, less one; section 6.4.1 of RFC 3550. */
  lemma FrameLayout(f: Frame)
    requires f.Framed()
    ensures var b := FrameBytes(f);
            && b[0] == f.first && b[1] == f.kind && (BigEndian(b[2..4]) + 1) * 4 == |b| && b[4..] == f.body
  {
    hide Put16, BigEndian;
    NetworkOrder(|f.body| / 4, 0, 0);
    assert FrameBytes(f)[2..4] == Put16(|f.body| / 4);
  }

  ghost predicate AllValid(fs: seq<Frame>) { forall i :: 0 <= i < |fs| ==> fs[i].Valid() }

  ghost predicate AllFramed(fs: seq<Frame>) { forall i :: 0 <= i < |fs| ==> fs[i].Framed() }

  function FramesBytes(fs: seq<Frame>): seq<byte>
    requires AllFramed(fs)
  {
    if fs == [] then [] else FrameBytes(fs[0]) + FramesBytes(fs[1..])
  }

  /** What Parse accumulates. */
  datatype Reading = Reading(blocks: seq<Block>, ssrc: uint32, count: nat)

  // The first k blocks at the start of a report's bytes.
  function BlocksIn(bytes: seq<byte>, k: nat): (bs: seq<Block>)
    requires BLOCK_SIZE * k <= |bytes|
    ensures |bs| == k
  {
    seq(k, i requires 0 <= i < k => BlockFrom(bytes[BLOCK_SIZE * i..BLOCK_SIZE * i + BLOCK_SIZE]))
  }

  function Min(a: nat, b: nat): nat { if a <= b then a else b }

  // The blocks Parse takes from a frame: as many as the count says and the frame holds.
  function FrameBlocks(f: Frame): seq<Block> {
    if !f.IsReport() || |f.body| < 4 then []
    else BlocksIn(f.body[4..], Min(f.first % 32, (|f.body| - 4) / BLOCK_SIZE))
  }

  /** Reading one well-formed frame. */
  function Read(f: Frame, r: Reading): Reading
    requires f.IsReport() ==> 4 <= |f.body|
  {
    Reading(r.blocks + FrameBlocks(f), if f.IsReport() then Get32(f.body[..4]) else r.ssrc,
            r.count + |FrameBlocks(f)|)
  }

  function ReadAll(fs: seq<Frame>, r: Reading): Reading
    requires AllValid(fs)
  {
    if fs == [] then r else ReadAll(fs[1..], Read(fs[0], r))
  }

  // ---- The walk ----

  // The size the length field of a frame claims.
  function ClaimedSize(data: seq<byte>): nat
    requires 4 <= |data|
  {
    (Get16(data[2..4]) + 1) * 4
  }

  function FirstFrame(data: seq<byte>): (f: Frame)
    requires 4 <= |data| && ClaimedSize(data) <= |data|
  {
    Frame(data[0], data[1], data[4..ClaimedSize(data)])
  }

  // Whether the datagram starts with a frame that is there in full.
  predicate StartsFrame(data: seq<byte>) { 4 <= |data| && ClaimedSize(data) <= |data| }

  /** Parse takes the SSRC of a report from the word after its first, even if the length says that the
      report ends before: then that word is the start of the next frame, or past the datagram. */
  predicate SsrcsInside(data: seq<byte>)
    decreases |data|
  {
    StartsFrame(data) ==> (FirstFrame(data).IsReport() ==> 8 <= |data|) && SsrcsInside(data[ClaimedSize(data)..])
  }

  // Reading the frame the datagram starts with.
  function ReadFirst(data: seq<byte>, r: Reading): Reading
    requires StartsFrame(data) && (FirstFrame(data).IsReport() ==> 8 <= |data|)
  {
    var f := FirstFrame(data);
    Reading(r.blocks + FrameBlocks(f), if f.IsReport() then Get32(data[4..8]) else r.ssrc,
            r.count + |FrameBlocks(f)|)
  }

  function Walk(data: seq<byte>, r: Reading): Reading
    requires SsrcsInside(data)
    decreases |data|
  {
    if !StartsFrame(data) then r else Walk(data[ClaimedSize(data)..], ReadFirst(data, r))
  }

  /** Parse reads no byte past the datagram. */
  predicate InBounds(data: seq<byte>) { |data| < 8 || SsrcsInside(data) }

  function Parsed(data: seq<byte>, r: Reading): Reading
    requires InBounds(data)
  {
    if |data| < 8 then r else Walk(data, r)
  }

  /** Appends to the caller's blocks and overwrites its SSRC; every pass shortens what is left. Reading
      past the datagram, which the code does not check for, ends the method with `inside` false. */
  method Parse(data: seq<byte>, blocks0: seq<Block>, ssrc0: uint32)
    returns (inside: bool, count: nat, blocks: seq<Block>, ssrc: uint32)
    ensures inside <==> InBounds(data)
    ensures inside ==> Reading(blocks, ssrc, count) == Parsed(data, Reading(blocks0, ssrc0, 0))
  {
    hide Get16, FrameAt, SsrcsInside, Walk, FrameBlocks, Get32;
    inside, count, blocks, ssrc := true, 0, blocks0, ssrc0;
    if |data| < 8 {
      return;
    }
    var offset := 0;
    while offset + 4 <= |data|
      invariant offset <= |data| && inside
      invariant SsrcsInside(data[offset..]) <==> SsrcsInside(data)
      invariant SsrcsInside(data) ==>
                  Walk(data[offset..], Reading(blocks, ssrc, count)) == Walk(data, Reading(blocks0, ssrc0, 0))
      decreases |data| - offset
    {
      PassAt(data, offset, Reading(blocks, ssrc, count));
      var bytes := (Get16(data[offset + 2..offset + 4]) + 1) * 4;
      if |data| < offset + bytes {
        break;
      }
      inside, blocks, ssrc, count := ReadFrame(data, offset, bytes, blocks, ssrc, count);
      if !inside {
        return;
      }
      offset := offset + bytes;
    }
    if |data| < offset + 4 {
      NothingLeft(data[offset..], Reading(blocks, ssrc, count));
    }
  }

  lemma NothingLeft(data: seq<byte>, r: Reading)
    requires |data| < 4
    ensures SsrcsInside(data) && Walk(data, r) == r
  {
  }

  // The frame of `bytes` bytes at an offset.
  function FrameAt(data: seq<byte>, offset: nat, bytes: nat): Frame
    requires 4 <= bytes && offset + bytes <= |data|
  {
    Frame(data[offset], data[offset + 1], data[offset + 4..offset + bytes])
  }

  lemma FirstFrameAt(data: seq<byte>, offset: nat)
    requires offset + 4 <= |data|
    ensures var rest, bytes := data[offset..], (Get16(data[offset + 2..offset + 4]) + 1) * 4;
            && ClaimedSize(rest) == bytes && 4 <= bytes
            && (offset + 8 <= |data| ==> rest[4..8] == data[offset + 4..offset + 8])
            && (offset + bytes <= |data| ==>
                  FirstFrame(rest) == FrameAt(data, offset, bytes) && rest[bytes..] == data[offset + bytes..])
  {
    hide Get16;
    assert data[offset..][2..4] == data[offset + 2..offset + 4];
  }

  // What one pass at an offset makes of the rest of the datagram.
  lemma PassAt(data: seq<byte>, offset: nat, r: Reading)
    requires offset + 4 <= |data|
    ensures var rest, bytes := data[offset..], (Get16(data[offset + 2..offset + 4]) + 1) * 4;
            if |data| < offset + bytes then SsrcsInside(rest) && Walk(rest, r) == r
            else
              var f := FrameAt(data, offset, bytes);
              if f.IsReport() && |data| < offset + 8 then !SsrcsInside(rest)
              else
                var ssrc := if f.IsReport() then Get32(data[offset + 4..offset + 8]) else r.ssrc;
                var r' := Reading(r.blocks + FrameBlocks(f), ssrc, r.count + |FrameBlocks(f)|);
                && (SsrcsInside(rest) <==> SsrcsInside(data[offset + bytes..]))
                && (SsrcsInside(rest) ==> Walk(rest, r) == Walk(data[offset + bytes..], r'))
  {
    hide Get16, FrameAt, FirstFrame, ClaimedSize, FrameBlocks, Get32;
    FirstFrameAt(data, offset);
  }

  // One pass of Parse's loop over a frame that is there in full.
  method ReadFrame(data: seq<byte>, offset: nat, bytes: nat, blocks0: seq<Block>, ssrc0: uint32, count0: nat)
    returns (inside: bool, blocks: seq<Block>, ssrc: uint32, count: nat)
    requires 4 <= bytes && offset + bytes <= |data|
    ensures inside <==> (FrameAt(data, offset, bytes).IsReport() ==> offset + 8 <= |data|)
    ensures var f := FrameAt(data, offset, bytes);
            inside ==>
              Reading(blocks, ssrc, count)
              == Reading(blocks0 + FrameBlocks(f), if f.IsReport() then Get32(data[offset + 4..offset + 8]) else ssrc0,
                         count0 + |FrameBlocks(f)|)
  {
    hide Get32, BlocksIn;
    inside, blocks, ssrc, count := true, blocks0, ssrc0, count0;
    var kind := data[offset + 1];
    if kind == SENDER_REPORT || kind == RECEIVER_REPORT {
      if |data| < offset + 8 {
        inside := false;
        return;
      }
      ssrc := Get32(data[offset + 4..offset + 8]);
      if 8 <= bytes {
        ghost var body := data[offset + 4..offset + bytes];
        assert body[4..] == data[offset + 8..offset + bytes];
      }
      blocks, count := ReadBlocks(data, offset, bytes, blocks, count);
    }
  }

  lemma NextBlock(data: seq<byte>, lo: nat, hi: nat, i: nat)
    requires lo + BLOCK_SIZE * (i + 1) <= hi <= |data|
    ensures var at := lo + BLOCK_SIZE * i;
            BlocksIn(data[lo..hi], i + 1) == BlocksIn(data[lo..hi], i) + [BlockFrom(data[at..at + BLOCK_SIZE])]
  {
    hide BlockFrom;
    SliceOfSlice(data, lo, hi, BLOCK_SIZE * i, BLOCK_SIZE * i + BLOCK_SIZE);
  }

  // The inner loop of Parse, over one report of `bytes` bytes at `offset`.
  method ReadBlocks(data: seq<byte>, offset: nat, bytes: nat, blocks0: seq<Block>, count0: nat)
    returns (blocks: seq<Block>, count: nat)
    requires 4 <= bytes && offset + bytes <= |data|
    ensures bytes < 8 ==> blocks == blocks0 && count == count0
    ensures 8 <= bytes ==>
              var found := BlocksIn(data[offset + 8..offset + bytes],
                                    Min(data[offset] % 32, (bytes - 8) / BLOCK_SIZE));
              blocks == blocks0 + found && count == count0 + |found|
  {
    hide BlockFrom, BlocksIn;
    blocks, count := blocks0, count0;
    var rc := data[offset] % 32;
    var rbOffset := offset + 8;
    ghost var body := if 8 <= bytes then data[offset + 8..offset + bytes] else [];
    var i := 0;
    while i < rc && rbOffset + BLOCK_SIZE <= offset + bytes
      invariant i <= rc && BLOCK_SIZE * i <= |body|
      invariant rbOffset == offset + 8 + BLOCK_SIZE * i
      invariant blocks == blocks0 + BlocksIn(body, i) && count == count0 + i
    {
      NextBlock(data, offset + 8, offset + bytes, i);
      blocks := blocks + [BlockFrom(data[rbOffset..rbOffset + BLOCK_SIZE])];
      rbOffset := rbOffset + BLOCK_SIZE;
      count := count + 1;
      i := i + 1;
    }
  }

  // ---- The walk is a homomorphism ----

  lemma FrameIsFirst(f: Frame, tail: seq<byte>)
    requires f.Framed()
    ensures var data := FrameBytes(f) + tail;
            && StartsFrame(data) && ClaimedSize(data) == |FrameBytes(f)| && FirstFrame(data) == f
            && data[ClaimedSize(data)..] == tail
            && (4 <= |f.body| ==> data[4..8] == f.body[..4])
  {
    hide Put16, Get16;
    var data := FrameBytes(f) + tail;
    assert data[2..4] == Put16(|f.body| / 4);
    Word16RoundTrip(|f.body| / 4);
    assert data[4..4 + |f.body|] == f.body;
  }

  /** Walking the concatenation of any frames reads them one after the other, with nothing left
      over but the tail. */
  lemma {:induction false} WalkIsHomomorphic(fs: seq<Frame>, tail: seq<byte>, r: Reading)
    requires AllValid(fs) && SsrcsInside(tail)
    ensures SsrcsInside(FramesBytes(fs) + tail)
    ensures Walk(FramesBytes(fs) + tail, r) == Walk(tail, ReadAll(fs, r))
    decreases |fs|
  {
    hide FrameBlocks, ClaimedSize, FirstFrame, Get32;
    if fs == [] {
      assert FramesBytes(fs) + tail == tail;
    } else {
      var rest := FramesBytes(fs[1..]) + tail;
      assert FramesBytes(fs) + tail == FrameBytes(fs[0]) + rest;
      FrameIsFirst(fs[0], rest);
      WalkIsHomomorphic(fs[1..], tail, Read(fs[0], r));
    }
  }

  /** From a report Parse takes as many blocks as its five-bit count says and as fit after its SSRC, each
      of the 24 bytes that follow on one another. */
  lemma BlocksTaken(f: Frame)
    ensures var bs, room := FrameBlocks(f), (|f.body| - 4) / 24;
            && ((f.kind != 200 && f.kind != 201) || |f.body| < 28 ==> bs == [])
            && ((f.kind == 200 || f.kind == 201) && 4 <= |f.body| ==>
                  && |bs| == (if f.first % 32 < room then f.first % 32 else room)
                  && forall i :: 0 <= i < |bs| ==>
                       28 + 24 * i <= |f.body| && bs[i] == BlockFrom(f.body[4 + 24 * i..28 + 24 * i]))
  {
    hide BlockFrom;
    var bs := FrameBlocks(f);
    forall i | 0 <= i < |bs|
      ensures 28 + 24 * i <= |f.body| && bs[i] == BlockFrom(f.body[4 + 24 * i..28 + 24 * i])
    {
      assert f.body[4..|f.body|] == f.body[4..];
      SliceOfSlice(f.body, 4, |f.body|, 24 * i, 24 * i + 24);
      BlockSlice(f.body[4..], |bs|, i);
    }
  }

  /** Fewer than 8 bytes are not parsed at all; and what is left over after whole frames, a datagram cut
      off, changes nothing. */
  lemma CutOffIsIgnored(fs: seq<Frame>, tail: seq<byte>, r: Reading)
    requires AllValid(fs)
    requires |tail| < 4 || |tail| < 4 * (BigEndian(tail[2..4]) + 1)
    ensures InBounds(FramesBytes(fs) + tail)
    ensures Parsed(FramesBytes(fs) + tail, r) == if |FramesBytes(fs) + tail| < 8 then r else ReadAll(fs, r)
  {
    if 4 <= |tail| {
      ReadInNetworkOrder(tail[2..4]);
    }
    hide Get16, BigEndian;
    assert !StartsFrame(tail);
    hide StartsFrame;
    WalkIsHomomorphic(fs, tail, r);
  }

  // ---- Where Parse reads past the datagram ----

  /** Whole frames and then a report cut off after its first word, whose length says that it ends there. */
  ghost predicate EndsInBareReport(data: seq<byte>, fs: seq<Frame>, tail: seq<byte>) {
    && AllFramed(fs) && data == FramesBytes(fs) + tail
    && 4 <= |tail| < 8 && (tail[1] == SENDER_REPORT || tail[1] == RECEIVER_REPORT) && tail[2] == tail[3] == 0
  }

  lemma FirstFrameBytes(data: seq<byte>)
    requires StartsFrame(data)
    ensures FirstFrame(data).Framed() && data == FrameBytes(FirstFrame(data)) + data[ClaimedSize(data)..]
  {
    hide Get16, Put16;
    var size: int := Get16(data[2..4]);
    Bytes16RoundTrip(data[2..4]);
    assert |FirstFrame(data).body| == 4 * size;
    assert data == [data[0], data[1]] + data[2..4] + data[4..ClaimedSize(data)] + data[ClaimedSize(data)..];
  }

  lemma OutsideCases(data: seq<byte>)
    requires !SsrcsInside(data)
    ensures StartsFrame(data) && |data[ClaimedSize(data)..]| < |data|
    ensures if FirstFrame(data).IsReport() && |data| < 8 then
              4 <= |data| && (data[1] == SENDER_REPORT || data[1] == RECEIVER_REPORT) && data[2] == data[3] == 0
            else !SsrcsInside(data[ClaimedSize(data)..])
  {
  }

  lemma {:induction false} OutsideEndsBare(data: seq<byte>) returns (fs: seq<Frame>, tail: seq<byte>)
    requires !SsrcsInside(data)
    ensures EndsInBareReport(data, fs, tail)
    decreases |data|
  {
    OutsideCases(data);
    hide FirstFrame, ClaimedSize, FrameBytes, SsrcsInside, StartsFrame, EndsInBareReport;
    if FirstFrame(data).IsReport() && |data| < 8 {
      fs, tail := [], data;
      BareAlone(data);
    } else {
      var more;
      more, tail := OutsideEndsBare(data[ClaimedSize(data)..]);
      FirstFrameBytes(data);
      FrameBefore(FirstFrame(data), data[ClaimedSize(data)..], more, tail);
      fs := [FirstFrame(data)] + more;
    }
  }

  lemma BareAlone(tail: seq<byte>)
    requires 4 <= |tail| < 8 && (tail[1] == SENDER_REPORT || tail[1] == RECEIVER_REPORT) && tail[2] == tail[3] == 0
    ensures EndsInBareReport(tail, [], tail)
  {
    assert FramesBytes([]) + tail == tail;
  }

  lemma FrameBefore(f: Frame, rest: seq<byte>, fs: seq<Frame>, tail: seq<byte>)
    requires f.Framed() && EndsInBareReport(rest, fs, tail)
    ensures EndsInBareReport(FrameBytes(f) + rest, [f] + fs, tail)
  {
    hide FrameBytes;
    assert ([f] + fs)[1..] == fs;
    assert FrameBytes(f) + (FramesBytes(fs) + tail) == FrameBytes(f) + FramesBytes(fs) + tail;
  }

  lemma {:induction false} BareEndIsOutside(data: seq<byte>, fs: seq<Frame>, tail: seq<byte>)
    requires EndsInBareReport(data, fs, tail)
    ensures !SsrcsInside(data)
    decreases |fs|
  {
    if fs == [] {
      assert data == tail && ClaimedSize(data) == 4;
    } else {
      var rest := FramesBytes(fs[1..]) + tail;
      assert data == FrameBytes(fs[0]) + rest;
      FrameIsFirst(fs[0], rest);
      hide FirstFrame, ClaimedSize, FrameBytes, FramesBytes;
      BareEndIsOutside(rest, fs[1..], tail);
    }
  }

  /** Parse reads past its datagram exactly when that has at least 8 bytes and ends, after whole frames
      of any kind, in 4 to 7 bytes that start a report of length word 0. */
  lemma OverreadsExactly(data: seq<byte>)
    ensures !InBounds(data) <==> 8 <= |data| && exists fs, tail :: EndsInBareReport(data, fs, tail)
  {
    hide SsrcsInside, EndsInBareReport;
    if !SsrcsInside(data) {
      var fs, tail := OutsideEndsBare(data);
    }
    if fs, tail :| EndsInBareReport(data, fs, tail) {
      BareEndIsOutside(data, fs, tail);
    }
  }

  /** Such a datagram: an empty receiver report followed by the first word of another. */
  lemma BareReportOverreads(ssrc: uint32)
    ensures !InBounds(FrameBytes(ReceiverReport(ssrc, [])) + [0x80, RECEIVER_REPORT, 0, 0])
  {
    hide Put32;
    var f, tail := ReceiverReport(ssrc, []), [0x80, RECEIVER_REPORT, 0, 0];
    assert [f][1..] == [] && FramesBytes([f]) == FrameBytes(f) + FramesBytes([]);
    assert EndsInBareReport(FrameBytes(f) + tail, [f], tail);
    OverreadsExactly(FrameBytes(f) + tail);
  }

  /** A bare report before the end is read inside the datagram: the next frame's first word passes for
      its SSRC, and it has no blocks. */
  lemma BareReportTakesNextWord(first: byte, ssrc: uint32, r: Reading)
    ensures var next := FrameBytes(ReceiverReport(ssrc, []));
            var data := [first, RECEIVER_REPORT, 0, 0] + next;
            && InBounds(data)
            && ReadFirst(data, r) == Reading(r.blocks, Get32(next[..4]), r.count)
            && Parsed(data, r) == Reading(r.blocks, ssrc, r.count)
  {
    hide Put32, Get32, BlocksIn;
    var bare, f := Frame(first, RECEIVER_REPORT, []), ReceiverReport(ssrc, []);
    var next := FrameBytes(f);
    var data := [first, RECEIVER_REPORT, 0, 0] + next;
    assert data == FrameBytes(bare) + next && data[4..8] == next[..4];
    FrameIsFirst(bare, next);
    ReceiverReportReadsBack(ssrc, []);
    var r' := Reading(r.blocks, Get32(next[..4]), r.count);
    assert ReadFirst(data, r) == r';
    WalkIsHomomorphic([f], [], r');
    assert [f][1..] == [] && FramesBytes([f]) + [] == next;
    assert ReadAll([f], r') == ReadAll([], Read(f, r')) == Read(f, r');
  }

  // Reading frames only ever appends.
  function AllBlocks(fs: seq<Frame>): seq<Block>
    requires AllValid(fs)
  {
    if fs == [] then [] else FrameBlocks(fs[0]) + AllBlocks(fs[1..])
  }

  function LastSsrc(fs: seq<Frame>, before: uint32): uint32
    requires AllValid(fs)
  {
    if fs == [] then before
    else LastSsrc(fs[1..], if fs[0].IsReport() then Get32(fs[0].body[..4]) else before)
  }

  lemma {:induction false} ReadAllIs(fs: seq<Frame>, r: Reading)
    requires AllValid(fs)
    ensures ReadAll(fs, r) == Reading(r.blocks + AllBlocks(fs), LastSsrc(fs, r.ssrc), r.count + |AllBlocks(fs)|)
    decreases |fs|
  {
    hide FrameBlocks, Get32;
    if fs != [] {
      ReadAllIs(fs[1..], Read(fs[0], r));
      assert r.blocks + FrameBlocks(fs[0]) + AllBlocks(fs[1..]) == r.blocks + (FrameBlocks(fs[0]) + AllBlocks(fs[1..]));
    }
  }

  /** On any concatenation of frames of at least 8 bytes, Parse consumes everything and returns the
      blocks of all reports in order, their number, and the last report's SSRC. */
  lemma ParseCompound(fs: seq<Frame>, r: Reading)
    requires AllValid(fs) && 8 <= |FramesBytes(fs)|
    ensures InBounds(FramesBytes(fs))
    ensures Parsed(FramesBytes(fs), r)
            == Reading(r.blocks + AllBlocks(fs), LastSsrc(fs, r.ssrc), r.count + |AllBlocks(fs)|)
  {
    WalkIsHomomorphic(fs, [], r);
    ReadAllIs(fs, r);
    assert FramesBytes(fs) + [] == FramesBytes(fs);
  }

  // ---- Reports ----

  /** A receiver report, section 6.4.2 of RFC 3550; the count keeps the low five bits. */
  function ReceiverReport(ssrc: uint32, blocks: seq<Block>): Frame {
    Frame(0x80 + |blocks| % 32, RECEIVER_REPORT, Put32(ssrc) + BlocksBytes(blocks))
  }

  /** A sender report without blocks, section 6.4.1 of RFC 3550, the NTP words as the code stores them. */
  function SenderReport(ssrc: uint32, ntpLow: uint32, ntpHigh: uint32, rtpTimestamp: uint32,
                        packetCount: uint32, octetCount: uint32): Frame {
    Frame(0x80, SENDER_REPORT, Put32(ssrc) + Put32(ntpLow) + Put32(ntpHigh) + Put32(rtpTimestamp)
                               + Put32(packetCount) + Put32(octetCount))
  }

  method Store(packet: array<byte>, offset: nat, bytes: seq<byte>)
    requires offset + |bytes| <= packet.Length
    modifies packet
    ensures packet[..offset] == old(packet[..offset])
    ensures packet[..offset + |bytes|] == old(packet[..offset]) + bytes
  {
    forall i | 0 <= i < |bytes| {
      packet[offset + i] := bytes[i];
    }
  }

  method StoreThree(packet: array<byte>, offset: nat, a: uint32, b: uint32, c: uint32)
    requires offset + 12 <= packet.Length
    modifies packet
    ensures packet[..offset + 12] == old(packet[..offset]) + Put32(a) + Put32(b) + Put32(c)
  {
    hide Put32;
    Store(packet, offset, Put32(a));
    Store(packet, offset + 4, Put32(b));
    Store(packet, offset + 8, Put32(c));
  }

  /** The NTP timestamp is converted word by word but stored as one number, low word first. */
  method BuildSenderReport(ssrc: uint32, ntp: uint64, rtpTimestamp: uint32, packetCount: uint32, octetCount: uint32)
    returns (packet: array<byte>)
    ensures var f := SenderReport(ssrc, ntp % TWO32, ntp / TWO32, rtpTimestamp, packetCount, octetCount);
            f.Valid() && packet[..] == FrameBytes(f)
  {
    hide Put32, FrameBytes;
    packet := new byte[28](_ => 0);
    packet[0], packet[1], packet[2], packet[3] := 0x80, SENDER_REPORT, 0, 6;
    assert packet[..4] == [0x80, SENDER_REPORT, 0, 6];
    StoreThree(packet, 4, ssrc, ntp % TWO32, ntp / TWO32);
    StoreThree(packet, 16, rtpTimestamp, packetCount, octetCount);
    assert packet[..] == packet[..28];
    SenderReportBytes(ssrc, ntp % TWO32, ntp / TWO32, rtpTimestamp, packetCount, octetCount);
  }

  lemma SenderReportBytes(ssrc: uint32, ntpLow: uint32, ntpHigh: uint32, rtpTimestamp: uint32,
                          packetCount: uint32, octetCount: uint32)
    ensures var f := SenderReport(ssrc, ntpLow, ntpHigh, rtpTimestamp, packetCount, octetCount);
            && f.Valid()
            && FrameBytes(f) == [0x80, SENDER_REPORT, 0, 6] + Put32(ssrc) + Put32(ntpLow) + Put32(ntpHigh)
                                + Put32(rtpTimestamp) + Put32(packetCount) + Put32(octetCount)
  {
    hide Put32;
    assert [0x80, SENDER_REPORT] + Put16(6) == [0x80, SENDER_REPORT, 0, 6];
  }

  /** Section 6.4.1 of RFC 3550 puts the high word first; the field is right exactly when both are the same. */
  lemma NtpWordsAreExchanged(ntp: uint64)
    ensures Put32(ntp % TWO32) + Put32(ntp / TWO32) == Put32(ntp / TWO32) + Put32(ntp % TWO32)
            <==> ntp / TWO32 == ntp % TWO32
  {
    hide Put32, Get32;
    var lo, hi := Put32(ntp % TWO32), Put32(ntp / TWO32);
    Word32RoundTrip(ntp % TWO32);
    Word32RoundTrip(ntp / TWO32);
    if lo + hi == hi + lo {
      assert (lo + hi)[..4] == lo && (hi + lo)[..4] == hi;
    }
  }

  // What BuildReceiverReport leaves in the vector; the length field keeps 16 bits.
  function ReceiverReportBytes(ssrc: uint32, blocks: seq<Block>): seq<byte> {
    [0x80 + |blocks| % 32, RECEIVER_REPORT] + Put16(Wrap16(6 * |blocks| + 1)) + Put32(ssrc) + BlocksBytes(blocks)
  }

  method BuildReceiverReport(ssrc: uint32, blocks: seq<Block>) returns (packet: array<byte>)
    ensures packet[..] == ReceiverReportBytes(ssrc, blocks)
  {
    var total := 8 + |blocks| * BLOCK_SIZE;
    packet := new byte[total](_ => 0);
    var len := Wrap16(total / 4 - 1);
    assert len == Wrap16(6 * |blocks| + 1);
    packet[0], packet[1] := 0x80 + |blocks| % 32, RECEIVER_REPORT;
    packet[2], packet[3] := len / 0x100, len % 0x100;
    assert packet[..4] == [0x80 + |blocks| % 32, RECEIVER_REPORT] + Put16(len);
    Store(packet, 4, Put32(ssrc));
    StoreBlocks(packet, blocks);
  }

  // The loop of BuildReceiverReport: each block at its place after the eight-byte head.
  method StoreBlocks(packet: array<byte>, blocks: seq<Block>)
    requires packet.Length == 8 + |blocks| * BLOCK_SIZE
    modifies packet
    ensures packet[..] == old(packet[..8]) + BlocksBytes(blocks)
  {
    hide BlockBytes;
    ghost var head := packet[..8];
    var offset := 8;
    for i := 0 to |blocks|
      invariant offset == 8 + i * BLOCK_SIZE
      invariant packet[..offset] == head + BlocksBytes(blocks[..i])
    {
      assert blocks[..i + 1][..i] == blocks[..i];
      Store(packet, offset, BlockBytes(blocks[i]));
      offset := offset + BLOCK_SIZE;
    }
    assert packet[..] == packet[..offset] && blocks[..|blocks|] == blocks;
  }

  lemma {:induction false} BlockAt(bs: seq<Block>, i: nat)
    requires i < |bs|
    ensures BlocksBytes(bs)[BLOCK_SIZE * i..BLOCK_SIZE * i + BLOCK_SIZE] == BlockBytes(bs[i])
    decreases |bs|
  {
    hide BlockBytes;
    var n := |bs| - 1;
    var whole, init := BlocksBytes(bs), BlocksBytes(bs[..n]);
    assert whole == init + BlockBytes(bs[n]);
    if i < n {
      BlockAt(bs[..n], i);
      assert whole[BLOCK_SIZE * i..BLOCK_SIZE * i + BLOCK_SIZE] == init[BLOCK_SIZE * i..BLOCK_SIZE * i + BLOCK_SIZE];
    }
  }

  lemma BlocksReadBack(bs: seq<Block>, k: nat)
    requires k <= |bs|
    ensures BlocksIn(BlocksBytes(bs), k) == Map(bs[..k], READ_BACK)
  {
    hide BlockBytes, BlockFrom, BlocksBytes;
    var bytes := BlocksBytes(bs);
    forall i | 0 <= i < k
      ensures BlocksIn(bytes, k)[i] == READ_BACK(bs[i])
    {
      assert BlocksIn(bytes, k)[i] == BlockFrom(bytes[BLOCK_SIZE * i..BLOCK_SIZE * i + BLOCK_SIZE]);
      BlockAt(bs, i);
      BlockReadsBack(bs[i]);
    }
  }

  /** A receiver report whose length field fits is a well-formed frame, and Parse recovers all its
      blocks exactly when there are at most 31; the cumulative loss comes back byte-reversed. */
  lemma ReceiverReportReadsBack(ssrc: uint32, blocks: seq<Block>)
    requires 6 * |blocks| + 1 < TWO16
    ensures var f := ReceiverReport(ssrc, blocks);
            && f.Valid() && ReceiverReportBytes(ssrc, blocks) == FrameBytes(f)
            && Get32(f.body[..4]) == ssrc
            && FrameBlocks(f) == Map(blocks[..|blocks| % 32], READ_BACK)
            && (FrameBlocks(f) == Map(blocks, READ_BACK) <==> |blocks| <= 31)
  {
    ReceiverReportFrame(ssrc, blocks);
    hide Put32, Get32, Put16, BlocksIn, BlocksBytes, FrameBlocks, ReceiverReport, FrameBytes, ReceiverReportBytes;
    Word32RoundTrip(ssrc);
    BlocksReadBack(blocks, |blocks| % 32);
    LowFiveBits(|blocks|);
    if |blocks| <= 31 {
      assert blocks[..|blocks|] == blocks;
    }
  }

  lemma LowFiveBits(n: nat)
    ensures n % 32 <= n && (n % 32 == n <==> n <= 31)
  {
  }

  lemma ReceiverReportFrame(ssrc: uint32, blocks: seq<Block>)
    requires 6 * |blocks| + 1 < TWO16
    ensures var f := ReceiverReport(ssrc, blocks);
            && f.Valid() && ReceiverReportBytes(ssrc, blocks) == FrameBytes(f) && f.body[..4] == Put32(ssrc)
            && FrameBlocks(f) == BlocksIn(BlocksBytes(blocks), |blocks| % 32)
  {
    var f, n := ReceiverReport(ssrc, blocks), |blocks|;
    ReceiverReportFields(ssrc, blocks);
    CountFits(n);
    hide Put32, BlocksIn, BlocksBytes, FrameBlocks, ReceiverReportBytes, FrameBytes, ReceiverReport;
    ReceiverReportIsFrame(ssrc, blocks);
    ReportBlocks(f, Put32(ssrc), BlocksBytes(blocks));
    assert Min(f.first % 32, BLOCK_SIZE * n / BLOCK_SIZE) == n % 32;
  }

  lemma ReceiverReportFields(ssrc: uint32, blocks: seq<Block>)
    requires 6 * |blocks| + 1 < TWO16
    ensures var f := ReceiverReport(ssrc, blocks);
            && f.Valid() && f.IsReport() && f.first == 0x80 + |blocks| % 32
            && f.body == Put32(ssrc) + BlocksBytes(blocks) && f.body[..4] == Put32(ssrc)
  {
    hide Put32, BlocksBytes;
    assert |ReceiverReport(ssrc, blocks).body| == 4 * (6 * |blocks| + 1);
  }

  /** Both reports are of version 2 without padding; a receiver report keeps the low five bits of the
      number of blocks, a sender report has no block. */
  lemma ReportHeads(ssrc: uint32, blocks: seq<Block>, ntpLow: uint32, ntpHigh: uint32, rtpTimestamp: uint32,
                    packetCount: uint32, octetCount: uint32)
    ensures var rr := ReceiverReport(ssrc, blocks);
            rr.first / 64 == 2 && rr.first / 32 % 2 == 0 && rr.first % 32 == |blocks| % 32 && rr.kind == 201
    ensures var sr := SenderReport(ssrc, ntpLow, ntpHigh, rtpTimestamp, packetCount, octetCount);
            sr.first == 128 && sr.kind == 200
  {
    CountFits(|blocks|);
    hide Put32, BlocksBytes;
  }

  /** The sender information, word by word. */
  lemma SenderReportFields(ssrc: uint32, ntpLow: uint32, ntpHigh: uint32, rtpTimestamp: uint32,
                           packetCount: uint32, octetCount: uint32)
    ensures var b := SenderReport(ssrc, ntpLow, ntpHigh, rtpTimestamp, packetCount, octetCount).body;
            && |b| == 24 && BigEndian(b[0..4]) == ssrc
            && BigEndian(b[4..8]) == ntpLow && BigEndian(b[8..12]) == ntpHigh && BigEndian(b[12..16]) == rtpTimestamp
            && BigEndian(b[16..20]) == packetCount && BigEndian(b[20..24]) == octetCount
  {
    hide Put32, BigEndian, BlocksBytes;
    var b := SenderReport(ssrc, ntpLow, ntpHigh, rtpTimestamp, packetCount, octetCount).body;
    assert b[0..4] == Put32(ssrc) && b[4..8] == Put32(ntpLow) && b[8..12] == Put32(ntpHigh);
    assert b[12..16] == Put32(rtpTimestamp) && b[16..20] == Put32(packetCount) && b[20..24] == Put32(octetCount);
    NetworkOrder(0, 0, ssrc);
    NetworkOrder(0, 0, ntpLow);
    NetworkOrder(0, 0, ntpHigh);
    NetworkOrder(0, 0, rtpTimestamp);
    NetworkOrder(0, 0, packetCount);
    NetworkOrder(0, 0, octetCount);
  }

  lemma ReceiverReportIsFrame(ssrc: uint32, blocks: seq<Block>)
    requires 6 * |blocks| + 1 < TWO16 && ReceiverReport(ssrc, blocks).Framed()
    ensures ReceiverReportBytes(ssrc, blocks) == FrameBytes(ReceiverReport(ssrc, blocks))
  {
    hide Put32, BlocksBytes, Put16;
    var f := ReceiverReport(ssrc, blocks);
    assert |f.body| / 4 == 6 * |blocks| + 1 == Wrap16(6 * |blocks| + 1);
  }

  lemma CountFits(n: nat)
    ensures (0x80 + n % 32) % 32 == n % 32 <= n == BLOCK_SIZE * n / BLOCK_SIZE
  {
  }

  /** A sender report without blocks yields its SSRC and no block. */
  lemma SenderReportReadsBack(ssrc: uint32, ntpLow: uint32, ntpHigh: uint32, rtpTimestamp: uint32,
                              packetCount: uint32, octetCount: uint32)
    ensures var f := SenderReport(ssrc, ntpLow, ntpHigh, rtpTimestamp, packetCount, octetCount);
            f.Valid() && |FrameBytes(f)| == 28 && Get32(f.body[..4]) == ssrc && FrameBlocks(f) == []
  {
    hide Put32, Get32;
    var f := SenderReport(ssrc, ntpLow, ntpHigh, rtpTimestamp, packetCount, octetCount);
    assert f.body[..4] == Put32(ssrc);
    Word32RoundTrip(ssrc);
  }

  lemma CountAndRoom(n: nat)
    requires n <= 31
    ensures (0x80 + n) % 32 == n && (20 + BLOCK_SIZE * n) / BLOCK_SIZE == n
  {
  }

  /** A sender report with blocks; `info` is the sender information. */
  function SenderReportWith(ssrc: uint32, info: seq<byte>, blocks: seq<Block>): (f: Frame)
    requires |info| == 20 && 1 <= |blocks| <= 31
    ensures f.IsReport() && f.first == 0x80 + |blocks|
  {
    Frame(0x80 + |blocks|, SENDER_REPORT, Put32(ssrc) + (info + BlocksBytes(blocks)))
  }

  /** With blocks it is misread: Parse looks for them where the 20 bytes of sender information
      stand, so the first block it returns has the first of those words for its SSRC. */
  lemma SenderReportWithBlocksMisread(ssrc: uint32, info: seq<byte>, blocks: seq<Block>)
    requires |info| == 20 && 1 <= |blocks| <= 31
    ensures var f, rest := SenderReportWith(ssrc, info, blocks), info + BlocksBytes(blocks);
            && f.Valid() && |rest| == 20 + BLOCK_SIZE * |blocks|
            && FrameBlocks(f) == BlocksIn(rest, |blocks|) && FrameBlocks(f)[0].ssrc == Get32(info[..4])
  {
    hide Put32, Get32, BlocksBytes, BlocksIn, FrameBlocks;
    var rest := info + BlocksBytes(blocks);
    FrameWithRoom(|blocks|, Put32(ssrc), rest);
    FirstBlockIn(rest, |blocks|);
    assert rest[0..BLOCK_SIZE][0..4] == info[..4];
  }

  lemma FrameWithRoom(n: nat, word: seq<byte>, rest: seq<byte>)
    requires 1 <= n <= 31 && |word| == 4 && |rest| == 20 + BLOCK_SIZE * n
    ensures var f := Frame(0x80 + n, SENDER_REPORT, word + rest); f.Valid() && FrameBlocks(f) == BlocksIn(rest, n)
  {
    hide FrameBlocks, BlocksIn;
    CountAndRoom(n);
    assert |word + rest| == 4 * (6 + 6 * n);
    ReportBlocks(Frame(0x80 + n, SENDER_REPORT, word + rest), word, rest);
  }

  /** So the blocks of a sender report come back exactly when their bytes are what stands where Parse
      looks: when putting the sender information in front of them leaves their bytes as they were. */
  lemma SenderReportBlocksSurvive(ssrc: uint32, info: seq<byte>, blocks: seq<Block>)
    requires |info| == 20 && 1 <= |blocks| <= 31
    ensures FrameBlocks(SenderReportWith(ssrc, info, blocks)) == Map(blocks, READ_BACK)
            <==> BlocksBytes(blocks) <= info + BlocksBytes(blocks)
  {
    hide Put32, Get32, BlocksBytes, BlocksIn, FrameBlocks, SenderReportWith;
    SenderReportWithBlocksMisread(ssrc, info, blocks);
    BlocksReadBack(blocks, |blocks|);
    assert blocks[..|blocks|] == blocks;
    SameBlocksSameBytes(info + BlocksBytes(blocks), BlocksBytes(blocks), |blocks|);
  }

  lemma Word32Injective(a: seq<byte>, b: seq<byte>)
    requires |a| == |b| == 4 && Get32(a) == Get32(b)
    ensures a == b
  {
    hide Put32, Get32;
    Bytes32RoundTrip(a);
    Bytes32RoundTrip(b);
  }

  lemma BlockFromInjective(a: seq<byte>, b: seq<byte>)
    requires |a| == |b| == BLOCK_SIZE && BlockFrom(a) == BlockFrom(b)
    ensures a == b
  {
    hide Get32;
    Word32Injective(a[0..4], b[0..4]);
    Word32Injective(a[8..12], b[8..12]);
    Word32Injective(a[12..16], b[12..16]);
    Word32Injective(a[16..20], b[16..20]);
    Word32Injective(a[20..24], b[20..24]);
    LossBytesInjective(a[5], a[6], a[7], b[5], b[6], b[7]);
    assert a[4..8] == [a[4], a[5], a[6], a[7]] && b[4..8] == [b[4], b[5], b[6], b[7]];
    hide BlockFrom;
    assert a == a[0..4] + a[4..8] + a[8..12] + a[12..16] + a[16..20] + a[20..24];
    assert b == b[0..4] + b[4..8] + b[8..12] + b[12..16] + b[16..20] + b[20..24];
  }

  lemma LossBytesInjective(x: byte, y: byte, z: byte, x': byte, y': byte, z': byte)
    requires x + y * 0x100 + z * 0x1_0000 == x' + y' * 0x100 + z' * 0x1_0000
    ensures x == x' && y == y' && z == z'
  {
  }

  lemma BlockSlice(bytes: seq<byte>, k: nat, i: nat)
    requires BLOCK_SIZE * k <= |bytes| && i < k
    ensures BlocksIn(bytes, k)[i] == BlockFrom(bytes[BLOCK_SIZE * i..BLOCK_SIZE * i + BLOCK_SIZE])
  {
    hide BlockFrom;
  }

  // The same blocks are read only from the same bytes.
  lemma SameBlocksSameBytes(a: seq<byte>, b: seq<byte>, k: nat)
    requires BLOCK_SIZE * k <= |a| && BLOCK_SIZE * k == |b|
    ensures BlocksIn(a, k) == BlocksIn(b, k) <==> b <= a
  {
    hide BlockFrom, BlocksIn;
    forall i | 0 <= i < k
      ensures BlocksIn(a, k)[i] == BlockFrom(a[BLOCK_SIZE * i..BLOCK_SIZE * i + BLOCK_SIZE])
      ensures BlocksIn(b, k)[i] == BlockFrom(b[BLOCK_SIZE * i..BLOCK_SIZE * i + BLOCK_SIZE])
    {
      BlockSlice(a, k, i);
      BlockSlice(b, k, i);
    }
    if b <= a {
      assert forall i :: 0 <= i < k ==>
          a[BLOCK_SIZE * i..BLOCK_SIZE * i + BLOCK_SIZE] == b[BLOCK_SIZE * i..BLOCK_SIZE * i + BLOCK_SIZE];
    } else if BlocksIn(a, k) == BlocksIn(b, k) {
      forall j | 0 <= j < |b|
        ensures a[j] == b[j]
      {
        var i := j / BLOCK_SIZE;
        var lo := BLOCK_SIZE * i;
        assert BlocksIn(a, k)[i] == BlocksIn(b, k)[i];
        BlockFromInjective(a[lo..lo + BLOCK_SIZE], b[lo..lo + BLOCK_SIZE]);
        assert a[lo..lo + BLOCK_SIZE][j - lo] == a[j] && b[lo..lo + BLOCK_SIZE][j - lo] == b[j];
      }
    }
  }

  lemma ReportBlocks(f: Frame, word: seq<byte>, rest: seq<byte>)
    requires f.IsReport() && |word| == 4 && f.body == word + rest
    ensures FrameBlocks(f) == BlocksIn(rest, Min(f.first % 32, |rest| / BLOCK_SIZE))
  {
    hide BlocksIn;
    assert f.body[4..] == rest;
  }

  lemma FirstBlockIn(bytes: seq<byte>, k: nat)
    requires 0 < k && BLOCK_SIZE * k <= |bytes|
    ensures BlocksIn(bytes, k)[0].ssrc == Get32(bytes[0..BLOCK_SIZE][0..4])
  {
  }

  // ---- A compound as it is built ----

  /** What goes into a compound: the two reports, and packets of other types. */
  datatype Report =
    | Sender(ssrc: uint32, ntpLow: uint32, ntpHigh: uint32, rtpTimestamp: uint32, packets: uint32, octets: uint32)
    | Receiver(ssrc: uint32, blocks: seq<Block>)
    | Other(frame: Frame)
  {
    function ToFrame(): Frame {
      match this
      case Sender(ssrc, ntpLow, ntpHigh, rtpTimestamp, packets, octets) =>
        SenderReport(ssrc, ntpLow, ntpHigh, rtpTimestamp, packets, octets)
      case Receiver(ssrc, blocks) => ReceiverReport(ssrc, blocks)
      case Other(frame) => frame
    }

    ghost predicate Buildable() {
      (Receiver? ==> |blocks| <= 31) && (Other? ==> frame.Framed() && !frame.IsReport())
    }
  }

  const TO_FRAME := (r: Report) => r.ToFrame()

  // All report blocks put in, as they read back.
  function BlocksPutIn(rs: seq<Report>): seq<Block> {
    if rs == [] then []
    else (if rs[0].Receiver? then Map(rs[0].blocks, READ_BACK) else []) + BlocksPutIn(rs[1..])
  }

  // The SSRC of the last sender or receiver report put in.
  function LastReporter(rs: seq<Report>, before: uint32): uint32 {
    if rs == [] then before
    else LastReporter(rs[1..], if rs[0].Other? then before else rs[0].ssrc)
  }

  lemma ReportReadsBack(r: Report)
    requires r.Buildable()
    ensures var f := r.ToFrame();
            && f.Valid() && (f.IsReport() <==> !r.Other?) && (f.IsReport() ==> Get32(f.body[..4]) == r.ssrc)
            && FrameBlocks(f) == if r.Receiver? then Map(r.blocks, READ_BACK) else []
  {
    hide FrameBlocks, Get32, Put32, BlocksBytes;
    match r
    case Sender(ssrc, ntpLow, ntpHigh, rtpTimestamp, packets, octets) =>
      SenderReportReadsBack(ssrc, ntpLow, ntpHigh, rtpTimestamp, packets, octets);
    case Receiver(ssrc, blocks) => ReceiverReportReadsBack(ssrc, blocks);
    case Other(frame) => assert FrameBlocks(frame) == [] by { OtherHasNoBlocks(frame); }
  }

  lemma OtherHasNoBlocks(f: Frame)
    requires !f.IsReport()
    ensures FrameBlocks(f) == []
  {
  }

  lemma {:induction false} ReportsReadBack(rs: seq<Report>, before: uint32)
    requires forall i :: 0 <= i < |rs| ==> rs[i].Buildable()
    ensures var fs := Map(rs, TO_FRAME);
            AllValid(fs) && AllBlocks(fs) == BlocksPutIn(rs) && LastSsrc(fs, before) == LastReporter(rs, before)
  {
    hide FrameBlocks, Get32;
    forall i | 0 <= i < |rs|
      ensures rs[i].ToFrame().Valid()
    {
      ReportReadsBack(rs[i]);
    }
    if rs != [] {
      ReportReadsBack(rs[0]);
      ReportsReadBack(rs[1..], if rs[0].Other? then before else rs[0].ssrc);
      assert Map(rs, TO_FRAME)[1..] == Map(rs[1..], TO_FRAME);
    }
  }

  /** Round trip of a compound: from sender reports, receiver reports of at most 31 blocks and packets
      of other types, at least 8 bytes in all, Parse returns every block put in, in order and with only
      cumulative_lost reversed, their number, and the SSRC of the last report. */
  lemma CompoundRoundTrip(rs: seq<Report>, r: Reading)
    requires forall i :: 0 <= i < |rs| ==> rs[i].Buildable()
    ensures var fs := Map(rs, TO_FRAME);
            AllValid(fs) &&
            (8 <= |FramesBytes(fs)| ==>
              && InBounds(FramesBytes(fs))
              && Parsed(FramesBytes(fs), r)
                 == Reading(r.blocks + BlocksPutIn(rs), LastReporter(rs, r.ssrc), r.count + |BlocksPutIn(rs)|))
  {
    hide FramesBytes, Walk;
    ReportsReadBack(rs, r.ssrc);
    var fs := Map(rs, TO_FRAME);
    if 8 <= |FramesBytes(fs)| {
      ParseCompound(fs, r);
    }
  }
}
