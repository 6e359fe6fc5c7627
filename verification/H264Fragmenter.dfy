// H.264 FU-A fragmentation and reassembly (H264Fragmenter in src/rtp/rtp_packet.cpp).
//
// A byte's bit fields are written arithmetically: b & 0xE0 is b / 32 * 32, b & 0x1F is b % 32,
// and an "or" of disjoint fields is their sum.
module H264 {
  import opened Words

  const MAX_PAYLOAD := 1460
  // What is left of MAX_PAYLOAD after the RTP header, the FU indicator and the FU header.
  const MAX_FU_PAYLOAD := 1446
  const FU_A := 28

  function Min(a: nat, b: nat): nat { if a <= b then a else b }

  function Ceil(a: nat, b: nat): nat
    requires b > 0
  {
    (a + b - 1) / b
  }

  // ---- Fragment, in closed form ----

  function FuIndicator(nalHeader: byte): byte { nalHeader / 32 * 32 + FU_A }

  function FuHeader(nalHeader: byte, start: bool, end: bool): byte {
    (if start then 0x80 else 0) + (if end then 0x40 else 0) + nalHeader % 32
  }

  function FragmentCount(nal: seq<byte>): nat
    requires nal != []
  {
    Ceil(|nal| - 1, MAX_FU_PAYLOAD)
  }

  // The bytes of the NAL unit that fragment i carries.
  function Chunk(nal: seq<byte>, i: nat): (c: seq<byte>)
    requires nal != [] && i < FragmentCount(nal)
    ensures 0 < |c| <= MAX_FU_PAYLOAD
  {
    nal[1 + i * MAX_FU_PAYLOAD..Min(|nal|, 1 + (i + 1) * MAX_FU_PAYLOAD)]
  }

  function FragmentAt(nal: seq<byte>, i: nat): seq<byte>
    requires nal != [] && i < FragmentCount(nal)
  {
    [FuIndicator(nal[0]), FuHeader(nal[0], i == 0, i == FragmentCount(nal) - 1)] + Chunk(nal, i)
  }

  function FirstFragments(nal: seq<byte>, k: nat): (fs: seq<seq<byte>>)
    requires nal != [] && k <= FragmentCount(nal)
    ensures |fs| == k && forall i :: 0 <= i < k ==> fs[i] == FragmentAt(nal, i)
  {
    seq(k, i requires 0 <= i < k => FragmentAt(nal, i))
  }

  function Fragments(nal: seq<byte>, mtu: nat): seq<seq<byte>> {
    if |nal| <= mtu then [nal] else FirstFragments(nal, FragmentCount(nal))
  }

  method Fragment(nal: seq<byte>, mtu: nat) returns (fragments: seq<seq<byte>>)
    ensures fragments == Fragments(nal, mtu)
  {
    fragments := [];
    if |nal| <= mtu {
      return [nal];
    }
    var nalHeader := nal[0];
    var fuIndicator := FuIndicator(nalHeader);
    var nalPayload := nal[1..];
    var offset, first := 0, true;
    while offset < |nalPayload|
      invariant |fragments| <= FragmentCount(nal)
      invariant offset == Min(|nalPayload|, |fragments| * MAX_FU_PAYLOAD)
      invariant offset == |nalPayload| <==> |fragments| == FragmentCount(nal)
      invariant first <==> fragments == []
      invariant forall i :: 0 <= i < |fragments| ==> fragments[i] == FragmentAt(nal, i)
    {
      var chunk := Min(MAX_FU_PAYLOAD, |nalPayload| - offset);
      var fuHeader: int := nalHeader % 32;
      if first {
        fuHeader := fuHeader + 0x80;
        first := false;
      }
      if |nalPayload| <= offset + chunk {
        fuHeader := fuHeader + 0x40;
      }
      ghost var k := |fragments|;
      assert offset == k * MAX_FU_PAYLOAD && nalPayload[offset..offset + chunk] == Chunk(nal, k);
      assert fuHeader == FuHeader(nalHeader, k == 0, k == FragmentCount(nal) - 1);
      var fragment := [fuIndicator, fuHeader] + nalPayload[offset..offset + chunk];
      assert fragment == FragmentAt(nal, |fragments|);
      fragments := fragments + [fragment];
      offset := offset + chunk;
    }
  }

  // ---- Defragment ----

  // A fragment without its two FU octets; a shorter one is skipped.
  function Body(fragment: seq<byte>): seq<byte> { if |fragment| < 2 then [] else fragment[2..] }

  function Bodies(fragments: seq<seq<byte>>): seq<byte> {
    if fragments == [] then [] else Bodies(fragments[..|fragments| - 1]) + Body(fragments[|fragments| - 1])
  }

  // The NAL header is rebuilt from the first fragment alone.
  function RebuiltHeader(fragments: seq<seq<byte>>): seq<byte> {
    if fragments == [] || |fragments[0]| < 2 then []
    else [fragments[0][0] / 32 * 32 + fragments[0][1] % 32]
  }

  function Defragmented(fragments: seq<seq<byte>>): seq<byte> {
    RebuiltHeader(fragments) + Bodies(fragments)
  }

  lemma NoBodies()
    ensures Bodies([]) == []
  {
  }

  lemma OneMoreBody(fragments: seq<seq<byte>>, i: nat)
    requires i < |fragments|
    ensures Bodies(fragments[..i + 1]) == Bodies(fragments[..i]) + Body(fragments[i])
  {
    hide Body;
    assert fragments[..i + 1][..i] == fragments[..i];
  }

  lemma HeaderIs(fragments: seq<seq<byte>>)
    requires fragments != []
    ensures var first := fragments[0];
            RebuiltHeader(fragments) == if |first| < 2 then [] else [first[0] / 32 * 32 + first[1] % 32]
  {
  }

  /** Without fragments it fails and leaves the caller's vector as it was. */
  method Defragment(fragments: seq<seq<byte>>, previous: seq<byte>) returns (ok: bool, completeNal: seq<byte>)
    ensures ok <==> fragments != []
    ensures completeNal == if ok then Defragmented(fragments) else previous
  {
    hide Bodies, RebuiltHeader;
    completeNal := previous;
    if fragments == [] {
      return false, completeNal;
    }
    completeNal := [];
    assert fragments[..0] == [] && Bodies([]) == [] by { NoBodies(); }
    for i := 0 to |fragments|
      invariant completeNal == (if i == 0 then [] else RebuiltHeader(fragments)) + Bodies(fragments[..i])
    {
      var fragment := fragments[i];
      OneMoreBody(fragments, i);
      HeaderIs(fragments);
      if |fragment| < 2 {
        continue;
      }
      var nalHeader := fragment[0] / 32 * 32 + fragment[1] % 32;
      if i == 0 {
        completeNal := completeNal + [nalHeader];
      }
      completeNal := completeNal + fragment[2..];
    }
    assert fragments[..|fragments|] == fragments;
    ok := true;
  }

  // ---- Properties ----

  lemma {:induction false} BodiesOfFragments(nal: seq<byte>, k: nat)
    requires nal != [] && k <= FragmentCount(nal)
    ensures Bodies(FirstFragments(nal, k)) == nal[1..Min(|nal|, 1 + k * MAX_FU_PAYLOAD)]
  {
    hide Bodies, Body, FragmentAt, FirstFragments, Chunk, FragmentCount;
    if k == 0 {
      NoBodies();
      assert FirstFragments(nal, 0) == [];
    } else {
      FragmentBody(nal, k - 1);
      ChunkAfter(nal, k - 1);
      var fs := FirstFragments(nal, k);
      OneMoreBody(fs, k - 1);
      assert fs[..k] == fs;
      FirstOfFirst(nal, k - 1, k);
      BodiesOfFragments(nal, k - 1);
    }
  }

  lemma FragmentBody(nal: seq<byte>, i: nat)
    requires nal != [] && i < FragmentCount(nal)
    ensures Body(FragmentAt(nal, i)) == Chunk(nal, i)
  {
    hide Chunk, FragmentCount, FuIndicator, FuHeader;
  }

  lemma ChunkAfter(nal: seq<byte>, i: nat)
    requires nal != [] && i < FragmentCount(nal)
    ensures nal[1..Min(|nal|, 1 + i * MAX_FU_PAYLOAD)] + Chunk(nal, i)
            == nal[1..Min(|nal|, 1 + (i + 1) * MAX_FU_PAYLOAD)]
  {
    CutInside(nal, i);
    hide FragmentCount;
  }

  /** Defragment undoes Fragment exactly for the NAL units that really are fragmented, and the
      empty one: a unit passed through whole is misread as a fragment. */
  lemma DefragmentInvertsFragment(nal: seq<byte>, mtu: nat)
    ensures Fragments(nal, mtu) != [] && Defragmented(Fragments(nal, mtu)) == nal
            <==> nal == [] || (2 <= |nal| && mtu < |nal|)
  {
    if |nal| <= mtu {
      SentWholeIsMisread(nal);
    } else if |nal| == 1 {
      assert FirstFragments(nal, 0) == [];
    } else {
      FragmentedComesBack(nal);
    }
  }

  lemma FragmentedComesBack(nal: seq<byte>)
    requires 2 <= |nal|
    ensures FragmentCount(nal) > 0 && Defragmented(FirstFragments(nal, FragmentCount(nal))) == nal
  {
    assert FragmentCount(nal) > 0;
    hide FragmentCount, FragmentAt, FirstFragments, Bodies, Defragmented;
    HeaderOfAny(nal, 0);
    AllBodies(nal, 0);
    ComesBack(nal, FirstFragments(nal, FragmentCount(nal)));
  }

  lemma ComesBack(nal: seq<byte>, fs: seq<seq<byte>>)
    requires nal != [] && fs != [] && Bodies(fs) == nal[1..]
    requires 2 <= |fs[0]| && fs[0][0] / 32 * 32 + fs[0][1] % 32 == nal[0]
    ensures Defragmented(fs) == nal
  {
    hide Bodies;
    HeaderIs(fs);
    assert nal == [nal[0]] + nal[1..];
  }

  // A unit sent whole is taken for a fragment and loses its first two bytes to the header.
  lemma SentWholeIsMisread(nal: seq<byte>)
    ensures Defragmented([nal]) == nal <==> nal == []
  {
    assert [nal][..0] == [];
    assert Bodies([nal]) == Body(nal);
    if 2 <= |nal| {
      assert |Defragmented([nal])| == |nal| - 1;
    }
  }

  lemma {:induction false} BodiesConcat(a: seq<seq<byte>>, b: seq<seq<byte>>)
    ensures Bodies(a + b) == Bodies(a) + Bodies(b)
    decreases |b|
  {
    hide Body;
    if b == [] {
      assert a + b == a;
    } else {
      var s, init := a + b, b[..|b| - 1];
      assert s[..|s| - 1] == a + init;
      BodiesConcat(a, init);
      assert Bodies(s) == Bodies(a) + Bodies(init) + Body(b[|b| - 1]);
    }
  }

  /** The unit with its bytes from fragment k on in front of those of the first k. */
  function Rotated(nal: seq<byte>, k: nat): seq<byte>
    requires 1 + k * MAX_FU_PAYLOAD <= |nal|
  {
    [nal[0]] + nal[1 + k * MAX_FU_PAYLOAD..] + nal[1..1 + k * MAX_FU_PAYLOAD]
  }

  /** Reassembly of any fragments, one after the other: the first gives the header, if it has both FU
      octets; each gives what follows them. */
  lemma DefragmentOne(fragment: seq<byte>)
    ensures Defragmented([fragment]) ==
            if |fragment| < 2 then [] else [fragment[0] / 32 * 32 + fragment[1] % 32] + fragment[2..]
  {
    assert [fragment][..0] == [];
    assert Bodies([fragment]) == Body(fragment);
  }

  lemma DefragmentMore(fragments: seq<seq<byte>>, fragment: seq<byte>)
    requires fragments != []
    ensures Defragmented(fragments + [fragment]) ==
            Defragmented(fragments) + if |fragment| < 2 then [] else fragment[2..]
  {
    hide Bodies, RebuiltHeader;
    var all := fragments + [fragment];
    assert all[..|fragments|] == fragments && all[..|fragments| + 1] == all;
    HeaderIs(all);
    HeaderIs(fragments);
    assert RebuiltHeader(all) == RebuiltHeader(fragments);
    OneMoreBody(all, |fragments|);
    hide Body;
  }

  /** Fragments that arrive from fragment k on first, then the first k, reassemble to the rotated unit:
      any fragment gives the header. */
  lemma RotatedReassembly(nal: seq<byte>, k: nat)
    requires nal != [] && 0 < k < FragmentCount(nal)
    ensures 1 + k * MAX_FU_PAYLOAD < |nal|
    ensures var fs := FirstFragments(nal, FragmentCount(nal)); Defragmented(fs[k..] + fs[..k]) == Rotated(nal, k)
  {
    hide FragmentAt, Bodies, FragmentCount, FirstFragments, Defragmented, Rotated;
    BodiesSplit(nal, k);
    HeaderOfAny(nal, k);
    var fs := FirstFragments(nal, FragmentCount(nal));
    assert fs[k] == FragmentAt(nal, k);
    Reassembled(nal, k, fs[..k], fs[k..]);
  }

  lemma Reassembled(nal: seq<byte>, k: nat, front: seq<seq<byte>>, back: seq<seq<byte>>)
    requires 1 + k * MAX_FU_PAYLOAD < |nal| && back != []
    requires 2 <= |back[0]| && back[0][0] / 32 * 32 + back[0][1] % 32 == nal[0]
    requires var cut := 1 + k * MAX_FU_PAYLOAD; Bodies(front) == nal[1..cut] && Bodies(back) == nal[cut..]
    ensures Defragmented(back + front) == Rotated(nal, k)
  {
    hide Bodies;
    HeaderIs(back + front);
    BodiesConcat(back, front);
  }

  lemma CutInside(nal: seq<byte>, k: nat)
    requires nal != [] && k < FragmentCount(nal)
    ensures 1 + k * MAX_FU_PAYLOAD < |nal| <= 1 + FragmentCount(nal) * MAX_FU_PAYLOAD
  {
  }

  lemma BodiesSplit(nal: seq<byte>, k: nat)
    requires nal != [] && k < FragmentCount(nal)
    ensures 1 + k * MAX_FU_PAYLOAD < |nal|
    ensures var fs, cut := FirstFragments(nal, FragmentCount(nal)), 1 + k * MAX_FU_PAYLOAD;
            Bodies(fs[..k]) == nal[1..cut] && Bodies(fs[k..]) == nal[cut..]
  {
    hide FragmentCount, Bodies, FragmentAt, FirstFragments, Min;
    AllBodies(nal, k);
    var fs := FirstFragments(nal, FragmentCount(nal));
    FirstOfFirst(nal, k, FragmentCount(nal));
    BodiesOfRest(nal, fs, k, 1 + k * MAX_FU_PAYLOAD);
  }

  lemma AllBodies(nal: seq<byte>, k: nat)
    requires nal != [] && k < FragmentCount(nal)
    ensures 1 + k * MAX_FU_PAYLOAD < |nal|
    ensures Bodies(FirstFragments(nal, FragmentCount(nal))) == nal[1..]
    ensures Bodies(FirstFragments(nal, k)) == nal[1..1 + k * MAX_FU_PAYLOAD]
  {
    CutInside(nal, k);
    hide FragmentCount, Bodies, FirstFragments;
    BodiesOfFragments(nal, FragmentCount(nal));
    BodiesOfFragments(nal, k);
  }

  lemma FirstOfFirst(nal: seq<byte>, k: nat, n: nat)
    requires nal != [] && k <= n <= FragmentCount(nal)
    ensures FirstFragments(nal, n)[..k] == FirstFragments(nal, k)
  {
    hide FragmentCount, FragmentAt, FirstFragments;
  }

  lemma BodiesOfRest(nal: seq<byte>, fs: seq<seq<byte>>, k: nat, cut: nat)
    requires k <= |fs| && 1 <= cut <= |nal|
    requires Bodies(fs) == nal[1..] && Bodies(fs[..k]) == nal[1..cut]
    ensures Bodies(fs[k..]) == nal[cut..]
  {
    hide Bodies;
    assert fs == fs[..k] + fs[k..];
    BodiesConcat(fs[..k], fs[k..]);
    assert nal[1..] == nal[1..cut] + Bodies(fs[k..]);
    assert nal[cut..] == nal[1..][cut - 1..];
  }

  lemma HeaderOfAny(nal: seq<byte>, k: nat)
    requires nal != [] && k < FragmentCount(nal)
    ensures var f := FragmentAt(nal, k); 2 <= |f| && f[0] / 32 * 32 + f[1] % 32 == nal[0]
  {
    FuFlags(nal[0], k == 0, k == FragmentCount(nal) - 1);
  }

  /** Shape of a fragmented NAL unit: ceil((n-1)/1446) fragments, all but the last of 1448 bytes and the
      last no longer; type 28 and the NRI bits of the unit in the first octet, its type in the second; the
      S bit on the first only, the E bit on the last only, together only when there is one fragment. */
  lemma FragmentShape(nal: seq<byte>, mtu: nat)
    requires 2 <= |nal| && mtu < |nal|
    ensures var fs := Fragments(nal, mtu);
            && |fs| == (|nal| - 2) / 1446 + 1
            && (forall i :: 0 <= i < |fs| ==> 2 < |fs[i]| <= 1448 && (i < |fs| - 1 ==> |fs[i]| == 1448))
            && (forall i :: 0 <= i < |fs| ==> fs[i][0] % 32 == 28 && fs[i][0] / 32 == nal[0] / 32)
            && (forall i :: 0 <= i < |fs| ==> fs[i][1] % 32 == nal[0] % 32 && fs[i][1] / 32 % 2 == 0)
            && (forall i :: 0 <= i < |fs| ==> (fs[i][1] / 128 == 1 <==> i == 0))
            && (forall i :: 0 <= i < |fs| ==> (fs[i][1] / 64 % 2 == 1 <==> i == |fs| - 1))
            && (1460 <= mtu ==> |fs| >= 2)
  {
    var fs := Fragments(nal, mtu);
    CountIs(|nal|);
    forall i | 0 <= i < |fs|
      ensures 2 < |fs[i]| <= 1448 && (i < |fs| - 1 ==> |fs[i]| == 1448)
      ensures fs[i][0] % 32 == 28 && fs[i][0] / 32 == nal[0] / 32
      ensures fs[i][1] % 32 == nal[0] % 32 && fs[i][1] / 32 % 2 == 0
      ensures (fs[i][1] / 128 == 1 <==> i == 0) && (fs[i][1] / 64 % 2 == 1 <==> i == |fs| - 1)
    {
      ChunkSize(nal, i);
      hide Chunk, FragmentCount, FuIndicator, FuHeader;
      assert fs[i] == FragmentAt(nal, i);
      FuFlags(nal[0], i == 0, i == |fs| - 1);
    }
  }

  lemma CountIs(n: nat)
    requires 2 <= n
    ensures Ceil(n - 1, 1446) == (n - 2) / 1446 + 1
  {
  }

  lemma ChunkSize(nal: seq<byte>, i: nat)
    requires nal != [] && i < FragmentCount(nal)
    ensures 0 < |Chunk(nal, i)| <= 1446 && (i < FragmentCount(nal) - 1 ==> |Chunk(nal, i)| == 1446)
  {
    CutInside(nal, i);
    if i < FragmentCount(nal) - 1 {
      CutInside(nal, i + 1);
    }
    hide FragmentCount;
  }

  lemma FuFlags(nalHeader: byte, start: bool, end: bool)
    ensures FuIndicator(nalHeader) % 32 == 28 && FuIndicator(nalHeader) / 32 == nalHeader / 32
    ensures FuHeader(nalHeader, start, end) / 128 == 1 <==> start
    ensures FuHeader(nalHeader, start, end) / 64 % 2 == 1 <==> end
    ensures FuHeader(nalHeader, start, end) % 32 == nalHeader % 32 && FuHeader(nalHeader, start, end) / 32 % 2 == 0
  {
  }

  /** SendVideoFrame sends a unit of at most 1460 bytes whole and fragments any longer one; every fragment
      it produces fits an RTP datagram of at most 1472 bytes. */
  lemma FragmentsFit(nal: seq<byte>)
    ensures forall f :: f in Fragments(nal, MAX_PAYLOAD) ==> |f| <= 1460
    ensures if |nal| <= 1460 then Fragments(nal, MAX_PAYLOAD) == [nal] else |Fragments(nal, MAX_PAYLOAD)| >= 2
  {
    if MAX_PAYLOAD < |nal| {
      FragmentShape(nal, MAX_PAYLOAD);
    }
  }
}
