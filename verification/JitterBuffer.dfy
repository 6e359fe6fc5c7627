// The adaptive jitter buffer (src/rtp/jitter_buffer.cpp): its operations as a transition
// relation, and the class that carries them out.
//
// Times are nanoseconds of a monotone clock. The jitter estimate that each arrival produces
// is an arbitrary 32-bit input.
module JitterBuffers {
  import opened Words
  import opened Sequences
  import opened RtpPackets

  const MAX_BUFFER_SIZE := 500

  datatype Config = Config(minDelay: uint32, maxDelay: uint32, initialDelay: uint32)

  datatype Item = Item(packet: Packet, arrival: int, ready: bool)

  datatype State = State(
    items: seq<Item>, expected: uint16, initialized: bool, delay: uint32,
    lost: uint32, inserted: uint32, extracted: uint32)

  function Initial(cfg: Config): State {
    State([], 0, false, cfg.initialDelay, 0, 0, 0)
  }

  // ---- Sequence tracking ----

  // How far seq is ahead of the expected number, modulo 2^16.
  function Gap(expected: uint16, seq16: uint16): uint16 { Wrap16(seq16 - expected) }

  function GapLoss(expected: uint16, seq16: uint16): nat {
    if Gap(expected, seq16) < 100 then Gap(expected, seq16) else 0
  }

  function NextExpected(expected: uint16, seq16: uint16): uint16 {
    if Signed16(seq16 - expected) >= 0 then Wrap16(seq16 + 1) else expected
  }

  // ---- Order ----

  ghost predicate Sorted(items: seq<Item>) {
    forall i, j :: 0 <= i < j < |items| ==> items[i].packet.Sequence() <= items[j].packet.Sequence()
  }

  /** All that std::sort promises: the same items, in non-decreasing order of the raw number. */
  ghost predicate SortedPermutation(before: seq<Item>, after: seq<Item>) {
    multiset(before) == multiset(after) && Sorted(after)
  }

  // ---- Readiness and delay ----

  function Mark(item: Item, now: int, delay: uint32): Item {
    item.(ready := Millis32(now - item.arrival) >= delay)
  }

  function Marked(items: seq<Item>, now: int, delay: uint32): (r: seq<Item>)
    ensures |r| == |items| && forall i :: 0 <= i < |r| ==> r[i] == Mark(items[i], now, delay)
  {
    seq(|items|, i requires 0 <= i < |items| => Mark(items[i], now, delay))
  }

  function Depth(items: seq<Item>): uint32 {
    if |items| < 2 then 0 else Millis32(items[|items| - 1].arrival - items[0].arrival)
  }

  function Min(a: uint32, b: uint32): uint32 { if b < a then b else a }
  function Max(a: uint32, b: uint32): uint32 { if b > a then b else a }

  // Ten up while jitter exceeds the delay, five down while the buffer is shallow; both steps
  // are computed in uint32_t and then clamped.
  function Adapted(cfg: Config, delay: uint32, jitter: uint32, depth: uint32): uint32 {
    if jitter > delay then Min(cfg.maxDelay, Wrap32(delay + 10))
    else if delay > cfg.minDelay && depth < delay / 2 then Max(cfg.minDelay, Wrap32(delay - 5))
    else delay
  }

  // ---- The three operations as relations between states ----

  function Overflow(items: seq<Item>): nat {
    if |items| > MAX_BUFFER_SIZE then |items| - MAX_BUFFER_SIZE else 0
  }

  // The number the tracking expects: the first packet after a start or a reset sets it.
  function Base(s: State, packet: Packet): uint16 {
    if s.initialized then s.expected else packet.Sequence()
  }

  function Arrived(s: State, packet: Packet, now: int): seq<Item> {
    s.items + [Item(packet, now, false)]
  }

  /** The state after inserting `packet`, when sorting left the buffer as `sorted`. */
  function AfterInsert(cfg: Config, s: State, packet: Packet, now: int, jitter: uint32, sorted: seq<Item>): State {
    var base := Base(s, packet);
    var evicted := Overflow(sorted);
    State(Marked(sorted, now, s.delay)[evicted..],
          NextExpected(base, packet.Sequence()), true,
          Adapted(cfg, s.delay, jitter, Depth(sorted)),
          Wrap32(Wrap32(s.lost + GapLoss(base, packet.Sequence())) + evicted),
          Wrap32(s.inserted + 1), s.extracted)
  }

  /** The item Extract takes: the first ready one. */
  ghost predicate FirstReady(items: seq<Item>, k: nat) {
    k < |items| && items[k].ready && forall i :: 0 <= i < k ==> !items[i].ready
  }

  ghost predicate NoneReady(items: seq<Item>) {
    forall i :: 0 <= i < |items| ==> !items[i].ready
  }

  function AfterExtract(s: State, k: nat): State
    requires k < |s.items|
  {
    s.(items := s.items[..k] + s.items[k + 1..], extracted := Wrap32(s.extracted + 1))
  }

  function AfterReset(cfg: Config, s: State): State {
    s.(items := [], initialized := false, expected := 0, delay := cfg.initialDelay, lost := 0)
  }

  // ---- The class ----

  class JitterBuffer {
    const cfg: Config
    var buffer: seq<Item>
    var expectedSeq: uint16
    var initialized: bool
    var currentDelay: uint32
    var packetsLost: uint32
    var packetsInserted: uint32
    var packetsExtracted: uint32

    function Value(): State
      reads this
    {
      State(buffer, expectedSeq, initialized, currentDelay, packetsLost, packetsInserted, packetsExtracted)
    }

    constructor (cfg: Config)
      ensures this.cfg == cfg && Value() == Initial(cfg)
    {
      this.cfg := cfg;
      buffer, expectedSeq, initialized, currentDelay := [], 0, false, cfg.initialDelay;
      packetsLost, packetsInserted, packetsExtracted := 0, 0, 0;
    }

    // Stands in for std::sort; callers rely on no more than its promise.
    method SortBuffer()
      modifies this`buffer
      ensures SortedPermutation(old(buffer), buffer) && |buffer| == |old(buffer)|
    {
      var sorted: seq<Item> := [];
      for i := 0 to |buffer|
        invariant buffer == old(buffer)
        invariant SortedPermutation(buffer[..i], sorted)
      {
        assert buffer[..i + 1] == buffer[..i] + [buffer[i]];
        sorted := InsertSorted(sorted, buffer[i]);
      }
      assert buffer[..|buffer|] == buffer;
      SameMultisetSameLength(buffer, sorted);
      buffer := sorted;
    }

    /** `now` is the clock reading and `jitter` the jitter estimate of this arrival. */
    method Insert(packet: Packet, now: int, jitter: uint32) returns (ghost sorted: seq<Item>)
      requires |buffer| <= MAX_BUFFER_SIZE
      modifies this
      ensures SortedPermutation(old(Arrived(Value(), packet, now)), sorted)
      ensures Value() == old(AfterInsert(cfg, Value(), packet, now, jitter, sorted))
      ensures |buffer| <= MAX_BUFFER_SIZE
    {
      hide Marked, Adapted, NextExpected, GapLoss, Depth, Overflow, SortedPermutation, Wrap32;
      TrackSequence(packet.Sequence());
      sorted := PushSorted(Item(packet, now, false));
      Settle(now, jitter);
    }

    // Insert, step by step: queue the packet and count it.
    method PushSorted(item: Item) returns (ghost sorted: seq<Item>)
      modifies this`buffer, this`packetsInserted
      ensures SortedPermutation(old(buffer) + [item], sorted)
      ensures buffer == sorted && |sorted| == old(|buffer|) + 1
      ensures packetsInserted == Wrap32(old(packetsInserted) + 1)
    {
      buffer := buffer + [item];
      packetsInserted := Wrap32(packetsInserted + 1);
      SortBuffer();
      sorted := buffer;
    }

    // Insert: mark, adapt the delay, evict.
    method Settle(now: int, jitter: uint32)
      requires |buffer| <= MAX_BUFFER_SIZE + 1
      modifies this`buffer, this`currentDelay, this`packetsLost
      ensures buffer == Marked(old(buffer), now, old(currentDelay))[Overflow(old(buffer))..]
      ensures currentDelay == Adapted(cfg, old(currentDelay), jitter, Depth(old(buffer)))
      ensures packetsLost == Wrap32(old(packetsLost) + Overflow(old(buffer)))
      ensures |buffer| <= MAX_BUFFER_SIZE
    {
      var bufferDepth := GetBufferDepthMs();
      MarkReady(now);
      AdaptDelay(jitter, bufferDepth);
      EvictOverflow();
    }

    // Insert: loss accounting and the expected number.
    method TrackSequence(seq16: uint16)
      modifies this`initialized, this`expectedSeq, this`packetsLost
      ensures initialized
      ensures var base := if old(initialized) then old(expectedSeq) else seq16;
              && expectedSeq == NextExpected(base, seq16)
              && packetsLost == Wrap32(old(packetsLost) + GapLoss(base, seq16))
    {
      if !initialized {
        expectedSeq, initialized := seq16, true;
      }
      var gap := Wrap16(seq16 - expectedSeq);
      if 0 < gap < 100 {
        packetsLost := Wrap32(packetsLost + gap);
      }
      if Signed16(seq16 - expectedSeq) >= 0 {
        expectedSeq := Wrap16(seq16 + 1);
      }
    }

    // Insert: re-mark every item against the current delay.
    method MarkReady(now: int)
      modifies this`buffer
      ensures buffer == Marked(old(buffer), now, currentDelay)
    {
      for i := 0 to |buffer|
        invariant |buffer| == |old(buffer)|
        invariant forall j :: 0 <= j < i ==> buffer[j] == Mark(old(buffer)[j], now, currentDelay)
        invariant forall j :: i <= j < |buffer| ==> buffer[j] == old(buffer)[j]
      {
        var waitMs := Millis(now - buffer[i].arrival);
        buffer := buffer[i := buffer[i].(ready := Wrap32(waitMs) >= currentDelay)];
      }
    }

    // Insert: adapt the delay.
    method AdaptDelay(jitter: uint32, bufferDepth: uint32)
      modifies this`currentDelay
      ensures currentDelay == Adapted(cfg, old(currentDelay), jitter, bufferDepth)
    {
      if jitter > currentDelay {
        currentDelay := Min(cfg.maxDelay, Wrap32(currentDelay + 10));
      } else if currentDelay > cfg.minDelay && bufferDepth < currentDelay / 2 {
        currentDelay := Max(cfg.minDelay, Wrap32(currentDelay - 5));
      }
    }

    // Insert: drop the front while the buffer is over its bound.
    method EvictOverflow()
      modifies this`buffer, this`packetsLost
      ensures buffer == old(buffer)[Overflow(old(buffer))..]
      ensures packetsLost == Wrap32(old(packetsLost) + Overflow(old(buffer)))
    {
      ghost var evicted := 0;
      while |buffer| > MAX_BUFFER_SIZE
        invariant evicted <= Overflow(old(buffer)) && buffer == old(buffer)[evicted..]
        invariant packetsLost == Wrap32(old(packetsLost) + evicted)
      {
        buffer := buffer[1..];
        packetsLost := Wrap32(packetsLost + 1);
        WrapAdds(old(packetsLost) + evicted, 1);
        evicted := evicted + 1;
      }
    }

    /** Takes the first ready packet; `k` is where it was. */
    method Extract() returns (packet: Option<Packet>, ghost k: nat)
      modifies this
      ensures packet.None? ==> old(NoneReady(buffer)) && Value() == old(Value())
      ensures packet.Some? ==>
                && FirstReady(old(buffer), k) && packet.value == old(buffer)[k].packet
                && Value() == AfterExtract(old(Value()), k)
    {
      packet, k := None, 0;
      for i := 0 to |buffer|
        invariant forall j :: 0 <= j < i ==> !buffer[j].ready
        invariant packet.None? && Value() == old(Value())
      {
        if buffer[i].ready {
          packet, k := Some(buffer[i].packet), i;
          buffer := buffer[..i] + buffer[i + 1..];
          packetsExtracted := Wrap32(packetsExtracted + 1);
          return;
        }
      }
    }

    method GetBufferDepthMs() returns (depth: uint32)
      ensures depth == Depth(buffer)
    {
      if |buffer| < 2 {
        return 0;
      }
      depth := Wrap32(Millis(buffer[|buffer| - 1].arrival - buffer[0].arrival));
    }

    method Reset()
      modifies this
      ensures Value() == AfterReset(cfg, old(Value()))
    {
      buffer, initialized, expectedSeq := [], false, 0;
      currentDelay, packetsLost := cfg.initialDelay, 0;
    }
  }

  method InsertSorted(items: seq<Item>, x: Item) returns (r: seq<Item>)
    requires Sorted(items)
    ensures SortedPermutation(items + [x], r)
  {
    var k := |items|;
    while 0 < k && x.packet.Sequence() < items[k - 1].packet.Sequence()
      invariant 0 <= k <= |items|
      invariant forall i :: k <= i < |items| ==> x.packet.Sequence() <= items[i].packet.Sequence()
    {
      k := k - 1;
    }
    r := items[..k] + [x] + items[k..];
    SplicedSorted(items, x, k);
  }

  lemma SplicedPermutation(items: seq<Item>, x: Item, k: nat)
    requires k <= |items|
    ensures multiset(items + [x]) == multiset(items[..k] + [x] + items[k..])
  {
    assert items == items[..k] + items[k..];
  }

  lemma SplicedSorted(items: seq<Item>, x: Item, k: nat)
    requires k <= |items| && Sorted(items)
    requires 0 < k ==> items[k - 1].packet.Sequence() <= x.packet.Sequence()
    requires forall i :: k <= i < |items| ==> x.packet.Sequence() <= items[i].packet.Sequence()
    ensures SortedPermutation(items + [x], items[..k] + [x] + items[k..])
  {
    SplicedPermutation(items, x, k);
    var r := items[..k] + [x] + items[k..];
    forall i, j | 0 <= i < j < |r|
      ensures r[i].packet.Sequence() <= r[j].packet.Sequence()
    {
      if 0 < k && i < k <= j {
        assert items[i].packet.Sequence() <= items[k - 1].packet.Sequence();
      }
    }
  }
}
