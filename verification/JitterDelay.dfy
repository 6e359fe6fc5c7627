// How the playout delay adapts, and what Reset leaves.
module JitterDelay {
  import opened Words
  import opened Sequences
  import opened RtpPackets
  import opened JitterBuffers
  import opened JitterRuns
  import opened JitterPlayout

  /** What an insertion makes of the delay. `sorted` is the buffer before eviction: jitter above the
      delay raises it by 10 ms, up to the maximum; otherwise a delay above the minimum is lowered by
      5 ms, down to the minimum, if the last and the first packet arrived less than half of it apart. */
  lemma InsertAdapts(cfg: Config, h: History, e: Event, h': History) returns (sorted: seq<Item>)
    requires Step(cfg, h, e, h') && e.Insert?
    ensures SortedPermutation(Arrived(h.s, e.packet, e.now), sorted) && |sorted| == |h.s.items| + 1
    ensures |h'.s.items| <= |sorted|
    ensures var cut := |sorted| - |h'.s.items|;
            forall i :: 0 <= i < |h'.s.items| ==>
              h'.s.items[i].packet == sorted[cut + i].packet && h'.s.items[i].arrival == sorted[cut + i].arrival
    ensures e.jitter > h.s.delay ==>
              var raised := (h.s.delay + 10) % 0x1_0000_0000;
              h'.s.delay == if raised < cfg.maxDelay then raised else cfg.maxDelay
    ensures e.jitter <= h.s.delay ==>
              var span := Millis32(sorted[|sorted| - 1].arrival - sorted[0].arrival);
              var lowered := (h.s.delay - 5) % 0x1_0000_0000;
              h'.s.delay ==
                if h.s.delay <= cfg.minDelay || h.s.delay / 2 <= span then h.s.delay
                else if lowered > cfg.minDelay then lowered else cfg.minDelay
  {
    hide AfterInsert, Adapted, Depth, Marked, Millis32, Sorted, Packets, Wrap32, Overflow;
    sorted :| SortedPermutation(Arrived(h.s, e.packet, e.now), sorted) && h' == InsertInto(cfg, h, e, sorted);
    SameMultisetSameLength(Arrived(h.s, e.packet, e.now), sorted);
    hide SortedPermutation;
    InsertLeaves(cfg, h.s, e.packet, e.now, e.jitter, sorted);
    DelayLeft(cfg, h.s, e.packet, e.now, e.jitter, sorted);
    AdaptedIs(cfg, h.s.delay, e.jitter, sorted);
  }

  lemma DelayLeft(cfg: Config, s: State, packet: Packet, now: int, jitter: uint32, sorted: seq<Item>)
    ensures AfterInsert(cfg, s, packet, now, jitter, sorted).delay == Adapted(cfg, s.delay, jitter, Depth(sorted))
  {
    hide Adapted, NextExpected, GapLoss, Depth, Wrap32, Marked;
  }

  lemma AdaptedIs(cfg: Config, delay: uint32, jitter: uint32, sorted: seq<Item>)
    requires sorted != []
    ensures jitter > delay ==>
              var raised := (delay + 10) % 0x1_0000_0000;
              Adapted(cfg, delay, jitter, Depth(sorted)) == if raised < cfg.maxDelay then raised else cfg.maxDelay
    ensures jitter <= delay ==>
              var span := Millis32(sorted[|sorted| - 1].arrival - sorted[0].arrival);
              var lowered := (delay - 5) % 0x1_0000_0000;
              Adapted(cfg, delay, jitter, Depth(sorted)) ==
                if delay <= cfg.minDelay || delay / 2 <= span then delay
                else if lowered > cfg.minDelay then lowered else cfg.minDelay
  {
    NoSpan();
    hide Millis32;
  }

  lemma NoSpan()
    ensures Millis32(0) == 0
  {
  }

  lemma ExtractKeepsDelay(cfg: Config, h: History, h': History)
    requires Step(cfg, h, Extract, h')
    ensures h'.s.delay == h.s.delay && h'.inserted == h.inserted
  {
    hide Wrap32;
  }

  lemma InsertCounts(cfg: Config, h: History, e: Event, h': History)
    requires Step(cfg, h, e, h') && e.Insert?
    ensures h'.inserted == h.inserted + [e.packet]
  {
    hide AfterInsert, SortedPermutation;
  }

  /** While the measured jitter exceeds the maximum, every insertion takes the delay 10 ms up, until the
      maximum is reached. */
  lemma {:induction false} DelayRises(cfg: Config, hs: seq<History>, es: seq<Event>, n: nat)
    requires Run(cfg, hs, es) && n <= |es| && cfg.initialDelay <= cfg.maxDelay && cfg.maxDelay + 10 < 0x1_0000_0000
    requires forall i :: 0 <= i < n ==> !es[i].Reset? && (es[i].Insert? ==> es[i].jitter > cfg.maxDelay)
    ensures var raised := cfg.initialDelay + 10 * |hs[n].inserted|;
            hs[n].s.delay == if raised < cfg.maxDelay then raised else cfg.maxDelay
  {
    hide Step;
    if n > 0 {
      DelayRises(cfg, hs, es, n - 1);
      var h, e, h' := hs[n - 1], es[n - 1], hs[n];
      assert Step(cfg, h, e, h');
      if e.Insert? {
        var sorted := InsertAdapts(cfg, h, e, h');
        InsertCounts(cfg, h, e, h');
      } else {
        ExtractKeepsDelay(cfg, h, h');
      }
    }
  }

  /** And packets that arrive together without jitter take it 5 ms down each, until the minimum is reached. */
  lemma {:induction false} DelayFalls(cfg: Config, hs: seq<History>, es: seq<Event>, n: nat, now: int)
    requires Run(cfg, hs, es) && n <= |es| && 4 <= cfg.minDelay <= cfg.initialDelay
    requires forall i :: 0 <= i < n ==> !es[i].Reset? && (es[i].Insert? ==> es[i].jitter == 0 && es[i].now == now)
    ensures var lowered := cfg.initialDelay - 5 * |hs[n].inserted|;
            hs[n].s.delay == if lowered > cfg.minDelay then lowered else cfg.minDelay
  {
    hide Step, SortedPermutation;
    if n > 0 {
      DelayFalls(cfg, hs, es, n - 1, now);
      var h, e, h' := hs[n - 1], es[n - 1], hs[n];
      assert Step(cfg, h, e, h');
      if e.Insert? {
        var sorted := InsertAdapts(cfg, h, e, h');
        InsertCounts(cfg, h, e, h');
        ArrivedTogether(cfg, hs, es, n - 1, now, sorted);
        NoSpan();
      } else {
        ExtractKeepsDelay(cfg, h, h');
      }
    }
  }

  lemma ArrivedTogether(cfg: Config, hs: seq<History>, es: seq<Event>, n: nat, now: int, sorted: seq<Item>)
    requires Run(cfg, hs, es) && n < |es| && es[n].Insert? && es[n].now == now
    requires forall i :: 0 <= i < n && es[i].Insert? ==> es[i].now == now
    requires SortedPermutation(Arrived(hs[n].s, es[n].packet, now), sorted)
    ensures forall item :: item in sorted ==> item.arrival == now
  {
    hide Sorted;
    RunMarksExactly(cfg, hs, es, n);
    forall item | item in sorted
      ensures item.arrival == now
    {
      InPermutation(sorted, Arrived(hs[n].s, es[n].packet, now), item);
    }
  }

  /** Reset discards what is buffered and leaves a new buffer, but for the two counters. */
  lemma ResetStartsAnew(cfg: Config, h: History, h': History)
    requires Step(cfg, h, Reset, h')
    ensures h'.s == State([], 0, false, cfg.initialDelay, 0, h.s.inserted, h.s.extracted)
    ensures h'.discarded == h.discarded + Packets(h.s.items)
    ensures h'.delivered == h.delivered && h'.inserted == h.inserted
  {
  }

  lemma NoGap(seq16: uint16)
    ensures GapLoss(seq16, seq16) == 0 && NextExpected(seq16, seq16) == (seq16 + 1) % 0x1_0000
  {
  }

  /** The first packet after a start or a Reset sets the expected number, whatever it is. */
  lemma FirstPacketSetsNumber(cfg: Config, h: History, e: Event, h': History)
    requires Step(cfg, h, e, h') && e.Insert? && !h.s.initialized && |h.s.items| < 500
    ensures h'.s.initialized && h'.s.expected == (e.packet.Sequence() + 1) % 0x1_0000 && h'.s.lost == h.s.lost
  {
    hide Adapted, Depth, Mark, Marked, Sorted, Packets, GapLoss, NextExpected;
    var sorted :| SortedPermutation(Arrived(h.s, e.packet, e.now), sorted) && h' == InsertInto(cfg, h, e, sorted);
    SameMultisetSameLength(Arrived(h.s, e.packet, e.now), sorted);
    NoGap(e.packet.Sequence());
  }
}
