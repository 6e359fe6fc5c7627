// The server's receive loop (the descriptor callbacks of src/session/session_manager.cpp): each arrival
// is inserted into the jitter buffer, and then one packet is extracted.
module ReceiveLoop {
  import opened Words
  import opened Sequences
  import opened RtpPackets
  import opened JitterBuffers
  import opened JitterRuns

  ghost predicate OneInOneOut(es: seq<Event>, n: nat) {
    2 * n <= |es| && forall i :: 0 <= i < n ==> es[2 * i].Insert? && es[2 * i + 1].Extract?
  }

  lemma DrainStep(cfg: Config, h: History, e: Event, h': History)
    requires Step(cfg, h, e, h') && e.Extract? && h.s.items != [] && h.s.items[0].ready
    ensures h'.s.items == h.s.items[1..] && h'.delivered == h.delivered + [h.s.items[0].packet]
  {
    assert forall k: nat :: FirstReady(h.s.items, k) ==> k == 0;
  }

  // ---- The backlog ----

  // The packets buffered after i arrivals.
  function Backlog(hs: seq<History>, i: nat): nat
    requires 2 * i < |hs|
  {
    |hs[2 * i].s.items|
  }

  // Among the first n arrivals, those after which nothing was ready.
  ghost function Unready(hs: seq<History>, n: nat): nat
    requires 2 * n < |hs|
  {
    if n == 0 then 0 else Unready(hs, n - 1) + if NoneReady(hs[2 * n - 1].s.items) then 1 else 0
  }

  lemma InsertGrows(cfg: Config, h: History, e: Event, h': History)
    requires Step(cfg, h, e, h') && e.Insert? && |h.s.items| <= MAX_BUFFER_SIZE
    ensures |h'.s.items| + |h'.evicted| == |h.s.items| + |h.evicted| + 1
    ensures |h'.s.items| == if |h.s.items| < 500 then |h.s.items| + 1 else 500
  {
    hide Adapted, NextExpected, GapLoss, Depth, Wrap16, Wrap32, Sorted, Millis32, Mark;
    var sorted :| SortedPermutation(Arrived(h.s, e.packet, e.now), sorted) && h' == InsertInto(cfg, h, e, sorted);
    SameMultisetSameLength(Arrived(h.s, e.packet, e.now), sorted);
  }

  lemma ExtractShrinks(cfg: Config, h: History, e: Event, h': History)
    requires Step(cfg, h, e, h') && e.Extract?
    ensures h'.evicted == h.evicted
    ensures |h'.s.items| == if NoneReady(h.s.items) then |h.s.items| else |h.s.items| - 1
  {
    hide Wrap32;
  }

  // One arrival and one extraction.
  lemma OneTurn(cfg: Config, hs: seq<History>, es: seq<Event>, i: nat)
    requires Run(cfg, hs, es) && OneInOneOut(es, i + 1)
    ensures var out := if NoneReady(hs[2 * i + 1].s.items) then 0 else 1;
            && Backlog(hs, i + 1) + out == (if Backlog(hs, i) < MAX_BUFFER_SIZE then Backlog(hs, i) + 1
                                            else MAX_BUFFER_SIZE)
            && Backlog(hs, i + 1) + |hs[2 * i + 2].evicted| + out == Backlog(hs, i) + |hs[2 * i].evicted| + 1
            && Backlog(hs, i) <= MAX_BUFFER_SIZE
  {
    RunKeepsBuffer(cfg, hs, es, 2 * i);
    assert es[2 * i].Insert? && es[2 * i + 1].Extract?;
    assert Step(cfg, hs[2 * i], es[2 * i], hs[2 * i + 1]) && Step(cfg, hs[2 * i + 1], es[2 * i + 1], hs[2 * i + 2]);
    hide Run, Step, Conserved, Waited, NoneReady;
    InsertGrows(cfg, hs[2 * i], es[2 * i], hs[2 * i + 1]);
    ExtractShrinks(cfg, hs[2 * i + 1], es[2 * i + 1], hs[2 * i + 2]);
  }

  /** Over every run of the loop the backlog is one packet for each arrival after which nothing was
      ready, less what was evicted. */
  lemma {:induction false} BacklogCountsUnready(cfg: Config, hs: seq<History>, es: seq<Event>, n: nat)
    requires Run(cfg, hs, es) && OneInOneOut(es, n)
    ensures Backlog(hs, n) + |hs[2 * n].evicted| == Unready(hs, n)
  {
    hide NoneReady, Unready, Run, OneInOneOut, Backlog;
    if n == 0 {
      NothingYet(cfg, hs, es);
    } else {
      var i := n - 1;
      Shorter(es, n);
      assert 2 * i + 2 == 2 * n && |hs| == |es| + 1 by { RunLength(cfg, hs, es); }
      BacklogCountsUnready(cfg, hs, es, i);
      OneTurn(cfg, hs, es, i);
      OneMoreUnready(hs, i);
    }
  }

  lemma NothingYet(cfg: Config, hs: seq<History>, es: seq<Event>)
    requires Run(cfg, hs, es)
    ensures Backlog(hs, 0) == 0 == Unready(hs, 0) && hs[0].evicted == []
  {
  }

  lemma Shorter(es: seq<Event>, n: nat)
    requires 0 < n && OneInOneOut(es, n)
    ensures OneInOneOut(es, n - 1) && 2 * n <= |es|
  {
  }

  lemma OneMoreUnready(hs: seq<History>, i: nat)
    requires 2 * i + 2 < |hs|
    ensures Unready(hs, i + 1) == Unready(hs, i) + if NoneReady(hs[2 * i + 1].s.items) then 1 else 0
  {
    hide NoneReady;
  }

  /** A turn leaves the backlog as it was or, exactly when nothing is ready, one larger; only from the
      bound of 500, where each arrival evicts, does it stay or fall, to 499 when something is ready. */
  lemma TurnGrowsExactly(cfg: Config, hs: seq<History>, es: seq<Event>, i: nat)
    requires Run(cfg, hs, es) && OneInOneOut(es, i + 1)
    ensures Backlog(hs, i) < 500 ==>
              && Backlog(hs, i) <= Backlog(hs, i + 1) <= Backlog(hs, i) + 1
              && (Backlog(hs, i + 1) == Backlog(hs, i) + 1 <==> NoneReady(hs[2 * i + 1].s.items))
    ensures Backlog(hs, i) == 500 ==>
              && Backlog(hs, i + 1) == 500 - (if NoneReady(hs[2 * i + 1].s.items) then 0 else 1)
              && |hs[2 * i + 2].evicted| == |hs[2 * i].evicted| + 1
  {
    OneTurn(cfg, hs, es, i);
  }

  /** So what has once piled up stays: the backlog never again falls below what it was, or 499. */
  lemma {:induction false} BacklogStays(cfg: Config, hs: seq<History>, es: seq<Event>, i: nat, j: nat)
    requires Run(cfg, hs, es) && OneInOneOut(es, j) && i <= j
    ensures Backlog(hs, i) <= Backlog(hs, j) || 499 <= Backlog(hs, j)
    decreases j
  {
    hide Run, OneInOneOut, NoneReady, Backlog;
    if i < j {
      Shorter(es, j);
      RunLength(cfg, hs, es);
      BacklogStays(cfg, hs, es, i, j - 1);
      OneTurn(cfg, hs, es, j - 1);
    }
  }

  // ---- Without delay ----

  /** With the delay at 0, the setting the server starts its buffers with, every insertion marks
      the whole buffer ready; and it stays 0 while the measured jitter is 0. */
  lemma ZeroDelayMarksAll(cfg: Config, h: History, e: Event, h': History)
    requires Step(cfg, h, e, h') && e.Insert? && h.s.delay == 0
    ensures forall i :: 0 <= i < |h'.s.items| ==> h'.s.items[i].ready
    ensures e.jitter == 0 ==> h'.s.delay == 0
  {
    hide SortedPermutation, Millis32, Depth;
  }

  /** So the server's receive loop, which extracts once after each insertion, hands the packets on just
      as they arrive while it measures no jitter: its buffer puts nothing in order. */
  lemma {:induction false} ZeroDelayPassesThrough(cfg: Config, hs: seq<History>, es: seq<Event>, n: nat)
    requires Run(cfg, hs, es) && OneInOneOut(es, n) && cfg.initialDelay == 0
    requires forall i :: 0 <= i < n ==> es[2 * i].Insert? && es[2 * i].jitter == 0
    ensures hs[2 * n].s.items == [] && hs[2 * n].s.delay == 0 && hs[2 * n].delivered == hs[2 * n].inserted
  {
    if n > 0 {
      ZeroDelayPassesThrough(cfg, hs, es, n - 1);
      var i := n - 1;
      assert es[2 * i].Insert? && es[2 * i].jitter == 0 && es[2 * i + 1].Extract?;
      InAndOut(cfg, hs[2 * i], es[2 * i], hs[2 * i + 1], es[2 * i + 1], hs[2 * i + 2]);
    }
  }

  lemma InAndOut(cfg: Config, h: History, e: Event, h1: History, e1: Event, h2: History)
    requires Step(cfg, h, e, h1) && e.Insert? && e.jitter == 0 && Step(cfg, h1, e1, h2) && e1.Extract?
    requires h.s.items == [] && h.s.delay == 0 && h.delivered == h.inserted
    ensures h2.s.items == [] && h2.s.delay == 0 && h2.delivered == h2.inserted
  {
    hide Adapted, NextExpected, GapLoss, Depth, Wrap32, SortedPermutation, Packets, Millis32;
    ZeroDelayMarksAll(cfg, h, e, h1);
    var sorted :| SortedPermutation(Arrived(h.s, e.packet, e.now), sorted)
                  && h1 == InsertInto(cfg, h, e, sorted);
    var item := Item(e.packet, e.now, false);
    assert Arrived(h.s, e.packet, e.now) == [item];
    OnlyOneOrder(item, sorted);
    assert Overflow(sorted) == 0;
    assert h1.s.items[0].packet == e.packet && |h1.s.items| == 1;
    DrainStep(cfg, h1, e1, h2);
  }

  lemma OnlyOneOrder(item: Item, sorted: seq<Item>)
    requires SortedPermutation([item], sorted)
    ensures sorted == [item]
  {
    SameMultisetSameLength([item], sorted);
    InPermutation(sorted, [item], sorted[0]);
  }
}
