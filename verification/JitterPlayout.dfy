// When a jitter buffer hands out packets in the order of their numbers, exactly.
module JitterPlayout {
  import opened Words
  import opened Sequences
  import opened RtpPackets
  import opened JitterBuffers
  import opened JitterRuns
  import F = JitterFifo

  /** What has been handed out, then what is buffered. */
  function Line(h: History): seq<Packet> { h.delivered + Packets(h.s.items) }

  ghost predicate Orderly(h: History) { NonDecreasingBy(Line(h), F.NUMBER) }

  /** Nothing has been evicted or discarded. */
  ghost predicate AllKept(h: History) { h.evicted == [] && h.discarded == [] }

  /** An arrival is not late: nothing of a higher number has been handed out. An extraction finds the
      front ready, or nothing: what it takes has the smallest number buffered. */
  ghost predicate StepInOrder(h: History, e: Event) {
    match e
    case Insert(_, packet, _, _) => forall p :: p in h.delivered ==> p.Sequence() <= packet.Sequence()
    case Extract =>
      forall k: nat :: FirstReady(h.s.items, k) ==>
        h.s.items[k].packet.Sequence() == h.s.items[0].packet.Sequence()
    case Reset => true
  }

  lemma SortedPackets(items: seq<Item>)
    requires Sorted(items)
    ensures NonDecreasingBy(Packets(items), F.NUMBER)
  {
  }

  lemma InsertOrderly(cfg: Config, h: History, e: Event, sorted: seq<Item>)
    requires e.Insert? && Represented(h) && SortedPermutation(Arrived(h.s, e.packet, e.now), sorted)
    requires AllKept(InsertInto(cfg, h, e, sorted))
    ensures Orderly(InsertInto(cfg, h, e, sorted)) <==> Orderly(h) && StepInOrder(h, e)
  {
    hide Adapted, NextExpected, GapLoss, Depth, Wrap32, Marked, Sorted, Packets, NonDecreasingBy;
    var h', before := InsertInto(cfg, h, e, sorted), Packets(h.s.items);
    var after := Packets(h'.s.items);
    assert Overflow(sorted) == 0 by {
      assert h'.evicted == h.evicted + Packets(sorted[..Overflow(sorted)]);
      PacketsLength(sorted[..Overflow(sorted)]);
    }
    InsertMovesPackets(h.s, e.packet, e.now, sorted);
    assert multiset(before) + multiset{e.packet} == multiset(after) by {
      assert sorted[..0] == [];
      PacketsLength([]);
    }
    SortedPackets(h.s.items);
    InsertRepresented(cfg, h, e, sorted);
    SortedPackets(h'.s.items);
    NonDecreasingConcat(h.delivered, before, F.NUMBER);
    NonDecreasingConcat(h.delivered, after, F.NUMBER);
    assert forall p :: p in after <==> p in multiset(after);
    assert forall p :: p in before <==> p in multiset(before);
    assert e.packet in after;
    assert forall p: Packet :: F.NUMBER(p) == p.Sequence();
  }

  lemma PacketsLength(items: seq<Item>)
    ensures |Packets(items)| == |items|
  {
  }

  lemma ExtractOrderly(h: History, k: nat)
    requires Represented(h) && FirstReady(h.s.items, k)
    ensures Orderly(ExtractFrom(h, k)) <==> Orderly(h) && StepInOrder(h, Extract)
  {
    hide NonDecreasingBy, Packets, RemoveAt, Sorted;
    var items := h.s.items;
    assert StepInOrder(h, Extract) <==> items[k].packet.Sequence() == items[0].packet.Sequence() by {
      assert forall i: nat :: FirstReady(items, i) ==> i == k;
    }
    hide StepInOrder, FirstReady;
    SortedPackets(items);
    MovedInOrder(h.delivered, Packets(items), k, F.NUMBER);
    LineAfterExtract(h, k);
  }

  lemma LineAfterExtract(h: History, k: nat)
    requires k < |h.s.items|
    ensures Line(ExtractFrom(h, k)) == h.delivered + [h.s.items[k].packet] + RemoveAt(Packets(h.s.items), k)
  {
    hide Wrap32;
    assert Packets(ExtractFrom(h, k).s.items) == RemoveAt(Packets(h.s.items), k);
  }

  lemma StepOrderly(cfg: Config, h: History, e: Event, h': History)
    requires Represented(h) && Step(cfg, h, e, h') && AllKept(h')
    ensures AllKept(h)
    ensures Orderly(h') <==> Orderly(h) && StepInOrder(h, e)
  {
    hide AfterInsert, AfterExtract, SortedPermutation, NonDecreasingBy, Packets;
    match e
    case Insert(_, packet, now, _) =>
      var sorted :| SortedPermutation(Arrived(h.s, packet, now), sorted) && h' == InsertInto(cfg, h, e, sorted);
      InsertOrderly(cfg, h, e, sorted);
    case Extract =>
      if !NoneReady(h.s.items) {
        var k: nat :| FirstReady(h.s.items, k) && h' == ExtractFrom(h, k);
        ExtractOrderly(h, k);
      }
    case Reset =>
      PacketsLength(h.s.items);
  }

  ghost predicate RunInOrder(hs: seq<History>, es: seq<Event>, n: nat)
    requires n <= |es| < |hs|
  {
    forall i :: 0 <= i < n ==> StepInOrder(hs[i], es[i])
  }

  /** While nothing is evicted or discarded, what is handed out followed by what is buffered is in the
      order of the numbers exactly when no arrival was late and every extraction found the front ready. */
  lemma {:induction false} OrderlyExactly(cfg: Config, hs: seq<History>, es: seq<Event>, n: nat)
    requires Run(cfg, hs, es) && n < |hs| && AllKept(hs[n])
    ensures Orderly(hs[n]) <==> RunInOrder(hs, es, n)
  {
    hide Orderly, StepInOrder, BufferInv, AllKept;
    if n == 0 {
      assert Orderly(Start(cfg)) by { StartOrderly(cfg); }
    } else {
      KeepsRepresented(cfg, hs, es, n - 1);
      StepOrderly(cfg, hs[n - 1], es[n - 1], hs[n]);
      OrderlyExactly(cfg, hs, es, n - 1);
    }
  }

  lemma StartOrderly(cfg: Config)
    ensures Orderly(Start(cfg))
  {
  }

  lemma KeepsRepresented(cfg: Config, hs: seq<History>, es: seq<Event>, n: nat)
    requires Run(cfg, hs, es) && n < |hs|
    ensures Represented(hs[n])
  {
    RunKeepsBuffer(cfg, hs, es, n);
  }

  lemma LineIsInserted(cfg: Config, hs: seq<History>, es: seq<Event>, n: nat)
    requires Run(cfg, hs, es) && n < |hs| && AllKept(hs[n])
    ensures multiset(Line(hs[n])) == multiset(hs[n].inserted)
  {
    hide Packets;
    RunKeepsBuffer(cfg, hs, es, n);
    assert multiset(hs[n].evicted) == multiset{} && multiset(hs[n].discarded) == multiset{};
  }

  /** So packets of distinct numbers, below all others inserted, are first in line in their order. */
  lemma LeastPlayFirst(cfg: Config, hs: seq<History>, es: seq<Event>, n: nat,
                       first: seq<Packet>, others: seq<Packet>)
    requires Run(cfg, hs, es) && n < |hs| && AllKept(hs[n]) && RunInOrder(hs, es, n)
    requires multiset(hs[n].inserted) == multiset(first) + multiset(others) && IncreasingBy(first, F.NUMBER)
    requires forall p, q :: p in first && q in others ==> p.Sequence() < q.Sequence()
    ensures first <= Line(hs[n])
  {
    hide Line, RunInOrder, AllKept, Run, IncreasingBy;
    OrderlyExactly(cfg, hs, es, n);
    LineIsInserted(cfg, hs, es, n);
    LeastComeFirst(Line(hs[n]), first, multiset(others), F.NUMBER);
  }

  // ---- What decides readiness ----

  ghost predicate MarkedExactly(h: History) {
    forall item :: item in h.s.items ==> (item.ready <==> Millis32(h.clock - item.arrival) >= h.markDelay)
  }

  ghost predicate ArrivedAt(es: seq<Event>, n: nat, item: Item)
    requires n <= |es|
  {
    exists i :: 0 <= i < n && es[i].Insert? && es[i].packet == item.packet && es[i].now == item.arrival
  }

  /** Over every run a buffered packet is ready exactly when, at the last insertion, its wait in 32 bits
      reached the delay then in force; and its arrival is that of the packet's own insertion. */
  lemma {:induction false} RunMarksExactly(cfg: Config, hs: seq<History>, es: seq<Event>, n: nat)
    requires Run(cfg, hs, es) && n < |hs|
    ensures MarkedExactly(hs[n])
    ensures forall item :: item in hs[n].s.items ==> ArrivedAt(es, n, item)
  {
    hide Millis32, MarkedExactly, Step;
    if n == 0 {
      assert MarkedExactly(Start(cfg)) by { NothingMarked(cfg); }
    } else {
      RunMarksExactly(cfg, hs, es, n - 1);
      var h, e, h' := hs[n - 1], es[n - 1], hs[n];
      assert Step(cfg, h, e, h');
      StepMarksExactly(cfg, h, e, h');
      forall item | item in h'.s.items
        ensures ArrivedAt(es, n, item)
      {
        var before := ItemCameFrom(cfg, h, e, h', item);
        assert before.Some? ==> ArrivedAt(es, n - 1, before.value);
      }
    }
  }

  lemma NothingMarked(cfg: Config)
    ensures MarkedExactly(Start(cfg))
  {
  }

  lemma MarkedFrom(items: seq<Item>, now: int, delay: uint32, n: nat, item: Item) returns (unmarked: Item)
    requires n <= |items| && item in Marked(items, now, delay)[n..]
    ensures unmarked in items && item == Mark(unmarked, now, delay)
  {
    hide Mark;
    var i :| 0 <= i < |items| - n && Marked(items, now, delay)[n..][i] == item;
    unmarked := items[n + i];
  }

  lemma StepMarksExactly(cfg: Config, h: History, e: Event, h': History)
    requires Step(cfg, h, e, h') && MarkedExactly(h)
    ensures MarkedExactly(h')
  {
    hide AfterInsert, Wrap32, Millis32, Marked, SortedPermutation, Packets;
    if e.Insert? {
      var sorted :| SortedPermutation(Arrived(h.s, e.packet, e.now), sorted) && h' == InsertInto(cfg, h, e, sorted);
      InsertLeaves(cfg, h.s, e.packet, e.now, e.jitter, sorted);
      forall item | item in h'.s.items
        ensures item.ready <==> Millis32(h'.clock - item.arrival) >= h'.markDelay
      {
        var unmarked := MarkedFrom(sorted, e.now, h.s.delay, Overflow(sorted), item);
      }
    }
  }

  // The items that an insertion leaves.
  lemma InsertLeaves(cfg: Config, s: State, packet: Packet, now: int, jitter: uint32, sorted: seq<Item>)
    ensures Overflow(sorted) <= |sorted|
    ensures AfterInsert(cfg, s, packet, now, jitter, sorted).items == Marked(sorted, now, s.delay)[Overflow(sorted)..]
  {
    hide Adapted, NextExpected, GapLoss, Depth, Wrap32, Marked;
  }

  // A buffered item was there before, marked or not, or is the arrival.
  lemma ItemCameFrom(cfg: Config, h: History, e: Event, h': History, item: Item) returns (before: Option<Item>)
    requires Step(cfg, h, e, h') && item in h'.s.items
    ensures before.Some? ==>
              before.value in h.s.items && before.value.packet == item.packet && before.value.arrival == item.arrival
    ensures before.None? ==> e.Insert? && e.packet == item.packet && e.now == item.arrival
  {
    hide Adapted, NextExpected, GapLoss, Depth, Wrap32, Millis32, Marked, Sorted, Packets;
    before := Some(item);
    if e.Insert? {
      var sorted :| SortedPermutation(Arrived(h.s, e.packet, e.now), sorted) && h' == InsertInto(cfg, h, e, sorted);
      var unmarked := MarkedFrom(sorted, e.now, h.s.delay, Overflow(sorted), item);
      InPermutation(sorted, Arrived(h.s, e.packet, e.now), unmarked);
      before := if unmarked in h.s.items then Some(unmarked) else None;
    }
  }
}
