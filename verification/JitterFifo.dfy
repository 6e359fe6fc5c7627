// For a stream that arrives in order, the jitter buffer is a queue.
module JitterFifo {
  import opened Words
  import opened Sequences
  import opened RtpPackets
  import opened JitterBuffers
  import opened JitterRuns

  const NUMBER := (p: Packet) => p.Sequence() as int
  const ITEM_NUMBER := (item: Item) => item.packet.Sequence() as int

  /** The next packet of a strictly increasing, non-wrapping stream, while no buffered packet has
      waited 2^32 milliseconds. */
  ghost predicate NextInOrder(h: History, e: Event)
    requires e.Insert?
  {
    && (forall p :: p in h.inserted ==> p.Sequence() < e.packet.Sequence())
    && forall item :: item in h.s.items ==> Millis(e.now - item.arrival) < TWO32
  }

  ghost predicate InOrder(hs: seq<History>, es: seq<Event>)
    requires |hs| == |es| + 1
  {
    forall i :: 0 <= i < |es| ==> !es[i].Reset? && (es[i].Insert? ==> NextInOrder(hs[i], es[i]))
  }

  ghost predicate ReadyFirst(items: seq<Item>) {
    forall i, j :: 0 <= i < j < |items| && items[j].ready ==> items[i].ready
  }

  ghost predicate OldestFirst(items: seq<Item>) {
    forall i, j :: 0 <= i < j < |items| ==> items[i].arrival <= items[j].arrival
  }

  ghost predicate Aged(items: seq<Item>, clock: int) {
    OldestFirst(items) && ReadyFirst(items) && forall item :: item in items ==> item.arrival <= clock
  }

  // What was inserted is what has left followed by what is buffered.
  ghost predicate Queue(inserted: seq<Packet>, left: seq<Packet>, buffered: seq<Packet>) {
    inserted == left + buffered && IncreasingBy(inserted, NUMBER)
  }

  ghost predicate DeliveredInOrder(delivered: seq<Packet>, left: seq<Packet>) {
    IncreasingBy(delivered, NUMBER) && forall p :: p in delivered ==> p in left
  }

  /** The packets that have left are a prefix of those inserted and the buffer holds the rest, in
      order; readiness is closed towards earlier arrivals; deliveries are strictly increasing. */
  ghost predicate Fifo(h: History) {
    && Queue(h.inserted, h.left, Packets(h.s.items))
    && Aged(h.s.items, h.clock)
    && DeliveredInOrder(h.delivered, h.left)
  }

  lemma InOrderSortIsIdle(h: History, e: Event, sorted: seq<Item>)
    requires Fifo(h) && e.Insert? && NextInOrder(h, e)
    requires SortedPermutation(Arrived(h.s, e.packet, e.now), sorted)
    ensures sorted == Arrived(h.s, e.packet, e.now)
  {
    hide Millis, Aged, DeliveredInOrder, Queue, Packets;
    var arrived := Arrived(h.s, e.packet, e.now);
    BufferIncreases(h.inserted, h.left, h.s.items, e.packet);
    assert NonDecreasingBy(sorted, ITEM_NUMBER);
    assert IncreasingBy(arrived, ITEM_NUMBER);
    hide IncreasingBy, NonDecreasingBy, Arrived, Sorted;
    SortedUnique(arrived, sorted, ITEM_NUMBER);
  }

  // The buffered items are in order, below the next packet.
  lemma BufferIncreases(inserted: seq<Packet>, left: seq<Packet>, items: seq<Item>, next: Packet)
    requires Queue(inserted, left, Packets(items))
    requires forall p :: p in inserted ==> p.Sequence() < next.Sequence()
    ensures forall i, j :: 0 <= i < j < |items| ==> ITEM_NUMBER(items[i]) < ITEM_NUMBER(items[j])
    ensures forall i :: 0 <= i < |items| ==> ITEM_NUMBER(items[i]) < next.Sequence()
  {
    var ps := Packets(items);
    IncreasingSuffix(left, ps, NUMBER);
    forall i | 0 <= i < |items|
      ensures ITEM_NUMBER(items[i]) == NUMBER(ps[i]) && ps[i] in inserted
    {
      assert inserted[|left| + i] == ps[i];
    }
  }

  // An item that arrived no later has waited no less.
  lemma MarkIsMonotone(a: Item, b: Item, now: int, delay: uint32)
    requires a.arrival <= b.arrival <= now && Millis(now - a.arrival) < TWO32
    ensures Mark(b, now, delay).ready ==> Mark(a, now, delay).ready
  {
    assert Millis(now - b.arrival) <= Millis(now - a.arrival);
    assert Millis32(now - a.arrival) == Millis(now - a.arrival);
    assert Millis32(now - b.arrival) == Millis(now - b.arrival);
  }

  lemma MarkedKeepsOrder(items: seq<Item>, now: int, delay: uint32)
    requires OldestFirst(items)
    requires forall item :: item in items ==> item.arrival <= now && Millis(now - item.arrival) < TWO32
    ensures var r := Marked(items, now, delay); OldestFirst(r) && ReadyFirst(r)
  {
    hide Millis, Millis32;
    forall i, j | 0 <= i < j < |items|
      ensures Mark(items[j], now, delay).ready ==> Mark(items[i], now, delay).ready
    {
      assert items[i] in items && items[j] in items;
      MarkIsMonotone(items[i], items[j], now, delay);
    }
  }

  lemma InsertIsEnqueue(cfg: Config, h: History, e: Event, sorted: seq<Item>)
    requires Fifo(h) && e.Insert? && NextInOrder(h, e) && h.clock <= e.now
    requires SortedPermutation(Arrived(h.s, e.packet, e.now), sorted)
    ensures Fifo(InsertInto(cfg, h, e, sorted))
  {
    hide Adapted, NextExpected, GapLoss, Depth, Wrap32, SortedPermutation, Marked, Overflow;
    hide Aged, Queue, DeliveredInOrder, Packets;
    InOrderSortIsIdle(h, e, sorted);
    EnqueueAges(h.s, e.packet, h.clock, e.now);
    EnqueueMoves(h.inserted, h.left, h.delivered, h.s, e.packet, e.now);
  }

  lemma EnqueueMoves(inserted: seq<Packet>, left: seq<Packet>, delivered: seq<Packet>,
                     s: State, packet: Packet, now: int)
    requires Queue(inserted, left, Packets(s.items)) && DeliveredInOrder(delivered, left)
    requires forall p :: p in inserted ==> p.Sequence() < packet.Sequence()
    ensures var arrived := Arrived(s, packet, now);
            var evicted := Packets(arrived[..Overflow(arrived)]);
            && Queue(inserted + [packet], left + evicted, Packets(Marked(arrived, now, s.delay)[Overflow(arrived)..]))
            && DeliveredInOrder(delivered, left + evicted)
  {
    hide IncreasingBy, Packets, Marked, Arrived, Overflow;
    ArrivalSplits(s, packet, now);
    assert inserted + [packet] == left + (Packets(s.items) + [packet]);
    IncreasingAppend(inserted, packet, NUMBER);
  }

  lemma ArrivalSplits(s: State, packet: Packet, now: int)
    ensures var arrived := Arrived(s, packet, now);
            var n := Overflow(arrived);
            && n <= |arrived|
            && Packets(s.items) + [packet] == Packets(arrived[..n]) + Packets(Marked(arrived, now, s.delay)[n..])
  {
    hide Millis32;
    var arrived := Arrived(s, packet, now);
    var n := Overflow(arrived);
    assert Packets(arrived) == Packets(s.items) + [packet];
    assert Packets(arrived) == Packets(arrived[..n]) + Packets(Marked(arrived, now, s.delay)[n..]);
  }

  lemma EnqueueAges(s: State, packet: Packet, clock: int, now: int)
    requires Aged(s.items, clock) && clock <= now
    requires forall item :: item in s.items ==> Millis(now - item.arrival) < TWO32
    ensures var arrived := Arrived(s, packet, now);
            Aged(Marked(arrived, now, s.delay)[Overflow(arrived)..], now)
  {
    hide Millis, Millis32;
    var arrived := Arrived(s, packet, now);
    assert Millis(now - now) < TWO32 by { MillisOfNothing(); }
    MarkedKeepsOrder(arrived, now, s.delay);
  }

  lemma MillisOfNothing()
    ensures Millis(0) == 0
  {
  }

  lemma ReadyIsFront(items: seq<Item>, k: nat)
    requires ReadyFirst(items) && FirstReady(items, k)
    ensures k == 0
  {
    assert items[0].ready;
  }

  lemma ExtractIsDequeue(h: History)
    requires Fifo(h) && h.s.items != []
    ensures Fifo(ExtractFrom(h, 0))
  {
    hide Wrap32, Queue, DeliveredInOrder, Aged, Packets;
    var items := h.s.items;
    assert ExtractFrom(h, 0).s.items == items[1..];
    DequeueAges(items, h.clock);
    DequeueMoves(h.inserted, h.left, h.delivered, items);
  }

  lemma DequeueMoves(inserted: seq<Packet>, left: seq<Packet>, delivered: seq<Packet>, items: seq<Item>)
    requires items != [] && Queue(inserted, left, Packets(items)) && DeliveredInOrder(delivered, left)
    ensures var p := items[0].packet;
            Queue(inserted, left + [p], Packets(items[1..])) && DeliveredInOrder(delivered + [p], left + [p])
  {
    hide IncreasingBy;
    var p := items[0].packet;
    assert Packets(items) == [p] + Packets(items[1..]);
    assert inserted == left + [p] + Packets(items[1..]);
    LeftBefore(inserted, left, p);
    IncreasingAppend(delivered, p, NUMBER);
  }

  lemma DequeueAges(items: seq<Item>, clock: int)
    requires items != [] && Aged(items, clock)
    ensures Aged(items[1..], clock)
  {
  }

  lemma LeftBefore(inserted: seq<Packet>, left: seq<Packet>, p: Packet)
    requires IncreasingBy(inserted, NUMBER) && left + [p] <= inserted
    ensures forall q :: q in left ==> NUMBER(q) < NUMBER(p)
  {
    forall q | q in left
      ensures NUMBER(q) < NUMBER(p)
    {
      var j :| 0 <= j < |left| && left[j] == q;
      assert inserted[j] == (left + [p])[j] && inserted[|left|] == (left + [p])[|left|];
    }
  }

  lemma StepIsFifo(cfg: Config, h: History, e: Event, h': History)
    requires Fifo(h) && Step(cfg, h, e, h')
    requires !e.Reset? && (e.Insert? ==> NextInOrder(h, e))
    ensures Fifo(h')
  {
    hide AfterInsert, AfterExtract, SortedPermutation, NextInOrder, Queue, DeliveredInOrder, OldestFirst, ReadyFirst;
    if e.Insert? {
      var sorted :| SortedPermutation(Arrived(h.s, e.packet, e.now), sorted) && h' == InsertInto(cfg, h, e, sorted);
      InsertIsEnqueue(cfg, h, e, sorted);
    } else if !NoneReady(h.s.items) {
      var k: nat :| FirstReady(h.s.items, k) && h' == ExtractFrom(h, k);
      ReadyIsFront(h.s.items, k);
      ExtractIsDequeue(h);
    }
  }

  /** Queue refinement: over every run of a strictly increasing stream, what was inserted is what
      has left followed by what is buffered, and deliveries come out in increasing order. */
  lemma {:induction false} RunIsFifo(cfg: Config, hs: seq<History>, es: seq<Event>, n: nat)
    requires Run(cfg, hs, es) && InOrder(hs, es) && n < |hs|
    ensures Fifo(hs[n])
  {
    if n > 0 {
      RunIsFifo(cfg, hs, es, n - 1);
      StepIsFifo(cfg, hs[n - 1], es[n - 1], hs[n]);
    }
  }

  // ---- The bound on the waiting time is needed ----

  // Of a buffer in arrival order, the waits as MarkReady sees them are in order too.
  ghost predicate WaitsInOrder(items: seq<Item>, now: int) {
    forall i, j :: 0 <= i < j < |items| ==> Millis32(now - items[j].arrival) <= Millis32(now - items[i].arrival)
  }

  /** Marking is closed towards earlier items, whatever the delay, exactly when the 32-bit waits do not
      increase along the buffer. */
  lemma MarkingKeepsOrderExactly(items: seq<Item>, now: int)
    ensures (forall delay: uint32 :: ReadyFirst(Marked(items, now, delay))) <==> WaitsInOrder(items, now)
  {
    hide Millis32;
    if !WaitsInOrder(items, now) {
      var i, j :| 0 <= i < j < |items| && Millis32(now - items[i].arrival) < Millis32(now - items[j].arrival);
      var r := Marked(items, now, Millis32(now - items[j].arrival));
      assert r[j].ready && !r[i].ready;
      assert !ReadyFirst(r);
    }
  }

  const DEFAULT := Config(20, 200, 60)

  // The delay and the items of the first two insertions of the run below.
  lemma FirstWaits(older: Packet)
    ensures Marked([Item(older, 0, false)], 0, 60) == [Item(older, 0, false)]
    ensures Adapted(DEFAULT, 60, 0, Depth([Item(older, 0, false)])) == 55
  {
  }

  lemma SecondWaits(older: Packet, younger: Packet)
    ensures var items := [Item(older, 0, false), Item(younger, NANOS_PER_MILLI, false)];
            && Marked(items, NANOS_PER_MILLI, 55) == items && Adapted(DEFAULT, 55, 0, Depth(items)) == 50
  {
    assert Millis(NANOS_PER_MILLI) == 1 && Millis(0) == 0;
  }

  // An insertion that sorting leaves at the end of the buffer.
  lemma InsertAtEnd(cfg: Config, h: History, e: Event) returns (h': History)
    requires e.Insert? && h.clock <= e.now && e.packet.Sequence() == Wrap16(e.extended)
    requires Sorted(Arrived(h.s, e.packet, e.now)) && |h.s.items| < MAX_BUFFER_SIZE
    ensures Step(cfg, h, e, h')
    ensures var arrived := Arrived(h.s, e.packet, e.now);
            && h'.s.items == Marked(arrived, e.now, h.s.delay)
            && h'.s.delay == Adapted(cfg, h.s.delay, e.jitter, Depth(arrived))
            && h'.clock == e.now && h'.inserted == h.inserted + [e.packet] && h'.delivered == h.delivered
  {
    hide Packets, NextExpected, GapLoss, Marked, Adapted, Depth, Wrap16, Wrap32, Arrived, Sorted;
    var arrived := Arrived(h.s, e.packet, e.now);
    assert |arrived| == |h.s.items| + 1 by { ArrivedLength(h.s, e.packet, e.now); }
    assert Overflow(arrived) == 0 && SortedPermutation(arrived, arrived);
    h' := InsertInto(cfg, h, e, arrived);
    assert Marked(arrived, e.now, h.s.delay)[0..] == Marked(arrived, e.now, h.s.delay);
  }

  lemma ArrivedLength(s: State, packet: Packet, now: int)
    ensures |Arrived(s, packet, now)| == |s.items| + 1
  {
  }

  lemma TwoInsertions(older: Packet, younger: Packet) returns (hs: seq<History>, es: seq<Event>)
    requires older.Sequence() == 0 && younger.Sequence() == 1
    ensures Run(DEFAULT, hs, es) && |es| == 2
    ensures var h := hs[2];
            && h.s.items == [Item(older, 0, false), Item(younger, NANOS_PER_MILLI, false)]
            && h.s.delay == 50 && h.clock == NANOS_PER_MILLI
            && h.inserted == [older, younger] && h.delivered == []
  {
    hide Step, Marked, Adapted, Depth, Millis, Millis32;
    var h0, e1, e2 := Start(DEFAULT), Insert(0, older, 0, 0), Insert(1, younger, NANOS_PER_MILLI, 0);
    FirstWaits(older);
    assert Arrived(h0.s, older, 0) == [Item(older, 0, false)];
    var h1 := InsertAtEnd(DEFAULT, h0, e1);
    SecondWaits(older, younger);
    assert Arrived(h1.s, younger, NANOS_PER_MILLI) == [Item(older, 0, false), Item(younger, NANOS_PER_MILLI, false)];
    var h2 := InsertAtEnd(DEFAULT, h1, e2);
    assert h2.inserted == [older, younger];
    RunStarts(DEFAULT);
    hide Run, Start, Arrived;
    RunExtends(DEFAULT, [h0], [], e1, h1);
    RunExtends(DEFAULT, [h0] + [h1], [] + [e1], e2, h2);
    hs, es := [h0] + [h1] + [h2], [] + [e1] + [e2];
  }

  lemma MarksAfterWrap(older: Packet, younger: Packet, latest: Packet)
    ensures var now := TWO32 * NANOS_PER_MILLI;
            Marked([Item(older, 0, false), Item(younger, NANOS_PER_MILLI, false), Item(latest, now, false)], now, 50)
            == [Item(older, 0, false), Item(younger, NANOS_PER_MILLI, true), Item(latest, now, false)]
  {
    var now := TWO32 * NANOS_PER_MILLI;
    assert Millis(now) == TWO32 && Millis(now - NANOS_PER_MILLI) == TWO32 - 1 && Millis(0) == 0;
  }

  /** A run of the default configuration in which it fails: when a third packet arrives after 2^32 ms,
      the oldest reads as having just arrived, and Extract hands out the one after it. */
  lemma LongWaitOvertakes(older: Packet, younger: Packet, latest: Packet) returns (hs: seq<History>, es: seq<Event>)
    requires older.Sequence() == 0 && younger.Sequence() == 1 && latest.Sequence() == 2
    ensures Run(DEFAULT, hs, es) && |es| == 4 && es[3] == Extract
    ensures hs[4].inserted == [older, younger, latest] && hs[4].delivered == [younger]
    ensures Packets(hs[4].s.items) == [older, latest]
  {
    hide Step, Marked, Adapted, Depth, Millis, Millis32, Wrap32, AfterExtract, Packets;
    var now := TWO32 * NANOS_PER_MILLI;
    hs, es := TwoInsertions(older, younger);
    var h2, e3 := hs[2], Insert(2, latest, now, 0);
    assert Arrived(h2.s, latest, now)
           == [Item(older, 0, false), Item(younger, NANOS_PER_MILLI, false), Item(latest, now, false)];
    var h3 := InsertAtEnd(DEFAULT, h2, e3);
    MarksAfterWrap(older, younger, latest);
    var h4 := ExtractFrom(h3, 1);
    SecondIsTaken(DEFAULT, h3);
    hide Run, Arrived, ExtractFrom;
    RunExtends(DEFAULT, hs, es, e3, h3);
    RunExtends(DEFAULT, hs + [h3], es + [e3], Extract, h4);
    hs, es := hs + [h3] + [h4], es + [e3] + [Extract];
  }

  lemma SecondIsTaken(cfg: Config, h: History)
    requires |h.s.items| == 3 && !h.s.items[0].ready && h.s.items[1].ready
    ensures var h' := ExtractFrom(h, 1);
            && Step(cfg, h, Extract, h')
            && h'.inserted == h.inserted && h'.delivered == h.delivered + [h.s.items[1].packet]
            && Packets(h'.s.items) == [h.s.items[0].packet, h.s.items[2].packet]
  {
    hide Wrap32;
    assert FirstReady(h.s.items, 1);
    assert ExtractFrom(h, 1).s.items == [h.s.items[0], h.s.items[2]];
  }
}
