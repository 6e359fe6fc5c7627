// What holds over every run of a jitter buffer: conservation of packets, the meaning of
// readiness, 16-bit tracking of an unbounded stream, and loss accounting.
module JitterRuns {
  import opened Words
  import opened Sequences
  import opened RtpPackets
  import opened JitterBuffers

  /** An arrival carries the extended (unbounded) number its sender gave it; the packet holds
      that number modulo 2^16. */
  datatype Event =
    | Insert(extended: int, packet: Packet, now: int, jitter: uint32)
    | Extract
    | Reset

  /** A state of the buffer and how it came about. `left` are the packets delivered or evicted,
      in the order they left; `seen` and `evictions` count from the last Reset; `clock` and
      `markDelay` are the time of the last Insert and the delay it marked readiness with. */
  datatype History = History(
    s: State, inserted: seq<Packet>, delivered: seq<Packet>, evicted: seq<Packet>,
    discarded: seq<Packet>, left: seq<Packet>,
    seen: seq<int>, evictions: nat, clock: int, markDelay: uint32)

  function Start(cfg: Config): History {
    History(Initial(cfg), [], [], [], [], [], [], 0, 0, cfg.initialDelay)
  }

  const PACKET_OF := (item: Item) => item.packet

  function Packets(items: seq<Item>): (ps: seq<Packet>)
    ensures |ps| == |items| && forall i :: 0 <= i < |ps| ==> ps[i] == items[i].packet
  {
    Map(items, PACKET_OF)
  }

  function InsertInto(cfg: Config, h: History, e: Event, sorted: seq<Item>): History
    requires e.Insert?
  {
    var evicted := Packets(sorted[..Overflow(sorted)]);
    h.(s := AfterInsert(cfg, h.s, e.packet, e.now, e.jitter, sorted),
       inserted := h.inserted + [e.packet], evicted := h.evicted + evicted, left := h.left + evicted,
       seen := h.seen + [e.extended], evictions := h.evictions + Overflow(sorted),
       clock := e.now, markDelay := h.s.delay)
  }

  function ExtractFrom(h: History, k: nat): History
    requires k < |h.s.items|
  {
    var p := h.s.items[k].packet;
    h.(s := AfterExtract(h.s, k), delivered := h.delivered + [p], left := h.left + [p])
  }

  function ResetAll(cfg: Config, h: History): History {
    h.(s := AfterReset(cfg, h.s), discarded := h.discarded + Packets(h.s.items), seen := [], evictions := 0)
  }

  ghost predicate Step(cfg: Config, h: History, e: Event, h': History) {
    match e
    case Insert(extended, packet, now, jitter) =>
      && h.clock <= now && packet.Sequence() == Wrap16(extended)
      && exists sorted :: SortedPermutation(Arrived(h.s, packet, now), sorted) && h' == InsertInto(cfg, h, e, sorted)
    case Extract =>
      if NoneReady(h.s.items) then h' == h
      else exists k: nat :: FirstReady(h.s.items, k) && h' == ExtractFrom(h, k)
    case Reset => h' == ResetAll(cfg, h)
  }

  ghost predicate Run(cfg: Config, hs: seq<History>, es: seq<Event>) {
    && |hs| == |es| + 1 && hs[0] == Start(cfg)
    && forall i :: 0 <= i < |es| ==> Step(cfg, hs[i], es[i], hs[i + 1])
  }

  lemma RunExtends(cfg: Config, hs: seq<History>, es: seq<Event>, e: Event, h: History)
    requires Run(cfg, hs, es) && Step(cfg, hs[|es|], e, h)
    ensures Run(cfg, hs + [h], es + [e])
  {
    hide Step;
    var hs', es' := hs + [h], es + [e];
    forall i | 0 <= i < |es'|
      ensures Step(cfg, hs'[i], es'[i], hs'[i + 1])
    {
      assert hs'[i] == hs[i];
      assert i < |es| ==> hs'[i + 1] == hs[i + 1] && es'[i] == es[i];
    }
  }

  // Some order that sorting may leave.
  lemma {:induction false} SortExists(items: seq<Item>) returns (sorted: seq<Item>)
    ensures SortedPermutation(items, sorted)
    decreases |items|
  {
    if items == [] {
      sorted := [];
    } else {
      var init, last := items[..|items| - 1], items[|items| - 1];
      sorted := SortExists(init);
      LastSplit(items);
      var k := PlaceOf(sorted, last, |sorted|);
      SplicedSorted(sorted, last, k);
      sorted := sorted[..k] + [last] + sorted[k..];
    }
  }

  lemma {:induction false} PlaceOf(items: seq<Item>, x: Item, n: nat) returns (k: nat)
    requires n <= |items| && forall i :: n <= i < |items| ==> x.packet.Sequence() <= items[i].packet.Sequence()
    ensures k <= |items| && (0 < k ==> items[k - 1].packet.Sequence() <= x.packet.Sequence())
    ensures forall i :: k <= i < |items| ==> x.packet.Sequence() <= items[i].packet.Sequence()
    decreases n
  {
    if 0 < n && x.packet.Sequence() < items[n - 1].packet.Sequence() {
      k := PlaceOf(items, x, n - 1);
    } else {
      k := n;
    }
  }

  /** Packets carry their extended numbers, and the clock does not run backwards. */
  ghost predicate Feasible(es: seq<Event>) {
    forall i :: 0 <= i < |es| && es[i].Insert? ==>
      && es[i].packet.Sequence() == Wrap16(es[i].extended) && 0 <= es[i].now
      && forall j :: 0 <= j < i && es[j].Insert? ==> es[j].now <= es[i].now
  }

  ghost predicate ClockOf(es: seq<Event>, clock: int) {
    clock == 0 || exists j :: 0 <= j < |es| && es[j].Insert? && es[j].now == clock
  }

  /** Every such sequence of operations has a run. */
  lemma {:induction false} RunExists(cfg: Config, es: seq<Event>) returns (hs: seq<History>)
    requires Feasible(es)
    ensures Run(cfg, hs, es) && ClockOf(es, hs[|es|].clock)
    decreases |es|
  {
    hide InsertInto, ExtractFrom, SortedPermutation, Run, Step;
    if es == [] {
      hs := [Start(cfg)];
      assert Run(cfg, hs, es) by { RunStarts(cfg); }
    } else {
      var init, e := es[..|es| - 1], es[|es| - 1];
      hs := RunExists(cfg, init);
      assert |hs| == |es| by { RunLength(cfg, hs, init); }
      var h := hs[|init|];
      var h' := StepExists(cfg, h, e);
      RunExtends(cfg, hs, init, e, h');
      assert init + [e] == es;
      if h'.clock == h.clock && h.clock != 0 {
        var j :| 0 <= j < |init| && init[j].Insert? && init[j].now == h.clock;
        assert es[j].Insert? && es[j].now == h'.clock;
      }
      RunLength(cfg, hs + [h'], es);
      hs := hs + [h'];
    }
  }

  lemma RunStarts(cfg: Config)
    ensures Run(cfg, [Start(cfg)], [])
  {
  }

  lemma RunLength(cfg: Config, hs: seq<History>, es: seq<Event>)
    requires Run(cfg, hs, es)
    ensures |hs| == |es| + 1
  {
  }

  lemma StepExists(cfg: Config, h: History, e: Event) returns (h': History)
    requires e.Insert? ==> h.clock <= e.now && e.packet.Sequence() == Wrap16(e.extended)
    ensures Step(cfg, h, e, h') && h'.clock == if e.Insert? then e.now else h.clock
  {
    hide AfterInsert, AfterExtract, SortedPermutation;
    match e
    case Insert(_, packet, now, _) =>
      var sorted := SortExists(Arrived(h.s, packet, now));
      h' := InsertInto(cfg, h, e, sorted);
    case Extract =>
      if NoneReady(h.s.items) {
        h' := h;
      } else {
        var k := SomeFirstReady(h.s.items, |h.s.items|);
        h' := ExtractFrom(h, k);
      }
    case Reset => h' := ResetAll(cfg, h);
  }

  lemma {:induction false} SomeFirstReady(items: seq<Item>, n: nat) returns (k: nat)
    requires n <= |items| && exists i :: 0 <= i < n && items[i].ready
    ensures FirstReady(items, k)
    decreases n
  {
    if i :| 0 <= i < n - 1 && items[i].ready {
      k := SomeFirstReady(items, n - 1);
    } else {
      k := n - 1;
    }
  }

  // ---- Representation and conservation ----

  ghost predicate Represented(h: History) {
    Sorted(h.s.items) && |h.s.items| <= 500
  }

  /** Every packet inserted is in exactly one place, and the counters count them modulo 2^32. */
  ghost predicate Conserved(h: History) {
    && multiset(h.inserted) == multiset(h.delivered) + multiset(h.evicted) + multiset(h.discarded)
                               + multiset(Packets(h.s.items))
    && h.s.inserted == Wrap32(|h.inserted|) && h.s.extracted == Wrap32(|h.delivered|)
    && (h.evicted != [] ==> |h.inserted| > MAX_BUFFER_SIZE)
  }

  /** A ready packet had, when readiness was last marked, waited at least the delay then in force. */
  ghost predicate Waited(h: History) {
    forall item :: item in h.s.items ==>
      item.arrival <= h.clock && (item.ready ==> Millis(h.clock - item.arrival) >= h.markDelay)
  }

  lemma InsertRepresented(cfg: Config, h: History, e: Event, sorted: seq<Item>)
    requires Represented(h) && e.Insert?
    requires SortedPermutation(Arrived(h.s, e.packet, e.now), sorted)
    ensures Represented(InsertInto(cfg, h, e, sorted))
  {
    hide Adapted, NextExpected, GapLoss, Depth, Wrap32;
    SameMultisetSameLength(Arrived(h.s, e.packet, e.now), sorted);
  }

  lemma InsertMovesPackets(s: State, packet: Packet, now: int, sorted: seq<Item>)
    requires SortedPermutation(Arrived(s, packet, now), sorted)
    ensures var n := Overflow(sorted);
            multiset(Packets(s.items)) + multiset{packet}
            == multiset(Packets(sorted[..n])) + multiset(Packets(Marked(sorted, now, s.delay)[n..]))
    ensures |sorted| == |s.items| + 1
  {
    hide Millis32, Sorted;
    var arrived := Arrived(s, packet, now);
    SameMultisetSameLength(arrived, sorted);
    MapPermuted(arrived, sorted, PACKET_OF);
    assert Packets(arrived) == Packets(s.items) + [packet];
    var n := Overflow(sorted);
    assert Packets(sorted) == Packets(sorted[..n]) + Packets(sorted[n..]);
    assert Packets(Marked(sorted, now, s.delay)[n..]) == Packets(sorted[n..]);
  }

  lemma InsertConserves(cfg: Config, h: History, e: Event, sorted: seq<Item>)
    requires Conserved(h) && e.Insert?
    requires SortedPermutation(Arrived(h.s, e.packet, e.now), sorted)
    ensures Conserved(InsertInto(cfg, h, e, sorted))
  {
    hide Adapted, NextExpected, GapLoss, Depth, Wrap32, Marked, SortedPermutation;
    InsertMovesPackets(h.s, e.packet, e.now, sorted);
    WrapAdds(|h.inserted|, 1);
    assert |h.inserted| == |multiset(h.inserted)| >= |multiset(Packets(h.s.items))| == |h.s.items|;
    var h' := InsertInto(cfg, h, e, sorted);
    Exchange(multiset(h.inserted), multiset(h.delivered), multiset(h.evicted), multiset(h.discarded),
             multiset(Packets(h.s.items)), e.packet,
             multiset(Packets(sorted[..Overflow(sorted)])), multiset(Packets(h'.s.items)));
  }

  lemma InsertWaited(cfg: Config, h: History, e: Event, sorted: seq<Item>)
    requires Waited(h) && e.Insert? && h.clock <= e.now
    requires SortedPermutation(Arrived(h.s, e.packet, e.now), sorted)
    ensures Waited(InsertInto(cfg, h, e, sorted))
  {
    hide Adapted, NextExpected, GapLoss, Depth, Wrap32, Millis, Millis32, Marked, Sorted;
    forall item | item in sorted
      ensures item.arrival <= e.now
    {
      InPermutation(sorted, Arrived(h.s, e.packet, e.now), item);
    }
    MarkedWaited(sorted, e.now, h.s.delay);
  }

  lemma MarkedWaited(items: seq<Item>, now: int, delay: uint32)
    requires forall item :: item in items ==> item.arrival <= now
    ensures forall item :: item in Marked(items, now, delay) ==>
              item.arrival <= now && (item.ready ==> Millis(now - item.arrival) >= delay)
  {
    hide Millis, Millis32;
    forall i | 0 <= i < |items|
      ensures Millis32(now - items[i].arrival) <= Millis(now - items[i].arrival)
    {
      assert items[i] in items;
      MillisNonNegative(now - items[i].arrival);
    }
  }

  lemma MillisNonNegative(nanos: int)
    requires nanos >= 0
    ensures Millis(nanos) >= 0 && Millis32(nanos) <= Millis(nanos)
  {
  }

  lemma ExtractConserves(h: History, k: nat)
    requires Conserved(h) && k < |h.s.items|
    ensures Conserved(ExtractFrom(h, k))
  {
    hide Wrap32, Map;
    MapRemoveAt(h.s.items, PACKET_OF, k);
    WrapAdds(|h.delivered|, 1);
  }

  lemma ExtractKeeps(h: History, k: nat)
    requires Represented(h) && Waited(h) && k < |h.s.items|
    ensures var h' := ExtractFrom(h, k); Represented(h') && Waited(h')
  {
    hide Wrap32, Millis;
  }

  ghost predicate BufferInv(h: History) { Represented(h) && Conserved(h) && Waited(h) }

  lemma StepKeepsBuffer(cfg: Config, h: History, e: Event, h': History)
    requires BufferInv(h) && Step(cfg, h, e, h')
    ensures BufferInv(h')
  {
    hide AfterInsert, AfterExtract, SortedPermutation, Wrap32, Millis;
    match e
    case Insert(extended, packet, now, jitter) =>
      var sorted :| SortedPermutation(Arrived(h.s, packet, now), sorted) && h' == InsertInto(cfg, h, e, sorted);
      InsertRepresented(cfg, h, e, sorted);
      InsertConserves(cfg, h, e, sorted);
      InsertWaited(cfg, h, e, sorted);
    case Extract =>
      if !NoneReady(h.s.items) {
        var k: nat :| FirstReady(h.s.items, k) && h' == ExtractFrom(h, k);
        ExtractKeeps(h, k);
        ExtractConserves(h, k);
      }
    case Reset =>
  }

  /** After every operation of every run the buffer is sorted and bounded, no packet is lost or
      duplicated, and a ready packet has waited its delay. */
  lemma {:induction false} RunKeepsBuffer(cfg: Config, hs: seq<History>, es: seq<Event>, n: nat)
    requires Run(cfg, hs, es) && n < |hs|
    ensures BufferInv(hs[n])
  {
    if n > 0 {
      RunKeepsBuffer(cfg, hs, es, n - 1);
      StepKeepsBuffer(cfg, hs[n - 1], es[n - 1], hs[n]);
    }
  }

  /** The documented balance of the counters: inserted = extracted + buffered + evicted + discarded. */
  lemma CountersBalance(cfg: Config, hs: seq<History>, es: seq<Event>, n: nat)
    requires Run(cfg, hs, es) && n < |hs|
    ensures var h := hs[n];
            h.s.inserted == Wrap32(h.s.extracted + |h.s.items| + |h.evicted| + |h.discarded|)
  {
    RunKeepsBuffer(cfg, hs, es, n);
    var h := hs[n];
    assert |h.inserted| == |multiset(h.inserted)|
           == |h.delivered| + |h.evicted| + |h.discarded| + |h.s.items|;
    WrapAdds(|h.delivered|, |h.s.items| + |h.evicted| + |h.discarded|);
  }

  /** What Extract hands out: the smallest number among the ready packets, whose packet had
      waited at least the delay in force at the last Insert. */
  lemma ExtractTakesSmallestReady(cfg: Config, hs: seq<History>, es: seq<Event>, n: nat) returns (k: nat)
    requires Run(cfg, hs, es) && n < |es| && es[n].Extract? && !NoneReady(hs[n].s.items)
    ensures var items := hs[n].s.items;
            && k < |items| && items[k].ready && hs[n + 1] == ExtractFrom(hs[n], k)
            && Millis(hs[n].clock - items[k].arrival) >= hs[n].markDelay
            && forall i :: 0 <= i < |items| && items[i].ready ==>
                 items[k].packet.Sequence() <= items[i].packet.Sequence()
  {
    hide Millis, Conserved, ExtractFrom, InsertInto, ResetAll;
    RunKeepsBuffer(cfg, hs, es, n);
    assert Step(cfg, hs[n], es[n], hs[n + 1]);
    var items := hs[n].s.items;
    k :| FirstReady(items, k) && hs[n + 1] == ExtractFrom(hs[n], k);
    assert items[k] in items;
  }

  // ---- Tracking: 16-bit numbers stand for unbounded ones ----

  function MaxOf(seen: seq<int>): int
    requires seen != []
  {
    var last := seen[|seen| - 1];
    if |seen| == 1 || MaxOf(seen[..|seen| - 1]) < last then last else MaxOf(seen[..|seen| - 1])
  }

  // The extended number that comes after everything seen.
  function ExpectedOf(seen: seq<int>): int
    requires seen != []
  {
    1 + MaxOf(seen)
  }

  // How far an arrival is ahead of (or, negative, behind) what is expected.
  function Lead(seen: seq<int>, e: int): int {
    if seen == [] then 0 else e - ExpectedOf(seen)
  }

  /** The reordering window within which 16 bits tell ahead from behind. */
  ghost predicate InWindow(seen: seq<int>, e: int) { -0x8000 <= Lead(seen, e) <= 0x7FFF }

  ghost predicate Windowed(hs: seq<History>, es: seq<Event>)
    requires |hs| == |es| + 1
  {
    forall i :: 0 <= i < |es| && es[i].Insert? ==> InWindow(hs[i].seen, es[i].extended)
  }

  lemma WrapDifference(a: int, b: int)
    ensures Wrap16(Wrap16(a) - Wrap16(b)) == Wrap16(a - b)
    ensures Signed16(Wrap16(a) - Wrap16(b)) == Signed16(a - b)
  {
  }

  /** One arrival is tracked right exactly when 16 bits tell its side of the expected number,
      or it is one short of a multiple of 2^16 ahead, where both answers coincide. */
  lemma TrackingStep(expected: int, e: int)
    ensures NextExpected(Wrap16(expected), Wrap16(e)) == Wrap16(if e >= expected then e + 1 else expected)
            <==> (Signed16(e - expected) >= 0 <==> e >= expected) || Wrap16(e + 1 - expected) == 0
  {
    WrapDifference(e, expected);
    WrapDifference(e + 1, expected);
    WrapAdds(e, 1);
    assert Wrap16(e + 1) == Wrap16(expected) <==> Wrap16(e + 1 - expected) == 0;
  }

  lemma SignInWindow(d: int)
    requires -0x8000 <= d <= 0x7FFF
    ensures Signed16(d) == d
    ensures Wrap16(d) < 100 <==> 0 <= d < 100
    ensures d >= 0 ==> Wrap16(d) == d
  {
  }

  ghost predicate Tracked(h: History) {
    && (h.s.initialized <==> h.seen != [])
    && (h.seen != [] ==> h.s.expected == Wrap16(ExpectedOf(h.seen)))
  }

  // ---- Loss accounting ----

  // Arrivals at or past the expected number.
  function Advancing(seen: seq<int>): nat {
    if seen == [] then 0
    else
      var before, e := seen[..|seen| - 1], seen[|seen| - 1];
      Advancing(before) + if Lead(before, e) >= 0 then 1 else 0
  }

  // The sum of the gaps in front of them that are below 100, and of those that are not.
  function SmallGaps(seen: seq<int>): nat {
    if seen == [] then 0
    else
      var before, e := seen[..|seen| - 1], seen[|seen| - 1];
      SmallGaps(before) + if 0 <= Lead(before, e) < 100 then Lead(before, e) else 0
  }

  function LargeGaps(seen: seq<int>): nat {
    if seen == [] then 0
    else
      var before, e := seen[..|seen| - 1], seen[|seen| - 1];
      LargeGaps(before) + if Lead(before, e) >= 100 then Lead(before, e) else 0
  }

  ghost predicate LossCounted(h: History) {
    h.s.lost == Wrap32(SmallGaps(h.seen) + h.evictions)
  }

  // Within the window the 16-bit answers are those of unbounded arithmetic.
  lemma ArrivalTracked(expected: int, e: int)
    requires -0x8000 <= e - expected <= 0x7FFF
    ensures NextExpected(Wrap16(expected), Wrap16(e)) == Wrap16(if e >= expected then e + 1 else expected)
    ensures GapLoss(Wrap16(expected), Wrap16(e)) == if 0 <= e - expected < 100 then e - expected else 0
  {
    TrackingStep(expected, e);
    SignInWindow(e - expected);
    WrapDifference(e, expected);
  }

  // The sums over one more arrival.
  lemma OneMoreSeen(seen: seq<int>, e: int)
    ensures var seen' := seen + [e];
            && SmallGaps(seen') == SmallGaps(seen) + (if 0 <= Lead(seen, e) < 100 then Lead(seen, e) else 0)
            && ExpectedOf(seen') == if seen == [] || e >= ExpectedOf(seen) then e + 1 else ExpectedOf(seen)
  {
    assert (seen + [e])[..|seen|] == seen;
  }

  lemma InsertTracks(cfg: Config, h: History, e: Event, sorted: seq<Item>)
    requires Tracked(h) && LossCounted(h) && e.Insert?
    requires e.packet.Sequence() == Wrap16(e.extended) && InWindow(h.seen, e.extended)
    ensures var h' := InsertInto(cfg, h, e, sorted); Tracked(h') && LossCounted(h')
    ensures h.seen != [] ==> ExpectedOf(h.seen) <= ExpectedOf(h.seen + [e.extended])
  {
    hide Adapted, Depth, Marked, Overflow, Packets, Wrap16, Wrap32, GapLoss, NextExpected;
    hide SmallGaps, ExpectedOf, MaxOf;
    var seen' := h.seen + [e.extended];
    OneMoreSeen(h.seen, e.extended);
    hide Lead;
    var expected := if h.seen == [] then e.extended else ExpectedOf(h.seen);
    var d := e.extended - expected;
    LeadIs(h.seen, e.extended, expected);
    assert Base(h.s, e.packet) == Wrap16(expected);
    ArrivalTracked(expected, e.extended);
    Wrap32Adds(SmallGaps(h.seen) + h.evictions, if 0 <= d < 100 then d else 0);
    Wrap32Adds(SmallGaps(seen') + h.evictions, Overflow(sorted));
  }

  lemma LeadIs(seen: seq<int>, e: int, expected: int)
    requires expected == if seen == [] then e else ExpectedOf(seen)
    ensures Lead(seen, e) == e - expected
  {
    hide ExpectedOf;
  }

  lemma StepTracks(cfg: Config, h: History, e: Event, h': History)
    requires Tracked(h) && LossCounted(h) && Step(cfg, h, e, h')
    requires e.Insert? ==> InWindow(h.seen, e.extended)
    ensures Tracked(h') && LossCounted(h')
    ensures e.Insert? && h.seen != [] ==> h'.seen != [] && ExpectedOf(h.seen) <= ExpectedOf(h'.seen)
  {
    hide AfterInsert, SortedPermutation;
    if e.Insert? {
      var sorted :| SortedPermutation(Arrived(h.s, e.packet, e.now), sorted) && h' == InsertInto(cfg, h, e, sorted);
      InsertTracks(cfg, h, e, sorted);
    }
  }

  /** Across any number of wraps and any reordering within the window, the 16-bit expected number
      is one past the largest extended number seen, modulo 2^16, a number that no arrival takes back;
      and the loss counter is the sum of the gaps below 100 plus the evictions, modulo 2^32. */
  lemma {:induction false} RunTracks(cfg: Config, hs: seq<History>, es: seq<Event>, n: nat)
    requires Run(cfg, hs, es) && Windowed(hs, es) && n < |hs|
    ensures Tracked(hs[n]) && LossCounted(hs[n])
    ensures n > 0 && es[n - 1].Insert? && hs[n - 1].seen != [] ==>
              hs[n].seen != [] && ExpectedOf(hs[n - 1].seen) <= ExpectedOf(hs[n].seen)
  {
    if n > 0 {
      RunTracks(cfg, hs, es, n - 1);
      StepTracks(cfg, hs[n - 1], es[n - 1], hs[n]);
    }
  }

  /** The accounting telescopes: what the expected number has advanced by is one per advancing
      packet plus every gap, counted or skipped. */
  lemma {:induction false} LossTelescopes(seen: seq<int>)
    requires seen != []
    ensures ExpectedOf(seen) - seen[0] == Advancing(seen) + SmallGaps(seen) + LargeGaps(seen)
  {
    if |seen| > 1 {
      LossTelescopes(seen[..|seen| - 1]);
    } else {
      assert seen[..0] == [];
    }
  }

  ghost function Interval(lo: int, hi: int): (r: set<int>)
    requires lo <= hi
    ensures forall x :: x in r <==> lo <= x < hi
    ensures |r| == hi - lo
    decreases hi - lo
  {
    if lo == hi then {} else Interval(lo, hi - 1) + {hi - 1}
  }

  // The numbers between the first and the last arrival that did not arrive.
  ghost function Missing(seen: seq<int>): set<int>
    requires seen != [] && seen[0] < ExpectedOf(seen)
  {
    set x | x in Interval(seen[0], ExpectedOf(seen)) && x !in seen
  }

  ghost predicate InOrderSteps(seen: seq<int>, limit: int) {
    forall i :: 0 < i < |seen| ==> seen[i - 1] < seen[i] <= seen[i - 1] + limit
  }

  lemma {:induction false} InOrderMax(seen: seq<int>)
    requires seen != [] && InOrderSteps(seen, 100)
    ensures MaxOf(seen) == seen[|seen| - 1]
    ensures forall x :: x in seen ==> seen[0] <= x <= seen[|seen| - 1]
  {
    if |seen| > 1 {
      var before, e := seen[..|seen| - 1], seen[|seen| - 1];
      LastSplit(seen);
      InOrderMax(before);
      assert before[|before| - 1] == seen[|seen| - 2] < e;
      forall x | x in seen
        ensures seen[0] <= x <= e
      {
        assert x in before || x == e;
        assert before[0] in before;
      }
    }
  }

  lemma InOrderPrefix(before: seq<int>, e: int)
    requires before != [] && InOrderSteps(before + [e], 100)
    ensures InOrderSteps(before, 100) && before[|before| - 1] < e
  {
    var seen := before + [e];
    assert forall i :: 0 <= i < |before| ==> before[i] == seen[i];
    assert seen[|before| - 1] < seen[|before|];
  }

  lemma MissingSplit(before: seq<int>, e: int)
    requires before != [] && InOrderSteps(before + [e], 100)
    ensures before[0] < ExpectedOf(before) <= e == MaxOf(before + [e])
    ensures |Missing(before + [e])| == |Missing(before)| + e - ExpectedOf(before)
  {
    var seen := before + [e];
    InOrderPrefix(before, e);
    InOrderMax(before);
    InOrderMax(seen);
    assert before[0] in before;
    GapMissing(before, e);
  }

  lemma GapMissing(before: seq<int>, e: int)
    requires before != [] && before[0] < ExpectedOf(before) <= e == MaxOf(before + [e])
    requires forall x :: x in before ==> x < ExpectedOf(before)
    ensures |Missing(before + [e])| == |Missing(before)| + e - ExpectedOf(before)
  {
    hide MaxOf, Interval;
    var gap := Interval(ExpectedOf(before), e);
    forall x
      ensures x in Missing(before + [e]) <==> x in Missing(before) + gap
    {
      assert x in before + [e] <==> x in before || x == e;
    }
    assert Missing(before + [e]) == Missing(before) + gap;
    assert Missing(before) !! gap;
  }

  /** For a stream in order whose steps are at most 100, the gaps counted are exactly the packets missing. */
  lemma {:induction false} InOrderLossExact(seen: seq<int>)
    requires seen != [] && InOrderSteps(seen, 100)
    ensures seen[0] < ExpectedOf(seen) && SmallGaps(seen) == |Missing(seen)|
  {
    if |seen| == 1 {
      OneSeenNoneMissing(seen);
    } else {
      hide Missing, MaxOf, Interval, SmallGaps, ExpectedOf, Lead;
      var before, e := seen[..|seen| - 1], seen[|seen| - 1];
      LastSplit(seen);
      InOrderPrefix(before, e);
      InOrderLossExact(before);
      MissingSplit(before, e);
      SmallLead(before, e);
      OneMoreSeen(before, e);
    }
  }

  lemma OneSeenNoneMissing(seen: seq<int>)
    requires |seen| == 1
    ensures seen[0] < ExpectedOf(seen) && SmallGaps(seen) == 0 == |Missing(seen)|
  {
    assert SmallGaps(seen[..0]) == 0;
    assert Missing(seen) == {};
  }

  lemma SmallLead(before: seq<int>, e: int)
    requires before != [] && InOrderSteps(before + [e], 100)
    ensures Lead(before, e) == e - ExpectedOf(before) && 0 <= Lead(before, e) < 100
  {
    InOrderPrefix(before, e);
    InOrderMax(before);
    hide MaxOf;
    var seen := before + [e];
    assert seen[|before|] <= seen[|before| - 1] + 100;
  }

  /** So the loss counter of such a stream is the number of packets missing plus evictions, modulo 2^32. */
  lemma InOrderLossCounter(cfg: Config, hs: seq<History>, es: seq<Event>, n: nat)
    requires Run(cfg, hs, es) && Windowed(hs, es) && n < |hs|
    requires hs[n].seen != [] && InOrderSteps(hs[n].seen, 100)
    ensures hs[n].seen[0] < ExpectedOf(hs[n].seen)
    ensures hs[n].s.lost == Wrap32(|Missing(hs[n].seen)| + hs[n].evictions)
  {
    RunTracks(cfg, hs, es, n);
    InOrderLossExact(hs[n].seen);
  }

  // ---- The adaptive delay ----

  ghost predicate SoundConfig(cfg: Config) {
    4 <= cfg.minDelay <= cfg.maxDelay && cfg.initialDelay <= cfg.maxDelay && cfg.maxDelay + 10 < TWO32
  }

  ghost predicate DelayBounded(cfg: Config, delay: uint32) {
    Min(cfg.initialDelay, cfg.minDelay) <= delay <= cfg.maxDelay
  }

  lemma DelayStep(cfg: Config, delay: uint32, jitter: uint32, depth: uint32)
    requires SoundConfig(cfg) && DelayBounded(cfg, delay)
    ensures DelayBounded(cfg, Adapted(cfg, delay, jitter, depth))
    ensures delay >= cfg.minDelay ==> Adapted(cfg, delay, jitter, depth) >= cfg.minDelay
    ensures Wrap32(delay + 10) == delay + 10
    ensures delay > cfg.minDelay ==> Wrap32(delay - 5) == delay - 5
  {
  }

  /** Whatever jitter arrives, the delay stays between the smaller of initial and minimum, and the maximum. */
  lemma {:induction false} RunBoundsDelay(cfg: Config, hs: seq<History>, es: seq<Event>, n: nat)
    requires SoundConfig(cfg) && Run(cfg, hs, es) && n < |hs|
    ensures DelayBounded(cfg, hs[n].s.delay)
  {
    hide Adapted;
    if n > 0 {
      RunBoundsDelay(cfg, hs, es, n - 1);
      var h, e, h' := hs[n - 1], es[n - 1], hs[n];
      assert Step(cfg, h, e, h');
      if e.Insert? {
        var sorted :| SortedPermutation(Arrived(h.s, e.packet, e.now), sorted) && h' == InsertInto(cfg, h, e, sorted);
        DelayStep(cfg, h.s.delay, e.jitter, Depth(sorted));
      }
    }
  }

  /** A minimum of 4 is exactly what keeps lowering the delay from raising it: below that, the
      subtraction of 5 wraps for some delay above the minimum. */
  lemma SubtractionIsSafe(cfg: Config)
    ensures (forall delay: uint32 :: cfg.minDelay < delay ==> Adapted(cfg, delay, 0, 0) <= delay)
            <==> 4 <= cfg.minDelay
  {
    if cfg.minDelay < 4 {
      var delay: uint32 := if cfg.minDelay == 0 then 2 else cfg.minDelay + 1;
      assert Wrap32(delay - 5) == TWO32 + delay - 5;
      assert Adapted(cfg, delay, 0, 0) > delay;
    }
  }
}
