// The epoll loop's descriptor map and timer list (src/net/io_multiplexer.cpp).
module IoMultiplexers {
  import opened Words

  const UINT64_MAX: uint64 := TWO64 - 1
  const TWO31 := 0x8000_0000
  const TWO63 := 0x8000_0000_0000_0000

  datatype Timer = Timer(id: uint64, interval: uint64, recurring: bool, nextFire: uint64)

  predicate Due(t: Timer, now: uint64) { now >= t.nextFire }

  // What a pass at `now` leaves of a timer: a due one is set anew, or marked spent.
  function Rearmed(t: Timer, now: uint64): Timer {
    if !Due(t, now) then t
    else t.(nextFire := if t.recurring then Wrap64(now + t.interval) else UINT64_MAX)
  }

  predicate MarkedSpent(t: Timer) { !t.recurring && t.nextFire == UINT64_MAX }

  function FiredIds(ts: seq<Timer>, now: uint64): seq<uint64> {
    if ts == [] then []
    else FiredIds(ts[..|ts| - 1], now) + if Due(ts[|ts| - 1], now) then [ts[|ts| - 1].id] else []
  }

  /** The list after a pass as the code leaves it: marked timers are erased. */
  function AfterPass(ts: seq<Timer>, now: uint64): seq<Timer> {
    if ts == [] then []
    else
      var t := Rearmed(ts[|ts| - 1], now);
      AfterPass(ts[..|ts| - 1], now) + if MarkedSpent(t) then [] else [t]
  }

  /** The list as it should be: the one-shots that fired are gone, everything else is kept in order. */
  function Surviving(ts: seq<Timer>, now: uint64): seq<Timer> {
    if ts == [] then []
    else
      var t := ts[|ts| - 1];
      Surviving(ts[..|ts| - 1], now) + if Due(t, now) && !t.recurring then [] else [Rearmed(t, now)]
  }

  // A one-shot that has not fired but carries the mark.
  predicate LooksSpent(t: Timer, now: uint64) { !Due(t, now) && MarkedSpent(t) }

  lemma {:induction false} PassNeverKeepsMore(ts: seq<Timer>, now: uint64)
    ensures |AfterPass(ts, now)| <= |Surviving(ts, now)|
    ensures (exists t :: t in ts && LooksSpent(t, now)) ==> |AfterPass(ts, now)| < |Surviving(ts, now)|
  {
    if ts != [] {
      var init, last := ts[..|ts| - 1], ts[|ts| - 1];
      PassNeverKeepsMore(init, now);
      assert ts == init + [last];
    }
  }

  /** A pass removes exactly the one-shots it fired, unless an unfired one-shot is set for the very
      last millisecond of the 64-bit clock, which is the mark of a spent one. */
  lemma {:induction false} PassRemovesFiredOneShots(ts: seq<Timer>, now: uint64)
    ensures AfterPass(ts, now) == Surviving(ts, now) <==> forall t :: t in ts ==> !LooksSpent(t, now)
  {
    if exists t :: t in ts && LooksSpent(t, now) {
      PassNeverKeepsMore(ts, now);
    } else if ts != [] {
      var init, last := ts[..|ts| - 1], ts[|ts| - 1];
      assert forall t :: t in init ==> t in ts;
      PassRemovesFiredOneShots(init, now);
      assert !LooksSpent(last, now);
    }
  }

  /** After a pass a timer is due in the future exactly when it was not due, or it recurs with a
      positive interval that does not carry it past the 64-bit clock, or it was a one-shot and time is left. */
  lemma RearmedIsAhead(t: Timer, now: uint64)
    ensures !Due(Rearmed(t, now), now) <==>
              !Due(t, now)
              || (t.recurring && 0 < t.interval && now + t.interval < TWO64)
              || (!t.recurring && now < UINT64_MAX)
  {
    if now + t.interval >= TWO64 {
      assert Wrap64(now + t.interval) == now + t.interval - TWO64;
    }
  }

  /** A recurring timer stays in the list through every pass, and only the pass changes it. */
  lemma {:induction false} RecurringSurvives(ts: seq<Timer>, t: Timer, now: uint64)
    requires t in ts && t.recurring
    ensures Rearmed(t, now) in AfterPass(ts, now)
    ensures t.id in FiredIds(ts, now) || !Due(t, now)
  {
    var init, last := ts[..|ts| - 1], ts[|ts| - 1];
    assert ts == init + [last];
    if t in init {
      RecurringSurvives(init, t, now);
    }
  }

  /** The list without the timers of one id, the rest in order. */
  function Without(ts: seq<Timer>, id: uint64): seq<Timer> {
    if ts == [] then []
    else Without(ts[..|ts| - 1], id) + if ts[|ts| - 1].id == id then [] else [ts[|ts| - 1]]
  }

  lemma {:induction false} WithoutAbsent(ts: seq<Timer>, id: uint64)
    ensures Without(ts, id) == ts <==> forall t :: t in ts ==> t.id != id
    ensures |Without(ts, id)| <= |ts|
  {
    if ts != [] {
      var init, last := ts[..|ts| - 1], ts[|ts| - 1];
      assert ts == init + [last];
      WithoutAbsent(init, id);
    }
  }

  /** Removing a timer undoes adding it exactly when its id was not in use, as it is until the
      64-bit counter comes round. */
  lemma RemoveUndoesAdd(ts: seq<Timer>, t: Timer)
    ensures Without(ts + [t], t.id) == ts <==> forall u :: u in ts ==> u.id != t.id
  {
    assert (ts + [t])[..|ts|] == ts;
    WithoutAbsent(ts, t.id);
  }

  // ---- The timer list over a run of the loop ----

  /** What happens to the list: a pass of FireTimers, AddTimer, RemoveTimer. */
  datatype Event =
    | Pass(now: uint64)
    | Add(interval: uint64, recurring: bool, now: uint64)
    | Remove(id: uint64)

  datatype Loop = Loop(timers: seq<Timer>, nextId: uint64)

  function Next(l: Loop, e: Event): Loop {
    match e
    case Pass(now) => l.(timers := AfterPass(l.timers, now))
    case Add(interval, recurring, now) =>
      Loop(l.timers + [Timer(l.nextId, interval, recurring, Wrap64(now + interval))], Wrap64(l.nextId + 1))
    case Remove(id) => l.(timers := Without(l.timers, id))
  }

  ghost predicate Run(ls: seq<Loop>, es: seq<Event>) {
    && |ls| == |es| + 1 && ls[0] == Loop([], 1)
    && forall i :: 0 <= i < |es| ==> ls[i + 1] == Next(ls[i], es[i])
  }

  // The list is in order of the ids, all of them given out already.
  ghost predicate IdsInOrder(ts: seq<Timer>, nextId: int) {
    && (forall i, j :: 0 <= i < j < |ts| ==> ts[i].id < ts[j].id)
    && (forall t :: t in ts ==> t.id < nextId)
  }

  lemma {:induction false} PassKeepsOrder(ts: seq<Timer>, now: uint64, nextId: int)
    requires IdsInOrder(ts, nextId)
    ensures IdsInOrder(AfterPass(ts, now), nextId)
    decreases |ts|
  {
    if ts != [] {
      var init, last := ts[..|ts| - 1], ts[|ts| - 1];
      assert IdsInOrder(init, last.id) by {
        assert forall t :: t in init ==> t in ts;
      }
      PassKeepsOrder(init, now, last.id);
      assert last in ts;
    }
  }

  lemma {:induction false} RemoveKeepsOrder(ts: seq<Timer>, id: uint64, nextId: int)
    requires IdsInOrder(ts, nextId)
    ensures IdsInOrder(Without(ts, id), nextId)
    decreases |ts|
  {
    if ts != [] {
      var init, last := ts[..|ts| - 1], ts[|ts| - 1];
      assert IdsInOrder(init, last.id) by {
        assert forall t :: t in init ==> t in ts;
      }
      RemoveKeepsOrder(init, id, last.id);
      assert last in ts;
    }
  }

  /** Until the 64-bit counter comes round, the timers in the list have ids of their own. */
  lemma {:induction false} RunKeepsIds(ls: seq<Loop>, es: seq<Event>, n: nat)
    requires Run(ls, es) && n < |ls| < TWO64
    ensures 1 <= ls[n].nextId <= n + 1 && IdsInOrder(ls[n].timers, ls[n].nextId)
  {
    hide AfterPass, Without, IdsInOrder;
    if n == 0 {
      assert IdsInOrder([], 1) by { NoIds(); }
    } else {
      RunKeepsIds(ls, es, n - 1);
      var l, e := ls[n - 1], es[n - 1];
      assert ls[n] == Next(l, e);
      match e
      case Pass(now) => PassKeepsOrder(l.timers, now, l.nextId);
      case Add(interval, recurring, now) =>
        AddKeepsOrder(l.timers, Timer(l.nextId, interval, recurring, Wrap64(now + interval)));
      case Remove(id) => RemoveKeepsOrder(l.timers, id, l.nextId);
    }
  }

  lemma NoIds()
    ensures IdsInOrder([], 1)
  {
  }

  lemma AddKeepsOrder(ts: seq<Timer>, t: Timer)
    requires IdsInOrder(ts, t.id)
    ensures IdsInOrder(ts + [t], t.id + 1)
  {
    assert forall i :: 0 <= i < |ts| ==> ts[i] in ts;
  }

  lemma SameIdSameTimer(ts: seq<Timer>, nextId: int, t: Timer, u: Timer)
    requires IdsInOrder(ts, nextId) && t in ts && u in ts && t.id == u.id
    ensures t == u
  {
  }

  // ---- What a pass fires ----

  lemma LastSplitTimers(ts: seq<Timer>)
    requires ts != []
    ensures ts == ts[..|ts| - 1] + [ts[|ts| - 1]] && ts[|ts| - 1] in ts
  {
  }

  // A timer of this id is due.
  ghost predicate DueUnder(ts: seq<Timer>, now: uint64, id: uint64) {
    exists t :: t in ts && t.id == id && now >= t.nextFire
  }

  lemma DueOfMore(init: seq<Timer>, last: Timer, now: uint64, id: uint64)
    ensures DueUnder(init + [last], now, id) <==> DueUnder(init, now, id) || (last.id == id && now >= last.nextFire)
  {
    if t :| t in init && t.id == id && now >= t.nextFire {
      assert t in init + [last];
    }
    assert last in init + [last];
  }

  lemma {:induction false} FiredIffDue(ts: seq<Timer>, now: uint64, id: uint64)
    ensures id in FiredIds(ts, now) <==> DueUnder(ts, now, id)
    decreases |ts|
  {
    hide DueUnder;
    if ts == [] {
      assert !DueUnder([], now, id) by { NoneDue(now, id); }
    } else {
      LastSplitTimers(ts);
      FiredIffDue(ts[..|ts| - 1], now, id);
      DueOfMore(ts[..|ts| - 1], ts[|ts| - 1], now, id);
    }
  }

  lemma NoneDue(now: uint64, id: uint64)
    ensures !DueUnder([], now, id)
  {
  }

  ghost predicate IncreasingBelow(ids: seq<uint64>, bound: int) {
    && (forall i, j :: 0 <= i < j < |ids| ==> ids[i] < ids[j])
    && (forall i :: 0 <= i < |ids| ==> ids[i] < bound)
  }

  lemma OneMoreId(ids: seq<uint64>, id: uint64, bound: int)
    requires IncreasingBelow(ids, id) && id < bound
    ensures IncreasingBelow(ids, bound) && IncreasingBelow(ids + [id], bound)
  {
  }

  lemma {:induction false} FiredIncrease(ts: seq<Timer>, now: uint64, nextId: int)
    requires IdsInOrder(ts, nextId)
    ensures IncreasingBelow(FiredIds(ts, now), nextId)
    decreases |ts|
  {
    hide IncreasingBelow;
    if ts == [] {
      assert IncreasingBelow([], nextId) by { NoIdsFired(nextId); }
    } else {
      var init, last := ts[..|ts| - 1], ts[|ts| - 1];
      LastSplitTimers(ts);
      InitInOrder(ts, nextId);
      hide IdsInOrder;
      FiredIncrease(init, now, last.id);
      OneMoreId(FiredIds(init, now), last.id, nextId);
      assert FiredIds(init, now) + [] == FiredIds(init, now);
    }
  }

  lemma NoIdsFired(bound: int)
    ensures IncreasingBelow([], bound)
  {
  }

  lemma InitInOrder(ts: seq<Timer>, nextId: int)
    requires ts != [] && IdsInOrder(ts, nextId)
    ensures IdsInOrder(ts[..|ts| - 1], ts[|ts| - 1].id) && ts[|ts| - 1].id < nextId
  {
    assert forall t :: t in ts[..|ts| - 1] ==> t in ts;
    assert ts[|ts| - 1] in ts;
  }

  /** In every reachable state a pass calls exactly the timers that are due, recurring or not, each of
      them once, in the order in which they were added. */
  lemma PassFiresExactlyDue(ls: seq<Loop>, es: seq<Event>, n: nat, now: uint64)
    requires Run(ls, es) && n < |ls| < TWO64
    ensures var ids := FiredIds(ls[n].timers, now);
            && (forall i, j :: 0 <= i < j < |ids| ==> ids[i] < ids[j])
            && (forall id :: id in ids <==> exists t :: t in ls[n].timers && t.id == id && now >= t.nextFire)
  {
    hide IdsInOrder;
    RunKeepsIds(ls, es, n);
    FiredIncrease(ls[n].timers, now, ls[n].nextId);
    forall id: uint64
      ensures id in FiredIds(ls[n].timers, now) <==> DueUnder(ls[n].timers, now, id)
    {
      FiredIffDue(ls[n].timers, now, id);
    }
    hide FiredIds;
  }

  // ---- Spacing of firings ----

  predicate FiresIn(l: Loop, e: Event, id: uint64) { e.Pass? && id in FiredIds(l.timers, e.now) }

  lemma {:induction false} FiredIsDue(ts: seq<Timer>, id: uint64, now: uint64) returns (t: Timer)
    requires id in FiredIds(ts, now)
    ensures t in ts && t.id == id && Due(t, now)
    decreases |ts|
  {
    var init, last := ts[..|ts| - 1], ts[|ts| - 1];
    if id in FiredIds(init, now) {
      t := FiredIsDue(init, id, now);
    } else {
      t := last;
    }
  }

  lemma {:induction false} OthersStay(ts: seq<Timer>, t: Timer, id: uint64)
    requires t in ts && t.id != id
    ensures t in Without(ts, id)
    decreases |ts|
  {
    var init, last := ts[..|ts| - 1], ts[|ts| - 1];
    assert ts == init + [last];
    if t in init {
      OthersStay(init, t, id);
    }
  }

  lemma {:induction false} StaysOrFires(ts: seq<Timer>, t: Timer, now: uint64)
    requires t in ts && !MarkedSpent(t)
    ensures if Due(t, now) then t.id in FiredIds(ts, now) else t in AfterPass(ts, now)
    decreases |ts|
  {
    LastSplitTimers(ts);
    if t in ts[..|ts| - 1] {
      StaysOrFires(ts[..|ts| - 1], t, now);
    }
  }

  // A timer that fires in none of the steps stays as it is.
  lemma {:induction false} QuietStays(ls: seq<Loop>, es: seq<Event>, t: Timer, i: nat, j: nat)
    requires Run(ls, es) && i <= j <= |es| && !MarkedSpent(t) && t in ls[i].timers
    requires forall k :: i <= k < j ==> es[k] != Remove(t.id) && !FiresIn(ls[k], es[k], t.id)
    ensures t in ls[j].timers
    decreases j - i
  {
    hide AfterPass, Without;
    if i < j {
      QuietStays(ls, es, t, i, j - 1);
      var l, e := ls[j - 1], es[j - 1];
      assert ls[j] == Next(l, e) && !FiresIn(l, e, t.id);
      if e.Pass? {
        StaysOrFires(l.timers, t, e.now);
      } else if e.Remove? {
        OthersStay(l.timers, t, e.id);
      }
    }
  }

  // Whatever timer has the id, it is of this kind.
  ghost predicate OfKind(ts: seq<Timer>, id: uint64, interval: uint64, recurring: bool) {
    forall t :: t in ts && t.id == id ==> t.interval == interval && t.recurring == recurring
  }

  lemma {:induction false} PassKeepsKind(ts: seq<Timer>, now: uint64, id: uint64, interval: uint64, recurring: bool)
    requires OfKind(ts, id, interval, recurring)
    ensures OfKind(AfterPass(ts, now), id, interval, recurring)
    decreases |ts|
  {
    if ts != [] {
      LastSplitTimers(ts);
      assert forall t :: t in ts[..|ts| - 1] ==> t in ts;
      PassKeepsKind(ts[..|ts| - 1], now, id, interval, recurring);
    }
  }

  lemma {:induction false} RemoveKeepsKind(ts: seq<Timer>, other: uint64, id: uint64, interval: uint64, recurring: bool)
    requires OfKind(ts, id, interval, recurring)
    ensures OfKind(Without(ts, other), id, interval, recurring)
    decreases |ts|
  {
    if ts != [] {
      LastSplitTimers(ts);
      assert forall t :: t in ts[..|ts| - 1] ==> t in ts;
      RemoveKeepsKind(ts[..|ts| - 1], other, id, interval, recurring);
    }
  }

  lemma {:induction false} KindStays(ls: seq<Loop>, es: seq<Event>, a: nat, j: nat)
    requires Run(ls, es) && |ls| < TWO64 && a < j < |ls| && es[a].Add?
    ensures ls[a].nextId < ls[j].nextId
    ensures OfKind(ls[j].timers, ls[a].nextId, es[a].interval, es[a].recurring)
    decreases j
  {
    hide AfterPass, Without;
    var l, e, id := ls[j - 1], es[j - 1], ls[a].nextId;
    RunKeepsIds(ls, es, j - 1);
    assert ls[j] == Next(l, e);
    if j > a + 1 {
      KindStays(ls, es, a, j - 1);
      match e
      case Pass(now) => PassKeepsKind(l.timers, now, id, es[a].interval, es[a].recurring);
      case Add(_, _, _) =>
      case Remove(other) => RemoveKeepsKind(l.timers, other, id, es[a].interval, es[a].recurring);
    }
  }

  /** Over every run a timer keeps the interval and the kind it was added with. */
  lemma TimersKeepKind(ls: seq<Loop>, es: seq<Event>, a: nat, j: nat, t: Timer)
    requires Run(ls, es) && |ls| < TWO64 && a < j < |ls| && es[a].Add?
    requires t in ls[j].timers && t.id == ls[a].nextId
    ensures t.interval == es[a].interval && t.recurring == es[a].recurring
  {
    KindStays(ls, es, a, j);
  }

  /** A new timer first fires at the first pass that comes its interval or more after it was added. */
  lemma FirstFiring(ls: seq<Loop>, es: seq<Event>, a: nat, j: nat)
    requires Run(ls, es) && |ls| < TWO64 && a < j < |es|
    requires es[a].Add? && es[a].now + es[a].interval < TWO64 - 1
    requires forall k :: a < k < j ==> es[k] != Remove(ls[a].nextId) && !FiresIn(ls[k], es[k], ls[a].nextId)
    ensures FiresIn(ls[j], es[j], ls[a].nextId) <==> es[j].Pass? && es[j].now >= es[a].now + es[a].interval
  {
    hide AfterPass, FiredIds, IdsInOrder;
    var t := Timer(ls[a].nextId, es[a].interval, es[a].recurring, es[a].now + es[a].interval);
    assert ls[a + 1] == Next(ls[a], es[a]) && t in ls[a + 1].timers;
    QuietStays(ls, es, t, a + 1, j);
    RunKeepsIds(ls, es, j);
    if es[j].Pass? {
      StaysOrFires(ls[j].timers, t, es[j].now);
      if t.id in FiredIds(ls[j].timers, es[j].now) {
        var u := FiredIsDue(ls[j].timers, t.id, es[j].now);
        SameIdSameTimer(ls[j].timers, ls[j].nextId, t, u);
      }
    }
  }

  // No timer has the id, and none will be given it.
  ghost predicate Gone(l: Loop, id: uint64) { id < l.nextId && forall t :: t in l.timers ==> t.id != id }

  lemma {:induction false} PassAddsNoId(ts: seq<Timer>, now: uint64, id: uint64)
    requires forall t :: t in ts ==> t.id != id
    ensures forall t :: t in AfterPass(ts, now) ==> t.id != id
    decreases |ts|
  {
    if ts != [] {
      LastSplitTimers(ts);
      PassAddsNoId(ts[..|ts| - 1], now, id);
    }
  }

  lemma {:induction false} RemoveAddsNoId(ts: seq<Timer>, other: uint64, id: uint64)
    requires forall t :: t in ts ==> t.id != id
    ensures forall t :: t in Without(ts, other) ==> t.id != id
    decreases |ts|
  {
    if ts != [] {
      LastSplitTimers(ts);
      RemoveAddsNoId(ts[..|ts| - 1], other, id);
    }
  }

  lemma {:induction false} StaysGone(ls: seq<Loop>, es: seq<Event>, id: uint64, i: nat, j: nat)
    requires Run(ls, es) && |ls| < TWO64 && i <= j < |ls| && Gone(ls[i], id)
    ensures Gone(ls[j], id)
    decreases j
  {
    hide AfterPass, Without;
    if i < j {
      StaysGone(ls, es, id, i, j - 1);
      RunKeepsIds(ls, es, j - 1);
      var l, e := ls[j - 1], es[j - 1];
      assert ls[j] == Next(l, e);
      match e
      case Pass(now) => PassAddsNoId(l.timers, now, id);
      case Add(_, _, _) =>
      case Remove(other) => RemoveAddsNoId(l.timers, other, id);
    }
  }

  // A pass leaves nothing of a due one-shot whose id is its own.
  lemma {:induction false} DueOneShotGoes(ts: seq<Timer>, t: Timer, now: uint64)
    requires !t.recurring && Due(t, now) && forall u :: u in ts && u.id == t.id ==> u == t
    ensures forall u :: u in AfterPass(ts, now) ==> u.id != t.id
    decreases |ts|
  {
    if ts != [] {
      LastSplitTimers(ts);
      assert forall u :: u in ts[..|ts| - 1] ==> u in ts;
      DueOneShotGoes(ts[..|ts| - 1], t, now);
    }
  }

  lemma FiredOneShotIsGone(ts: seq<Timer>, t: Timer, now: uint64, nextId: int)
    requires IdsInOrder(ts, nextId) && t in ts && !t.recurring && t.id in FiredIds(ts, now)
    ensures forall u :: u in AfterPass(ts, now) ==> u.id != t.id
  {
    hide FiredIds, AfterPass;
    var due := FiredIsDue(ts, t.id, now);
    hide Due;
    assert forall u :: u in ts && u.id == t.id ==> u == t;
    DueOneShotGoes(ts, t, now);
  }

  /** A one-shot fires once: after the pass that fires it no pass ever does again. */
  lemma OneShotFiresOnce(ls: seq<Loop>, es: seq<Event>, t: Timer, i: nat, j: nat)
    requires Run(ls, es) && |ls| < TWO64 && i < j < |es|
    requires t in ls[i].timers && !t.recurring && FiresIn(ls[i], es[i], t.id)
    ensures !FiresIn(ls[j], es[j], t.id)
  {
    hide AfterPass, FiredIds, IdsInOrder;
    RunKeepsIds(ls, es, i);
    FiredOneShotIsGone(ls[i].timers, t, es[i].now, ls[i].nextId);
    assert ls[i + 1] == Next(ls[i], es[i]);
    assert t.id < ls[i].nextId by { IdGivenOut(ls[i].timers, ls[i].nextId, t); }
    StaysGone(ls, es, t.id, i + 1, j);
    if FiresIn(ls[j], es[j], t.id) {
      var u := FiredIsDue(ls[j].timers, t.id, es[j].now);
    }
  }

  lemma IdGivenOut(ts: seq<Timer>, nextId: int, t: Timer)
    requires IdsInOrder(ts, nextId) && t in ts
    ensures t.id < nextId
  {
  }

  // The last pass before step j.
  ghost predicate PassBefore(es: seq<Event>, p: nat, j: nat)
    requires j <= |es|
  {
    p < j && es[p].Pass? && forall k :: p < k < j ==> !es[k].Pass?
  }

  lemma {:induction false} HasPassBefore(es: seq<Event>, i: nat, j: nat) returns (p: nat)
    requires i < j <= |es| && es[i].Pass?
    ensures i <= p && PassBefore(es, p, j)
    decreases j
  {
    if es[j - 1].Pass? {
      p := j - 1;
    } else {
      p := HasPassBefore(es, i, j - 1);
    }
  }

  /** Passes come at most `gap` ms after one another. */
  ghost predicate PassesWithin(es: seq<Event>, gap: nat) {
    forall p: nat, j: nat :: j < |es| && es[j].Pass? && PassBefore(es, p, j) ==>
      es[p].now <= es[j].now <= es[p].now + gap
  }

  /** Over every run in which timers come and go and passes are at most `gap` ms apart, successive
      firings of a recurring timer of interval I are at least I and less than I + gap ms apart. */
  lemma FiringsAreSpaced(ls: seq<Loop>, es: seq<Event>, gap: nat, t: Timer, i: nat, j: nat)
    requires Run(ls, es) && |ls| < TWO64 && PassesWithin(es, gap) && i < j < |es|
    requires t in ls[i].timers && t.recurring && 0 < t.interval
    requires FiresIn(ls[i], es[i], t.id) && FiresIn(ls[j], es[j], t.id)
    requires forall k :: i < k < j ==> es[k] != Remove(t.id) && !FiresIn(ls[k], es[k], t.id)
    requires es[i].now + t.interval < TWO64
    ensures t.interval <= es[j].now - es[i].now < t.interval + gap
  {
    hide AfterPass, FiredIds, IdsInOrder;
    RunKeepsIds(ls, es, i);
    RunKeepsIds(ls, es, j);
    var u := FiredIsDue(ls[i].timers, t.id, es[i].now);
    SameIdSameTimer(ls[i].timers, ls[i].nextId, t, u);
    RecurringSurvives(ls[i].timers, t, es[i].now);
    var t' := Rearmed(t, es[i].now);
    assert ls[i + 1] == Next(ls[i], es[i]) && t'.nextFire == es[i].now + t.interval;
    QuietStays(ls, es, t', i + 1, j);
    var v := FiredIsDue(ls[j].timers, t.id, es[j].now);
    SameIdSameTimer(ls[j].timers, ls[j].nextId, t', v);
    var p := HasPassBefore(es, i, j);
    if i < p {
      QuietStays(ls, es, t', i + 1, p);
      RecurringSurvives(ls[p].timers, t', es[p].now);
      assert !FiresIn(ls[p], es[p], t.id);
    }
  }

  // ---- The next timeout ----

  // The subtraction is made in 64 unsigned bits and read as signed.
  function Remaining(t: Timer, now: uint64): int {
    var d := Wrap64(t.nextFire - now);
    if d < TWO63 then d else d - TWO64
  }

  // static_cast<int>
  function Truncated(x: int): int {
    var d := Wrap32(x);
    if d < TWO31 then d else d - TWO32
  }

  function TimeoutFrom(ts: seq<Timer>, now: uint64, timeout: int): int
    decreases |ts|
  {
    if ts == [] then timeout
    else
      var r := Remaining(ts[0], now);
      if r <= 0 then 0
      else TimeoutFrom(ts[1..], now, if timeout < 0 || r < timeout then Truncated(r) else timeout)
  }

  function NextTimeout(ts: seq<Timer>, now: uint64): int { TimeoutFrom(ts, now, -1) }

  // The time left of a timer, in unbounded arithmetic; zero or less when it is due.
  function Left(t: Timer, now: uint64): int { t.nextFire - now }

  ghost predicate SomeDue(ts: seq<Timer>, now: uint64) { exists t :: t in ts && Due(t, now) }

  /** 0 if a timer is due, -1 if there is none, and otherwise the least time left. */
  ghost predicate IsNextTimeout(ts: seq<Timer>, now: uint64, timeout: int) {
    if ts == [] then timeout == -1
    else if SomeDue(ts, now) then timeout == 0
    else (exists t :: t in ts && Left(t, now) == timeout) && (forall t :: t in ts ==> timeout <= Left(t, now))
  }

  /** The time left reads as zero or negative: a timer due for no more than 2^63 ms, or one at
      least 2^63 ms ahead. */
  predicate ReadsAsDue(t: Timer, now: uint64) { -TWO63 <= Left(t, now) <= 0 || TWO63 <= Left(t, now) }

  /** The timeout the loop starts from: the low 32 bits of the time left of the first timer in which
      bit 31 is clear. */
  function Seed(ts: seq<Timer>, now: uint64): int
    decreases |ts|
  {
    if ts == [] then -1
    else if Wrap32(Left(ts[0], now)) < TWO31 then Wrap32(Left(ts[0], now))
    else Seed(ts[1..], now)
  }

  lemma RemainingIs(t: Timer, now: uint64)
    ensures Remaining(t, now) <= 0 <==> ReadsAsDue(t, now)
    ensures -TWO63 <= Left(t, now) < TWO63 ==> Remaining(t, now) == Left(t, now)
    ensures Wrap32(Remaining(t, now)) == Wrap32(Left(t, now))
  {
    var x := Left(t, now);
    if x < -TWO63 {
      assert Wrap64(x) == x + TWO64 == Remaining(t, now);
      assert Wrap32(x + TWO64) == Wrap32(x);
    } else if x < 0 {
      assert Wrap64(x) == x + TWO64;
    } else if TWO63 <= x {
      assert Wrap64(x) == x && Remaining(t, now) == x - TWO64;
      assert Wrap32(x - TWO64) == Wrap32(x);
    }
  }

  lemma {:induction false} DueGivesZero(ts: seq<Timer>, now: uint64, timeout: int)
    requires exists t :: t in ts && Remaining(t, now) <= 0
    ensures TimeoutFrom(ts, now, timeout) == 0
    decreases |ts|
  {
    var r := Remaining(ts[0], now);
    if r > 0 {
      assert ts == [ts[0]] + ts[1..];
      DueGivesZero(ts[1..], now, if timeout < 0 || r < timeout then Truncated(r) else timeout);
    }
  }

  lemma TruncatedIs(x: int)
    requires 0 <= x
    ensures Truncated(x) >= 0 <==> Wrap32(x) < TWO31
    ensures Truncated(x) >= 0 ==> Truncated(x) == Wrap32(x) <= x
    ensures x < TWO31 ==> Truncated(x) == x
    ensures -TWO31 <= Truncated(x) < TWO31
  {
  }

  // From a timeout in hand, only nearer timers change it.
  lemma {:induction false} LeastFrom(ts: seq<Timer>, now: uint64, timeout: int)
    requires 0 <= timeout < TWO31 && forall t :: t in ts ==> 0 < Remaining(t, now)
    ensures var r := TimeoutFrom(ts, now, timeout);
            && 0 <= r <= timeout && (forall t :: t in ts ==> r <= Remaining(t, now))
            && (r == timeout || exists t :: t in ts && Remaining(t, now) == r)
    decreases |ts|
  {
    hide Remaining, Truncated, Wrap32;
    if ts != [] {
      var r := Remaining(ts[0], now);
      assert ts[0] in ts && ts == [ts[0]] + ts[1..];
      TruncatedIs(r);
      LeastFrom(ts[1..], now, if r < timeout then r else timeout);
    }
  }

  // Timers whose truncated time is negative leave the loop without a timeout.
  lemma {:induction false} LeastFromNone(ts: seq<Timer>, now: uint64, timeout: int)
    requires -TWO31 <= timeout < 0 && forall t :: t in ts ==> 0 < Remaining(t, now)
    ensures var r := TimeoutFrom(ts, now, timeout);
            if Seed(ts, now) < 0 then r < 0
            else && 0 <= r <= Seed(ts, now) < TWO31 && (forall t :: t in ts ==> r <= Remaining(t, now))
                 && (r == Seed(ts, now) || exists t :: t in ts && Remaining(t, now) == r)
    decreases |ts|
  {
    hide Remaining, Truncated, Wrap32, Left, ReadsAsDue;
    if ts != [] {
      var r := Remaining(ts[0], now);
      assert ts[0] in ts && ts == [ts[0]] + ts[1..];
      TruncatedIs(r);
      RemainingIs(ts[0], now);
      if Truncated(r) >= 0 {
        LeastFrom(ts[1..], now, Truncated(r));
      } else {
        LeastFromNone(ts[1..], now, Truncated(r));
      }
    }
  }

  /** The timeout is right exactly when: with a timer due, some timer reads as due or the loop starts
      from 0; with none due, none reads as due and some timer's time left is no more than what the
      loop starts from. */
  lemma NextTimeoutIsRight(ts: seq<Timer>, now: uint64)
    ensures IsNextTimeout(ts, now, NextTimeout(ts, now)) <==>
              || ts == []
              || if SomeDue(ts, now) then (exists t :: t in ts && ReadsAsDue(t, now)) || Seed(ts, now) == 0
                 else && (forall t :: t in ts ==> !ReadsAsDue(t, now))
                      && (exists t :: t in ts && Left(t, now) <= Seed(ts, now))
  {
    hide Remaining, Truncated, Seed;
    forall t | t in ts
      ensures Remaining(t, now) <= 0 <==> ReadsAsDue(t, now)
      ensures !Due(t, now) && !ReadsAsDue(t, now) ==> Remaining(t, now) == Left(t, now)
    {
      RemainingIs(t, now);
    }
    if exists t :: t in ts && ReadsAsDue(t, now) {
      DueGivesZero(ts, now, -1);
    } else if ts != [] {
      LeastFromNone(ts, now, -1);
    }
  }

  /** Timers due for at most 2^63 ms or less than 2^31 ms ahead satisfy this. */
  lemma NearTimersAreEnough(ts: seq<Timer>, now: uint64)
    requires forall t :: t in ts ==> -TWO63 <= Left(t, now) < TWO31
    ensures IsNextTimeout(ts, now, NextTimeout(ts, now))
  {
    NextTimeoutIsRight(ts, now);
    if ts != [] {
      assert ts[0] in ts;
    }
  }

  /** A timer 2^32 ms ahead truncates to 0, and the loop would wake at once though nothing is due. */
  lemma FarTimerTruncates(t: Timer)
    requires t.nextFire == TWO32
    ensures NextTimeout([t], 0) == 0 && !IsNextTimeout([t], 0, 0)
  {
    assert [t][1..] == [];
    assert Remaining(t, 0) == TWO32 && Truncated(TWO32) == 0;
    assert NextTimeout([t], 0) == TimeoutFrom([], 0, 0);
    assert t in [t] && Left(t, 0) == TWO32;
  }

  /** A timer 2^63 ms ahead reads as due, at whatever time it is asked for. */
  lemma FartherTimerReadsAsDue(t: Timer, now: uint64)
    requires t.nextFire - now == TWO63
    ensures NextTimeout([t], now) == 0 && !Due(t, now) && !IsNextTimeout([t], now, 0)
  {
    RemainingIs(t, now);
    assert t in [t];
    DueGivesZero([t], now, -1);
  }

  /** A timer overdue for 2^63 + 1 ms does not: its truncated time left is -1, as if there were no timer. */
  lemma LongOverdueIsMissed(t: Timer, now: uint64)
    requires now - t.nextFire == TWO63 + 1
    ensures NextTimeout([t], now) == -1 && Due(t, now) && !IsNextTimeout([t], now, -1)
  {
    assert Wrap64(t.nextFire - now) == TWO63 - 1 == Remaining(t, now);
    assert Truncated(TWO63 - 1) == -1;
    assert [t][1..] == [] && t in [t];
    assert NextTimeout([t], now) == TimeoutFrom([], now, -1);
  }

  // ---- The class ----

  class IoMultiplexer<Callback(==)> {
    var fdMap: map<int, Callback>
    var timers: seq<Timer>
    var nextTimerId: uint64
    ghost var interest: set<int>  // the kernel's epoll set

    /** The timer list as the runs above have it; each timer method is one of their events. */
    function Timers(): Loop
      reads this
    {
      Loop(timers, nextTimerId)
    }

    constructor ()
      ensures fdMap == map[] && interest == {} && Timers() == Loop([], 1)
    {
      fdMap, timers, nextTimerId, interest := map[], [], 1, {};
    }

    /** `added` is whether the kernel accepts the descriptor. */
    method AddFd(fd: int, callback: Callback, added: bool) returns (ok: bool)
      modifies this`fdMap, this`interest
      ensures ok == added
      ensures fdMap == if added then old(fdMap)[fd := callback] else old(fdMap)
      ensures interest == if added then old(interest) + {fd} else old(interest)
    {
      if !added {
        return false;
      }
      interest := interest + {fd};
      fdMap := fdMap[fd := callback];
      ok := true;
    }

    /** The kernel refuses to remove a descriptor it does not watch; then the map is left alone.
        `watched` is its answer. */
    method DelFd(fd: int, watched: bool) returns (ok: bool)
      requires watched == (fd in interest)
      modifies this`fdMap, this`interest
      ensures ok == watched
      ensures fdMap == if watched then old(fdMap) - {fd} else old(fdMap)
      ensures interest == old(interest) - {fd}
    {
      if !watched {
        return false;
      }
      interest := interest - {fd};
      fdMap := fdMap - {fd};
      ok := true;
    }

    method AddTimer(interval: uint64, recurring: bool, now: uint64) returns (id: uint64)
      modifies this`timers, this`nextTimerId
      ensures id == old(nextTimerId) && Timers() == Next(old(Timers()), Add(interval, recurring, now))
      ensures timers == old(timers) + [Timer(id, interval, recurring, Wrap64(now + interval))]
    {
      id := nextTimerId;
      nextTimerId := Wrap64(nextTimerId + 1);
      timers := timers + [Timer(id, interval, recurring, Wrap64(now + interval))];
    }

    method RemoveTimer(id: uint64)
      modifies this`timers
      ensures Timers() == Next(old(Timers()), Remove(id))
    {
      var kept := [];
      for i := 0 to |timers|
        invariant timers == old(timers) && kept == Without(timers[..i], id)
      {
        assert timers[..i + 1][..i] == timers[..i];
        if timers[i].id != id {
          kept := kept + [timers[i]];
        }
      }
      assert timers[..|timers|] == timers;
      timers := kept;
    }

    /** Runs the due callbacks in list order, then erases the spent one-shots. */
    method FireTimers(now: uint64) returns (fired: seq<uint64>)
      modifies this`timers
      ensures fired == FiredIds(old(timers), now)
      ensures Timers() == Next(old(Timers()), Pass(now))
    {
      fired := [];
      for i := 0 to |timers|
        invariant |timers| == |old(timers)|
        invariant fired == FiredIds(old(timers)[..i], now)
        invariant forall j :: 0 <= j < i ==> timers[j] == Rearmed(old(timers)[j], now)
        invariant forall j :: i <= j < |timers| ==> timers[j] == old(timers)[j]
      {
        assert old(timers)[..i + 1][..i] == old(timers)[..i];
        var timer := timers[i];
        if now >= timer.nextFire {
          fired := fired + [timer.id];
          var nextFire := if timer.recurring then Wrap64(now + timer.interval) else UINT64_MAX;
          timers := timers[i := timer.(nextFire := nextFire)];
        }
      }
      assert old(timers)[..|timers|] == old(timers);
      var kept := [];
      for i := 0 to |timers|
        invariant |timers| == |old(timers)|
        invariant forall j :: 0 <= j < |timers| ==> timers[j] == Rearmed(old(timers)[j], now)
        invariant kept == AfterPass(old(timers)[..i], now)
      {
        assert old(timers)[..i + 1][..i] == old(timers)[..i];
        if !MarkedSpent(timers[i]) {
          kept := kept + [timers[i]];
        }
      }
      assert old(timers)[..|timers|] == old(timers);
      timers := kept;
    }

    method GetNextTimeout(now: uint64) returns (timeout: int)
      ensures timeout == NextTimeout(timers, now)
    {
      timeout := -1;
      for i := 0 to |timers|
        invariant NextTimeout(timers, now) == TimeoutFrom(timers[i..], now, timeout)
      {
        var remaining := Remaining(timers[i], now);
        assert timers[i..][1..] == timers[i + 1..];
        if remaining <= 0 {
          return 0;
        }
        if timeout < 0 || remaining < timeout {
          timeout := Truncated(remaining);
        }
      }
    }
  }
}
