// SIP calls, media contexts and registered descriptors (src/sip/sip_call.cpp,
// src/sip/sip_manager.cpp, src/session/session_manager.cpp) as one state that the
// operations of the two managers change together.
module CallControl {
  import opened Words

  type CallId = string

  datatype CallState =
    | Idle | Calling | Ringing | InProgress | Connected
    | Disconnecting | Disconnected | Failed | Registered | Unregistered

  datatype Ports = Ports(audio: uint16, video: uint16)

  /** A SipCall. `infoState` is session_info_.state; `ports` are the local media ports once a
      context has supplied them. */
  datatype Call = Call(
    state: CallState, infoState: CallState,
    timerStart: int, timerMs: uint32, retransmits: nat, ports: Option<Ports>)

  /** A media context: its receive descriptors, -1 where the socket could not be created, its
      local ports, and whether epoll accepted each descriptor. */
  datatype Context = Context(audioFd: int, videoFd: int, ports: Ports, audioAdded: bool, videoAdded: bool)

  /** The three maps kept in step: calls_, contexts_ and fd_map_ (by the owner its callback names). */
  datatype Sys = Sys(calls: map<CallId, Call>, contexts: map<CallId, Context>, fdMap: map<int, CallId>)

  datatype Config = Config(retryT1: uint32, maxRetransmit: uint32, maxSessions: uint32)

  /** Clock readings ProcessTimers makes for one call: one for each test of the timer, and one
      when the timer is restarted. */
  datatype Readings = Readings(first: int, second: int, third: int)

  /** The operations. A Context argument is what the system would supply for a new context. */
  datatype Op =
    | MakeCall(id: CallId, now: int)
    | AnswerCall(id: CallId, accept: bool, media: Context)
    | HangUp(id: CallId)
    | CancelCall(id: CallId)
    | RecvInvite(id: CallId, now: int, media: Context)
    | RecvBye(id: CallId)
    | RecvResponse(id: CallId, status: int, media: Context)
    | RecvCancel(id: CallId)
    | ProcessTimers(clock: CallId -> Readings)

  // ---- SipCall ----

  function NewCall(state: CallState, now: int, t1: uint32): Call {
    Call(state, state, now, t1, 0, None)
  }

  function WithState(c: Call, state: CallState): Call {
    if c.state == state then c else c.(state := state, infoState := state)
  }

  predicate Expired(c: Call, now: int) {
    c.timerMs != 0 && Millis32(now - c.timerStart) >= c.timerMs
  }

  // StartTimer also zeroes the retransmit count.
  function TimerStarted(c: Call, now: int, ms: uint32): Call {
    c.(timerStart := now, timerMs := ms, retransmits := 0)
  }

  function Pow2(n: nat): nat { if n == 0 then 1 else 2 * Pow2(n - 1) }

  // ---- Descriptors ----

  function Fds(ctx: Context): set<int> {
    (if ctx.audioFd >= 0 then {ctx.audioFd} else {}) + (if ctx.videoFd >= 0 then {ctx.videoFd} else {})
  }

  // The descriptors of the context that epoll accepted.
  function Watched(ctx: Context): set<int> {
    set fd | fd in Fds(ctx) && (if fd == ctx.audioFd then ctx.audioAdded else ctx.videoAdded)
  }

  function FdsOf(contexts: map<CallId, Context>, ids: set<CallId>): set<int> {
    set id, fd | id in ids && id in contexts && fd in Fds(contexts[id]) :: fd
  }

  lemma FdsOfOne(contexts: map<CallId, Context>, id: CallId)
    ensures FdsOf(contexts, {id}) == if id in contexts then Fds(contexts[id]) else {}
  {
    hide Fds;
    if id in contexts {
      assert forall fd :: fd in Fds(contexts[id]) ==> fd in FdsOf(contexts, {id});
    }
  }

  // The descriptors of more contexts, one context at a time.
  lemma FdsOfSplit(contexts: map<CallId, Context>, ids: set<CallId>, id: CallId)
    ensures FdsOf(contexts, ids + {id}) == FdsOf(contexts, ids) + FdsOf(contexts - ids, {id})
  {
    hide Fds;
    var whole, parts := FdsOf(contexts, ids + {id}), FdsOf(contexts, ids) + FdsOf(contexts - ids, {id});
    forall fd | fd in whole
      ensures fd in parts
    {
      var i :| i in ids + {id} && i in contexts && fd in Fds(contexts[i]);
      if i !in ids {
        assert i in contexts - ids && (contexts - ids)[i] == contexts[i];
      }
    }
    forall fd | fd in parts
      ensures fd in whole
    {
      if fd !in FdsOf(contexts, ids) {
        assert id in contexts && fd in Fds(contexts[id]);
      }
    }
  }

  function WithDescriptors(fdMap: map<int, CallId>, id: CallId, ctx: Context): map<int, CallId> {
    fdMap + map fd | fd in Watched(ctx) :: id
  }

  // ---- OnSipEvent ----

  // A connected call gets a context unless it has one, and takes over the context's ports.
  function OnConnected(sys: Sys, id: CallId, media: Context): Sys {
    if id !in sys.calls then sys
    else
      var ctx := if id in sys.contexts then sys.contexts[id] else media;
      Sys(sys.calls[id := sys.calls[id].(ports := Some(ctx.ports))],
          sys.contexts[id := ctx],
          if id in sys.contexts then sys.fdMap else WithDescriptors(sys.fdMap, id, ctx))
  }

  function OnGone(sys: Sys, ids: set<CallId>): Sys {
    sys.(contexts := sys.contexts - ids, fdMap := sys.fdMap - FdsOf(sys.contexts, ids))
  }

  function Notified(sys: Sys, id: CallId, state: CallState, media: Context): Sys {
    match state
    case Connected => OnConnected(sys, id, media)
    case Disconnected => OnGone(sys, {id})
    case Failed => OnGone(sys, {id})
    case _ => sys
  }

  // ---- SipManager ----

  function Entered(sys: Sys, id: CallId, state: CallState, media: Context): Sys
    requires id in sys.calls
  {
    Notified(sys.(calls := sys.calls[id := WithState(sys.calls[id], state)]), id, state, media)
  }

  // Disconnected, announced, and erased.
  function Ended(sys: Sys, id: CallId, media: Context): Sys
    requires id in sys.calls
  {
    var s := Entered(sys, id, Disconnected, media);
    s.(calls := s.calls - {id})
  }

  const NO_MEDIA := Context(-1, -1, Ports(0, 0), false, false)

  datatype Tick = Tick(call: Call, failed: bool)

  // One call's turn in ProcessTimers.
  function Ticked(cfg: Config, c: Call, r: Readings): Tick {
    if Expired(c, r.first) && c.retransmits < cfg.maxRetransmit then
      Tick(TimerStarted(c, r.third, Wrap32(cfg.retryT1 * Pow2(c.retransmits + 1))), false)
    else if Expired(c, r.second) then Tick(WithState(c, Failed), true)
    else Tick(c, false)
  }

  function FailedIn(cfg: Config, calls: map<CallId, Call>, clock: CallId -> Readings): set<CallId> {
    set id | id in calls && Ticked(cfg, calls[id], clock(id)).failed
  }

  function Apply(cfg: Config, sys: Sys, op: Op): Sys {
    match op
    case MakeCall(id, now) =>
      if |sys.contexts| >= cfg.maxSessions then sys
      else sys.(calls := sys.calls[id := NewCall(Calling, now, cfg.retryT1)])
    case AnswerCall(id, accept, media) =>
      if id !in sys.calls then sys
      else if accept then Entered(sys, id, Connected, media)
      else Ended(sys, id, media)
    case HangUp(id) => if HangUpAllowed(sys, id) then Entered(sys, id, Disconnecting, NO_MEDIA) else sys
    case CancelCall(id) => if id in sys.calls then Ended(sys, id, NO_MEDIA) else sys
    case RecvInvite(id, now, media) =>
      if id == "" || id in sys.calls then sys
      else
        var ringing := sys.(calls := sys.calls[id := NewCall(Ringing, now, cfg.retryT1)]);
        Entered(Notified(ringing, id, Ringing, media), id, Connected, media)
    case RecvBye(id) => if id in sys.calls then Ended(sys, id, NO_MEDIA) else sys
    case RecvResponse(id, status, media) =>
      if id !in sys.calls then sys
      else if 200 <= status < 300 then
        if sys.calls[id].state == Calling then Entered(sys, id, Connected, media)
        else if sys.calls[id].state == Disconnecting then Ended(sys, id, media)
        else sys
      else if status >= 300 then Entered(sys, id, Failed, media)
      else sys
    case RecvCancel(id) => if id in sys.calls then Ended(sys, id, NO_MEDIA) else sys
    case ProcessTimers(clock) =>
      OnGone(sys.(calls := map id | id in sys.calls :: Ticked(cfg, sys.calls[id], clock(id)).call),
             FailedIn(cfg, sys.calls, clock))
  }

  // One call's turn, case by case.
  lemma TurnIs(cfg: Config, sys: Sys, id: CallId, r: Readings)
    requires id in sys.calls
    ensures var c := sys.calls[id];
            TurnTaken(cfg, sys, id, r) ==
              if Expired(c, r.first) && c.retransmits < cfg.maxRetransmit then
                sys.(calls := sys.calls[id := TimerStarted(c, r.third, Wrap32(cfg.retryT1 * Pow2(c.retransmits + 1)))])
              else if Expired(c, r.second) then Entered(sys, id, Failed, NO_MEDIA)
              else sys
  {
    hide Expired, Pow2, Wrap32, FdsOf;
    assert sys.calls[id := sys.calls[id]] == sys.calls;
  }

  // One call's turn in the whole state.
  function TurnTaken(cfg: Config, sys: Sys, id: CallId, r: Readings): Sys
    requires id in sys.calls
  {
    var t := Ticked(cfg, sys.calls[id], r);
    var s := sys.(calls := sys.calls[id := t.call]);
    if t.failed then OnGone(s, {id}) else s
  }

  /** Of the calls, those in `done` have had their turn. */
  ghost predicate Swept(cfg: Config, before: Sys, clock: CallId -> Readings, done: set<CallId>, sys: Sys) {
    var failed := FailedIn(cfg, before.calls, clock) * done;
    && sys.calls.Keys == before.calls.Keys
    && (forall id :: id in before.calls ==>
          sys.calls[id] == if id in done then Ticked(cfg, before.calls[id], clock(id)).call else before.calls[id])
    && sys.contexts == before.contexts - failed && sys.fdMap == before.fdMap - FdsOf(before.contexts, failed)
  }

  lemma SweepStep(cfg: Config, before: Sys, clock: CallId -> Readings, done: set<CallId>, sys: Sys, id: CallId)
    requires Swept(cfg, before, clock, done, sys) && id in before.calls && id !in done
    ensures Swept(cfg, before, clock, done + {id}, TurnTaken(cfg, sys, id, clock(id)))
  {
    hide Ticked, FdsOf;
    var all := FailedIn(cfg, before.calls, clock);
    if id in all {
      FdsOfSplit(before.contexts, all * done, id);
      assert all * (done + {id}) == all * done + {id};
    } else {
      assert all * (done + {id}) == all * done;
    }
  }

  /** Whatever order the calls take their turns in, the pass does the same. */
  lemma SweepIsPass(cfg: Config, before: Sys, clock: CallId -> Readings, sys: Sys)
    ensures Swept(cfg, before, clock, {}, sys) <==> sys == before
    ensures Swept(cfg, before, clock, before.calls.Keys, sys) <==> sys == Apply(cfg, before, ProcessTimers(clock))
  {
    hide Swept, Apply;
    SweptNone(cfg, before, clock, sys);
    SweptAll(cfg, before, clock, sys);
  }

  lemma SweptNone(cfg: Config, before: Sys, clock: CallId -> Readings, sys: Sys)
    ensures Swept(cfg, before, clock, {}, sys) <==> sys == before
  {
    hide Ticked;
    assert FailedIn(cfg, before.calls, clock) * {} == {} && FdsOf(before.contexts, {}) == {};
    assert before.contexts - {} == before.contexts && before.fdMap - {} == before.fdMap;
    if Swept(cfg, before, clock, {}, sys) {
      assert sys.calls == before.calls;
    }
  }

  lemma SweptAll(cfg: Config, before: Sys, clock: CallId -> Readings, sys: Sys)
    ensures Swept(cfg, before, clock, before.calls.Keys, sys) <==> sys == Apply(cfg, before, ProcessTimers(clock))
  {
    FailedAreCalls(cfg, before.calls, clock);
    hide Ticked, FdsOf, FailedIn;
    if Swept(cfg, before, clock, before.calls.Keys, sys) {
      assert sys.calls == Apply(cfg, before, ProcessTimers(clock)).calls;
    }
  }

  lemma FailedAreCalls(cfg: Config, calls: map<CallId, Call>, clock: CallId -> Readings)
    ensures FailedIn(cfg, calls, clock) * calls.Keys == FailedIn(cfg, calls, clock)
  {
    hide Ticked;
  }

  predicate HangUpAllowed(sys: Sys, id: CallId) {
    id in sys.calls && (sys.calls[id].state == Connected || sys.calls[id].state == InProgress)
  }

  // ---- What the environment promises ----

  /** New sockets have descriptors of their own. */
  ghost predicate NewMedia(sys: Sys, media: Context) {
    && media.audioFd >= -1 && media.videoFd >= -1
    && (media.audioFd == media.videoFd ==> media.audioFd == -1)
    && Fds(media) !! FdsOf(sys.contexts, sys.contexts.Keys)
  }

  /** Generated call ids are fresh, new descriptors are new. */
  ghost predicate Admissible(sys: Sys, op: Op) {
    match op
    case MakeCall(id, _) => id !in sys.calls
    case AnswerCall(_, _, media) => NewMedia(sys, media)
    case RecvInvite(_, _, media) => NewMedia(sys, media)
    case RecvResponse(_, _, media) => NewMedia(sys, media)
    case _ => true
  }

  // ---- The invariant ----

  predicate HasMedia(state: CallState) { state == Connected || state == Disconnecting }

  /** A context exists for exactly the calls that are connected or disconnecting. */
  ghost predicate Coherent(sys: Sys) {
    forall id :: id in sys.contexts <==> id in sys.calls && HasMedia(sys.calls[id].state)
  }

  /** Between operations a stored call is in one of four states, both records of the state agree,
      and nothing has been counted as retransmitted. */
  ghost predicate Settled(sys: Sys) {
    forall id :: id in sys.calls ==>
      var c := sys.calls[id];
      && (c.state == Calling || c.state == Connected || c.state == Disconnecting || c.state == Failed)
      && c.infoState == c.state && c.retransmits == 0
  }

  /** A call with a context advertises the context's ports. */
  ghost predicate PortsAgree(sys: Sys) {
    forall id :: id in sys.contexts && id in sys.calls ==> sys.calls[id].ports == Some(sys.contexts[id].ports)
  }

  /** No two contexts share a descriptor, nor a context's two sockets. */
  ghost predicate FdsDistinct(contexts: map<CallId, Context>) {
    && (forall i, j :: i in contexts && j in contexts && i != j ==> Fds(contexts[i]) !! Fds(contexts[j]))
    && (forall i :: i in contexts && contexts[i].audioFd == contexts[i].videoFd ==> contexts[i].audioFd < 0)
  }

  /** fd_map_ holds exactly the watched descriptors of live contexts, each naming its owner. */
  ghost predicate FdMapExact(sys: Sys) {
    && (forall fd :: fd in sys.fdMap ==>
          sys.fdMap[fd] in sys.contexts && fd in Watched(sys.contexts[sys.fdMap[fd]]))
    && (forall id, fd :: id in sys.contexts && fd in Watched(sys.contexts[id]) ==>
          fd in sys.fdMap && sys.fdMap[fd] == id)
  }

  ghost predicate Inv(sys: Sys) {
    Coherent(sys) && Settled(sys) && PortsAgree(sys) && FdsDistinct(sys.contexts) && FdMapExact(sys)
  }

  // ---- Operations keep it ----

  ghost predicate MediaInv(contexts: map<CallId, Context>, fdMap: map<int, CallId>) {
    FdsDistinct(contexts) && FdMapExact(Sys(map[], contexts, fdMap))
  }

  lemma AddKeepsDistinct(sys: Sys, id: CallId, media: Context)
    requires FdsDistinct(sys.contexts) && NewMedia(sys, media) && id !in sys.contexts
    ensures FdsDistinct(sys.contexts[id := media])
  {
    forall i | i in sys.contexts
      ensures Fds(sys.contexts[i]) !! Fds(media)
    {
      assert Fds(sys.contexts[i]) <= FdsOf(sys.contexts, sys.contexts.Keys);
    }
  }

  lemma AddKeepsFdMap(sys: Sys, id: CallId, media: Context)
    requires FdMapExact(Sys(map[], sys.contexts, sys.fdMap)) && NewMedia(sys, media) && id !in sys.contexts
    ensures FdMapExact(Sys(map[], sys.contexts[id := media], WithDescriptors(sys.fdMap, id, media)))
  {
    hide Fds;
    var contexts', fdMap' := sys.contexts[id := media], WithDescriptors(sys.fdMap, id, media);
    forall i, fd | i in contexts' && fd in Watched(contexts'[i])
      ensures fd in fdMap' && fdMap'[fd] == i
    {
      assert i != id ==> fd in Fds(sys.contexts[i]) && fd in FdsOf(sys.contexts, sys.contexts.Keys);
    }
  }

  lemma AddKeepsMedia(sys: Sys, id: CallId, media: Context)
    requires MediaInv(sys.contexts, sys.fdMap) && NewMedia(sys, media) && id !in sys.contexts
    ensures MediaInv(sys.contexts[id := media], WithDescriptors(sys.fdMap, id, media))
  {
    hide FdsDistinct, FdMapExact;
    AddKeepsDistinct(sys, id, media);
    AddKeepsFdMap(sys, id, media);
  }

  // A watched descriptor of a context that stays is not among those removed.
  lemma KeptFdStays(contexts: map<CallId, Context>, ids: set<CallId>, i: CallId, fd: int)
    requires FdsDistinct(contexts) && i in contexts && i !in ids && fd in Watched(contexts[i])
    ensures fd !in FdsOf(contexts, ids)
  {
    assert fd in Fds(contexts[i]);
    assert forall j :: j in ids && j in contexts ==> Fds(contexts[i]) !! Fds(contexts[j]);
  }

  lemma RemoveKeepsFdMap(contexts: map<CallId, Context>, fdMap: map<int, CallId>, ids: set<CallId>)
    requires FdsDistinct(contexts) && FdMapExact(Sys(map[], contexts, fdMap))
    ensures FdMapExact(Sys(map[], contexts - ids, fdMap - FdsOf(contexts, ids)))
  {
    hide FdsDistinct, Fds;
    var contexts', fdMap' := contexts - ids, fdMap - FdsOf(contexts, ids);
    forall fd | fd in fdMap'
      ensures fdMap'[fd] in contexts'
    {
      assert fd in Fds(contexts[fdMap[fd]]);
    }
    forall i, fd | i in contexts' && fd in Watched(contexts'[i])
      ensures fd in fdMap' && fdMap'[fd] == i
    {
      KeptFdStays(contexts, ids, i, fd);
    }
  }

  lemma RemoveKeepsMedia(sys: Sys, ids: set<CallId>)
    requires MediaInv(sys.contexts, sys.fdMap)
    ensures MediaInv(OnGone(sys, ids).contexts, OnGone(sys, ids).fdMap)
  {
    hide FdMapExact, FdsOf, Fds;
    RemoveKeepsFdMap(sys.contexts, sys.fdMap, ids);
  }

  // What a call's entry must satisfy apart from its state.
  ghost predicate Plain(c: Call) { c.infoState == c.state && c.retransmits == 0 }

  lemma ConnectKeepsInv(sys: Sys, id: CallId, c: Call, media: Context)
    requires Inv(sys) && Plain(c) && NewMedia(sys, media)
    ensures Inv(Entered(sys.(calls := sys.calls[id := c]), id, Connected, media))
  {
    ConnectKeepsCalls(sys, id, c, media);
    ConnectKeepsMedia(sys, id, c, media);
    hide FdsDistinct, FdMapExact, Coherent, Settled, PortsAgree, Entered;
    MediaPart(Entered(sys.(calls := sys.calls[id := c]), id, Connected, media));
  }

  lemma ConnectKeepsCalls(sys: Sys, id: CallId, c: Call, media: Context)
    requires Coherent(sys) && Settled(sys) && PortsAgree(sys) && Plain(c)
    ensures var s := Entered(sys.(calls := sys.calls[id := c]), id, Connected, media);
            Coherent(s) && Settled(s) && PortsAgree(s)
  {
    hide WithDescriptors;
  }

  lemma ConnectKeepsMedia(sys: Sys, id: CallId, c: Call, media: Context)
    requires FdsDistinct(sys.contexts) && FdMapExact(sys) && NewMedia(sys, media)
    ensures var s := Entered(sys.(calls := sys.calls[id := c]), id, Connected, media); MediaInv(s.contexts, s.fdMap)
  {
    hide FdsDistinct, FdMapExact, WithDescriptors, NewMedia;
    MediaPart(sys);
    if id !in sys.contexts {
      AddKeepsMedia(sys, id, media);
    } else {
      assert sys.contexts[id := sys.contexts[id]] == sys.contexts;
    }
  }

  // The descriptor half of the invariant does not depend on the calls.
  lemma MediaPart(sys: Sys)
    ensures MediaInv(sys.contexts, sys.fdMap) <==> FdsDistinct(sys.contexts) && FdMapExact(sys)
  {
    hide FdsDistinct, Watched;
  }

  lemma FailKeepsInv(sys: Sys, id: CallId, media: Context)
    requires Inv(sys) && id in sys.calls
    ensures Inv(Entered(sys, id, Failed, media))
  {
    hide FdsDistinct, FdMapExact, FdsOf;
    MediaPart(sys);
    RemoveKeepsMedia(sys, {id});
    MediaPart(Entered(sys, id, Failed, media));
  }

  lemma EndKeepsInv(sys: Sys, id: CallId, media: Context)
    requires Inv(sys) && id in sys.calls
    ensures Inv(Ended(sys, id, media))
  {
    hide FdsDistinct, FdMapExact, FdsOf;
    MediaPart(sys);
    RemoveKeepsMedia(sys, {id});
    MediaPart(Ended(sys, id, media));
  }

  lemma HangUpKeepsInv(sys: Sys, id: CallId)
    requires Inv(sys) && HangUpAllowed(sys, id)
    ensures Inv(Entered(sys, id, Disconnecting, NO_MEDIA))
  {
    hide FdsDistinct, FdMapExact;
    MediaPart(sys);
    MediaPart(Entered(sys, id, Disconnecting, NO_MEDIA));
  }

  lemma TickKeepsEntry(cfg: Config, c: Call, r: Readings)
    ensures var t := Ticked(cfg, c, r);
            && t.call.ports == c.ports && t.call.state == (if t.failed then Failed else c.state)
            && (c.infoState == c.state ==> t.call.infoState == t.call.state)
            && (c.retransmits == 0 ==> t.call.retransmits == 0)
  {
  }

  lemma TimersKeepCalls(cfg: Config, sys: Sys, clock: CallId -> Readings)
    requires Coherent(sys) && Settled(sys) && PortsAgree(sys)
    ensures var s := Apply(cfg, sys, ProcessTimers(clock)); Coherent(s) && Settled(s) && PortsAgree(s)
  {
    TimersKeepEntries(cfg, sys, clock);
    hide Apply, Settled;
    TimersKeepContexts(cfg, sys, clock);
  }

  lemma TimersKeepEntries(cfg: Config, sys: Sys, clock: CallId -> Readings)
    requires Settled(sys)
    ensures Settled(Apply(cfg, sys, ProcessTimers(clock)))
  {
    hide FdsOf, Ticked;
    forall id | id in sys.calls {
      TickKeepsEntry(cfg, sys.calls[id], clock(id));
    }
  }

  lemma TimersKeepContexts(cfg: Config, sys: Sys, clock: CallId -> Readings)
    requires Coherent(sys) && PortsAgree(sys)
    ensures var s := Apply(cfg, sys, ProcessTimers(clock)); Coherent(s) && PortsAgree(s)
  {
    hide FdsOf, Ticked;
    forall id | id in sys.calls {
      TickKeepsEntry(cfg, sys.calls[id], clock(id));
    }
  }

  lemma TimersKeepInv(cfg: Config, sys: Sys, clock: CallId -> Readings)
    requires Inv(sys)
    ensures Inv(Apply(cfg, sys, ProcessTimers(clock)))
  {
    hide FdsDistinct, FdMapExact, FdsOf, Ticked, Coherent, Settled, PortsAgree;
    TimersKeepCalls(cfg, sys, clock);
    MediaPart(sys);
    RemoveKeepsMedia(sys, FailedIn(cfg, sys.calls, clock));
    MediaPart(Apply(cfg, sys, ProcessTimers(clock)));
  }

  lemma StepKeepsInv(cfg: Config, sys: Sys, op: Op)
    requires Inv(sys) && Admissible(sys, op)
    ensures Inv(Apply(cfg, sys, op))
  {
    hide FdsDistinct, FdMapExact, PortsAgree, Entered, Ended, NewMedia;
    match op
    case MakeCall(id, now) =>
      MediaPart(sys);
      MediaPart(Apply(cfg, sys, op));
      MakeCallKeepsCalls(cfg, sys, id, now);
    case AnswerCall(id, accept, media) =>
      if id in sys.calls {
        if accept {
          assert sys.(calls := sys.calls[id := sys.calls[id]]) == sys;
          ConnectKeepsInv(sys, id, sys.calls[id], media);
        } else {
          EndKeepsInv(sys, id, media);
        }
      }
    case HangUp(id) => if HangUpAllowed(sys, id) { HangUpKeepsInv(sys, id); }
    case CancelCall(id) => if id in sys.calls { EndKeepsInv(sys, id, NO_MEDIA); }
    case RecvInvite(id, now, media) =>
      if id != "" && id !in sys.calls {
        ConnectKeepsInv(sys, id, NewCall(Ringing, now, cfg.retryT1), media);
      }
    case RecvBye(id) => if id in sys.calls { EndKeepsInv(sys, id, NO_MEDIA); }
    case RecvResponse(id, status, media) =>
      if id in sys.calls {
        assert sys.(calls := sys.calls[id := sys.calls[id]]) == sys;
        if 200 <= status < 300 {
          if sys.calls[id].state == Calling {
            ConnectKeepsInv(sys, id, sys.calls[id], media);
          } else if sys.calls[id].state == Disconnecting {
            EndKeepsInv(sys, id, media);
          }
        } else if status >= 300 {
          FailKeepsInv(sys, id, media);
        }
      }
    case RecvCancel(id) => if id in sys.calls { EndKeepsInv(sys, id, NO_MEDIA); }
    case ProcessTimers(clock) => TimersKeepInv(cfg, sys, clock);
  }

  lemma MakeCallKeepsCalls(cfg: Config, sys: Sys, id: CallId, now: int)
    requires Coherent(sys) && Settled(sys) && PortsAgree(sys) && id !in sys.calls
    ensures var s := Apply(cfg, sys, MakeCall(id, now)); Coherent(s) && Settled(s) && PortsAgree(s)
  {
    hide Apply;
    assert Apply(cfg, sys, MakeCall(id, now)) ==
           if |sys.contexts| >= cfg.maxSessions then sys
           else sys.(calls := sys.calls[id := NewCall(Calling, now, cfg.retryT1)]) by { MakeCallIs(cfg, sys, id, now); }
  }

  lemma MakeCallIs(cfg: Config, sys: Sys, id: CallId, now: int)
    ensures Apply(cfg, sys, MakeCall(id, now)) ==
            if |sys.contexts| >= cfg.maxSessions then sys
            else sys.(calls := sys.calls[id := NewCall(Calling, now, cfg.retryT1)])
  {
  }

  // ---- Every run ----

  const EMPTY := Sys(map[], map[], map[])

  function After(cfg: Config, ops: seq<Op>): Sys {
    if ops == [] then EMPTY
    else Apply(cfg, After(cfg, ops[..|ops| - 1]), ops[|ops| - 1])
  }

  ghost predicate AdmissibleRun(cfg: Config, ops: seq<Op>) {
    forall i :: 0 <= i < |ops| ==> Admissible(After(cfg, ops[..i]), ops[i])
  }

  /** Three-map coherence: after every operation of every run, contexts exist for exactly the
      connected and disconnecting calls, and the descriptor map holds exactly their watched
      descriptors, each under its owner. */
  lemma {:induction false} RunKeepsInv(cfg: Config, ops: seq<Op>)
    requires AdmissibleRun(cfg, ops)
    ensures Inv(After(cfg, ops))
  {
    hide Inv, Admissible, Apply;
    if ops == [] {
      assert Inv(EMPTY) by { EmptyInv(); }
    } else {
      var init := ops[..|ops| - 1];
      assert forall i :: 0 <= i < |init| ==> ops[..i] == init[..i];
      RunKeepsInv(cfg, init);
      StepKeepsInv(cfg, After(cfg, init), ops[|ops| - 1]);
    }
  }

  lemma EmptyInv()
    ensures Inv(EMPTY)
  {
  }

  /** When epoll accepts every descriptor, the keys of the map are exactly the receive descriptors
      of the live contexts. */
  lemma FdMapKeys(sys: Sys)
    requires Inv(sys)
    requires forall id :: id in sys.contexts ==> sys.contexts[id].audioAdded && sys.contexts[id].videoAdded
    ensures sys.fdMap.Keys == FdsOf(sys.contexts, sys.contexts.Keys)
  {
    hide Coherent, Settled, PortsAgree, FdsDistinct;
    assert forall id :: id in sys.contexts ==> Watched(sys.contexts[id]) == Fds(sys.contexts[id]);
    hide Watched, Fds;
    var fds := FdsOf(sys.contexts, sys.contexts.Keys);
    forall fd | fd in sys.fdMap
      ensures fd in fds
    {
      assert fd in Fds(sys.contexts[sys.fdMap[fd]]);
    }
    forall fd | fd in fds
      ensures fd in sys.fdMap
    {
      var id :| id in sys.contexts && fd in Fds(sys.contexts[id]);
      assert fd in Watched(sys.contexts[id]);
    }
  }

  /** HangUp is allowed exactly for a connected call: the in-progress state is never reached. */
  lemma HangUpIffConnected(cfg: Config, ops: seq<Op>, id: CallId)
    requires AdmissibleRun(cfg, ops)
    ensures var sys := After(cfg, ops);
            HangUpAllowed(sys, id) <==> id in sys.calls && sys.calls[id].state == Connected
  {
    RunKeepsInv(cfg, ops);
  }

  /** A colliding generated id breaks coherence exactly when it names a call that has a context. */
  lemma CollisionBreaksCoherence(cfg: Config, sys: Sys, id: CallId, now: int)
    requires Inv(sys) && |sys.contexts| < cfg.maxSessions
    ensures Coherent(Apply(cfg, sys, MakeCall(id, now))) <==> id !in sys.contexts
  {
  }

  // ---- Timers ----

  /** ProcessTimers fails a call exactly when its timer is due at the second reading and was not
      due at the first, or no retransmission is allowed. With one allowed, a call whose timer does
      not fall due between the two readings keeps its state. */
  lemma TimersFailExactly(cfg: Config, sys: Sys, clock: CallId -> Readings, id: CallId)
    requires Inv(sys) && id in sys.calls
    ensures var c, r := sys.calls[id], clock(id);
            var c' := Apply(cfg, sys, ProcessTimers(clock)).calls[id];
            && (c'.state != c.state <==>
                  c.state != Failed && Expired(c, r.second) && !(Expired(c, r.first) && 0 < cfg.maxRetransmit))
            && (c'.state == c.state || c'.state == Failed)
  {
  }

  ghost predicate SameStates(a: Sys, b: Sys) {
    a.calls.Keys == b.calls.Keys && forall id :: id in a.calls ==> a.calls[id].state == b.calls[id].state
  }

  /** No call that has not failed is due at the second reading without having been given a
      retransmission at the first. With one allowed: no timer falls due between the two readings. */
  ghost predicate QuietPass(cfg: Config, sys: Sys, clock: CallId -> Readings) {
    forall id :: id in sys.calls && sys.calls[id].state != Failed ==>
      var c, r := sys.calls[id], clock(id);
      Expired(c, r.second) ==> Expired(c, r.first) && 0 < cfg.maxRetransmit
  }

  // A pass only ever moves calls to the failed state, and drops what failed calls had.
  ghost predicate OnlyFails(a: Sys, b: Sys) {
    && a.calls.Keys == b.calls.Keys
    && (forall id :: id in a.calls ==> b.calls[id].state == a.calls[id].state || b.calls[id].state == Failed)
    && (forall id :: id in b.contexts ==> id in a.contexts && b.contexts[id] == a.contexts[id])
    && (forall fd :: fd in b.fdMap ==> fd in a.fdMap && b.fdMap[fd] == a.fdMap[fd])
  }

  lemma PassOnlyFails(cfg: Config, sys: Sys, clock: CallId -> Readings)
    requires Inv(sys)
    ensures OnlyFails(sys, Apply(cfg, sys, ProcessTimers(clock)))
    ensures SameStates(sys, Apply(cfg, sys, ProcessTimers(clock))) <==> QuietPass(cfg, sys, clock)
  {
    TimersOnlyFail(cfg, sys, clock);
    QuietIffSame(cfg, sys, clock);
    hide Inv, Apply, OnlyFails, SameStates, QuietPass;
  }

  lemma TimersOnlyFail(cfg: Config, sys: Sys, clock: CallId -> Readings)
    ensures OnlyFails(sys, Apply(cfg, sys, ProcessTimers(clock)))
  {
    hide FdsOf, Ticked;
    forall id | id in sys.calls {
      TickKeepsEntry(cfg, sys.calls[id], clock(id));
    }
  }

  lemma QuietIffSame(cfg: Config, sys: Sys, clock: CallId -> Readings)
    requires Settled(sys)
    ensures SameStates(sys, Apply(cfg, sys, ProcessTimers(clock))) <==> QuietPass(cfg, sys, clock)
  {
    hide FdsOf, Expired;
  }

  // Where no state has changed, nothing has been dropped.
  lemma SameStatesSameMaps(a: Sys, b: Sys)
    requires Inv(a) && Inv(b) && OnlyFails(a, b) && SameStates(a, b)
    ensures a.contexts == b.contexts && a.fdMap == b.fdMap
  {
    hide Settled, PortsAgree, FdsDistinct, Watched;
    assert forall id :: id in a.contexts <==> id in b.contexts;
    assert a.contexts == b.contexts;
    forall fd
      ensures fd in a.fdMap <==> fd in b.fdMap
    {
      if fd in a.fdMap {
        assert fd in Watched(b.contexts[a.fdMap[fd]]);
      }
    }
    assert forall fd :: fd in a.fdMap ==> a.fdMap[fd] == b.fdMap[fd];
    assert a.fdMap.Keys == b.fdMap.Keys;
    assert a.fdMap == b.fdMap;
  }

  lemma {:induction false} TimerRunOnlyFails(cfg: Config, sys: Sys, clocks: seq<CallId -> Readings>)
    requires Inv(sys)
    ensures Inv(AfterTimers(cfg, sys, clocks)) && OnlyFails(sys, AfterTimers(cfg, sys, clocks))
  {
    hide Inv, Apply;
    if clocks != [] {
      var n := |clocks| - 1;
      TimerRunOnlyFails(cfg, sys, clocks[..n]);
      TimersKeepInv(cfg, AfterTimers(cfg, sys, clocks[..n]), clocks[n]);
      PassOnlyFails(cfg, AfterTimers(cfg, sys, clocks[..n]), clocks[n]);
    }
  }

  ghost predicate QuietRun(cfg: Config, sys: Sys, clocks: seq<CallId -> Readings>) {
    forall i :: 0 <= i < |clocks| ==> QuietPass(cfg, AfterTimers(cfg, sys, clocks[..i]), clocks[i])
  }

  lemma QuietRunSplit(cfg: Config, sys: Sys, clocks: seq<CallId -> Readings>)
    requires clocks != []
    ensures var n := |clocks| - 1;
            QuietRun(cfg, sys, clocks) <==>
              QuietRun(cfg, sys, clocks[..n]) && QuietPass(cfg, AfterTimers(cfg, sys, clocks[..n]), clocks[n])
  {
    hide QuietPass, AfterTimers;
    var n := |clocks| - 1;
    assert forall i :: 0 <= i < n ==> clocks[..i] == clocks[..n][..i];
    if QuietRun(cfg, sys, clocks) {
      forall i | 0 <= i < n
        ensures QuietPass(cfg, AfterTimers(cfg, sys, clocks[..n][..i]), clocks[..n][i])
      {
        assert QuietPass(cfg, AfterTimers(cfg, sys, clocks[..i]), clocks[i]);
      }
    }
  }

  // A failed call stays failed, so the states before a pass are what they are if they are so after it.
  lemma SameStatesBack(a: Sys, b: Sys, c: Sys)
    requires OnlyFails(a, b) && OnlyFails(b, c)
    ensures SameStates(a, c) <==> SameStates(a, b) && SameStates(b, c)
  {
  }

  /** A run of ProcessTimers changes no call's state, answered or not, exactly when every pass of it
      is quiet; and then it leaves every context and descriptor in place. */
  lemma {:induction false} TimerRunsChangeNothing(cfg: Config, sys: Sys, clocks: seq<CallId -> Readings>)
    requires Inv(sys)
    ensures SameStates(sys, AfterTimers(cfg, sys, clocks)) <==> QuietRun(cfg, sys, clocks)
    ensures QuietRun(cfg, sys, clocks) ==>
              AfterTimers(cfg, sys, clocks).contexts == sys.contexts && AfterTimers(cfg, sys, clocks).fdMap == sys.fdMap
  {
    hide Inv, Apply, QuietPass, QuietRun, SameStates, OnlyFails;
    TimerRunOnlyFails(cfg, sys, clocks);
    if clocks == [] {
      assert SameStates(sys, sys) && QuietRun(cfg, sys, []) by { NoPasses(cfg, sys); }
    } else {
      var n := |clocks| - 1;
      var before := AfterTimers(cfg, sys, clocks[..n]);
      TimerRunsChangeNothing(cfg, sys, clocks[..n]);
      TimerRunOnlyFails(cfg, sys, clocks[..n]);
      PassOnlyFails(cfg, before, clocks[n]);
      SameStatesBack(sys, before, AfterTimers(cfg, sys, clocks));
      QuietRunSplit(cfg, sys, clocks);
    }
    if SameStates(sys, AfterTimers(cfg, sys, clocks)) {
      SameStatesSameMaps(sys, AfterTimers(cfg, sys, clocks));
    }
  }

  lemma NoPasses(cfg: Config, sys: Sys)
    ensures SameStates(sys, sys) && QuietRun(cfg, sys, [])
  {
  }

  /** The two readings matter: with the default configuration, an incoming call that was answered
      fails if its timer falls due between them, although retransmissions are left. */
  lemma TickBetweenReadingsFailsCall(cfg: Config, id: CallId, media: Context) returns (ops: seq<Op>)
    requires cfg.retryT1 == 500 && cfg.maxRetransmit == 7
    requires id != "" && NewMedia(EMPTY, media)
    ensures AdmissibleRun(cfg, ops) && |ops| == 2 && ops[0] == RecvInvite(id, 0, media) && ops[1].ProcessTimers?
    ensures id in After(cfg, ops[..1]).calls && After(cfg, ops[..1]).calls[id].state == Connected
    ensures id in After(cfg, ops).calls && After(cfg, ops).calls[id].state == Failed
  {
    hide Ticked, Entered, NewMedia;
    var now := 499 * NANOS_PER_MILLI;
    var clock := (x: CallId) => Readings(now, now + NANOS_PER_MILLI, now + NANOS_PER_MILLI);
    ops := [RecvInvite(id, 0, media), ProcessTimers(clock)];
    TwoOps(cfg, ops[0], ops[1]);
    FirstInvite(cfg, id, media);
    FailingTick(cfg, Some(media.ports));
  }

  lemma TwoOps(cfg: Config, a: Op, b: Op)
    requires Admissible(EMPTY, a) && Admissible(Apply(cfg, EMPTY, a), b)
    ensures AdmissibleRun(cfg, [a, b])
    ensures After(cfg, [a, b][..1]) == Apply(cfg, EMPTY, a)
    ensures After(cfg, [a, b]) == Apply(cfg, Apply(cfg, EMPTY, a), b)
  {
    hide Apply, Admissible;
    var ops := [a, b];
    assert ops[..0] == [] && ops[..1] == [a] && [a][..0] == [];
    assert After(cfg, []) == EMPTY && After(cfg, [a]) == Apply(cfg, EMPTY, a);
    assert Admissible(After(cfg, ops[..0]), ops[0]) && Admissible(After(cfg, ops[..1]), ops[1]);
  }

  lemma FailingTick(cfg: Config, ports: Option<Ports>)
    requires cfg.retryT1 == 500 && cfg.maxRetransmit == 7
    ensures var now := 499 * NANOS_PER_MILLI;
            Ticked(cfg, Call(Connected, Connected, 0, cfg.retryT1, 0, ports),
                   Readings(now, now + NANOS_PER_MILLI, now + NANOS_PER_MILLI)).call.state == Failed
  {
    assert Millis(499 * NANOS_PER_MILLI) == 499 && Millis(499 * NANOS_PER_MILLI + NANOS_PER_MILLI) == 500;
  }

  lemma FirstInvite(cfg: Config, id: CallId, media: Context)
    requires id != ""
    ensures var sys := Apply(cfg, EMPTY, RecvInvite(id, 0, media));
            id in sys.calls && sys.calls[id] == Call(Connected, Connected, 0, cfg.retryT1, 0, Some(media.ports))
  {
    assert id !in EMPTY.calls && id !in EMPTY.contexts;
  }

  function AfterTimers(cfg: Config, sys: Sys, clocks: seq<CallId -> Readings>): Sys {
    if clocks == [] then sys
    else Apply(cfg, AfterTimers(cfg, sys, clocks[..|clocks| - 1]), ProcessTimers(clocks[|clocks| - 1]))
  }
}
