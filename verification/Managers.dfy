// The objects behind CallControl: SipCall, SipManager and SessionManager, whose methods carry
// out its operations in place.
module Managers {
  import opened Words
  import opened CallControl
  import opened IoMultiplexers

  class SipCall {
    var state: CallState
    var infoState: CallState
    var timerStart: int
    var timerMs: uint32
    var retransmits: nat
    var ports: Option<Ports>

    function Value(): Call
      reads this
    {
      Call(state, infoState, timerStart, timerMs, retransmits, ports)
    }

    constructor ()
      ensures Value() == Call(Idle, Idle, 0, 0, 0, None)
    {
      state, infoState, timerStart, timerMs, retransmits, ports := Idle, Idle, 0, 0, 0, None;
    }

    method SetState(newState: CallState)
      modifies this
      ensures Value() == WithState(old(Value()), newState)
    {
      if state != newState {
        state := newState;
        infoState := newState;
      }
    }

    method StartTimer(timeoutMs: uint32, now: int)
      modifies this
      ensures Value() == TimerStarted(old(Value()), now, timeoutMs)
    {
      timerStart := now;
      timerMs := timeoutMs;
      retransmits := 0;
    }

    method IsTimerExpired(now: int) returns (expired: bool)
      ensures expired == Expired(Value(), now)
    {
      if timerMs == 0 {
        return false;
      }
      expired := Wrap32(Millis(now - timerStart)) >= timerMs;
    }

    method IncrementRetransmit()
      modifies this
      ensures Value() == old(Value()).(retransmits := old(retransmits) + 1)
    {
      retransmits := retransmits + 1;
    }
  }

  /** Calls by id; every entry is an object of its own. `listener` is the session manager whose
      OnSipEvent is installed as the event callback. */
  class SipManager {
    const cfg: Config
    var initialized: bool
    var calls: map<CallId, SipCall>

    ghost predicate Valid()
      reads this
    {
      forall i, j :: i in calls && j in calls && i != j ==> calls[i] != calls[j]
    }

    ghost function View(): map<CallId, Call>
      reads this, calls.Values
    {
      map id | id in calls :: calls[id].Value()
    }

    /** With Initialize; `started` is whether the SIP library starts. */
    constructor (cfg: Config, started: bool)
      ensures Valid() && View() == map[] && calls == map[] && this.cfg == cfg && initialized == started
    {
      this.cfg, initialized, calls := cfg, started, map[];
    }

    // Changing one call's object changes one entry of the view.
    twostate lemma OneCallChanged(id: CallId)
      requires old(Valid()) && calls == old(calls) && id in calls
      requires forall j :: j in calls && j != id ==> calls[j].Value() == old(calls[j].Value())
      ensures View() == old(View())[id := calls[id].Value()]
    {
    }

    /** `id` is the generated call id. Before initialization nothing is called. */
    // So does storing a new one.
    twostate lemma OneCallAdded(id: CallId)
      requires id in calls && calls == old(calls)[id := calls[id]]
      requires forall j :: j in old(calls) && j != id ==> old(calls)[j].Value() == old(calls[j].Value())
      ensures View() == old(View())[id := calls[id].Value()]
    {
    }

    method MakeCall(listener: SessionManager, id: CallId, now: int) returns (result: CallId)
      requires listener.sip == this && listener.Valid()
      modifies this`calls
      ensures listener.Valid() && result == if initialized then id else ""
      ensures var before := old(listener.View());
              listener.View() ==
                if initialized then before.(calls := before.calls[id := NewCall(Calling, now, cfg.retryT1)]) else before
    {
      if !initialized {
        return "";
      }
      AddCall(id, Calling, now);
      result := id;
    }

    // A call in its first state, with its timer started.
    method AddCall(id: CallId, state: CallState, now: int)
      requires Valid()
      modifies this`calls
      ensures Valid() && calls.Keys == old(calls.Keys) + {id}
      ensures View() == old(View())[id := NewCall(state, now, cfg.retryT1)]
      ensures forall i :: i in calls && i != id ==> i in old(calls) && calls[i] == old(calls)[i]
      ensures fresh(calls[id])
    {
      var call := new SipCall();
      call.SetState(state);
      call.StartTimer(cfg.retryT1, now);
      calls := calls[id := call];
      OneCallAdded(id);
    }

    method AnswerCall(listener: SessionManager, id: CallId, accept: bool, media: Context) returns (ok: bool)
      requires listener.sip == this && listener.Valid() && OwnSockets(media)
      modifies this, calls.Values, listener, listener.epoll
      ensures listener.Valid() && listener.View() == Apply(cfg, old(listener.View()), Op.AnswerCall(id, accept, media))
      ensures ok <==> id in old(calls) && accept
    {
      if id !in calls {
        return false;
      }
      if accept {
        Enter(listener, id, Connected, media);
      } else {
        End(listener, id, media);
      }
      ok := accept;
    }

    method HangUp(listener: SessionManager, id: CallId) returns (ok: bool)
      requires listener.sip == this && listener.Valid()
      modifies this, calls.Values, listener, listener.epoll
      ensures listener.Valid() && listener.View() == Apply(cfg, old(listener.View()), Op.HangUp(id))
      ensures ok <==> HangUpAllowed(old(listener.View()), id)
    {
      if id !in calls || (calls[id].state != Connected && calls[id].state != InProgress) {
        return false;
      }
      Enter(listener, id, Disconnecting, NO_MEDIA);
      ok := true;
    }

    method CancelCall(listener: SessionManager, id: CallId) returns (ok: bool)
      requires listener.sip == this && listener.Valid()
      modifies this, calls.Values, listener, listener.epoll
      ensures listener.Valid() && listener.View() == Apply(cfg, old(listener.View()), Op.CancelCall(id))
      ensures ok <==> id in old(calls)
    {
      hide Entered, Ended;
      if id !in calls {
        return false;
      }
      End(listener, id, NO_MEDIA);
      ok := true;
    }

    method HandleInvite(listener: SessionManager, id: CallId, now: int, media: Context)
      requires listener.sip == this && listener.Valid() && OwnSockets(media)
      modifies this, calls.Values, listener, listener.epoll
      ensures listener.Valid() && listener.View() == Apply(cfg, old(listener.View()), RecvInvite(id, now, media))
    {
      hide Entered, Ended;
      if id == "" || id in calls {
        return;
      }
      AddCall(id, Ringing, now);
      listener.OnSipEvent(id, Ringing, media);
      Enter(listener, id, Connected, media);
    }

    method HandleBye(listener: SessionManager, id: CallId)
      requires listener.sip == this && listener.Valid()
      modifies this, calls.Values, listener, listener.epoll
      ensures listener.Valid() && listener.View() == Apply(cfg, old(listener.View()), RecvBye(id))
    {
      hide Entered, Ended;
      if id in calls {
        End(listener, id, NO_MEDIA);
      }
    }

    method HandleResponse(listener: SessionManager, id: CallId, status: int, media: Context)
      requires listener.sip == this && listener.Valid() && OwnSockets(media)
      modifies this, calls.Values, listener, listener.epoll
      ensures listener.Valid() && listener.View() == Apply(cfg, old(listener.View()), RecvResponse(id, status, media))
    {
      hide Entered, Ended;
      if id !in calls {
        return;
      }
      if 200 <= status < 300 {
        if calls[id].state == Calling {
          Enter(listener, id, Connected, media);
        } else if calls[id].state == Disconnecting {
          End(listener, id, media);
        }
      } else if status >= 300 {
        Enter(listener, id, Failed, media);
      }
    }

    method HandleCancel(listener: SessionManager, id: CallId)
      requires listener.sip == this && listener.Valid()
      modifies this, calls.Values, listener, listener.epoll
      ensures listener.Valid() && listener.View() == Apply(cfg, old(listener.View()), RecvCancel(id))
    {
      hide Entered, Ended;
      if id in calls {
        End(listener, id, NO_MEDIA);
      }
    }

    /** One pass over the calls, in whatever order the map yields them. */
    method ProcessTimers(listener: SessionManager, clock: CallId -> Readings)
      requires listener.sip == this && listener.Valid()
      modifies calls.Values, listener, listener.epoll
      ensures listener.Valid()
      ensures listener.View() == Apply(cfg, old(listener.View()), Op.ProcessTimers(clock))
    {
      hide Apply, Swept;
      ghost var before := listener.View();
      SweepIsPass(cfg, before, clock, before);
      Sweep(listener, before, clock);
      SweepIsPass(cfg, before, clock, listener.View());
    }

    // The loop of ProcessTimers.
    method Sweep(listener: SessionManager, ghost before: Sys, clock: CallId -> Readings)
      requires listener.sip == this && listener.Valid() && before.calls.Keys == calls.Keys
      requires Swept(cfg, before, clock, {}, listener.View())
      modifies calls.Values, listener, listener.epoll
      ensures listener.Valid() && Swept(cfg, before, clock, before.calls.Keys, listener.View())
    {
      hide Swept;
      var rest := calls.Keys;
      ghost var done: set<CallId> := {};
      while rest != {}
        invariant rest <= calls.Keys && done !! rest && done + rest == before.calls.Keys
        invariant calls == old(calls) && listener.Valid()
        invariant Swept(cfg, before, clock, done, listener.View())
      {
        var id :| id in rest;
        SweepOne(listener, before, clock, done, id);
        rest, done := rest - {id}, done + {id};
      }
      assert done == before.calls.Keys;
    }

    // One turn of the pass, after those in `done`.
    method SweepOne(listener: SessionManager, ghost before: Sys, clock: CallId -> Readings,
                    ghost done: set<CallId>, id: CallId)
      requires listener.sip == this && listener.Valid() && id in calls
      requires id in before.calls && id !in done && Swept(cfg, before, clock, done, listener.View())
      modifies calls.Values, listener, listener.epoll
      ensures listener.Valid() && Swept(cfg, before, clock, done + {id}, listener.View())
    {
      hide Swept, TurnTaken, Ticked;
      SweepStep(cfg, before, clock, done, listener.View(), id);
      TakeTurn(listener, id, clock(id));
    }

    // The body of ProcessTimers' loop.
    method TakeTurn(listener: SessionManager, id: CallId, r: Readings)
      requires listener.sip == this && listener.Valid() && id in calls
      modifies calls.Values, listener, listener.epoll
      ensures listener.Valid() && listener.View() == TurnTaken(cfg, old(listener.View()), id, r)
    {
      TurnIs(cfg, listener.View(), id, r);
      hide Expired, Pow2, Wrap32, TurnTaken, Ticked, Entered;
      var call := calls[id];
      var expired := call.IsTimerExpired(r.first);
      if expired && call.retransmits < cfg.maxRetransmit {
        Retry(id, r.third);
      } else {
        var stillExpired := call.IsTimerExpired(r.second);
        if stillExpired {
          Enter(listener, id, Failed, NO_MEDIA);
        }
      }
    }

    // Counts a retransmission and restarts the timer.
    method Retry(id: CallId, now: int)
      requires Valid() && id in calls
      modifies calls.Values
      ensures Valid()
      ensures var c := old(View())[id];
              View() == old(View())[id := TimerStarted(c, now, Wrap32(cfg.retryT1 * Pow2(c.retransmits + 1)))]
    {
      hide Pow2, Wrap32;
      var call := calls[id];
      call.IncrementRetransmit();
      call.StartTimer(Wrap32(cfg.retryT1 * Pow2(call.retransmits)), now);
      OneCallChanged(id);
    }

    // Sets a call's state and announces it.
    method Enter(listener: SessionManager, id: CallId, state: CallState, media: Context)
      requires listener.sip == this && listener.Valid() && OwnSockets(media) && id in calls
      modifies calls.Values, listener, listener.epoll
      ensures listener.Valid() && listener.View() == Entered(old(listener.View()), id, state, media)
    {
      calls[id].SetState(state);
      OneCallChanged(id);
      listener.OnSipEvent(id, state, media);
    }

    // Announces a call as disconnected and erases it.
    method End(listener: SessionManager, id: CallId, media: Context)
      requires listener.sip == this && listener.Valid() && OwnSockets(media) && id in calls
      modifies this, calls.Values, listener, listener.epoll
      ensures listener.Valid() && listener.View() == Ended(old(listener.View()), id, media)
    {
      hide Entered;
      Enter(listener, id, Disconnected, media);
      calls := calls - {id};
    }
  }

  // Two sockets never share a descriptor.
  ghost predicate OwnSockets(media: Context) {
    media.audioFd == media.videoFd ==> media.audioFd < 0
  }

  // The descriptors of a context are added one after the other.
  lemma OneByOne(fdMap: map<int, CallId>, id: CallId, ctx: Context)
    requires OwnSockets(ctx)
    ensures var withAudio := if ctx.audioFd >= 0 && ctx.audioAdded then fdMap[ctx.audioFd := id] else fdMap;
            WithDescriptors(fdMap, id, ctx)
            == if ctx.videoFd >= 0 && ctx.videoAdded then withAudio[ctx.videoFd := id] else withAudio
  {
  }

  class SessionManager {
    const sip: SipManager
    const epoll: IoMultiplexer<CallId>
    var contexts: map<CallId, Context>

    ghost predicate Valid()
      reads this, sip, epoll
    {
      sip.Valid() && epoll.interest == epoll.fdMap.Keys
    }

    ghost function View(): Sys
      reads this, sip, sip.calls.Values, epoll
    {
      Sys(sip.View(), contexts, epoll.fdMap)
    }

    constructor (cfg: Config, started: bool)
      ensures Valid() && View() == EMPTY && sip.cfg == cfg && sip.initialized == started
    {
      sip := new SipManager(cfg, started);
      epoll := new IoMultiplexer<CallId>();
      contexts := map[];
    }

    // ---- Descriptors ----

    method RegisterRtpFds(id: CallId, ctx: Context)
      requires Valid()
      requires OwnSockets(ctx)
      modifies epoll
      ensures Valid() && epoll.fdMap == WithDescriptors(old(epoll.fdMap), id, ctx)
    {
      OneByOne(epoll.fdMap, id, ctx);
      hide WithDescriptors;
      if ctx.audioFd >= 0 {
        var _ := epoll.AddFd(ctx.audioFd, id, ctx.audioAdded);
      }
      if ctx.videoFd >= 0 {
        var _ := epoll.AddFd(ctx.videoFd, id, ctx.videoAdded);
      }
    }

    method UnregisterRtpFds(ctx: Context)
      requires Valid()
      modifies epoll
      ensures Valid() && epoll.fdMap == old(epoll.fdMap) - Fds(ctx)
    {
      if ctx.audioFd >= 0 {
        var _ := epoll.DelFd(ctx.audioFd, ctx.audioFd in epoll.fdMap);
      }
      if ctx.videoFd >= 0 {
        var _ := epoll.DelFd(ctx.videoFd, ctx.videoFd in epoll.fdMap);
      }
    }

    // ---- OnSipEvent ----

    method GetOrCreateContext(id: CallId, media: Context) returns (ctx: Context)
      requires Valid() && OwnSockets(media)
      modifies this, epoll
      ensures Valid() && ctx == if id in old(contexts) then old(contexts)[id] else media
      ensures contexts == old(contexts)[id := ctx]
      ensures epoll.fdMap ==
                if id in old(contexts) then old(epoll.fdMap) else WithDescriptors(old(epoll.fdMap), id, media)
    {
      if id in contexts {
        return contexts[id];
      }
      ctx := media;
      contexts := contexts[id := ctx];
      RegisterRtpFds(id, ctx);
    }

    method RemoveContext(id: CallId)
      requires Valid()
      modifies this, epoll
      ensures Valid() && View() == OnGone(old(View()), {id})
    {
      FdsOfOne(contexts, id);
      if id in contexts {
        UnregisterRtpFds(contexts[id]);
      }
      contexts := contexts - {id};
    }

    method OnSipEvent(id: CallId, state: CallState, media: Context)
      requires Valid() && OwnSockets(media)
      modifies this, epoll, sip.calls.Values
      ensures Valid() && View() == Notified(old(View()), id, state, media)
    {
      match state {
        case Connected =>
          if id in sip.calls {
            var ctx := GetOrCreateContext(id, media);
            sip.calls[id].ports := Some(ctx.ports);
            sip.OneCallChanged(id);
          }
        case Disconnected => RemoveContext(id);
        case Failed => RemoveContext(id);
        case _ =>
      }
    }

    // ---- Call control ----

    /** `id` is the call id SipManager generates; no call is made, and no id returned, once as many
        contexts exist as sessions are allowed. */
    method MakeCall(id: CallId, now: int) returns (result: CallId)
      requires Valid()
      modifies sip
      ensures Valid() && sip.initialized == old(sip.initialized)
      ensures View() == if sip.initialized then Apply(sip.cfg, old(View()), Op.MakeCall(id, now)) else old(View())
      ensures result == if |old(contexts)| >= sip.cfg.maxSessions || !sip.initialized then "" else id
    {
      if |contexts| >= sip.cfg.maxSessions {
        return "";
      }
      result := sip.MakeCall(this, id, now);
    }
  }
}
