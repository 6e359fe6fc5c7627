// What each SIP operation leaves, in terms of the three maps.
module CallEffects {
  import opened Words
  import opened CallControl

  /** The context of one call and the descriptors registered under it are gone, no other. */
  ghost predicate MediaGone(a: Sys, b: Sys, id: CallId) {
    && b.contexts == a.contexts - {id}
    && (forall fd :: fd in b.fdMap <==> fd in a.fdMap && a.fdMap[fd] != id)
    && (forall fd :: fd in b.fdMap ==> b.fdMap[fd] == a.fdMap[fd])
  }

  /** The call is gone with all it had. */
  ghost predicate Erased(a: Sys, b: Sys, id: CallId) {
    b.calls == a.calls - {id} && MediaGone(a, b, id)
  }

  /** The call is stored as failed, without media. */
  ghost predicate Fails(a: Sys, b: Sys, id: CallId)
    requires id in a.calls
  {
    b.calls == a.calls[id := a.calls[id].(state := Failed, infoState := Failed)] && MediaGone(a, b, id)
  }

  // The descriptors of new media that epoll watches.
  predicate Registers(media: Context, fd: int) {
    fd >= 0 && ((fd == media.audioFd && media.audioAdded) || (fd == media.videoFd && media.videoAdded))
  }

  /** The call, given by its entry before, is connected: it has its context or, if it had none, the new
      media, under whose descriptors epoll now reports to it; and it advertises the context's ports. */
  ghost predicate Connects(a: Sys, b: Sys, id: CallId, c: Call, media: Context) {
    var ctx := if id in a.contexts then a.contexts[id] else media;
    && b.calls == a.calls[id := c.(state := Connected, infoState := Connected, ports := Some(ctx.ports))]
    && b.contexts == a.contexts[id := ctx]
    && if id in a.contexts then b.fdMap == a.fdMap
       else && (forall fd :: fd in b.fdMap <==> fd in a.fdMap || Registers(media, fd))
            && (forall fd :: fd in b.fdMap ==> b.fdMap[fd] == if Registers(media, fd) then id else a.fdMap[fd])
  }

  // ---- The three ways in which a call changes ----

  lemma GoneByOwner(a: Sys, id: CallId)
    requires Inv(a)
    ensures MediaGone(a, OnGone(a, {id}), id)
  {
    hide Coherent, Settled, PortsAgree;
    FdsOfOne(a.contexts, id);
    forall fd | fd in a.fdMap
      ensures a.fdMap[fd] != id <==> fd !in FdsOf(a.contexts, {id})
    {
      if a.fdMap[fd] != id {
        KeptFdStays(a.contexts, {id}, a.fdMap[fd], fd);
      } else {
        assert fd in Fds(a.contexts[id]);
      }
    }
  }

  lemma EndErases(a: Sys, id: CallId, media: Context)
    requires Inv(a) && id in a.calls
    ensures Erased(a, Ended(a, id, media), id)
  {
    GoneByOwner(a, id);
    hide Inv, FdsOf;
    assert a.calls[id := WithState(a.calls[id], Disconnected)] - {id} == a.calls - {id};
  }

  lemma FailingFails(a: Sys, id: CallId, media: Context)
    requires Inv(a) && id in a.calls
    ensures Fails(a, Entered(a, id, Failed, media), id)
  {
    assert WithState(a.calls[id], Failed) == a.calls[id].(state := Failed, infoState := Failed);
    GoneByOwner(a, id);
    hide Inv, FdsOf, WithState;
  }

  lemma RegistersWatched(media: Context, fd: int)
    requires media.audioFd == media.videoFd ==> media.audioFd == -1
    ensures fd in Watched(media) <==> Registers(media, fd)
  {
  }

  lemma ConnectingConnects(a: Sys, id: CallId, c: Call, media: Context)
    requires Inv(a) && NewMedia(a, media) && c.infoState == c.state
    ensures Connects(a, Entered(a.(calls := a.calls[id := c]), id, Connected, media), id, c, media)
  {
    hide Inv, Fds, Watched;
    forall fd
      ensures fd in Watched(media) <==> Registers(media, fd)
    {
      RegistersWatched(media, fd);
    }
    hide Registers, NewMedia;
    var connected := WithState(c, Connected);
    assert connected == c.(state := Connected, infoState := Connected);
    hide WithState;
    var ctx := if id in a.contexts then a.contexts[id] else media;
    assert a.calls[id := c][id := connected][id := connected.(ports := Some(ctx.ports))]
           == a.calls[id := connected.(ports := Some(ctx.ports))];
    assert id in a.contexts ==> a.contexts[id := ctx] == a.contexts;
  }

  // ---- The operations ----

  /** A response is ignored for an unknown call, below 200, and when it is a success that no request
      awaits. A final error fails the call in whatever state; success connects a calling one and ends
      one whose BYE it confirms. */
  lemma ResponseEffect(cfg: Config, a: Sys, id: CallId, status: int, media: Context)
    requires Inv(a) && NewMedia(a, media)
    ensures var b := Apply(cfg, a, RecvResponse(id, status, media));
            if id !in a.calls || status < 200 then b == a
            else if 300 <= status then Fails(a, b, id)
            else if a.calls[id].state == Calling then Connects(a, b, id, a.calls[id], media)
            else if a.calls[id].state == Disconnecting then Erased(a, b, id)
            else b == a
  {
    hide Fails, Connects, Erased, Entered, Ended, NewMedia;
    if id in a.calls {
      FailingFails(a, id, media);
      EndErases(a, id, media);
      ConnectingConnects(a, id, a.calls[id], media);
      hide Inv;
      assert a.(calls := a.calls[id := a.calls[id]]) == a;
    }
  }

  /** Accepting connects the call, with media; rejecting erases it with all it had. */
  lemma AnswerEffect(cfg: Config, a: Sys, id: CallId, accept: bool, media: Context)
    requires Inv(a) && NewMedia(a, media)
    ensures var b := Apply(cfg, a, AnswerCall(id, accept, media));
            if id !in a.calls then b == a
            else if accept then Connects(a, b, id, a.calls[id], media)
            else Erased(a, b, id)
  {
    hide Fails, Connects, Erased, Entered, Ended, NewMedia;
    if id in a.calls {
      EndErases(a, id, media);
      ConnectingConnects(a, id, a.calls[id], media);
      hide Inv;
      assert a.(calls := a.calls[id := a.calls[id]]) == a;
    }
  }

  /** An INVITE under a new id connects at once; one without an id or under a known one is ignored. */
  lemma InviteEffect(cfg: Config, a: Sys, id: CallId, now: int, media: Context)
    requires Inv(a) && NewMedia(a, media)
    ensures var b := Apply(cfg, a, RecvInvite(id, now, media));
            if id == "" || id in a.calls then b == a
            else Connects(a, b, id, Call(Ringing, Ringing, now, cfg.retryT1, 0, None), media)
  {
    hide Connects, Entered, NewMedia;
    if id != "" && id !in a.calls {
      ConnectingConnects(a, id, NewCall(Ringing, now, cfg.retryT1), media);
    }
    hide Inv;
  }

  /** BYE, CANCEL and cancellation erase a known call, in whatever state, and are ignored otherwise. */
  lemma EndEffect(cfg: Config, a: Sys, id: CallId, op: Op)
    requires Inv(a) && (op == RecvBye(id) || op == RecvCancel(id) || op == CancelCall(id))
    ensures var b := Apply(cfg, a, op); if id in a.calls then Erased(a, b, id) else b == a
  {
    hide Erased, Ended;
    if id in a.calls {
      EndErases(a, id, NO_MEDIA);
    }
    hide Inv;
  }

  /** Hanging up moves a connected call to disconnecting and does nothing else, to no other call. */
  lemma HangUpEffect(cfg: Config, a: Sys, id: CallId)
    requires Inv(a)
    ensures var b := Apply(cfg, a, HangUp(id));
            if id in a.calls && a.calls[id].state == Connected then
              b == a.(calls := a.calls[id := a.calls[id].(state := Disconnecting, infoState := Disconnecting)])
            else b == a
  {
    hide Coherent, PortsAgree, FdsDistinct, FdMapExact;
  }

  /** A new call is stored as calling, its timer started, unless as many sessions exist as are allowed. */
  lemma MakeCallEffect(cfg: Config, a: Sys, id: CallId, now: int)
    ensures var b := Apply(cfg, a, MakeCall(id, now));
            if |a.contexts| < cfg.maxSessions then
              b == a.(calls := a.calls[id := Call(Calling, Calling, now, cfg.retryT1, 0, None)])
            else b == a
  {
  }

  lemma TurnOf(cfg: Config, c: Call, r: Readings)
    requires c.retransmits == 0 && c.infoState == c.state
    ensures var t := Ticked(cfg, c, r);
            var retried := Expired(c, r.first) && 0 < cfg.maxRetransmit;
            && t.failed == (!retried && Expired(c, r.second))
            && t.call == if retried then
                 c.(timerStart := r.third, timerMs := (2 * cfg.retryT1) % 0x1_0000_0000, retransmits := 0)
               else if t.failed then c.(state := Failed, infoState := Failed)
               else c
  {
    assert Pow2(1) == 2;
    hide Expired, Pow2;
  }

  /** A pass over the timers: a call due at its first reading is given twice the initial interval from
      the third, if a retransmission is allowed; otherwise one due at the second fails; others are left
      alone. Exactly the contexts and descriptors of failed calls go. */
  lemma TimersEffect(cfg: Config, a: Sys, clock: CallId -> Readings, id: CallId)
    requires Inv(a) && id in a.calls
    ensures var b := Apply(cfg, a, ProcessTimers(clock));
            var c, r := a.calls[id], clock(id);
            && b.calls.Keys == a.calls.Keys
            && b.calls[id] ==
               (if Expired(c, r.first) && 0 < cfg.maxRetransmit then
                  c.(timerStart := r.third, timerMs := (2 * cfg.retryT1) % 0x1_0000_0000, retransmits := 0)
                else if Expired(c, r.second) then c.(state := Failed, infoState := Failed)
                else c)
            && (id in b.contexts <==> id in a.contexts && b.calls[id].state != Failed)
            && (id in b.contexts ==> b.contexts[id] == a.contexts[id])
  {
    TurnOf(cfg, a.calls[id], clock(id));
    hide Expired, Ticked, FdsOf, FdsDistinct, FdMapExact, PortsAgree;
  }

  /** Whatever had been counted, a restarted timer starts at the third reading with nothing counted, each
      retransmission counted having doubled its interval, in 32 bits. */
  lemma RestartForgets(cfg: Config, c: Call, r: Readings)
    requires Expired(c, r.first) && c.retransmits < cfg.maxRetransmit
    ensures var after := Ticked(cfg, c, r).call;
            && after.retransmits == 0 && after.timerStart == r.third && after.state == c.state
            && (c.retransmits == 0 ==> after.timerMs == (2 * cfg.retryT1) % 0x1_0000_0000)
            && (c.retransmits == 1 ==> after.timerMs == (4 * cfg.retryT1) % 0x1_0000_0000)
  {
    hide Expired;
    assert Pow2(1) == 2 && Pow2(2) == 4;
  }

  /** And of the descriptors exactly those of calls that have failed are no longer watched. */
  lemma TimersKeepWatched(cfg: Config, a: Sys, clock: CallId -> Readings, fd: int)
    requires Inv(a)
    ensures var b := Apply(cfg, a, ProcessTimers(clock));
            && (fd in b.fdMap <==> fd in a.fdMap && a.fdMap[fd] in b.calls && b.calls[a.fdMap[fd]].state != Failed)
            && (fd in b.fdMap ==> b.fdMap[fd] == a.fdMap[fd])
  {
    TimersAddNoFd(cfg, a, clock, fd);
    TimersKeepInv(cfg, a, clock);
    hide Apply, Settled, PortsAgree, FdsDistinct, Watched, Expired;
    if fd in a.fdMap {
      TimersEffect(cfg, a, clock, a.fdMap[fd]);
    }
  }

  lemma TimersAddNoFd(cfg: Config, a: Sys, clock: CallId -> Readings, fd: int)
    ensures var b := Apply(cfg, a, ProcessTimers(clock)); fd in b.fdMap ==> fd in a.fdMap && b.fdMap[fd] == a.fdMap[fd]
  {
    hide FdsOf, Ticked;
  }

  /** A timer is due when it is armed and its duration has passed, while less than 2^32 ms have. */
  lemma ExpiredIs(c: Call, now: int)
    requires 0 <= now - c.timerStart < 0x1_0000_0000 * 1_000_000
    ensures Expired(c, now) <==> c.timerMs != 0 && c.timerMs * 1_000_000 <= now - c.timerStart
  {
    MillisIs(now - c.timerStart);
    hide Millis, Millis32;
  }
}
