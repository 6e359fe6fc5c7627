// What whole calls leave behind, and what an operation on one call does to the others.
module CallTraces {
  import opened Words
  import opened CallControl

  function Applied(cfg: Config, sys: Sys, ops: seq<Op>): Sys
    decreases |ops|
  {
    if ops == [] then sys else Applied(cfg, Apply(cfg, sys, ops[0]), ops[1..])
  }

  lemma AppliedTwo(cfg: Config, sys: Sys, a: Op, b: Op)
    ensures Applied(cfg, sys, [a, b]) == Apply(cfg, Apply(cfg, sys, a), b)
  {
    hide Apply;
    assert [a, b][1..] == [b] && [b][1..] == [];
    assert Applied(cfg, Apply(cfg, Apply(cfg, sys, a), b), []) == Apply(cfg, Apply(cfg, sys, a), b);
  }

  // ---- A call that ends leaves no trace ----

  /** The state with a call that has media of its own, in the given state. */
  function WithCall(sys: Sys, id: CallId, c: Call, media: Context): Sys {
    Sys(sys.calls[id := c], sys.contexts[id := media], WithDescriptors(sys.fdMap, id, media))
  }

  lemma NewFdsUnwatched(sys: Sys, media: Context)
    requires Inv(sys) && NewMedia(sys, media)
    ensures Fds(media) !! sys.fdMap.Keys
  {
    hide Coherent, Settled, PortsAgree;
    forall fd | fd in sys.fdMap
      ensures fd !in Fds(media)
    {
      assert fd in Fds(sys.contexts[sys.fdMap[fd]]);
      assert fd in FdsOf(sys.contexts, sys.contexts.Keys);
    }
  }

  lemma DescriptorsGo(sys: Sys, id: CallId, media: Context)
    requires Inv(sys) && NewMedia(sys, media) && id !in sys.contexts
    ensures WithDescriptors(sys.fdMap, id, media) - FdsOf(sys.contexts[id := media], {id}) == sys.fdMap
  {
    NewFdsUnwatched(sys, media);
    FdsOfOne(sys.contexts[id := media], id);
    hide Inv, NewMedia, FdsOf;
    assert Watched(media) <= Fds(media);
  }

  /** Ending a call takes back exactly what it had: the call, its context and its descriptors. */
  lemma EndUndoesCall(sys: Sys, id: CallId, c: Call, media: Context, any: Context)
    requires Inv(sys) && NewMedia(sys, media) && id !in sys.calls
    ensures Ended(WithCall(sys, id, c, media), id, any) == sys
  {
    assert id !in sys.contexts;
    hide Inv, FdsOf, WithDescriptors, NewMedia, Ended;
    DescriptorsGo(sys, id, media);
    EndedIs(WithCall(sys, id, c, media), id, any);
    RemoveAdded(sys.contexts, id, media);
    RemoveAdded(sys.calls, id, c);
  }

  lemma RemoveAdded<K, V>(m: map<K, V>, k: K, v: V)
    requires k !in m
    ensures m[k := v] - {k} == m
  {
  }

  lemma EndedIs(sys: Sys, id: CallId, any: Context)
    requires id in sys.calls
    ensures Ended(sys, id, any)
            == Sys(sys.calls - {id}, sys.contexts - {id}, sys.fdMap - FdsOf(sys.contexts, {id}))
  {
    hide FdsOf;
    assert sys.calls[id := WithState(sys.calls[id], Disconnected)] - {id} == sys.calls - {id};
  }

  // The connected call that Entered makes of an entry without media.
  lemma EnteredIs(sys: Sys, id: CallId, c: Call, media: Context)
    requires id !in sys.contexts
    ensures Entered(sys.(calls := sys.calls[id := c]), id, Connected, media)
            == WithCall(sys, id, WithState(c, Connected).(ports := Some(media.ports)), media)
  {
    hide WithDescriptors;
    var connected := WithState(c, Connected);
    assert sys.calls[id := c][id := connected][id := connected.(ports := Some(media.ports))]
           == sys.calls[id := connected.(ports := Some(media.ports))];
  }

  lemma InviteIs(cfg: Config, sys: Sys, id: CallId, now: int, media: Context)
    requires Inv(sys) && id != "" && id !in sys.calls
    ensures Apply(cfg, sys, RecvInvite(id, now, media))
            == WithCall(sys, id, Call(Connected, Connected, now, cfg.retryT1, 0, Some(media.ports)), media)
  {
    hide Settled, PortsAgree, FdsDistinct, FdMapExact, WithCall, Entered;
    assert id !in sys.contexts;
    EnteredIs(sys, id, NewCall(Ringing, now, cfg.retryT1), media);
  }

  /** An incoming call ended from the far side, by BYE or CANCEL, or cancelled here, restores the
      state exactly as it was before the call. */
  lemma IncomingCallLeavesNoTrace(cfg: Config, sys: Sys, id: CallId, now: int, media: Context, end: Op)
    requires Inv(sys) && NewMedia(sys, media) && id != "" && id !in sys.calls
    requires end == RecvBye(id) || end == RecvCancel(id) || end == CancelCall(id)
    ensures Applied(cfg, sys, [RecvInvite(id, now, media), end]) == sys
  {
    hide Inv, NewMedia, Ended, Apply, Applied;
    var c := Call(Connected, Connected, now, cfg.retryT1, 0, Some(media.ports));
    InviteIs(cfg, sys, id, now, media);
    OpEnds(cfg, WithCall(sys, id, c, media), id, end);
    EndUndoesCall(sys, id, c, media, NO_MEDIA);
    AppliedTwo(cfg, sys, RecvInvite(id, now, media), end);
  }

  lemma OpEnds(cfg: Config, sys: Sys, id: CallId, end: Op)
    requires id in sys.calls && (end == RecvBye(id) || end == RecvCancel(id) || end == CancelCall(id))
    ensures Apply(cfg, sys, end) == Ended(sys, id, NO_MEDIA)
  {
  }

  lemma HangUpIs(cfg: Config, sys: Sys, id: CallId, c: Call, media: Context)
    requires c.state == Connected
    ensures Apply(cfg, WithCall(sys, id, c, media), HangUp(id)) == WithCall(sys, id, WithState(c, Disconnecting), media)
  {
    hide WithDescriptors;
    assert sys.calls[id := c][id := WithState(c, Disconnecting)] == sys.calls[id := WithState(c, Disconnecting)];
  }

  /** Hanging up and the 200 OK that answers the BYE restore it too. */
  lemma HangUpLeavesNoTrace(cfg: Config, sys: Sys, id: CallId, c: Call, media: Context, status: int, any: Context)
    requires Inv(sys) && NewMedia(sys, media) && id !in sys.calls
    requires c.state == Connected && 200 <= status < 300
    ensures Applied(cfg, WithCall(sys, id, c, media), [HangUp(id), RecvResponse(id, status, any)]) == sys
  {
    hide Inv, NewMedia, Ended, Apply, Applied;
    var leaving := WithCall(sys, id, WithState(c, Disconnecting), media);
    HangUpIs(cfg, sys, id, c, media);
    ResponseEnds(cfg, leaving, id, status, any);
    EndUndoesCall(sys, id, WithState(c, Disconnecting), media, any);
    AppliedTwo(cfg, WithCall(sys, id, c, media), HangUp(id), RecvResponse(id, status, any));
  }

  lemma ResponseEnds(cfg: Config, sys: Sys, id: CallId, status: int, any: Context)
    requires id in sys.calls && sys.calls[id].state == Disconnecting && 200 <= status < 300
    ensures Apply(cfg, sys, RecvResponse(id, status, any)) == Ended(sys, id, any)
  {
  }

  lemma OutgoingIs(cfg: Config, sys: Sys, id: CallId, now: int, status: int, media: Context)
    requires Inv(sys) && id !in sys.calls && |sys.contexts| < cfg.maxSessions && 200 <= status < 300
    ensures Applied(cfg, sys, [MakeCall(id, now), RecvResponse(id, status, media)])
            == WithCall(sys, id, Call(Connected, Connected, now, cfg.retryT1, 0, Some(media.ports)), media)
  {
    hide Settled, PortsAgree, FdsDistinct, FdMapExact, WithCall, Entered;
    assert id !in sys.contexts;
    AppliedTwo(cfg, sys, MakeCall(id, now), RecvResponse(id, status, media));
    EnteredIs(sys, id, NewCall(Calling, now, cfg.retryT1), media);
  }

  /** A whole outgoing call: made, answered, hung up and confirmed, it leaves the state as it was. */
  lemma OutgoingCallLeavesNoTrace(cfg: Config, sys: Sys, id: CallId, now: int, media: Context, any: Context)
    requires Inv(sys) && NewMedia(sys, media) && id !in sys.calls && |sys.contexts| < cfg.maxSessions
    ensures Applied(cfg, Applied(cfg, sys, [MakeCall(id, now), RecvResponse(id, 200, media)]),
                    [HangUp(id), RecvResponse(id, 200, any)]) == sys
  {
    hide Inv, NewMedia, Applied, WithCall;
    OutgoingIs(cfg, sys, id, now, 200, media);
    HangUpLeavesNoTrace(cfg, sys, id,
                        Call(Connected, Connected, now, cfg.retryT1, 0, Some(media.ports)), media, 200, any);
  }

  /** A refused call stays, failed, without media; nothing else has changed. */
  lemma RefusedCallStays(cfg: Config, sys: Sys, id: CallId, now: int, status: int, any: Context)
    requires Inv(sys) && id !in sys.calls && |sys.contexts| < cfg.maxSessions && 300 <= status
    ensures Applied(cfg, sys, [MakeCall(id, now), RecvResponse(id, status, any)])
            == sys.(calls := sys.calls[id := Call(Failed, Failed, now, cfg.retryT1, 0, None)])
  {
    hide Settled, PortsAgree, FdsDistinct, FdMapExact, Entered;
    assert id !in sys.contexts;
    AppliedTwo(cfg, sys, MakeCall(id, now), RecvResponse(id, status, any));
    FailedIs(sys, id, NewCall(Calling, now, cfg.retryT1), any);
  }

  // The failed call that Entered makes of an entry without media.
  lemma FailedIs(sys: Sys, id: CallId, c: Call, any: Context)
    requires id !in sys.contexts
    ensures Entered(sys.(calls := sys.calls[id := c]), id, Failed, any)
            == sys.(calls := sys.calls[id := WithState(c, Failed)])
  {
    assert FdsOf(sys.contexts, {id}) == {};
    assert sys.contexts - {id} == sys.contexts && sys.fdMap - {} == sys.fdMap;
    assert sys.calls[id := c][id := WithState(c, Failed)] == sys.calls[id := WithState(c, Failed)];
  }

  // ---- Calls do not interfere ----

  predicate Concerns(op: Op, id: CallId) {
    op.ProcessTimers? || op.id == id
  }

  ghost predicate Untouched(a: Sys, b: Sys, id: CallId) {
    && (id in a.calls <==> id in b.calls) && (id in a.calls ==> b.calls[id] == a.calls[id])
    && (id in a.contexts <==> id in b.contexts) && (id in a.contexts ==> b.contexts[id] == a.contexts[id])
    && (forall fd :: fd in a.fdMap && a.fdMap[fd] == id ==> fd in b.fdMap && b.fdMap[fd] == id)
    && (forall fd :: fd in b.fdMap && b.fdMap[fd] == id ==> fd in a.fdMap && a.fdMap[fd] == id)
  }

  lemma ConnectTouchesOne(sys: Sys, id: CallId, c: Call, media: Context, other: CallId)
    requires Inv(sys) && NewMedia(sys, media) && other != id
    ensures Untouched(sys, Entered(sys.(calls := sys.calls[id := c]), id, Connected, media), other)
  {
    NewFdsUnwatched(sys, media);
    hide Inv, NewMedia;
    WatchedAreNew(sys.fdMap, id, media);
    hide Fds, WithDescriptors;
  }

  lemma WatchedAreNew(fdMap: map<int, CallId>, id: CallId, media: Context)
    requires Fds(media) !! fdMap.Keys
    ensures var after := WithDescriptors(fdMap, id, media);
            && (forall fd :: fd in fdMap ==> fd in after && after[fd] == fdMap[fd])
            && (forall fd :: fd in after && fd !in fdMap ==> after[fd] == id)
  {
    assert Watched(media) <= Fds(media);
  }

  lemma GoneTouchesOne(sys: Sys, id: CallId, other: CallId)
    requires Inv(sys) && other != id
    ensures Untouched(sys, OnGone(sys, {id}), other)
  {
    hide Coherent, Settled, PortsAgree, FdsDistinct;
    forall fd | fd in sys.fdMap && sys.fdMap[fd] == other
      ensures fd !in FdsOf(sys.contexts, {id})
    {
      KeptFdStays(sys.contexts, {id}, other, fd);
    }
  }

  lemma EndTouchesOne(sys: Sys, id: CallId, other: CallId, media: Context)
    requires Inv(sys) && other != id && id in sys.calls
    ensures Untouched(sys, Ended(sys, id, media), other)
  {
    GoneTouchesOne(sys, id, other);
    hide Inv, FdsOf;
  }

  lemma FailTouchesOne(sys: Sys, id: CallId, other: CallId, media: Context)
    requires Inv(sys) && other != id && id in sys.calls
    ensures Untouched(sys, Entered(sys, id, Failed, media), other)
  {
    GoneTouchesOne(sys, id, other);
    hide Inv, FdsOf;
  }

  // The operations that can give a call media, or end it with media at hand.
  lemma MediaOpTouchesOne(cfg: Config, sys: Sys, op: Op, other: CallId)
    requires Inv(sys) && !Concerns(op, other) && (op.AnswerCall? || op.RecvResponse?) && NewMedia(sys, op.media)
    ensures Untouched(sys, Apply(cfg, sys, op), other)
  {
    hide Inv, NewMedia, Ended, Entered;
    if op.id in sys.calls {
      assert sys.(calls := sys.calls[op.id := sys.calls[op.id]]) == sys;
      EndTouchesOne(sys, op.id, other, op.media);
      FailTouchesOne(sys, op.id, other, op.media);
      ConnectTouchesOne(sys, op.id, sys.calls[op.id], op.media, other);
    }
  }

  /** An operation on one call changes no other call, nor its context, nor its descriptors. */
  lemma OthersUntouched(cfg: Config, sys: Sys, op: Op, other: CallId)
    requires Inv(sys) && Admissible(sys, op) && !Concerns(op, other)
    ensures Untouched(sys, Apply(cfg, sys, op), other)
  {
    hide Inv, NewMedia, FdsOf, Ended, OnConnected, OnGone;
    if op.AnswerCall? || op.RecvResponse? {
      MediaOpTouchesOne(cfg, sys, op, other);
    } else if op.RecvInvite? {
      ConnectTouchesOne(sys, op.id, NewCall(Ringing, op.now, cfg.retryT1), op.media, other);
    } else if op.id in sys.calls {
      EndTouchesOne(sys, op.id, other, NO_MEDIA);
    }
  }
}
