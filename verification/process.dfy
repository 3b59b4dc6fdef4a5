/** The daemon's central event loop: which limit a new peer controller
    starts with, how limit updates reach the controllers, the channel and
    alias caches in front of the node, and which node events count as a
    resolved HTLC. Every answer from the node is an input. */
module Process {
  import opened Wrappers
  import opened Hex
  import opened Strings
  import opened LimitDb
  import opened PeerController
  import DaemonConfig

  /** What the node reports about a channel: the remote peer and whether
      this node opened it. */
  datatype Channel = Channel(peer: Vertex, initiator: bool)

  /** The limits the loop holds: a default and the per-peer entries. */
  datatype ProcessLimits = ProcessLimits(global: Limit, perPeer: map<Vertex, Limit>)

  datatype ProcState = ProcState(
    limits: ProcessLimits,
    ctrls: map<Vertex, Ctrl>,
    chanMap: map<nat, Channel>,
    aliasMap: map<Vertex, string>)

  /** The limit a peer is governed by. */
  function LimitFor(limits: ProcessLimits, peer: Vertex): Limit {
    DaemonConfig.Routed(limits.perPeer, limits.global, peer)
  }

  /** Every running controller enforces the limit its peer is governed by. */
  predicate ConfigCoherent(st: ProcState) {
    forall p | p in st.ctrls :: st.ctrls[p].cfg == LimitFor(st.limits, p)
  }

  /** `getNodeAlias`, given the answer the node would give: a cached alias is
      returned as is; a lookup that succeeds is cached; a failed one yields
      the empty alias and is not cached. */
  function GetNodeAlias(aliasMap: map<Vertex, string>, peer: Vertex, lookup: Result<string, string>): (r: (string, map<Vertex, string>))
    ensures peer in aliasMap ==> r == (aliasMap[peer], aliasMap)
    ensures peer !in aliasMap && lookup.Ok? ==> r == (lookup.value, aliasMap[peer := lookup.value])
    ensures peer !in aliasMap && lookup.Err? ==> r == ("", aliasMap)
  {
    if peer in aliasMap then (aliasMap[peer], aliasMap)
    else if lookup.Ok? then (lookup.value, aliasMap[peer := lookup.value])
    else ("", aliasMap)
  }

  /** Once an alias has been cached, the node's answer no longer matters. */
  lemma CachedAliasIgnoresNode(aliasMap: map<Vertex, string>, peer: Vertex, a: Result<string, string>, b: Result<string, string>)
    requires peer in aliasMap
    ensures GetNodeAlias(aliasMap, peer, a) == GetNodeAlias(aliasMap, peer, b)
  {
  }

  /** How looking up the alias of `peer` leaves its cache entry: a cached
      alias stays; an uncached peer is added exactly when the node answers,
      with the node's answer. */
  predicate AliasCached(before: map<Vertex, string>, after: map<Vertex, string>, peer: Vertex, answer: Result<string, string>) {
    && (peer in before ==> peer in after && after[peer] == before[peer])
    && (peer !in before ==> (peer in after <==> answer.Ok?) && (answer.Ok? ==> after[peer] == answer.value))
  }

  /** The cache entries of peers outside `looked` are untouched. */
  ghost predicate OthersKept(before: map<Vertex, string>, after: map<Vertex, string>, looked: set<Vertex>) {
    forall p | p !in looked :: (p in after <==> p in before) && (p in after ==> after[p] == before[p])
  }

  /** `createPeerController`: the new controller starts with the peer's
      limit and the given pending set and replaces any earlier one; the
      peer's alias is looked up, `aliases` being what the node answers for
      each peer. */
  function CreatePeerController(st: ProcState, peer: Vertex, htlcs: set<CircuitKey>, aliases: Vertex -> Result<string, string>): (r: ProcState)
    ensures peer in r.ctrls && r.ctrls[peer] == NewCtrl(LimitFor(st.limits, peer), htlcs)
    ensures r.ctrls.Keys == st.ctrls.Keys + {peer}
    ensures forall p | p in st.ctrls && p != peer :: r.ctrls[p] == st.ctrls[p]
    ensures r.limits == st.limits && r.chanMap == st.chanMap
    ensures AliasCached(st.aliasMap, r.aliasMap, peer, aliases(peer))
    ensures OthersKept(st.aliasMap, r.aliasMap, {peer})
    ensures ConfigCoherent(st) ==> ConfigCoherent(r)
  {
    var (_, cache) := GetNodeAlias(st.aliasMap, peer, aliases(peer));
    st.(ctrls := st.ctrls[peer := NewCtrl(LimitFor(st.limits, peer), htlcs)], aliasMap := cache)
  }

  /** `getPeerController`: an existing controller is reused untouched;
      otherwise one is created with no pending HTLCs. */
  function GetPeerController(st: ProcState, peer: Vertex, aliases: Vertex -> Result<string, string>): (r: ProcState)
    ensures peer in st.ctrls ==> r == st
    ensures peer in r.ctrls && r.ctrls.Keys == st.ctrls.Keys + {peer}
    ensures peer !in st.ctrls ==> r.ctrls[peer] == NewCtrl(LimitFor(st.limits, peer), {})
    ensures peer !in st.ctrls ==> AliasCached(st.aliasMap, r.aliasMap, peer, aliases(peer))
    ensures OthersKept(st.aliasMap, r.aliasMap, {peer})
    ensures forall p | p in st.ctrls :: r.ctrls[p] == st.ctrls[p]
    ensures ConfigCoherent(st) ==> ConfigCoherent(r)
  {
    if peer in st.ctrls then st else CreatePeerController(st, peer, {}, aliases)
  }

  /** Asking twice for the same peer's controller creates at most one. */
  lemma GetPeerControllerIdempotent(st: ProcState, peer: Vertex, a: Vertex -> Result<string, string>, b: Vertex -> Result<string, string>)
    ensures var s1 := GetPeerController(st, peer, a);
      GetPeerController(s1, peer, b) == s1
  {
  }

  /** `getChanInfo`, given the node's channel listing: a cached channel is
      answered without asking; on a miss every listed channel is cached and
      the lookup is tried again. */
  function GetChanInfo(chanMap: map<nat, Channel>, channel: nat, listing: Result<map<nat, Channel>, string>): (r: (Result<Channel, string>, map<nat, Channel>))
    ensures channel in chanMap ==> r == (Ok(chanMap[channel]), chanMap)
    ensures channel !in chanMap && listing.Err? ==> r == (Err(listing.error), chanMap)
    ensures channel !in chanMap && listing.Ok? ==>
      r.1 == chanMap + listing.value &&
      (channel in listing.value ==> r.0 == Ok(listing.value[channel])) &&
      (channel !in listing.value ==> r.0 == Err(ChannelNotFound(channel)))
  {
    if channel in chanMap then (Ok(chanMap[channel]), chanMap)
    else if listing.Err? then (Err(listing.error), chanMap)
    else
      var merged := chanMap + listing.value;
      if channel in merged then (Ok(merged[channel]), merged)
      else (Err(ChannelNotFound(channel)), merged)
  }

  function ChannelNotFound(channel: nat): string {
    "incoming channel " + NatToString(channel) + " not found"
  }

  /** A cached channel answer does not depend on the node's listing, and the
      cache only ever grows. */
  lemma ChanCacheHitIgnoresNode(chanMap: map<nat, Channel>, channel: nat, a: Result<map<nat, Channel>, string>, b: Result<map<nat, Channel>, string>)
    ensures GetChanInfo(chanMap, channel, a).1.Keys >= chanMap.Keys
    ensures channel in chanMap ==> GetChanInfo(chanMap, channel, a) == GetChanInfo(chanMap, channel, b)
  {
  }

  /** A limit update: for the default (`None`) or for one peer. */
  datatype LimitUpdate = LimitUpdate(peer: Option<Vertex>, limit: Limit)

  /** The update-limit branch of the event loop, before persisting. A new
      default reaches only the controllers of peers without their own entry;
      a per-peer limit reaches only that peer's controller, if running. */
  function ApplyLimitUpdate(st: ProcState, u: LimitUpdate): (r: ProcState)
    ensures r.chanMap == st.chanMap && r.aliasMap == st.aliasMap && r.ctrls.Keys == st.ctrls.Keys
    ensures u.peer.None? ==> r.limits == st.limits.(global := u.limit)
    ensures u.peer.Some? ==> r.limits == st.limits.(perPeer := st.limits.perPeer[u.peer.value := u.limit])
    ensures forall p | p in st.ctrls ::
      r.ctrls[p] == (if Reaches(st.limits, u, p) then st.ctrls[p].(cfg := u.limit) else st.ctrls[p])
  {
    var limits :=
      if u.peer.None? then st.limits.(global := u.limit)
      else st.limits.(perPeer := st.limits.perPeer[u.peer.value := u.limit]);
    var ctrls := map p | p in st.ctrls ::
      if Reaches(st.limits, u, p) then st.ctrls[p].(cfg := u.limit) else st.ctrls[p];
    st.(limits := limits, ctrls := ctrls)
  }

  /** Whether an update is pushed to the controller of `p`. */
  predicate Reaches(limits: ProcessLimits, u: LimitUpdate, p: Vertex) {
    match u.peer
    case None => p !in limits.perPeer
    case Some(q) => p == q
  }

  /** Updates keep every running controller on its peer's limit. */
  lemma UpdateKeepsCoherent(st: ProcState, u: LimitUpdate)
    ensures ConfigCoherent(st) ==> ConfigCoherent(ApplyLimitUpdate(st, u))
  {
    if ConfigCoherent(st) {
      var r := ApplyLimitUpdate(st, u);
      forall p | p in r.ctrls
        ensures r.ctrls[p].cfg == LimitFor(r.limits, p)
      {
        assert p in st.ctrls;
      }
    }
  }

  /** A new default leaves peers that have their own limit exactly where
      they were. */
  lemma DefaultSparesPerPeer(st: ProcState, limit: Limit, p: Vertex)
    requires ConfigCoherent(st) && p in st.limits.perPeer
    ensures LimitFor(ApplyLimitUpdate(st, LimitUpdate(None, limit)).limits, p) == LimitFor(st.limits, p)
    ensures p in st.ctrls ==> ApplyLimitUpdate(st, LimitUpdate(None, limit)).ctrls[p] == st.ctrls[p]
  {
  }

  /** What the node reports about an HTLC: the event type and the kind of
      event it carries. */
  datatype HtlcEventType = UnknownType | Send | Receive | Forward
  datatype HtlcEventKind = ForwardEvent | ForwardFailEvent | SettleEvent | LinkFailEvent | OtherEvent
  datatype HtlcEvent = HtlcEvent(eventType: HtlcEventType, kind: HtlcEventKind, incomingChannelId: nat, incomingHtlcId: nat)

  /** An HTLC that a peer controller is told has been resolved. */
  datatype Resolution = Resolution(key: CircuitKey, settled: bool)

  /** `processHtlcEvents`' filter: only a forward that settled or failed
      resolves an incoming HTLC. */
  function ResolveKey(ev: HtlcEvent): (r: Option<Resolution>)
    ensures r.Some? <==> ev.eventType == Forward && ev.kind in {SettleEvent, ForwardFailEvent, LinkFailEvent}
    ensures r.Some? ==> r.value.key == CircuitKey(ev.incomingChannelId, ev.incomingHtlcId)
    ensures r.Some? ==> (r.value.settled <==> ev.kind == SettleEvent)
  {
    if ev.eventType != Forward then None
    else match ev.kind
      case SettleEvent => Some(Resolution(CircuitKey(ev.incomingChannelId, ev.incomingHtlcId), true))
      case ForwardFailEvent | LinkFailEvent => Some(Resolution(CircuitKey(ev.incomingChannelId, ev.incomingHtlcId), false))
      case _ => None
  }

  datatype ResolveAction = ActionResume | ActionFail

  /** The reply sent to the node's interceptor. */
  datatype InterceptResponse = InterceptResponse(key: CircuitKey, action: ResolveAction)

  /** The `resume` callback of `processInterceptor`. */
  function ResumeResponse(key: CircuitKey, forward: bool): (r: InterceptResponse)
    ensures r.key == key
    ensures r.action == ActionResume <==> forward
  {
    InterceptResponse(key, if forward then ActionResume else ActionFail)
  }

  /** What the node would answer during one turn of the loop. */
  datatype NodeAnswers = NodeAnswers(
    listing: Result<map<nat, Channel>, string>,
    aliases: Vertex -> Result<string, string>,
    allow: bool,
    resumeOk: bool,
    dbError: Option<string>)

  datatype LoopEvent =
    | InterceptReceived(key: CircuitKey)
    | ResolveReceived(resolution: Resolution)
    | UpdateReceived(update: LimitUpdate)

  /** The loop's state after a turn, the limit write it asks of the store,
      and the reply it sent to the node. */
  datatype Turn = Turn(state: ProcState, write: Option<LimitUpdate>, reply: Option<InterceptResponse>)

  const ResumeFailed := "resume failed"

  /** Hands a controller event to the peer's controller. */
  function Deliver(st: ProcState, peer: Vertex, ev: CtrlEvent, ans: NodeAnswers): (r: Result<Turn, string>)
    requires peer in st.ctrls
    ensures r.Ok? ==> r.value.state.ctrls.Keys == st.ctrls.Keys && r.value.write.None?
    ensures r.Ok? ==> r.value.state.limits == st.limits
    ensures r.Ok? && ConfigCoherent(st) && !ev.LimitUpdated? ==> ConfigCoherent(r.value.state)
  {
    match Step(st.ctrls[peer], ev, ans.allow, ans.resumeOk)
    case Running(c, sent) =>
      var reply := if sent.Some? then Some(ResumeResponse(sent.value.key, sent.value.forward)) else None;
      Ok(Turn(st.(ctrls := st.ctrls[peer := c]), None, reply))
    case Stopped(_, _) => Err(ResumeFailed)
  }

  /** One turn of `eventLoop`: intercepts and resolutions are routed to the
      controller of the channel's peer, created on demand; limit updates are
      applied and then persisted. Any error ends the loop. */
  function LoopStep(st: ProcState, ev: LoopEvent, ans: NodeAnswers): (r: Result<Turn, string>)
    ensures r.Ok? && ConfigCoherent(st) ==> ConfigCoherent(r.value.state)
    ensures ev.UpdateReceived? ==> r == (if ans.dbError.Some? then Err(ans.dbError.value)
                                         else Ok(Turn(ApplyLimitUpdate(st, ev.update), Some(ev.update), None)))
    ensures !ev.UpdateReceived? && r.Ok? ==> r.value.state.limits == st.limits && r.value.write.None?
    ensures ev.InterceptReceived? && r.Ok? ==> r.value.reply.Some? ==> r.value.reply.value.key == ev.key
  {
    match ev
    case UpdateReceived(u) =>
      if ans.dbError.Some? then Err(ans.dbError.value)
      else
        UpdateKeepsCoherent(st, u);
        Ok(Turn(ApplyLimitUpdate(st, u), Some(u), None))
    case InterceptReceived(key) =>
      var (info, chans) := GetChanInfo(st.chanMap, key.channel, ans.listing);
      if info.Err? then Err(info.error)
      else
        var peer := info.value.peer;
        var st1 := GetPeerController(st.(chanMap := chans), peer, ans.aliases);
        Deliver(st1, peer, Intercepted(key, !info.value.initiator), ans)
    case ResolveReceived(res) =>
      var (info, chans) := GetChanInfo(st.chanMap, res.key.channel, ans.listing);
      if info.Err? then Err(info.error)
      else
        var peer := info.value.peer;
        var st1 := GetPeerController(st.(chanMap := chans), peer, ans.aliases);
        Deliver(st1, peer, Resolved(res.key, res.settled), ans)
  }

  /** An HTLC on a channel this node opened is never peer-initiated, and on
      a channel the peer opened it always is. */
  lemma InterceptCarriesOpener(st: ProcState, key: CircuitKey, ans: NodeAnswers)
    requires key.channel in st.chanMap
    ensures var ch := st.chanMap[key.channel];
      var st1 := GetPeerController(st, ch.peer, ans.aliases);
      LoopStep(st, InterceptReceived(key), ans) == Deliver(st1, ch.peer, Intercepted(key, !ch.initiator), ans)
  {
  }

  /** The pending HTLCs at start-up, grouped by the peer of their channel.
      A channel missing from the node's listing is an error. */
  function GroupByPeer(keys: seq<CircuitKey>, chans: map<nat, Channel>): (r: Result<map<Vertex, set<CircuitKey>>, string>)
    ensures r.Err? <==> exists i | 0 <= i < |keys| :: keys[i].channel !in chans
    ensures r.Ok? ==> forall i | 0 <= i < |keys| ::
      chans[keys[i].channel].peer in r.value && keys[i] in r.value[chans[keys[i].channel].peer]
    ensures r.Ok? ==> forall p, k | p in r.value && k in r.value[p] ::
      k.channel in chans && chans[k.channel].peer == p && k in keys
  {
    if |keys| == 0 then Ok(map[])
    else
      var rest := GroupByPeer(keys[..|keys| - 1], chans);
      var k := keys[|keys| - 1];
      if rest.Err? then
        var i :| 0 <= i < |keys| - 1 && keys[..|keys| - 1][i].channel !in chans;
        assert keys[i].channel !in chans;
        rest
      else if k.channel !in chans then Err(ChannelNotFound(k.channel))
      else
        var p := chans[k.channel].peer;
        var prev := if p in rest.value then rest.value[p] else {};
        assert forall i | 0 <= i < |keys| - 1 :: keys[i] == keys[..|keys| - 1][i];
        Ok(rest.value[p := prev + {k}])
  }

  /** The state part-way through start-up, once the peers in `done` have
      their controllers: those hold exactly their pending HTLCs, the other
      controllers and the limits are as before, and the alias cache has
      been filled for exactly the peers in `done`. */
  ghost predicate StartedFor(st: ProcState, r: ProcState, pending: map<Vertex, set<CircuitKey>>, done: set<Vertex>, aliases: Vertex -> Result<string, string>) {
    && done <= pending.Keys
    && r.ctrls.Keys == st.ctrls.Keys + done
    && (forall p | p in done :: r.ctrls[p] == NewCtrl(LimitFor(st.limits, p), pending[p]))
    && (forall p | p in st.ctrls && p !in pending :: r.ctrls[p] == st.ctrls[p])
    && r.limits == st.limits
    && (forall p | p in done :: AliasCached(st.aliasMap, r.aliasMap, p, aliases(p)))
    && OthersKept(st.aliasMap, r.aliasMap, done)
    && (ConfigCoherent(st) ==> ConfigCoherent(r))
  }

  /** Starting one more peer's controller. */
  lemma StartStep(st: ProcState, r: ProcState, pending: map<Vertex, set<CircuitKey>>, done: set<Vertex>, aliases: Vertex -> Result<string, string>, p: Vertex)
    requires StartedFor(st, r, pending, done, aliases) && p in pending && p !in done
    ensures StartedFor(st, CreatePeerController(r, p, pending[p], aliases), pending, done + {p}, aliases)
  {
    var r' := CreatePeerController(r, p, pending[p], aliases);
    forall q | q in done + {p}
      ensures AliasCached(st.aliasMap, r'.aliasMap, q, aliases(q))
    {
      if q != p {
        assert AliasCached(st.aliasMap, r.aliasMap, q, aliases(q));
      }
    }
  }

  lemma StartedNone(st: ProcState, pending: map<Vertex, set<CircuitKey>>, aliases: Vertex -> Result<string, string>)
    ensures StartedFor(st, st, pending, {}, aliases)
  {
  }

  /** Start-up: one controller per peer with pending HTLCs, holding exactly
      that peer's HTLCs; each of those peers' aliases is looked up, with
      `aliases` giving the node's answer for each peer. */
  method StartControllers(st: ProcState, pending: map<Vertex, set<CircuitKey>>, aliases: Vertex -> Result<string, string>) returns (r: ProcState)
    ensures r.ctrls.Keys == st.ctrls.Keys + pending.Keys
    ensures forall p | p in pending :: r.ctrls[p] == NewCtrl(LimitFor(st.limits, p), pending[p])
    ensures forall p | p in st.ctrls && p !in pending :: r.ctrls[p] == st.ctrls[p]
    ensures r.limits == st.limits
    ensures forall p | p in pending :: AliasCached(st.aliasMap, r.aliasMap, p, aliases(p))
    ensures OthersKept(st.aliasMap, r.aliasMap, pending.Keys)
    ensures ConfigCoherent(st) ==> ConfigCoherent(r)
  {
    r := st;
    var todo := pending.Keys;
    StartedNone(st, pending, aliases);
    while todo != {}
      invariant todo <= pending.Keys
      invariant StartedFor(st, r, pending, pending.Keys - todo, aliases)
      decreases todo
    {
      var p :| p in todo;
      StartStep(st, r, pending, pending.Keys - todo, aliases, p);
      assert pending.Keys - todo + {p} == pending.Keys - (todo - {p});
      r := CreatePeerController(r, p, pending[p], aliases);
      todo := todo - {p};
    }
  }
}
