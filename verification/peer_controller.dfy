/** One peer's HTLC admission controller, written as a step function over
    its state: the pending set, the configured limit and the per-interval
    event counters. The token bucket's `Allow()` and the outcome of each
    `resume` call are inputs. */
module PeerController {
  import opened Wrappers
  import DaemonConfig
  import opened LimitDb

  /** An incoming HTLC: its channel and its index on that channel. */
  datatype CircuitKey = CircuitKey(channel: nat, htlc: nat)

  datatype EventType = EventSuccess | EventFail | EventReject

  /** One interval's counts of settled, failed and rejected HTLCs. */
  datatype Counts = Counts(success: nat, fail: nat, reject: nat)

  const ZeroCounts := Counts(0, 0, 0)

  /** The counter intervals: an hour and a day. */
  const CounterIntervals: nat := 2

  /** `eventCounter.Incr`: exactly the event's own count goes up by one. */
  function Incr(c: Counts, ev: EventType): (r: Counts)
    ensures r.success == c.success + (if ev == EventSuccess then 1 else 0)
    ensures r.fail == c.fail + (if ev == EventFail then 1 else 0)
    ensures r.reject == c.reject + (if ev == EventReject then 1 else 0)
  {
    match ev
    case EventSuccess => c.(success := c.success + 1)
    case EventFail => c.(fail := c.fail + 1)
    case EventReject => c.(reject := c.reject + 1)
  }

  function Total(c: Counts): nat {
    c.success + c.fail + c.reject
  }

  /** `incrCounter`: every interval counts the event once. */
  function IncrCounter(counters: seq<Counts>, ev: EventType): (r: seq<Counts>)
    ensures |r| == |counters|
    ensures forall i | 0 <= i < |r| :: r[i] == Incr(counters[i], ev)
  {
    seq(|counters|, i requires 0 <= i < |counters| => Incr(counters[i], ev))
  }

  datatype Ctrl = Ctrl(cfg: Limit, htlcs: set<CircuitKey>, counters: seq<Counts>)

  /** `newPeerController`: the given pending set, zero counts per interval. */
  function NewCtrl(cfg: Limit, htlcs: set<CircuitKey>): (c: Ctrl)
    ensures c.cfg == cfg && c.htlcs == htlcs
    ensures |c.counters| == CounterIntervals && forall i | 0 <= i < |c.counters| :: c.counters[i] == ZeroCounts
  {
    Ctrl(cfg, htlcs, [ZeroCounts, ZeroCounts])
  }

  /** A new HTLC may be forwarded when no pending cap is set or the pending
      set is below it. */
  predicate NewHtlcAllowed(c: Ctrl) {
    c.cfg.maxPending == 0 || |c.htlcs| < c.cfg.maxPending
  }

  /** The events the run loop selects on. */
  datatype CtrlEvent =
    | Intercepted(key: CircuitKey, peerInitiated: bool)
    | Resolved(resolvedKey: CircuitKey, settled: bool)
    | LimitUpdated(limit: Limit)

  /** A decision sent back to the node: forward (`true`) or fail. */
  datatype Resume = Resume(key: CircuitKey, forward: bool)

  /** The loop continues with a new state, or returns the error of a
      failed `resume` and stops. */
  datatype StepResult =
    | Running(ctrl: Ctrl, sent: Option<Resume>)
    | Stopped(last: Ctrl, failedSend: Resume)

  /** The mode the controller acts on: the configured mode is ignored and
      every HTLC is handled at once. */
  const EffectiveMode: DaemonConfig.Mode := DaemonConfig.ModeFail

  /** Whether an intercepted HTLC is queued instead of handled at once. */
  predicate Queued(peerInitiated: bool) {
    EffectiveMode == DaemonConfig.ModeQueue || (EffectiveMode == DaemonConfig.ModeQueuePeerInitiated && peerInitiated)
  }

  /** One turn of the run loop. `allow` is the token bucket's answer, asked
      only when the pending cap admits the HTLC; `resumeOk` says whether the
      reply reached the node. */
  function Step(c: Ctrl, ev: CtrlEvent, allow: bool, resumeOk: bool): (r: StepResult)
    ensures ev.Intercepted? && ev.key in c.htlcs ==> r == Running(c, None)
    ensures ev.Intercepted? && ev.key !in c.htlcs && NewHtlcAllowed(c) && allow ==>
      var c' := c.(htlcs := c.htlcs + {ev.key});
      r == (if resumeOk then Running(c', Some(Resume(ev.key, true))) else Stopped(c', Resume(ev.key, true)))
    ensures ev.Intercepted? && ev.key !in c.htlcs && !(NewHtlcAllowed(c) && allow) ==>
      var c' := c.(counters := IncrCounter(c.counters, EventReject));
      r == (if resumeOk then Running(c', Some(Resume(ev.key, false))) else Stopped(c, Resume(ev.key, false)))
    ensures ev.Resolved? && ev.resolvedKey !in c.htlcs ==> r == Running(c, None)
    ensures ev.Resolved? && ev.resolvedKey in c.htlcs ==>
      r == Running(Ctrl(c.cfg, c.htlcs - {ev.resolvedKey},
                        IncrCounter(c.counters, if ev.settled then EventSuccess else EventFail)), None)
    ensures ev.LimitUpdated? ==> r == Running(c.(cfg := ev.limit), None)
  {
    match ev
    case Intercepted(key, peerInitiated) =>
      if key in c.htlcs then Running(c, None)
      else if Queued(peerInitiated) then assert false; Running(c, None)
      else if !NewHtlcAllowed(c) || !allow then
        if resumeOk then Running(c.(counters := IncrCounter(c.counters, EventReject)), Some(Resume(key, false)))
        else Stopped(c, Resume(key, false))
      else
        Forward(c, key, resumeOk)
    case Resolved(key, settled) =>
      if key !in c.htlcs then Running(c, None)
      else Running(Ctrl(c.cfg, c.htlcs - {key}, IncrCounter(c.counters, if settled then EventSuccess else EventFail)), None)
    case LimitUpdated(limit) => Running(c.(cfg := limit), None)
  }

  /** `forward`: the key becomes pending before the node is told to resume. */
  function Forward(c: Ctrl, key: CircuitKey, resumeOk: bool): (r: StepResult)
    ensures r.Running? ==> r.ctrl.htlcs == c.htlcs + {key} && r.sent == Some(Resume(key, true))
    ensures r.Stopped? <==> !resumeOk
    ensures r.Stopped? ==> r.last.htlcs == c.htlcs + {key}
  {
    var c' := c.(htlcs := c.htlcs + {key});
    if resumeOk then Running(c', Some(Resume(key, true))) else Stopped(c', Resume(key, true))
  }

  /** With a pending cap set, the pending set never grows beyond it: the
      invariant holds across intercepts and resolutions. */
  lemma PendingCapHolds(c: Ctrl, ev: CtrlEvent, allow: bool, resumeOk: bool)
    requires c.cfg.maxPending > 0 && |c.htlcs| <= c.cfg.maxPending
    requires !ev.LimitUpdated?
    ensures var r := Step(c, ev, allow, resumeOk);
      r.Running? ==> |r.ctrl.htlcs| <= r.ctrl.cfg.maxPending
  {
    if ev.Intercepted? && ev.key !in c.htlcs && NewHtlcAllowed(c) && allow {
      assert |c.htlcs + {ev.key}| == |c.htlcs| + 1;
    }
    if ev.Resolved? && ev.resolvedKey in c.htlcs {
      assert |c.htlcs - {ev.resolvedKey}| == |c.htlcs| - 1;
    }
  }

  /** Which side opened the channel makes no difference while the mode is
      fixed to failing. */
  lemma PeerInitiatedIgnored(c: Ctrl, key: CircuitKey, allow: bool, resumeOk: bool)
    ensures Step(c, Intercepted(key, true), allow, resumeOk) == Step(c, Intercepted(key, false), allow, resumeOk)
  {
  }

  /** The configured mode makes no difference either. */
  lemma ConfiguredModeIgnored(c: Ctrl, m: DaemonConfig.Mode, ev: CtrlEvent, allow: bool, resumeOk: bool)
    requires !ev.LimitUpdated?
    ensures var c2 := c.(cfg := c.cfg.(mode := m));
      var r1, r2 := Step(c, ev, allow, resumeOk), Step(c2, ev, allow, resumeOk);
      r1.Running? == r2.Running? &&
      (r1.Running? ==> r1.sent == r2.sent && r1.ctrl.htlcs == r2.ctrl.htlcs && r1.ctrl.counters == r2.ctrl.counters)
  {
  }

  /** A forwarded HTLC that later settles leaves the pending set as it was
      and counts one success in every interval; a failed one counts one
      failure. */
  lemma ForwardThenResolve(c: Ctrl, key: CircuitKey, settled: bool, allow: bool)
    requires key !in c.htlcs && NewHtlcAllowed(c) && allow
    ensures var r1 := Step(c, Intercepted(key, false), allow, true);
      r1.Running? && r1.sent == Some(Resume(key, true)) &&
      var r2 := Step(r1.ctrl, Resolved(key, settled), allow, true);
      r2.Running? && r2.ctrl.htlcs == c.htlcs &&
      r2.ctrl.counters == IncrCounter(c.counters, if settled then EventSuccess else EventFail)
  {
    assert c.htlcs + {key} - {key} == c.htlcs;
  }

  /** Every decision is for the HTLC in hand, and only a failure that
      reached the node is counted as a rejection. */
  lemma RejectCountedOnlyWhenSent(c: Ctrl, key: CircuitKey, allow: bool, resumeOk: bool)
    requires key !in c.htlcs && |c.counters| > 0
    ensures var r := Step(c, Intercepted(key, false), allow, resumeOk);
      (r.Running? ==> r.sent.Some? && r.sent.value.key == key) &&
      (r.Running? && r.ctrl.counters[0].reject > c.counters[0].reject <==> r.Running? && r.sent == Some(Resume(key, false)))
  {
  }

  /** `getRate`: a zero hourly cap means no rate limit; otherwise the
      bucket refills at the cap per hour. */
  datatype Rate = Inf | PerHour(tokens: int)

  function GetRate(maxHourlyRate: int): (r: Rate)
    ensures r == Inf <==> maxHourlyRate == 0
    ensures r.PerHour? ==> r.tokens == maxHourlyRate
  {
    if maxHourlyRate == 0 then Inf else PerHour(maxHourlyRate)
  }
}
