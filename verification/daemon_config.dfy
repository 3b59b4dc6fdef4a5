/** The daemon's limit modes and its static per-peer configuration. */
module DaemonConfig {
  import opened Wrappers
  import opened Hex

  /** Go's `type Mode int`: any integer is representable, three are named. */
  type Mode = int

  const ModeFail: Mode := 0
  const ModeQueue: Mode := 1
  const ModeQueuePeerInitiated: Mode := 2

  predicate IsKnownMode(m: Mode) {
    m == ModeFail || m == ModeQueue || m == ModeQueuePeerInitiated
  }

  /** `Mode.String`; an unnamed mode panics, which is the `Err` here. */
  function ModeString(m: Mode): (r: Result<string, string>)
    ensures r.Ok? <==> IsKnownMode(m)
    ensures m == ModeFail ==> r == Ok("fail")
    ensures m == ModeQueue ==> r == Ok("queue")
    ensures m == ModeQueuePeerInitiated ==> r == Ok("queue_peer_initiated")
    ensures r.Err? ==> r.error == "unknown mode"
  {
    if m == ModeFail then Ok("fail")
    else if m == ModeQueue then Ok("queue")
    else if m == ModeQueuePeerInitiated then Ok("queue_peer_initiated")
    else Err("unknown mode")
  }

  /** Distinct modes have distinct names. */
  lemma ModeStringInjective(a: Mode, b: Mode)
    requires ModeString(a).Ok? && ModeString(b).Ok?
    requires ModeString(a) == ModeString(b)
    ensures a == b
  {
  }

  /** One group's settings; the interval is a duration in nanoseconds. */
  datatype GroupConfig = GroupConfig(maxPendingHtlcs: int, htlcMinInterval: int, htlcBurstSize: int, mode: Mode)

  /** The global settings and the per-peer overrides. */
  datatype Config = Config(global: GroupConfig, perPeer: map<Vertex, GroupConfig>)

  /** A peer's own entry when it has one, else the fallback: the routing
      rule of `forPeer` and of the limit a new peer controller starts with. */
  function Routed<V>(own: map<Vertex, V>, fallback: V, peer: Vertex): (r: V)
    ensures peer in own ==> r == own[peer]
    ensures peer !in own ==> r == fallback
  {
    if peer in own then own[peer] else fallback
  }

  /** `forPeer`: the peer's own settings, or the global ones. */
  function ForPeer(c: Config, peer: Vertex): GroupConfig {
    Routed(c.perPeer, c.global, peer)
  }

  /** Giving one peer its own settings changes what that peer gets and
      nothing any other peer gets; the global settings reach exactly the
      peers without an override. */
  lemma OverrideIsLocal(c: Config, peer: Vertex, g: GroupConfig, other: Vertex)
    ensures ForPeer(c.(perPeer := c.perPeer[peer := g]), peer) == g
    ensures other != peer ==> ForPeer(c.(perPeer := c.perPeer[peer := g]), other) == ForPeer(c, other)
    ensures ForPeer(c, other) == c.global || other in c.perPeer
  {
  }
}
