/** The records the web console receives from the daemon's JSON API. */
module WebTypes {
  import opened Wrappers

  /** The policy for payments beyond a limit. `Block` exists only in the web
      console's vocabulary. */
  datatype Mode = Fail | Block | Queue | QueuePeerInitiated

  /** The enum's string value, as it travels in JSON and keys translations. */
  function ModeValue(m: Mode): string {
    match m
    case Fail => "MODE_FAIL"
    case Block => "MODE_BLOCK"
    case Queue => "MODE_QUEUE"
    case QueuePeerInitiated => "MODE_QUEUE_PEER_INITIATED"
  }

  /** Numeric fields travel as decimal strings; "0" means unlimited and ""
      means not entered. */
  datatype Limit = Limit(maxHourlyRate: string, maxPending: string, mode: Mode)

  datatype Counter = Counter(fail: nat, success: nat, reject: nat)

  /** One peer as listed by the daemon; `limit` is absent when the peer
      inherits the default limit. */
  datatype NodeLimit = NodeLimit(
    node: string,
    alias: string,
    limit: Option<Limit>,
    counter1h: Counter,
    counter24h: Counter,
    queueLen: nat,
    pendingHtlcCount: nat)

  /** The snapshot fetched from `/limits`. */
  datatype Limits = Limits(limits: seq<NodeLimit>, defaultLimit: Limit)

  /** The closed set of table column identifiers. */
  datatype ColumnId =
    | Alias
    | Counter1hSuccess
    | Counter1hFail
    | Counter1hReject
    | Counter24hSuccess
    | Counter24hFail
    | Counter24hReject
    | Node
    | PendingHtlcCount
    | QueueLen
    | LimitMaxPending
    | LimitMaxHourlyRate
    | LimitMode

  datatype Order = Asc | Desc

  /** The sentinel stored in a numeric field that has no cap. */
  const UnlimitedValue := "0"

  /** The glyph shown for an unlimited field. */
  const InfinityGlyph := "∞"

  /** A translation lookup: key to display text. */
  type Translate = string -> string
}
