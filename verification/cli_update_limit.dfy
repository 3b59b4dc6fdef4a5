/** The client's `updatelimit` command: from flags to the request it sends. */
module CliUpdateLimit {
  import opened Wrappers
  import opened CliMain
  import Server

  /** The wire modes; the numbering follows the daemon's own modes. */
  const RpcModeFail: int := 0
  const RpcModeQueue: int := 1
  const RpcModeQueuePeerInitiated: int := 2

  datatype UpdateLimitRequest = UpdateLimitRequest(node: string, limit: Server.RpcLimit)

  /** The `--mode` value's wire mode; any other text is an unknown mode. */
  function CliModeToRpc(s: string): (r: Result<int, string>)
    ensures r.Ok? <==> s in ModeFlag.values
    ensures r.Err? ==> r.error == "unknown mode"
    ensures s == ModeFailText ==> r == Ok(RpcModeFail)
    ensures s == ModeQueueText ==> r == Ok(RpcModeQueue)
    ensures s == ModeQueuePeerInitiatedText ==> r == Ok(RpcModeQueuePeerInitiated)
  {
    if s == ModeFailText then Ok(RpcModeFail)
    else if s == ModeQueueText then Ok(RpcModeQueue)
    else if s == ModeQueuePeerInitiatedText then Ok(RpcModeQueuePeerInitiated)
    else Err("unknown mode")
  }

  /** `updateLimit`: a failure to reach the daemon comes first; then the
      mode is mapped; the request carries the flags verbatim. */
  function UpdateLimitCommand(clientError: Option<string>, mode: EnumValue, node: string,
                              maxHourlyRate: int, maxPending: int): (r: Result<UpdateLimitRequest, string>)
    ensures clientError.Some? ==> r == Err(clientError.value)
    ensures clientError.None? && CliModeToRpc(Show(mode)).Err? ==> r == Err("unknown mode")
    ensures r.Ok? ==> r.value.node == node && r.value.limit.maxHourlyRate == maxHourlyRate &&
                      r.value.limit.maxPending == maxPending && r.value.limit.mode == CliModeToRpc(Show(mode)).value
  {
    if clientError.Some? then Err(clientError.value)
    else
      var m :- CliModeToRpc(Show(mode));
      Ok(UpdateLimitRequest(node, Server.RpcLimit(maxHourlyRate, maxPending, m)))
  }

  /** Through the enumerated flag the unknown-mode branch is unreachable:
      once the daemon is reachable, a request is always built. */
  lemma ModeFlagAlwaysMaps(values: seq<string>, node: string, maxHourlyRate: int, maxPending: int)
    ensures UpdateLimitCommand(None, SetAll(ModeFlag, values), node, maxHourlyRate, maxPending).Ok?
  {
    ModeFlagShowsAMode(values);
  }
}
