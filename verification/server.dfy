/** The daemon's RPC handlers: listing every peer's limit next to its live
    counters, updating one peer's limit, and the alias cache they share. */
module Server {
  import opened Wrappers
  import opened Hex
  import DaemonConfig
  import opened LimitDb
  import opened PeerController
  import Process

  /** The node's answer to an alias lookup. */
  datatype AliasLookup = Found(alias: string) | NodeNotFound | LookupFailed(error: string)

  /** `getAlias`: a cached alias is returned as is; an unknown node is
      cached with the empty alias; any other failure is returned and not
      cached. */
  function GetAlias(cache: map<Vertex, string>, key: Vertex, lookup: AliasLookup): (r: (Result<string, string>, map<Vertex, string>))
    ensures key in cache ==> r == (Ok(cache[key]), cache)
    ensures key !in cache && lookup.LookupFailed? ==> r == (Err(lookup.error), cache)
    ensures key !in cache && !lookup.LookupFailed? ==> r.0.Ok? && r.1 == cache[key := r.0.value]
    ensures key !in cache && lookup.NodeNotFound? ==> r.0 == Ok("")
    ensures key !in cache && lookup.Found? ==> r.0 == Ok(lookup.alias)
  {
    if key in cache then (Ok(cache[key]), cache)
    else match lookup
      case Found(a) => (Ok(a), cache[key := a])
      case NodeNotFound => (Ok(""), cache[key := ""])
      case LookupFailed(e) => (Err(e), cache)
  }

  /** The alias a listing reports for `p`: the cached one, else the node's. */
  function ExpectedAlias(cache: map<Vertex, string>, p: Vertex, lookup: AliasLookup): string {
    if p in cache then cache[p] else if lookup.Found? then lookup.alias else ""
  }

  /** A second lookup is answered from the cache whatever the node says. */
  lemma GetAliasCaches(cache: map<Vertex, string>, key: Vertex, first: AliasLookup, second: AliasLookup)
    requires GetAlias(cache, key, first).0.Ok?
    ensures var (a, c) := GetAlias(cache, key, first);
      GetAlias(c, key, second) == (a, c) && a.value == ExpectedAlias(cache, key, first)
  {
  }

  /** The limit in a listing: the mode field is left at its zero value. */
  datatype RpcLimit = RpcLimit(maxHourlyRate: int, maxPending: int, mode: int)

  datatype RpcNodeLimit = RpcNodeLimit(node: string, alias: string, counter1h: Counts, counter24h: Counts, limit: RpcLimit)

  /** Counter readings per interval, hour first, as the controllers report them. */
  predicate WellFormedCounters(counters: map<Vertex, seq<Counts>>) {
    forall p | p in counters :: |counters[p]| == CounterIntervals
  }

  /** What `ListLimits` reports for peer `p`. */
  predicate RowFor(row: RpcNodeLimit, p: Vertex, perPeer: map<Vertex, Limit>, counters: map<Vertex, seq<Counts>>,
                   cache: map<Vertex, string>, lookup: Vertex -> AliasLookup)
    requires WellFormedCounters(counters)
  {
    && row.node == HexEncode(p)
    && row.alias == ExpectedAlias(cache, p, lookup(p))
    && (p in counters ==> row.counter1h == counters[p][0] && row.counter24h == counters[p][1])
    && (p !in counters ==> row.counter1h == ZeroCounts && row.counter24h == ZeroCounts)
    && (p in perPeer ==> row.limit == RpcLimit(perPeer[p].maxHourlyRate, perPeer[p].maxPending, 0))
    && (p !in perPeer ==> row.limit == RpcLimit(0, 0, 0))
  }

  /** The row reports some peer that has a stored limit or counters. */
  ghost predicate Listed(row: RpcNodeLimit, perPeer: map<Vertex, Limit>, counters: map<Vertex, seq<Counts>>,
                         cache: map<Vertex, string>, lookup: Vertex -> AliasLookup)
    requires WellFormedCounters(counters)
  {
    exists p | p in perPeer.Keys + counters.Keys :: RowFor(row, p, perPeer, counters, cache, lookup)
  }

  lemma HexEncodeInjective(a: seq<byte>, b: seq<byte>)
    ensures HexEncode(a) == HexEncode(b) ==> a == b
  {
    HexRoundTrip(a);
    HexRoundTrip(b);
  }

  /** Builds one listing row; the counters of a peer without any are zero. */
  function MakeRow(p: Vertex, alias: string, perPeer: map<Vertex, Limit>, counters: map<Vertex, seq<Counts>>): (row: RpcNodeLimit)
    requires WellFormedCounters(counters)
    ensures row.node == HexEncode(p) && row.alias == alias
  {
    var counts := if p in counters then counters[p] else [ZeroCounts, ZeroCounts];
    var limit := if p in perPeer then RpcLimit(perPeer[p].maxHourlyRate, perPeer[p].maxPending, 0) else RpcLimit(0, 0, 0);
    RpcNodeLimit(HexEncode(p), alias, counts[0], counts[1], limit)
  }

  ghost predicate Distinct(peers: seq<Vertex>) {
    forall i, j | 0 <= i < j < |peers| :: peers[i] != peers[j]
  }

  /** Row `i` reports peer `i`. */
  predicate RowsFor(rows: seq<RpcNodeLimit>, peers: seq<Vertex>, perPeer: map<Vertex, Limit>, counters: map<Vertex, seq<Counts>>,
                    cache: map<Vertex, string>, lookup: Vertex -> AliasLookup)
    requires WellFormedCounters(counters)
  {
    |rows| == |peers| && forall i | 0 <= i < |rows| :: RowFor(rows[i], peers[i], perPeer, counters, cache, lookup)
  }

  /** The working cache keeps every original entry and adds only peers
      already listed. */
  ghost predicate CacheExtends(cache: map<Vertex, string>, cache': map<Vertex, string>, peers: seq<Vertex>) {
    && (forall q | q in cache :: q in cache' && cache'[q] == cache[q])
    && (forall q | q in cache' && q !in cache :: q in peers)
  }

  /** One loop iteration: a successful alias lookup for a peer not yet
      listed appends its row and keeps every listing invariant. */
  lemma AppendOne(rows: seq<RpcNodeLimit>, peers: seq<Vertex>, p: Vertex, perPeer: map<Vertex, Limit>,
                  counters: map<Vertex, seq<Counts>>, cache: map<Vertex, string>, work: map<Vertex, string>,
                  lookup: Vertex -> AliasLookup)
    requires WellFormedCounters(counters)
    requires RowsFor(rows, peers, perPeer, counters, cache, lookup) && Distinct(peers) && p !in peers
    requires CacheExtends(cache, work, peers)
    requires GetAlias(work, p, lookup(p)).0.Ok?
    ensures var (a, c2) := GetAlias(work, p, lookup(p));
      && RowsFor(rows + [MakeRow(p, a.value, perPeer, counters)], peers + [p], perPeer, counters, cache, lookup)
      && Distinct(peers + [p])
      && CacheExtends(cache, c2, peers + [p])
      && (p in cache || !lookup(p).LookupFailed?)
  {
    var (a, c2) := GetAlias(work, p, lookup(p));
    assert p in work <==> p in cache;
    assert a.value == ExpectedAlias(cache, p, lookup(p));
    var rows', peers' := rows + [MakeRow(p, a.value, perPeer, counters)], peers + [p];
    forall i | 0 <= i < |rows'|
      ensures RowFor(rows'[i], peers'[i], perPeer, counters, cache, lookup)
    {
      if i < |rows| {
        assert rows'[i] == rows[i] && peers'[i] == peers[i];
      }
    }
  }

  /** One of `ListLimits`' two loops: appends a row for every peer of
      `todo`, in an unspecified order, stopping at the first failed alias
      lookup. */
  method AppendRows(todo: set<Vertex>, perPeer: map<Vertex, Limit>, counters: map<Vertex, seq<Counts>>,
                    cache: map<Vertex, string>, lookup: Vertex -> AliasLookup,
                    rows0: seq<RpcNodeLimit>, cache0: map<Vertex, string>, ghost peers0: seq<Vertex>)
    returns (r: Result<seq<RpcNodeLimit>, string>, cache': map<Vertex, string>, ghost peers: seq<Vertex>)
    requires WellFormedCounters(counters)
    requires RowsFor(rows0, peers0, perPeer, counters, cache, lookup) && Distinct(peers0)
    requires forall q | q in todo :: q !in peers0
    requires CacheExtends(cache, cache0, peers0)
    ensures r.Err? ==> exists p | p in todo :: p !in cache && lookup(p).LookupFailed?
    ensures (forall p | p in todo :: p in cache || !lookup(p).LookupFailed?) ==> r.Ok?
    ensures r.Ok? ==> RowsFor(r.value, peers, perPeer, counters, cache, lookup) && Distinct(peers)
    ensures r.Ok? ==> forall q :: q in peers <==> q in peers0 || q in todo
    ensures r.Ok? ==> |rows0| <= |r.value| && r.value[..|rows0|] == rows0
    ensures r.Ok? ==> CacheExtends(cache, cache', peers)
  {
    cache' := cache0;
    var rows := rows0;
    peers := peers0;
    var left := todo;
    while left != {}
      invariant left <= todo
      invariant RowsFor(rows, peers, perPeer, counters, cache, lookup) && Distinct(peers)
      invariant forall q :: q in peers <==> q in peers0 || q in todo - left
      invariant forall q | q in left :: q !in peers
      invariant CacheExtends(cache, cache', peers)
      invariant forall q | q in todo - left :: q in cache || !lookup(q).LookupFailed?
      invariant |rows0| <= |rows| && rows[..|rows0|] == rows0
      decreases left
    {
      var p :| p in left;
      var (a, c2) := GetAlias(cache', p, lookup(p));
      if a.Err? {
        return Err(a.error), c2, peers;
      }
      AppendOne(rows, peers, p, perPeer, counters, cache, cache', lookup);
      cache' := c2;
      rows := rows + [MakeRow(p, a.value, perPeer, counters)];
      peers := peers + [p];
      left := left - {p};
    }
    r := Ok(rows);
  }

  /** `ListLimits`: first every peer with a stored limit, then every other
      peer with counters, each exactly once; an alias lookup that fails
      aborts the listing. Map iteration order is left open. */
  method ListLimits(perPeer: map<Vertex, Limit>, counters: map<Vertex, seq<Counts>>,
                    cache: map<Vertex, string>, lookup: Vertex -> AliasLookup)
    returns (r: Result<seq<RpcNodeLimit>, string>, cache': map<Vertex, string>)
    requires WellFormedCounters(counters)
    ensures r.Err? ==> exists p | p in perPeer.Keys + counters.Keys :: p !in cache && lookup(p).LookupFailed?
    ensures (forall p | p in perPeer.Keys + counters.Keys :: p in cache || !lookup(p).LookupFailed?) ==> r.Ok?
    ensures r.Ok? ==> forall i | 0 <= i < |r.value| :: Listed(r.value[i], perPeer, counters, cache, lookup)
    ensures r.Ok? ==> forall p | p in perPeer.Keys + counters.Keys ::
      exists i | 0 <= i < |r.value| :: r.value[i].node == HexEncode(p)
    ensures r.Ok? ==> forall i, j | 0 <= i < j < |r.value| :: r.value[i].node != r.value[j].node
  {
    ghost var peers1, peers;
    var r1;
    r1, cache', peers1 := AppendRows(perPeer.Keys, perPeer, counters, cache, lookup, [], cache, []);
    if r1.Err? {
      return r1, cache';
    }
    r, cache', peers := AppendRows(counters.Keys - perPeer.Keys, perPeer, counters, cache, lookup, r1.value, cache', peers1);
    if r.Err? {
      return;
    }
    ListingComplete(r.value, peers, perPeer, counters, cache, lookup);
  }

  /** Rows for distinct peers that are exactly the peers with a stored limit
      or counters list each of those peers once. */
  lemma ListingComplete(rows: seq<RpcNodeLimit>, peers: seq<Vertex>, perPeer: map<Vertex, Limit>,
                        counters: map<Vertex, seq<Counts>>, cache: map<Vertex, string>, lookup: Vertex -> AliasLookup)
    requires WellFormedCounters(counters)
    requires RowsFor(rows, peers, perPeer, counters, cache, lookup) && Distinct(peers)
    requires forall q :: q in peers <==> q in perPeer.Keys + counters.Keys
    ensures forall i | 0 <= i < |rows| :: Listed(rows[i], perPeer, counters, cache, lookup)
    ensures forall p | p in perPeer.Keys + counters.Keys :: exists i | 0 <= i < |rows| :: rows[i].node == HexEncode(p)
    ensures forall i, j | 0 <= i < j < |rows| :: rows[i].node != rows[j].node
  {
    forall i, j | 0 <= i < j < |rows|
      ensures rows[i].node != rows[j].node
    {
      HexEncodeInjective(peers[i], peers[j]);
    }
    forall p | p in perPeer.Keys + counters.Keys
      ensures exists i | 0 <= i < |rows| :: rows[i].node == HexEncode(p)
    {
      var i :| 0 <= i < |peers| && peers[i] == p;
      assert rows[i].node == HexEncode(p);
    }
    forall i | 0 <= i < |rows|
      ensures Listed(rows[i], perPeer, counters, cache, lookup)
    {
      assert peers[i] in peers;
      assert RowFor(rows[i], peers[i], perPeer, counters, cache, lookup);
    }
  }

  /** Why an `UpdateLimit` call failed. */
  datatype UpdateError = BadNode(reason: VertexError) | StoreFailed(storeError: string) | ProcessFailed(processError: string)

  /** The state an update leaves behind: the stored table, the update
      handed to the event loop (if any) and the answer to the caller. */
  datatype UpdateOutcome = UpdateOutcome(table: Table, sent: Option<Process.LimitUpdate>, result: Result<(), UpdateError>)

  /** `UpdateLimit`: parse the node, write the store, then tell the event
      loop; the first failure is returned and later steps do not happen.
      The request carries no mode, so the zero mode is stored. */
  function UpdateLimitRpc(table: Table, node: string, maxHourlyRate: int, maxPending: int,
                          storeError: Option<string>, processError: Option<string>): (r: UpdateOutcome)
    ensures VertexFromStr(node).Err? ==> r == UpdateOutcome(table, None, Err(BadNode(VertexFromStr(node).error)))
    ensures VertexFromStr(node).Ok? && storeError.Some? ==> r == UpdateOutcome(table, None, Err(StoreFailed(storeError.value)))
    ensures VertexFromStr(node).Ok? && storeError.None? ==>
      var peer := VertexFromStr(node).value;
      var limit := Limit(maxHourlyRate, maxPending, DaemonConfig.ModeFail);
      r.table == UpdateLimit(table, peer, limit) &&
      (processError.Some? ==> r.sent.None? && r.result == Err(ProcessFailed(processError.value))) &&
      (processError.None? ==> r.sent == Some(Process.LimitUpdate(Some(peer), limit)) && r.result == Ok(()))
  {
    match VertexFromStr(node)
    case Err(e) => UpdateOutcome(table, None, Err(BadNode(e)))
    case Ok(peer) =>
      if storeError.Some? then UpdateOutcome(table, None, Err(StoreFailed(storeError.value)))
      else
        var limit := Limit(maxHourlyRate, maxPending, DaemonConfig.ModeFail);
        var table' := UpdateLimit(table, peer, limit);
        if processError.Some? then UpdateOutcome(table', None, Err(ProcessFailed(processError.value)))
        else UpdateOutcome(table', Some(Process.LimitUpdate(Some(peer), limit)), Ok(()))
  }

  /** A successful update is what a later listing reads back from the store:
      the peer's rates, and the zero mode. */
  lemma UpdateRpcThenRead(table: Table, v: Vertex, maxHourlyRate: int, maxPending: int, rows: seq<(string, Row)>)
    requires AllCanonical(table)
    requires maxHourlyRate != 0 || maxPending != 0
    requires Enumerates(rows, UpdateLimitRpc(table, HexEncode(v), maxHourlyRate, maxPending, None, None).table)
    ensures GetLimits(rows).Ok?
    ensures v in GetLimits(rows).value && GetLimits(rows).value[v] == Limit(maxHourlyRate, maxPending, DaemonConfig.ModeFail)
  {
    VertexRoundTrip(v);
    UpdateThenRead(table, v, Limit(maxHourlyRate, maxPending, DaemonConfig.ModeFail), rows);
  }
}
