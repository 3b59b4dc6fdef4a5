/** The legacy single-page console: the rows it builds from `/api/limits`,
    the queue-mode warning, the requests a row edit sends, the cell
    templates, and the poll that pauses while a row is being edited. */
module LegacyApp {
  import opened Wrappers
  import Strings
  import NodeAlias
  import WebTypes

  /** A limit as this console reads it: numbers, and the mode's wire name. */
  datatype LegacyLimit = LegacyLimit(maxHourlyRate: int, maxPending: int, mode: string)

  /** One entry of `json.limits`; `limit` is None for JSON `null`. */
  datatype ApiNodeLimit = ApiNodeLimit(
    node: string,
    alias: string,
    limit: Option<LegacyLimit>,
    counter1h: WebTypes.Counter,
    counter24h: WebTypes.Counter,
    queueLen: nat,
    pendingHtlcCount: nat)

  datatype ApiLimits = ApiLimits(limits: seq<ApiNodeLimit>, defaultLimit: LegacyLimit)

  /** The flattened table row. */
  datatype TableRow = TableRow(
    alias: string,
    node: string,
    pendingHtlcCount: nat,
    counter1hSuccess: nat,
    counter1hFail: nat,
    counter1hReject: nat,
    counter24hSuccess: nat,
    counter24hFail: nat,
    counter24hReject: nat,
    queueLen: nat,
    mode: string,
    maxPending: int,
    maxHourlyRate: int)

  /** The pseudo-mode of a peer that follows the default limit. */
  const ModeDefault := "MODE_DEFAULT"
  const ModeFail := "MODE_FAIL"
  const ModeQueue := "MODE_QUEUE"
  const ModeQueuePeerInitiated := "MODE_QUEUE_PEER_INITIATED"

  predicate IsQueueMode(mode: string) {
    mode == ModeQueue || mode == ModeQueuePeerInitiated
  }

  /** The row for one peer: a peer without a limit shows the default
      pseudo-mode and zeros; an empty alias is replaced by the shortened
      node id. */
  function ToRow(l: ApiNodeLimit): (r: TableRow)
    ensures l.limit.None? ==> r.mode == ModeDefault && r.maxPending == 0 && r.maxHourlyRate == 0
    ensures l.limit.Some? ==>
      (r.mode == l.limit.value.mode && r.maxPending == l.limit.value.maxPending && r.maxHourlyRate == l.limit.value.maxHourlyRate)
    ensures l.alias != "" ==> r.alias == l.alias
    ensures l.alias == "" ==> r.alias == NodeAlias.ShortNodeId(l.node)
    ensures r.node == l.node && r.queueLen == l.queueLen && r.pendingHtlcCount == l.pendingHtlcCount
    ensures r.counter1hSuccess == l.counter1h.success && r.counter1hFail == l.counter1h.fail &&
      r.counter1hReject == l.counter1h.reject
    ensures r.counter24hSuccess == l.counter24h.success && r.counter24hFail == l.counter24h.fail &&
      r.counter24hReject == l.counter24h.reject
  {
    var base := TableRow(
      l.alias, l.node, l.pendingHtlcCount,
      l.counter1h.success, l.counter1h.fail, l.counter1h.reject,
      l.counter24h.success, l.counter24h.fail, l.counter24h.reject,
      l.queueLen, ModeDefault, 0, 0);
    var withLimit :=
      if l.limit.Some? then
        base.(mode := l.limit.value.mode, maxPending := l.limit.value.maxPending, maxHourlyRate := l.limit.value.maxHourlyRate)
      else base;
    if l.alias == "" then withLimit.(alias := NodeAlias.ShortNodeId(l.node)) else withLimit
  }

  /** Whether a peer's own limit raises the warning. */
  predicate PeerWarns(l: ApiNodeLimit) {
    l.limit.Some? && IsQueueMode(l.limit.value.mode)
  }

  function AnyPeerWarns(limits: seq<ApiNodeLimit>): (w: bool)
    ensures w <==> exists i | 0 <= i < |limits| :: PeerWarns(limits[i])
  {
    if |limits| == 0 then false
    else
      assert forall i | 1 <= i < |limits| :: limits[i] == limits[1..][i - 1];
      PeerWarns(limits[0]) || AnyPeerWarns(limits[1..])
  }

  /** What one successful fetch produces. */
  datatype Fetched = Fetched(rows: seq<TableRow>, defaultRows: seq<LegacyLimit>, warning: bool)

  /** `fetchData` after the response is parsed. */
  function FetchData(json: ApiLimits): (r: Fetched)
    ensures |r.rows| == |json.limits| && forall i | 0 <= i < |r.rows| :: r.rows[i] == ToRow(json.limits[i])
    ensures r.defaultRows == [json.defaultLimit]
    ensures r.warning <==>
      (IsQueueMode(json.defaultLimit.mode) || exists i | 0 <= i < |json.limits| :: PeerWarns(json.limits[i]))
  {
    var rows := seq(|json.limits|, i requires 0 <= i < |json.limits| => ToRow(json.limits[i]));
    Fetched(rows, [json.defaultLimit], AnyPeerWarns(json.limits) || IsQueueMode(json.defaultLimit.mode))
  }

  /** The mutations the console posts. */
  datatype LegacyRequest =
    | ClearLimitPost(path: string)
    | UpdateLimitPost(path: string, limit: LegacyLimit)
    | UpdateDefaultLimitPost(limit: LegacyLimit)

  /** `onRowEditComplete`: the default pseudo-mode clears the peer's limit;
      any other mode posts the row's three limit fields. */
  function RowEditRequest(newData: TableRow): (r: LegacyRequest)
    ensures newData.mode == ModeDefault ==> r == ClearLimitPost("/api/clearlimit/" + newData.node)
    ensures newData.mode != ModeDefault ==>
      r == UpdateLimitPost("/api/updatelimit/" + newData.node, LegacyLimit(newData.maxHourlyRate, newData.maxPending, newData.mode))
  {
    if newData.mode == ModeDefault then ClearLimitPost("/api/clearlimit/" + newData.node)
    else UpdateLimitPost("/api/updatelimit/" + newData.node, LegacyLimit(newData.maxHourlyRate, newData.maxPending, newData.mode))
  }

  /** `onDefaultLimitEditComplete`. */
  function DefaultEditRequest(newData: LegacyLimit): (r: LegacyRequest)
    ensures r.UpdateDefaultLimitPost? && r.limit == newData
  {
    UpdateDefaultLimitPost(LegacyLimit(newData.maxHourlyRate, newData.maxPending, newData.mode))
  }

  /** Saving a row unedited re-posts what the peer already has: its own
      limit, or a clear when it follows the default. */
  lemma UneditedSaveRepostsLimit(l: ApiNodeLimit)
    requires l.limit.Some? ==> l.limit.value.mode != ModeDefault
    ensures l.limit.None? ==> RowEditRequest(ToRow(l)) == ClearLimitPost("/api/clearlimit/" + l.node)
    ensures l.limit.Some? ==> RowEditRequest(ToRow(l)) == UpdateLimitPost("/api/updatelimit/" + l.node, l.limit.value)
  {
  }

  /** The label the console shows for a mode; "NA" for any other text. */
  function ModeLabel(mode: string): (r: string)
    ensures mode == ModeFail ==> r == "Fail"
    ensures mode == ModeQueue ==> r == "Queue"
    ensures mode == ModeQueuePeerInitiated ==> r == "Queue peer initiated"
    ensures mode == ModeDefault ==> r == "Use default"
    ensures r == "NA" <==> mode !in {ModeFail, ModeQueue, ModeQueuePeerInitiated, ModeDefault}
  {
    if mode == ModeFail then "Fail"
    else if mode == ModeQueue then "Queue"
    else if mode == ModeQueuePeerInitiated then "Queue peer initiated"
    else if mode == ModeDefault then "Use default"
    else "NA"
  }

  /** The mode editor's choices: the node table adds "Use default". */
  datatype ModeOption = ModeOption(text: string, value: string)

  const Modes: seq<ModeOption> := [
    ModeOption("Fail", ModeFail),
    ModeOption("Queue", ModeQueue),
    ModeOption("Queue peer initiated", ModeQueuePeerInitiated)]

  const ModesWithUseDefault: seq<ModeOption> := Modes + [ModeOption("Use default", ModeDefault)]

  /** Whatever a mode editor offers is displayed with the label it was
      offered under. */
  lemma EditorChoicesDisplayAsOffered(o: ModeOption)
    requires o in ModesWithUseDefault
    ensures ModeLabel(o.value) == o.text && ModeLabel(o.value) != "NA"
  {
  }

  /** `numberBodyTemplate` (a number renders as its decimal digits). */
  function NumberBody(mode: string, number: int): (r: string)
    ensures mode == ModeDefault ==> r == "Use default"
    ensures mode != ModeDefault && number == 0 ==> r == "None"
    ensures mode != ModeDefault && number != 0 ==> r == Strings.IntToString(number)
  {
    if mode == ModeDefault then "Use default"
    else if number == 0 then "None"
    else Strings.IntToString(number)
  }

  /** `dashNumberBodyTemplate`. */
  function DashNumberBody(number: int): (r: string)
    ensures number == 0 ==> r == "-"
    ensures number != 0 ==> r == Strings.IntToString(number)
  {
    if number == 0 then "-" else Strings.IntToString(number)
  }

  /** A numeric cell never reads "None" or "-" for a number other than 0:
      the two templates' placeholders stand for zero only. */
  lemma PlaceholdersMeanZero(mode: string, number: int)
    ensures NumberBody(mode, number) == "None" ==> number == 0
    ensures DashNumberBody(number) == "-" ==> number == 0
  {
    if number != 0 {
      var s := Strings.IntToString(number);
      if number > 0 {
        assert Strings.IsDigit(s[0]);
      } else {
        assert |s| >= 2 && s[0] == '-';
      }
    }
  }

  // ---------------------------------------------------------------------
  // The edit flags and the poll

  datatype EditFlags = EditFlags(defaultEditing: bool, nodeEditing: bool)

  datatype LegacyTable = DefaultTable | NodeTable

  datatype EditEvent = RowEditInit(table: LegacyTable) | RowEditCancel(table: LegacyTable) | RowEditSave(table: LegacyTable)

  /** Starting an edit raises the table's flag; cancel and save lower it. */
  function EditStep(f: EditFlags, ev: EditEvent): (r: EditFlags)
    ensures ev.table == DefaultTable ==> r.nodeEditing == f.nodeEditing && (r.defaultEditing <==> ev.RowEditInit?)
    ensures ev.table == NodeTable ==> r.defaultEditing == f.defaultEditing && (r.nodeEditing <==> ev.RowEditInit?)
  {
    var on := ev.RowEditInit?;
    if ev.table == DefaultTable then f.(defaultEditing := on) else f.(nodeEditing := on)
  }

  /** The interval handler fetches only while neither table is being edited. */
  function PollFetches(f: EditFlags): (r: bool)
    ensures r <==> !f.defaultEditing && !f.nodeEditing
  {
    !(f.defaultEditing || f.nodeEditing)
  }

  /** A poll during an edit never overwrites the row being edited, and
      saving or cancelling the only edit in progress resumes polling. */
  lemma EditPausesPolling(f: EditFlags, t: LegacyTable, finish: EditEvent)
    requires finish == RowEditSave(t) || finish == RowEditCancel(t)
    ensures !PollFetches(EditStep(f, RowEditInit(t)))
    ensures var other := if t == DefaultTable then f.nodeEditing else f.defaultEditing;
      PollFetches(EditStep(EditStep(f, RowEditInit(t)), finish)) <==> !other
  {
  }
}
