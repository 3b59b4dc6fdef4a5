/** Editing the limits of the selected peers: which request a submitted
    limit becomes, what the dialog's form is seeded with, and when the
    edit button is enabled. */
module EditSelectedNodes {
  import opened Wrappers
  import opened WebTypes
  import EditLimitsForm

  /** The two mutations the view can send. */
  datatype MutationRequest =
    | ClearLimits(nodes: seq<string>)
    | UpdateLimits(limits: map<string, Limit>)

  /** `selected.reduce((obj, id) => ({...obj, [id]: newLimit}), {})`. */
  function Spread(selected: seq<string>, newLimit: Limit): (m: map<string, Limit>)
    ensures m.Keys == set id | id in selected
    ensures forall id | id in m :: m[id] == newLimit
  {
    if |selected| == 0 then map[]
    else
      var init := selected[..|selected| - 1];
      assert selected == init + [selected[|selected| - 1]];
      Spread(init, newLimit)[selected[|selected| - 1] := newLimit]
  }

  /** `updateSelected`: a limit equal to the default clears the selected
      peers' own limits; any other limit is set on each of them. */
  function UpdateSelected(newLimit: Limit, defaultLimit: Limit, selected: seq<string>): (r: MutationRequest)
    ensures newLimit == defaultLimit ==> r == ClearLimits(selected)
    ensures newLimit != defaultLimit ==> r.UpdateLimits?
    ensures r.UpdateLimits? ==>
      (r.limits.Keys == (set id | id in selected) && forall id | id in r.limits :: r.limits[id] == newLimit)
  {
    if newLimit == defaultLimit then ClearLimits(selected) else UpdateLimits(Spread(selected, newLimit))
  }

  /** The peers' own limits as the daemon holds them: a peer without an
      entry follows the default limit. */
  type PeerLimits = map<string, Limit>

  function EffectiveLimit(own: PeerLimits, defaultLimit: Limit, node: string): Limit {
    if node in own then own[node] else defaultLimit
  }

  /** What the daemon's table holds after a request. */
  function Apply(own: PeerLimits, req: MutationRequest): (r: PeerLimits)
    ensures req.ClearLimits? ==> r.Keys == own.Keys - set n | n in req.nodes
    ensures req.UpdateLimits? ==> r.Keys == own.Keys + req.limits.Keys
  {
    match req
    case ClearLimits(nodes) => map n | n in own && n !in nodes :: own[n]
    case UpdateLimits(limits) => own + limits
  }

  /** Whichever request a submission becomes, every selected peer ends up
      governed by the submitted limit and every other peer is untouched. */
  lemma SubmittedLimitTakesEffect(own: PeerLimits, newLimit: Limit, defaultLimit: Limit, selected: seq<string>, node: string)
    ensures var after := Apply(own, UpdateSelected(newLimit, defaultLimit, selected));
      && (node in selected ==> EffectiveLimit(after, defaultLimit, node) == newLimit)
      && (node !in selected ==> EffectiveLimit(after, defaultLimit, node) == EffectiveLimit(own, defaultLimit, node))
  {
  }

  /** `Array.prototype.find` on the node id. */
  function FindNode(limits: seq<NodeLimit>, node: string): (r: Option<NodeLimit>)
    ensures r.None? <==> forall i | 0 <= i < |limits| :: limits[i].node != node
    ensures r.Some? ==> r.value.node == node
    ensures r.Some? ==>
      (exists i | 0 <= i < |limits| :: (limits[i] == r.value && forall j | 0 <= j < i :: limits[j].node != node))
  {
    if |limits| == 0 then None
    else if limits[0].node == node then Some(limits[0])
    else
      var r := FindNode(limits[1..], node);
      if r.Some? then
        var i :| 0 <= i < |limits[1..]| && limits[1..][i] == r.value &&
          forall j | 0 <= j < i :: limits[1..][j].node != node;
        assert limits[i + 1] == r.value;
        r
      else r
  }

  /** When no id is listed twice, looking up a listed peer finds its record,
      at whatever position it is listed. */
  lemma FindListedNode(limits: seq<NodeLimit>, i: nat)
    requires i < |limits|
    requires forall a, b | 0 <= a < b < |limits| :: limits[a].node != limits[b].node
    ensures FindNode(limits, limits[i].node) == Some(limits[i])
  {
    var r := FindNode(limits, limits[i].node);
    var k :| 0 <= k < |limits| && limits[k] == r.value && forall j | 0 <= j < k :: limits[j].node != limits[i].node;
  }

  /** `getSelectedNode`: the form is seeded with the peer's own limit only
      when exactly one peer is selected. */
  function SeedLimit(selected: seq<string>, limits: seq<NodeLimit>): (r: Option<Limit>)
    ensures |selected| != 1 ==> r.None?
    ensures |selected| == 1 && FindNode(limits, selected[0]).None? ==> r.None?
    ensures |selected| == 1 && FindNode(limits, selected[0]).Some? ==> r == FindNode(limits, selected[0]).value.limit
  {
    if |selected| == 1 then
      match FindNode(limits, selected[0])
      case Some(n) => n.limit
      case None => None
    else None
  }

  /** `isButtonDisabled`. */
  function EditButtonDisabled(selected: seq<string>): (r: bool)
    ensures r <==> |selected| == 0
  {
    |selected| == 0
  }

  /** Opening the dialog on a single peer that has its own limit seeds the
      form with that limit, which cannot be submitted until it changes;
      `row` is the peer's record wherever it is listed. */
  lemma SinglePeerDialogStartsUnchanged(row: NodeLimit, limits: seq<NodeLimit>)
    requires row.limit.Some?
    requires FindNode(limits, row.node) == Some(row)
    ensures !EditButtonDisabled([row.node])
    ensures SeedLimit([row.node], limits) == row.limit
    ensures var seed := SeedLimit([row.node], limits);
      EditLimitsForm.IsButtonDisabled(EditLimitsForm.Init(seed), seed)
  {
    EditLimitsForm.SeededFormStartsDisabled(row.limit.value);
  }
}
