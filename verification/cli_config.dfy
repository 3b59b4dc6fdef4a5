/** Loading the daemon's YAML configuration into `DaemonConfig.Config`:
    the global settings, then every peer of every group. Reading and
    decoding the file are outside the model. */
module CliConfig {
  import opened Wrappers
  import opened Hex
  import opened DaemonConfig

  /** One group's settings as written in the file. */
  datatype YamlGroupConfig = YamlGroupConfig(maxPendingHtlcs: int, htlcMinInterval: int, htlcBurstSize: int, mode: string)

  datatype YamlGroup = YamlGroup(settings: YamlGroupConfig, peers: seq<string>)

  datatype YamlConfig = YamlConfig(settings: YamlGroupConfig, groups: seq<YamlGroup>)

  datatype ConfigError = UnknownMode(mode: string) | BadPeer(reason: VertexError) | PeerInMultipleGroups(peer: Vertex)

  /** The mode names the file accepts; an absent mode means failing. */
  function ParseMode(s: string): (r: Result<Mode, ConfigError>)
    ensures r.Ok? <==> s in {"", "fail", "queue", "queue_peer_initiated"}
    ensures r.Err? ==> r.error == UnknownMode(s)
    ensures r.Ok? ==> IsKnownMode(r.value)
  {
    if s == "" || s == "fail" then Ok(ModeFail)
    else if s == "queue" then Ok(ModeQueue)
    else if s == "queue_peer_initiated" then Ok(ModeQueuePeerInitiated)
    else Err(UnknownMode(s))
  }

  /** Every known mode's name reads back as that mode, and every accepted
      name other than the empty one is the name of what it reads as. */
  lemma ModeNamesRoundTrip(m: Mode, s: string)
    ensures IsKnownMode(m) ==> ParseMode(ModeString(m).value) == Ok(m)
    ensures ParseMode(s).Ok? && s != "" ==> ModeString(ParseMode(s).value) == Ok(s)
  {
  }

  /** `parseGroupConfig`: a zero burst size means one; the mode must be
      known; the other two settings are copied. */
  function ParseGroupConfig(y: YamlGroupConfig): (r: Result<GroupConfig, ConfigError>)
    ensures r.Ok? <==> ParseMode(y.mode).Ok?
    ensures r.Err? ==> r.error == UnknownMode(y.mode)
    ensures r.Ok? ==> r.value.maxPendingHtlcs == y.maxPendingHtlcs && r.value.htlcMinInterval == y.htlcMinInterval
    ensures r.Ok? ==> r.value.htlcBurstSize == (if y.htlcBurstSize == 0 then 1 else y.htlcBurstSize)
    ensures r.Ok? ==> r.value.htlcBurstSize != 0 && r.value.mode == ParseMode(y.mode).value
  {
    var burst := if y.htlcBurstSize == 0 then 1 else y.htlcBurstSize;
    var mode :- ParseMode(y.mode);
    Ok(GroupConfig(y.maxPendingHtlcs, y.htlcMinInterval, burst, mode))
  }

  /** The peers of one group, each paired with the group's settings. */
  function GroupEntries(g: YamlGroup): (r: seq<(string, YamlGroupConfig)>)
    ensures |r| == |g.peers|
    ensures forall j | 0 <= j < |r| :: r[j] == (g.peers[j], g.settings)
  {
    seq(|g.peers|, j requires 0 <= j < |g.peers| => (g.peers[j], g.settings))
  }

  /** Every (peer, settings) pair in file order: group by group. */
  function PeerEntries(groups: seq<YamlGroup>): (r: seq<(string, YamlGroupConfig)>)
  {
    if |groups| == 0 then [] else GroupEntries(groups[0]) + PeerEntries(groups[1..])
  }

  /** A group that lists no peer contributes nothing, wherever it stands. */
  lemma {:induction false} EmptyGroupContributesNothing(pre: seq<YamlGroup>, settings: YamlGroupConfig, post: seq<YamlGroup>)
    ensures PeerEntries(pre + [YamlGroup(settings, [])] + post) == PeerEntries(pre + post)
  {
    if |pre| == 0 {
      assert pre + [YamlGroup(settings, [])] + post == [YamlGroup(settings, [])] + post;
      assert pre + post == post;
      assert ([YamlGroup(settings, [])] + post)[1..] == post;
    } else {
      EmptyGroupContributesNothing(pre[1..], settings, post);
      assert (pre + [YamlGroup(settings, [])] + post)[1..] == pre[1..] + [YamlGroup(settings, [])] + post;
      assert (pre + post)[1..] == pre[1..] + post;
    }
  }

  /** An entry list the loader accepts: every key decodes, every group's
      settings parse, and no peer is listed twice or already present. */
  predicate Acceptable(entries: seq<(string, YamlGroupConfig)>, acc: map<Vertex, GroupConfig>) {
    forall i | 0 <= i < |entries| ::
      && VertexFromStr(entries[i].0).Ok?
      && ParseGroupConfig(entries[i].1).Ok?
      && VertexFromStr(entries[i].0).value !in acc
      && forall j | 0 <= j < i :: VertexFromStr(entries[j].0) != VertexFromStr(entries[i].0)
  }

  /** The per-peer loop of `load`, from the first listed peer on. */
  function AddPeers(entries: seq<(string, YamlGroupConfig)>, acc: map<Vertex, GroupConfig>): (r: Result<map<Vertex, GroupConfig>, ConfigError>)
    ensures r.Ok? <==> Acceptable(entries, acc)
    ensures r.Ok? ==> forall i | 0 <= i < |entries| ::
      VertexFromStr(entries[i].0).value in r.value &&
      r.value[VertexFromStr(entries[i].0).value] == ParseGroupConfig(entries[i].1).value
    ensures r.Ok? ==> forall v | v in acc :: v in r.value && r.value[v] == acc[v]
    ensures r.Ok? ==> forall v | v in r.value ::
      v in acc || exists i | 0 <= i < |entries| :: VertexFromStr(entries[i].0) == Ok(v)
    decreases |entries|
  {
    if |entries| == 0 then Ok(acc)
    else
      var (peer, settings) := entries[0];
      match VertexFromStr(peer)
      case Err(e) => Err(BadPeer(e))
      case Ok(v) =>
        if v in acc then Err(PeerInMultipleGroups(v))
        else
          match ParseGroupConfig(settings)
          case Err(e) => Err(e)
          case Ok(cfg) =>
            var rest := AddPeers(entries[1..], acc[v := cfg]);
            AddPeersStep(entries, acc, v, cfg);
            if rest.Ok? then
              AddPeersOkStep(entries, acc, v, cfg, rest.value);
              rest
            else rest
  }

  /** The peers the rest of the list added, together with the first one,
      are all the listed peers with their settings. */
  lemma AddPeersOkStep(entries: seq<(string, YamlGroupConfig)>, acc: map<Vertex, GroupConfig>, v: Vertex,
                       cfg: GroupConfig, m: map<Vertex, GroupConfig>)
    requires |entries| > 0 && VertexFromStr(entries[0].0) == Ok(v) && v !in acc && ParseGroupConfig(entries[0].1) == Ok(cfg)
    requires forall i | 0 <= i < |entries| - 1 ::
      VertexFromStr(entries[1..][i].0).Ok? && ParseGroupConfig(entries[1..][i].1).Ok? &&
      VertexFromStr(entries[1..][i].0).value in m &&
      m[VertexFromStr(entries[1..][i].0).value] == ParseGroupConfig(entries[1..][i].1).value
    requires forall w | w in acc[v := cfg] :: w in m && m[w] == acc[v := cfg][w]
    requires forall w | w in m ::
      w in acc[v := cfg] || exists i | 0 <= i < |entries| - 1 :: VertexFromStr(entries[1..][i].0) == Ok(w)
    ensures forall i | 0 <= i < |entries| ::
      VertexFromStr(entries[i].0).Ok? && ParseGroupConfig(entries[i].1).Ok? &&
      VertexFromStr(entries[i].0).value in m &&
      m[VertexFromStr(entries[i].0).value] == ParseGroupConfig(entries[i].1).value
    ensures forall w | w in acc :: w in m && m[w] == acc[w]
    ensures forall w | w in m :: w in acc || exists i | 0 <= i < |entries| :: VertexFromStr(entries[i].0) == Ok(w)
  {
    forall i | 1 <= i < |entries|
      ensures entries[i] == entries[1..][i - 1]
    {
    }
  }

  /** How acceptability of a list splits at its first entry. */
  lemma AddPeersStep(entries: seq<(string, YamlGroupConfig)>, acc: map<Vertex, GroupConfig>, v: Vertex, cfg: GroupConfig)
    requires |entries| > 0 && VertexFromStr(entries[0].0) == Ok(v) && v !in acc
    requires ParseGroupConfig(entries[0].1) == Ok(cfg)
    ensures Acceptable(entries, acc) <==> Acceptable(entries[1..], acc[v := cfg])
  {
    var tail := entries[1..];
    if Acceptable(entries, acc) {
      forall i | 0 <= i < |tail|
        ensures VertexFromStr(tail[i].0).Ok? && VertexFromStr(tail[i].0).value !in acc[v := cfg]
      {
        assert tail[i] == entries[i + 1];
        assert VertexFromStr(entries[0].0) != VertexFromStr(entries[i + 1].0);
      }
      forall i, j | 0 <= j < i < |tail|
        ensures VertexFromStr(tail[j].0) != VertexFromStr(tail[i].0)
      {
        assert tail[i] == entries[i + 1] && tail[j] == entries[j + 1];
      }
    }
    if Acceptable(tail, acc[v := cfg]) {
      forall i | 0 <= i < |entries|
        ensures VertexFromStr(entries[i].0).Ok? && ParseGroupConfig(entries[i].1).Ok?
        ensures VertexFromStr(entries[i].0).value !in acc
        ensures forall j | 0 <= j < i :: VertexFromStr(entries[j].0) != VertexFromStr(entries[i].0)
      {
        if i > 0 {
          assert entries[i] == tail[i - 1];
          forall j | 0 <= j < i
            ensures VertexFromStr(entries[j].0) != VertexFromStr(entries[i].0)
          {
            if j > 0 { assert entries[j] == tail[j - 1]; }
          }
        }
      }
    }
  }

  /** `configLoader.load` after decoding: the global settings first, then
      every listed peer. */
  function Load(y: YamlConfig): (r: Result<Config, ConfigError>)
    ensures ParseGroupConfig(y.settings).Err? ==> r == Err(ParseGroupConfig(y.settings).error)
    ensures r.Ok? <==> ParseGroupConfig(y.settings).Ok? && Acceptable(PeerEntries(y.groups), map[])
    ensures r.Ok? ==> r.value.global == ParseGroupConfig(y.settings).value
    ensures r.Ok? ==> forall v | v in r.value.perPeer ::
      exists i | 0 <= i < |PeerEntries(y.groups)| :: VertexFromStr(PeerEntries(y.groups)[i].0) == Ok(v)
  {
    var global :- ParseGroupConfig(y.settings);
    var perPeer :- AddPeers(PeerEntries(y.groups), map[]);
    Ok(Config(global, perPeer))
  }

  /** A peer listed twice, in the same group or in two, is refused. */
  lemma DuplicatePeerRefused(y: YamlConfig, i: nat, j: nat)
    requires i < j < |PeerEntries(y.groups)|
    requires VertexFromStr(PeerEntries(y.groups)[i].0).Ok?
    requires VertexFromStr(PeerEntries(y.groups)[i].0) == VertexFromStr(PeerEntries(y.groups)[j].0)
    ensures Load(y).Err?
  {
  }

  /** An invalid mode in a group without peers is never noticed. */
  lemma EmptyGroupNotValidated(y: YamlConfig, settings: YamlGroupConfig)
    ensures Load(y.(groups := y.groups + [YamlGroup(settings, [])])) == Load(y)
  {
    EmptyGroupContributesNothing(y.groups, settings, []);
    assert y.groups + [YamlGroup(settings, [])] + [] == y.groups + [YamlGroup(settings, [])];
    assert y.groups + [] == y.groups;
  }

  /** A peer listed in a loaded file is governed by its group's settings. */
  lemma ListedPeerGetsGroupSettings(y: YamlConfig, g: nat, k: nat)
    requires Load(y).Ok?
    requires g < |y.groups| && k < |y.groups[g].peers|
    ensures VertexFromStr(y.groups[g].peers[k]).Ok? && ParseGroupConfig(y.groups[g].settings).Ok?
    ensures ForPeer(Load(y).value, VertexFromStr(y.groups[g].peers[k]).value) == ParseGroupConfig(y.groups[g].settings).value
  {
    EntryIndexExists(y.groups, g, k);
  }

  /** Where a group's peer lands in the flattened entry list. */
  lemma {:induction false} EntryIndexExists(groups: seq<YamlGroup>, g: nat, k: nat)
    requires g < |groups| && k < |groups[g].peers|
    ensures exists n | 0 <= n < |PeerEntries(groups)| :: PeerEntries(groups)[n] == (groups[g].peers[k], groups[g].settings)
  {
    var head := GroupEntries(groups[0]);
    if g == 0 {
      assert PeerEntries(groups)[k] == head[k];
    } else {
      EntryIndexExists(groups[1..], g - 1, k);
      var n :| 0 <= n < |PeerEntries(groups[1..])| && PeerEntries(groups[1..])[n] == (groups[g].peers[k], groups[g].settings);
      assert PeerEntries(groups)[|head| + n] == PeerEntries(groups[1..])[n];
    }
  }
}
