/** The client's `listlimits` command: one text row per reported peer. */
module CliListLimits {
  import opened Wrappers
  import opened Strings
  import opened CliMain
  import opened CliUpdateLimit
  import opened PeerController
  import Server

  const HeaderGroups := ["", "", "LIMITS", "LIMITS", "LIMITS", "COUNTERS", "COUNTERS"]
  const Header := ["NODE", "ALIAS", "MAX HOURLY RATE", "MAX PENDING", "MODE", "1 HR", "24 HR"]

  /** `appendNumber`'s text: a dash for zero, the decimal number otherwise. */
  function FormatNumber(n: int): (s: string)
    ensures s == "-" <==> n == 0
    ensures n > 0 ==> ParseLeadingNat(s) == Some(n)
    ensures n < 0 ==> |s| >= 2 && s[0] == '-' && ParseLeadingNat(s[1..]) == Some(-n)
  {
    if n == 0 then "-"
    else
      ParseRendered(if n > 0 then n else -n);
      IntToString(n)
  }

  /** The CLI name of a wire mode; other values are an error. */
  function RpcModeToCli(mode: int): (r: Result<string, string>)
    ensures r.Ok? <==> mode in {RpcModeFail, RpcModeQueue, RpcModeQueuePeerInitiated}
    ensures r.Err? ==> r.error == "unknown mode"
  {
    if mode == RpcModeFail then Ok(ModeFailText)
    else if mode == RpcModeQueue then Ok(ModeQueueText)
    else if mode == RpcModeQueuePeerInitiated then Ok(ModeQueuePeerInitiatedText)
    else Err("unknown mode")
  }

  /** The CLI names and the wire modes correspond one to one. */
  lemma ModeNamesRoundTrip(s: string, mode: int)
    ensures CliModeToRpc(s).Ok? ==> RpcModeToCli(CliModeToRpc(s).value) == Ok(s)
    ensures RpcModeToCli(mode).Ok? ==> CliModeToRpc(RpcModeToCli(mode).value) == Ok(mode)
  {
  }

  /** Two texts joined by the counter separator. */
  function Sep(a: string, b: string): string {
    a + " / " + b
  }

  /** `formatCounter`: success, failed and rejected counts, in that order. */
  function FormatCounter(c: Counts): (s: string)
  {
    Sep(NatToString(c.success), Sep(NatToString(c.fail), NatToString(c.reject)))
  }

  lemma {:induction false} DigitPrefixBeforeSeparator(a: string, x: string)
    requires AllDigits(a) && (|x| == 0 || !IsDigit(x[0]))
    ensures DigitPrefix(a + x) == a
  {
    if |a| > 0 {
      assert (a + x)[1..] == a[1..] + x;
      DigitPrefixBeforeSeparator(a[1..], x);
      assert a == [a[0]] + a[1..];
    }
  }

  /** A digit string before the separator can be read back off, and so can
      what follows it. */
  lemma SepInjective(a: string, b: string, a': string, b': string)
    requires AllDigits(a) && AllDigits(a') && Sep(a, b) == Sep(a', b')
    ensures a == a' && b == b'
  {
    var s := Sep(a, b);
    assert s == a + (" / " + b);
    assert s == a' + (" / " + b');
    DigitPrefixBeforeSeparator(a, " / " + b);
    DigitPrefixBeforeSeparator(a', " / " + b');
    assert s[|a| + 3..] == b;
  }

  /** The counter text determines the three counts. */
  lemma FormatCounterInjective(a: Counts, b: Counts)
    requires FormatCounter(a) == FormatCounter(b)
    ensures a == b
  {
    SepInjective(NatToString(a.success), Sep(NatToString(a.fail), NatToString(a.reject)),
                 NatToString(b.success), Sep(NatToString(b.fail), NatToString(b.reject)));
    SepInjective(NatToString(a.fail), NatToString(a.reject), NatToString(b.fail), NatToString(b.reject));
    NatToStringInjective(a.success, b.success);
    NatToStringInjective(a.fail, b.fail);
    NatToStringInjective(a.reject, b.reject);
  }

  /** One table row: node, alias, the two caps, the mode and both counters,
      in header order. An unknown mode aborts the listing. */
  function LimitRow(l: Server.RpcNodeLimit): (r: Result<seq<string>, string>)
    ensures r.Ok? <==> RpcModeToCli(l.limit.mode).Ok?
    ensures r.Err? ==> r.error == "unknown mode"
    ensures r.Ok? ==> |r.value| == |Header| && r.value[0] == l.node && r.value[1] == l.alias
    ensures r.Ok? ==> r.value[2] == FormatNumber(l.limit.maxHourlyRate) && r.value[3] == FormatNumber(l.limit.maxPending)
    ensures r.Ok? ==> r.value[4] == RpcModeToCli(l.limit.mode).value
    ensures r.Ok? ==> r.value[5] == FormatCounter(l.counter1h) && r.value[6] == FormatCounter(l.counter24h)
  {
    match RpcModeToCli(l.limit.mode)
    case Err(e) => Err(e)
    case Ok(mode) => Ok(RowCells(l, mode))
  }

  function RowCells(l: Server.RpcNodeLimit, mode: string): (r: seq<string>)
    ensures |r| == |Header| && r[0] == l.node && r[1] == l.alias && r[4] == mode
    ensures r[2] == FormatNumber(l.limit.maxHourlyRate) && r[3] == FormatNumber(l.limit.maxPending)
    ensures r[5] == FormatCounter(l.counter1h) && r[6] == FormatCounter(l.counter24h)
  {
    [l.node, l.alias, FormatNumber(l.limit.maxHourlyRate), FormatNumber(l.limit.maxPending), mode,
     FormatCounter(l.counter1h), FormatCounter(l.counter24h)]
  }

  /** Applies `f` to every element in order, stopping at the first error. */
  function MapAll<A, B, E>(s: seq<A>, f: A -> Result<B, E>): (r: Result<seq<B>, E>)
    ensures r.Err? <==> exists i | 0 <= i < |s| :: f(s[i]).Err?
    ensures r.Ok? ==> |r.value| == |s| && forall i | 0 <= i < |s| :: f(s[i]).Ok? && r.value[i] == f(s[i]).value
  {
    if |s| == 0 then Ok([])
    else
      assert forall i | 1 <= i < |s| :: s[i] == s[1..][i - 1];
      var b :- f(s[0]);
      var rest :- MapAll(s[1..], f);
      Ok([b] + rest)
  }

  /** All rows, in the order the daemon listed them; the first unknown mode
      aborts before anything is rendered. */
  function ListRows(limits: seq<Server.RpcNodeLimit>): (r: Result<seq<seq<string>>, string>)
    ensures r.Err? <==> exists i | 0 <= i < |limits| :: LimitRow(limits[i]).Err?
    ensures r.Ok? ==> |r.value| == |limits| && forall i | 0 <= i < |limits| :: r.value[i] == LimitRow(limits[i]).value
  {
    MapAll(limits, LimitRow)
  }

  /** The daemon never reports a mode, so its listings always render, every
      mode cell reading `fail`. */
  lemma DaemonListingsRender(limits: seq<Server.RpcNodeLimit>)
    requires forall i | 0 <= i < |limits| :: limits[i].limit.mode == 0
    ensures ListRows(limits).Ok?
    ensures forall i | 0 <= i < |limits| :: ListRows(limits).value[i][4] == ModeFailText
  {
  }
}
