/** The daemon's choice of the TLS certificate and macaroon paths from its
    command-line flags. Lower-casing, path joining and the home/environment
    expansion are the platform's and come in as functions. */
module DaemonMain {
  import opened Wrappers

  type PathJoin = seq<string> -> string

  const DataDir := "data"
  const ChainSubDir := "chain"
  const TlsCertFilename := "tls.cert"
  const MacaroonFilename := "admin.macaroon"
  const Chain := "bitcoin"
  const Networks := {"mainnet", "testnet", "regtest", "simnet"}

  /** `cleanAndExpandPath`: the empty path stays empty; any other path is
      expanded and cleaned by `expand`. */
  function CleanAndExpandPath(path: string, expand: string -> string): (r: string)
    ensures path == "" ==> r == ""
    ensures path != "" ==> r == expand(path)
  {
    if path == "" then "" else expand(path)
  }

  /** The flag values that matter here. */
  datatype Flags = Flags(network: string, lndDir: string, macaroonPath: string, tlsCertPath: string)

  datatype Paths = Paths(tlsCertPath: string, macaroonPath: string)

  /** `extractPathArgs`. `defaultLndDir` is lnd's default directory. */
  function ExtractPathArgs(f: Flags, defaultLndDir: string, lower: string -> string,
                           expand: string -> string, join: PathJoin): (r: Result<Paths, string>)
    ensures r.Err? <==> lower(f.network) !in Networks
    ensures r.Err? ==> r.error == "unknown network: " + lower(f.network)
    ensures r.Ok? && f.macaroonPath != "" ==> r.value.macaroonPath == expand(f.macaroonPath)
    ensures r.Ok? && f.macaroonPath == "" ==>
      r.value.macaroonPath == join([CleanAndExpandPath(f.lndDir, expand), DataDir, ChainSubDir, Chain, lower(f.network), MacaroonFilename])
    ensures r.Ok? && CleanAndExpandPath(f.lndDir, expand) != defaultLndDir ==>
      r.value.tlsCertPath == join([CleanAndExpandPath(f.lndDir, expand), TlsCertFilename])
    ensures r.Ok? && CleanAndExpandPath(f.lndDir, expand) == defaultLndDir ==>
      r.value.tlsCertPath == CleanAndExpandPath(f.tlsCertPath, expand)
  {
    var network := lower(f.network);
    if network !in Networks then Err("unknown network: " + network)
    else
      var lndDir := CleanAndExpandPath(f.lndDir, expand);
      var macPath :=
        if f.macaroonPath != "" then CleanAndExpandPath(f.macaroonPath, expand)
        else join([lndDir, DataDir, ChainSubDir, Chain, network, MacaroonFilename]);
      var tlsCertPath :=
        if lndDir != defaultLndDir then join([lndDir, TlsCertFilename])
        else CleanAndExpandPath(f.tlsCertPath, expand);
      Ok(Paths(tlsCertPath, macPath))
  }

  /** The network name is read without regard to case, as far as `lower`
      identifies two spellings. */
  lemma NetworkCaseIgnored(f: Flags, network: string, defaultLndDir: string, lower: string -> string,
                           expand: string -> string, join: PathJoin)
    requires lower(network) == lower(f.network)
    ensures ExtractPathArgs(f.(network := network), defaultLndDir, lower, expand, join) ==
            ExtractPathArgs(f, defaultLndDir, lower, expand, join)
  {
  }

  /** With a custom lnd directory the TLS flag is ignored; with an explicit
      macaroon path, the directory and network do not affect the macaroon. */
  lemma OverridesIgnoreOtherFlags(f: Flags, tls: string, dir: string, defaultLndDir: string,
                                  lower: string -> string, expand: string -> string, join: PathJoin)
    requires ExtractPathArgs(f, defaultLndDir, lower, expand, join).Ok?
    ensures CleanAndExpandPath(f.lndDir, expand) != defaultLndDir ==>
      ExtractPathArgs(f.(tlsCertPath := tls), defaultLndDir, lower, expand, join) ==
      ExtractPathArgs(f, defaultLndDir, lower, expand, join)
    ensures f.macaroonPath != "" ==>
      ExtractPathArgs(f.(lndDir := dir), defaultLndDir, lower, expand, join).value.macaroonPath ==
      ExtractPathArgs(f, defaultLndDir, lower, expand, join).value.macaroonPath
  {
  }
}
