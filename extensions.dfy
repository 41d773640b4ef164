/**
 * The extensions manager of an OpenSearch node, as values: the configured and the
 * discovered extensions, the registry map built by discovery, the handshake that fills
 * the list of initialized extensions, and the index-module fan-out.
 *
 * The transport is an environment: each outbound call yields a `CallOutcome`, a reply,
 * a transport failure, or a timeout after `ExtensionRequestWaitTimeout` seconds. The
 * order in which the registry's HashMap yields its entries is an input (`order`).
 * The class that updates these values in place is in module ExtensionsManagerState.
 */
module Extensions {
  import opened Wrappers

  // ---------------------------------------------------------------------------
  // Action names and the bounded wait
  // ---------------------------------------------------------------------------

  const RequestExtensionActionName := "internal:discovery/extensions"
  const IndicesExtensionPointActionName := "indices:internal/extensions"
  const IndicesExtensionNameActionName := "indices:internal/name"
  const RequestExtensionClusterState := "internal:discovery/clusterstate"
  const RequestExtensionClusterSettings := "internal:discovery/clustersettings"
  // The misspelling is part of the wire name.
  const RequestExtensionEnvironmentSettings := "internal:discovery/enviornmentsettings"
  const RequestExtensionAddSettingsUpdateConsumer := "internal:discovery/addsettingsupdateconsumer"
  const RequestExtensionUpdateSettings := "internal:discovery/updatesettings"
  const RequestExtensionRegisterCustomSettings := "internal:discovery/registercustomsettings"
  const RequestExtensionRegisterRestActions := "internal:discovery/registerrestactions"
  const RequestExtensionRegisterTransportActions := "internal:discovery/registertransportactions"
  const RequestOpensearchParseNamedWriteable := "internal:discovery/parsenamedwriteable"
  const RequestRestExecuteOnExtensionAction := "internal:extensions/restexecuteonextensiontaction"
  const RequestExtensionHandleTransportAction := "internal:extensions/handle-transportaction"
  const TransportActionRequestFromExtension := "internal:extensions/request-transportaction-from-extension"

  /** Seconds a handshake or an index-module notification is waited for. */
  const ExtensionRequestWaitTimeout := 10

  predicate Distinct(keys: seq<string>) {
    forall i, j :: 0 <= i < j < |keys| ==> keys[i] != keys[j]
  }

  /** Every action name of the manager; each is a separate wire contract. */
  function ActionNames(): (names: seq<string>)
    ensures |names| == 15 && Distinct(names)
    ensures RequestExtensionActionName in names && IndicesExtensionPointActionName in names
    ensures IndicesExtensionNameActionName in names
  {
    [RequestExtensionActionName, IndicesExtensionPointActionName, IndicesExtensionNameActionName,
     RequestExtensionClusterState, RequestExtensionClusterSettings, RequestExtensionEnvironmentSettings,
     RequestExtensionAddSettingsUpdateConsumer, RequestExtensionUpdateSettings,
     RequestExtensionRegisterCustomSettings, RequestExtensionRegisterRestActions,
     RequestExtensionRegisterTransportActions, RequestOpensearchParseNamedWriteable,
     RequestRestExecuteOnExtensionAction, RequestExtensionHandleTransportAction,
     TransportActionRequestFromExtension]
  }

  // ---------------------------------------------------------------------------
  // Configured extensions and discovered nodes
  // ---------------------------------------------------------------------------

  /** One entry of extensions.yml, every field as the text the file gave. */
  datatype ExtensionConfig = ExtensionConfig(
    name: string,
    uniqueId: string,
    hostName: string,
    hostAddress: string,
    port: string,
    version: string,
    opensearchVersion: string,
    javaVersion: string,
    className: string,
    description: string,
    hasNativeController: string,
    dependencies: seq<string>)

  datatype Version = Version(id: int)

  /**
   * The library calls discovery depends on: whether `InetAddress.getByName` resolves a
   * host address, and what `Version.fromString` makes of a version string (None when it
   * throws).
   */
  datatype Library = Library(resolves: string -> bool, parseVersion: string -> Option<Version>)

  datatype TransportAddress = TransportAddress(address: string, port: int)

  datatype PluginInfo = PluginInfo(
    name: string,
    description: string,
    version: string,
    opensearchVersion: Version,
    javaVersion: string,
    className: string,
    extendedPlugins: seq<string>,
    hasNativeController: bool)

  /** A discovered extension (DiscoveryExtensionNode). */
  datatype ExtensionNode = ExtensionNode(
    name: string,
    id: string,
    ephemeralId: string,
    hostName: string,
    hostAddress: string,
    address: TransportAddress,
    attributes: map<string, string>,
    version: Version,
    pluginInfo: PluginInfo,
    dependencies: seq<string>)

  // ---------------------------------------------------------------------------
  // Integer.parseInt and Boolean.parseBoolean
  // ---------------------------------------------------------------------------

  const IntMin := -0x8000_0000
  const IntMax := 0x7fff_ffff

  predicate IsDigit(c: char) {
    '0' <= c <= '9'
  }

  predicate AllDigits(s: string) {
    forall i :: 0 <= i < |s| ==> IsDigit(s[i])
  }

  function DigitsValue(s: string): nat
    requires AllDigits(s)
  {
    if |s| == 0 then 0 else DigitsValue(s[..|s| - 1]) * 10 + (s[|s| - 1] as int - '0' as int)
  }

  /**
   * Integer.parseInt in radix 10: an optional '+' or '-', then at least one digit, and
   * the value must fit in 32 bits; anything else is a NumberFormatException (None).
   */
  function ParseInt(s: string): (r: Option<int>)
    ensures r.Some? ==> IntMin <= r.value <= IntMax
    ensures r.Some? ==> |s| > 0 && |if s[0] == '-' || s[0] == '+' then s[1..] else s| > 0
    ensures r.Some? ==> |s| > 0 && AllDigits(if s[0] == '-' || s[0] == '+' then s[1..] else s)
  {
    if |s| == 0 then None
    else
      var digits := if s[0] == '-' || s[0] == '+' then s[1..] else s;
      if |digits| == 0 || !AllDigits(digits) then None
      else
        var magnitude: int := DigitsValue(digits);
        var v := if s[0] == '-' then -magnitude else magnitude;
        if IntMin <= v <= IntMax then Some(v) else None
  }

  /** The decimal digits of n, most significant first, without a sign or leading zeros. */
  function Decimal(n: nat): (s: string)
    ensures |s| > 0 && AllDigits(s)
  {
    if n < 10 then [('0' as int + n) as char]
    else Decimal(n / 10) + [('0' as int + n % 10) as char]
  }

  lemma {:induction false} DigitsValueOfDecimal(n: nat)
    ensures DigitsValue(Decimal(n)) == n
  {
    if n >= 10 {
      var s := Decimal(n);
      assert s[..|s| - 1] == Decimal(n / 10);
      DigitsValueOfDecimal(n / 10);
    }
  }

  /**
   * Every 32-bit value, written in decimal, is parsed back: a magnitude up to IntMax
   * unsigned or with '+', and up to IntMax + 1 (Integer.MIN_VALUE) with '-'.
   */
  lemma ParseIntOfDecimal(n: nat)
    requires n <= IntMax + 1
    ensures n <= IntMax ==> ParseInt(Decimal(n)) == Some(n)
    ensures n <= IntMax ==> ParseInt("+" + Decimal(n)) == Some(n)
    ensures ParseInt("-" + Decimal(n)) == Some(-(n as int))
  {
    DigitsValueOfDecimal(n);
    var d := Decimal(n);
    assert IsDigit(d[0]);
    assert ("+" + d)[1..] == d;
    assert ("-" + d)[1..] == d;
  }

  /** ASCII upper-case letters to lower case; every other character unchanged. */
  function ToLowerAscii(s: string): string
  {
    seq(|s|, i requires 0 <= i < |s| => if 'A' <= s[i] <= 'Z' then (s[i] as int + 32) as char else s[i])
  }

  /** Boolean.parseBoolean: true exactly for "true" in any letter case. */
  function ParseBoolean(s: string): (r: bool)
    ensures r <==> ToLowerAscii(s) == "true"
  {
    var lower := ToLowerAscii(s);
    assert |lower| == |s|;
    assert |s| == 4 ==> lower == [lower[0], lower[1], lower[2], lower[3]];
    && |s| == 4
    && (s[0] == 't' || s[0] == 'T')
    && (s[1] == 'r' || s[1] == 'R')
    && (s[2] == 'u' || s[2] == 'U')
    && (s[3] == 'e' || s[3] == 'E')
  }

  // ---------------------------------------------------------------------------
  // Loading one extension and discovering all of them
  // ---------------------------------------------------------------------------

  /** Exceptions that end loadExtension and the discovery pass. */
  datatype LoadError =
    | UnknownHost(host: string)          // InetAddress.getByName
    | MalformedPort(port: string)        // Integer.parseInt
    | PortOutOfRange(portNumber: int)    // InetSocketAddress, under new TransportAddress
    | MalformedVersion(version: string)  // Version.fromString
    | ConfigUnreadable                   // "Could not read from extensions.yml"

  /** The largest port an InetSocketAddress accepts. */
  const MaxPort := 0xFFFF

  predicate ValidPort(port: int) {
    0 <= port <= MaxPort
  }

  /**
   * The DiscoveryExtensionNode built from one configured entry. Java evaluates the
   * constructor's arguments left to right, so the host is resolved first, the port
   * parsed next, the socket address (which refuses a port outside 0..65535) built
   * next and the version parsed last; the first that throws is the error.
   */
  function BuildNode(lib: Library, cfg: ExtensionConfig): (r: Result<ExtensionNode, LoadError>)
    ensures r.Success? <==>
      && lib.resolves(cfg.hostAddress) && ParseInt(cfg.port).Some? && ValidPort(ParseInt(cfg.port).value)
      && lib.parseVersion(cfg.opensearchVersion).Some?
    ensures r.Success? ==>
      r.value.id == cfg.uniqueId && r.value.ephemeralId == cfg.uniqueId && r.value.name == cfg.name &&
      r.value.address == TransportAddress(cfg.hostAddress, ParseInt(cfg.port).value)
    ensures r.Failure? && !lib.resolves(cfg.hostAddress) ==> r.error == UnknownHost(cfg.hostAddress)
  {
    if !lib.resolves(cfg.hostAddress) then Failure(UnknownHost(cfg.hostAddress))
    else
      match ParseInt(cfg.port)
      case None => Failure(MalformedPort(cfg.port))
      case Some(port) =>
        if !ValidPort(port) then Failure(PortOutOfRange(port))
        else match lib.parseVersion(cfg.opensearchVersion)
        case None => Failure(MalformedVersion(cfg.opensearchVersion))
        case Some(v) =>
          Success(ExtensionNode(
            cfg.name, cfg.uniqueId, cfg.uniqueId, cfg.hostName, cfg.hostAddress,
            TransportAddress(cfg.hostAddress, port), map[], v,
            PluginInfo(cfg.name, cfg.description, cfg.version, v, cfg.javaVersion, cfg.className, [],
                       ParseBoolean(cfg.hasNativeController)),
            cfg.dependencies))
  }

  /** Every key of the registry is the id of the node it maps to. */
  predicate ValidIdMap(m: map<string, ExtensionNode>) {
    forall k :: k in m ==> m[k].id == k
  }

  /** The registry after an attempt, and the exception that ended it, if any. */
  datatype LoadResult = LoadResult(idMap: map<string, ExtensionNode>, error: Option<LoadError>)

  /** loadExtension: skip a known uniqueId, otherwise build the node and put it. */
  function LoadStep(lib: Library, m: map<string, ExtensionNode>, cfg: ExtensionConfig): (r: LoadResult)
    ensures cfg.uniqueId in m ==> r == LoadResult(m, None)
    ensures r.error.Some? <==> cfg.uniqueId !in m && BuildNode(lib, cfg).Failure?
    ensures r.error.Some? ==> r.idMap == m && r.error == Some(BuildNode(lib, cfg).error)
    ensures r.error.None? ==> r.idMap.Keys == m.Keys + {cfg.uniqueId}
    ensures forall k :: k in m ==> k in r.idMap && r.idMap[k] == m[k]
    ensures cfg.uniqueId !in m && r.error.None? ==> BuildNode(lib, cfg) == Success(r.idMap[cfg.uniqueId])
    ensures ValidIdMap(m) ==> ValidIdMap(r.idMap)
  {
    if cfg.uniqueId in m then LoadResult(m, None)
    else
      match BuildNode(lib, cfg)
      case Failure(e) => LoadResult(m, Some(e))
      case Success(node) => LoadResult(m[cfg.uniqueId := node], None)
  }

  /** The for-loop of discover: load each entry in turn; the first exception ends it. */
  function LoadAll(lib: Library, m: map<string, ExtensionNode>, cfgs: seq<ExtensionConfig>): LoadResult
    decreases |cfgs|
  {
    if cfgs == [] then LoadResult(m, None)
    else
      var prior := LoadAll(lib, m, cfgs[..|cfgs| - 1]);
      if prior.error.Some? then prior else LoadStep(lib, prior.idMap, cfgs[|cfgs| - 1])
  }

  /** A pass never changes or drops an existing entry, and keeps every key its node's id. */
  lemma {:induction false} LoadAllKeeps(lib: Library, m: map<string, ExtensionNode>, cfgs: seq<ExtensionConfig>)
    ensures forall k :: k in m ==> k in LoadAll(lib, m, cfgs).idMap && LoadAll(lib, m, cfgs).idMap[k] == m[k]
    ensures ValidIdMap(m) ==> ValidIdMap(LoadAll(lib, m, cfgs).idMap)
    decreases |cfgs|
  {
    if cfgs != [] {
      LoadAllKeeps(lib, m, cfgs[..|cfgs| - 1]);
    }
  }

  function Ids(cfgs: seq<ExtensionConfig>): set<string> {
    set i | 0 <= i < |cfgs| :: cfgs[i].uniqueId
  }

  /** Entry i is the first with its uniqueId, and that id is not already registered. */
  predicate FirstNew(m: map<string, ExtensionNode>, cfgs: seq<ExtensionConfig>, i: int)
    requires 0 <= i < |cfgs|
  {
    cfgs[i].uniqueId !in m && forall j :: 0 <= j < i ==> cfgs[j].uniqueId != cfgs[i].uniqueId
  }

  lemma IdsOfPrefix(cfgs: seq<ExtensionConfig>)
    requires cfgs != []
    ensures Ids(cfgs) == Ids(cfgs[..|cfgs| - 1]) + {cfgs[|cfgs| - 1].uniqueId}
  {
    var p := cfgs[..|cfgs| - 1];
    forall id | id in Ids(cfgs) ensures id in Ids(p) + {cfgs[|cfgs| - 1].uniqueId} {
      var i :| 0 <= i < |cfgs| && cfgs[i].uniqueId == id;
      if i < |p| { assert p[i] == cfgs[i]; }
    }
    forall id | id in Ids(p) ensures id in Ids(cfgs) {
      var i :| 0 <= i < |p| && p[i].uniqueId == id;
      assert cfgs[i] == p[i];
    }
  }

  /** A pass that raised nothing registers exactly the distinct uniqueIds of the list. */
  lemma {:induction false} LoadAllKeys(lib: Library, m: map<string, ExtensionNode>, cfgs: seq<ExtensionConfig>)
    requires LoadAll(lib, m, cfgs).error.None?
    ensures LoadAll(lib, m, cfgs).idMap.Keys == m.Keys + Ids(cfgs)
    decreases |cfgs|
  {
    if cfgs == [] {
      assert Ids(cfgs) == {};
    } else {
      var p := cfgs[..|cfgs| - 1];
      assert LoadAll(lib, m, p).error.None?;
      LoadAllKeys(lib, m, p);
      IdsOfPrefix(cfgs);
    }
  }

  /** The last entry, when it is the first with its id, is loaded from its own node. */
  lemma LoadAllLast(lib: Library, m: map<string, ExtensionNode>, cfgs: seq<ExtensionConfig>)
    requires cfgs != [] && LoadAll(lib, m, cfgs).error.None?
    requires FirstNew(m, cfgs, |cfgs| - 1)
    ensures BuildNode(lib, cfgs[|cfgs| - 1]) == Success(LoadAll(lib, m, cfgs).idMap[cfgs[|cfgs| - 1].uniqueId])
  {
    var p := cfgs[..|cfgs| - 1];
    var last := cfgs[|cfgs| - 1];
    var prior := LoadAll(lib, m, p);
    assert prior.error.None?;
    LoadAllKeys(lib, m, p);
    forall j | 0 <= j < |p| ensures p[j].uniqueId != last.uniqueId {
      assert p[j] == cfgs[j];
    }
    assert last.uniqueId !in Ids(p);
  }

  /** Whether entry i is first-seen does not depend on the entries after it. */
  lemma FirstNewInPrefix(m: map<string, ExtensionNode>, cfgs: seq<ExtensionConfig>, j: nat, i: nat)
    requires i < j <= |cfgs|
    ensures FirstNew(m, cfgs[..j], i) <==> FirstNew(m, cfgs, i)
  {
    assert forall l :: 0 <= l <= i ==> cfgs[..j][l] == cfgs[l];
  }

  /** An entry registered before the last configured entry is kept by it. */
  lemma KeptByLast(lib: Library, m: map<string, ExtensionNode>, cfgs: seq<ExtensionConfig>, k: string)
    requires cfgs != [] && LoadAll(lib, m, cfgs).error.None?
    requires k in LoadAll(lib, m, cfgs[..|cfgs| - 1]).idMap
    ensures k in LoadAll(lib, m, cfgs).idMap
    ensures LoadAll(lib, m, cfgs).idMap[k] == LoadAll(lib, m, cfgs[..|cfgs| - 1]).idMap[k]
  {
    var prior := LoadAll(lib, m, cfgs[..|cfgs| - 1]);
    assert LoadAll(lib, m, cfgs) == LoadStep(lib, prior.idMap, cfgs[|cfgs| - 1]);
  }

  /**
   * A pass that raised nothing binds each uniqueId it registered to the node built from
   * that id's first occurrence; what was registered before is kept (LoadAllKeeps).
   */
  lemma {:induction false} LoadAllLoaded(lib: Library, m: map<string, ExtensionNode>, cfgs: seq<ExtensionConfig>)
    requires LoadAll(lib, m, cfgs).error.None?
    ensures LoadAll(lib, m, cfgs).idMap.Keys == m.Keys + Ids(cfgs)
    ensures forall i :: 0 <= i < |cfgs| && FirstNew(m, cfgs, i) ==>
      BuildNode(lib, cfgs[i]) == Success(LoadAll(lib, m, cfgs).idMap[cfgs[i].uniqueId])
    decreases |cfgs|
  {
    LoadAllKeys(lib, m, cfgs);
    if cfgs != [] {
      var n := |cfgs|;
      var p := cfgs[..n - 1];
      assert LoadAll(lib, m, p).error.None?;
      LoadAllLoaded(lib, m, p);
      forall i | 0 <= i < n && FirstNew(m, cfgs, i)
        ensures BuildNode(lib, cfgs[i]) == Success(LoadAll(lib, m, cfgs).idMap[cfgs[i].uniqueId])
      {
        if i < n - 1 {
          FirstNewInPrefix(m, cfgs, n - 1, i);
          assert p[i] == cfgs[i];
          assert p[i].uniqueId in Ids(p);
          KeptByLast(lib, m, cfgs, cfgs[i].uniqueId);
        } else {
          LoadAllLast(lib, m, cfgs);
        }
      }
    }
  }

  /** A pass whose prefix raised nothing but which raised itself stopped at its last entry. */
  lemma AbortedAtLast(lib: Library, m: map<string, ExtensionNode>, cfgs: seq<ExtensionConfig>)
    requires cfgs != [] && LoadAll(lib, m, cfgs[..|cfgs| - 1]).error.None?
    requires LoadAll(lib, m, cfgs).error.Some?
    ensures FirstNew(m, cfgs, |cfgs| - 1)
    ensures BuildNode(lib, cfgs[|cfgs| - 1]) == Failure(LoadAll(lib, m, cfgs).error.value)
    ensures LoadAll(lib, m, cfgs).idMap == LoadAll(lib, m, cfgs[..|cfgs| - 1]).idMap
  {
    var n := |cfgs|;
    var p := cfgs[..n - 1];
    var last := cfgs[n - 1];
    var prior := LoadAll(lib, m, p);
    assert LoadAll(lib, m, cfgs) == LoadStep(lib, prior.idMap, last);
    LoadAllKeys(lib, m, p);
    forall j | 0 <= j < n - 1 ensures cfgs[j].uniqueId != last.uniqueId {
      assert p[j] == cfgs[j];
      assert cfgs[j].uniqueId in Ids(p);
    }
  }

  /** What the prefix's abort says of the prefix, it says of the whole list. */
  lemma AbortedBeforeLast(lib: Library, m: map<string, ExtensionNode>, cfgs: seq<ExtensionConfig>, i: nat)
    requires cfgs != [] && LoadAll(lib, m, cfgs[..|cfgs| - 1]).error.Some?
    requires i < |cfgs| - 1 && FirstNew(m, cfgs[..|cfgs| - 1], i)
    requires LoadAll(lib, m, cfgs[..|cfgs| - 1][..i]).error.None?
    requires BuildNode(lib, cfgs[..|cfgs| - 1][i]) == Failure(LoadAll(lib, m, cfgs[..|cfgs| - 1]).error.value)
    requires LoadAll(lib, m, cfgs[..|cfgs| - 1]).idMap == LoadAll(lib, m, cfgs[..|cfgs| - 1][..i]).idMap
    ensures FirstNew(m, cfgs, i)
    ensures LoadAll(lib, m, cfgs[..i]).error.None?
    ensures BuildNode(lib, cfgs[i]) == Failure(LoadAll(lib, m, cfgs).error.value)
    ensures LoadAll(lib, m, cfgs).idMap == LoadAll(lib, m, cfgs[..i]).idMap
  {
    var p := cfgs[..|cfgs| - 1];
    assert LoadAll(lib, m, cfgs) == LoadAll(lib, m, p);
    assert p[..i] == cfgs[..i] && p[i] == cfgs[i];
    forall j | 0 <= j < i ensures cfgs[j].uniqueId != cfgs[i].uniqueId {
      assert p[j] == cfgs[j];
    }
  }

  /**
   * A pass that raised an exception stopped at a first-seen entry whose node could not
   * be built; the registry holds what the entries before it loaded, and nothing after.
   */
  lemma {:induction false} LoadAllAborted(lib: Library, m: map<string, ExtensionNode>, cfgs: seq<ExtensionConfig>)
    returns (i: nat)
    requires LoadAll(lib, m, cfgs).error.Some?
    ensures i < |cfgs| && FirstNew(m, cfgs, i)
    ensures LoadAll(lib, m, cfgs[..i]).error.None?
    ensures BuildNode(lib, cfgs[i]) == Failure(LoadAll(lib, m, cfgs).error.value)
    ensures LoadAll(lib, m, cfgs).idMap == LoadAll(lib, m, cfgs[..i]).idMap
    decreases |cfgs|
  {
    var n := |cfgs|;
    var p := cfgs[..n - 1];
    var prior := LoadAll(lib, m, p);
    if prior.error.Some? {
      i := LoadAllAborted(lib, m, p);
      AbortedBeforeLast(lib, m, cfgs, i);
    } else {
      i := n - 1;
      AbortedAtLast(lib, m, cfgs);
    }
  }

  /** A pass raises nothing exactly when every first-seen new entry builds a node. */
  lemma LoadAllSucceedsIff(lib: Library, m: map<string, ExtensionNode>, cfgs: seq<ExtensionConfig>)
    ensures LoadAll(lib, m, cfgs).error.None? <==>
      forall i :: 0 <= i < |cfgs| && FirstNew(m, cfgs, i) ==> BuildNode(lib, cfgs[i]).Success?
  {
    if LoadAll(lib, m, cfgs).error.None? {
      LoadAllLoaded(lib, m, cfgs);
    } else {
      var i := LoadAllAborted(lib, m, cfgs);
    }
  }

  /** What discover finds at the extensions path. */
  datatype ConfigSource =
    | DirectoryInaccessible                     // FileSystemUtils.isAccessibleDirectory is false
    | FileAbsent                                // no extensions.yml in the directory
    | FileUnreadable                            // reading or parsing extensions.yml threw
    | Listed(extensions: seq<ExtensionConfig>)  // the entries of extensions.yml, in file order

  /** discover, started from registry m. */
  function DiscoverResult(lib: Library, m: map<string, ExtensionNode>, source: ConfigSource): (r: LoadResult)
    ensures !source.Listed? ==> r.idMap == m
    ensures source.FileUnreadable? ==> r.error == Some(ConfigUnreadable)
    ensures source.DirectoryInaccessible? || source.FileAbsent? ==> r.error.None?
    ensures forall k :: k in m ==> k in r.idMap && r.idMap[k] == m[k]
    ensures ValidIdMap(m) ==> ValidIdMap(r.idMap)
  {
    match source
    case DirectoryInaccessible => LoadResult(m, None)
    case FileAbsent => LoadResult(m, None)
    case FileUnreadable => LoadResult(m, Some(ConfigUnreadable))
    case Listed(cfgs) =>
      LoadAllKeeps(lib, m, cfgs);
      LoadAll(lib, m, cfgs)
  }

  /**
   * Discovery as the manager's constructor runs it, on an empty registry: no directory or
   * no file gives an empty registry and no error; a list that loads without error gives
   * exactly its distinct uniqueIds, each bound to the node of its first occurrence.
   */
  lemma DiscoveryFromEmptyRegistry(lib: Library, source: ConfigSource)
    ensures source.DirectoryInaccessible? || source.FileAbsent? ==>
      DiscoverResult(lib, map[], source) == LoadResult(map[], None)
    ensures source.Listed? && DiscoverResult(lib, map[], source).error.None? ==>
      && DiscoverResult(lib, map[], source).idMap.Keys == Ids(source.extensions)
      && forall i :: 0 <= i < |source.extensions| && FirstNew(map[], source.extensions, i) ==>
           BuildNode(lib, source.extensions[i]) ==
           Success(DiscoverResult(lib, map[], source).idMap[source.extensions[i].uniqueId])
  {
    if source.Listed? && LoadAll(lib, map[], source.extensions).error.None? {
      LoadAllLoaded(lib, map[], source.extensions);
    }
  }

  // ---------------------------------------------------------------------------
  // Outbound calls and the handshake
  // ---------------------------------------------------------------------------

  /** How one outbound call ends for the caller blocked on its future. */
  datatype CallOutcome<R> =
    | Reply(response: R)   // handleResponse ran before the wait expired
    | TransportFailure     // connecting or sending threw, or handleException ran
    | Timeout              // no reply within ExtensionRequestWaitTimeout seconds

  /** The registry keys listed, all present. */
  predicate KeysIn(m: map<string, ExtensionNode>, keys: seq<string>) {
    forall i :: 0 <= i < |keys| ==> keys[i] in m
  }

  /** `order` is an order in which the registry's HashMap yields its entries: each key once. */
  predicate IsIterationOrder(m: map<string, ExtensionNode>, order: seq<string>) {
    KeysIn(m, order) && Distinct(order) && forall k :: k in m ==> k in order
  }

  /** The list of initialized extensions holds only registry values. */
  predicate InitializedAreDiscovered(m: map<string, ExtensionNode>, xs: seq<ExtensionNode>) {
    forall i :: 0 <= i < |xs| ==> xs[i] in m.Values
  }

  /** No two registered extensions share a name. */
  predicate NamesDistinct(m: map<string, ExtensionNode>) {
    forall a, b :: a in m && b in m && m[a].name == m[b].name ==> a == b
  }

  /** The first registry value, in iteration order, whose name is `name`. */
  function FirstNamed(m: map<string, ExtensionNode>, order: seq<string>, name: string): (r: Option<ExtensionNode>)
    requires KeysIn(m, order)
    ensures r.Some? ==> exists i ::
                          && 0 <= i < |order| && m[order[i]] == r.value && r.value.name == name
                          && forall j :: 0 <= j < i ==> m[order[j]].name != name
    ensures r.None? ==> forall i :: 0 <= i < |order| ==> m[order[i]].name != name
  {
    if order == [] then None
    else if m[order[0]].name == name then Some(m[order[0]])
    else
      var r := FirstNamed(m, order[1..], name);
      assert r.Some? ==> exists i ::
                           && 0 <= i < |order[1..]| && m[order[1..][i]] == r.value && r.value.name == name
                           && forall j :: 0 <= j < i ==> m[order[1..][j]].name != name;
      r
  }

  /**
   * What one handshake appends to the list of initialized extensions: on a reply, the
   * first registry value with the reply's name; on failure or timeout, nothing.
   */
  function HandshakeStep(m: map<string, ExtensionNode>, order: seq<string>, outcome: CallOutcome<string>): (r: seq<ExtensionNode>)
    requires KeysIn(m, order)
    ensures |r| <= 1
    ensures r != [] ==> outcome.Reply? && r[0].name == outcome.response && r[0] in m.Values
    ensures outcome.Reply? && (exists i :: 0 <= i < |order| && m[order[i]].name == outcome.response) ==> r != []
  {
    match outcome
    case Reply(name) =>
      (match FirstNamed(m, order, name)
       case Some(e) => [e]
       case None => [])
    case TransportFailure => []
    case Timeout => []
  }

  /** Handshakes with the extensions `keys`, in that order, appending as they conclude. */
  function Handshakes(m: map<string, ExtensionNode>, order: seq<string>, keys: seq<string>,
                      outcomes: string -> CallOutcome<string>): (r: seq<ExtensionNode>)
    requires KeysIn(m, order)
    ensures |r| <= |keys|
    ensures InitializedAreDiscovered(m, r)
    decreases |keys|
  {
    if keys == [] then []
    else Handshakes(m, order, keys[..|keys| - 1], outcomes) + HandshakeStep(m, order, outcomes(keys[|keys| - 1]))
  }

  /** The registry values of the keys whose handshake got a reply, in iteration order. */
  function Replied(m: map<string, ExtensionNode>, keys: seq<string>, outcomes: string -> CallOutcome<string>): seq<ExtensionNode>
    requires KeysIn(m, keys)
    decreases |keys|
  {
    if keys == [] then []
    else
      var k := keys[|keys| - 1];
      Replied(m, keys[..|keys| - 1], outcomes) + (if outcomes(k).Reply? then [m[k]] else [])
  }

  /** When no handshake gets a reply, no extension is initialized. */
  lemma {:induction false} NoReplyNoneInitialized(m: map<string, ExtensionNode>, order: seq<string>, keys: seq<string>,
                                                  outcomes: string -> CallOutcome<string>)
    requires KeysIn(m, order)
    requires forall i :: 0 <= i < |keys| ==> !outcomes(keys[i]).Reply?
    ensures Handshakes(m, order, keys, outcomes) == []
    decreases |keys|
  {
    if keys != [] {
      var p := keys[..|keys| - 1];
      assert forall i :: 0 <= i < |p| ==> p[i] == keys[i];
      NoReplyNoneInitialized(m, order, p, outcomes);
    }
  }

  /**
   * When names are distinct and each reply carries its extension's own name, the list of
   * initialized extensions is exactly the repliers, in iteration order: k replies give k
   * members.
   */
  lemma {:induction false} HandshakesInitializeRepliers(m: map<string, ExtensionNode>, order: seq<string>,
                                                        keys: seq<string>, outcomes: string -> CallOutcome<string>)
    requires KeysIn(m, order) && NamesDistinct(m)
    requires forall i :: 0 <= i < |keys| ==> keys[i] in order
    requires forall i :: 0 <= i < |keys| && outcomes(keys[i]).Reply? ==> outcomes(keys[i]).response == m[keys[i]].name
    ensures KeysIn(m, keys)
    ensures Handshakes(m, order, keys, outcomes) == Replied(m, keys, outcomes)
    decreases |keys|
  {
    assert KeysIn(m, keys) by {
      forall i | 0 <= i < |keys| ensures keys[i] in m {
        var j :| 0 <= j < |order| && order[j] == keys[i];
      }
    }
    if keys != [] {
      var p := keys[..|keys| - 1];
      var k := keys[|keys| - 1];
      assert forall i :: 0 <= i < |p| ==> p[i] == keys[i];
      HandshakesInitializeRepliers(m, order, p, outcomes);
      if outcomes(k).Reply? {
        var j :| 0 <= j < |order| && order[j] == k;
        var r := FirstNamed(m, order, m[k].name);
        assert r.Some?;
        var i :| 0 <= i < |order| && m[order[i]] == r.value && r.value.name == m[k].name;
        assert order[i] == k;
      }
    }
  }

  /**
   * Correlation is by name: when two registered extensions share a name and both reply,
   * the first in iteration order is appended twice and the second never.
   */
  lemma SharedNameAppendsFirstTwice(m: map<string, ExtensionNode>, x: string, y: string,
                                    outcomes: string -> CallOutcome<string>)
    requires x in m && y in m && IsIterationOrder(m, [x, y])
    requires m[x].name == m[y].name
    requires outcomes(x) == Reply(m[x].name) && outcomes(y) == Reply(m[y].name)
    ensures Handshakes(m, [x, y], [x, y], outcomes) == [m[x], m[x]]
  {
    assert [x, y][..1] == [x];
    assert [x][..0] == [];
  }

  // ---------------------------------------------------------------------------
  // Index-module fan-out and removal notices
  // ---------------------------------------------------------------------------

  datatype Payload =
    | IndicesModulePayload(index: string)  // IndicesModuleRequest(indexModule)

  /** One request handed to the transport. */
  datatype OutboundRequest = OutboundRequest(target: string, action: string, payload: Payload)

  /** The IndexEventListener registered for an extension on an index module. */
  datatype RemovalListener = RemovalListener(extension: ExtensionNode, index: string)

  /** The index-module request to one extension: addressed to its id, carrying the index. */
  function IndexModuleRequest(node: ExtensionNode, index: string): (r: OutboundRequest)
    ensures r.target == node.id && r.action == IndicesExtensionPointActionName && r.payload.index == index
  {
    OutboundRequest(node.id, IndicesExtensionPointActionName, IndicesModulePayload(index))
  }

  /** The requests of the fan-out over `keys`, one per key, in order. */
  function IndexModuleRequests(m: map<string, ExtensionNode>, keys: seq<string>, index: string): (r: seq<OutboundRequest>)
    requires KeysIn(m, keys)
    ensures |r| == |keys|
    decreases |keys|
  {
    if keys == [] then []
    else IndexModuleRequests(m, keys[..|keys| - 1], index) + [IndexModuleRequest(m[keys[|keys| - 1]], index)]
  }

  /** handleResponse of the index-module call: a listener only when the reply asks for one. */
  function ListenerStep(node: ExtensionNode, outcome: CallOutcome<bool>, index: string): (r: seq<RemovalListener>)
    ensures |r| <= 1
    ensures r != [] <==> outcome.Reply? && outcome.response
    ensures forall l :: l in r ==> l.extension == node && l.index == index
  {
    if outcome == Reply(true) then [RemovalListener(node, index)] else []
  }

  /** The listeners the fan-out over `keys` registers, in order. */
  function ListenersAdded(m: map<string, ExtensionNode>, keys: seq<string>, outcomes: string -> CallOutcome<bool>,
                          index: string): (r: seq<RemovalListener>)
    requires KeysIn(m, keys)
    ensures |r| <= |keys|
    decreases |keys|
  {
    if keys == [] then []
    else
      var k := keys[|keys| - 1];
      ListenersAdded(m, keys[..|keys| - 1], outcomes, index) + ListenerStep(m[k], outcomes(k), index)
  }

  /** beforeIndexRemoved: one name-action request to the listener's extension. */
  function RemovalNotice(l: RemovalListener): (r: OutboundRequest)
    ensures r.target == l.extension.id && r.action == IndicesExtensionNameActionName && r.payload.index == l.index
  {
    OutboundRequest(l.extension.id, IndicesExtensionNameActionName, IndicesModulePayload(l.index))
  }

  /** The notices sent when the index of these listeners is removed. */
  function RemovalNotices(ls: seq<RemovalListener>): (r: seq<OutboundRequest>)
    ensures |r| == |ls|
    decreases |ls|
  {
    if ls == [] then [] else RemovalNotices(ls[..|ls| - 1]) + [RemovalNotice(ls[|ls| - 1])]
  }

  /** How many of `reqs` go to extension `target` under `action`. */
  function CountSent(reqs: seq<OutboundRequest>, target: string, action: string): nat
    decreases |reqs|
  {
    if reqs == [] then 0
    else
      var last := reqs[|reqs| - 1];
      CountSent(reqs[..|reqs| - 1], target, action) + (if last.target == target && last.action == action then 1 else 0)
  }

  lemma {:induction false} CountSentAppend(a: seq<OutboundRequest>, b: seq<OutboundRequest>, target: string, action: string)
    ensures CountSent(a + b, target, action) == CountSent(a, target, action) + CountSent(b, target, action)
    decreases |b|
  {
    if b == [] {
      assert a + b == a;
    } else {
      assert (a + b)[..|a + b| - 1] == a + b[..|b| - 1];
      CountSentAppend(a, b[..|b| - 1], target, action);
    }
  }

  lemma {:induction false} RemovalNoticesAppend(a: seq<RemovalListener>, b: seq<RemovalListener>)
    ensures RemovalNotices(a + b) == RemovalNotices(a) + RemovalNotices(b)
    decreases |b|
  {
    if b == [] {
      assert a + b == a;
    } else {
      assert (a + b)[..|a + b| - 1] == a + b[..|b| - 1];
      RemovalNoticesAppend(a, b[..|b| - 1]);
    }
  }

  /** A list of distinct keys splits into a prefix of distinct keys and a last key not in it. */
  lemma SplitLast(m: map<string, ExtensionNode>, keys: seq<string>)
    requires keys != [] && KeysIn(m, keys) && Distinct(keys)
    ensures KeysIn(m, keys[..|keys| - 1]) && Distinct(keys[..|keys| - 1])
    ensures keys[|keys| - 1] !in keys[..|keys| - 1]
    ensures forall k :: k in keys <==> k in keys[..|keys| - 1] || k == keys[|keys| - 1]
  {
    var p := keys[..|keys| - 1];
    assert forall i :: 0 <= i < |p| ==> p[i] == keys[i];
    assert keys == p + [keys[|keys| - 1]];
  }

  /**
   * The fan-out sends exactly one index-module request to every listed registry entry,
   * initialized or not, and none to any other id.
   */
  lemma {:induction false} FanOutReachesEveryEntry(m: map<string, ExtensionNode>, keys: seq<string>, index: string)
    requires ValidIdMap(m) && KeysIn(m, keys) && Distinct(keys)
    ensures forall k ::
              CountSent(IndexModuleRequests(m, keys, index), k, IndicesExtensionPointActionName)
              == (if k in keys then 1 else 0)
    decreases |keys|
  {
    if keys != [] {
      var p := keys[..|keys| - 1];
      var last := keys[|keys| - 1];
      SplitLast(m, keys);
      FanOutReachesEveryEntry(m, p, index);
      var before := IndexModuleRequests(m, p, index);
      var step := [IndexModuleRequest(m[last], index)];
      assert IndexModuleRequests(m, keys, index) == before + step;
      assert step[..0] == [];
      forall k ensures CountSent(before + step, k, IndicesExtensionPointActionName) == (if k in keys then 1 else 0) {
        CountSentAppend(before, step, k, IndicesExtensionPointActionName);
      }
    }
  }

  /** The notices of one extension's listeners: one, to that extension, exactly when it asked. */
  lemma StepNotices(node: ExtensionNode, outcome: CallOutcome<bool>, index: string, k: string)
    ensures CountSent(RemovalNotices(ListenerStep(node, outcome, index)), k, IndicesExtensionNameActionName)
            == (if k == node.id && outcome == Reply(true) then 1 else 0)
  {
    var step := ListenerStep(node, outcome, index);
    if step != [] {
      assert step[..0] == [];
      assert RemovalNotices(step) == [RemovalNotice(step[0])];
      assert [RemovalNotice(step[0])][..0] == [];
    }
  }

  /**
   * Removal notices go exactly once to each listed extension whose index-module reply
   * asked for a listener, and never to one that failed, timed out or declined.
   */
  lemma {:induction false} RemovalNoticesOnlyToInterested(m: map<string, ExtensionNode>, keys: seq<string>,
                                                          outcomes: string -> CallOutcome<bool>, index: string)
    requires ValidIdMap(m) && KeysIn(m, keys) && Distinct(keys)
    ensures forall k ::
              CountSent(RemovalNotices(ListenersAdded(m, keys, outcomes, index)), k, IndicesExtensionNameActionName)
              == (if k in keys && outcomes(k) == Reply(true) then 1 else 0)
    decreases |keys|
  {
    if keys != [] {
      var p := keys[..|keys| - 1];
      var last := keys[|keys| - 1];
      SplitLast(m, keys);
      RemovalNoticesOnlyToInterested(m, p, outcomes, index);
      var before := ListenersAdded(m, p, outcomes, index);
      var step := ListenerStep(m[last], outcomes(last), index);
      assert ListenersAdded(m, keys, outcomes, index) == before + step;
      RemovalNoticesAppend(before, step);
      var sent := RemovalNotices(step);
      forall k
        ensures CountSent(RemovalNotices(before) + sent, k, IndicesExtensionNameActionName)
                == (if k in keys && outcomes(k) == Reply(true) then 1 else 0)
      {
        CountSentAppend(RemovalNotices(before), sent, k, IndicesExtensionNameActionName);
        StepNotices(m[last], outcomes(last), index, k);
      }
    }
  }

  // ---------------------------------------------------------------------------
  // Built-in requests from extensions
  // ---------------------------------------------------------------------------

  /** ExtensionsManager.RequestType. */
  datatype RequestType =
    | ClusterStateRequest
    | ClusterSettingsRequest
    | RegisterRestActionsRequest
    | RegisterSettingsRequest
    | EnvironmentSettingsRequest
    | CreateComponentRequest
    | OnIndexModuleRequest
    | GetSettingsRequest

  datatype Settings = Settings(entries: map<string, string>)

  datatype ClusterState = ClusterState(stateUuid: string, version: int)

  /** What the cluster service shows when a request is answered. */
  datatype ClusterService = ClusterService(clusterName: string, state: ClusterState, settings: Settings)

  datatype TransportResponse =
    | ClusterStateResponse(clusterName: string, state: ClusterState, waitForTimedOut: bool)
    | ClusterSettingsResponse(service: ClusterService)
    | EnvironmentSettingsResponse(environmentSettings: Option<Settings>)

  datatype RequestError =
    | HandlerNotPresent   // IllegalArgumentException("Handler not present for the provided request")
    | NullClusterService  // the cluster service has not been set yet

  /** The three request types answered by the manager itself. */
  predicate IsBuiltIn(t: RequestType) {
    t == ClusterStateRequest || t == ClusterSettingsRequest || t == EnvironmentSettingsRequest
  }

  /** The response is of the kind the request type asks for. */
  predicate Answers(t: RequestType, response: TransportResponse) {
    || (t == ClusterStateRequest && response.ClusterStateResponse?)
    || (t == ClusterSettingsRequest && response.ClusterSettingsResponse?)
    || (t == EnvironmentSettingsRequest && response.EnvironmentSettingsResponse?)
  }
}
