/**
 * The ExtensionsManager object: the registry map and the list of initialized
 * extensions that its methods update in place, and the settings captured when the
 * node's services are handed to it. Each method is proved against the spec functions
 * of module Extensions.
 */
module ExtensionsManagerState {
  import opened Wrappers
  import opened Extensions

  /** The part of an IndexModule the fan-out touches: its index and its event listeners. */
  class IndexModule {
    const index: string
    var listeners: seq<RemovalListener>

    constructor (index: string)
      ensures this.index == index && listeners == []
    {
      this.index := index;
      listeners := [];
    }
  }

  class ExtensionsManager {
    /** Every discovered extension, by uniqueId. */
    var extensionIdMap: map<string, ExtensionNode>
    /** The initialized extensions, in the order their handshake replies arrived. */
    var extensions: seq<ExtensionNode>
    var clusterService: Option<ClusterService>
    var environmentSettings: Option<Settings>

    /** Keys are node ids, and the initialized list holds only discovered extensions. */
    ghost predicate Valid()
      reads this
    {
      ValidIdMap(extensionIdMap) && InitializedAreDiscovered(extensionIdMap, extensions)
    }

    /**
     * The fields as the constructor sets them before it runs discover; the services and
     * the environment settings are still unset.
     */
    constructor ()
      ensures Valid()
      ensures extensionIdMap == map[] && extensions == []
      ensures clusterService == None && environmentSettings == None
    {
      extensionIdMap := map[];
      extensions := [];
      clusterService := None;
      environmentSettings := None;
    }

    /** Captures the cluster service and the finalized environment settings. */
    method InitializeServicesAndRestHandler(cluster: ClusterService, initialEnvironmentSettings: Settings)
      requires Valid()
      modifies this
      ensures Valid()
      ensures clusterService == Some(cluster) && environmentSettings == Some(initialEnvironmentSettings)
      ensures extensionIdMap == old(extensionIdMap) && extensions == old(extensions)
      ensures HandleExtensionRequest(EnvironmentSettingsRequest) ==
        Success(EnvironmentSettingsResponse(Some(initialEnvironmentSettings)))
    {
      clusterService := Some(cluster);
      environmentSettings := Some(initialEnvironmentSettings);
    }

    /** Some registry value is still a registry value after entries are only added. */
    static lemma ValuesKept(m: map<string, ExtensionNode>, m': map<string, ExtensionNode>, xs: seq<ExtensionNode>)
      requires forall k :: k in m ==> k in m' && m'[k] == m[k]
      requires InitializedAreDiscovered(m, xs)
      ensures InitializedAreDiscovered(m', xs)
    {
      forall i | 0 <= i < |xs| ensures xs[i] in m'.Values {
        assert xs[i] in m.Values;
        var k :| k in m && m[k] == xs[i];
        assert m'[k] == xs[i];
      }
    }

    /** loadExtension: a known uniqueId is skipped; otherwise the built node is put. */
    method LoadExtension(lib: Library, extension: ExtensionConfig) returns (err: Option<LoadError>)
      requires Valid()
      modifies this
      ensures Valid()
      ensures LoadResult(extensionIdMap, err) == LoadStep(lib, old(extensionIdMap), extension)
      ensures extensions == old(extensions)
      ensures clusterService == old(clusterService) && environmentSettings == old(environmentSettings)
    {
      if extension.uniqueId in extensionIdMap {
        // logged as a duplicate; the registered node is kept
        err := None;
        return;
      }
      var built := BuildNode(lib, extension);
      match built
      case Failure(e) =>
        err := Some(e);
      case Success(node) =>
        ValuesKept(extensionIdMap, extensionIdMap[extension.uniqueId := node], extensions);
        extensionIdMap := extensionIdMap[extension.uniqueId := node];
        err := None;
    }

    /**
     * discover: nothing is loaded without the directory or the file; otherwise each
     * configured entry is loaded in turn and the first exception ends the pass.
     */
    method Discover(lib: Library, source: ConfigSource) returns (err: Option<LoadError>)
      requires Valid()
      modifies this
      ensures Valid()
      ensures LoadResult(extensionIdMap, err) == DiscoverResult(lib, old(extensionIdMap), source)
      ensures extensions == old(extensions)
      ensures clusterService == old(clusterService) && environmentSettings == old(environmentSettings)
    {
      match source
      case DirectoryInaccessible =>
        err := None;
      case FileAbsent =>
        err := None;
      case FileUnreadable =>
        err := Some(ConfigUnreadable);
      case Listed(cfgs) =>
        var i := 0;
        while i < |cfgs|
          invariant 0 <= i <= |cfgs|
          invariant Valid()
          invariant LoadAll(lib, old(extensionIdMap), cfgs[..i]) == LoadResult(extensionIdMap, None)
          invariant extensions == old(extensions)
          invariant clusterService == old(clusterService) && environmentSettings == old(environmentSettings)
        {
          assert cfgs[..i + 1][..i] == cfgs[..i];
          err := LoadExtension(lib, cfgs[i]);
          if err.Some? {
            LoadAllErrorSticks(lib, old(extensionIdMap), cfgs, i + 1);
            return;
          }
          i := i + 1;
        }
        assert cfgs[..i] == cfgs;
        err := None;
    }

    /** Once a prefix of the list has raised, the whole pass has the prefix's result. */
    static lemma {:induction false} LoadAllErrorSticks(lib: Library, m: map<string, ExtensionNode>,
                                                       cfgs: seq<ExtensionConfig>, j: nat)
      requires j <= |cfgs| && LoadAll(lib, m, cfgs[..j]).error.Some?
      ensures LoadAll(lib, m, cfgs) == LoadAll(lib, m, cfgs[..j])
      decreases |cfgs| - j
    {
      if j < |cfgs| {
        assert cfgs[..j + 1][..j] == cfgs[..j];
        LoadAllErrorSticks(lib, m, cfgs, j + 1);
      } else {
        assert cfgs[..j] == cfgs;
      }
    }

    /**
     * handleResponse of the handshake; it may also run after the caller's wait expired.
     * The first registry value, in iteration order, with the reply's name is appended.
     */
    method HandleInitializeResponse(order: seq<string>, name: string)
      requires Valid() && IsIterationOrder(extensionIdMap, order)
      modifies this`extensions
      ensures Valid()
      ensures extensions == old(extensions) + HandshakeStep(extensionIdMap, order, Reply(name))
    {
      var i := 0;
      while i < |order|
        invariant 0 <= i <= |order|
        invariant FirstNamed(extensionIdMap, order, name) == FirstNamed(extensionIdMap, order[i..], name)
        invariant extensions == old(extensions)
      {
        var extension := extensionIdMap[order[i]];
        assert order[i..][0] == order[i];
        if extension.name == name {
          assert FirstNamed(extensionIdMap, order, name) == Some(extension);
          assert extension in extensionIdMap.Values;
          extensions := extensions + [extension];
          return;
        }
        assert order[i..][1..] == order[i + 1..];
        i := i + 1;
      }
      assert order[i..] == [];
    }

    /** initializeExtension: only a reply appends; a failure or timeout is logged. */
    method InitializeExtension(order: seq<string>, extension: ExtensionNode, outcome: CallOutcome<string>)
      requires Valid() && IsIterationOrder(extensionIdMap, order)
      modifies this`extensions
      ensures Valid()
      ensures extensions == old(extensions) + HandshakeStep(extensionIdMap, order, outcome)
    {
      match outcome
      case Reply(name) =>
        HandleInitializeResponse(order, name);
      case TransportFailure =>
      case Timeout =>
    }

    /** initialize: one handshake per registry entry, in iteration order. */
    method Initialize(order: seq<string>, outcomes: string -> CallOutcome<string>)
      requires Valid() && IsIterationOrder(extensionIdMap, order)
      modifies this`extensions
      ensures Valid()
      ensures extensions == old(extensions) + Handshakes(extensionIdMap, order, order, outcomes)
    {
      for i := 0 to |order|
        invariant Valid()
        invariant extensions == old(extensions) + Handshakes(extensionIdMap, order, order[..i], outcomes)
      {
        assert order[..i + 1][..i] == order[..i];
        InitializeExtension(order, extensionIdMap[order[i]], outcomes(order[i]));
      }
      assert order[..|order|] == order;
    }

    /**
     * handleExtensionRequest: the three built-in request types are answered from the
     * cluster service and the captured environment settings; any other type is refused.
     */
    function HandleExtensionRequest(requestType: RequestType): (r: Result<TransportResponse, RequestError>)
      reads this
      ensures r.Success? ==> Answers(requestType, r.value)
      ensures r == Failure(HandlerNotPresent) <==> !IsBuiltIn(requestType)
      ensures requestType == EnvironmentSettingsRequest ==> r == Success(EnvironmentSettingsResponse(environmentSettings))
      ensures IsBuiltIn(requestType) && requestType != EnvironmentSettingsRequest ==>
        (r.Success? <==> clusterService.Some?)
      ensures requestType == ClusterStateRequest && clusterService.Some? ==>
        r == Success(ClusterStateResponse(clusterService.value.clusterName, clusterService.value.state, false))
      ensures requestType == ClusterSettingsRequest && clusterService.Some? ==>
        r == Success(ClusterSettingsResponse(clusterService.value))
    {
      match requestType
      case ClusterStateRequest =>
        (match clusterService
         case Some(cs) => Success(ClusterStateResponse(cs.clusterName, cs.state, false))
         case None => Failure(NullClusterService))
      case ClusterSettingsRequest =>
        (match clusterService
         case Some(cs) => Success(ClusterSettingsResponse(cs))
         case None => Failure(NullClusterService))
      case EnvironmentSettingsRequest =>
        Success(EnvironmentSettingsResponse(environmentSettings))
      case _ =>
        Failure(HandlerNotPresent)
    }

    /**
     * handleResponse of the index-module request; it may also run after the caller's
     * wait expired. A listener is added only when the reply asks for one.
     */
    method HandleIndicesModuleResponse(indexModule: IndexModule, extensionNode: ExtensionNode, indexEventListener: bool)
      modifies indexModule
      ensures indexModule.listeners == old(indexModule.listeners) + ListenerStep(extensionNode, Reply(indexEventListener), indexModule.index)
    {
      if indexEventListener {
        indexModule.listeners := indexModule.listeners + [RemovalListener(extensionNode, indexModule.index)];
      }
    }

    /** onIndexModule for one extension: one request; a failure or timeout is logged. */
    method OnIndexModuleFor(indexModule: IndexModule, extensionNode: ExtensionNode, outcome: CallOutcome<bool>)
      returns (sent: OutboundRequest)
      modifies indexModule
      ensures sent == IndexModuleRequest(extensionNode, indexModule.index)
      ensures indexModule.listeners == old(indexModule.listeners) + ListenerStep(extensionNode, outcome, indexModule.index)
    {
      sent := IndexModuleRequest(extensionNode, indexModule.index);
      match outcome
      case Reply(indexEventListener) =>
        HandleIndicesModuleResponse(indexModule, extensionNode, indexEventListener);
      case TransportFailure =>
      case Timeout =>
    }

    /** onIndexModule: one request to every discovered extension, initialized or not. */
    method OnIndexModule(indexModule: IndexModule, order: seq<string>, outcomes: string -> CallOutcome<bool>)
      returns (sent: seq<OutboundRequest>)
      requires Valid() && IsIterationOrder(extensionIdMap, order)
      modifies indexModule
      ensures sent == IndexModuleRequests(extensionIdMap, order, indexModule.index)
      ensures indexModule.listeners == old(indexModule.listeners) + ListenersAdded(extensionIdMap, order, outcomes, indexModule.index)
    {
      sent := [];
      for i := 0 to |order|
        invariant sent == IndexModuleRequests(extensionIdMap, order[..i], indexModule.index)
        invariant indexModule.listeners == old(indexModule.listeners) + ListenersAdded(extensionIdMap, order[..i], outcomes, indexModule.index)
      {
        assert order[..i + 1][..i] == order[..i];
        var request := OnIndexModuleFor(indexModule, extensionIdMap[order[i]], outcomes(order[i]));
        sent := sent + [request];
      }
      assert order[..|order|] == order;
    }

    /**
     * beforeIndexRemoved of a registered listener: the notice is sent whatever the
     * acknowledgement's outcome, which is only logged.
     */
    method BeforeIndexRemoved(listener: RemovalListener, ack: CallOutcome<bool>) returns (sent: OutboundRequest)
      ensures sent == RemovalNotice(listener)
    {
      sent := RemovalNotice(listener);
    }
  }
}
