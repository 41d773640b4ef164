# OpenSearch extensions manager and PeersRequest, in Dafny

This project models two parts of an OpenSearch node:

- **The extensions manager** (`ExtensionsManager.java`). This is the object that:
  - discovers the extensions configured in `extensions.yml` and loads each one into a registry (`extensionIdMap`, from uniqueId to the discovered node);
  - shakes hands with every registered extension, appending those that reply to the list of initialized extensions (`extensions`);
  - answers the three built-in requests an extension can make (cluster state, cluster settings, environment settings);
  - on every new index module, asks every registered extension whether it wants to hear about index removal, and registers a removal listener for those that say yes.
- **The discovery message `PeersRequest`** (`PeersRequest.java`). It carries a source node and the peers that node knows. The model covers its constructor invariant, its wire form, its equality and its hash code.

Modules:

- `Wrappers`: `Option` and `Result`.
- `Extensions`: the entities as values, plus the specification functions that say what each step of the manager does. This holds the lemmas about discovery, the handshake and the fan-out over the registry.
- `ExtensionsManagerState`: the class `ExtensionsManager`. Its fields are updated in place, as in the source: the registry map, the initialized list, the cluster service and the environment settings. Each method is proved against the specification functions of `Extensions`. The loops carry invariants that tie the state after `i` steps to the specification applied to the first `i` entries.
- `Discovery`: `PeersRequest`. It is generic over the node type, with an abstract codec for nodes and one for list sizes.

How the environment is represented:

- **Transport calls are outcomes.** Each outbound call is one value: `Reply(response)`, `TransportFailure` (connecting or sending threw, or `handleException` ran) or `Timeout` (nothing arrived within `ExtensionRequestWaitTimeout`, 10 seconds).
- **Late replies.** The two response handlers are methods of their own (`HandleInitializeResponse`, `HandleIndicesModuleResponse`). A reply that arrives after the wait has expired is one more call to the handler, and it appends just as a timely one does.
- **HashMap iteration order is an input.** The order in which `extensionIdMap.values()` yields entries is the parameter `order`. `IsIterationOrder` requires it to list every key exactly once.
- **Library calls are oracles.** `InetAddress.getByName` and `Version.fromString` are the two functions of `Library`.
- **`Integer.parseInt` is modelled concretely.** It accepts an optional sign, then ASCII digits, and the value must fit in 32 bits.

Behaviours of the code worth noting:

- **The index-module fan-out** goes to every *discovered* extension, initialized or not (`ExtensionsManager.java:426`).
- **Handshake replies are matched by name, not by id** (`ExtensionsManager.java:365`). So two registered extensions that share a name make the first one appear twice in the list of initialized extensions, and the second one never (`SharedNameAppendsFirstTwice`).
- **Extensions have no "failed" or "initializing" state.** A failed handshake leaves no trace except a log line.
- **Host resolution and the port range can abort discovery.** A failure of `InetAddress.getByName` (`UnknownHostException`) and a port outside 0..65535 (refused by the `InetSocketAddress` that `new TransportAddress` builds) also abort the discovery pass, like a malformed port or version. All four are thrown out of `loadExtension` and `discover`.
- **The environment-settings action name is spelled as in the code**: `"internal:discovery/enviornmentsettings"`.
- **The `PeersRequest` invariant is only a Java `assert`.** It is checked only when assertions are enabled. It is modelled as the precondition of the public constructor. The stream constructor does not check it, and `StreamConstructorAcceptsSourceAmongPeers` shows that such a request goes through the wire unchanged.

## Model

| member | source | states |
|---|---|---|
| Extensions.ActionNames | server/src/main/java/org/opensearch/extensions/ExtensionsManager.java:74-88 | the fifteen action names of the manager are pairwise distinct; the handshake, index-module and index-name actions are among them |
| Extensions.ParseInt | server/src/main/java/org/opensearch/extensions/ExtensionsManager.java:319 | a parsed port is a 32-bit value, and it was written as an optional sign followed by at least one digit |
| Extensions.ParseIntOfDecimal | server/src/main/java/org/opensearch/extensions/ExtensionsManager.java:319 | every value in 0..2^31-1 written in decimal is parsed back to itself, unsigned and with '+'; every magnitude up to 2^31 with '-' is parsed back to its negation, down to Integer.MIN_VALUE |
| Extensions.DigitsValueOfDecimal | server/src/main/java/org/opensearch/extensions/ExtensionsManager.java:319 | the digits of a number's decimal form denote that number |
| Extensions.BuildNode | server/src/main/java/org/opensearch/extensions/ExtensionsManager.java:312-333 | the node is built exactly when the host resolves, the port parses and lies in 0..65535, and the version parses; its id and ephemeral id are the uniqueId, and its address carries the parsed port; an unresolvable host is reported first |
| Extensions.ParseBoolean | server/src/main/java/org/opensearch/extensions/ExtensionsManager.java:330 | the flag is true exactly when the text, lower-cased, is "true" (checked against the independent `ToLowerAscii`) |
| Extensions.ToLowerAscii | server/src/main/java/org/opensearch/extensions/ExtensionsManager.java:330 | reference definition with no contract of its own (ASCII capitals lowered, every other character kept); ParseBoolean's ensures is stated against it |
| Extensions.LoadStep | server/src/main/java/org/opensearch/extensions/ExtensionsManager.java:307-340 | a known uniqueId leaves the registry unchanged with no error; otherwise it fails exactly when the node cannot be built, leaving the registry unchanged, or adds exactly that key bound to the built node; existing entries are never changed, and keys stay the ids of their nodes |
| Extensions.LoadAll | server/src/main/java/org/opensearch/extensions/ExtensionsManager.java:292-294 | the for-loop of discover, with no contract of its own; it is specified by LoadAllKeeps, LoadAllKeys, LoadAllLoaded, LoadAllAborted and LoadAllSucceedsIff, and Discover's loop is proved against it |
| Extensions.LoadAllKeeps | server/src/main/java/org/opensearch/extensions/ExtensionsManager.java:292-294 | a pass over the configured list never changes or drops an existing entry, and it keeps every key the id of its node |
| Extensions.LoadAllKeys | server/src/main/java/org/opensearch/extensions/ExtensionsManager.java:292-294 | after a pass that raised nothing, the registry keys are the old keys plus exactly the uniqueIds of the list |
| Extensions.LoadAllLoaded | server/src/main/java/org/opensearch/extensions/ExtensionsManager.java:308-334 | after a pass that raised nothing, each uniqueId seen for the first time is bound to the node built from its first occurrence (the first occurrence wins) |
| Extensions.LoadAllAborted | server/src/main/java/org/opensearch/extensions/ExtensionsManager.java:336-338 | a pass that raised stopped at a first-seen entry whose node could not be built, with that entry's exception; the registry holds what the entries before it loaded and nothing from later entries |
| Extensions.LoadAllSucceedsIff | server/src/main/java/org/opensearch/extensions/ExtensionsManager.java:312-338 | a pass raises nothing exactly when every first-seen new entry builds a node |
| Extensions.DiscoverResult | server/src/main/java/org/opensearch/extensions/ExtensionsManager.java:279-301 | without an accessible directory or without the file the registry is unchanged and no error is raised; an unreadable file raises ConfigUnreadable; whatever the source, existing entries are kept and keys stay the ids of their nodes |
| Extensions.DiscoveryFromEmptyRegistry | server/src/main/java/org/opensearch/extensions/ExtensionsManager.java:279-301 | without an accessible directory or without the file, discovery ends with an empty registry and no error; a listed configuration that loads registers exactly its distinct uniqueIds, each bound to the node of its first occurrence |
| Extensions.FirstNamed | server/src/main/java/org/opensearch/extensions/ExtensionsManager.java:364-370 | the value found is the first registry value in iteration order with the reply's name; nothing is found only when no registry value has that name |
| Extensions.HandshakeStep | server/src/main/java/org/opensearch/extensions/ExtensionsManager.java:363-378 | one handshake appends at most one node, only on a reply, and that node is a registry value whose name is the reply's name; a reply whose name is registered always appends |
| Extensions.Handshakes | server/src/main/java/org/opensearch/extensions/ExtensionsManager.java:345-349 | the handshakes append at most one node per extension, and only registry values |
| Extensions.NoReplyNoneInitialized | server/src/main/java/org/opensearch/extensions/ExtensionsManager.java:375-378 | when every handshake fails or times out, nothing is initialized |
| Extensions.HandshakesInitializeRepliers | server/src/main/java/org/opensearch/extensions/ExtensionsManager.java:345-372 | when names are distinct and each reply carries its extension's own name, the initialized list is exactly the extensions that replied, in iteration order |
| Extensions.SharedNameAppendsFirstTwice | server/src/main/java/org/opensearch/extensions/ExtensionsManager.java:364-369 | with two extensions sharing a name that both reply, the first in iteration order is appended twice and the second never |
| Extensions.IndexModuleRequest | server/src/main/java/org/opensearch/extensions/ExtensionsManager.java:519-524 | the index-module request goes to the extension's id under the index-module action and carries the index |
| Extensions.IndexModuleRequests | server/src/main/java/org/opensearch/extensions/ExtensionsManager.java:425-429 | the fan-out builds one request per registry entry |
| Extensions.ListenerStep | server/src/main/java/org/opensearch/extensions/ExtensionsManager.java:469-503 | one reply registers at most one listener, exactly when it is a reply with indexEventListener true, and that listener is for this extension and this index |
| Extensions.ListenersAdded | server/src/main/java/org/opensearch/extensions/ExtensionsManager.java:469-503 | the fan-out registers no more listeners than there are entries; which entries get one is stated by RemovalNoticesOnlyToInterested |
| Extensions.RemovalNotice | server/src/main/java/org/opensearch/extensions/ExtensionsManager.java:483-488 | the notice of a listener goes to its extension's id under the index-name action and carries the index |
| Extensions.RemovalNotices | server/src/main/java/org/opensearch/extensions/ExtensionsManager.java:474-498 | removing the index sends one notice per registered listener |
| Extensions.StepNotices | server/src/main/java/org/opensearch/extensions/ExtensionsManager.java:471-490 | the listener one reply registers yields exactly one index-name notice, to that extension, and only when the reply asked for it |
| Extensions.FanOutReachesEveryEntry | server/src/main/java/org/opensearch/extensions/ExtensionsManager.java:425-429 | the fan-out sends exactly one index-module request to each registered extension, initialized or not, and none to any other id |
| Extensions.RemovalNoticesOnlyToInterested | server/src/main/java/org/opensearch/extensions/ExtensionsManager.java:469-503 | index-removal notices go exactly once to each extension whose reply asked for a listener, and never to one that failed, timed out or declined |
| ExtensionsManagerState.IndexModule.constructor | server/src/main/java/org/opensearch/extensions/ExtensionsManager.java:431-472 | the part of the index module the fan-out touches: its index, and no listeners yet |
| ExtensionsManagerState.ExtensionsManager.constructor | server/src/main/java/org/opensearch/extensions/ExtensionsManager.java:142-153 | the manager starts with an empty registry, an empty initialized list, and no services or environment settings |
| ExtensionsManagerState.ExtensionsManager.InitializeServicesAndRestHandler | server/src/main/java/org/opensearch/extensions/ExtensionsManager.java:171-192 | the cluster service and the environment settings are captured, the registry and the initialized list are untouched, and from then on an environment-settings request is answered with exactly the captured settings |
| ExtensionsManagerState.ExtensionsManager.LoadExtension | server/src/main/java/org/opensearch/extensions/ExtensionsManager.java:307-340 | the new registry and the exception are those of one loading step on the old registry; nothing else changes |
| ExtensionsManagerState.ExtensionsManager.Discover | server/src/main/java/org/opensearch/extensions/ExtensionsManager.java:279-301 | the new registry and the exception are those of the discovery specification on the old registry; the loop stops at the first exception; nothing else changes |
| ExtensionsManagerState.ExtensionsManager.LoadAllErrorSticks | server/src/main/java/org/opensearch/extensions/ExtensionsManager.java:336-338 | once a prefix of the list has raised, the whole pass has that prefix's result |
| ExtensionsManagerState.ExtensionsManager.HandleInitializeResponse | server/src/main/java/org/opensearch/extensions/ExtensionsManager.java:363-372 | a reply appends the first registry value with its name, in iteration order, and changes nothing else |
| ExtensionsManagerState.ExtensionsManager.InitializeExtension | server/src/main/java/org/opensearch/extensions/ExtensionsManager.java:351-403 | one handshake appends what the handshake step says; a failure or timeout appends nothing and does not escape |
| ExtensionsManagerState.ExtensionsManager.Initialize | server/src/main/java/org/opensearch/extensions/ExtensionsManager.java:345-349 | the list grows by the handshakes over every registry entry in iteration order, and afterwards still holds only registry values |
| ExtensionsManagerState.ExtensionsManager.HandleExtensionRequest | server/src/main/java/org/opensearch/extensions/ExtensionsManager.java:412-423 | each of the three built-in types gets a response of its own kind (cluster state with the service's name and state and waitForTimedOut false; cluster settings carrying the manager's own cluster service; the settings captured at service initialization); every other type is refused with "handler not present"; the cluster requests fail exactly while no cluster service is set; no field changes |
| ExtensionsManagerState.ExtensionsManager.HandleIndicesModuleResponse | server/src/main/java/org/opensearch/extensions/ExtensionsManager.java:469-503 | a reply adds a removal listener for the extension exactly when it asks for one |
| ExtensionsManagerState.ExtensionsManager.OnIndexModuleFor | server/src/main/java/org/opensearch/extensions/ExtensionsManager.java:431-535 | one index-module request is sent to the extension; a listener is added only for a reply that asks for one; a failure or timeout is swallowed |
| ExtensionsManagerState.ExtensionsManager.OnIndexModule | server/src/main/java/org/opensearch/extensions/ExtensionsManager.java:425-429 | the requests sent are one per registry entry in iteration order, and the listeners added are those the specification gives for the outcomes |
| ExtensionsManagerState.ExtensionsManager.BeforeIndexRemoved | server/src/main/java/org/opensearch/extensions/ExtensionsManager.java:474-498 | removing the index sends one index-name notice to the listener's extension, whatever becomes of the acknowledgement |
| Discovery.NewPeersRequest | server/src/main/java/org/opensearch/discovery/PeersRequest.java:53-57 | the caller must not list the source among the known peers; the getters return exactly the two arguments, and the invariant holds |
| Discovery.WriteTo | server/src/main/java/org/opensearch/discovery/PeersRequest.java:65-70 | writeTo, with no contract of its own: the source node, then the known-peers list; PeersRequestRoundTrip states that ReadFrom inverts it |
| Discovery.WriteList | server/src/main/java/org/opensearch/discovery/PeersRequest.java:65-70 | StreamOutput.writeList, with no contract of its own: the size, then each element; ReadListOfWritten states that ReadList inverts it |
| Discovery.ReadFrom | server/src/main/java/org/opensearch/discovery/PeersRequest.java:59-63 | the stream constructor, with no contract of its own: the source node, then the list, in writeTo's order; PeersRequestRoundTrip states that it inverts WriteTo |
| Discovery.ReadList | server/src/main/java/org/opensearch/discovery/PeersRequest.java:59-63 | StreamInput.readList, with no contract of its own: the size, then that many elements; ReadListOfWritten states that it inverts WriteList |
| Discovery.ReadListOfWritten | server/src/main/java/org/opensearch/discovery/PeersRequest.java:62-69 | reading a list back from what writeList wrote gives the same list and leaves what followed |
| Discovery.ReadElementsOfWritten | server/src/main/java/org/opensearch/discovery/PeersRequest.java:62-69 | reading n elements from what was written for n elements gives them back in order |
| Discovery.PeersRequestRoundTrip | server/src/main/java/org/opensearch/discovery/PeersRequest.java:59-70 | given round-tripping node and size codecs, the stream constructor reads back exactly the request writeTo wrote, and leaves the bytes after it |
| Discovery.StreamConstructorAcceptsSourceAmongPeers | server/src/main/java/org/opensearch/discovery/PeersRequest.java:59-63 | the stream constructor does not enforce the invariant: a request whose source is its own peer is read back unchanged |
| Discovery.Equals | server/src/main/java/org/opensearch/discovery/PeersRequest.java:85-91 | equals, with no contract of its own: equal source nodes and element-wise equal peer lists; EqualsIffSameFields and EqualsIsOrderSensitive state what it means |
| Discovery.EqualsIffSameFields | server/src/main/java/org/opensearch/discovery/PeersRequest.java:85-91 | equals holds exactly when the source nodes and the peer lists are equal, that is, when the requests are the same value |
| Discovery.EqualsIsOrderSensitive | server/src/main/java/org/opensearch/discovery/PeersRequest.java:85-91 | the same two peers listed in the other order make the requests unequal |
| Discovery.Wrap32 | server/src/main/java/org/opensearch/discovery/PeersRequest.java:93-96 | Java int arithmetic: the result is in the 32-bit range and congruent to the exact value modulo 2^32 |
| Discovery.ListHashCode | server/src/main/java/org/opensearch/discovery/PeersRequest.java:93-96 | List.hashCode: 1 for the empty list, and always a 32-bit value |
| Discovery.HashCode | server/src/main/java/org/opensearch/discovery/PeersRequest.java:93-96 | the hash code is a 32-bit value |
| Discovery.EqualRequestsHaveEqualHashCodes | server/src/main/java/org/opensearch/discovery/PeersRequest.java:93-96 | equal requests have equal hash codes |

## Left out

- Reading `extensions.yml` and the directory check. YAML parsing and `FileSystemUtils` are foreign I/O; the configuration is the input `ConfigSource`.
- Internals of `InetAddress.getByName` and `Version.fromString`. They are library code, modelled as the oracles of `Library`. `TransportAddress` is kept as the host string and the parsed port; of its construction only the socket address's port range check (0..65535) is modelled.
- BuildNode: `Integer.parseInt` is modelled for ASCII digits only. Java also accepts other Unicode decimal digits.
- The `PluginInfo` and `DiscoveryExtensionNode` constructors. They only store their arguments, so the model stores the fields as values.
- `TransportService` itself: connecting, sending, threads and the 10-second blocking wait on `CompletableFuture.get`. Each call is one outcome value, and the wait is the `Timeout` outcome.
- The removal acknowledgement future is reused. `onIndexModule(indexModule, extensionNode)` creates it once per call (`ExtensionsManager.java:434`), so only the listener registered for that extension on that index module uses it, and a second removal notice from that listener would wait on a future that is already complete. Because the acknowledgement is only logged, the model ignores it.
- The eight `registerRequestHandler` calls, and the handlers they delegate to: REST actions, custom settings, settings-update consumers and transport actions, including `handleTransportRequest`. Their code is not part of this model.
- The contents of `ClusterService`, `ClusterState` and `Settings`. They are opaque values taken from the caller.
- `handleExtensionRequest` on a null cluster service throws a `NullPointerException`. The model returns the error `NullClusterService` instead.
- The Java constructor runs `discover` itself and can throw. The model's constructor builds the empty state, and `Discover` is a separate method returning the exception as a value.
- The no-argument Java constructor, logging, the getters and setters of the manager, and `toString`. None of them has behaviour to prove.
- The wire encoding of `DiscoveryNode`, and of sizes in `StreamOutput`. Both are abstract codecs; the round-trip lemmas require each of them to round-trip.
- The parent-task fields that `PeersRequest` inherits from `TransportRequest`. They are not part of this model.
- Discovery.Equals: nodes are compared as values. `DiscoveryNode.equals` is not part of this model, and Java's reference-identity shortcut and the null and class checks of `equals` are subsumed by value equality.
- Discovery.HashCode: the node hash is a parameter. Null elements, which Java hashes as 0, are not modelled.
