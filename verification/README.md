# wg-kotlin in Dafny

A model of the hard parts of wg-kotlin, a WireGuard runtime whose Rust daemon owns TUN devices, routes and DNS and whose
Kotlin library owns peers, packet routing and sessions. `dafny verify dfyconfig.toml` checks the whole project.

- **macOS route journal.** `RoutingMessage`, `RouteSnapshot`, `RoutePath`, `RouteDump` and `RoutingReply` are the binary
  routing messages: printer, parser, identity, dump splitter and reply scan. `RouteJournal` is the undo log as a relation
  in which any request may fail with or without effect; `MacSession` is the object that refines it, up to
  `configure_session` with rollback. `RouteIdentity` and `RouteCoverage` say what keys, paths and TUN routes mean.
- **Endpoint egress.** `SessionRequests`, `EndpointEgress` and `MacSetup` for macOS, `RouteSetup` for Linux and Windows.
- **Session lifecycle.** `SessionProtocol` is the step machine of connections, session tasks, readers and `main`;
  `SessionRuns` holds the results over all runs, including drain and completion of every teardown; `TunSession` is the
  run-once cleanup hook. `SessionTraffic` accounts for every packet and response, `SessionDrain` shows that a drain completes.
- **Cryptokey routing.** `Cidr`, `AddressText`, `CryptokeyRouting` and `RouteList`.
- **Session reconciliation.** `Reconciliation` (states, runs) and `SessionManager` (the object); `EncryptedIngress` handles
  one datagram.
- **Smaller protocols.** `PipeConnection`, `Framing`, `InterfaceName`, `Domains`, `Hostnames`, `Validation`.
- `Bytes`, `Text`, `Sequences` and `Results` are shared basics.

Objects whose methods update fields are classes whose methods are proved against a function or relation on values; the
results over several calls are lemmas about those.

Assumptions, all visible in the contracts:

- The routing table holds at most one entry per key, keyed as `Snapshot::key` reads it. ADD on a present key and DELETE on
  an absent one have no effect. Requests are otherwise nondeterministic: a failing one may have been carried out. The
  `faults` fields count such failures, so that contracts can say what happens when there are none.
- A device comes up under the reserved name (`DeviceKeepsName`). `SessionRuns.ReleaseNeedsReservedName` shows that release
  needs exactly this.
- Teardown and drain complete if the tasks involved are scheduled and the operating-system calls they wait for return
  (`Fair`, `MainIsFair`), and a triggered interrupt stays triggered.
- A session factory, a peer session, the message codec and the pipe's kernel are function parameters with arbitrary
  behaviour; the codec is an inverse pair where a round trip is claimed, and the kernel never reports more bytes than asked.
- `rt_msghdr` has the 64-bit macOS layout: 92 bytes, little-endian, eight address slots.

Where a property does not hold without a condition, the condition is exact: `RoutePath.RequestKeepsPath`,
`RouteJournal.EditedRestore`, `RouteJournal.CooperativeRestore`, `RouteSetup.SetUpRoutes`,
`SessionRuns.ReleaseNeedsReservedName`, `RouteCoverage.TunKeyCovers`, `Domains.NormaliseTwice` and
`SessionManager.CryptoSessionManager.ReconcileSessions` state them as equivalences.
`SessionRequests.LinkSourceIsNotComparable`, `SessionRuns.RenamedDeviceLeaksName`, `Domains.SpaceAfterDot` and
`SessionManager.InactiveSessionStaysUnclosed` exhibit the failing cases; the last one is a failing reconciliation that leaves
a session unclosed because the factory returned it inactive.

## Model

| member | source | states |
|---|---|---|
| `RouteJournal.RequestFrame` | wg-kotlin-daemon-rust/daemon/src/platform/routes_macos.rs:87-109 | a request, answered or failed, changes at most the entry at its own key and keeps every entry under its own key |
| `RouteJournal.AddKeepsExplaining` | wg-kotlin-daemon-rust/daemon/src/platform/routes_macos.rs:31-48 | every `add`, failing at any point and with any request possibly carried out, leaves a journal that explains each difference from the table before the session |
| `RouteJournal.RunKeepsExplaining` | wg-kotlin-daemon-rust/daemon/src/platform/routes_macos.rs:23-48 | the same over any sequence of adds |
| `RouteJournal.ChangeOutcome` | wg-kotlin-daemon-rust/daemon/src/platform/routes_macos.rs:66-84 | undoing one change touches only its key; a foreign entry stays and is reported; an entry where the session added nothing stays; success leaves the backup's ADD message, nothing, or the untouched entry |
| `RouteJournal.RestoreSettlesEveryKey` | wg-kotlin-daemon-rust/daemon/src/platform/routes_macos.rs:54-84 | from any table, edited by others or not, and with any faults: a foreign entry where the session tried to add is never deleted or overwritten and is reported; an entry where it never tried is kept and is no error; every change that meets no fault is undone exactly when its entry is not foreign and can be sent, whatever happens at the other keys; keys outside the journal are untouched |
| `RouteIdentity.ForeignIff` | wg-kotlin-daemon-rust/daemon/src/platform/routes_macos.rs:66-73 | where the session added, an entry counts as foreign exactly when interface, kind, gateway or source of the two parsed routes differ |
| `RouteJournal.EditedRestore` | wg-kotlin-daemon-rust/daemon/src/platform/routes_macos.rs:54-84 | with any outside edits a fault-free restore succeeds at exactly the keys where the entry to be removed is the session's and can be sent; it leaves the outcome there and everything else as it is |
| `RouteJournal.AddKeepsJournal` | wg-kotlin-daemon-rust/daemon/src/platform/routes_macos.rs:31-48 | an add keeps the journal well formed in any table |
| `RouteJournal.RestoreAfterEdits` | wg-kotlin-daemon-rust/daemon/src/platform/routes_macos.rs:31-84 | for adds interleaved with arbitrary outside edits, the restore settles every journaled key on its own |
| `RouteJournal.RestoreUndoes` | wg-kotlin-daemon-rust/daemon/src/platform/routes_macos.rs:54-84 | with an explaining journal, a restore without errors gives back every key: absent, byte-identical, or recreated from the displaced snapshot |
| `RouteJournal.RestoreUndoesEveryRun` | wg-kotlin-daemon-rust/daemon/src/platform/routes_macos.rs:31-84 | the same for every initial table, every sequence of adds and every failure among them |
| `RouteJournal.RestoreAllIsPossible` | wg-kotlin-daemon-rust/daemon/src/platform/routes_macos.rs:54-84 | the fault-free restore is one of the restores covered by the relation |
| `RouteJournal.UnderwayIsRestorable` | wg-kotlin-daemon-rust/daemon/src/platform/routes_macos.rs:66-84 | without an outside edit a change can be undone if and only if its route is not in the table or has a path that can be compared |
| `RouteJournal.CooperativeRestore` | wg-kotlin-daemon-rust/daemon/src/platform/routes_macos.rs:54-84 | without faults a restore succeeds at every key that nobody edited, exactly when the session's route there can be recognised, whatever was edited at other keys |
| `MacSession.KernelRoutes.Find` | wg-kotlin-daemon-rust/daemon/src/platform/routes_macos.rs:95-104 | the entry at a key, or an error counted as a fault |
| `MacSession.KernelRoutes.Request` | wg-kotlin-daemon-rust/daemon/src/platform/routes_macos.rs:106-108 | one request: ADD needs an absent key, DELETE a present one, an error may hide an effect; without a fault it is done exactly when it is possible |
| `MacSession.SessionRoutes.Add` | wg-kotlin-daemon-rust/daemon/src/platform/routes_macos.rs:31-48 | refines the add relation, so the backup is journaled before the delete; without a fault it succeeds exactly when route and displaced entry can be sent |
| `MacSession.SessionRoutes.Install` | wg-kotlin-daemon-rust/daemon/src/platform/routes_macos.rs:23-29 | adds the requests in order, stops at the first failure, and without a fault stops only at a request that cannot be built or added |
| `MacSession.SessionRoutes.Restore` | wg-kotlin-daemon-rust/daemon/src/platform/routes_macos.rs:66-84 | refines the undo relation; without a fault table and result are determined |
| `MacSession.SessionRoutes.RestoreWith` | wg-kotlin-daemon-rust/daemon/src/platform/routes_macos.rs:54-62 | empties the journal, undoes all changes in reverse, reports exactly the failures; a fault troubles one change at most and the others are undone as without faults; a second call does nothing |
| `MacSession.FaultlessRestore` | wg-kotlin-daemon-rust/daemon/src/platform/routes_macos.rs:54-84 | a fault-free restore of an explaining journal reports success if and only if all its routes can be recognised |
| `MacSession.Cleanup` | wg-kotlin-daemon-rust/daemon/src/platform/macos.rs:25-32 | routes and DNS are both cleaned up, and success means both were |
| `MacSession.ConfigureSession` | wg-kotlin-daemon-rust/daemon/src/platform/macos.rs:7-40 | any route or DNS failure is followed by a cleanup whose success means the table is as before and no resolver is left; success leaves a journal that explains the table; without faults it fails only on a blocked request and the cleanup then succeeds exactly when the session's routes can be recognised |
| `RoutingMessage.Append` | wg-kotlin-daemon-rust/daemon/src/platform/endpoint_macos.rs:137-141 | an address is followed by zeros up to the next multiple of four, at least four |
| `RoutingMessage.DecodedAreWellFormed` | wg-kotlin-daemon-rust/daemon/src/platform/endpoint_macos.rs:151-167 | parsed slots are sized by their own first byte and present exactly where the bit mask says |
| `RoutingMessage.DecodeEncode` | wg-kotlin-daemon-rust/daemon/src/platform/endpoint_macos.rs:137-167 | reading back any well-formed slots returns them, whatever follows |
| `RoutingMessage.PresentRoundTrip` | wg-kotlin-daemon-rust/daemon/src/platform/routes_macos.rs:173-179 | the accumulated `rtm_addrs` bits read back as the presence of the eight slots |
| `RouteSnapshot.ReadAddresses` | wg-kotlin-daemon-rust/daemon/src/platform/endpoint_macos.rs:151-167 | the offset loop computes the recursive decoding, including its two errors |
| `RouteSnapshot.AppendSlots` | wg-kotlin-daemon-rust/daemon/src/platform/routes_macos.rs:172-179 | the slot loop appends the encoding of all slots and collects their bits |
| `RouteSnapshot.WriteHeader` | wg-kotlin-daemon-rust/daemon/src/platform/routes_macos.rs:180-193 | the header writes, in order, give the request header |
| `RouteSnapshot.BuildMessage` | wg-kotlin-daemon-rust/daemon/src/platform/routes_macos.rs:162-195 | `message` as it is written step by step is the specified request, including its errors |
| `RoutePath.MessageFields` | wg-kotlin-daemon-rust/daemon/src/platform/routes_macos.rs:162-195 | a request has its own length, the same interface, version, sequence fields and metrics, flags without status bits, and all slots but IFP |
| `RoutePath.MessageControls` | wg-kotlin-daemon-rust/daemon/src/platform/routes_macos.rs:180-193 | no error code, no presence bits above the eighth, metric bits in an ADD only |
| `RoutePath.RequestFlags` | wg-kotlin-daemon-rust/daemon/src/platform/routes_macos.rs:184 | a request has none of the four status flags and all other flags of its route |
| `RoutingMessage.WordIsLittleEndian` | wg-kotlin-daemon-rust/daemon/src/platform/endpoint_macos.rs:22-28 | header words are little-endian |
| `RoutingMessage.LengthIsLittleEndian` | wg-kotlin-daemon-rust/daemon/src/platform/endpoint_macos.rs:203 | message lengths are little-endian |
| `RoutePath.RequestRoundTrip` | wg-kotlin-daemon-rust/daemon/src/platform/routes_macos.rs:162-195 | encoding a parsed route and parsing again changes no address but IFP and no flag but status |
| `RoutePath.RequestKeepsKey` | wg-kotlin-daemon-rust/daemon/src/platform/routes_macos.rs:124-195 | a request addresses the table entry of the route it was made from; KeyMeaning says which that is |
| `RoutePath.RequestOfRequest` | wg-kotlin-daemon-rust/daemon/src/platform/routes_macos.rs:162-195 | re-encoding is idempotent for every pair of operations |
| `RoutePath.RequestKeepsPath` | wg-kotlin-daemon-rust/daemon/src/platform/routes_macos.rs:139-195 | a request has the path of its original, in the sense of SamePathIff, if and only if gateway and source are of comparable families |
| `RouteIdentity.SamePathIff` | wg-kotlin-daemon-rust/daemon/src/platform/routes_macos.rs:139-160 | `same_path` says yes exactly for one key, one interface, the same gateway, reject and blackhole flags, agreeing gateways (none, both links, or one IP address) and an agreeing source, zones aside |
| `RouteIdentity.ZoneFreeIff` | wg-kotlin-daemon-rust/daemon/src/platform/routes_macos.rs:198-214 | clearing zones identifies two addresses exactly when they differ at most in bytes 2 and 3 and are both in fe80::/10 |
| `RouteIdentity.KeyMeaning` | wg-kotlin-daemon-rust/daemon/src/platform/routes_macos.rs:124-137 | bit by bit: the key's mask is the netmask, or all ones for a host route, its destination keeps the significant bits, it is scoped exactly by RTF_IFSCOPE, and it can be read exactly for IP destinations |
| `RouteCoverage.KeyCovers` | wg-kotlin-daemon-rust/daemon/src/platform/routes_macos.rs:124-137 | a key matches an address exactly when the route is unscoped, of its family, and agrees with it on the bits of the netmask |
| `RouteDump.MessageAt` | wg-kotlin-daemon-rust/daemon/src/platform/routes_macos.rs:269-278 | the checks on the message at one offset |
| `RouteDump.SplitDump` | wg-kotlin-daemon-rust/daemon/src/platform/routes_macos.rs:266-287 | the offset loop computes the recursive split |
| `RouteDump.SplitConcat` | wg-kotlin-daemon-rust/daemon/src/platform/routes_macos.rs:266-287 | a concatenation of well-formed messages gives exactly its IPv4 and IPv6 messages in order |
| `RouteDump.SplitSound` | wg-kotlin-daemon-rust/daemon/src/platform/routes_macos.rs:266-287 | every successful split comes from such a decomposition |
| `RouteDump.InternetIffKeyed` | wg-kotlin-daemon-rust/daemon/src/platform/routes_macos.rs:279-284 | a dump keeps exactly the routes that can be keyed |
| `RouteDump.RequestsAreWellFormed` | wg-kotlin-daemon-rust/daemon/src/platform/routes_macos.rs:162-195 | a request of the expected version can itself appear in a dump |
| `RoutingReply.ScanRead` | wg-kotlin-daemon-rust/daemon/src/platform/endpoint_macos.rs:198-221 | the scan of one read computes the recursive scan |
| `RoutingReply.ReplyIsFound` | wg-kotlin-daemon-rust/daemon/src/platform/endpoint_macos.rs:198-221 | behind any number of notifications and foreign replies our reply, or its error code, is found, whatever follows |
| `RoutingReply.NothingFound` | wg-kotlin-daemon-rust/daemon/src/platform/endpoint_macos.rs:198-221 | unrelated messages alone are no answer |
| `RoutingReply.AnswerIsOurs` | wg-kotlin-daemon-rust/daemon/src/platform/endpoint_macos.rs:198-221 | every answer is a message with our type, process and sequence behind unrelated ones only |
| `RoutingReply.Await` | wg-kotlin-daemon-rust/daemon/src/platform/endpoint_macos.rs:188-222 | a reply is returned exactly when the first deciding read holds one without error |
| `RoutingReply.EchoIsOurs` | wg-kotlin-daemon-rust/daemon/src/platform/endpoint_macos.rs:169-174 | stamping changes two fields only, and a message is ours exactly when it has the request's type and echoes both |
| `RoutingReply.Exchange` | wg-kotlin-daemon-rust/daemon/src/platform/endpoint_macos.rs:169-223 | a returned reply has the type, process and sequence of what was sent and no error; one is returned exactly when the first deciding read holds it |
| `SessionRequests.IpAddressBytes` | wg-kotlin-daemon-rust/daemon/src/platform/endpoint_macos.rs:110-127 | the address bytes of a socket address are those it was made from |
| `SessionRequests.BuildEndpointMessage` | wg-kotlin-daemon-rust/daemon/src/platform/endpoint_macos.rs:55-107 | bits, payload and header written step by step give the specified ADD message, or it is too long |
| `SessionRequests.EndpointBits` | wg-kotlin-daemon-rust/daemon/src/platform/endpoint_macos.rs:57-80 | the literal presence bits and flags are those of the slots and of the resolved route |
| `SessionRequests.EndpointPayload` | wg-kotlin-daemon-rust/daemon/src/platform/endpoint_macos.rs:56-81 | the payload grown address by address is the encoding of the slots |
| `SessionRequests.EndpointHeader` | wg-kotlin-daemon-rust/daemon/src/platform/endpoint_macos.rs:84-104 | the header written field by field, with its metrics, is the specified one |
| `SessionRequests.WriteMetrics` | wg-kotlin-daemon-rust/daemon/src/platform/endpoint_macos.rs:91-104 | the metric loop writes the values that are set and collects their bits |
| `SessionRequests.BuildTunRoute` | wg-kotlin-daemon-rust/daemon/src/platform/routes_macos.rs:223-248 | the TUN route built in place, addresses before header fields, is the specified one, whose meaning TunRouteKey states |
| `SessionRequests.WriteTunHeader` | wg-kotlin-daemon-rust/daemon/src/platform/routes_macos.rs:241-246 | the header fields in the order they are written, with the literal presence bits, give the specified header |
| `SessionRequests.EndpointParses` | wg-kotlin-daemon-rust/daemon/src/platform/endpoint_macos.rs:55-107 | an endpoint message parses back to its interface, flags and slots |
| `SessionRequests.TunParses` | wg-kotlin-daemon-rust/daemon/src/platform/routes_macos.rs:223-248 | a TUN route parses back to its interface, flags and slots; TunRouteKey ties them to the block |
| `RouteCoverage.TunRouteKey` | wg-kotlin-daemon-rust/daemon/src/platform/routes_macos.rs:223-248 | the TUN route of a block is keyed by its network, its netmask and its host flag, unscoped |
| `RouteCoverage.TunFlagsHost` | wg-kotlin-daemon-rust/daemon/src/platform/routes_macos.rs:245-246 | it is up, static and direct, and a host route exactly for a full prefix |
| `RouteCoverage.TunKeyCovers` | wg-kotlin-daemon-rust/daemon/src/platform/routes_macos.rs:231-240 | its key matches exactly the destinations its block matches, zones aside |
| `RouteCoverage.TunKeyCoversBlock` | wg-kotlin-daemon-rust/daemon/src/platform/routes_macos.rs:231-240 | and exactly those of the block itself unless it is link-local with a prefix longer than sixteen bits |
| `RouteCoverage.TunKeysDiffer` | wg-kotlin-daemon-rust/daemon/src/platform/routes_macos.rs:32-35 | two TUN routes share a table entry exactly when their blocks cover the same destinations, zones aside |
| `SessionRequests.EndpointKey` | wg-kotlin-daemon-rust/daemon/src/platform/endpoint_macos.rs:55-107 | an endpoint message is keyed as the unscoped host route to the endpoint |
| `SessionRequests.TunIsComparable` | wg-kotlin-daemon-rust/daemon/src/platform/routes_macos.rs:139-160 | a TUN route can always be recognised again |
| `SessionRequests.EndpointIsComparable` | wg-kotlin-daemon-rust/daemon/src/platform/routes_macos.rs:139-160 | an endpoint's route can be recognised exactly when its source is an IP address or absent |
| `SessionRequests.LinkSourceIsNotComparable` | wg-kotlin-daemon-rust/daemon/src/platform/routes_macos.rs:216-221 | a link-address source is a case where they cannot |
| `EndpointEgress.ReplyHasResolvedEgress` | wg-kotlin-daemon-rust/daemon/src/platform/endpoint_macos.rs:32-53 | the resolved egress is that of the kernel's reply; a gateway that is not an IP address becomes a link address on the same interface |
| `EndpointEgress.EndpointRequestHasEgress` | wg-kotlin-daemon-rust/daemon/src/platform/endpoint_macos.rs:55-107 | the installed host route has the resolved interface, gateway, directness and source |
| `EndpointEgress.ResolvedCanBeSent` | wg-kotlin-daemon-rust/daemon/src/platform/endpoint_macos.rs:55-107 | a resolved endpoint's request can always be sent; it is an up, static host route that names its interface and has a full netmask |
| `EndpointEgress.MetricsAreCarried` | wg-kotlin-daemon-rust/daemon/src/platform/endpoint_macos.rs:44-104 | MTU and hop count of the reply are those of the request, with the bit of each exactly when it is set, and survive re-encoding |
| `EndpointEgress.HostRouteWins` | wg-kotlin-daemon-rust/daemon/src/platform/routes_macos.rs:111-137 | a longest-prefix lookup selects the unscoped host route, and only it |
| `EndpointEgress.AddEffect` | wg-kotlin-daemon-rust/daemon/src/platform/routes_macos.rs:31-48 | a successful add writes its key if it is new to the journal and changes nothing otherwise |
| `EndpointEgress.FirstWriterWins` | wg-kotlin-daemon-rust/daemon/src/platform/routes_macos.rs:23-48 | after successful adds every requested key holds the entry of its first request |
| `EndpointEgress.EndpointsKeepTheirEgress` | wg-kotlin-daemon-rust/daemon/src/platform/routes_macos.rs:23-48 | a lookup of an endpoint's address gives the egress resolved for it, for every list of routes behind the endpoints |
| `MacSetup.RequestsInOrder` | wg-kotlin-daemon-rust/daemon/src/platform/routes_macos.rs:23-29 | `install` puts the endpoint routes before the TUN routes |
| `MacSetup.CompleteInstall` | wg-kotlin-daemon-rust/daemon/src/platform/routes_macos.rs:23-48 | after a complete install every endpoint keeps its egress, and the table entry for the network of every TUN route leads into the tunnel's interface unless it is an endpoint's |
| `MacSetup.KeptIsNoEndpoint` | wg-kotlin-daemon-rust/daemon/src/platform/mod.rs:268-275 | a route kept by the filter is an endpoint's only through a link-local zone |
| `MacSetup.TunRequestLeadsIn` | wg-kotlin-daemon-rust/daemon/src/platform/routes_macos.rs:223-248 | the entry a TUN request installs is on the tunnel's interface |
| `MacSetup.JournalIsRemovable` | wg-kotlin-daemon-rust/daemon/src/platform/routes_macos.rs:23-48 | if the resolved sources are IP addresses every journaled route can be recognised again |
| `MacSetup.ConfigureFrom` | wg-kotlin-daemon-rust/daemon/src/platform/macos.rs:7-40 | the same for `configure_session` on any allowed IPs, without exception where zones do not matter; a failure is rolled back as in ConfigureSession, and without faults the cleanup succeeds exactly when the session's routes can be recognised, in particular whenever the endpoints' sources are IP addresses |
| `RouteSetup.FilterDropsOnlyEndpointHosts` | wg-kotlin-daemon-rust/daemon/src/platform/mod.rs:268-275 | the filter drops exactly the host routes to endpoints |
| `RouteSetup.KeptRoutesAvoidHosts` | wg-kotlin-daemon-rust/daemon/src/platform/mod.rs:268-275 | no kept route has the table key of an endpoint's host route |
| `RouteSetup.HostRouteWins` | wg-kotlin-daemon-rust/daemon/src/platform/mod.rs:281-290 | a longest-prefix lookup selects the host route, and only it |
| `RouteSetup.AddRoutesWithPredelete` | wg-kotlin-daemon-rust/daemon/src/platform/mod.rs:281-290 | success puts every endpoint on its own egress and every kept route on the tunnel; only a fault makes it fail; other entries are untouched |
| `RouteSetup.AddKept` | wg-kotlin-daemon-rust/daemon/src/platform/mod.rs:285-288 | the deletes and adds keep the endpoint routes in place |
| `RouteSetup.EndpointsKeepTheirEgress` | wg-kotlin-daemon-rust/daemon/src/platform/mod.rs:243-290 | a lookup of an endpoint's address then has one answer, its egress, for every list of allowed IPs |
| `RouteSetup.DeleteAll` | wg-kotlin-daemon-rust/daemon/src/platform/mod.rs:311-319 | every deletion is tried; without a fault none of the routes is left, and success is reported exactly when they were all installed and different |
| `RouteSetup.CleanupRoutes` | wg-kotlin-daemon-rust/daemon/src/platform/mod.rs:293-326 | without faults success exactly when the manager opens, DNS is torn down and all routes were installed and different; after success, or without faults, no session route is left; endpoint routes are removed even if the manager does not open |
| `RouteSetup.InstalledUnlessRepeated` | wg-kotlin-daemon-rust/daemon/src/platform/mod.rs:281-326 | after a successful setup a cleanup can succeed exactly when no route is listed twice |
| `RouteSetup.SetUpRoutes` | wg-kotlin-daemon-rust/daemon/src/platform/mod.rs:281-346 | setup and `into_cleanup_hook`: without faults only DNS makes setup fail, no session route is left when the manager opens, and the cleanup succeeds exactly when no route is listed twice; other entries are untouched |
| `SessionProtocol.MoveStaysConsistent` | wg-kotlin-daemon-rust/daemon/src/server.rs:108-211 | each step of a session keeps what its phase says about reader, stop signal, interrupt, hook and queue |
| `SessionProtocol.MoveFreesOwnName` | wg-kotlin-daemon-rust/daemon/src/server.rs:268-293 | only a release ends a hold, and it frees the session's own name |
| `SessionProtocol.DropName` | wg-kotlin-daemon-rust/daemon/src/server.rs:210 | a release takes exactly the session's own name out of the held names and leaves the others with one owner each |
| `SessionProtocol.ReserveKeepsInvariant` | wg-kotlin-daemon-rust/daemon/src/server.rs:239-250 | a reservation keeps names exact and owned once, at most sixteen |
| `SessionProtocol.StepKeepsInvariant` | wg-kotlin-daemon-rust/daemon/src/server.rs:23-297 | every step of every task keeps the invariant |
| `SessionProtocol.ActiveSessions.Reserve` | wg-kotlin-daemon-rust/daemon/src/server.rs:239-250 | inserts exactly when the name is free and fewer than sixteen are active; otherwise says which and changes nothing |
| `SessionRuns.EveryStateIsInvariant` | wg-kotlin-daemon-rust/daemon/src/server.rs:23-297 | the invariant holds in every state of every run |
| `SessionRuns.ReservationsAreExact` | wg-kotlin-daemon-rust/daemon/src/server.rs:239-293 | in every reachable state the active set is exactly the names between reservation and release, one owner each, at most sixteen |
| `SessionRuns.ReleasedOnlyAfterTeardown` | wg-kotlin-daemon-rust/daemon/src/server.rs:188-210 | a released session never started, or its hook ran exactly once and its reader was joined |
| `SessionRuns.ReleaseNeedsReservedName` | wg-kotlin-daemon-rust/daemon/src/server.rs:116-210 | the active set stays exact at a release if and only if the device kept the reserved name |
| `SessionRuns.RenamedDeviceLeaksName` | wg-kotlin-daemon-rust/daemon/src/server.rs:116-210 | for every pair of different names there is a run whose device comes up under the other name and whose reserved name stays active without an owner |
| `SessionRuns.NoReservationAfterJoin` | wg-kotlin-daemon-rust/daemon/src/main.rs:95-106 | once all connections are joined no step can insert a reservation |
| `SessionRuns.DrainedMeansDone` | wg-kotlin-daemon-rust/daemon/src/main.rs:95-106 | `sessions_drained=true` means nobody holds a name and every started session was closed once and joined |
| `SessionRuns.ProgressIsEnabled` | wg-kotlin-daemon-rust/daemon/src/server.rs:121-210 | in every state of a teardown, with a full queue or a blocked reader too, a step towards release is enabled that needs no consumer |
| `SessionRuns.RankNeverGrows` | wg-kotlin-daemon-rust/daemon/src/server.rs:121-210 | no step of anyone moves a teardown away from release |
| `SessionRuns.TeardownCompletes` | wg-kotlin-daemon-rust/daemon/src/server.rs:121-210 | in every fair run a session that sees shutdown or client loss is released |
| `SessionDrain.ShutdownReachesEverySession` | wg-kotlin-daemon-rust/daemon/src/server.rs:41-44 | a shutdown request, and the end of accepting, puts every session that holds a name into teardown |
| `SessionDrain.LostClientReachesItsSession` | wg-kotlin-daemon-rust/daemon/src/server.rs:71-95 | a connection that ends or stops streaming puts its own session into teardown |
| `SessionDrain.DrainBegins` | wg-kotlin-daemon-rust/daemon/src/main.rs:95-101 | with all connections joined `main` goes on to wait for the sessions |
| `SessionDrain.DrainCompletes` | wg-kotlin-daemon-rust/daemon/src/main.rs:95-106 | in every fair run that does not time out a waiting `main` ends with `sessions_drained=true` |
| `SessionTraffic.PacketIsQueued` | wg-kotlin-daemon-rust/daemon/src/server.rs:124-133 | a packet read while the client listens and the queue has room is queued and the reader reads on |
| `SessionTraffic.PacketIsWritten` | wg-kotlin-daemon-rust/daemon/src/server.rs:170-176 | a packet the loop takes reaches the device and the loop goes on |
| `SessionTraffic.FailureIsTold` | wg-kotlin-daemon-rust/daemon/src/server.rs:137-143 | a failed read is told to a listening client and ends the reader |
| `SessionTraffic.ResponseCanBeTaken` | wg-kotlin-daemon-rust/daemon/src/server.rs:86-89 | a listening client can take the oldest response at any time |
| `SessionTraffic.DeliveredGrows` | wg-kotlin-daemon-rust/daemon/src/server.rs:108-205 | no step loses, repeats or reorders a response |
| `SessionTraffic.TrafficIsAccounted` | wg-kotlin-daemon-rust/daemon/src/server.rs:108-205 | over every run the packets delivered are the packets read in order but for one in flight or given up, the packets written are those taken in order but for one, the start is announced first, and the reader ends only after a stop, an interrupt, a lost client or a failed read |
| `TunSession.ActKeepsInvariant` | wg-kotlin-daemon-rust/daemon/src/session.rs:106-122 | each atomic action of any `close` call keeps one winner and one hook |
| `TunSession.HookRunsOnce` | wg-kotlin-daemon-rust/daemon/src/session.rs:106-122 | over all interleavings of any number of calls the hook runs at most once, and exactly once after the calls are done |
| `TunSession.Session.Close` | wg-kotlin-daemon-rust/daemon/src/session.rs:106-122 | the first call interrupts, runs the hook and reports its result; later calls do nothing |
| `TunSession.CloseIsItsActions` | wg-kotlin-daemon-rust/daemon/src/session.rs:106-122 | a call is a run of the atomic actions |
| `Cidr.MatchesIsBitPrefix` | wg-kotlin/src/commonMain/kotlin/com/rafambn/wgkotlin/util/IpUtil.kt:99-114 | matching is agreement of the family and of the first bits, one by one |
| `Cidr.NormalizeNetworkBytes` | wg-kotlin/src/commonMain/kotlin/com/rafambn/wgkotlin/util/IpUtil.kt:146-164 | clears every bit behind the prefix, in place on a copy |
| `Cidr.NormalizedKey` | wg-kotlin/src/commonMain/kotlin/com/rafambn/wgkotlin/util/IpUtil.kt:118-136 | builds family, prefix and masked hex; a missing address is an error |
| `Cidr.HexPairIsPadded` | wg-kotlin/src/commonMain/kotlin/com/rafambn/wgkotlin/util/IpUtil.kt:132-134 | two hex digits are what printing and padding give |
| `Cidr.KeyTextInjective` | wg-kotlin/src/commonMain/kotlin/com/rafambn/wgkotlin/util/IpUtil.kt:127-135 | equal key strings have equal family, prefix and masked bytes |
| `Cidr.KeyEqualIsSameNetwork` | wg-kotlin/src/commonMain/kotlin/com/rafambn/wgkotlin/util/IpUtil.kt:118-136 | keys are equal exactly for the same network |
| `Cidr.KeyIsCanonical` | wg-kotlin/src/commonMain/kotlin/com/rafambn/wgkotlin/util/IpUtil.kt:99-136 | keys are equal if and only if both blocks match the same destinations |
| `Cidr.PacketDestination` | wg-kotlin/src/commonMain/kotlin/com/rafambn/wgkotlin/util/IpUtil.kt:79-95 | a destination exists exactly for IPv4 packets of 20 bytes and IPv6 packets of 40 bytes or more |
| `Cidr.DestinationOfHeader` | wg-kotlin/src/commonMain/kotlin/com/rafambn/wgkotlin/util/IpUtil.kt:79-95 | it is the destination field of the IPv4 or IPv6 header |
| `Cidr.PlainStringInjective` | wg-kotlin/src/commonMain/kotlin/com/rafambn/wgkotlin/util/IpUtil.kt:62-73 | different addresses print differently; PlainStringReads says how |
| `Cidr.CidrStringInjective` | wg-kotlin/src/commonMain/kotlin/com/rafambn/wgkotlin/util/IpUtil.kt:62-76 | different blocks print differently |
| `AddressText.PlainStringReads` | wg-kotlin/src/commonMain/kotlin/com/rafambn/wgkotlin/util/IpUtil.kt:62-73 | an IPv4 text splits at the dots into the four bytes in decimal, an IPv6 text at the colons into eight hexadecimal byte pairs, without leading zeros |
| `AddressText.CidrStringReads` | wg-kotlin/src/commonMain/kotlin/com/rafambn/wgkotlin/util/IpUtil.kt:76 | a block's text splits at the slash into its address text and its decimal prefix |
| `AddressText.KeyTextReads` | wg-kotlin/src/commonMain/kotlin/com/rafambn/wgkotlin/util/IpUtil.kt:116-136 | a key splits into family, decimal prefix and two hexadecimal digits for each byte of the network |
| `CryptokeyRouting.NoDuplicatedKeysIsUnique` | wg-kotlin/src/commonMain/kotlin/com/rafambn/wgkotlin/VpnValidation.kt:46-56 | the count check accepts exactly the lists without repeated keys |
| `CryptokeyRouting.ConsistentIsExclusive` | wg-kotlin/src/commonMain/kotlin/com/rafambn/wgkotlin/VpnValidation.kt:17-31 | key strings have one owner each exactly when no two peers own the same destinations |
| `CryptokeyRouting.RequireDistinctAllowedIpOwnership` | wg-kotlin/src/commonMain/kotlin/com/rafambn/wgkotlin/VpnValidation.kt:17-31 | the loop accepts if and only if ownership is exclusive |
| `CryptokeyRouting.AcceptedPeersAreValidated` | wg-kotlin/src/commonMain/kotlin/com/rafambn/wgkotlin/crypto/CryptoSessionManagerImpl.kt:43-60 | sessions of accepted peers satisfy what selection needs |
| `CryptokeyRouting.BestMatchIsLongest` | wg-kotlin/src/commonMain/kotlin/com/rafambn/wgkotlin/crypto/CryptoSessionManagerImpl.kt:317-319 | a peer's best block matches and none of its matching blocks is longer |
| `CryptokeyRouting.BestCandidateIsLongest` | wg-kotlin/src/commonMain/kotlin/com/rafambn/wgkotlin/crypto/CryptoSessionManagerImpl.kt:315-324 | the candidate owns the longest match of all sessions, and there is none only if nobody matches |
| `CryptokeyRouting.LongestOwnerIsUnique` | wg-kotlin/src/commonMain/kotlin/com/rafambn/wgkotlin/crypto/CryptoSessionManagerImpl.kt:310-325 | among validated sessions the longest match has one owner |
| `CryptokeyRouting.SelectionIsUniqueLongestOwner` | wg-kotlin/src/commonMain/kotlin/com/rafambn/wgkotlin/crypto/CryptoSessionManagerImpl.kt:310-325 | a session is selected if and only if it is the owner of the longest match |
| `CryptokeyRouting.SelectionByMembers` | wg-kotlin/src/commonMain/kotlin/com/rafambn/wgkotlin/crypto/CryptoSessionManagerImpl.kt:310-325 | among validated entries selection depends only on which entries there are |
| `CryptokeyRouting.SelectionIgnoresOrder` | wg-kotlin/src/commonMain/kotlin/com/rafambn/wgkotlin/crypto/CryptoSessionManagerImpl.kt:310-325 | every iteration order selects the same session |
| `RouteList.RoutesAreTheAllowedIps` | wg-kotlin/src/commonMain/kotlin/com/rafambn/wgkotlin/ParsedVpnConfiguration.kt:68-74 | the list is duplicate-free, sorted by text, and holds exactly the allowed IPs |
| `RouteList.RoutesIgnoreOrder` | wg-kotlin/src/commonMain/kotlin/com/rafambn/wgkotlin/ParsedVpnConfiguration.kt:68-74 | permuting peers or their allowed IPs does not change it |
| `Text.LessAt` | wg-kotlin/src/commonMain/kotlin/com/rafambn/wgkotlin/ParsedVpnConfiguration.kt:72 | the text order is decided at the first difference, a prefix coming first |
| `Reconciliation.SortedKeysAreTheKeys` | wg-kotlin/src/commonMain/kotlin/com/rafambn/wgkotlin/crypto/CryptoSessionManagerImpl.kt:55-65 | the sorted keys are strictly sorted and are the keys of the peers |
| `Reconciliation.RollbackKeepsOwned` | wg-kotlin/src/commonMain/kotlin/com/rafambn/wgkotlin/crypto/CryptoSessionManagerImpl.kt:97-100 | a failing call keeps ownership and the set of active sessions |
| `Reconciliation.ReplacementKeepsOwned` | wg-kotlin/src/commonMain/kotlin/com/rafambn/wgkotlin/crypto/CryptoSessionManagerImpl.kt:64-116 | after a successful call the map owns its sessions, all active, and no other session is |
| `Reconciliation.ReplacedAreClosedOnce` | wg-kotlin/src/commonMain/kotlin/com/rafambn/wgkotlin/crypto/CryptoSessionManagerImpl.kt:111-116 | each old session that is not reused is closed exactly once, a reused one is not touched |
| `Reconciliation.StatisticsFollowPeers` | wg-kotlin/src/commonMain/kotlin/com/rafambn/wgkotlin/crypto/CryptoSessionManagerImpl.kt:104-106 | the statistics of peers that stay are kept, those of peers that go are dropped |
| `Reconciliation.IndexesAreBijective` | wg-kotlin/src/commonMain/kotlin/com/rafambn/wgkotlin/crypto/CryptoSessionManagerImpl.kt:55-87 | the sorted keys have the indexes 1..n, one each |
| `Reconciliation.StopKeepsOwned` | wg-kotlin/src/commonMain/kotlin/com/rafambn/wgkotlin/crypto/CryptoSessionManagerImpl.kt:140-146 | after `stop` no session is active |
| `Reconciliation.EveryRunKeepsOwned` | wg-kotlin/src/commonMain/kotlin/com/rafambn/wgkotlin/crypto/CryptoSessionManagerImpl.kt:43-146 | over any calls, failures and session deaths: active sessions are in the map, mapped ones are unclosed, none is closed twice |
| `Reconciliation.ActiveAreExactlyTheMap` | wg-kotlin/src/commonMain/kotlin/com/rafambn/wgkotlin/crypto/CryptoSessionManagerImpl.kt:43-146 | without sessions that die on their own the active ones are exactly those in the map |
| `Reconciliation.SelectionIsReady` | wg-kotlin/src/commonMain/kotlin/com/rafambn/wgkotlin/crypto/CryptoSessionManagerImpl.kt:43-117 | after a successful call the entries in any order satisfy what order-independent selection needs |
| `Reconciliation.NextKeepsRoutable` | wg-kotlin/src/commonMain/kotlin/com/rafambn/wgkotlin/crypto/CryptoSessionManagerImpl.kt:43-146 | every call, failing ones and deaths included, leaves entries of one accepted configuration |
| `Reconciliation.SelectionInEveryRun` | wg-kotlin/src/commonMain/kotlin/com/rafambn/wgkotlin/crypto/CryptoSessionManagerImpl.kt:43-325 | in every state of every run all iteration orders of the map select the same session |
| `SessionManager.CryptoSessionManager.Create` | wg-kotlin/src/commonMain/kotlin/com/rafambn/wgkotlin/crypto/CryptoSessionManagerImpl.kt:80-84 | a creation throws, or adds one session with the peer's key and index |
| `SessionManager.CryptoSessionManager.BuildNext` | wg-kotlin/src/commonMain/kotlin/com/rafambn/wgkotlin/crypto/CryptoSessionManagerImpl.kt:64-96 | each key gets its reused or new session; stops at the first creation that fails |
| `SessionManager.CryptoSessionManager.RollBack` | wg-kotlin/src/commonMain/kotlin/com/rafambn/wgkotlin/crypto/CryptoSessionManagerImpl.kt:97-100 | closes exactly the created sessions, once each |
| `SessionManager.CryptoSessionManager.CloseReplaced` | wg-kotlin/src/commonMain/kotlin/com/rafambn/wgkotlin/crypto/CryptoSessionManagerImpl.kt:111-116 | closes exactly the sessions not carried over, once each |
| `SessionManager.CryptoSessionManager.ReconcileSessions` | wg-kotlin/src/commonMain/kotlin/com/rafambn/wgkotlin/crypto/CryptoSessionManagerImpl.kt:43-117 | all or nothing; succeeds if and only if the peers are accepted and every needed creation does; on failure all it made is closed exactly when the factory threw |
| `SessionManager.InactiveSessionStaysUnclosed` | wg-kotlin/src/commonMain/kotlin/com/rafambn/wgkotlin/crypto/CryptoSessionManagerImpl.kt:80-100 | with a factory that answers inactive the call fails and its session stays unclosed |
| `SessionManager.CryptoSessionManager.StopSessions` | wg-kotlin/src/commonMain/kotlin/com/rafambn/wgkotlin/crypto/CryptoSessionManagerImpl.kt:140-146 | closes every session of the map and empties map and statistics |
| `SessionManager.RollBackIsComplete` | wg-kotlin/src/commonMain/kotlin/com/rafambn/wgkotlin/crypto/CryptoSessionManagerImpl.kt:85-100 | after the rollback every new session is inactive; only one that came back inactive is unclosed |
| `SessionManager.ReplacementIsComplete` | wg-kotlin/src/commonMain/kotlin/com/rafambn/wgkotlin/crypto/CryptoSessionManagerImpl.kt:102-116 | building, swapping and closing together are the specified replacement |
| `EncryptedIngress.SelectsFirst` | wg-kotlin/src/commonMain/kotlin/com/rafambn/wgkotlin/crypto/CryptoSessionManagerImpl.kt:214-217 | the session is the first whose peer has the sender's address text and port, and none is chosen only if there is none |
| `EncryptedIngress.EndpointIsSender` | wg-kotlin/src/commonMain/kotlin/com/rafambn/wgkotlin/crypto/CryptoSessionManagerImpl.kt:214-217 | for a sender given by its address text the match is on the address and the port |
| `EncryptedIngress.EveryWriteIsOutput` | wg-kotlin/src/commonMain/kotlin/com/rafambn/wgkotlin/crypto/CryptoSessionManagerImpl.kt:230-247 | each packet of a session goes to exactly one queue |
| `EncryptedIngress.OutputsInOrder` | wg-kotlin/src/commonMain/kotlin/com/rafambn/wgkotlin/crypto/CryptoSessionManagerImpl.kt:230-265 | every packet is output in the place its order among its kind gives it |
| `EncryptedIngress.CountedMeaning` | wg-kotlin/src/commonMain/kotlin/com/rafambn/wgkotlin/crypto/CryptoSessionManagerImpl.kt:219-236 | counting adds to the two counters of one peer and leaves other peers alone |
| `EncryptedIngress.CompletesOrFails` | wg-kotlin/src/commonMain/kotlin/com/rafambn/wgkotlin/crypto/CryptoSessionManagerImpl.kt:230-261 | a session behaviour completes or fails at one definite point |
| `EncryptedIngress.Ingress.Flush` | wg-kotlin/src/commonMain/kotlin/com/rafambn/wgkotlin/crypto/CryptoSessionManagerImpl.kt:223-261 | at most 256 decrypt calls; collects packets in order and counts network bytes as they come |
| `EncryptedIngress.Ingress.HandleDatagram` | wg-kotlin/src/commonMain/kotlin/com/rafambn/wgkotlin/crypto/CryptoSessionManagerImpl.kt:205-266 | completes exactly when the session is done within the limit; then forwards at most 255 packets in order, network packets to the sender, counts the payload once and the forwarded bytes exactly; otherwise forwards nothing |
| `PipeConnection.Connection.Register` | wg-kotlin/src/jvmMain/kotlin/com/rafambn/wgkotlin/daemon/WindowsPipeConnection.kt:59-66 | an operation is registered and issued exactly when the connection is open |
| `PipeConnection.Connection.Finish` | wg-kotlin/src/jvmMain/kotlin/com/rafambn/wgkotlin/daemon/WindowsPipeConnection.kt:92-95 | the last operation of a closed connection closes the handle |
| `PipeConnection.Connection.Close` | wg-kotlin/src/jvmMain/kotlin/com/rafambn/wgkotlin/daemon/WindowsPipeConnection.kt:99-106 | cancels once, and closes the handle if nothing is registered |
| `PipeConnection.StepKeepsInvariant` | wg-kotlin/src/jvmMain/kotlin/com/rafambn/wgkotlin/daemon/WindowsPipeConnection.kt:48-106 | every step of every thread keeps the handle invariant |
| `PipeConnection.HandleLifetime` | wg-kotlin/src/jvmMain/kotlin/com/rafambn/wgkotlin/daemon/WindowsPipeConnection.kt:48-106 | in every interleaving the handle is closed at most once, last of all its calls, exactly when the connection is closed and nothing is registered; nothing is issued after `close`, every registered operation was issued, and only started ones were |
| `PipeConnection.StartIssues` | wg-kotlin/src/jvmMain/kotlin/com/rafambn/wgkotlin/daemon/WindowsPipeConnection.kt:59-66 | an operation started on an open connection is issued and registered, on a closed one nothing happens |
| `PipeConnection.Pipe.Transfer` | wg-kotlin/src/jvmMain/kotlin/com/rafambn/wgkotlin/daemon/WindowsPipeConnection.kt:69-88 | one chunk: what the system moved reaches the pipe, no progress or an error throws |
| `PipeConnection.Pipe.Write` | wg-kotlin/src/jvmMain/kotlin/com/rafambn/wgkotlin/daemon/WindowsPipeConnection.kt:39-45 | a prefix of the bytes is delivered in order in chunks of at most 65536; all of them if and only if every chunk made progress; terminates |
| `Framing.HeaderRoundTrip` | wg-kotlin-daemon-rust/daemon/src/ipc/mod.rs:22-37 | headers and 32-bit lengths correspond one to one |
| `Framing.HeaderIsBigEndian` | wg-kotlin-daemon-rust/daemon/src/ipc/mod.rs:23-37 | headers are big-endian; the client reads the two's complement of the same number |
| `Framing.SameHeadersAccepted` | wg-kotlin/src/jvmMain/kotlin/com/rafambn/wgkotlin/daemon/IpcProtocol.kt:36-37 | the signed check accepts exactly the headers of the unsigned one, those of the lengths 1 to 4194304, and reads the same length |
| `Framing.Input.ReadFrame` | wg-kotlin-daemon-rust/daemon/src/ipc/mod.rs:17-30 | the daemon's reader computes the next frame; an empty stream is a clean end |
| `Framing.Input.ReadFrameOrThrow` | wg-kotlin/src/jvmMain/kotlin/com/rafambn/wgkotlin/daemon/IpcProtocol.kt:34-41 | the client's reader gives the same messages and errors; an empty stream is an error |
| `Framing.Output.WriteFrame` | wg-kotlin-daemon-rust/daemon/src/ipc/mod.rs:32-40 | sends header and body exactly when the encoding has 1 to 4194304 bytes |
| `Framing.NextOfFrame` | wg-kotlin-daemon-rust/daemon/src/ipc/mod.rs:17-40 | a written frame is read back whatever follows |
| `Framing.ReadAllWriteAll` | wg-kotlin-daemon-rust/daemon/src/ipc/mod.rs:17-40 | writing any encodable messages and reading to the end returns them and a clean end |
| `Framing.ReadAllTruncated` | wg-kotlin-daemon-rust/daemon/src/ipc/mod.rs:17-40 | a truncated stream gives the complete messages, a proper prefix, and ends cleanly exactly at a frame boundary |
| `InterfaceName.NormalisedIsDecimal` | wg-kotlin-daemon-rust/daemon/src/server.rs:233-237 | a normalised name is the prefix and the decimal index |
| `InterfaceName.SameNameIffSameIndex` | wg-kotlin-daemon-rust/daemon/src/server.rs:233-237 | accepted names normalise alike if and only if they denote the same index |
| `InterfaceName.NormalisedStaysAccepted` | wg-kotlin-daemon-rust/daemon/src/validation.rs:28-43 | normalisation keeps acceptance and index and is idempotent |
| `InterfaceName.OneReservationPerIndex` | wg-kotlin-daemon-rust/daemon/src/server.rs:233-250 | reserving by normal form: refused as duplicate exactly when the index is taken, one reservation per index |
| `Domains.NormalizeDomains` | wg-kotlin-daemon-rust/daemon/src/platform/mod.rs:97-107 | the loop computes the first occurrences of the non-empty cleaned values |
| `Domains.NormalisedMeaning` | wg-kotlin-daemon-rust/daemon/src/platform/mod.rs:97-107 | no duplicates, exactly the non-empty cleaned values, in order of first occurrence |
| `Domains.NormalisedInInputOrder` | wg-kotlin-daemon-rust/daemon/src/platform/mod.rs:97-107 | the normal form lists values in the order of their first occurrence in the input |
| `Domains.CleanMeaning` | wg-kotlin-daemon-rust/daemon/src/platform/mod.rs:101 | cleaning takes off whitespace at both ends and then leading dots, all of them and nothing else |
| `Domains.CleanAgain` | wg-kotlin-daemon-rust/daemon/src/platform/mod.rs:101 | a cleaned value is stable if and only if it does not begin with whitespace |
| `Domains.NormaliseTwice` | wg-kotlin-daemon-rust/daemon/src/platform/mod.rs:97-107 | normalising is idempotent on a list if and only if no cleaned value begins with whitespace |
| `Domains.SpaceAfterDot` | wg-kotlin-daemon-rust/daemon/src/platform/mod.rs:101 | `. a` normalises to a value with a leading space, which normalises further |
| `Hostnames.ValidIffHostname` | wg-kotlin-daemon-rust/daemon/src/validation.rs:116-135 | the check accepts exactly the host names of section 2.1 of RFC 1123 with at most 253 characters |
| `Hostnames.AcceptedDomainsNormalise` | wg-kotlin-daemon-rust/daemon/src/validation.rs:66-72 | on accepted lists the normal form is duplicate-free, idempotent, loses no domain and holds only host names |
| `Hostnames.NormalFormIsAccepted` | wg-kotlin-daemon-rust/daemon/src/validation.rs:58-72 | the normal form of an accepted list is accepted |
| `Validation.DeviceSettings` | wg-kotlin-daemon-rust/daemon/src/session.rs:45-56 | for an accepted configuration no unwrap fails, no prefix or MTU is cut, and IPv6 has an MTU of at least 1280 |
| `Validation.CidrsPassIff` | wg-kotlin-daemon-rust/daemon/src/validation.rs:83-93 | the list check accepts exactly the lists of well-formed blocks |
| `Validation.NoRouteSkipped` | wg-kotlin-daemon-rust/daemon/src/platform/mod.rs:259-266 | for an accepted configuration every allowed IP becomes a well-formed route |
| `Validation.IpsToArgs` | wg-kotlin-daemon-rust/daemon/src/platform/mod.rs:86-95 | servers print without failing, once each in order |
| `Validation.DnsSettings` | wg-kotlin-daemon-rust/daemon/src/validation.rs:58-81 | for an accepted configuration servers and domains are both present after normalisation or both absent |

## Left out

- Operating-system and library calls (sysctl, sockets, netlink, tun devices, Wintun, DNS commands, process identity): abstract tables, devices and nondeterministic results stand for them.
- Cryptography, base64, protobuf and the foreign-function layer: a peer session is any producer of packet actions, a codec any pair of functions.
- Route restoration on Linux and Windows: that code deletes before adding and keeps no backup, so egress, cleanup and rollback of the session's own routes are claimed, not the entries it displaced.
- Race between `find` and the following request: outside edits happen before a restore, not in the middle of one.
- Scoped lookups on macOS: egress is stated for unscoped longest-prefix lookups, and route metrics are not part of the choice.
- The RTM_GET query that resolves an endpoint, and the retries of `dump_routes` when the table grows.
- Client DNS settings reaching the daemon: the client sends servers without search domains, which the daemon refuses.
- The private key of a reused session: the reuse test does not compare it.
- `stop` racing the crypto loops, and `start`: calls of the manager are sequential.
- The cleartext loop and the periodic loop: what they forward for one packet or one tick, and their counters.
- JvmInterfaceManager and DaemonSessionBridge: their running-state claims depend on callback timing.
- Contents of packets in the session protocol: a packet is a label, and sizes that are skipped (empty or over 65535 bytes) are not steps.
- Connections ending after a shutdown: the drain result starts when they are joined.
- Clocks and timeouts: nondeterministic steps or parameters.
- Panics in spawned blocking tasks: close and start return a result.
- Log and error texts: an error is a value without its message.
- EncryptedIngress.Ingress.HandleDatagram: byte counters are unbounded, so the wrap-around of a 64-bit counter is not modelled, and sending into a closed queue is not.
- PipeConnection.Pipe.Write: interleaved with `close` only through failing chunks; the reading side and the connection handshake are not modelled.
- Framing.Output.WriteFrame: a stream that breaks during a write is covered by the truncation result only.
- SessionManager.CryptoSessionManager.ReconcileSessions: a previous session is recognised by equality of its entry, as entries hold distinct session handles; exceptions from `close` are not modelled.
- Validation.IpsToArgs: the printed form of an address is a parameter.
- Texts of addresses as users enter them: parsing of configuration strings is not part of this model.
