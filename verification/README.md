# Verified model of orch

This project models the parts of the orchestrator whose correctness spans several functions, threads or nodes,
and proves what they guarantee. It covers:

- the workstation VPN tunnel session, as an interleaving of one controller with any number of forwarder goroutines
  (`TunnelSession`, `TunnelInvariant`, `TunnelTheorems`);
- the encap-v0 frame, the two pumps and the gateway dispatcher (`EncapV0`, `EncapStream`);
- the replicated scheduling state machine: log entries, revision history, snapshots, the deploy wake-up channel
  (`DeployModel`, `SchedulingState`, `RecordHistory`, `RevisionHistory`, `Snapshots`, `SchedulingFsm`,
  `DeployNotify`);
- bootstrap membership (`Bootstrap`);
- the ingress compiler and path rewriting (`PathClean`, `Routing`, `IngressCompile`, `IngressReplicas`);
- the placement engine (`Placement`);
- workload DNS names, their index and the record store (`DnsNames`, `WorkloadDns`);
- the deploy watcher of the command line (`DeployWatch`).

`GoStrings` and `Ordering` hold the Go string operations and the sorted key lists that these share.
`dafny verify dfyconfig.toml` checks the whole project.

## How the code is modelled

- The tunnel session is a transition system. Every access to a shared variable is one step, in program order, so the
  epoch load that a forwarder makes outside the lock can fall between any two controller steps. The epoch is a
  64-bit counter that wraps.
- Objects that the code updates in place are classes (`Fsm`, `Observer`, `Socket`, `Members`, `Dns`, `Snapshot`).
  Their methods are proved against functions on values, and runs of those functions carry the theorems.
- A Go map is `Nil` or a map of rows. JSON with `omitempty` is a codec that turns an empty map into nil.
- Hashes (SHA-256, FNV), `net.SplitHostPort`, `net.ParseIP`, the node URL table and the DNS server library are
  arbitrary functions. Hypotheses on the library are named predicates (`WorkloadDns.Separates`, `WorkloadDns.Apart`,
  `WorkloadDns.KeepsData`);
  the exact conditions in `TiedExactly` and `LatestExactly` need none.
- Results of sockets, devices and store calls are parameters. CPU percentages are reals.
- Texts are sequences of characters. Lower-casing covers ASCII letters.

## Where the code does less than one might expect

Each of these is proved, with the exact condition under which the expected property does hold.

- A restart call that arrives after a forwarder has returned, and before its cleanup has the lock, keeps the dead
  session: `RestartCanMissAnExit`. The decision is exact in `RestartDecision`; once the cleanup is done the next call
  always starts a new forwarder (`ExitedForwarderIsReplaced`).
- Installing a snapshot changes the desired apps without a wake-up: `InstallIsSilent`. `ReaderAfterReceiveIsCurrent`
  says exactly when a reader is out of date because of it.
- The compiler's sort key joins a blank namespace and one that starts with a slash, which the deploy key tells apart:
  `SlashNamespaceAliases`, and then the listing order changes the routes: `SlashNamespaceReorders`.
  `SortKeyVersusDeployKey` says when keys are joined, `OrderFreeExactly` when the order matters.
- Normalizing a request path twice is not always normalizing it once. `NormalizedTwice` names the paths that settle, and
  `TwoHopsExactly` says for every prefix and path when two ingress hops agree with one. `TwoHopsDisagree` is an input
  where they do not.
- The pump tests only the version nibble, and reads packets up to 65535 bytes that the frame header then pushes past
  the receive buffer. The gateway observes a packet exactly when its header is well formed and its frame fits
  (`GatewayObserves`).
- A workload or namespace with a dot in its name has no round trip through DNS (`RoundTrip`, both directions), and a
  leading dot, a trailing dot or a blank workload is answered for another workload. `AnsweredExactly` and
  `AnsweredForAnotherExactly` say which names are, and for whom.
- Two names with one store key and different index keys clash, and removing one loses the other's record. `TiedExactly`
  and `ExactExactly` say that clashes are the only cause, `ClashExactly` which names clash, and `DottedNamesClash` that
  moving a dot is enough.
- Two names with one index key and different labels answer for each other, and nothing else goes wrong in the index:
  `LatestExactly`. It takes a slash in a namespace (`SlashFreeNeverShares`).
- A query is lowered and assignments are not, so the assignment fallback answers exactly for lower-case names
  (`AssignmentAnswersItsName`).
- The assignment fallback does not look at the app, so its answer can depend on the listing order:
  `FallbackOrderExactly`.
- The watcher counts runtime rows by name only, so another app's row can stand in for one of the app's own:
  `NamesakesAreCounted`. `SuccessExactly` says exactly when success means that the app's own workloads are up.

## Model

| member | source | states |
|---|---|---|
| TunnelInvariant.StepKeepsInv | internal/orchvpn/workstation_forward.go:23-76 | every step of every thread keeps the inductive invariant that ties mutex, epoch, WaitGroup counter, cancel function and key together |
| TunnelInvariant.ReachableInv | internal/orchvpn/workstation_forward.go:23-76 | every state reachable under any interleaving satisfies the invariant |
| TunnelInvariant.WorkerStepEffect | internal/orchvpn/workstation_forward.go:64-75 | what one forwarder step can change, whichever controller step it falls between: never a field the controller holds under the lock |
| TunnelTheorems.AtMostOneForwarding | internal/orchvpn/workstation_forward.go:36-76 | in every reachable state at most one goroutine is inside runTunnelForward or about to enter it |
| TunnelTheorems.CleanupSparesOtherSessions | internal/orchvpn/workstation_forward.go:64-75 | a forwarder's cleanup only ever removes its own cancel function, empties the key only when no session is stored, and does both under the lock |
| TunnelTheorems.UnlockedFieldsAgree | internal/orchvpn/workstation_forward.go:23-76 | whenever the lock is free, the key is empty exactly when no cancel function is stored |
| TunnelTheorems.OnlyTheHolderUnlocks | internal/orchvpn/workstation_forward.go:23-76 | every unlock is made by the thread that holds the lock |
| TunnelTheorems.StopQuiesces | internal/orchvpn/workstation_forward.go:23-34 | after stopTunnelDataPlane returns no forwarder is running and no session is stored, whether or not one ever was |
| TunnelTheorems.DoneNeverPanics | internal/orchvpn/workstation_forward.go:61-65 | the WaitGroup counter never goes negative |
| TunnelTheorems.WaitIsNeverStuck | internal/orchvpn/workstation_forward.go:30-55 | in Wait the controller does not hold the lock, every forwarder not yet returned has been cancelled, and some thread can move |
| TunnelTheorems.WaitIsBounded | internal/orchvpn/workstation_forward.go:30-75 | any schedule of forwarder steps is no longer than the steps they have left, so a wait ends once forwarders return |
| TunnelTheorems.NeverStuck | internal/orchvpn/workstation_forward.go:23-76 | in every reachable state the controller or some forwarder can move |
| TunnelTheorems.CallIsBounded | internal/orchvpn/workstation_forward.go:23-76 | any schedule inside one controller call, replacing a live forwarder included, is no longer than the steps the call and the forwarders have left |
| TunnelTheorems.StaleForwarderSkipsCleanup | internal/orchvpn/workstation_forward.go:66-73 | a forwarder that returns after a call has raised the epoch does not go for the lock |
| TunnelTheorems.RestartDecision | internal/orchvpn/workstation_forward.go:42-56 | a restart keeps the session exactly when a forwarder started for that key has not yet cleaned up, and starts one at once exactly when no forwarder is left |
| TunnelTheorems.LiveForwarderServesLastCall | internal/orchvpn/workstation_forward.go:36-76 | between calls a live forwarder was started for the key that the last call asked for |
| TunnelTheorems.ExitedForwarderIsReplaced | internal/orchvpn/workstation_forward.go:36-76 | once an exited forwarder has cleaned up, every schedule of the next call with any key, the same one included, launches a new forwarder for that key within eight more controller steps, whatever forwarder steps fall between |
| TunnelTheorems.LaunchStep | internal/orchvpn/workstation_forward.go:42-75 | while such a call is under way the controller can always move, each of its steps brings the launch one step closer, and forwarder steps do not disturb it |
| TunnelTheorems.PollDecidesSession | internal/orchvpn/daemon_workstation.go:60-152 | on every schedule of a round of the poll loop, from every reachable state between calls: after a good heartbeat with the device enabled it returns with a live forwarder, new or kept, started for that peer, MTU and device; after anything else with no forwarder running and no session stored |
| TunnelTheorems.RestartCanMissAnExit | internal/orchvpn/workstation_forward.go:43-46 | a reachable run in which a restart call keeps a session whose forwarder has already returned |
| TunnelTheorems.ForwardSignatureInjective | internal/orchvpn/workstation_forward.go:15-21 | for one device name, equal signatures mean equal peer and equal MTU |
| TunnelTheorems.ForwardSignatureDetermines | internal/orchvpn/workstation_forward.go:15-21 | for peers without a bar, equal signatures mean equal peer, MTU and device name |
| EncapV0.Encode | internal/orchvpn/encap_v0.go:32-41 | the buffer filled in place is the wire layout, and decodes to its message whatever follows it |
| EncapV0.DecodeLayout | internal/orchvpn/encap_v0.go:55-72 | a laid-out frame decodes to its message whatever the reserved bytes and the bytes behind it are |
| EncapV0.AcceptedExactly | internal/orchvpn/encap_v0.go:55-72 | the accepted byte strings are exactly the laid-out frames with anything behind them, so re-encoding restores every byte but the reserved two |
| EncapV0.WireFormat | internal/orchvpn/encap_v0.go:12-72 | the accepted frames byte by byte: magic, version, type, two free bytes, big-endian length, payload |
| EncapV0.NoProperPrefixDecodes | internal/orchvpn/encap_v0.go:55-72 | no proper prefix of a frame decodes |
| EncapV0.Uint32BigEndian | internal/orchvpn/encap_v0.go:32-41 | a length survives being written and read back |
| EncapV0.BigEndianUint32 | internal/orchvpn/encap_v0.go:55-72 | four length bytes survive being read and written back |
| EncapStream.SummarizeExactly | internal/orchvpn/encap_ipv4.go:6-18 | a payload is summarized exactly when its header is well formed under section 3.1 of RFC 791, by its source and its destination address |
| EncapStream.HandleEncapUDP | internal/orchvpn/encap_dispatch.go:23-48 | one datagram gives the observer exactly the events, and the socket exactly the acknowledgement, of its message |
| EncapStream.EventsExactly | internal/orchvpn/encap_dispatch.go:28-47 | what the observer is told of every frame, by message type, whatever its reserved and trailing bytes |
| EncapStream.NoFrameIsReported | internal/orchvpn/encap_dispatch.go:24-28 | what is no frame is reported with its length and not acknowledged |
| EncapStream.PumpTunToUdp | internal/orchvpn/workstation_forward.go:137-153 | the frames sent are those of the IPv4 packets read, in order, up to the first write that fails |
| EncapStream.PumpUdpToTun | internal/orchvpn/workstation_forward.go:155-179 | the packets written are the IPv4 payloads of the datagrams received, in order |
| EncapStream.TunnelPayloadExactly | internal/orchvpn/workstation_forward.go:173-183 | a datagram is taken exactly when it is a payload frame whose packet has version four |
| EncapStream.PumpsCarryPackets | internal/orchvpn/workstation_forward.go:137-183 | two pumps back to back carry exactly the IPv4 packets whose frames fit the buffer, unchanged and in order |
| EncapStream.GatewayObserves | internal/orchvpn/encap_dispatch.go:23-48 | a packet that the pump sends reaches the observer unchanged exactly when its header is well formed and its frame fits |
| EncapStream.GatewayObservesStream | internal/orchvpn/encap_loop.go:16-33 | over a whole stream of reads, the inner packets observed are exactly those packets, in order |
| EncapStream.HeartbeatHandshake | internal/orchvpn/encap_dispatch.go:23-48 | any heartbeat frame draws the non-empty acknowledgement once over a working socket, the workstation accepts every acknowledgement frame and no heartbeat, and no acknowledgement draws a reply |
| DeployModel.GenerationIgnores | internal/deploy/v1alpha1/generation.go:12-29 | generations ignore nil versus empty label tables and a blank versus the default namespace |
| DeployModel.AppGenerationSound | internal/deploy/v1alpha1/generation.go:12-29 | for every hash, generations are never blank and depend on the canonical app only |
| DeployModel.GenerationsDifferExactly | internal/deploy/v1alpha1/generation.go:12-21 | two apps have one generation exactly when the hash takes one value on what they are hashed by |
| DeployModel.IdentityExactly | internal/deploy/v1alpha1/generation.go:12-29 | apps are hashed alike exactly when they agree in every field, up to a blank namespace and nil label tables |
| SchedulingState.StepKeepsKeys | internal/raftsvc/fsm.go:74-240 | every log entry keeps nodes, assignments and bindings under their own trimmed, non-empty keys |
| SchedulingState.ReachableKeys | internal/raftsvc/fsm.go:103-240 | the same in every reachable state |
| SchedulingState.StoredRecordsAreFound | internal/raftsvc/fsm_lookup.go:80-111 | any stored assignment or binding is found again by its own key as the lookups trim it |
| SchedulingState.NormalizedAssignmentKey | internal/raftsvc/fsm.go:188-203 | an assignment that is accepted has a trimmed, non-empty key |
| SchedulingState.NormalizedBindingKey | internal/raftsvc/fsm.go:223-240 | a binding that is accepted has a trimmed, non-empty key |
| RecordHistory.NodesAreLatest | internal/raftsvc/fsm.go:103-119 | on every log the snapshot under a node id is that of the last entry for the trimmed id |
| RecordHistory.AssignmentsAreLatest | internal/raftsvc/fsm.go:170-203 | on every log the row under a key is the last accepted entry for that key, trimmed where the code trims, or none; the key is the given one or namespace, app and workload joined by slashes |
| RecordHistory.BindingsAreLatest | internal/raftsvc/fsm.go:205-240 | the same for volume bindings |
| RecordHistory.EveryEntryIsCounted | internal/raftsvc/fsm.go:46-55 | every entry is counted, whatever it holds, in a counter that wraps |
| RevisionHistory.StoredRevisionsAreHistory | internal/raftsvc/revisions.go:32-49 | on every run the stored revisions of an app are the last ten entries of its simple history: upserts since the last delete, runs of equal generation collapsed to their last app, current run removed |
| RevisionHistory.NewestDiffers | internal/raftsvc/revisions.go:41-43 | the newest stored revision never has the current generation, so the duplicate test cannot succeed |
| RevisionHistory.ReachableConsistent | internal/raftsvc/fsm.go:121-162 | in every reachable state revision rows belong to stored apps, all under their own key, at most ten, neighbours and the current app of different generations |
| RevisionHistory.RollbackInvolution | internal/raftsvc/fsm_lookup.go:58-66 | on any reachable state with history, upserting the previous app makes the replaced one previous, doing it twice restores the current app, and neither step touches another app or another table |
| RevisionHistory.UpsertEffect | internal/raftsvc/fsm.go:121-141 | what an upsert leaves under its own key: the app, and the replaced app recorded exactly when the generation changed |
| RevisionHistory.UpsertFrame | internal/raftsvc/fsm.go:121-141 | an upsert changes no other app, revision, node, assignment or binding |
| RevisionHistory.OtherKeyUntouched | internal/raftsvc/fsm.go:74-91 | a log entry about another key leaves an app's row and its revisions alone |
| Snapshots.RestoreAgrees | internal/raftsvc/fsm_snapshot.go:12-40 | a restored state agrees with the saved one up to nil versus empty maps |
| Snapshots.RestoredRowsAreSaved | internal/raftsvc/fsm_snapshot.go:12-40 | what is restored has the saved rows field by field, except that an empty label or annotation table may come back nil |
| Snapshots.EquivMeans | internal/raftsvc/fsm_snapshot.go:12-40 | agreeing states hold the same rows field by field, up to nil versus empty tables |
| Snapshots.StepAgrees | internal/raftsvc/fsm.go:74-91 | every log entry maps agreeing states to agreeing states |
| Snapshots.SnapshotThenReplay | internal/raftsvc/fsm_snapshot.go:12-40 | for every log and cut, a snapshot of the prefix restored and followed by the suffix agrees with replaying the whole log, and holds the same rows field by field |
| Snapshots.RebuiltReplicaAgrees | internal/raftsvc/fsm_snapshot.go:12-40 | however a replica came to its place in the log, through any number of restores of its own snapshots and of other replicas' ones, it agrees with one that replayed the log up to there |
| Snapshots.LookupsAgree | internal/raftsvc/fsm_lookup.go:18-111 | agreeing states give the same answer to every lookup in every field, revisions in order included, up to nil versus empty label tables |
| SchedulingFsm.ListingsAgree | internal/raftsvc/fsm_lookup.go:28-101 | agreeing states have the same listings, row by row |
| SchedulingFsm.ListRows | internal/raftsvc/fsm_lookup.go:28-39 | a range over a map lists every row once, in some order |
| SchedulingFsm.ListedAssignmentsHaveDistinctKeys | internal/raftsvc/fsm_lookup.go:67-78 | the assignments a reachable state lists have pairwise distinct keys |
| SchedulingFsm.Fsm.Update | internal/raftsvc/fsm.go:46-91 | the object's tables take exactly the abstract step, the result is the wrapped entry count, and the notification is called exactly for named upserts and deletes |
| SchedulingFsm.Fsm.ApplyNodeCapacity | internal/raftsvc/fsm.go:103-119 | stores a named node's snapshot and changes nothing else |
| SchedulingFsm.Fsm.ApplyDeployApp | internal/raftsvc/fsm.go:121-141 | the in-place upsert is the abstract one, and notifies exactly when the app is named |
| SchedulingFsm.Fsm.AppendDeployAppRevision | internal/raftsvc/revisions.go:32-49 | the in-place append, duplicate test and truncation give the abstract revision table |
| SchedulingFsm.Fsm.ApplyDeleteDeployApp | internal/raftsvc/fsm.go:143-162 | the in-place delete is the abstract one, and notifies exactly when the app is named |
| SchedulingFsm.Fsm.ApplyWorkloadAssignment | internal/raftsvc/fsm.go:170-186 | the in-place assignment update is the abstract one |
| SchedulingFsm.Fsm.ApplyVolumeBinding | internal/raftsvc/fsm.go:205-221 | the in-place binding update is the abstract one |
| SchedulingFsm.Fsm.SaveSnapshot | internal/raftsvc/fsm_snapshot.go:12-23 | the document restores to a state that agrees with the current one |
| SchedulingFsm.Fsm.RecoverFromSnapshot | internal/raftsvc/fsm_snapshot.go:25-40 | replaces the whole state, or reports an error and changes nothing; sends no wake-up |
| SchedulingFsm.Fsm.ListDeployApps | internal/raftsvc/fsm_lookup.go:28-39 | lists every stored app once, in some order |
| SchedulingFsm.Fsm.ListAssignments | internal/raftsvc/fsm_lookup.go:67-78 | lists every stored assignment once, in some order |
| SchedulingFsm.Fsm.ListDeployAppRevisions | internal/raftsvc/fsm_lookup.go:41-56 | lists an app's revisions newest first |
| SchedulingFsm.Fsm.PreviousDeployApp | internal/raftsvc/fsm_lookup.go:58-66 | gives the newest revision, or nothing when there is none |
| DeployNotify.NoLostWakeUp | internal/raftsvc/service.go:53-69 | after any send, at any later time, the token is in the channel or someone has received since |
| DeployNotify.TokenComesFromSend | internal/raftsvc/service.go:53-69 | the token is in the channel exactly when some send has not been received since |
| DeployNotify.WriteIsSent | internal/raftsvc/fsm.go:139-168 | an applied upsert or delete is followed by its send with nothing but receives in between, so before anything else takes the lock |
| DeployNotify.AppliedChangeWakes | internal/raftsvc/service.go:53-69 | at any time after an applied upsert or delete, its notification is being sent, or the token is in the channel, or some receive happened after it was applied |
| DeployNotify.SendComesFromChange | internal/raftsvc/fsm.go:139-168 | every send follows an upsert or delete of a named app with nothing but receives in between |
| DeployNotify.ReaderAfterReceiveIsCurrent | internal/raftsvc/service.go:53-69 | with the channel empty and no entry half applied, a reader that looked after the last receive saw the desired apps as they are now exactly when no snapshot was installed since or the last one installed holds the same apps |
| DeployNotify.InstallIsSilent | internal/raftsvc/fsm_snapshot.go:25-40 | a new replica that installs the snapshot saved after one upsert has the app and an empty channel |
| Bootstrap.ReplicaID | internal/raftsvc/peer_address.go:14-28 | no node id gets the reserved replica id zero |
| Bootstrap.ReplicaIDsCollideExactly | internal/raftsvc/peer_address.go:14-28 | two ids share a replica id exactly when their trimmed texts have one hash, or hashes zero and one |
| Bootstrap.ValidAddressExactly | internal/raftsvc/peer_address.go:30-46 | an address is accepted, trimmed, exactly when it splits into a host and a port that are not blank |
| Bootstrap.Members.BootstrapPeers | internal/raftsvc/bootstrap_peers.go:31-47 | fails exactly when a named peer's address is malformed; otherwise lists every trimmed id once with the local node at its own address, in whatever order the configuration is read |
| Bootstrap.Members.ReplicaTargetsFromPeers | internal/raftsvc/bootstrap_peers.go:61-91 | fails exactly when two ids share a replica id; otherwise one target per id at its address, every member remembered and every address leading to a member that has it; either way nothing is forgotten and only members of the table are added |
| Bootstrap.Members.BootstrapReplicaTargets | internal/raftsvc/bootstrap_peers.go:13-29 | fails exactly on a blank local id, a malformed peer or a collision; otherwise the targets of the peer table, with the local node already among them |
| Bootstrap.TablesAgree | internal/raftsvc/bootstrap_peers.go:31-47 | nodes sharing a peer list with distinct ids, each listed and advertising its listed address, build the same table |
| Bootstrap.BootstrapAgreement | internal/raftsvc/bootstrap_peers.go:13-97 | any results that such nodes may compute are the same replica-to-address map |
| Bootstrap.FailuresAgree | internal/raftsvc/bootstrap_peers.go:61-91 | such nodes fail on the same collisions |
| Bootstrap.MembersInvert | internal/raftsvc/member_identity.go:30-40 | after a success replica ids are one-to-one with member ids, and nodeIDForMember inverts them whatever address it is given |
| Bootstrap.MemberLookupIsHistory | internal/raftsvc/member_identity.go:10-40 | after any calls of rememberMember and forgetMember, nodeIDForMember gives the id last remembered for the replica unless forgotten since, else the id last remembered at the address even if forgotten, else the number |
| PathClean.CleanIsClean | internal/ingress/routing.go:42-48 | cleaning a rooted path leaves no empty, dot or dot-dot segment and no trailing slash |
| PathClean.CleanFixed | internal/ingress/routing.go:42-48 | cleaning a clean path changes nothing |
| PathClean.CleanDotDot | internal/ingress/routing.go:42-48 | a dot-dot segment takes back the ordinary segment before it |
| PathClean.CleanRootDotDot | internal/ingress/routing.go:42-48 | a dot-dot at the root changes nothing |
| PathClean.CleanDropsDots | internal/ingress/routing.go:42-48 | an empty or dot segment changes nothing |
| PathClean.CleanTrailingSlash | internal/ingress/routing.go:42-48 | a trailing slash changes nothing, except on the empty path |
| PathClean.CleanFront | internal/ingress/routing.go:42-48 | at the front of an unrooted path a dot, and an ordinary segment taken back, vanish |
| PathClean.CleanClimbing | internal/ingress/routing.go:42-48 | an unrooted path keeps its leading dot-dots, and the empty path cleans to a dot |
| PathClean.NormalizedTwice | internal/ingress/routing.go:42-48 | normalizing twice is normalizing once, and the result is clean, exactly for the paths that settle: every rooted one and every other one that cleaning leaves with ordinary segments only |
| Routing.MetaShape | internal/ingress/routing.go:16-40 | the shape of an accepted route's prefix and default strip path |
| Routing.MetaExactly | internal/ingress/routing.go:16-62 | an accepted route has its path prefix without the spaces and then the slashes around it, and the cleaned strip prefix or by default the cleaned prefix |
| Routing.MatchesExactly | internal/ingress/routing.go:64-73 | a rooted path matches exactly when the prefix's segments begin its segments |
| Routing.PathRelExactly | internal/ingress/routing.go:76-91 | a path is stripped exactly when it begins with the strip path, to what is left below it |
| Routing.RewriteExactly | internal/ingress/vale_app.go:144-164 | exactly which path goes upstream for every request, and which requests get a 404 |
| Routing.CleanedPrefix | internal/ingress/routing.go:16-62 | cleaning a prefix of ordinary segments, however many slashes surround it, gives back those segments |
| Routing.MatchedPrefixIsOrdinary | internal/ingress/routing.go:64-73 | a prefix that matches some clean path is made of ordinary segments, although prefixes are not cleaned |
| Routing.DefaultStripRebuilds | internal/ingress/routing.go:76-91 | with the default strip prefix every clean path that matches is stripped, and prefix plus result rebuilds it |
| Routing.SlashStripKeeps | internal/ingress/routing.go:76-91 | with strip prefix / every clean path that matches goes upstream unchanged |
| Routing.TwoHopsEqualOne | internal/ingress/vale_app.go:144-164 | for every prefix and every path that settles, rewriting on a forwarding node and then on the serving node gives what the serving node alone gives, and both answer 404 together |
| Routing.TwoHopsExactly | internal/ingress/vale_app.go:144-164 | for every prefix and every path, two hops give what the serving node alone gives exactly when the path settles, or does not match, or the prefix cleans to something below the root |
| Routing.TwoHopsDisagree | internal/ingress/vale_app.go:144-164 | at the root prefix, two hops and one give different paths for an empty request path |
| IngressCompile.DeployAppsBySortKey | internal/ingress/deploy_compile.go:75-94 | ascending keys without repeats, and under each the last app with that key |
| IngressCompile.CompileIngressRoutes | internal/ingress/deploy_compile.go:52-73 | the routes of the apps in ascending order of their sort keys |
| IngressCompile.RouteCompilesExactly | internal/ingress/deploy_compile.go:131-231 | a route compiles to a row exactly when its path is not blank and its backend exists: the last workload of that name, in it the first endpoint of that name, HTTP at a positive port; the row leads to another node's ingress if the workload runs there, else to the DNS address at that port |
| IngressCompile.AppRoutesExactly | internal/ingress/deploy_compile.go:106-122 | an app's rows are those of all its listed routes that compile, in listed order |
| IngressCompile.CompiledListForgetsOrder | internal/ingress/deploy_compile.go:52-122 | listing the same apps in any order compiles to the same route list, if apps with one sort key compile to the same routes |
| IngressCompile.OrderFreeExactly | internal/ingress/deploy_compile.go:52-122 | every order of a listing compiles to the same route list if and only if any two listed apps with one sort key compile to the same routes |
| IngressCompile.SortKeyVersusDeployKey | internal/ingress/deploy_compile.go:16-18 | exactly when two apps with one sort key have one deploy key |
| IngressCompile.SlashNamespaceAliases | internal/ingress/deploy_compile.go:16-18 | two apps with distinct deploy keys and one sort key |
| IngressCompile.SlashNamespaceReorders | internal/ingress/deploy_compile.go:75-94 | two apps with distinct deploy keys whose listing order changes the compiled list |
| IngressCompile.ForwardsExactlyWhen | internal/ingress/deploy_compile.go:188-231 | a route is forwarded exactly when the workload runs on another node whose ingress is known, and then to that node |
| IngressCompile.ForwardedOnce | internal/ingress/deploy_compile.go:188-231 | nodes that agree on the assignments never forward a route a second time |
| IngressCompile.UpstreamInjective | internal/ingress/deploy_compile.go:199-208 | an upstream determines the address and the port it was made from |
| IngressCompile.ForwardedRequestIsServedAlike | internal/ingress/deploy_compile.go:188-231 | for every rooted request, compile and rewrite on both nodes: two hops give the upstream the same path as one |
| IngressReplicas.ReplicasCompileAlike | internal/ingress/deploy_compile.go:52-122 | replicas at one place of the log, however they came there and in whatever order they list their apps, compile the same route list, if listed apps with one sort key compile to the same routes |
| IngressReplicas.ReplicaListingIsDistinct | internal/raftsvc/fsm_lookup.go:28-39 | what a replica lists has no two apps with one sort key, and compiles to the same routes in every order, whenever no namespace starts with a slash |
| IngressReplicas.ListingIsDistinct | internal/raftsvc/fsm_lookup.go:28-39 | a listing of the stored apps has no two with one sort key, when no namespace starts with a slash |
| Placement.PreferredNames | internal/placement/v1alpha1.go:131-145 | the trimmed, non-blank names in order of first occurrence, and whether the workload restricts its nodes |
| Placement.PreferredHolds | internal/placement/v1alpha1.go:131-145 | the preference list holds exactly the non-blank names that some entry trims to |
| Placement.PreferredDistinct | internal/placement/v1alpha1.go:131-145 | no name is in the preference list twice |
| Placement.PreferredInOrder | internal/placement/v1alpha1.go:131-145 | names come in the order of their first occurrence |
| Placement.PreferredRank | internal/placement/v1alpha1.go:152-167 | the index of the first occurrence, or last place |
| Placement.BeforeIsStrictTotal | internal/placement/v1alpha1.go:120-127 | the order on candidates is strict and total |
| Placement.ShouldReplaceCandidate | internal/placement/v1alpha1.go:120-127 | over ascending ids the test decides the whole order, node id included |
| Placement.BestPlacementCandidate | internal/placement/v1alpha1.go:85-118 | the fold returns a candidate that comes before every other one, or nothing when there is none |
| Placement.ChooseV1Alpha1 | internal/placement/v1alpha1.go:18-73 | with a catalog, places exactly when some allowed feasible node exists, on the one that comes before all others; with none, on the fallback node |
| Placement.PlacementIsUnique | internal/placement/v1alpha1.go:85-127 | there is only one such node |
| Placement.FeasibleExactly | internal/placement/v1alpha1.go:169-195 | a node is feasible exactly when it has the requested memory free and the requested millicores idle |
| Placement.CandidateExactly | internal/placement/v1alpha1.go:54-83 | exactly which nodes may be chosen: in the catalog, named if the workload names nodes, and with the memory and millicores free that it asks for |
| Placement.BeforeExactly | internal/placement/v1alpha1.go:120-202 | the order compares CPU usage, then free memory, then the place in the preference list, then the ids |
| DnsNames.ParseExactly | internal/dnssvc/workload_dns.go:48-65 | a name is accepted with an answer exactly when it is those two dot-free labels, any number of stray dots and the service suffix |
| DnsNames.RoundTrip | internal/dnssvc/workload_dns.go:35-65 | a printed name parses back to its labels exactly when they are dot-free and the workload is not blank |
| DnsNames.AnsweredExactly | internal/dnssvc/workload_dns.go:35-65 | for every name, exactly which workload and namespace its printed form is answered for: the two labels left when the dots around are dropped |
| DnsNames.AnsweredForAnotherExactly | internal/dnssvc/workload_dns.go:35-65 | a printed name is answered for another workload exactly when dropping the dots around leaves two labels that were not two labels before |
| DnsNames.ZoneSettled | internal/config/dns.go:62-68 | exactly which configured zones are in settled form |
| DnsNames.ZoneDotsAreDropped | internal/dnssvc/workload_dns.go:35-46 | dots around the zone do not get into a service name |
| DnsNames.NamesAreKeys | internal/dnssvc/workload_dns.go:26-46 | for plain labels, the record key, the service name and the labels determine one another |
| DnsNames.DottedNamesAlias | internal/dnssvc/workload_dns.go:26-46 | moving a dot between workload and namespace keeps the service name and changes the record key |
| DnsNames.LeadingDotIsAnotherWorkload | internal/dnssvc/workload_dns.go:48-65 | a workload name with a leading dot is answered for the workload without it |
| DnsNames.TrailingDotIsAnotherNamespace | internal/dnssvc/workload_dns.go:48-65 | a namespace with a trailing dot is answered for the namespace without it |
| DnsNames.BlankWorkloadIsAnother | internal/dnssvc/workload_dns.go:48-65 | a blank workload in a two-label namespace is answered for a workload named by the first label |
| WorkloadDns.Dns.UpsertWorkloadA | internal/dnssvc/workload_dns.go:68-102 | store and index after an upsert, for every outcome of its store calls, and when it reports an error |
| WorkloadDns.Dns.RemoveWorkloadA | internal/dnssvc/workload_dns.go:105-120 | store and index after a removal, for every outcome of its store call, and when it reports an error |
| WorkloadDns.GenuineKeysDiffer | internal/dnssvc/workload_dns.go:76-99 | records published for names that do not clash have different store keys |
| WorkloadDns.RunsAreTied | internal/dnssvc/workload_dns.go:68-120 | on every run over names that do not clash, whatever store calls fail, every published record is in the store |
| WorkloadDns.RunsAreExact | internal/dnssvc/workload_dns.go:68-120 | when moreover no stale record is left behind, the store holds what it started with and exactly the published records |
| WorkloadDns.TiedExactly | internal/dnssvc/workload_dns.go:68-120 | every run over a set of names keeps the published records stored if and only if no two of the names clash |
| WorkloadDns.ExactExactly | internal/dnssvc/workload_dns.go:68-120 | the store is exact after every tidy run if and only if no two of the names clash |
| WorkloadDns.ClashExactly | internal/dnssvc/workload_dns.go:26-46 | canonical names clash exactly when two of them with different index keys share a service name |
| WorkloadDns.DotFreeNeverClash | internal/dnssvc/workload_dns.go:26-46 | dot-free names never clash |
| WorkloadDns.IndexServesLatest | internal/dnssvc/workload_dns.go:68-120 | on every run over names that share no index key, dotted ones included, the index holds per workload the record of its last effective upsert unless withdrawn since |
| WorkloadDns.LatestExactly | internal/dnssvc/workload_dns.go:68-120 | every name is answered with its latest record on every run if and only if no two of the names share an index key |
| WorkloadDns.SlashFreeNeverShares | internal/dnssvc/workload_dns.go:26-32 | names whose namespaces have no slash share no index key |
| WorkloadDns.LatestIsStored | internal/dnssvc/workload_dns.go:68-120 | the latest record of a name is in the store, where the resolver reads it |
| WorkloadDns.LatestHoldsLastAddress | internal/dnssvc/workload_dns.go:68-120 | if the library keeps a record's data, the latest record of a workload holds the trimmed address of the last call that published it |
| WorkloadDns.LookupAssignment | internal/dnssvc/workload_dns.go:155-195 | the address of the first running assignment of the workload that has an IPv4 address |
| WorkloadDns.FallbackOrderExactly | internal/dnssvc/workload_dns.go:155-195 | the answer from the assignments is independent of their order if and only if all that answer have one address, or the name is blank |
| WorkloadDns.LookupWorkloadIPv4 | internal/dnssvc/workload_dns.go:122-153 | the published record if it holds an IPv4 address, the assignments otherwise, and never anything that is not an IPv4 address |
| WorkloadDns.QueryServesLatest | internal/dnssvc/forwarding_handler.go:100-133 | after every run, when the resolver answered name-error or refused and an address is asked for, a query for a dot-free service name is answered with its latest record if that is an IPv4 address, and otherwise with the address of the first running assignment of the lowered labels that has one; in every other case with nothing |
| WorkloadDns.AssignmentAnswersItsName | internal/dnssvc/workload_dns.go:191-195 | a running assignment is reached through its service name exactly when its names are in lower case |
| WorkloadDns.DottedNamesClash | internal/dnssvc/workload_dns.go:26-46 | names that differ only in where the dot falls clash, whatever the library does |
| DeployWatch.Snapshot.CollectAssignments | cmd/orch-cli/cmd/cluster_watch.go:178-199 | the loop selects the expected assignments, counts the running ones of the expected generation and keeps the first failed one |
| DeployWatch.Snapshot.CollectWorkloads | cmd/orch-cli/cmd/cluster_watch.go:201-212 | the loop selects the expected runtime rows and counts the running ones |
| DeployWatch.SelectExactly | cmd/orch-cli/cmd/cluster_watch.go:178-212 | the rows collected are those expected, all of them, in listed order |
| DeployWatch.Snapshot.Record | cmd/orch-cli/cmd/cluster_watch.go:102-114 | failure exactly when a failed assignment was found, success exactly when none was and both counts equal the total |
| DeployWatch.ExpectedDeployWorkloads | cmd/orch-cli/cmd/cluster_watch.go:144-160 | the keys and names of the workloads that have a key |
| DeployWatch.ExpectedExactly | cmd/orch-cli/cmd/cluster_watch.go:144-160 | exactly which names and keys an app expects |
| DeployWatch.Poll | cmd/orch-cli/cmd/cluster_watch.go:162-176 | one poll gives the verdict of its two listings |
| DeployWatch.RunningMeansAll | cmd/orch-cli/cmd/cluster_watch.go:178-199 | when no running assignment is listed twice, the running count equals the total exactly when every expected key runs at the expected generation |
| DeployWatch.CountReachesAll | cmd/orch-cli/cmd/cluster_watch.go:178-212 | without repeats among the rows that count, the count reaches the number of expected keys exactly when each is covered; with a repeat the two never hold together |
| DeployWatch.RunningMeansReplicated | cmd/orch-cli/cmd/cluster_watch.go:162-199 | over what a replica lists, exactly when the replicated state holds such an assignment under every expected key |
| DeployWatch.FailureIsReported | cmd/orch-cli/cmd/cluster_watch.go:102-114 | failure is reported exactly when an expected assignment of the expected generation has failed, so success never is |
| DeployWatch.SuccessExactly | cmd/orch-cli/cmd/cluster_watch.go:140-212 | for distinct assignment keys and any notion of which rows are the app's own: when none of its workloads is up twice and no row of another app is counted, success means exactly that every expected key and every expected workload of the app is running; otherwise the two never hold together |
| DeployWatch.KeysMatchNames | cmd/orch-cli/cmd/cluster_watch.go:144-160 | an app expects as many names as keys exactly when no two workload names differ only in spaces around them |
| DeployWatch.NamesakesAreCounted | cmd/orch-cli/cmd/cluster_watch.go:201-212 | at every generation, a row of another app with an expected name gives success while the app's own workload is down, and keeps the watch pending while it is up |

## Left out

- Dragonboat: Raft consensus and log agreement; the model starts from an agreed log.
- The JSON and YAML text, SHA-256 and FNV themselves, invalid UTF-8, and lower-casing outside ASCII.
- Float rounding in placement: percentages are exact reals. NaN usage and overflow of cores times 1000 are not modelled.
- The tunnel session as a class: its methods are steps of a transition system, because what matters is how they interleave.
- Release of the device and the socket when a forwarder exits by itself, and the `lastTunnelOK` and `lastTunnelPeer` log state.
- Cancellation of the poll loop's own context: the loop then ends without a call to the session.
- TunnelTheorems.WaitIsBounded: does not say that a cancelled forwarder returns, only that the wait ends once it does.
- EncapV0.Encode: payloads over 2^32-1 bytes, on which the code panics, are excluded.
- The resolver over the record store: its outcome is a parameter. Also the SOA record's contents, a handler without a workload index, upstream forwarding, and the search domain list.
- Vale's choice among matching routes and its URL joining; the list of several upstreams of one configured route.
- The URL arithmetic of `remoteIngressBaseURL`: a node's base URL is an arbitrary function of its id.
- The loops over ingresses and routes inside one app: they only append, and are recursive functions here.
- DeployWatch.Poll: the retry loop, its timeout and the progress display around one poll, the nil app, and the early success of an app that expects nothing.
- Bootstrap.Members.BootstrapReplicaTargets: the log warning about a differing local address.
- BootstrapServerList and the membership changes after bootstrap.
- Dependency ordering, deploy submission and reconciliation, runtimes, HTTP endpoints, option merging and validators: library code, operating system calls, or easy members.
