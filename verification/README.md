# Quilkin: a verified model of the proxy's in-memory state

Quilkin is a UDP proxy for game servers. Its in-memory state is a set of redundant indexes, running
counters, memoized encodings and small concurrent protocols that must agree after every run. This
project models them in Dafny and proves that they do, or exactly when they do.

| file | component |
|---|---|
| Endpoints.dfy, Localities.dfy | addresses and their order, metadata, localities and their wire form |
| MultiMaps.dfy, Base.dfy | maps from a key to a non-empty set as indexes of a set of pairs; small helpers |
| EndpointSets.dfy | one locality's endpoints, token map, version, memoized encoding, replacement deltas |
| Updates.dfy | provider actions, write guard, batches |
| Corrosion.dfy | the incremental event applier against a rebuild |
| TokenIndex.dfy | the cluster-wide token index |
| Clusters.dfy | `ClusterMap`: sets, owners, index, endpoint count |
| Batcher.dfy | update batchers of all namespaces as an interleaved state machine |
| Kubernetes.dfy | the batcher object and the event processor that feeds it |
| Discovery.dfy | delta discovery between a server and a client, and the database bridge |
| Sessions.dfy | the upstream session pool |
| Servers.dfy | the reverse index of servers by token |
| Ttl.dfy, RateLimit.dfy | the TTL map and the rate limiter over it |
| Qcmp.dfy, Nonces.dfy | the QCMP codec, and the nonce-leasing ping protocol |
| Routing.dfy | static token generation, capture, token router and filter chain, end to end |
| Tracking.dfy | packed allocation counters under interleaved gathers |

Conventions. Objects that the source updates in place are classes with a `Valid()` invariant;
concurrent maps and atomics are fields, and each call on an object is one step. Batcher, Nonces and
Tracking are state machines over the finer steps that really interleave. An `EndpointSet` is owned by its map
entry and is modelled as a value that the map reassigns. Hash-order iteration is an arbitrary
choice in every loop; `BTreeMap` iteration follows the address order. The token hash and the
content hash are function parameters; where a result needs them not to collide, it says so for the
finite set of values at hand. Clocks are parameters in nanoseconds that do not go back, ports given
by the operating system are new ones, and integers are unbounded except where their width is the
subject (the codec, the packed counters, the token counter).

Where the code does something else than its comments, names or evident purpose suggest, the model
follows the code, gives a concrete input or run, and states exactly when the intended property holds:

- Two namespaces' batchers can lose each other's endpoints: `Batcher.RemovalLosesStranger`,
  `Batcher.InsertionLosesStranger`; exactly when not: `Batcher.BatchersAreLinearizable`.
- An operation of one namespace can take another's endpoint: `Batcher.SharedNameRemovesStranger`;
  exactly when not: `Batcher.OpSparesStrangers`.
- Replies from an IPv4-mapped destination may reach another client:
  `Sessions.MappedDestinationMisroutes`; exactly when not: `Sessions.ReplyComesBack`.
- A ping that fails to send or is dropped leaves its waiter registered: `Nonces.WaiterLeftBehind`; no
  other ping does: `Nonces.NoLeaksKept`, `Nonces.CollisionMeansAbandoned`.
- The rate limiter does not keep to twice max_packets for every period: `RateLimit.ElseTheBoundFails`,
  `RateLimit.AtMostTwiceMax`. The condition is exact for sweeps every sixty seconds that may come up to
  a nanosecond late.
- The incremental token map drifts from a rebuild: `Corrosion.CollidingUpdateLosesEntry`,
  `Corrosion.ForgetfulInsertKeepsEntry`; exactly when not: `Corrosion.PatchRefinesRebuild`,
  `Corrosion.IncrementalRefinesRebuild`.
- After a change stream the old encoding is served and clients are told nothing:
  `Corrosion.InsertIsNotServed`; exactly when that matters: `Corrosion.StaleAfterStream`,
  `Discovery.StreamIsNotAnnounced`, `Discovery.RoundAgreesExactly`.
- Localities that share a name keep being sent: `Discovery.ClashingNamesNeverSettle`; exactly when
  answers can settle: `Discovery.AnswersCanSettle`.
- Some parsed localities do not survive the wire: `Localities.ParsedMayDangle`; exactly which do:
  `Localities.WireRoundTrip`.
- Colliding contents are served stale: `EndpointSets.CollisionServesStale`; exactly when not:
  `EndpointSets.MemoIsSafe`.
- Removing a locality leaves its tokens in the cluster-wide index: `TokenIndex.DropLeavesToken`;
  exactly when that is no loss of exactness: `TokenIndex.DropKeepsIndexExact`.
- A restarted listing keeps the servers of the unfinished one: `Kubernetes.StaleServerSurvives`;
  exactly when not: `Kubernetes.ResetMatchesListing`.
- An accepted change is not written to the database by its own call: `Discovery.UnknownIcaoDefersServer`;
  exactly when it is: `Discovery.DatabaseFollows`. The datacenter's arrival makes up for it in one
  locality of the peer: `Discovery.Bridge.InsertDc`; exactly when the database is then right:
  `Discovery.CatchUpFollows`.
- The endpoint count can exceed the number of endpoints: `Batcher.InsertionLosesStranger`; exactly when
  not: `Batcher.CountIsTotal`.
- A late QCMP reply is returned by the next ping with its nonce: `Nonces.LateReplyIsMisattributed`;
  exactly which ping a reply reaches: `Nonces.ReplyReaches`; runs in which every ping returns its own:
  `Nonces.CleanRunsKeepOwn`. The pool has 255 nonces, although the waiter capacity constant says 256.
- Truncation to seconds may cost a TTL entry up to a second: `Ttl.SecondMayBeLost`,
  `Ttl.LifetimeBounds`.

`dafny verify dfyconfig.toml` checks the whole project.

## Model

| member | source | states |
|---|---|---|
| `Endpoints.AddressOrder` | src/net/endpoint/address.rs:36-42 | The derived order on addresses (names before IPs, host before port) is a total order, so `BTreeMap` iteration is well defined |
| `Endpoints.OrderMeans` | src/net/endpoint/address.rs:36-42 | Names come before IPv4 and these before IPv6 addresses, smaller hosts first, a name before its extensions; on one host the smaller port comes first |
| `Localities.WireRoundTrip` | crates/xds/src/locality.rs:140-156 | A locality survives conversion to its protobuf form and back if and only if its buffer holds nothing beyond the parts that its offsets name |
| `Localities.MadeSurvivesWire` | crates/xds/src/locality.rs:35-62 | Every locality built from region, zone and sub-zone survives the wire |
| `Localities.MadeFromParts` | crates/xds/src/locality.rs:35-62 | The buffer joins the parts that are there, a sub-zone only after a zone; offsets and protobuf form give the parts back |
| `Localities.MadeIsParsed` | crates/xds/src/locality.rs:35-138 | A locality made of parts without separators, the region not empty, is the one its own name parses to |
| `Localities.ParseAccepts` | crates/xds/src/locality.rs:103-138 | A name parses if and only if its region is not empty and it has at most three parts; region and zone end at the first and second separator, an empty zone counting as none |
| `Localities.ParsedMayDangle` | crates/xds/src/locality.rs:103-156 | Parsing accepts `eu:`, which comes back from the wire as `eu` |
| `EndpointSets.BuildTokenMap` | src/net/cluster.rs:382-394 | Built pair by pair in any iteration order, the token map is the one index of all (token hash, address) pairs, without empty entries |
| `EndpointSets.IndexTokens` | src/net/cluster.rs:386-391 | Adding one endpoint's tokens adds exactly its pairs to the index |
| `EndpointSets.Update` | src/net/cluster.rs:361-378 | Version and token map become those of the current endpoints |
| `EndpointSets.New` | src/net/cluster.rs:222-227 | A new set has a true version, an exact index and no memo |
| `EndpointSets.WithVersion` | src/net/cluster.rs:235-241 | As a new set, except that the version is the caller's |
| `EndpointSets.CollectUpserted` | src/net/cluster.rs:408-428 | Lists, once each, exactly the addresses whose tokens are new or changed, with the new tokens |
| `EndpointSets.CollectRemoved` | src/net/cluster.rs:430-439 | Lists, once each, exactly the addresses that are gone |
| `EndpointSets.TokenMapDiff` | src/net/cluster.rs:489-514 | The diff has the new entry of every new token hash and a deletion for every vanished one |
| `EndpointSets.Replace` | src/net/cluster.rs:397-451 | The new set has the replacement's endpoints, its version unless that is zero, the old length, the token diff, and a delta that reports exactly the change in tokens |
| `EndpointSets.PartialReplace` | src/net/cluster.rs:455-486 | Address by address: the replacement comes in, of the rest what the filter owns goes and what it does not stays; version and index are rebuilt |
| `EndpointSets.ReplayReaches` | src/net/cluster.rs:397-451 | Replaying a reported delta on the old tokens gives exactly the new ones |
| `EndpointSets.DeltaMinimal` | src/net/cluster.rs:397-451 | Every delta with the same effect contains the reported one; its two lists do not overlap |
| `EndpointSets.DeltasTelescope` | src/net/cluster.rs:789-843 | Replaying from nothing the deltas of any sequence of applies gives exactly the last content |
| `EndpointSets.EncodedCluster` | src/net/cluster.rs:318-341 | The memo answers when version and locality match and is refilled otherwise |
| `EndpointSets.PerformKeepsTruth` | src/net/cluster.rs:361-378 | Every edit, replacement or encoding keeps version, index and memo true |
| `EndpointSets.RunKeepsTruth` | src/net/cluster.rs:131-176 | The same over every run of guard edits, replacements with vouched versions, partial replacements and encodings |
| `EndpointSets.MemoWasVisited` | src/net/cluster.rs:318-341 | The memo only ever shows a content that the set went through in the run |
| `EndpointSets.MemoizedEncodingAgrees` | src/net/cluster.rs:318-341 | After any such run the returned resource is for the asked locality and shows the current addresses and tokens, if the content hash tells the contents of the run apart |
| `EndpointSets.MemoIsSafe` | src/net/cluster.rs:318-341 | For a set of contents, every run through them is encoded currently if and only if the content hash tells them apart |
| `EndpointSets.CollisionServesStale` | src/net/cluster.rs:361-378 | If two contents collide, the first is still served after a change to the second |
| `Updates.EndpointSetWriteGuard.constructor` | src/net/cluster.rs:126-129 | The guard starts with the set's endpoints and nothing to rebuild |
| `Updates.EndpointSetWriteGuard.ReplaceEndpoint` | src/net/cluster.rs:140-150 | Inserts or overwrites and returns the previous endpoint |
| `Updates.EndpointSetWriteGuard.RemoveEndpoint` | src/net/cluster.rs:152-159 | Removes by address and says whether it was there |
| `Updates.EndpointSetWriteGuard.RemoveNamed` | src/net/cluster.rs:161-175 | Removes the least address whose metadata has the name, if any, and says whether there was one |
| `Updates.EndpointSetWriteGuard.Close` | src/net/cluster.rs:131-137 | Dropping the guard rebuilds version and index exactly when something was touched |
| `Updates.ActionActs` | src/net/cluster.rs:1278-1308 | An upsert sets one address, a removal by endpoint removes one, a removal by name removes the least address whose metadata has the name and nothing if there is none |
| `Updates.BatchDecides` | src/net/cluster.rs:1272-1311 | After any batch the last action about an address decides it, unless a later removal by its name took it; an address that no action is about is as it was under the same proviso |
| `Updates.ApplyOne` | src/net/cluster.rs:1278-1308 | One action has its meaning, stated on the endpoints, and its gain is the change in size |
| `Updates.ApplyUpdateBatchToGuard` | src/net/cluster.rs:1272-1311 | A batch is its actions in order, the last action about an address decides it, and the result is exactly the number of endpoints gained or lost |
| `Updates.BatchSplit` | src/net/cluster.rs:1272-1311 | However a run of actions is cut into batches, the outcome is the same |
| `Corrosion.InsertTokens` | src/net/cluster.rs:570-579 | Inserting tokens adds exactly the address's entries |
| `Corrosion.RemoveTokens` | src/net/cluster.rs:581-601 | Removing tokens removes exactly the address's entries and leaves no empty entry |
| `Corrosion.PatchMap` | src/net/cluster.rs:603-680 | One change event patches a token map by exactly the pairs that the event's rule adds and removes |
| `Corrosion.PatchedEntry` | src/net/cluster.rs:603-680 | In any index a change adds the hashes of the tokens it adds, and removes those of the tokens it drops, of its address, and touches nothing else |
| `Corrosion.StreamDecides` | src/net/cluster.rs:518-685 | After any stream the last row of an address decides whether it is there and with which tokens, and an address without rows is as it was; other metadata outlives updates only |
| `Corrosion.LastIsHighest` | src/net/cluster.rs:539-556 | The change id is the highest of the one before and those the stream brought |
| `Corrosion.CorrosionApply` | src/net/cluster.rs:518-685 | A stream is folded into the endpoints, where the last row of an address decides, into the set's token map and into the shared map, whatever these indexed before; version and memo stay; the change id is the highest seen; the result is the change in size |
| `Corrosion.PatchRefinesRebuild` | src/net/cluster.rs:603-680 | One change keeps the patched index equal to a rebuilt one if and only if it is harmless: an insert keeps the known tokens' hashes, an update drops no token whose hash a kept one shares |
| `Corrosion.CollidingUpdateLosesEntry` | src/net/cluster.rs:649-659 | An update that drops a token sharing its hash with a kept token loses the kept one's entry |
| `Corrosion.IncrementalRefinesRebuild` | src/net/cluster.rs:518-685 | Over any stream the incremental pairs are those of a rebuild after every prefix if and only if every change is harmless |
| `Corrosion.PatchedMapsAreRebuilt` | src/net/cluster.rs:382-394 | After any such stream the patched map is the rebuilt map, without empty entries |
| `Corrosion.ForgetfulInsertKeepsEntry` | src/net/cluster.rs:605-624 | An insert that forgets a token of a known address leaves the token's entry behind |
| `Corrosion.StaleAfterStream` | src/net/cluster.rs:318-341 | Encoded, streamed to and encoded again, a set is served with its old content, which is current if and only if the stream as a whole changed no address and no token |
| `Corrosion.InsertIsNotServed` | src/net/cluster.rs:605-624 | One row inserted into an encoded empty set: the set is still served empty |
| `TokenIndex.ApplyDiff` | src/net/cluster.rs:751-757 | Applying a token diff to the cluster-wide index is the patch from the old to the new token map |
| `TokenIndex.PutKeepsIndexExact` | src/net/cluster.rs:789-843 | Setting a locality keeps the cluster-wide index exact if and only if the other localities hold no hash that the patch overwrites or drops |
| `TokenIndex.PutsKeepIndexExact` | src/net/cluster.rs:731-843 | In every run of apply, insert and partial_replace in which no hash is ever held by two localities, the index is exact |
| `TokenIndex.DropKeepsIndexExact` | src/net/cluster.rs:987-996 | Removing a locality leaves the index as it is, so it stays exact if and only if another locality contributes the same pairs |
| `TokenIndex.DoKeepsCover` | src/net/cluster.rs:963-996 | Setting, removing and relocating a locality each keep every live token indexed |
| `TokenIndex.LiveTokensNeverMissing` | src/net/cluster.rs:963-996 | In every run with removals and relocations too, each live endpoint's token is indexed with exactly its locality's addresses |
| `TokenIndex.LookupIsExact` | src/net/cluster.rs:1027-1031 | With an exact index and no collision, a lookup finds the holders of the token and no one else |
| `TokenIndex.RunLookup` | src/net/cluster.rs:1027-1031 | After any run without shared hashes a lookup misses no holder and, without removals, relocations and collisions, finds no one else |
| `TokenIndex.DropLeavesToken` | src/net/cluster.rs:987-996 | A removed locality's token is still looked up |
| `Clusters.TotalWithout` | src/net/cluster.rs:987-996 | Taking a locality out takes exactly its endpoints out of the total |
| `Clusters.TotalWith` | src/net/cluster.rs:814-818 | Setting a locality changes the total by the difference in size |
| `Clusters.ListingSize` | src/net/cluster.rs:918-934 | The listing of all endpoints, in any order of localities, is as long as the total |
| `Clusters.ListingIsAll` | src/net/cluster.rs:918-934 | The listing has every endpoint of every locality, with its metadata, and no other |
| `Clusters.ListedLists` | src/net/cluster.rs:921-931 | One set is listed once each, from the least address to the greatest |
| `Clusters.ClusterMap.constructor` | src/net/cluster.rs:1095-1108 | An empty map counts no endpoint and has an exact index |
| `Clusters.PutFollows` | src/net/cluster.rs:808-840 | Replacing a locality's set by one with an exact index is one put of the index model |
| `Clusters.DropFollows` | src/net/cluster.rs:987-996 | Removing a locality is one drop of the index model |
| `Clusters.RelocateFollows` | src/net/cluster.rs:963-984 | Moving the unlocated set is one relocation of the index model |
| `Clusters.ClusterMap.Apply` | src/net/cluster.rs:789-843 | Accepted if and only if the locality is unowned or the caller's; then the set, owner, index, count, version and reported delta are the new ones, and the index model moves by one put; otherwise nothing changes |
| `Clusters.ClusterMap.Install` | src/net/cluster.rs:808-840 | The replacement itself: set, patched index, count, version and delta |
| `Clusters.ClusterMap.Store` | src/net/cluster.rs:814-820 | Storing a set moves the running count by the difference in size |
| `Clusters.ClusterMap.PartialReplaceAt` | src/net/cluster.rs:731-769 | Address by address the provider's endpoints are reset and the others kept, the index is patched and its model moves by one put, and the count stays the total |
| `Clusters.ClusterMap.BatchModify` | src/net/cluster.rs:881-910 | The endpoints are those of the batch applied to what was there, the last action about an address deciding; a locality left empty is removed, version and index of the set are rebuilt, the version counter moves, and the count stays the total |
| `Clusters.ClusterMap.Settle` | src/net/cluster.rs:898-909 | The count moves by what the batch gained, an empty locality goes, and the version counter moves by one or, with a removal, two |
| `Clusters.ClusterMap.DoRemoveLocality` | src/net/cluster.rs:987-996 | Removes set and owner; the count stays the total; the version counter moves if there was a set |
| `Clusters.ClusterMap.RemoveLocality` | src/net/cluster.rs:1010-1025 | Only the owner, or anyone if there is none, removes a locality |
| `Clusters.ClusterMap.MoveUnlocated` | src/net/cluster.rs:978-983 | The unlocated set moves over whatever was at the locality; the count stays the total |
| `Clusters.ClusterMap.UpdateUnlocatedEndpoints` | src/net/cluster.rs:963-984 | If the unlocated set is the caller's, it moves to the given locality with its owner; otherwise nothing changes |
| `Clusters.ClusterMap.RemoveContributor` | src/net/cluster.rs:999-1007 | Every locality of that owner becomes unowned, the others keep theirs |
| `Clusters.ClusterMap.CorrosionApply` | src/net/cluster.rs:1042-1064 | The dedicated locality, where the last row of an address decides, both token maps and the count follow the stream, whatever the maps indexed before; its version and memo stay |
| `Clusters.ClusterMap.NthEndpoint` | src/net/cluster.rs:936-950 | Present if and only if the index is below the running count, and then it is that element of the full listing, an endpoint of some locality |
| `Clusters.ClusterMap.AllEndpoints` | src/net/cluster.rs:918-934 | Exactly the endpoints of all localities, set by set, each set in address order |
| `Clusters.ClusterMap.AddressesForToken` | src/net/cluster.rs:1027-1031 | Appends, once each, the addresses indexed under the token's hash: after any run of applies, resets, removals and moves without shared hashes no holder is missing, and after applies and resets only, without collisions, exactly the holders |
| `Clusters.ModifySet` | src/net/cluster.rs:886-892 | A batch through a write guard on one set: its endpoints, its rebuilt index and its gain |
| `Clusters.InOrder` | src/net/cluster.rs:921-931 | The map iterator yields exactly the set's endpoints, from the least address to the greatest |
| `Clusters.NthInOrder` | src/net/cluster.rs:938-943 | The iterator advanced n times yields the n-th of them |
| `Batcher.LocalStep` | src/net/cluster.rs:1373-1439 | One step of a producer or of its batcher task keeps issued operations equal to applied, in-flight, queued and pending ones, in order |
| `Batcher.FireKeepsOrder` | src/net/cluster.rs:1335-1469 | So does every step of every batcher for all of them |
| `Batcher.RunKeepsOrder` | src/net/cluster.rs:1335-1469 | In every interleaving each producer's operations take effect in the order it issued them |
| `Batcher.ResetComesLast` | src/net/cluster.rs:1446-1468 | When a reset takes effect, everything its producer issued before has taken effect before it |
| `Batcher.FireIsLinear` | src/net/cluster.rs:881-910 | One step keeps the shared endpoints equal to the effective operations applied one by one if and only if it is harmless: a removal finds the locality still empty, an insertion finds nothing it must not overwrite |
| `Batcher.BatchersAreLinearizable` | src/net/cluster.rs:1335-1469 | In every interleaving of any number of batchers, with try-lock, take, modify, remove, look and insert as separate steps, the shared endpoints are at every moment those of the effective operations applied one by one if and only if every step was harmless |
| `Batcher.UndisturbedIsHarmless` | src/net/cluster.rs:881-910 | If no other namespace changes the locality between the two halves of a removal or of an insertion, every step is harmless |
| `Batcher.OneBatcherIsLinearizable` | src/net/cluster.rs:1335-1469 | A single batcher is linearizable without any condition |
| `Batcher.RemovalLosesStranger` | src/net/cluster.rs:896-908 | A run in which one namespace's removal of the locality it emptied takes along the endpoint the other has just put: at rest, in no order of the operations can the outcome be explained |
| `Batcher.InsertionLosesStranger` | src/net/cluster.rs:737-767 | A run in which two namespaces find no locality and the second insertion overwrites the first, with the same conclusion, and the endpoint count stays too high |
| `Batcher.CountDrifts` | src/net/cluster.rs:743-767 | In every interleaving the endpoint count is the number of endpoints plus all that insertions overwrote |
| `Batcher.CountIsTotal` | src/net/cluster.rs:743-767 | The count is the total if and only if no insertion of the run overwrote a non-empty set; an excess is never made up |
| `Batcher.QuietMeansApplied` | src/net/cluster.rs:1373-1406 | At rest after a harmless run nothing is lost: each producer's applied operations are its issued ones, and the endpoints are theirs |
| `Batcher.RemoveNamedIsLocal` | src/providers/k8s.rs:337-349 | A delete by name leaves the endpoints of other namespaces alone if and only if the first endpoint with the name, if any, is the namespace's own |
| `Batcher.ResetIsLocal` | src/providers/k8s.rs:233-243 | A reset leaves them alone if and only if every address it brings is free, its own, or already holds the same |
| `Batcher.OpSparesStrangers` | src/providers/k8s.rs:246-352 | Every operation leaves every other namespace's endpoints alone if and only if it meets no stranger at its addresses and finds its own name first |
| `Batcher.OpIsLocal` | src/providers/k8s.rs:246-352 | Such an operation changes its own namespace's share as if alone and no other share |
| `Batcher.NamespacesAreIsolated` | src/providers.rs:543-560 | Whatever the order in which namespaces' operations mix, if each spares strangers, each namespace's share is what its own operations alone would have made |
| `Batcher.SeparateHomesSpare` | src/providers.rs:543-560 | If no address and no server name is used by two namespaces, every operation spares strangers |
| `Batcher.QuietNamespaces` | src/providers.rs:543-560 | At rest after a harmless run of such operations each namespace has exactly the endpoints that its producer's operations call for |
| `Batcher.SharedNameRemovesStranger` | src/net/cluster.rs:1295-1307 | If two namespaces use one server name, a delete in one takes the other's endpoint |
| `Kubernetes.ClusterUpdateBatcher.constructor` | src/net/cluster.rs:1335-1371 | A batcher starts with an empty queue |
| `Kubernetes.ClusterUpdateBatcher.Flush` | src/net/cluster.rs:1419-1431 | The queue is emptied into the map; the logical endpoints (map with queue applied) do not change |
| `Kubernetes.ClusterUpdateBatcher.Push` | src/net/cluster.rs:1433-1439 | The logical endpoints move by the pushed action at once |
| `Kubernetes.ClusterUpdateBatcher.PartialReplace` | src/net/cluster.rs:1446-1468 | The reset falls on the map with the queue already applied |
| `Kubernetes.EventProcessor.constructor` | src/providers.rs:543-560 | A processor starts with no buffered servers |
| `Kubernetes.EventProcessor.ProcessEvent` | src/providers/k8s.rs:246-352 | Each event moves the endpoints and the buffer as the event alone says: an apply of a decoded, allocated server with an address sets it, a delete removes its address or the least one with its name, a finished listing resets the namespace to the buffer, and nothing else changes anything |
| `Kubernetes.OpsProcess` | src/providers/k8s.rs:246-352 | The operations an event issues have exactly that effect, for every event, endpoint map and buffer |
| `Kubernetes.BufferAllKeepsOld` | src/providers/k8s.rs:272-284 | Buffering a listing keeps what was buffered before, the first metadata of an address winning |
| `Kubernetes.ListingIsBuffered` | src/providers/k8s.rs:272-284 | Events without InitDone buffer exactly the usable servers they list, on top of what was there |
| `Kubernetes.ResetMatchesListing` | src/providers/k8s.rs:246-352 | For any events before an Init and any listing after it, InitDone resets to that listing if and only if everything an unfinished listing had left was listed again with the same metadata |
| `Kubernetes.DoneLeavesNothing` | src/providers/k8s.rs:285-319 | A finished listing leaves nothing for the next |
| `Kubernetes.StaleServerSurvives` | src/providers/k8s.rs:246-352 | A listing cut short and restarted resurrects the server it had seen |
| `Discovery.DeltaDiscoveryRequest` | src/config.rs:661-712 | Answers with exactly the localities asked for whose version the client does not have, each under its name, encoded, and memoizes those encodings only; with a subscription a locality that its own name parses to is asked for if and only if its name is subscribed; announces the unlocated set as removed if and only if the client has it and the server does not |
| `Discovery.AskedByName` | src/config.rs:661-701 | A subscription asks for a locality by its own name alone, and only if it is the one that the name parses to |
| `Discovery.Bridge.constructor` | src/config/corro.rs:55-64 | A bridge starts without statements |
| `Discovery.Bridge.RemoveLocality` | src/config/corro.rs:134-163 | Removes the locality if it may, and then writes one removal per server it had, in address order and under the peer, when peer and database are there |
| `Discovery.Bridge.WriteRemovals` | src/config/corro.rs:153-162 | One removal per server, in address order |
| `Discovery.Bridge.WriteDelta` | src/config/corro.rs:192-209 | The removals and then the upserts of a delta |
| `Discovery.Bridge.ApplyChanges` | src/config/corro.rs:165-210 | Applies the locality if it may; every statement written is the peer's, under its ICAO code, and tells of the change; the database then follows if and only if peer, ICAO code and database are there or nothing changed |
| `Discovery.StatementsReplay` | src/config/corro.rs:192-209 | The statements written for a delta replay it |
| `Discovery.DeltaTells` | src/config/corro.rs:192-209 | The statements for a delta name the peer, the ICAO code, removed servers and the new tokens of upserted ones |
| `Discovery.DatabaseFollows` | src/config/corro.rs:165-210 | The statements for a reported delta bring the database to the new content if and only if peer, ICAO code and database are there or nothing changed |
| `Discovery.UnknownIcaoDefersServer` | src/config/corro.rs:188-190 | A new server of a peer without known ICAO code is not written by the call that applies it |
| `Discovery.CatchUpFollows` | src/config/corro.rs:85-113 | The statements written when a peer's datacenter arrives add all servers of the locality and remove none; the database then holds the locality if and only if it held no server that is gone |
| `Discovery.Bridge.InsertDc` | src/config/corro.rs:67-113 | Writes the datacenter and then, under the peer and its ICAO code, all servers of one of the peer's localities, or nothing at all if the peer has no locality with a set |
| `Discovery.Bridge.WriteServers` | src/config/corro.rs:98-110 | One upsert per server, in address order |
| `Discovery.RemovedFromDatabase` | src/config/corro.rs:153-163 | The statements written for a removed locality leave none of its servers |
| `Discovery.DropNames` | src/config.rs:846-854 | Succeeds if and only if every name is empty or parses; in order up to the first that is neither, exactly the localities the names stand for go, where the remote may remove them |
| `Discovery.RemovedByName` | src/config.rs:846-854 | For any names and any owners: a locality goes if and only if some name stands for it and no other remote owns it |
| `Discovery.TakeResources` | src/config.rs:862-903 | Resources are applied in order up to the first that cannot be decoded; the last resource for a locality gives it its endpoints, version and owner, unless another remote owns it; every other locality is as it was |
| `Discovery.ReceivedLast` | src/config.rs:862-903 | The same for any sequence of decodable resources, localities being read off their protobuf form |
| `Discovery.ApplyDelta` | src/config.rs:839-906 | Succeeds if and only if every name is empty or parses and every resource is decoded; a failure keeps what came before it and drops the rest; names go first, then the last resource of a locality decides |
| `Discovery.AnnouncedRemovals` | src/config.rs:703-712 | The one removal a server announces is parsed and carried out as meant |
| `Discovery.ReceiveOne` | src/config.rs:890-902 | One received resource gives its locality the addresses and tokens sent, under the version sent if that is true |
| `Discovery.ReceiveEach` | src/config.rs:862-903 | Each resource of an answer lands in its own locality; all others stay |
| `Discovery.AckedAt` | crates/xds/src/config.rs:164-179 | After the acknowledgement the server believes the client to have exactly what it sent |
| `Discovery.RoundAgreesExactly` | src/config.rs:661-906 | Whatever the server's versions, memos and names, and for any subscription: after a round the client agrees with the server on what it asks for if and only if the memos of the localities sent are current and the client already agreed on those taken to be up to date |
| `Discovery.RoundConverges` | src/config.rs:661-712 | With true versions and distinct names, and for any subscription, one request, apply and acknowledge round makes the client agree with the server on every locality asked for, drops the unlocated set if the server has none, touches nothing else, and leaves the server's belief true |
| `Discovery.ParsedIsSound` | crates/xds/src/locality.rs:103-138 | Localities that their own names parse to, nothing dangling, have distinct names and survive the wire |
| `Discovery.AnswersCanSettle` | src/config.rs:661-712 | Some client state gets an empty answer if and only if equally named localities have equal versions and none but the unlocated set goes by the empty name alone |
| `Discovery.ClashingNamesNeverSettle` | src/config.rs:661-712 | Two localities made from different parts under one name: while their versions differ no answer is ever empty |
| `Discovery.StreamIsNotAnnounced` | src/net/cluster.rs:1042-1064 | After a change stream an up-to-date client gets an empty answer and disagrees from then on if and only if the stream as a whole changed an address or a token |
| `Discovery.SecondRoundIsEmpty` | src/config.rs:661-712 | A client that is up to date on what it asks for gets an empty answer |
| `Discovery.TakeRound` | src/config.rs:661-906 | The same for the server's and the client's methods run one after the other |
| `Discovery.EveryRoundConverges` | src/config.rs:839-906 | From first connection on, with the server and the subscription changing between rounds, every round converges |
| `Sessions.RunKeepsInv` | src/net/sessions.rs:227-345 | In every run of get and drop steps, two live sessions to one destination never share a socket, and every used socket is open |
| `Sessions.StepKeepsInv` | src/net/sessions.rs:227-295 | Each step keeps that, and opens a socket only when one destination uses all the others |
| `Sessions.SocketEconomy` | src/net/sessions.rs:240-294 | The number of sockets opened is the high-water mark, over the run, of simultaneous sessions to one destination, and never exceeds the session limit |
| `Sessions.DroppingAllEmpties` | src/net/sessions.rs:452-486 | Dropping all sessions in any order leaves no session; the sockets stay open |
| `Sessions.EmptyViews` | src/net/sessions.rs:90-109 | With no live session every storage map is empty, the ASN table too |
| `Sessions.SessionPool.NoSessionNoTrace` | src/net/sessions.rs:90-109 | A valid pool without sessions keeps no trace of any |
| `Sessions.AddViews` | src/net/sessions.rs:298-345 | How the three storage maps must follow a new session |
| `Sessions.RemoveViews` | src/net/sessions.rs:452-486 | How they must follow a closed one; exclusivity makes the removals exact |
| `Sessions.LoadIsPorts` | src/net/sessions.rs:240-294 | Each session to a destination occupies its own socket |
| `Sessions.ReplyIsUnambiguous` | src/net/sessions.rs:165-185 | A reply can reach at most one source |
| `Sessions.ReplyComesBack` | src/net/sessions.rs:165-185 | In every pool any run can reach, replies from a session's destination come back to its source, if and only if the destination was not asked for as an IPv4-mapped IPv6 address |
| `Sessions.MappedDestinationMisroutes` | src/net/sessions.rs:165-185 | A reachable pool in which replies for an IPv4-mapped destination go to another client |
| `Sessions.SessionPool.constructor` | src/net/sessions.rs:115-136 | An empty pool is valid |
| `Sessions.SessionPool.Obtain` | src/net/sessions.rs:227-295 | Existing session, reused socket or new socket as the step relation says; each error exactly under its condition; the two errors noted as unreachable never occur; the ASN table learns of a new session's source only |
| `Sessions.SessionPool.CreateSessionFromExistingSocket` | src/net/sessions.rs:298-345 | The session map and the storage maps gain exactly the new session |
| `Sessions.SessionPool.CreateNewSessionFromNewSocket` | src/net/sessions.rs:139-163 | A new socket is recorded and gets the session; if none can be opened nothing changes |
| `Sessions.SessionPool.Reserve` | src/net/sessions.rs:305-330 | The storage half of a new session |
| `Sessions.SessionPool.TakenSockets` | src/net/sessions.rs:251-254 | The sockets listed for a destination are those its sessions use |
| `Sessions.SessionPool.ReleaseSocket` | src/net/sessions.rs:452-486 | The storage maps lose exactly the closed session |
| `Sessions.SessionPool.Drop` | src/net/sessions.rs:567-571 | A dropped session leaves every map, and takes its source's ASN entry along; a stranger changes nothing |
| `Sessions.SessionPool.ProcessReceivedUpstreamPacket` | src/net/sessions.rs:165-185 | A packet on a session's port from its IPv4 or unmapped IPv6 destination, or from the mapped form of its IPv4 destination, goes to the session's source; any other goes to no one |
| `Base.SwapRemoveDrops` | src/net/servers.rs:77-97 | swap_remove drops exactly one element of a duplicate-free list, whatever it reorders |
| `Servers.Servers.constructor` | src/net/servers.rs:16-22 | An empty index is exact |
| `Servers.Servers.RemoveEndpointToken` | src/net/servers.rs:77-97 | Removes exactly the endpoint from the hash's list and the list if it becomes empty |
| `Servers.Servers.InsertEndpointToken` | src/net/servers.rs:100-114 | Appends the endpoint; the debug assertion fires if and only if it was listed |
| `Servers.Servers.RemoveTokens` | src/net/servers.rs:37-41 | Removes exactly the given tokens' entries |
| `Servers.Servers.InsertTokens` | src/net/servers.rs:43-54 | The assertion fires if and only if two tokens collide or one is listed; otherwise exactly their entries are added |
| `Servers.Servers.Upsert` | src/net/servers.rs:33-59 | On every input: the debug assertion fires if and only if two of the new tokens collide; otherwise the reverse index stays exact |
| `Servers.Servers.Remove` | src/net/servers.rs:65-74 | The server and every trace of it in the reverse index are gone |
| `Servers.UpsertPairs` | src/net/servers.rs:33-59 | Which entries an upsert must change, and that an insertion meets its own endpoint if and only if two new tokens collide |
| `Servers.RemovePairs` | src/net/servers.rs:65-74 | Which entries a removal must change |
| `Servers.ListedAreHolders` | src/net/servers.rs:33-114 | The list under a token's hash is non-empty, duplicate-free and names exactly the servers that hold the token |
| `Ttl.LifetimeBounds` | src/collections/ttl.rs:443-469 | Touched less than ttl minus a second ago an entry is spared, untouched for ttl it is not |
| `Ttl.SecondMayBeLost` | src/collections/ttl.rs:458-469 | The second is really lost: an entry can go a nanosecond after ttl minus one second |
| `Ttl.TtlMap.constructor` | src/collections/ttl.rs:128-145 | A new map is empty |
| `Ttl.TtlMap.Lookup` | src/collections/ttl.rs:164-171 | Returns the value and renews the entry |
| `Ttl.TtlMap.Insert` | src/collections/ttl.rs:224-229 | Stores the value with a new expiration and returns the previous one |
| `Ttl.TtlMap.Assign` | src/collections/ttl.rs:187-194 | Changing a value through a reference keeps the expiration |
| `Ttl.TtlMap.Remove` | src/collections/ttl.rs:233-235 | Removes the entry and says whether it was there |
| `Ttl.TtlMap.Prune` | src/collections/ttl.rs:390-418 | Check-then-retain equals an unconditional filter, with the lifetime bounds on either side |
| `RateLimit.AtMostTwiceMax` | src/filters/local_rate_limit.rs:99-154 | For a period up to the TTL (or below twice the TTL if one packet is allowed) and any run of packets and prunes, no span of a period accepts more than twice max_packets from a source |
| `RateLimit.ElseTheBoundFails` | src/filters/local_rate_limit.rs:34-154 | For every other configuration some run with a sweep at every tick of sixty seconds, none early and none more than a nanosecond late, exceeds that bound |
| `RateLimit.ThreeExpiries` | src/collections/ttl.rs:371-388 | Its run for periods from 120 s on: three windows, each ended by a punctual sweep |
| `RateLimit.ThreeBursts` | src/collections/ttl.rs:371-388 | Its run for periods between 60 s and 120 s: two sweeps that come too early for the bucket and one, a nanosecond late, that drops it |
| `RateLimit.RejectionIsDeserved` | src/filters/local_rate_limit.rs:99-154 | For every period, a rejection means that max_packets were accepted in a window begun at most a period ago |
| `RateLimit.AcceptedExactly` | src/filters/local_rate_limit.rs:99-154 | After any run a packet is accepted if and only if max_packets is not zero and its source has no bucket, its window is more than a period old, or fewer than max_packets were accepted in it |
| `RateLimit.NoneAllowed` | src/filters/local_rate_limit.rs:100-102 | With max_packets 0 no run has a packet accepted |
| `RateLimit.StepKeepsInv` | src/filters/local_rate_limit.rs:99-154 | Each packet and each prune keeps windows apart, packets placed and counts bounded |
| `RateLimit.RunKeepsInv` | src/filters/local_rate_limit.rs:99-154 | So does every run under a clock that does not go back |
| `RateLimit.LocalRateLimit.constructor` | src/filters/local_rate_limit.rs:83-87 | A new filter has no bucket and no history |
| `RateLimit.LocalRateLimit.Take` | src/filters/local_rate_limit.rs:99-154 | Counter, window start, expiration and verdict, case by case on the source's bucket; no other source is affected |
| `RateLimit.LocalRateLimit.AcquireToken` | src/filters/local_rate_limit.rs:99-154 | A packet moves its source's history by one step of the one-source model and is accepted exactly when that step accepts it |
| `RateLimit.LocalRateLimit.Prune` | src/collections/ttl.rs:390-418 | A prune moves every source's history by one step |
| `RateLimit.LocalRateLimit.SourceIsBounded` | src/filters/local_rate_limit.rs:99-154 | In every state of a filter with a bounded configuration, no source got more than twice max_packets through in any span of a period |
| `RateLimit.PacketMirrored` | src/filters/local_rate_limit.rs:99-154 | Why the map keeps mirroring every source's history over a packet |
| `RateLimit.PruneMirrored` | src/collections/ttl.rs:390-418 | And over a prune |
| `RateLimit.TryNew` | src/filters/local_rate_limit.rs:75-87 | A filter is made if and only if the period is at least one second |
| `Qcmp.FromToBe` | src/codec/qcmp.rs:616-670 | Reading a big-endian number back gives the number |
| `Qcmp.ToFromBe` | src/codec/qcmp.rs:746-811 | Writing a read big-endian number gives the same bytes |
| `Qcmp.I64RoundTrip` | src/codec/qcmp.rs:646-670 | 64-bit two's complement timestamps, negative ones too, round-trip both ways |
| `Qcmp.I64Spells` | src/codec/qcmp.rs:646-670 | Byte k of a timestamp is its value divided by 256 to the 7 - k, modulo 256, for negative values too |
| `Qcmp.FormatLaidOut` | src/codec/qcmp.rs:616-670 | Magic number, version, command, payload length, nonce and timestamps at their places |
| `Qcmp.QcmpPacket.constructor` | src/codec/qcmp.rs:48-55 | A packet is a zeroed buffer |
| `Qcmp.PacketBuilder.constructor` | src/codec/qcmp.rs:73-77 | A builder starts at offset zero |
| `Qcmp.PacketBuilder.Push` | src/codec/qcmp.rs:79-83 | Appends one byte to what is written |
| `Qcmp.PacketBuilder.PushSlice` | src/codec/qcmp.rs:85-89 | Appends a slice to what is written |
| `Qcmp.PacketBuilder.Finalize` | src/codec/qcmp.rs:91-96 | Sets the length and clears what an earlier message left behind |
| `Qcmp.Encode` | src/codec/qcmp.rs:616-637 | Whatever the buffer held, it then holds the message, laid out byte by byte in big-endian two's complement, and zeros |
| `Qcmp.EncodeHeader` | src/codec/qcmp.rs:617-621 | Writes magic, version, command and payload length |
| `Qcmp.EncodePayload` | src/codec/qcmp.rs:646-670 | Writes nonce and timestamps |
| `Qcmp.PacketParser.constructor` | src/codec/qcmp.rs:104-115 | A parser starts at offset zero |
| `Qcmp.PacketParser.Read` | src/codec/qcmp.rs:117-122 | An unchecked read, in bounds by its precondition |
| `Qcmp.PacketParser.ReadSlice` | src/codec/qcmp.rs:124-132 | The same for a slice |
| `Qcmp.FormatMeaning` | src/codec/qcmp.rs:616-811 | An input is a message's format if and only if it has its header and exact length and means it |
| `Qcmp.Parse` | src/codec/qcmp.rs:746-811 | On any input: a message if and only if the input is its format, which lays it out byte by byte; None if and only if the magic is missing, each error under exactly its condition; no read out of bounds |
| `Qcmp.RoundTrip` | src/codec/qcmp.rs:616-811 | Every ping and reply is printed and parsed back unchanged |
| `Qcmp.DelayIsOffsetFree` | src/codec/qcmp.rs:677-714 | In wrapping arithmetic the delay is the sum of the two distances and does not depend on the server's clock offset (section 8 of RFC 5905) |
| `Qcmp.DistancesAreTrue` | src/codec/qcmp.rs:677-714 | Incoming is server start minus client time, outgoing is response time minus server transmit, the delay their sum, whenever these fit 64 bits; a ping has none of them |
| `Nonces.NoncePool.constructor` | src/codec/qcmp.rs:145-155 | The pool holds the nonces 0 to 254 |
| `Nonces.NoncePool.Lease` | src/codec/qcmp.rs:157-180 | Takes the nonce at the random index out; none if and only if all are leased |
| `Nonces.NoncePool.Release` | src/codec/qcmp.rs:195-207 | A dropped lease returns its nonce |
| `Nonces.PartitionKept` | src/codec/qcmp.rs:145-207 | Every step keeps free and leased nonces a partition of 0 to 254 without duplicates |
| `Nonces.LiveKept` | src/codec/qcmp.rs:306-357 | No step of another ping displaces or unregisters a live ping's waiter |
| `Nonces.HonestKept` | src/codec/qcmp.rs:306-357 | A waiter is only ever registered under the nonce of its own ping |
| `Nonces.NoLeaksKept` | src/codec/qcmp.rs:306-357 | A ping that ran to its end leaves no waiter behind |
| `Nonces.CollisionMeansAbandoned` | src/codec/qcmp.rs:318-323 | Registering finds another waiter under the nonce only if that ping failed to send or was dropped |
| `Nonces.WaiterLeftBehind` | src/codec/qcmp.rs:306-335 | Runs in which a ping that fails to send, or is dropped before or after it is sent, leaves its waiter for the next ping with its nonce to find |
| `Nonces.GenuineKept` | src/codec/qcmp.rs:230-269 | Every reply under way, held or returned echoes the nonce and the timestamp of a ping that was sent |
| `Nonces.RepliesKept` | src/codec/qcmp.rs:230-269 | A reply a ping holds or returned always carries the ping's nonce |
| `Nonces.FireKeepsInv` | src/codec/qcmp.rs:306-357 | All of these under one step of any ping or of the receiver |
| `Nonces.RunKeepsInv` | src/codec/qcmp.rs:306-357 | All of these in every interleaving, from the start, of lease, register, send, send failure, answer, the receiver taking a waiter, its sending to it, timeout, unregistering and drop |
| `Nonces.AtMostOneReply` | src/codec/qcmp.rs:306-357 | A ping's reply is never replaced |
| `Nonces.ReceivedOnce` | src/codec/qcmp.rs:230-269 | A reply is taken off the wire once, and without a waiter for its nonce it is lost |
| `Nonces.ReplyReaches` | src/codec/qcmp.rs:230-269 | In every reachable state a reply reaches the ping it answers if and only if that ping still listens and has had no reply; it reaches another ping if and only if the answered one is over and the other listens under its nonce |
| `Nonces.DeliverReaches` | src/codec/qcmp.rs:249-252 | Between taking a waiter and sending to it the ping may end: the reply is then lost and goes to no one else |
| `Nonces.OwnExactly` | src/codec/qcmp.rs:306-357 | A step gives a ping a foreign reply if and only if it sends another ping's reply to a waiter that still listens |
| `Nonces.CleanRunsKeepOwn` | src/codec/qcmp.rs:306-357 | In every run in which no nonce is leased while a reply that carries it is under way, and no ping is answered after its nonce was leased again, every ping returns its own reply |
| `Nonces.LateReplyIsMisattributed` | src/codec/qcmp.rs:230-269 | A run in which a ping returns the answer to an earlier, timed-out one with its nonce: the reply echoes the earlier timestamp, not its own |
| `Routing.LeBytesInjective` | src/providers.rs:397-399 | Truncated little-endian counters below 256 to the length are distinct |
| `Routing.LeByteAt` | src/providers.rs:397-399 | Byte k of token i is i divided by 256 to the k, modulo 256 |
| `Routing.GenerateEndpoints` | src/providers.rs:349-403 | Fails exactly under the source's two panics; otherwise endpoint k has exactly the tokens of the counters from k times count on |
| `Routing.TokenInSlot` | src/providers.rs:388-403 | An endpoint has exactly the tokens of the counters in its slot |
| `Routing.StaticHolder` | src/providers.rs:349-403 | Token i is held by endpoint i / count and by no other |
| `Routing.ReadContext.constructor` | src/filters/read.rs:38-54 | A fresh context has the packet and no destination |
| `Routing.ReadContext.CaptureRead` | src/filters/capture.rs:67-91 | Captures the affix into the metadata and cuts it off if asked; fails, with the packet whole, if and only if the packet is too short |
| `Routing.ReadContext.TokenRouterRead` | src/filters/token_router.rs:54-74 | Adds exactly the addresses indexed under the captured token; each error under its condition |
| `Routing.ReadContext.FilterRead` | src/filters/chain.rs:284-292 | One filter of the chain |
| `Routing.ReadContext.ChainRead` | src/filters/chain.rs:276-304 | Filters run in order and stop at the first error; if all pass and none chose a destination, exactly the addresses of all endpoints are the destinations |
| `Routing.StaticChainRoutes` | src/providers.rs:367-384 | A packet that ends in a token loses it and goes exactly to the token's holders, or is dropped if there are none |
| `Routing.StaticTokenRouting` | src/providers.rs:349-403 | payload followed by token i leaves exactly payload, destined only to endpoint i / count |
| `Routing.RouteStatic` | src/providers.rs:349-403 | The same for provider, cluster map and filter chain run together |
| `Tracking.AddFollows` | src/alloc/tracking.rs:146-152 | A packed wrapping add follows the true totals modulo the word |
| `Tracking.DrainReads` | src/alloc/tracking.rs:154-161 | What a drain reads: an overflowing count spills into the size, an overflowing size is lost |
| `Tracking.DrainIsExact` | src/alloc/tracking.rs:154-161 | A drain returns the true totals if and only if count is below 2^30 and size below 2^34, and otherwise falls short |
| `Tracking.FireTracks` | src/alloc/tracking.rs:235-309 | One atomic step: what is stored, carried by gathers and left in cells stays equal to all events if and only if the step is not a late drain; a loss is never made up |
| `Tracking.RunConserves` | src/alloc/tracking.rs:235-309 | In every interleaving of allocations, frees and any number of gathers, every event stays counted exactly once if and only if every drain came in time |
| `Tracking.RestIsExact` | src/alloc/tracking.rs:235-264 | At rest the stored totals are exact if and only if every drain of the run came in time |
| `Tracking.RestBalance` | src/alloc/tracking.rs:235-264 | With nothing carried and nothing left in cells, what is tracked is what is stored |
| `Tracking.StatsAccumulator.constructor` | src/alloc/tracking.rs:206-232 | Sixteen empty buckets, no totals |
| `Tracking.StatsAccumulator.Add` | src/alloc/tracking.rs:146-152 | One packed add is one recording step |
| `Tracking.StatsAccumulator.Alloc` | src/alloc/tracking.rs:283-287 | Counts one allocation of the size |
| `Tracking.StatsAccumulator.Dealloc` | src/alloc/tracking.rs:290-294 | Counts one free of the size |
| `Tracking.StatsAccumulator.Realloc` | src/alloc/tracking.rs:297-309 | Counts one free of the old and one allocation of the new size |
| `Tracking.StatsAccumulator.Gather` | src/alloc/tracking.rs:235-264 | Empties every cell and returns the stored totals, which are exact if and only if nothing was lost before and no cell had overflowed |
| `Tracking.StatsAccumulator.Store` | src/alloc/tracking.rs:247-261 | The four additions to the stored totals add exactly what was drained |

## Left out

- Sockets, io-uring, XDP, gRPC and HTTP servers, the Kubernetes client, file watching, metrics, tracing, the command line: I/O plumbing.
- Phoenix network coordinates: floating point and an external solver.
- gxhash, protobuf, serde, base64, regex and QUIC capture, MaxMind: taken as parameters, or not modelled.
- Batcher.BatchersAreLinearizable: the condition is exact for the order in which operations take effect; that some other order might explain a harmful run is excluded only for the two losing runs.
- Races inside other calls on the cluster map (apply, remove, relocate, stream): each is one step; only batch_modify and partial_replace are split, in Batcher.
- Races inside one session `get`, lock poisoning and shard locking: each `get` and each session drop is one step.
- What the session pool's ASN table is used for (metrics), and the GeoIP lookup that fills it.
- Clusters.ClusterMap.BatchModify: says nothing about the cluster-wide token index, which the source documents as not maintained there.
- The datacenter table, the removal of datacenters and their statements, and datacenter resources of delta discovery: of these only the arrival of a datacenter and the servers written with it are modelled.
- Nonces.CleanRunsKeepOwn: a sufficient condition; the exact one is per step (`Nonces.OwnExactly`) and per reply (`Nonces.ReplyReaches`). Pings that reached their server twice are covered, packets that answer no ping are not.
- RateLimit.ElseTheBoundFails: for sweeps without any lateness the configuration of two packets in 119 seconds is not decided.
- Discovery.DeltaDiscoveryRequest: encoding a cluster cannot fail.
- Discovery.TakeResources: a payload that cannot be decoded, a version that is no number and an endpoint that does not parse are one case, a missing payload.
- Discovery.RoundConverges: assumes true versions on the server, which change streams violate (see `Discovery.StreamIsNotAnnounced`), distinct names, which localities made from parts with separators or an empty region can violate (see `Discovery.ClashingNamesNeverSettle`), and localities that survive the wire; of these `Discovery.RoundAgreesExactly` needs only the last. Both assume that no other server owns the localities.
- Kubernetes.EventProcessor.ProcessEvent: endpoint mutators, address selection and game server validation are inputs of the event.
- Routing.ReadContext.TokenRouterRead: a non-bytes value, unreachable in the source, is an error of its own.
- Routing.GenerateEndpoints: overflow of the product of addresses and count before it is compared is not modelled.
- Ttl.TtlMap.Insert: the entry interface (`entry`, occupied and vacant) repeats insert and get and is not modelled separately; clock errors are not modelled.
- Servers.Servers.Upsert: when the debug assertion fires, the state left behind is not described beyond the server table; release builds keep the duplicate entry.
- Tracking.StatsAccumulator.Gather: the differences `current_allocated_size` and `current_allocation_count`, the address hash that picks a bucket and overflow of the 64-bit totals are not modelled.
- Updates, removals and counters as machine integers (`i32` batch gain, `usize` endpoint count): unbounded here.
