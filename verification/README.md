# ggskit: verified models of its stateful cores

ggskit is the server toolkit of a Go game back end. This project models the parts of it that hold state across
calls, nodes or threads, and proves what they promise. `dafny verify dfyconfig.toml` checks everything.

| system | files | what is shown |
|---|---|---|
| actor registry: five Lua scripts, leases, change stream, one location cache per node | `ActorKeys`, `RegistrySpec`, `RegistryScripts`, `RegistryLaws`, `LocationCache`, `RegistryClient`, `RegistryCoherence`, `RegistryStaleness` | both storage layouts refine one abstract record; fencing with its exact exception, exclusive ownership and the revision law over whole runs; the exact safety window of the cache; cache coherence across nodes; bounded staleness under full interleaving |
| actor-to-server store | `ServerStore` | coherence and age of the caches with SET, fill, PUBLISH and delivery taken apart, and the one fill that breaks it |
| Redis lock | `DLock` | the objects against their specification; mutual exclusion of what clients go by, the exclusion window and the exact meaning of the locked flag, with lost replies |
| cluster view | `ClusterCenter`, `EtcdPath` | the node list and what its listener was told replay the etcd history, through every disconnect and resync, and when exactly |
| actor routing | `NodeRouter` | the incremental index equals a rebuild, for every order in which Go visits a map, and when exactly it does |
| MongoDB operation scheduler | `MongoBD`, `MongoHash` | delivery exactly once however an execution ends, order per key, conservation and a draining stop; what the hash separates |
| CBC and RSA transforms | `AesCbc`, `RsaChunks`, `Bits`, `Arithmetic` | round trips, chaining across calls, exact lengths and exact error conditions |

How the models are built:

- A class in the source is a class here, with the same fields and loops. Each method says in terms of its inputs and
  the old state what it answers and changes, and where it has one is tied to a specification function as well. Lemmas
  then speak about that function, about every run of a state machine built from it, or about every interleaving, and
  the actions of a machine are proved to be calls of the objects.
- Clock readings, what a network round trip does (answered, never sent, reply lost), random values and the choices of
  Go's map iteration and `select` are parameters or left open, so the statements hold for all of them.
- A run is a sequence of actions whose enabling condition says what the environment can do. Assumptions about Redis,
  etcd and the libraries are exactly those conditions; they are repeated under "Left out".
- Client clocks count nanoseconds. Redis counts whole milliseconds, and a key is visible through its last millisecond,
  so its PTTL can be 0.

Where the code and its own comments disagree, or a promise holds only sometimes, the model follows the code and the
exact condition is proved:

- `registry.go` says the default safety window of one second keeps a cache entry from outliving its record. The exact
  bound is 998 ms plus the delay between the script and its conversion, in whole milliseconds
  (`LocationCache.WindowThreshold`), so with the default the claim fails from a delay of just over 2 ms on.
- A lookup in the record's last millisecond reports 0 seconds, which the client reads as "never expires"
  (`LocationCache.OutlivesExactlyInLastMillisecond`).
- While the stream cursor is `$`, a call between two blocking reads costs a right entry its coherence exactly if it
  moves the actor away (`RegistryCoherence.GapExactly`); if no event of the actor passed unseen, coherence is kept
  (`RegistryCoherence.CacheCoherence`).
- A lost lease passes its guards again exactly after it was granted again (`RegistryLaws.ComesBackExactlyByGrant`,
  `RegistryLaws.GrantRevives`).
- A lookup of the server store that fills its cache late is wrong exactly if it was overtaken, is out of date, and
  nothing more is on its way (`ServerStoreCoherence.FillExactly`).
- `IsLocked` is documented as "held by this instance", but stays true after the expiry (`DLockSafety.FlagAndHold`), and
  a lost reply to Unlock lets two clients believe to hold the lock (`DLockSafety.MutualExclusion`,
  `DLockSafety.LostUnlockSplits`).
- `safeExec` restores an operation's context, but not when the operation panics under the default timeout
  (`MongoBD.Worker.SafeExec`).
- A watch keeps a node whose value was overwritten by one that does not parse, and a snapshot drops it
  (`ClusterCenter.ChangeExact`, `ClusterCenter.ExactSinceResync`).
- The routing index stays exact for every map order exactly if no group gives up an ID that another group holds in the
  end (`NodeRouter.EveryOrderExactly`).
- `normalizePath` promises no trailing slash; it keeps one for "/" and for paths that end in two slashes
  (`EtcdPath.NormalizePath`).
- `pkcs7Unpad` accepts padding longer than a block (`AesCbc.UnpadThenPad`).

## Model

| member | source | states |
|---|---|---|
| ActorKeys.FormatParse | infra/actor/registry.go:261-268 | Parsing a printed 64-bit decimal gives back the number, and the text never contains the separator |
| ActorKeys.DecimalPlaces | infra/actor/registry.go:261-268 | Every digit of a parsed number counts for its decimal place |
| ActorKeys.ParsedExactly | infra/actor/registry.go:261-268 | Text parses to a number if and only if it is an optional sign and digits whose signed value it is |
| ActorKeys.CutAtFirst | infra/actor/registry.go:256-259 | Cutting splits at the first separator |
| ActorKeys.CutSplits | infra/cluster/center.go:80-82 | Cutting fails exactly when there is no separator; otherwise the parts rebuild the text and the first holds no separator |
| ActorKeys.PayloadRoundTrip | infra/actor/registry.go:250-273 | Parsing a payload undoes printing it, for every actor |
| ActorKeys.PayloadParsed | infra/actor/registry.go:255-273 | A payload is read exactly if both sides of its first colon are numbers, each failure has its own error, and the category keeps its low 16 bits |
| ActorKeys.KeysSeparate | infra/actor/registry.go:245-247 | Registration keys and server keys are injective in the actor, and no key is both |
| RegistrySpec.CallOnlyTouches | infra/actor/registry.go:364-368 | A call leaves every other actor's record alone, shows its own result, and only appends to the log |
| RegistryScripts.OneKeyOneActor | infra/actor/registry.go:245-247 | A change confined to one actor's Redis key is one abstract call: all other records stay |
| RegistryScripts.RedisServer.WriteOwner | infra/actor/registry.go:70-76 | Writing an owner turns a string into a fresh hash, and keeps revision and expiry of a hash |
| RegistryScripts.RedisServer.XAdd | infra/actor/registry.go:119-124 | The event is appended, and trimming never removes any of the newest maxLen events |
| RegistryScripts.RedisServer.RegisterScript | infra/actor/registry.go:44-86 | In either layout the reply and the new record are those of the abstract Register; a string becomes a hash; a refusal changes nothing |
| RegistryScripts.RedisServer.TakeOverScript | infra/actor/registry.go:88-134 | In either layout reply, record and emitted event are those of the abstract TakeOver; a failure changes nothing |
| RegistryScripts.RedisServer.UnregisterScript | infra/actor/registry.go:136-176 | In either layout reply, removal and delete event are those of the abstract Unregister |
| RegistryScripts.RedisServer.KeepAliveScript | infra/actor/registry.go:178-214 | In either layout reply and expiry are those of the abstract KeepAlive, and the stored value keeps its layout and fields |
| RegistryScripts.RedisServer.GetScript | infra/actor/registry.go:216-241 | In either layout the reply is that of the abstract lookup |
| RegistryScripts.RedisServer.Eval | infra/actor/registry.go:44-241 | Each script commutes with the abstraction of the whole keyspace and the change log |
| RegistryScripts.RedisServer.EvalAll | infra/actor/registry.go:44-241 | Any sequence of scripts and pauses answers, step by step, as the abstract store does, and ends in its state |
| RegistryLaws.LeaseHasOrigin | infra/actor/registry.go:350-352 | A lease found in a record was there at the start or was introduced by an earlier Register or TakeOver |
| RegistryLaws.GuardIsLease | infra/actor/registry.go:88-214 | A guarded call succeeds exactly while its lease is held, and except for a takeover by its node; a failure changes nothing |
| RegistryLaws.ComesBackExactlyByGrant | infra/actor/registry.go:44-134 | A lost lease is held again at some point if and only if a Register or TakeOver of this actor succeeded with it in between |
| RegistryLaws.LeaseFencing | infra/actor/registry.go:88-214 | Once a lease was replaced, removed or expired, no TakeOver, Unregister or KeepAlive guarded by it succeeds or changes anything, unless the actor was granted it again since |
| RegistryLaws.GrantRevives | infra/actor/registry.go:73-85 | Conversely, after any such grant guarded calls of its node succeed, however the lease was lost |
| RegistryLaws.FreshLeasesFence | infra/actor/registry.go:350-352 | With never-used lease IDs only, a lost lease is never granted again, so fencing holds for good |
| RegistryLaws.OwnerStays | infra/actor/registry.go:44-86 | From a success until T seconds later, absent a takeover or unregister, the record lives, names the same node and keeps that deadline |
| RegistryLaws.ExclusiveOwnership | infra/actor/registry.go:59-68 | In that window every other node's Register is refused, told the owner, and changes nothing |
| RegistryLaws.EventsBetweenGrows | infra/actor/registry.go:118-124 | Each step adds to an actor's change events exactly the events of its own call |
| RegistryLaws.RevisionLaw | infra/actor/registry.go:118-124 | In one life of a record the k-th event has revision k, and the record counts the events |
| RegistryLaws.DeleteIsLast | infra/actor/registry.go:164-174 | An unregister ends the life with a delete event carrying the next revision |
| RegistryLaws.LogCountsChanges | infra/actor/registry_test.go:585-634 | Over any run the stream grows by one event per successful takeover or unregister, and by nothing else |
| LocationCache.InitConfig | infra/actor/registry.go:295-309 | A positive setting is kept, and any other becomes 100,000 entries, 5 s, or 1 s |
| LocationCache.WithinRecordBound | infra/actor/registry.go:775-778 | An entry is used only while the record is visible if and only if it expires by the end of the record's last millisecond |
| LocationCache.ReadFillWithin | infra/actor/registry.go:783-819 | With a sufficient window a location read with a positive PTTL is never used after its record is gone |
| LocationCache.WindowThreshold | infra/actor/registry.go:783-830 | The window is sufficient for a conversion delay if and only if it is at least 998 ms plus that delay in whole milliseconds |
| LocationCache.ReadFillStrictlyBefore | infra/actor/registry.go:783-830 | With one second more than the delay the entry expires strictly before the record |
| LocationCache.ExactFillWithin | infra/actor/registry.go:825-830 | For a whole-second TTL just set, the delay alone is enough |
| LocationCache.OutlivesExactlyInLastMillisecond | infra/actor/registry.go:234-240 | With a sufficient window an entry outlives its record exactly when it was read in the last millisecond |
| RegistryClient.Registry.GetCachedLocation | infra/actor/registry.go:764-780 | A fresh entry is returned; any other is dropped |
| RegistryClient.Registry.Cache | infra/actor/registry.go:783-795 | The cache afterwards holds the specified entry, or none when the time left is inside the window |
| RegistryClient.Registry.RegisterActor | infra/actor/registry.go:355-423 | Error, cached entry and reported expiry follow from the actor's record, the arguments and the network outcome; a refusal returns the present owner and its expiry |
| RegistryClient.Registry.TakeOverActor | infra/actor/registry.go:426-485 | Error, cached entry and reported expiry follow from the record, the arguments and the network outcome; a result is returned exactly on success |
| RegistryClient.Registry.UnregisterActor | infra/actor/registry.go:488-530 | Which error arises follows from the record and the arguments; the caller's entry is gone after a success or a missing record, and no other entry moves |
| RegistryClient.Registry.KeepActorAlive | infra/actor/registry.go:533-576 | Which error arises follows from the record and the arguments; a success refreshes the entry and a missing record drops it |
| RegistryClient.Registry.GetActorLocation | infra/actor/registry.go:579-611 | A fresh entry answers without Redis; otherwise the answer names the node and the expiry of the live record and is cached |
| RegistryClient.Registry.ApplyLocationChange | infra/actor/registry.go:703-725 | A message that names an actor takes exactly that actor's entry away; any other takes none |
| RegistryClient.Registry.ConsumeLocationChanges | infra/actor/registry.go:665-695 | No actor named in a delivered message is cached afterwards, every entry that went was named in one, and the cursor follows the last message or a lost stream after it |
| RegistryCoherence.RefillIsAffect | infra/actor/registry.go:783-800 | The machine's cache fill is the cache fill of the client |
| RegistryCoherence.DeliverIsConsume | infra/actor/registry.go:665-725 | The machine's delivery of an event is one turn of the registry object's consumer, in cache and cursor |
| RegistryCoherence.CallIsClientCall | infra/actor/registry.go:355-576 | The machine's call is the registry object's call against Redis, in store and cache, whether the reply arrives or is lost |
| RegistryCoherence.CallKeepsOrTells | infra/actor/registry.go:44-214 | A call keeps a right entry right, or leaves an event for its actor |
| RegistryCoherence.FillIsRight | infra/actor/registry.go:397-400 | What an answered call caches is right when it is cached |
| RegistryCoherence.StepKeepsInv | infra/actor/registry.go:665-725 | Every action of any node keeps the coherence invariant |
| RegistryCoherence.RunKeepsInv | infra/actor/registry.go:44-241 | Every run keeps the coherence invariant |
| RegistryCoherence.CacheCoherence | infra/actor/registry.go:764-819 | In every reachable state a fresh entry names the node of a live record that outlives it, or the node has an unread event for the actor, provided none passed unseen and trimming has not overtaken the reader |
| RegistryCoherence.RightUnlessMoved | infra/actor/registry.go:44-214 | A call keeps a right entry right if and only if it is not a successful unregister, or a takeover by another node, of the entry's actor |
| RegistryCoherence.GapExactly | infra/actor/registry.go:666-693 | For every state with the cursor at "$" between two reads and a right entry: after any call elsewhere the entry is coherent if and only if the call did not move its actor away |
| RegistryCoherence.GapLosesEvents | infra/actor/registry.go:666 | In every such state a takeover by any other node, and an unregister, are possible and lose the entry's coherence |
| RegistryStaleness.StoreMoves | infra/actor/registry.go:579-611 | A change of the store leaves everything already read, cached or handed out as real and as old as it was |
| RegistryStaleness.StepKeepsInv | infra/actor/registry.go:579-611 | Every action of an interleaving keeps readings real and bounded in age |
| RegistryStaleness.BoundedStaleness | infra/actor/registry.go:579-611 | A returned location was the recorded owner at an earlier instant, at most the cache limit, plus the time from its script to its cache fill within one call, plus the duration of the returning lookup ago |
| ServerStore.ServerStore.SetActorServer | infra/actor/server_store.go:78-96 | After a success Redis answers with exactly this ID, no other actor's answer changed, and cache and broadcast follow; a lost SET reply stores without caching or announcing, and any other failure changes nothing |
| ServerStore.ServerStore.GetActorServer | infra/actor/server_store.go:99-158 | A fresh entry answers, also negatively; otherwise an absent key is no server, a printed positive ID is that server, anything else is its error, and exactly the valid answers are cached |
| ServerStore.ServerStore.GetServerFromRedis | infra/actor/server_store.go:134-158 | No key is no server, a printed positive ID is that server, and a value that does not parse or is not positive is an error |
| ServerStore.ServerStore.OnInvalidation | infra/actor/server_store.go:170-181 | A message drops exactly the actor it names; an unreadable one drops nothing |
| ServerStore.ServerStore.GetCachedServer | infra/actor/server_store.go:193-209 | A fresh entry is returned; any other is dropped |
| ServerStoreCoherence.SetIsThreeActions | infra/actor/server_store.go:78-96 | One call of SetActorServer does to Redis, cache and broadcast what the machine's Set, FillOwn and Publish do in a row |
| ServerStoreCoherence.LookupIsGetAndFill | infra/actor/server_store.go:99-131 | One lookup without a fresh entry answers and caches what the machine's Get and Fill do in a row |
| ServerStoreCoherence.HandleIsInvalidation | infra/actor/server_store.go:170-181 | The machine's handling of a published actor is the store object's, applied to its payload |
| ServerStoreCoherence.FillExactly | infra/actor/server_store.go:109-121 | For every invariant state: a lookup's fill leaves an entry that disagrees, unannounced, if and only if the lookup was overtaken, its value is no longer Redis's, and no news is pending |
| ServerStoreCoherence.StepKeepsInv | infra/actor/server_store.go:90-94 | Every action keeps every cached or read answer right or announced, except exactly the stale fill |
| ServerStoreCoherence.ServerCacheCoherence | infra/actor/server_store.go:77-131 | Throughout a run every cached answer, positive or negative, that disagrees with Redis has a writer before its PUBLISH or an unhandled invalidation, if and only if the run has no stale fill |
| ServerStoreCoherence.StepKeepsAged | infra/actor/server_store.go:212-218 | Every action, ordered or not, keeps every cached answer real and bounded in age |
| ServerStoreCoherence.ServerCacheAge | infra/actor/server_store.go:212-218 | In any run a usable cached answer is at most the cache TTL plus its fill time old |
| ServerStoreCoherence.OvertakenFillIsStale | infra/actor/server_store.go:109-121 | Stale fills are reachable: a lookup overtaken by a complete write leaves a wrong entry nothing will correct before it expires |
| DLock.DLock.TryLock | base/db/redis/dlock.go:126-138 | The key is set exactly if it was free and the request was sent; the flag rises exactly if that answer arrived; each error has its cause |
| DLock.DLock.Unlock | base/db/redis/dlock.go:141-157 | The key is removed exactly if the flag is up, it holds this client's value and the request was sent; the flag falls exactly if that answer arrived; each error has its cause |
| DLock.DLock.Refresh | base/db/redis/dlock.go:160-176 | The expiry moves exactly if the flag is up, the key holds this client's value and the request was sent, also when the reply is lost; each error has its cause |
| DLock.DLock.Lock | base/db/redis/dlock.go:103-123 | The lock is obtained at the first attempt that is answered and finds the key free, or not at all |
| DLockSafety.StepIsCall | base/db/redis/dlock.go:126-176 | A step of the machine takes key, flag and what the client was told where one call of the lock object takes them, also when the reply is lost |
| DLockSafety.StepKeepsInv | base/db/redis/dlock.go:103-176 | Every action keeps: a client that goes by flag and clock has the key unless its own unlock went unnoticed, and a client that has the key goes by it unless its own lock or refresh went unnoticed |
| DLockSafety.FlagAndHold | base/db/redis/dlock.go:98-100 | Unless replies of its own were lost, a client has the key exactly while its flag is up and its last success is within the expiry |
| DLockSafety.MutualExclusion | base/db/redis/dlock.go:126-176 | In no reachable state do two clients both go by flag and clock that they have the lock, unless one of them unlocked it without learning so |
| DLockSafety.LostUnlockSplits | base/db/redis/dlock.go:141-157 | Conversely, in every state a holder that loses the reply to its unlock lets any other client take the lock while both go by having it |
| DLockSafety.ExclusionWindow | base/db/redis/dlock.go:126-176 | From a successful TryLock or Refresh until the expiry or its own Unlock, a client keeps the key and every other TryLock fails |
| DLockSafety.OnlyOwnerOrTimeRemoves | base/db/redis/dlock.go:26-41 | An action takes the key from its holder if and only if it is the holder's own Unlock or the passing of its expiry |
| DLockSafety.FlagOutlivesHold | base/db/redis/dlock.go:98-100 | In every state waiting ends a hold exactly past its expiry, and never lowers the flag |
| ClusterCenter.ParsedUnderOwnId | infra/cluster/center.go:323-346 | A node that parses is valid, is stored under its own ID, and its key is the root followed by that ID |
| ClusterCenter.ParseExactly | infra/cluster/center.go:318-346 | A node is read exactly from the root, a slash and its own ID, if its value is that node as JSON, none of its three fields is empty, and its category has no slash |
| ClusterCenter.RegisteredNodeParses | infra/cluster/center.go:371-382 | What a node with a category free of slashes registers is read back as that node |
| ClusterCenter.ChangeTracked | infra/cluster/center.go:593-616 | Handling a watched change keeps the list tracking the keyspace |
| ClusterCenter.LastChangeDecides | infra/cluster/center.go:591-616 | The last change of a key decides whether its ID is listed and as what; an ID without changes stays as it was |
| ClusterCenter.ChangeExact | infra/cluster/center.go:593-616 | From an exact list, a change leaves an exact list if and only if it is not a put that fails to parse over a listed node |
| ClusterCenter.WatchedChangesSuffice | infra/cluster/center.go:562 | Handling only the changes under the prefix tracks all of them |
| ClusterCenter.ResponseTracked | infra/cluster/center.go:589-616 | A response with the changes since the last revision brings the list up to its own revision |
| ClusterCenter.ExactSinceResync | infra/cluster/center.go:593-616 | Since a resync the list has been exact after every single change if and only if none of them was such a put |
| ClusterCenter.SnapshotIsReplica | infra/cluster/center.go:399-435 | A resync yields an exact replica, values that do not parse included |
| ClusterCenter.CollectExactly | infra/cluster/center.go:411-425 | A snapshot lists exactly its readable nodes, each under its ID, except this node itself |
| ClusterCenter.LastHeard | infra/cluster/center.go:617-619 | The last event about an ID decides what the listener knows of it |
| ClusterCenter.Center.DelNode | infra/cluster/center.go:446-458 | The removed node is returned, and nothing else goes |
| ClusterCenter.Center.SyncNodes | infra/cluster/center.go:399-435 | The list is what the snapshot yields, and the listener is told exactly that |
| ClusterCenter.Center.HandleResponse | infra/cluster/center.go:591-619 | The list is the replay of the events, and the listener's picture stays equal to it |
| ClusterCenter.Center.Watch | infra/cluster/center.go:532-623 | A resync is due exactly if the watch was cancelled for compaction or failure and no snapshot came since; the last revision is that of the last snapshot or response; through any signals the list tracks the history at it, equals what the listener heard, and is an exact replica after each resync |
| ClusterCenter.TrackingIsExact | infra/cluster/center.go:593-600 | If everything put under the prefix parses, tracking is exact replication |
| ClusterCenter.UnreadableOverwrite | infra/cluster/center.go:596-600 | Overwriting any node by an unreadable value makes watch and snapshot disagree |
| EtcdPath.ReplaceThenCollapse | infra/cluster/center.go:159-161 | One pass of replacing double slashes does not change what the path collapses to |
| EtcdPath.CollapseKeepsEnds | infra/cluster/center.go:149 | Collapsing leaves no double slash and keeps both ends |
| EtcdPath.NormalKeepsParts | infra/cluster/center.go:155-161 | Trimming, prefixing and collapsing keep the non-empty words between the slashes, in order |
| EtcdPath.TrimTakesOnlyBlanks | infra/cluster/center.go:151 | Trimming takes away blanks only, from both ends |
| EtcdPath.NormalizePath | infra/cluster/center.go:150-163 | Empty exactly for blank input; otherwise a leading slash, no double slash, the same non-empty words, and a trailing slash exactly for "/" or an input ending in two slashes |
| EtcdPath.WatchPrefixBelowRoot | infra/cluster/center.go:626-628 | The watched prefix lies below the root |
| NodeRouter.ReplaceExactly | infra/noderouter/rendezvous.go:39-45 | Replacing a group moves the index by exactly that group if and only if no other group holds an ID that leaves it |
| NodeRouter.OpExactly | infra/noderouter/rendezvous.go:58-70 | An operation does to the index what it does to its group if and only if it adds, or no other group holds an ID it removes |
| NodeRouter.LastOpDecides | infra/noderouter/rendezvous.go:58-70 | The last operation that names an ID decides whether it is in its group |
| NodeRouter.EveryOrderExactly | infra/noderouter/rendezvous.go:39-72 | Visiting the groups leaves an exact index in every order if and only if no visit takes out an ID that another group holds in the end |
| NodeRouter.HomedIsClean | infra/noderouter/rendezvous.go:39-72 | With one group per ID that condition always holds, and groups stay apart |
| NodeRouter.RendezvousSelector.SetGroup | infra/noderouter/rendezvous.go:39-45 | One replaced group keeps the index exact if and only if no other group holds an ID it loses |
| NodeRouter.RendezvousSelector.ApplyOp | infra/noderouter/rendezvous.go:58-70 | One operation, applied ID by ID, keeps the index exact if and only if it adds, or no other group holds an ID it removes |
| NodeRouter.Disjointness | infra/noderouter/rendezvous.go:13-14 | With one group per ID, groups are pairwise disjoint |
| NodeRouter.RendezvousSelector.Set | infra/noderouter/rendezvous.go:32-46 | For every visiting order the named groups are replaced, and the index is exact if all groups are set anew or no visit takes out what another group holds in the end |
| NodeRouter.RendezvousSelector.Update | infra/noderouter/rendezvous.go:49-73 | For every visiting order each group replays its own operations, and the index is exact if no visit takes out what another group holds in the end |
| NodeRouter.RendezvousSelector.Pick | infra/noderouter/rendezvous.go:76-91 | An unknown group gives nothing; one candidate is the one the group's table picks, and none exactly when the group is empty (no ID being the empty string); more are what the table lists |
| ActorRouter.BatchEqualsReplay | infra/actor/router.go:90-112 | Sorting a batch by group and replaying gives, group by group, what observing the events one at a time gives |
| ActorRouter.LastEventDecides | infra/actor/router.go:90-112 | In the view, the last event about an ID decides whether it is there and as which node |
| ActorRouter.GroupedNodes | infra/actor/router.go:73-87 | Grouping a node list gives, group by group, the nodes of the view that list describes |
| ActorRouter.GroupedExactly | infra/actor/router.go:73-87 | A group lists exactly the IDs of the nodes that name it, and the empty name is no group |
| ActorRouter.IndexFromGroups | infra/noderouter/rendezvous.go:93-100 | If every group is as expected, so is the index |
| ActorRouter.MirrorIsHomed | infra/noderouter/rendezvous.go:13-14 | A selector that mirrors a view has one group per ID and an exact index |
| ActorRouter.IncrementalEqualsRebuild | infra/actor/router.go:73-112 | Updating by events and rebuilding from the resulting nodes agree on every group and on the index |
| ActorRouter.Router.SetNodes | infra/actor/router.go:73-87 | A full set routes to exactly the given nodes, whatever was there before; a partial one keeps the index exact |
| ActorRouter.Router.UpdateEvents | infra/actor/router.go:90-112 | From a selector that mirrors a view, the result mirrors the view after the events |
| ActorRouter.Router.PickActorNode | infra/actor/router.go:115-137 | Fixed nodes, group choice and each refusal as promised; whatever is returned is listed at that moment |
| ActorRouter.RouteKeyInjective | infra/actor/router.go:65-70 | Different actors have different route keys |
| ActorRouter.RouteKeyBytes | infra/actor/router.go:65-70 | The key is two bytes of category and eight of the ID in two's complement, the highest first |
| MongoHash.HashText | infra/mongobd/bd.go:163-170 | The loop computes 64-bit FNV-1a |
| MongoHash.FnvDefined | infra/mongobd/bd.go:163-170 | The hash starts at the 64-bit offset basis, and each byte is mixed in bit by bit before the product with the 64-bit prime, modulo 2^64 |
| MongoHash.GetHashCode | infra/mongobd/bd.go:141-175 | A signed integer gives its two's complement word, an unsigned or custom one itself, and exactly the unsupported keys give none |
| MongoHash.IntegersHashByValue | infra/mongobd/bd.go:141-162 | Integers hash alike exactly when equal, across widths and signedness, with a negative one as its two's complement word |
| MongoHash.OneByteChangesHash | infra/mongobd/bd.go:163-170 | Texts that differ in exactly one byte never hash alike |
| MongoBD.OpDone | infra/mongobd/op.go:25-29 | Exactly one delivery, with the given error |
| MongoBD.Worker.SafeExec | infra/mongobd/worker.go:34-65 | Exactly one delivery whatever happens: a done context gives its error, a returned error itself, a panic its text, and no error exactly a live context with a clean return; the context is left changed exactly after a panic under the default timeout |
| MongoBD.Worker.Run | infra/mongobd/worker.go:20-25 | Draining a closed queue delivers every operation once, in queue order, each with the error its own context, return or panic gives, also when contexts end while operations wait |
| MongoBD.BD.Add | infra/mongobd/bd.go:99-117 | An accepted operation is queued once, on its key's worker, a refused one on none; refused are exactly a missing operation or done channel and, at the select's choice, a done context |
| MongoBD.BD.Stop | infra/mongobd/bd.go:132-138 | Every queue is closed with its operations still in it |
| MongoScheduler.StepKeepsInv | infra/mongobd/worker.go:20-65 | Every step of a worker through cancellation, success, failure or panic keeps: its accepted operations are those delivered, then the one taken up, then those queued, in acceptance order |
| MongoScheduler.RunKeepsInv | infra/mongobd/worker.go:20-65 | So does every interleaving |
| MongoScheduler.SafeExecDeliversOnce | infra/mongobd/worker.go:34-65 | Whatever the context and however exec ends, the steps of one execution deliver the operation exactly once and free the worker |
| MongoScheduler.SameKeyInOrder | infra/mongobd/bd.go:109-112 | Of two operations with the same hash, the earlier accepted one has been delivered before the later is taken up |
| MongoScheduler.WorkersPartition | infra/mongobd/bd.go:109-110 | Hashing splits the accepted operations among the workers without loss or duplication |
| MongoScheduler.Conservation | infra/mongobd/bd.go:99-117 | At every moment accepted operations are, with multiplicity, those delivered, running and queued |
| MongoScheduler.StopDeliversAll | infra/mongobd/bd.go:130-138 | When Stop's wait is over every accepted operation was delivered exactly as often as accepted, each worker's in order |
| AesCbc.Pkcs7Pad | base/crypto/aes/utils.go:50-57 | The data comes first, then up to one block of bytes, each naming how many there are, to a multiple of the block size |
| AesCbc.Pkcs7Unpad | base/crypto/aes/utils.go:60-74 | The scan decides exactly whether the tail is n bytes of value n |
| AesCbc.UnpadCharacterized | base/crypto/aes/utils.go:60-74 | Unpadding yields a text if and only if the data is that text followed by n bytes of value n |
| AesCbc.PadThenUnpad | base/crypto/aes/utils.go:50-74 | Unpadding undoes padding |
| AesCbc.UnpadThenPad | base/crypto/aes/utils.go:60-74 | Padding undoes unpadding if and only if the data is whole blocks and its padding is no longer than one |
| AesCbc.DecryptEncrypt | base/crypto/aes/aes.go:86-112 | From the same chaining value, CBC decryption undoes CBC encryption |
| Bits.XorBit | base/crypto/aes/aes.go:91-93 | Each bit of an exclusive or is the sum modulo two of the bits at its place, at any width |
| AesCbc.MixedBit | base/crypto/aes/aes.go:91-93 | So is each bit of a mixed byte |
| AesCbc.BlockEncrypts | base/crypto/aes/aes.go:91-93 | Ciphertext block j is the encryption of plaintext block j mixed with the ciphertext block before it, or with the chaining value |
| AesCbc.BlockDecrypts | base/crypto/aes/aes.go:104-107 | Plaintext block j is ciphertext block j decrypted and mixed with the ciphertext block before it, or with the chaining value |
| AesCbc.ChainMatters | base/crypto/aes/aes.go:178-182 | Under an invertible cipher two chaining values give the same ciphertext exactly if they are equal |
| AesCbc.EncryptSplit | base/crypto/aes/aes.go:91-93 | Two passes with the chaining value carried over are one pass over the concatenation |
| AesCbc.AESCBCCryptor.Encrypt | base/crypto/aes/aes.go:87-97 | Each ciphertext block encrypts the padded plaintext block mixed, bit by bit, with the block before it, the first with the carried chaining value; the last block is carried on; the length is the announced one |
| AesCbc.AESCBCCryptor.Decrypt | base/crypto/aes/aes.go:100-112 | A wrong length is refused and moves nothing; otherwise the chaining value advances even if the padding is wrong |
| AesCbc.NewAESCBCCryptor | base/crypto/aes/aes.go:160-185 | Each constructor error occurs exactly for its cause, and both directions start at the IV |
| AesCbc.EncryptAllLengths | base/crypto/aes/aes.go:81-84 | Every ciphertext of a sequence of calls has the announced length |
| AesCbc.CallsRoundTrip | base/crypto/aes/aes.go:86-112 | Decrypting in order the ciphertexts of messages encrypted in order returns exactly the messages |
| AesCbc.CallsAreOnePass | base/crypto/aes/aes.go:178-182 | The concatenated ciphertexts are one CBC pass over the concatenated padded messages |
| AesCbc.EncryptMessages | base/crypto/aes/aes.go:87-97 | One cryptor encrypting messages in order yields the specified sequence of ciphertexts |
| AesCbc.DecryptMessages | base/crypto/aes/aes.go:100-112 | One cryptor decrypting ciphertexts in order yields the specified sequence of answers, past any wrong one |
| AesCbc.SendAll | base/crypto/aes/aes.go:160-185 | Between two cryptors made alike every message arrives, and the ciphertexts are one CBC pass over the padded messages |
| RsaChunks.LengthAnnounced | base/crypto/rsa/rsa.go:22-33 | The announced length is one modulus per chunk |
| RsaChunks.CountCovers | base/crypto/rsa/rsa.go:50-54 | Exactly the counted chunks start inside the data |
| RsaChunks.JoinFailsFirst | base/crypto/rsa/rsa.go:50-58 | Joining fails exactly at the first missing piece |
| RsaChunks.JoinThenCut | base/crypto/rsa/rsa.go:86-87 | Blocks of one modulus each can be cut out of the ciphertext they were joined to |
| RsaChunks.CutThenJoin | base/crypto/rsa/rsa.go:50-60 | The chunks cut out of data join to the data |
| RsaChunks.RoundTrip | base/crypto/rsa/rsa.go:36-94 | Decrypt of a ciphertext returns the data, on the single-block path exactly for data of at most k-11 bytes and on the loop path otherwise |
| RsaChunks.CiphertextBlock | base/crypto/rsa/rsa.go:50-60 | The q-th modulus length of a ciphertext is the encryption of the q-th chunk |
| RsaChunks.FailsAtFirstRefusal | base/crypto/rsa/rsa.go:55-58 | Encryption fails exactly when the primitive refuses a chunk, at the first one |
| RsaChunks.DecryptAccepts | base/crypto/rsa/rsa.go:73-94 | Decryption succeeds exactly if the primitive accepts the single block, or the length is a multiple of the modulus length and it accepts every block |
| RsaChunks.DecryptRefused | base/crypto/rsa/rsa.go:84-91 | The error names the byte range of the first block that the primitive refuses |
| RsaChunks.Encrypt | base/crypto/rsa/rsa.go:36-63 | Result or error is the specified one, and a success has exactly the preallocated length |
| RsaChunks.EncryptInto | base/crypto/rsa/rsa.go:47-62 | Every copy stays inside the buffer, and a success fills it |
| RsaChunks.Decrypt | base/crypto/rsa/rsa.go:74-94 | Result or error is the specified one on each of the three paths |

## Left out

- gactor, go-redis, etcd client, singleflight, grendezvous: not shown in the repository. `ActorUID` is taken as a 16-bit category and a 64-bit ID whose zero value is all zero; a rendezvous table is a set of IDs whose lookups return members.
- One clock for Redis and all clients: clock differences between hosts are part of the conversion delay.
- Malformed JSON records, keys of other Redis types, non-decimal revisions, and scripts that reply with unexpected shapes: taken not to occur. A message that does not name an actor with a known operation is one whose change is absent.
- RegistryCoherence.CacheCoherence: assumes one TTL for all registrations, no read in a record's last millisecond, and store call and cache fill as one step; RegistryStaleness.BoundedStaleness does without all of these.
- RegistryClient.Registry.GetActorLocation: the lookup of a single caller; sharing through singleflight is in RegistryStaleness.
- ServerStoreCoherence.ServerCacheCoherence: assumes a live subscription that delivers what is published. A write whose SET reply or PUBLISH is lost counts as a writer before its PUBLISH for good; ServerStoreCoherence.ServerCacheAge bounds the entries it leaves wrong.
- ServerStore.ServerStore.GetActorServer: the lookup of a single caller; in ServerStoreCoherence a shared lookup is one reader, and what it hands to the callers that joined it is not modelled.
- DLockSafety.ExclusionWindow: assumes pairwise different lock values and expiries in whole milliseconds of at least one.
- ClusterCenter.Center.Watch: assumes that a resync reads one whole state and that a response carries exactly the watched changes after the requested revision through its own; the backoff, the lease keep-alive loop and the end by context cancellation are left out.
- MongoBD.BD.Add: the wait for room in a full queue is the precondition that there is room or the context is done. Done channels are taken as always drained, and no Add runs during or after Stop other than the one that panics on an empty worker list.
- MongoBD.BD.Stop: the wait for the workers is that every worker has exited, in MongoScheduler.
- MongoBD.Worker.SafeExec: an operation is taken to call opDone as its last action, once, unless it panics before; the driver calls themselves are abstract.
- AesCbc.AESCBCCryptor.Decrypt: the empty ciphertext, on which the code panics, is excluded.
- AesCbc.Pkcs7Pad: that append may write into spare capacity of the caller's slice is not modelled.
- RsaChunks.Encrypt: the primitive is a function of the chunk and a random value; that it yields k bytes which decrypt to the chunk is assumed of it.
- RPC and cast wrappers, packet heads and codecs, protocol maps, AES-GCM, RSA signing, PEM, JWT, ID and key generation, probes, configuration, flags and logging.
