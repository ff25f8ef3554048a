# Verified models of the controller's stateful algorithms

The controller keeps its settings in a database table, a cache and a YAML file; it
limits requests, checks captchas, hands out IPv6 addresses and attaches GPUs to
containers. Several of these are clever forms of something simple. Each module here
models one of them in Dafny and proves that the clever form does what the simple one
promises, on every input and over every run.

- `config_rows.dfy`, `config_store.dfy`: saving settings in chunks of a hundred (one
  read, CASE updates, one bulk insert) against saving them one row at a time. The store
  is a transaction whose statements may fail; the specification is a table as a
  sequence of rows, which may hold duplicate identities from the start.
- `captcha_spec.dfy`, `captcha_cache.dfy`: the LRU captcha cache. The class keeps a map
  beside a list of mutable elements; the specification is the list of entries in order
  of use, and runs are sequences of timed events.
- `rate_limit_spec.dfy`, `rate_limiter.dfy`: the token-bucket limiter, with time and
  tokens as reals, over runs of calls and sweeps.
- `bits.dfy`, `ipv6_network.dfy`, `ipv6_allocator.dfy`: the byte loop that writes a host
  suffix into a network, against addition on 128-bit numbers, and the allocator that
  scans the network from a starting suffix.
- `gpu_devices.dfy`, `container_gpu.dfy`: the reconciler that removes, masks and adds
  devices until a container has exactly the selected GPUs. The container is an object
  that executes legal commands and may fail at any of them.
- `config_tree.dfy`, `config_maps.dfy`: flattening a nested configuration, setting a value
  at a dotted path, and rebuilding the tree from its flat form in whatever order a map
  yields it. Nested maps are objects that are changed in place; the laws are about the
  trees they stand for.
- `yaml_tree.dfy`, `yaml_nodes.dfy`: changing one path of a YAML document, an ordered tree
  of nodes that are overwritten and extended in place.
- `quota_levels.dfy`, `config_manager.dfy`: validating an update of the settings,
  filling in defaults, and putting the cache back when saving fails; properties of
  whole runs of updates.
- `config_snapshot.dfy`: the nested configuration that readers get from the cached
  settings, and when it says the same as they do.
- `app_config.dfy`: the application configuration behind one atomic pointer, with
  compare-and-swap updates, database probes and plain stores in every interleaving.
- `db_pool.dfy`: the database manager's pool, heartbeat and reconnect loop in every
  interleaving of their locked sections. The class has the manager's fields, and each of
  its methods is proved to be a call of that protocol, whatever other calls do between
  its sections.
- `routed_ipv6.dfy`: the routed address of a guest, checked once and kept in container
  labels that are read back from one line.
- `log_sampler_spec.dfy`, `log_sampler.dfy`: which repeated log messages are written, and
  what deleting old samplers does to that.
- `text.dfy`, `collections.dfy`: splitting, joining, trimming and numerals; sizes of sets.

Concurrency appears in two ways. A schedule is a sequence naming which call acts next,
so a statement about every schedule is one about every interleaving of atomic actions.
Iteration over a map takes its keys in an arbitrary order, and contracts hold for all.

Where the code and its comments disagree, the model follows the code:

- `server/utils/cache.go:194-197` stops a cleanup at the first entry that is still valid
  because the rest is said to be newer. Reading an entry moves it to the front without
  renewing it, so an expired entry can stand in front of a valid one
  (`ExpiredEntryCanHide`). Callers cannot tell (`CleanupUnobservable`), but a cleanup is
  complete only under the condition of `CleanupCompleteIff`.
- The chunked writer is not the one-row writer when a chunk repeats an identity that has
  no row yet: it inserts both (`FreshDuplicateInsertsTwice`). `BatchEqualsFold` says
  exactly when the two agree; the lists the manager builds always qualify.
- A zero limit is to be filled from the defaults, but the comparison is with the integer
  0 only, and zeros decoded from JSON are floats (`ZeroFromJsonIsRefused`).
- A shutdown of the database manager does not stop a reconnect that has passed its
  check, nor an adoption: the pool it installs stays open (`PoolMayOutliveShutdown`).
  `ShutdownClosesAllIff` says from which states that can happen.
- Deleting log samplers when there are more than a thousand is meant to save memory
  only, but messages are then written that would have been suppressed
  (`CrowdedCleanupIsSeen`). It cannot happen from exactly those states in which every
  sampler that may go would let the next call through (`CleanupNeverSeenIff`).
- The rules for settings look at the dotted key, readers at its segments, and empty
  segments are dropped on the way (`EmptySegmentsAreDropped`). `PathUnsetIff` and
  `ReadAsCachedIff` say exactly when readers see what the rules were applied to.
- A debug message repeated at high rate is said to be written once in 20 times, an info
  message once in 10 (`server/core/sampling_core.go:144-146`); it is once in 19 and once
  in 9 (`BurstWritesOneInMax`).
- Flattening loses empty maps (`EmptyMapIsLost`), so rebuilding gives the configuration
  back exactly when it has none (`RoundTripIff`).

## Model

| member | source | states |
|---|---|---|
| ConfigRows.BatchEqualsFold | server/config/config_manager_db.go:19-139 | for every table, duplicates included, and every list of any length, the chunked writer leaves the table that saving one row at a time leaves, same ids and order, if and only if no chunk repeats an identity without a row |
| ConfigRows.DistinctHasNoFreshDuplicates | server/config/config_manager_db.go:296-308 | lists with distinct identities, as the manager builds them from a map, meet that condition |
| ConfigRows.FreshDuplicateInsertsTwice | server/config/config_manager_db.go:77-82 | the condition is needed: two equal fresh settings become two rows in the batch and one in the fold |
| ConfigRows.ExistingRowsAfterSave | server/config/config_manager_db.go:126-150 | field by field: existing rows keep place, id, category, key and description; upserts give them the value and visibility of the last setting with their identity, insert-only leaves them alone |
| ConfigRows.FreshRowsAfterSave | server/config/config_manager_db.go:126-150 | field by field: a new row has the next id, an identity that was absent, the description of the first setting for it, and the value and visibility of the last, or with insert-only of the first |
| ConfigRows.ExistingRowsAfterBatch | server/config/config_manager_db.go:19-122 | the chunked writer does the same to existing rows for any list, also where it inserts rows twice |
| ConfigRows.LastForIs | server/config/config_manager_db.go:30-39 | the last setting with an identity is the one that no later one shares it with |
| ConfigRows.RequestedRowsAfterSave | server/config/config_manager_db.go:126-150 | every requested identity has a row, and after upserts every row of it, old duplicates too, reads the last value asked for |
| ConfigRows.InsertOnlyBatchIsIdempotent | server/config/config_manager_db.go:66-119 | for any list, one that repeats a fresh identity too, insert-only changes no existing row, makes every identity present, and a second identical call changes nothing |
| ConfigRows.SaveAllWellKeyed | server/config/config_manager_db.go:126-150 | saving keeps primary keys unique |
| ConfigStore.UpsertSystemConfig | server/config/config_manager_db.go:126-139 | the count-then-write statements do one upsert of the table, or fail |
| ConfigStore.InsertMissingSystemConfig | server/config/config_manager_db.go:141-150 | the same for an insert of what is missing |
| ConfigStore.IndexChunk | server/config/config_manager_db.go:30-39 | the lookup asks for exactly the identities of the chunk, and the last entry of an identity wins |
| ConfigStore.SplitChunk | server/config/config_manager_db.go:66-82 | splits into the rows found, all of them, and the settings without a row, in order |
| ConfigStore.CaseIsReassign | server/config/config_manager_db.go:91-111 | the CASE statement gives every row it names the value of the row's own identity and no other row anything |
| ConfigStore.UpdateInBatches | server/config/config_manager_db.go:84-113 | the inner loop of updates, a hundred rows at a time, updates each row once with the right value |
| ConfigStore.PersistSystemConfigBatch | server/config/config_manager_db.go:22-122 | success leaves the table of the chunked specification, with one read and at most one insert call per hundred settings; every failure point is covered |
| ConfigStore.SaveOneByOne | server/config/config_manager_db.go:126-150 | the loop of one-row writers is the fold |
| ConfigStore.ConfigDatabase.BatchSaveConfigsToDBOnly | server/config/config_manager_db.go:296-329 | all or nothing for table and cache together, and on success the fold over the map's settings in the order it yielded them |
| CaptchaSpec.CleanupUnobservable | server/utils/cache.go:178-201 | with a clock that never runs back, two runs that differ only in where cleanups happen give all callers the same answers |
| CaptchaSpec.CleanupCompleteIff | server/utils/cache.go:178-201 | a cleanup leaves nothing expired exactly when no expired entry stands before a valid one and at most a hundred are expired at the end |
| CaptchaSpec.ExpiredEntryCanHide | server/utils/cache.go:102-130 | a run after which an expired entry survives a cleanup |
| CaptchaSpec.AlwaysOrderedByUse | server/utils/cache.go:71-130 | in every reachable state the list runs from the most to the least recently used id |
| CaptchaSpec.OverflowDropsLeastRecentlyUsed | server/utils/cache.go:71-99 | a new id in a full cache drops exactly the least recently used id |
| CaptchaSpec.StateBounded | server/utils/cache.go:41-48 | every reachable state has distinct ids and at most capacity entries |
| CaptchaSpec.VerifySound | server/utils/cache.go:133-139 | a successful verification answers the last Set of the id, within ten minutes, with no clearing read since |
| CaptchaSpec.OneSuccessPerSet | server/utils/cache.go:102-139 | between two successes on an id, the first of them clearing, there is a Set of it |
| CaptchaSpec.SurvivesUntilOverflow | server/utils/cache.go:71-130 | a valid entry stays until capacity other ids have been used since its own last use, a read of it included; reads of absent or expired ids and clearing ones do not count |
| CaptchaSpec.VerifyExactBelowCapacity | server/utils/cache.go:133-139 | below that, a verification succeeds if and only if the answer is not empty and is what a Set gave the id at most ten minutes before, with no Set and no clearing read of the id since |
| CaptchaSpec.GetExactBelowCapacity | server/utils/cache.go:102-130 | and a read gives the value of such a Set, or nothing if there is none |
| CaptchaCache.LRUCaptchaCache.constructor | server/utils/cache.go:51-68 | an empty cache; a capacity that is not positive becomes 3000 |
| CaptchaCache.LRUCaptchaCache.Set | server/utils/cache.go:71-99 | map and list stay in bijection and hold the specification's state, whether the id is refreshed or inserted after an eviction |
| CaptchaCache.LRUCaptchaCache.Get | server/utils/cache.go:102-130 | the same for lookups, expired ones removed |
| CaptchaCache.LRUCaptchaCache.Verify | server/utils/cache.go:133-139 | verification is one step of the specification |
| CaptchaCache.LRUCaptchaCache.EvictOldest | server/utils/cache.go:142-147 | the last entry goes, from both structures |
| CaptchaCache.LRUCaptchaCache.RemoveElement | server/utils/cache.go:150-154 | one entry goes from both structures, the others keep their order |
| CaptchaCache.LRUCaptchaCache.CleanupExpired | server/utils/cache.go:178-201 | the walk from the back removes expired entries up to a hundred and stops at a valid one |
| RateLimitSpec.WindowBound | server/middleware/rate_limiter.go:134-169 | in every window of every run at most burst + rate times its length calls on a key pass: without sweeps for any settings, with sweeps when idle buckets of every key live long enough to refill |
| RateLimitSpec.PassesIffRoom | server/middleware/rate_limiter.go:134-169 | a call passes if and only if in every window that ends with it the calls passed and this one are at most burst + rate times its length: nobody is refused without need; without sweeps, or with sweeps that are invisible |
| RateLimitSpec.ShippedPassesIffRoom | server/middleware/rate_limiter.go:42-52 | so with the shipped settings and rates and sweeps anywhere |
| RateLimitSpec.ShippedRoom | server/middleware/rate_limiter.go:42-52 | with them a window allows three seconds' worth of calls and what its length gives |
| RateLimitSpec.WindowsBoundedIff | server/middleware/rate_limiter.go:181-191 | with sweeps anywhere, for any mixture of rates, every window is bounded so if and only if an idle bucket lives at least burstMultiplier seconds or no key has a rate |
| RateLimitSpec.EarlySweepExceeds | server/middleware/rate_limiter.go:181-191 | below it, for every key with a rate, two whole bursts pass around a sweep, more than their window allows |
| RateLimitSpec.SteadyCallsPass | server/middleware/rate_limiter.go:134-169 | calls at least 1/rate apart always pass, sweeps or not |
| RateLimitSpec.SweepsInvisibleIff | server/middleware/rate_limiter.go:181-191 | whatever rates the keys of a run have, deleting idle buckets changes no answer of any run if and only if they live at least burstMultiplier seconds or no key has a rate |
| RateLimitSpec.AnswersKept | server/middleware/rate_limiter.go:181-191 | under that condition for every key, all answers of a run are those without its sweeps |
| RateLimitSpec.EarlySweepShows | server/middleware/rate_limiter.go:181-191 | below it, for every key with a rate, whatever the other rates, some run shows the difference |
| RateLimitSpec.DefaultsAreSafe | server/middleware/rate_limiter.go:42-52 | the shipped settings meet it in runs that mix the three shipped rates over the keys in any way |
| RateLimiting.RateLimiter.Allow | server/middleware/rate_limiter.go:134-169 | the method on mutable buckets is the specification's step, other keys untouched |
| RateLimiting.RateLimiter.Cleanup | server/middleware/rate_limiter.go:181-191 | the loop deletes exactly the buckets idle for longer than the limit, in any order |
| IPv6Networks.NetworkValue | server/utils/ipv6.go:655-660 | masking rounds the 128-bit number down to a multiple of 2^hostBits, and the address is within 2^hostBits of it |
| IPv6Networks.IPv6AddressWithSuffix | server/utils/ipv6.go:675-706 | for every prefix length 0 to 128 and every 64-bit suffix the bytes written are the number network + suffix mod 2^hostBits; errors exactly for an invalid network and for /128 with a suffix |
| IPv6Networks.ValueInjective | server/utils/ipv6.go:675-706 | equal numbers are equal addresses, so the statements about numbers determine the bytes |
| IPv6Networks.MaskSuffixIsMod | server/utils/ipv6.go:690-692 | masking the suffix is a remainder by a power of two |
| IPv6Networks.WriteBytes | server/utils/ipv6.go:693-697 | the byte loop writes the suffix in place, big-endian, and no byte before it |
| IPv6Networks.RestorePrefixBits | server/utils/ipv6.go:698-703 | the partial byte gets back the network's bits above the mask |
| IPv6Allocator.CandidateIs | server/utils/ipv6.go:711-733 | wrap-around at 2^64 and masking together are one remainder |
| IPv6Allocator.CandidatesRepeat | server/utils/ipv6.go:720-728 | candidates repeat only after a whole period |
| IPv6Allocator.EveryAddressIsTried | server/utils/ipv6.go:711-733 | each address of the network is a candidate of the first period, from any start |
| IPv6Allocator.AllTakenIff | server/utils/ipv6.go:711-733 | all attempts taken is the whole network taken |
| IPv6Allocator.MappedIs | server/utils/ipv6.go:711-717 | the bytes of an IPv4-mapped address are those whose number divided by 2^32 is 0xffff |
| IPv6Allocator.SomeCandidateIsFree | server/utils/ipv6.go:711-733 | with fewer occupied addresses than candidates, one of the first is free |
| IPv6Allocator.CollectUsed | server/utils/ipv6.go:712-717 | an address is in the set if and only if it is a parsed entry of the snapshot and its number is outside ::ffff:0:0/96 |
| IPv6Allocator.FirstAvailableIPv6 | server/utils/ipv6.go:711-733 | the first free address in scan order, which is no entry of the snapshot outside ::ffff:0:0/96; with enough attempts failure means that every address is taken, and conversely |
| GPUDevices.ContainerGPUMatches | server/utils/container_gpu.go:189-217 | counting and marking names decides exactly whether the GPUs in effect are the selection |
| GPUDevices.SelectorOf | server/utils/container_gpu.go:219-229 | key by key: a device is a whole physical GPU if and only if its seven special keys are absent or empty and its gputype is absent, empty or physical; and its id |
| GPUDevices.ContainerGPUSelection | server/utils/container_gpu.go:133-156 | the ids of a selection are the parts named, without repetition, in order of first mention; refused if and only if some part is empty or has a character outside letters, digits and _-.: |
| ContainerGPU.PickName | server/utils/container_gpu.go:48-61 | the search for a name ends and never takes the name of another kind of device |
| ContainerGPU.PlanNames | server/utils/container_gpu.go:41-65 | every id gets a usable name of its own |
| ContainerGPU.ReadDevices | server/utils/container_gpu.go:115-187 | the devices in effect and their GPUs, or a refusal of untyped devices |
| ContainerGPU.MaskGPUs | server/utils/container_gpu.go:75-88 | removes local GPUs and masks what a profile would show again |
| ContainerGPU.AddGPUs | server/utils/container_gpu.go:89-97 | adds the planned devices |
| ContainerGPU.ResultIsSelection | server/utils/container_gpu.go:75-111 | after masking and adding, exactly the selection is in effect, so the final check passes |
| ContainerGPU.ConfigureContainerGPU | server/utils/container_gpu.go:19-113 | every command is legal; other devices stay in effect after each of them, whatever fails; success is exactly the selection, of whole physical GPUs only, key by key; only a bad request, untyped devices or a fault fails; a container that has the selection gets no command |
| ConfigTree.SplitKey | server/config/yaml.go:283-303 | the loop gives the segments between dots, empty ones dropped |
| ConfigTree.SegmentsOfJoin | server/config/yaml.go:283-303 | splitting a joined path of good keys gives the path back |
| ConfigTree.GetPut | server/config/yaml.go:257-280 | a value set at a path is read there, whatever was in the way |
| ConfigTree.PutFrame | server/config/yaml.go:257-280 | paths that part from it read as before |
| ConfigTree.PutCommutes | server/config/yaml.go:257-280 | values set at paths that part can be set in either order |
| ConfigTree.FlattenConfig | server/config/config_manager_loader.go:11-42 | in whatever order the maps yield their keys, the flat form holds exactly the leaves under their joined paths |
| ConfigTree.FlatEntryIs | server/config/config_manager_loader.go:11-42 | the flat form has for a path what the tree has there, unless it is a map under another key than level-limits or levelLimits, and nothing below these two |
| ConfigTree.LeavesPrefixFree | server/config/config_manager_loader.go:11-42 | no leaf path is a prefix of another |
| ConfigMaps.ConfigMap.SetNestedValue | server/config/yaml.go:257-280 | changing the map in place sets the value at the path of its tree and nothing else, and maps stay unshared |
| ConfigMaps.UnflattenConfig | server/config/config_manager_defaults.go:193-219 | the loop over map objects rebuilds the tree that some order of the flat keys gives |
| ConfigTree.RebuildHoldsLeaves | server/config/config_manager_defaults.go:193-219 | after any part of the keys, in any order, the tree holds exactly the leaves they stand for |
| ConfigTree.RebuildIsPruned | server/config/config_manager_defaults.go:193-219 | for every tree with non-empty dot-free keys, empty maps included, rebuilding the flat form gives the tree without the maps that hold no leaf, in any order of the keys |
| ConfigTree.RoundTripIff | server/config/config_manager_defaults.go:193-219 | for trees with non-empty dot-free keys, rebuilding the flat form in any order gives the tree back if and only if it has no empty map below the top |
| ConfigTree.EmptyMapIsLost | server/config/config_manager_loader.go:11-42 | an empty map below the top is lost with its key |
| ConfigMaps.FlattenThenUnflatten | server/config/config_manager_loader.go:11-42 | the same of the two loops run one after the other |
| YAMLNodes.YAMLNode.SetNodeValue | server/config/config_manager_sync.go:76-149 | the overwritten node means the value and has unique keys, whatever it was |
| YAMLNodes.YAMLNode.MergeMappingNode | server/config/yaml.go:213-254 | in any order of the update's keys, the mapping changed in place means the recursive merge and no key moves |
| YAMLNodes.YAMLNode.UpdateNode | server/config/yaml.go:138-207 | the walk changes the nodes in place so that they mean the update of what they meant, keeps every key where it is, and leaves everything alone when it fails |
| YAMLTree.MergeKeeps | server/config/yaml.go:213-254 | what an update does not mention keeps its value, at every depth |
| YAMLTree.MergeGives | server/config/yaml.go:213-254 | what it sets reads as it says |
| YAMLTree.MergeTwice | server/config/yaml.go:213-254 | merging an update again changes nothing |
| YAMLNodes.Document.UpdateYAMLNode | server/config/yaml.go:128-210 | the document means the update of its meaning, no key moves at any depth, and an error leaves it unchanged |
| YAMLTree.UpdatedPathReads | server/config/yaml.go:161-176 | the path reads as the value, or as the merge when both sides are mappings |
| YAMLTree.OtherPathsRead | server/config/yaml.go:128-210 | every path that parts from it reads as before |
| YAMLTree.OtherNodesStay | server/config/yaml.go:128-210 | and is the very same node, order of keys included |
| YAMLTree.RefusedIff | server/config/yaml.go:144-146 | an update is refused exactly when something on the way is not a mapping |
| QuotaLevels.DefaultLevelLimit | server/config/level_defaults.go:7-76 | defaults exist for levels 1 to 5 exactly |
| QuotaLevels.ValidateLevel | server/config/config_manager_validation.go:104-180 | field by field, one level's limits are completed or refused as specified |
| QuotaLevels.ValidateLevelLimits | server/config/config_manager_validation.go:97-184 | accepts exactly the maps all of whose levels can be completed, in any order of the levels |
| QuotaLevels.AcceptedIsComplete | server/config/config_manager_validation.go:97-184 | accepted limits are complete and positive, and validating them again changes nothing |
| QuotaLevels.CompleteNeedsNothing | server/config/config_manager_validation.go:116-180 | limits that are complete, with zero snapshots or more, are accepted as they are |
| QuotaLevels.AcceptedKeepsGiven | server/config/config_manager_validation.go:97-184 | every field that was given keeps its value |
| QuotaLevels.AcceptedIff | server/config/config_manager_validation.go:97-184 | limits are accepted for a level if and only if it is 1 to 99 and each limit is positive, or not given where there is a default, snapshots zero or more |
| QuotaLevels.DefaultsFilledIn | server/config/level_defaults.go:7-76 | every field that is not given gets the built-in value of its level, number by number |
| QuotaLevels.ZeroFromJsonIsRefused | server/config/config_manager_validation.go:116-176 | for max-instances, max-traffic and each of the four resources: a zero counts as unset, at every level, if and only if it is the integer 0, and any other zero, float or int64, has the level refused always |
| ConfigManagement.ValidateConfig | server/config/config_manager_validation.go:46-94 | accepts exactly the values the rules of the key allow |
| ConfigManagement.RulesAre | server/config/config_manager_validation.go:9-43 | setting by setting, the values the rules let pass |
| ConfigManagement.ValidateQuotaDefaultLevelReference | server/config/config_manager_validation.go:186-214 | when either setting is updated, accepts exactly if the default level will name a configured level |
| ConfigManagement.ValidateQuotaLevelsInUse | server/config/config_manager_validation.go:216-258 | accepts new limits exactly if there are some and every user's level is the number of one |
| ConfigManagement.ConfigManager.UpdateConfig | server/config/config_manager.go:352-461 | refused exactly when the update is unacceptable; saved means the cache has the completed values and nothing else changed; refused or failed anywhere means every key reads as before |
| ConfigManagement.RunIsFold | server/config/config_manager.go:352-461 | over every run, each key reads as the last saved call set it: failed calls leave no trace |
| ConfigManagement.SystemLevelKeysNeverChange | server/config/config_manager.go:82-87 | over every run, system-level keys read as at the start |
| ConfigManagement.ServerKeysAreProtected | server/config/config_manager.go:25-87 | an update that names one of the 14 keys of the system section that are needed to start is refused |
| ConfigManagement.DatabaseKeysAreProtected | server/config/config_manager.go:25-87 | the same of the 15 keys of the database section |
| ConfigManagement.RedisKeysAreProtected | server/config/config_manager.go:25-87 | the same of the 3 keys of the Redis section |
| ConfigManagement.LogKeysAreProtected | server/config/config_manager.go:25-87 | the same of the 14 keys of the log section |
| ConfigManagement.MariaDBKeysAreMySQLKeys | server/config/config_manager.go:82-87 | both spellings of the database section are protected alike |
| ConfigManagement.DefaultLevelStaysConfigured | server/config/config_manager_validation.go:186-214 | once the default level names a configured limit, be it through one saved update, it does after every later call, successful or not |
| ConfigManagement.AcceptedDefaultLevel | server/config/config_manager_validation.go:61-81 | an accepted default level is a whole number from 1 to 99 |
| ConfigManagement.RangeCheckAcceptsFractions | server/config/config_manager_validation.go:61-81 | the range rule passes exactly these values that are no integer: floats with a fraction strictly between 1 and 100 |
| ConfigManagement.DefaultLevelUpdateIff | server/config/config_manager_validation.go:186-214 | an update of the default level alone is accepted if and only if it is a whole number from 1 to 99 that names a level of the cached limits |
| ConfigManagement.DefaultLevelIsCovered | server/config/config_manager_validation.go:210-232 | the check by the printed level and the check by the parsed levels agree: a default level that names a configured limit is among the levels covered |
| ConfigManagement.NewUsersAreCovered | server/config/config_manager_validation.go:186-258 | after a saved update of either setting, whatever calls follow, a user who gets the default level has limits |
| ConfigManagement.LevelsStayComplete | server/config/config_manager_validation.go:97-184 | over every run, the cached limits stay complete and positive |
| ConfigManagement.SavedLimitsCoverUsers | server/config/config_manager_validation.go:216-258 | a saved update of the limits leaves no existing user without a level |
| ConfigSnapshot.BuildNestedConfigSnapshot | server/config/config_manager_sync.go:32-52 | the loop that sets every cached entry but the system-level ones in a nested map, in any order |
| ConfigSnapshot.PathUnsetIff | server/config/config_manager_sync.go:32-52 | a path, such as that of a system-level key, is unset in the nested configuration in every order if and only if no cached entry that is not system-level has a key that splits into it or beyond it, or a map on the way that holds it |
| ConfigSnapshot.UnsetAfterSavedIff | server/config/config_manager.go:352-461 | a saved update keeps such a path unset if and only if none of the entries it saves reaches it |
| ConfigSnapshot.PathStaysUnset | server/config/config_manager.go:352-461 | over every run, a path that no entry reaches at the start stays unset in every nested configuration while no call has an entry that reaches it |
| ConfigSnapshot.EmptySegmentsAreDropped | server/config/yaml.go:283-303 | the condition is needed: an entry whose key has an empty segment is no system-level key, is accepted, and is read at the path of one |
| ConfigSnapshot.ReadAsCachedIff | server/config/config_manager_sync.go:32-52 | an entry is read as it is cached, in every order, if and only if every other entry leaves its value at its path |
| ConfigSnapshot.LevelsReadAsCached | server/config/config_manager_sync.go:32-52 | after every run the cached level limits are complete, and they are the ones read in every order exactly under that condition |
| AppConfig.NothingIsLost | server/global/global.go:191-210 | in every interleaving the published configuration is the initial one with the effect of each finished call exactly once, in the order of their swaps |
| AppConfig.CountersAddUp | server/global/database_config_test.go:22-30 | in every interleaving, when the finished calls are increments, the published count is the initial one plus the number of finished calls |
| AppConfig.StaleProbeNeverPublishes | server/global/database_config.go:11-31 | in every interleaving, plain stores included, a probe's publication replaces a configuration with the probed path and port (trimmed), database, user, password and options, and changes only the type and the options |
| AppConfig.RetriesAreOthersPublications | server/global/global.go:198-210 | a call never retries more often than other calls have published |
| AppConfig.AloneItFinishes | server/global/global.go:198-210 | a call left alone is over within two actions from the top of its loop and within three from anywhere, holding a copy of what has been replaced included |
| AppConfig.ConfigPointer.UpdateAppConfig | server/global/global.go:198-210 | the loop publishes the update of exactly what it replaces, whatever others publish between its loads and swaps |
| AppConfig.ConfigPointer.ReconcileDatabaseConfig | server/global/database_config.go:11-31 | it publishes if and only if those six fields still match at its last look |
| DatabasePool.OneReconnectLoop | server/initialize/database_manager.go:338-354 | in every interleaving at most one reconnect is past its guard |
| DatabasePool.CurrentPoolIsOpen | server/initialize/database_manager.go:103-115 | the current pool is open, and so is any about to be installed |
| DatabasePool.SupersededPoolIsClosedOnce | server/initialize/database_manager.go:380-414 | a pool that was current and no longer is has been closed once, or one call is about to |
| DatabasePool.NoPoolLeaks | server/initialize/database_manager.go:338-414 | when no call is under way every pool ever opened is current or closed once |
| DatabasePool.HeartbeatsAreStopped | server/initialize/database_manager.go:246-287 | no stop channel is closed twice, and every heartbeat but the newest has been told to stop |
| DatabasePool.StartRunsHeartbeat | server/initialize/database_manager.go:246-277 | starting a heartbeat adds one, the only one not told to stop |
| DatabasePool.ShutdownStopsHeartbeats | server/initialize/database_manager.go:448-460 | a shutdown that has stopped the heartbeat leaves none running without having been told to stop |
| DatabasePool.CallsEnd | server/initialize/database_manager.go:338-405 | a reconnect is over after 14 actions of its own whatever others do, so the flag does not stay up |
| DatabasePool.ReconnectConnects | server/initialize/database_manager.go:356-404 | whatever others do, a reconnect that has the flag and is not cancelled while it tries makes up to five attempts; the pool of the first that connects is installed, and it is done four actions later |
| DatabasePool.ShutdownClosesAllIff | server/initialize/database_manager.go:448-473 | in the state right after a shutdown has closed the pool: every continuation in which all calls end has closed every pool once, if and only if no reconnect is past its check with its pool still to install and no adoption is still to install one; and then no continuation installs any |
| DatabasePool.LeftOpen | server/initialize/database_manager.go:356-389 | from any reachable state in which a call can still install a pool, some continuation ends all calls under way and leaves that pool current and open |
| DatabasePool.PoolMayOutliveShutdown | server/initialize/database_manager.go:356-389 | an interleaving in which a pool stays open after the shutdown |
| DatabasePool.DatabaseManager.StartHeartbeat | server/initialize/database_manager.go:246-277 | every execution among other calls, acting before and after its locked section, is a run of the protocol in which it is the call; no closed channel is closed again |
| DatabasePool.DatabaseManager.AdoptConnection | server/initialize/database_manager.go:103-115 | the same for an adoption, others acting between the exchange of the pools and the closing of the old one, which is returned; nil adopts nothing |
| DatabasePool.DatabaseManager.Reconnect | server/initialize/database_manager.go:338-405 | the same for the whole reconnect loop: others may cancel, adopt or reconnect between any two of its steps, and it ends done as the call of a run of the protocol |
| DatabasePool.DatabaseManager.Shutdown | server/initialize/database_manager.go:448-473 | the same for a shutdown: others act between cancelling, stopping the heartbeat and closing the pool; no closed channel is closed again |
| RoutedIPv6.AcceptedIff | server/provider/routed_ipv6.go:43-86 | a configuration comes from some metadata if and only if it describes distinct 128-bit addresses in one prefix of length 1 to 127, not the first one unless it is a /127, with valid interface names |
| RoutedIPv6.ResolvedFields | server/provider/routed_ipv6.go:43-86 | metadata resolves to nothing if and only if it has no prefix; the bridge is the one named or oneclickvirt6, the tunnel interface the one named, both names of an interface, the tunnel number the one named or 0 |
| RoutedIPv6.NormalizeForgives | server/utils/ipv6.go:604-618 | an address between brackets or quotes, with a prefix length, is read if that is at most 128 and refused otherwise |
| RoutedIPv6.Uint32Saturates | server/provider/routed_ipv6.go:84 | with its error ignored, parsing a run of digits gives the number or, beyond 32 bits, the largest value |
| RoutedIPv6.TunnelIsAccepted | server/provider/routed_ipv6_test.go:161-190 | a configuration of the kind tunnels use, with interface, is accepted |
| RoutedIPv6.PointToPointUsesBoth | server/provider/routed_ipv6.go:69-72 | a /127 uses both its addresses (section 6 of RFC 6164), elsewhere the first address is never assigned |
| RoutedIPv6.NetworkEnds | server/provider/routed_ipv6.go:60-72 | the network of an accepted configuration ends within the 128-bit address space |
| RoutedIPv6.EitherEndOfALink | server/provider/routed_ipv6.go:69-72 | of any /127 of the address space, either address is accepted for the guest with the other as gateway |
| RoutedIPv6.ConfigFromRuntimeLabelOutput | server/provider/routed_ipv6.go:330-375 | the loop reads a line as specified |
| RoutedIPv6.LabelsAreAllOrNothing | server/provider/routed_ipv6.go:301-389 | with any subset of an accepted configuration's labels on a container, reading gives the configuration if the five required ones are there, nothing if none is, and an error otherwise |
| RoutedIPv6.LabelsRoundTrip | server/provider/routed_ipv6.go:330-389 | printing the labels of an accepted configuration and reading the line gives it back, with or without a tunnel interface |
| LogSamplerSpec.SuppressionsAreBounded | server/core/sampling_core.go:67-104 | in every run, cleanups anywhere, no message is suppressed more than max - 1 times in a row |
| LogSamplerSpec.BurstWritesOneInMax | server/core/sampling_core.go:95-101 | of calls at one instant exactly every max-th is written |
| LogSamplerSpec.WrittenIff | server/core/sampling_core.go:67-104 | without cleanups a message is written if and only if it is the first, or its interval has passed since it was last written, or it is the 19th, 9th or 3rd call since then for debug, info or other levels |
| LogSamplerSpec.IntervalIs | server/core/sampling_core.go:107-138 | the interval of a message by the texts it holds and its level, in nanoseconds |
| LogSamplerSpec.SuppressedMeansRecent | server/core/sampling_core.go:85-103 | what is suppressed was written less than a minute before |
| LogSamplerSpec.CleanedUp | server/core/sampling_core.go:173-221 | after a cleanup at most a thousand samplers remain, none unused for more than thirty minutes, none older than one that went for lack of room, of which half go or as many as it takes |
| LogSamplerSpec.CleanupsUnseen | server/core/sampling_core.go:173-221 | in a whole run cleanups change nothing of what is written if each comes when all samplers that may go would let the next call through, so in particular if none finds more than a thousand in use |
| LogSamplerSpec.CleanupUnseenIff | server/core/sampling_core.go:173-221 | one cleanup, known by what it has left, changes nothing of what any later calls write if and only if every sampler it dropped would let the next call through |
| LogSamplerSpec.CleanupNeverSeenIff | server/core/sampling_core.go:173-221 | of the state before: whichever samplers a cleanup picks among equals, it changes nothing of what is written after it if and only if every sampler that may go would let the next call through |
| LogSamplerSpec.MayGoIff | server/core/sampling_core.go:190-221 | a sampler in use may go, in that more than a thousand are in use and fewer older ones than are to be deleted, if and only if some cleanup drops it |
| LogSamplerSpec.CrowdedCleanupIsSeen | server/core/sampling_core.go:190-221 | with more than a thousand samplers that all suppress the next call, some later call is written that would not have been, whichever samplers go |
| LogSamplerSpec.CrowdSuppresses | server/core/sampling_core.go:67-104 | any number of new messages at one instant leads to such a state |
| LogSampler.SamplingCore.ShouldSample | server/core/sampling_core.go:67-104 | the method on mutable samplers is the specification's step, other messages untouched |
| LogSampler.SamplingCore.CleanupOldSamplers | server/core/sampling_core.go:173-221 | the loops and the sort delete what the specification of a cleanup allows, in any order of the map |

## Left out

- SQL, GORM and file access: the table is a sequence of rows with exact string identity; collation, soft deletes and timestamps are ignored, and a failing statement is an arbitrary outcome.
- The order of the keys in the lookup query and of device names: sorting does not change a result here.
- Loops down a path (setNestedValue, unflattenConfig, updateYAMLNode) are recursions here, one call for each segment, on the same objects changed in place. A plain value that is itself a map is copied before something is set inside it, so that its other holders would see the change is not modelled.
- validateLevelLimits and prepareConfigForDB work on values: the maps of an update that they fill in are shared with nobody else.
- The linked list of the captcha cache is a sequence of elements, so pointers between list elements are not modelled.
- YAMLNodes.YAMLNode.SetNodeValue: a float without a fraction, as JSON delivers whole numbers, is written as an integer scalar by the source and stays a float here, because a scalar is its value.
- YAML style, comments, aliases and anchors, the text of scalars and numeric keys: a scalar is its value, a mapping has string keys, and a document is a tree.
- The conversion of keys to kebab case before an update, and normalizing values before saving: an update is any tree, so every converted one is included.
- Database rows after an UpdateConfig that fails: the flag file is written after the commit, so only the cache is put back. Running without a database is not modelled.
- SetConfig and SetRuntimeConfigCache skip some of the checks, so whole runs consist of UpdateConfig calls.
- Integers of other widths than int and int64 in configuration values: settings come from JSON or YAML. A float outside 64 bits is no integer here, where Go leaves its conversion to the platform.
- Floating point: tokens, rates and float settings are reals, without rounding, NaN or infinities.
- The texts of error messages, and which of several errors is reported.
- IPv6 text: reading and printing 128-bit addresses are parameters, and `ReadsBack` says what is asked of them; networks inside ::ffff:0:0/96 are refused as in the source.
- Initialize and Gorm when run again: they overwrite the managed pool from an earlier snapshot; global.APP_DB is left to its writers.
- Delays, jitter, logging and metrics.
- Writers that read, copy and store the application configuration: a plain store replaces everything, and `NothingIsLost` counts it as doing so.
- SelectPublicIPv6InterfaceNetwork, the image catalogue, shell texts, HTTP handlers and remote transports.
