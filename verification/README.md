# GenCache: a verified model

GenCache keeps five kinds of mutable state that have to agree: the eviction policies, the in-memory tier of the
cache, the backing memory store with its byte counter, the goroutines of a batch, and the recycled cells of the
pooled cache. This project models them in Dafny and proves what holds over every run, and for the places
where an expected property is false of the code, exactly when it holds.

Each stateful file of the repository appears twice. A class works the way the source does, with the same
fields and the same steps in the same order (the LFU's slice swapped in place, a ring of list elements with a map into it, the
cache's loops over its items). Every method of a class is proved to do to its fields what a function on plain values
does to the abstract state. The theorems about runs are then lemmas about those functions.

Time is an explicit clock reading `now`; a zero `time.Time` is the expiry `Never`. Integers are unbounded. A
trace is a sequence of public calls, each atomic, except in the cleanup tick (other calls may come between
its chunks) and in `DeleteMany` (every interleaving of every goroutine's steps).

| file | content |
|---|---|
| `types.dfy`, `ttl.dfy` | keys, sequences without repetition, expiry times |
| `lru_spec.dfy`, `fifo_spec.dfy` | the two list policies as sequences; order and victims |
| `inclusion.dfy`, `lru_inclusion.dfy`, `fifo_inclusion.dfy` | two policies of different capacity on the same calls |
| `heap.dfy`, `lfu_spec.dfy` | the binary heap and the LFU policy on it; heap order, history, victims |
| `linked_list.dfy`, `lru.dfy`, `fifo.dfy`, `lfu.dfy` | the policies as objects |
| `policy_spec.dfy`, `policy.dfy` | what the cache relies on, for all three policies |
| `store_spec.dfy`, `store_runs.dfy`, `store_history.dfy`, `memory_store.dfy` | the memory store: bytes, limits, batches, each key's history |
| `paths.dfy`, `codec.dfy` | file paths; key to file name and back |
| `cache_spec.dfy`, `cache.dfy` | the cache as functions and as an object |
| `cache_capacity.dfy`, `cache_agreement.dfy`, `cache_transparency.dfy`, `cleanup_spec.dfy` | theorems about the cache |
| `cache_history.dfy`, `cache_answers.dfy`, `cache_store.dfy` | the policy by the cache's history; answers, counters and events; the store inside the cache |
| `batch.dfy`, `batch_effects.dfy` | `DeleteMany` as a step relation, and what it does to the cache |
| `pool_spec.dfy`, `pool_runs.dfy`, `pool_exact.dfy`, `pool.dfy` | ownership of recycled cells, and the pool's counters |

Where the code and an expectation part ways, the code was followed:

- The cleanup tick takes an entry without expiry for expired, because a zero time is before every `now`
  (cache.go:293, cache.go:317). Over a store nobody can see it, since the store keeps the entry
  (`CacheTransparency.TierTransparent`); without a store the entry is lost (`CacheTransparency.SweepWithoutStoreIff`).
- A memory limit can be exceeded through `SetMany`, whose check skips overwritten keys (store/memory.go:323-326):
  `StoreRuns.MemoryLimitIff`.
- Under an ordinary extension `getKeyFromPath` does not invert `getPath` on keys with `__SLASH__`, `__SLASH_/` or
  `__SLASH/` in them, and on exactly those. An extension that is very short or has a slash, which the configuration
  allows, adds cases of its own: `Codec.KeyRoundTripIff`.
- At the capacity limit the pooled cache frees the cell it is storing, because the eviction event carries the
  incoming value (cache.go:506, pool.go:184-193): `PoolRuns.OwnershipIff`, `PoolExact.AnswersIff`.
- `Clear`, expiry and a refused store write do not reach the policy: `CacheAgreement.AgreementIff`.
- At its very expiry time an entry is gone from memory and still answered by a store, because one tests with `Before`
  and the other with `After` (cache.go:404, ttl/ttl.go:87-92): `CacheAnswers.AcceptedIsRead`.
- A Set that the store refuses stays visible in memory (cache.go:515-525): `CacheTransparency.TransparencyIff`.
- FIFO keeps the inclusion property, which LRU has on every trace, exactly as long as no call overtakes:
  `FifoInclusion.InclusionIff`.
- With `MaxConcurrent` 0 a nonempty `DeleteMany` blocks for ever: `BatchDelete.AlwaysReturnsIff`.
- Under a memory limit `SetMany` and single `Set`s judge a batch differently: `StoreRuns.VerdictsAgreeIff`.

## Model

| member | source | states |
|---|---|---|
| LruSpec.RunKeeps | policy/lru.go:42-129 | after any trace no key is tracked twice and the size is within the capacity |
| LruSpec.StepOrder | policy/lru.go:42-129 | one call moves a touched key to the front and keeps the mutual order of all the others |
| LruSpec.OrderedByTouch | policy/lru.go:42-129 | after any trace the list is sorted by latest touch in the trace (OnSet, or OnGet while tracked), latest first |
| LruSpec.VictimIsLeastRecent | policy/lru.go:75-82 | the key dropped by Evict or by a full OnSet was touched strictly earlier than every other tracked key, all of which stay; OnSet drops only for a new key on a full policy |
| LruSpec.ClearedIsNew | policy/lru.go:104-111 | after Clear, whatever came before, any calls leave what they leave on a new policy |
| LruInclusion.IncludedStep | policy/lru.go:42-129 | one call keeps a smaller LRU's list a subsequence of a larger one's |
| LruInclusion.IncludedRun | policy/lru.go:42-129 | the same over every trace, Evict calls included, and the two sizes never differ by more than the capacities do |
| LruInclusion.LargerLruTracksMore | policy/lru.go:42-111 | on any trace a larger LRU tracks every key a smaller one tracks, in the same recency order |
| FifoSpec.RunKeeps | policy/fifo.go:45-122 | after any trace no key is tracked twice and the size is within the capacity |
| FifoSpec.StepOrder | policy/fifo.go:45-122 | a call appends an absent key and never moves a present one |
| FifoSpec.OrderedByInsertion | policy/fifo.go:45-122 | after any trace the list is sorted by latest insertion-from-absent, whatever was read or overwritten |
| FifoSpec.VictimIsOldest | policy/fifo.go:68-75 | every victim is the oldest insertion among the tracked keys, and only it goes |
| FifoSpec.ClearedIsNew | policy/fifo.go:97-104 | after Clear, whatever came before, any calls leave what they leave on a new policy |
| FifoInclusion.AppendIff | policy/fifo.go:80-83 | putting a key of the larger list behind the smaller one keeps it inside if and only if nothing of the smaller list lies behind that key in the larger |
| FifoInclusion.IncludedStepIff | policy/fifo.go:45-122 | from a FIFO list inside a larger FIFO's, a call leaves it inside if and only if it does not overtake: set a key only the larger one tracks while the smaller one keeps a key that is younger in the larger |
| FifoInclusion.InclusionIff | policy/fifo.go:45-122 | on any trace the smaller list stays inside the larger after every call if and only if no call overtakes |
| FifoInclusion.LargerFifoTracksMore | policy/fifo.go:45-122 | on a trace without overtaking a larger FIFO tracks every key a smaller one tracks |
| FifoInclusion.LargerFifoMayTrackLess | policy/fifo.go:50-84 | otherwise it may not: a trace that overtakes, after which capacity 2 tracks a key that capacity 3 lacks |
| Heap.UpRestores | policy/lfu.go:30-45 | sifting up repairs a heap broken at one place only |
| Heap.DownRestores | policy/lfu.go:30-45 | sifting down repairs a heap broken at one place, or finds that place in order with its children |
| Heap.FixCorrect | policy/lfu.go:84-85 | after any change of one count, Fix gives a heap of the same slots |
| Heap.PushCorrect | policy/lfu.go:119-121 | Push gives a heap of the old slots and the new one |
| Heap.RemoveCorrect | policy/lfu.go:130-133 | Remove from the middle gives a heap of all slots but the one asked for, and returns that one |
| Heap.PopCorrect | policy/lfu.go:155-159 | Pop returns a slot whose count no slot undercuts and leaves a heap of the rest |
| Heap.PopIsRemoveRoot | policy/lfu.go:155-159 | Pop is Remove at the root |
| Heap.FixOfHeap | policy/lfu.go:30-32 | in a heap Fix moves nothing, so slots of equal count keep their places |
| Heap.PushBehindEqual | policy/lfu.go:30-32 | a pushed slot stays last if the count of slot (n-1)/2 is no greater; if it is greater the two change places, and the new slot goes no further past a slot of equal count |
| Heap.FixGoesLeft | policy/lfu.go:30-32 | a slot that outgrew its children changes places with the left one unless the right one has a strictly smaller count |
| Heap.RemoveFillsWithLast | policy/lfu.go:130-133 | the last slot takes the place of the one removed, and stays there if parent and children have no reason to move it |
| Heap.PopOfEquals | policy/lfu.go:155-159 | among equal counts the slot in front goes and the last slot takes its place, the others keeping theirs |
| LfuSpec.OnGetKeeps | policy/lfu.go:79-87 | OnGet keeps the heap and the distinct keys, and raises the count of its key alone by one |
| LfuSpec.OnSetKeeps | policy/lfu.go:90-124 | OnSet keeps them, leaves its key with count 1, and loses at most the key Evict would have taken, for a new key on a full policy |
| LfuSpec.OnDeleteKeeps | policy/lfu.go:127-135 | OnDelete keeps them and loses its key alone |
| LfuSpec.EvictKeeps | policy/lfu.go:148-161 | Evict keeps them and loses one slot with the least count of all |
| LfuSpec.RunKeeps | policy/lfu.go:79-161 | after any trace the queue is a min-heap of distinct keys within the capacity |
| LfuSpec.CountIsHistory | policy/lfu.go:79-124 | after any trace a tracked key's count is 1 plus its reads since its latest OnSet |
| LfuSpec.VictimIsLeastUsed | policy/lfu.go:109-116 | every victim, of Evict or of a full OnSet, has a count that no other undercuts, and only it goes; which of several with the least count it is follows from the places the heap gives them (Heap.FixOfHeap to Heap.PopOfEquals, LfuSpec.FreshKeysGo) |
| LfuSpec.FreshKeysQueueUp | policy/lfu.go:90-124 | distinct keys set and not read, within the capacity, lie in the queue in the order they were set |
| LfuSpec.FreshKeysGo | policy/lfu.go:148-161 | of these the one set first is evicted first, and the one set last is then in front |
| LfuSpec.ClearedIsNew | policy/lfu.go:138-145 | after Clear, whatever came before, any calls leave what they leave on a new policy |
| LfuPolicy.Lfu.Swap | policy/lfu.go:34-38 | exchanges two items and their index fields, so that every item still knows its place |
| LfuPolicy.Lfu.Up | policy/lfu.go:30-45 | the heap loop over Less and Swap, in place, is the sift-up of module Heap |
| LfuPolicy.Lfu.Down | policy/lfu.go:30-55 | the sift-down loop likewise, with its report whether the item moved |
| LfuPolicy.Lfu.HeapFix | policy/lfu.go:84-85 | in-place Fix refines Heap.Fix, item indexes kept |
| LfuPolicy.Lfu.PopLast | policy/lfu.go:47-55 | drops the last item, which leaves with index -1 |
| LfuPolicy.Lfu.HeapPush | policy/lfu.go:40-45 | in-place Push refines Heap.Push, item indexes kept |
| LfuPolicy.Lfu.HeapPop | policy/lfu.go:155-159 | in-place Pop refines Heap.Pop; the item has left the queue |
| LfuPolicy.Lfu.HeapRemove | policy/lfu.go:130-133 | in-place Remove refines Heap.Remove; the item has left the queue |
| LfuPolicy.Lfu.ItemPlace | policy/lfu.go:34-55 | a mapped item lies in the queue at its own index, which is its key's only place |
| LfuPolicy.Lfu.KeysAgree | policy/lfu.go:79-161 | a key is mapped if and only if the queue tracks it |
| LfuPolicy.Lfu.SizesAgree | policy/lfu.go:164-168 | the map and the queue have the same size |
| LfuPolicy.Lfu.Recount | policy/lfu.go:81-86 | writes a count through the item pointer and refixes the heap at the item's index |
| LfuPolicy.Lfu.OnGet | policy/lfu.go:79-87 | refines LfuSpec.OnGet; queue, indexes and map stay consistent |
| LfuPolicy.Lfu.OnSet | policy/lfu.go:90-124 | refines LfuSpec.OnSet; queue, indexes and map stay consistent |
| LfuPolicy.Lfu.OnDelete | policy/lfu.go:127-135 | refines LfuSpec.OnDelete; queue, indexes and map stay consistent |
| LfuPolicy.Lfu.OnClear | policy/lfu.go:138-145 | leaves nothing queued or mapped |
| LfuPolicy.Lfu.Evict | policy/lfu.go:148-161 | refines LfuSpec.Evict, the victim included |
| LfuPolicy.Replay | policy/lfu.go:79-161 | any trace run on the object leaves exactly the queue of LfuSpec.Run, a valid heap with a consistent map |
| LinkedLists.LinkBehind | policy/lru.go:88 | four pointer assignments put an element behind another and leave a doubly linked ring |
| LinkedLists.LinkAcross | policy/lru.go:99 | two pointer assignments take an element out and leave a doubly linked ring |
| LinkedLists.List.MoveToFront | policy/lru.go:48-50 | relinks the element behind the root; all others keep their order and the ring stays doubly linked |
| LinkedLists.List.Remove | policy/lru.go:97-100 | unlinks the element; all others keep their order |
| LinkedLists.List.PushFront | policy/lru.go:87-89 | links a new element before all others |
| LinkedLists.List.PushBack | policy/fifo.go:80-82 | links a new element after all others |
| LinkedLists.List.Front | policy/fifo.go:116-118 | the first element, or nil exactly on an empty list |
| LinkedLists.List.Back | policy/lru.go:123-125 | the last element, or nil exactly on an empty list |
| LinkedLists.KeysAgree | policy/lru.go:66-91 | a map holding the ring's elements under their own keys has the listed keys, as many of them, and no others |
| LruPolicy.Lru.OnGet | policy/lru.go:42-52 | refines LruSpec.OnGet; list and map hold the same elements |
| LruPolicy.Lru.OnSet | policy/lru.go:55-91 | refines LruSpec.OnSet; list and map hold the same elements |
| LruPolicy.Lru.OnDelete | policy/lru.go:94-102 | refines LruSpec.OnDelete |
| LruPolicy.Lru.OnClear | policy/lru.go:105-111 | leaves nothing listed or mapped |
| LruPolicy.Lru.Evict | policy/lru.go:114-129 | refines LruSpec.Evict, the victim included |
| LruPolicy.Replay | policy/lru.go:42-129 | any trace run on the object leaves exactly the list of LruSpec.Run, with a map of the same keys |
| FifoPolicy.Fifo.OnGet | policy/fifo.go:45-47 | may change nothing |
| FifoPolicy.Fifo.OnSet | policy/fifo.go:50-84 | refines FifoSpec.OnSet; list and map hold the same elements |
| FifoPolicy.Fifo.OnDelete | policy/fifo.go:87-95 | refines FifoSpec.OnDelete |
| FifoPolicy.Fifo.OnClear | policy/fifo.go:98-104 | leaves nothing listed or mapped |
| FifoPolicy.Fifo.Evict | policy/fifo.go:107-122 | refines FifoSpec.Evict, the victim included |
| FifoPolicy.Replay | policy/fifo.go:45-122 | any trace run on the object leaves exactly the list of FifoSpec.Run, with a map of the same keys |
| PolicySpec.SizeIsTracked | policy/policy.go:8-29 | every policy tracks as many keys as its size says, within its capacity |
| PolicySpec.GetTracks | policy/policy.go:8-29 | OnGet changes no policy's key set |
| PolicySpec.SetTracks | policy/policy.go:8-29 | OnSet leaves its key tracked and drops another only for a new key on a full policy |
| PolicySpec.DeleteTracks | policy/policy.go:8-29 | OnDelete drops its key alone |
| PolicySpec.EvictTracks | policy/policy.go:8-29 | Evict yields a tracked key if and only if there is one, and drops it alone |
| Policies.PolicyRef.OnGet | policy/policy.go:8-29 | the call on whichever policy object it is refines the common specification |
| Policies.PolicyRef.OnSet | policy/policy.go:8-29 | likewise |
| Policies.PolicyRef.OnDelete | policy/policy.go:8-29 | likewise |
| Policies.PolicyRef.Evict | policy/policy.go:8-29 | likewise, the victim included |
| Ttl.ValidateIff | ttl/ttl.go:38-57 | Validate accepts a TTL if and only if it is positive and within the configured range, or 0 where 0 means no expiry; every other TTL gets the error that names what is wrong with it |
| Ttl.NormalizeIsNearest | ttl/ttl.go:60-84 | Normalize gives the allowed TTL nearest to any other, and only a TTL of 0 gives no expiry |
| Ttl.ValidatedIsNormal | ttl/ttl.go:38-84 | a TTL that Validate accepts is left alone by both normalisations and counts from now; 0 alone means no expiry |
| StoreSpec.BytesLess | store/memory.go:104-124 | the summed size does not depend on which key is taken first |
| StoreSpec.BytesSplit | store/memory.go:104-124 | the bytes under any set of keys and those under the others add up |
| StoreRuns.StepAccounts | store/memory.go:72-208 | one call other than Clear moves memoryUsage by what it does to the stored bytes, plus the bytes it drops by expiry |
| StoreRuns.UsageAccounts | store/memory.go:72-412 | after any run memoryUsage is the stored bytes plus those dropped by expiry since the latest Clear, so it is never below them |
| StoreRuns.CapacityHolds | store/memory.go:137-142 | after any run, batches included, a positive maxSize bounds the number of entries |
| StoreRuns.MemoryLimitHolds | store/memory.go:145-175 | after any run whose batches do not grow keys they overwrite, stored bytes and memoryUsage are within maxMemory |
| StoreRuns.SetManyKeepsLimitIff | store/memory.go:320-357 | an accepted batch keeps the limit if and only if the growth of its overwritten keys fits the room its new keys leave |
| StoreRuns.MemoryLimitIff | store/memory.go:127-368 | memoryUsage stays within maxMemory all along a run if and only if every accepted batch of it grows no more than the room its new keys leave |
| StoreRuns.SetManyMayExceedLimit | store/memory.go:320-357 | rewriting one stored key by a batch is always accepted, and exceeds the limit exactly when the growth does not fit |
| StoreRuns.PeelOne | store/memory.go:298-368 | writing one key of a batch first changes neither the verdict on the rest nor the final store |
| StoreRuns.BatchIsFold | store/memory.go:298-368 | with no memory limit in force, or new keys only, SetMany succeeds exactly when setting the entries one by one in any order does, with the same final entries and memoryUsage |
| StoreRuns.FoldIs | store/memory.go:127-183 | whatever the limits and the keys, single Sets in a given order end in the batch's final store if there is room for the keys and each value fits in its turn, and else some Set is refused |
| StoreRuns.VerdictsAgreeIff | store/memory.go:298-368 | SetMany and single Sets in a given order come to the same if and only if there is no room for the keys, or no limit, or each value fits in its turn exactly when the values of all new keys fit at once |
| StoreRuns.OverwriteJudgedDifferently | store/memory.go:145-175 | for one stored key: SetMany accepts any value, Set one that fits on top of the current usage |
| StoreHistory.SetVerdict | store/memory.go:137-153 | a Set is refused for a missing place, else for missing memory, else accepted; a refusal changes nothing |
| StoreHistory.SetManyVerdict | store/memory.go:309-340 | the same for a batch, which needs places and memory for its new keys only |
| StoreHistory.EntryIsHeld | store/memory.go:72-412 | after any run the store holds under a key what the trace left there: value and expiry of the latest accepted write, batches included, its reads counted and timed, until a Delete, a Clear, or a Get or sweep that finds it expired |
| StoreHistory.GetAnswersHeld | store/memory.go:72-101 | after any run Get answers that value, up to and including the expiry time |
| StoreHistory.WrittenLasts | store/memory.go:155-165 | a written entry lasts for its TTL brought into the range, or for ever if that is 0 and 0 means so |
| StoreHistory.UntrackedUsage | store/memory.go:145-175 | without memory tracking memoryUsage stays 0 over any run |
| MemoryStores.MemoryStore.Get | store/memory.go:72-101 | refines StoreSpec.Get: lazy expiry drops the entry and not its bytes |
| MemoryStores.MemoryStore.Set | store/memory.go:127-183 | refines StoreSpec.Set, both refusals included |
| MemoryStores.MemoryStore.Delete | store/memory.go:186-208 | refines StoreSpec.Delete |
| MemoryStores.MemoryStore.Clear | store/memory.go:211-230 | refines StoreSpec.Clear: the byte counter restarts |
| MemoryStores.MemoryStore.CountNewKeys | store/memory.go:307-317 | the loop over the batch collects exactly its keys that are not stored |
| MemoryStores.MemoryStore.SumNewMemory | store/memory.go:321-327 | the loop sums the sizes of the new entries, in whatever order the map is read |
| MemoryStores.MemoryStore.CheckBatch | store/memory.go:307-330 | both admission checks, made before anything is written |
| MemoryStores.MemoryStore.WriteAll | store/memory.go:333-361 | the write loop ends in the same store whatever the order of the entries |
| MemoryStores.MemoryStore.SetMany | store/memory.go:298-368 | refines StoreSpec.SetMany; a refused batch changes nothing |
| MemoryStores.MemoryStore.CleanupExpiredEntries | store/memory.go:402-412 | drops exactly the expired entries and leaves the byte counter |
| Codec.ReplaceLeftmost | store/file.go:588 | the replacement function copies up to the leftmost match, replaces it and goes on behind it |
| Codec.ReplaceNothing | store/file.go:598 | text without a match is left alone |
| Codec.EscapeRoundTrip | store/file.go:589-597 | percent-encoding (section 2.1 of RFC 3986, with + for a space) is undone by decoding on every byte string; the encoded text has no slash |
| Codec.EscapeIsEscaped | store/file.go:589 | the encoded text has letters, digits, - _ . ~ and + only, and percent signs with two upper-case hex digits each |
| Codec.EscapeIsShortest | store/file.go:589 | every other such text that decodes to the same bytes is longer; so a space is a plus sign and no unreserved byte is escaped |
| Codec.UnescapeFailsIff | store/file.go:597 | decoding fails if and only if some percent sign lacks two hex digits, of either case, behind it |
| Codec.UnescapeJoin | store/file.go:597 | text behind a text that decodes is decoded by itself |
| Codec.UnescapeOne | store/file.go:597 | a plus sign decodes to a space, a percent sequence to the byte of that number, any other byte to itself |
| Codec.MarkerAtHead | store/file.go:588-599 | which texts show a marker at their head, after slashes are marked, that no slash put there |
| Codec.MarkRoundTripIff | store/file.go:588-599 | marking slashes and unmarking is the identity on a text if and only if it has no false marker |
| Codec.UnmarkRoundTrip | store/file.go:588-599 | on texts without slashes unmarking is undone by marking |
| Paths.CleanIff | store/file.go:590 | Clean makes every path tidy (names that lead somewhere, two dots only at the head of a path without a root), and leaves exactly the tidy ones alone |
| Paths.CleanDropsDots | store/file.go:590 | a repeated slash or a dot between slashes makes no difference to Clean |
| Paths.CleanGoesBack | store/file.go:590 | neither does a name followed by two dots |
| Paths.CleanDropsSlash | store/file.go:590 | neither does a slash at the end |
| Paths.CleanDropsHead | store/file.go:590 | neither does a dot at the head; the empty path is a dot |
| Paths.CleanDropsParent | store/file.go:590 | neither do two dots behind the root |
| Paths.RenderIsInjective | store/file.go:590 | two clean paths are equal if and only if they lead along the same names from the same start |
| Paths.BaseOfJoin | store/file.go:590-595 | the last component of any joined path is the last name that Clean leaves |
| Paths.SameJoinIff | store/file.go:590 | two names joined to a directory give one path if and only if they lead to one place |
| Paths.PlainJoin | store/file.go:590-595 | from any directory, however written, a plain name leads one step down and is the last component |
| Paths.PlainLeavesDirectory | store/file.go:590 | a plain name never gives the path of the directory or of its parent |
| Paths.PlainJoinIs | store/file.go:590 | joined to a clean directory a plain name stands behind it and one slash |
| Paths.JoinCleans | store/file.go:590 | cleaning the directory first makes no difference to Join |
| Paths.BaseIs | store/file.go:595 | Base gives the name behind the last slash, whatever slashes follow; a slash for the root, a dot for nothing |
| Codec.PlainNameIff | store/file.go:589-590 | the encoded key with the extension up to its first slash is a plain name unless key and that head are together empty, a dot or two dots |
| Codec.OrdinaryPath | store/file.go:585-591 | under an extension of three letters or more without a slash the path is the clean directory, a slash, the encoded key and the extension |
| Codec.UnnamedPath | store/file.go:590 | then the path is that of the directory, or of its parent for two dots |
| Codec.OwnLeaf | store/file.go:585-595 | the last component is the file's own name if the extension's other components cancel out, and else one name for all keys |
| Codec.OwnNameReads | store/file.go:594-600 | a file's own name gives back its key if and only if the key has no false marker; if the head of an extension with a slash stays on the name, only the empty key can come back |
| Codec.KeyRoundTripIff | store/file.go:585-600 | for every directory, extension and key, getKeyFromPath inverts getPath if and only if a condition on the three holds, which under an ordinary extension is that the key has no false marker, and for a key without a file name of its own is what the directory's last component decodes to |
| Codec.KeyRoundTrip | store/file.go:585-600 | for a key without the substring __SLASH the condition is on directory and extension only |
| Codec.OrdinaryExtension | store/file.go:41 | under an extension of three letters or more without a slash, such as the default, it is met by every such key |
| Codec.SharePathIff | store/file.go:585-591 | two keys share a path if and only if they are equal once their slashes are marked, or have no place of their own and lead to the same one |
| Codec.NamedLeavesDirectory | store/file.go:590 | a key with a place of its own never shares a path with one without |
| Codec.LeadingOutShares | store/file.go:590 | under an extension that leads out of its own directory all keys with file names share one path |
| Codec.PathsDiffer | store/file.go:585-591 | different keys without false markers have different paths, if one of them has a place of its own |
| Codec.FalseMarkerCollides | store/file.go:585-600 | a key with a false marker shares its path with a different key, the one read back where names are readable |
| CacheCapacity.EvictLoopRemovesOne | cache.go:502-513 | on a full cache, for any policy and any stale or untracked keys, the loop pops in eviction order up to the first resident key and removes it alone; it fails if and only if no resident key is tracked |
| CacheCapacity.EvictLoopPolicy | cache.go:502-513 | the policy stops tracking the popped keys and no others, and its size falls by their number |
| CacheCapacity.SizeBounded | cache.go:495-515 | after any run a positive maxSize bounds the resident entries |
| CacheCapacity.SetOnFull | cache.go:495-534 | Set on a full cache: refused for capacity exactly when no resident key is tracked, and then all entries stay; else exactly the first resident key in eviction order leaves; Evictions rises by the keys popped |
| CacheCapacity.SetOnFullCache | cache.go:495-534 | the same in every state a run can reach |
| CacheCapacity.PopsNothingIff | cache.go:495-513 | a Set pops nothing if and only if there is room or the policy tracks nothing |
| CacheCapacity.FailsAfterIff | cache.go:495-513 | the loop fails after n pops if and only if the policy tracks n keys and none is resident |
| CacheHistory.RunInOrder | cache.go:379-614 | after any run the policy inside the cache is ordered by the history of the cache's own calls, whatever the tiers did |
| CacheHistory.LruCacheOrder | cache.go:403-405 | after any run an LRU cache tracks its keys sorted by latest accepted Set or answered Get, latest first |
| CacheHistory.FifoCacheOrder | cache.go:527-530 | after any run a FIFO cache tracks its keys in the order of the accepted Sets that found them untracked |
| CacheHistory.LfuCacheCounts | cache.go:430-432 | after any run an LFU cache counts for a tracked key 1 plus the Gets answered, by either tier, since its latest accepted Set |
| CacheHistory.FullSetEvictsFirst | cache.go:495-513 | after any run, a Set on a full cache evicts, of the resident keys that the policy tracks, the one used longest ago, inserted first, or hit least |
| CacheAnswers.SetAcceptedIff | cache.go:476-525 | a Set is accepted if and only if its TTL is positive and in range, or 0 where that means no expiry, and the memory tier has a free place or a resident key the policy can give up, and the store has place and memory |
| CacheAnswers.SetErrorIs | cache.go:476-525 | otherwise the first of these that fails gives the error |
| CacheAnswers.AcceptedIsRead | cache.go:379-540 | the value of an accepted Set is read back before now plus its TTL, for ever if that is 0, and not after; at that very moment only a store still answers |
| CacheAnswers.StepCounts | cache.go:379-668 | how one call moves each counter, by what it answers and removes |
| CacheAnswers.CountersAddUp | cache.go:379-668 | over any run the counters add up to the Gets answered and not answered, the Sets accepted, the TTLs refused, the keys popped and the entries swept |
| CacheAnswers.GetAnnounces | cache.go:379-444 | a Get that is answered announces its value, once; another announces nothing |
| CacheAnswers.SetAnnounces | cache.go:503-540 | a Set announces each key it pops, in order and with the incoming value, and after these, if it is accepted, itself, once |
| CacheAnswers.ClearAnnounces | cache.go:641-651 | Clear announces every resident entry as an eviction with its own value, and nothing else |
| CacheAnswers.DeleteAnnounces | cache.go:548-614 | a Delete announces its key, once, with the value it had in memory |
| CacheStore.StoreIsRun | cache.go:275-668 | after any run of a cache its store is in the state that a store reaches by the calls that get through to it: Gets that memory cannot answer, Sets with a valid TTL and room in memory, Deletes, Clears and its own sweeps |
| CacheStore.StoreKeepsLimits | cache.go:515-525 | so over any run a cache's store keeps its size limit and its memory limit |
| CacheAgreement.MakeRoomAgrees | cache.go:495-513 | in agreement the loop always makes room, and residents plus Evictions do not change |
| CacheAgreement.SetAgrees | cache.go:452-534 | in agreement a Set never fails for capacity, keeps agreement, and balances its insertion by its eviction |
| CacheAgreement.AgreementHolds | cache.go:495-601 | over every run of Sets, Gets and Deletes without expiry or store refusal, residents equal tracked keys, stats.Size is right, and insertions equal residents plus Evictions plus effective deletes, relative to the start |
| CacheAgreement.InsertionsBalance | cache.go:495-601 | the same from a new cache whose policy has room for maxSize keys |
| CacheAgreement.StepKeepsAgreementIff | cache.go:379-668 | any call keeps agreement if and only if a guard on the state before it holds |
| CacheAgreement.AgreementIff | cache.go:275-668 | cache and policy agree all along a run if and only if every call of it meets that guard |
| CacheAgreement.SetKeepsAgreementIff | cache.go:515-534 | a Set that the store refuses breaks agreement unless its key was resident and nothing had to be evicted |
| CacheAgreement.GetKeepsAgreementIff | cache.go:398-419 | a Get breaks agreement exactly when it meets an expired entry |
| CacheAgreement.ClearKeepsAgreementIff | cache.go:622-668 | Clear breaks agreement unless nothing was resident |
| CacheAgreement.SweepKeepsAgreementIff | cache.go:312-325 | a cleanup chunk breaks agreement unless it removes nothing |
| CacheTransparency.GetAnswers | cache.go:398-443 | while tier, store and plain map are coupled, Get answers as the plain expiring map and keeps the coupling |
| CacheTransparency.InsertCoupled | cache.go:515-534 | an accepted Set keeps the coupling |
| CacheTransparency.StepCoupled | cache.go:275-668 | every call that the store does not refuse, eviction and sweep of either tier keeps the coupling |
| CacheTransparency.TierTransparent | cache.go:398-443 | after any such run whose calls meet their guards, Get returns exactly what one plain expiring map given the accepted Sets, Deletes and Clears returns |
| CacheTransparency.TickTransparent | cache.go:282-327 | the same between the chunks of a cleanup tick, whatever calls come between them, although the chunks keep the time at which the tick began |
| CacheTransparency.RefusedSetIsVisible | cache.go:515-525 | in any state a Set that the store refuses is read back until its entry expires |
| CacheTransparency.RefusedSetAnswers | cache.go:515-525 | from coupled tiers a refused Set makes Get answer its value until the entry expires, and as the plain map after that |
| CacheTransparency.RefusedSetCoupledIff | cache.go:515-525 | a refused Set keeps the coupling if and only if the store held that value already for as long |
| CacheTransparency.RefusedSetShows | cache.go:515-525 | otherwise some later Get answers differently from the plain map |
| CacheTransparency.StepTransparentIff | cache.go:275-668 | from coupled tiers a call leaves every later Get right if and only if its guard holds before it: the store accepts the Set, or holds that value already for as long |
| CacheTransparency.TransparencyIff | cache.go:275-668 | over any run in which time does not run backwards, cleanup chunks with the time of their tick included, every Get is right after every call if and only if every call meets its guard |
| CacheTransparency.SweepWithoutStoreIff | cache.go:312-325 | without a store, a chunk changes a later Get of a key exactly when it visits the key and the key never expires |
| CleanupSpec.VisitsEachOnce | cache.go:304-327 | under any interference the chunks go through the collected keys once, in order |
| CleanupSpec.CollectedCount | cache.go:282-300 | a tick collects all expired entries, or 1000 of them if there are as many |
| CleanupSpec.ChunksGetOn | cache.go:304-311 | under any interference each chunk gets 100 keys further, up to the last one |
| CleanupSpec.TickIsBounded | cache.go:282-327 | under any interference a tick removes at most 1000 entries |
| CleanupSpec.ChunkRemovesIff | cache.go:312-325 | a chunk removes an entry if and only if it visits the key and the entry then resident has no expiry time or one before the tick's now |
| CleanupSpec.LiveEntrySurvives | cache.go:315-318 | an entry not expired at the tick's now survives every remaining chunk, whatever the other calls do to other keys |
| CleanupSpec.RewrittenEntrySurvives | cache.go:315-318 | a collected key rewritten with a nonzero TTL is not removed |
| CleanupSpec.RewrittenForeverIsRemoved | cache.go:315-318 | a collected key rewritten with no expiry is removed again by its chunk |
| CleanupSpec.ChunksAddUp | cache.go:304-327 | without interference the chunks do to the whole cache, counters included, what one sweep of the visited keys does |
| CleanupSpec.QuietTickIsComplete | cache.go:282-327 | without interference and with fewer than 1000 stale entries, exactly these are gone after the tick |
| CleanupSpec.PlayIsRun | cache.go:282-327 | a tick under any schedule is a run of the cache, so that what holds over every run holds of it |
| Caches.GenCache.Get | cache.go:379-444 | refines CacheSpec.Get: hit, lazy expiry, read-through, miss; a hit in either tier is announced, a removal is not |
| Caches.GenCache.PopOne | cache.go:503-506 | one turn: pop a key, drop its entry if it has one, count an eviction either way |
| Caches.GenCache.EvictUntilRoom | cache.go:502-513 | the loop terminates on every policy state, with the result, the count and the events of CacheSpec.EvictLoop |
| Caches.GenCache.MakeRoom | cache.go:495-513 | refines CacheSpec.MakeRoom; each event carries a popped key with the incoming value |
| Caches.GenCache.WriteThrough | cache.go:515-525 | memory holds the entry even if the store refuses it |
| Caches.GenCache.Set | cache.go:452-540 | refines CacheSpec.Set, with its three errors and its events in order |
| Caches.GenCache.Delete | cache.go:548-614 | refines CacheSpec.Delete in both tiers and the policy |
| Caches.GenCache.Clear | cache.go:622-668 | refines CacheSpec.Clear and announces every entry once |
| Caches.GenCache.AnnounceAll | cache.go:641-651 | the loop announces every resident entry once, in any order |
| Caches.GenCache.CollectExpired | cache.go:287-300 | the loop collects stale keys without repetition, at most 1000, and all of them below that |
| Caches.GenCache.SweepChunk | cache.go:312-325 | refines CacheSpec.Sweep by looking every key of the chunk up again, and announces each removed entry with its own value |
| CacheSpec.SweepEventsAll | cache.go:314-324 | for distinct stale keys a sweep announces one expiration for each, in order, with the value it had |
| Caches.GenCache.CleanupTick | cache.go:282-327 | an uninterrupted tick removes exactly the collected entries, 1000 or all if they are fewer, raises Evictions by their number, announces each once in order, and leaves nothing expired if they were fewer |
| BatchDelete.InitInv | batch.go:251-262 | the state at the start of a call satisfies the invariant |
| BatchDelete.StepKeeps | batch.go:264-302 | every enabled step of launcher, worker, caller or context keeps the invariant |
| BatchDelete.InvHolds | batch.go:264-302 | so does every interleaving |
| BatchDelete.ReachableIsSafe | batch.go:257-298 | in every reachable state, cancelled or not: at most MaxConcurrent workers hold the semaphore; a worker with an error finds errChan open and with room; releasing and finishing never wait |
| BatchDelete.Progress | batch.go:257-302 | with MaxConcurrent at least 1, or nothing to do, some step that is not a cancellation is enabled until the call has returned and every goroutine has ended |
| BatchDelete.StepDecreases | batch.go:257-302 | every step lowers a nonnegative measure |
| BatchDelete.InterleavingsEnd | batch.go:257-302 | the number of steps of any interleaving is bounded by the measure at its start |
| BatchDelete.UncancelledResult | batch.go:251-298 | without cancellation, at return every key of the truncated batch was tried, successes plus collected errors equal its length, the errors are those of the failed keys, and the call fails exactly when there is one |
| BatchDelete.TimeoutsAre | batch.go:266-301 | in every reachable state the time-outs counted are those of a launcher that left and a caller that gave up; a caller that gave up counts no errors |
| BatchDelete.CancelledStops | batch.go:264-275 | after a cancellation at most one more worker is started |
| BatchDelete.CollectorDecides | batch.go:287-298 | a caller that has seen the batch done returns its result, not the context's error, whatever becomes of the context |
| BatchEffects.DeletesApplied | batch.go:273-283 | in every reachable state, cancelled or not, both tiers of the cache lack exactly the keys whose delete has succeeded, and hold every other entry as it was |
| BatchEffects.DeletedAreGone | batch.go:251-298 | without cancellation, at return a Get of a key whose delete succeeded misses, and if the call succeeded these are all keys of the truncated batch |
| BatchDelete.StoppedIsFinished | batch.go:257-302 | then an interleaving that can go on only by a cancellation, or not at all, has finished everything |
| BatchDelete.Completes | batch.go:257-302 | then every interleaving can be carried on, without a further cancellation, until everything is finished |
| BatchDelete.ZeroConcurrencyBlocks | batch.go:259-275 | with MaxConcurrent 0 and a nonempty batch no interleaving gets past the first acquire before a cancellation |
| BatchDelete.FirstAcquireIsStopped | batch.go:259-275 | there nothing but a cancellation can happen, and the call has not returned |
| BatchDelete.AlwaysReturnsIff | batch.go:245-303 | an uncancelled call returns in every interleaving that goes on for as long as it can if and only if MaxConcurrent is at least 1 or the truncated batch is empty |
| PoolSpec.SetRefines | pool.go:219-223 | a Set that evicts nothing, or pops one stale key and fails, keeps one owner per cell and does to the values what a plain cache's Set does, whichever cell the pool hands out |
| PoolSpec.GetRefines | pool.go:226-233 | Get reads through the cell what a plain cache stores |
| PoolSpec.DeleteRefines | pool.go:184-194 | Delete puts exactly its key's cell into the pool, and the values change as a plain cache's |
| PoolSpec.ClearRefines | cache.go:641-655 | after Clear the pool has its old cells and every cell that was held, each once, in any order of the events |
| PoolSpec.SweepRefines | pool.go:184-194 | expiry keeps one owner per cell: the callback ignores its events |
| PoolSpec.ReturnedSweep | pool.go:184-194 | no cell that goes by expiry comes back to the pool |
| PoolSpec.ForgetRefines | pool.go:166-177 | a free cell dropped by the runtime changes no owner and no value |
| PoolSpec.SetKeepsOwnersIff | cache.go:503-506 | at the capacity limit too, a Set keeps one owner per cell if and only if a guard on the state before it holds |
| PoolSpec.GuardIsHarmless | cache.go:495-513 | in a reachable state that guard says that the Set evicts nothing, or pops one stale key and fails |
| PoolRuns.OwnershipIff | pool.go:184-255 | every cell keeps one owner all along a run, at the limit and below, if and only if every Set of it meets that guard |
| PoolSpec.StoredWhileFree | pool.go:184-194 | an evicting Set that succeeds leaves the cell of its key in the pool |
| PoolSpec.RefusedSetOverwrites | pool.go:219-223 | after it, a Set of any key that is refused for its TTL can change what Get answers for the first key |
| PoolSpec.FailedKeepsOwnersIff | cache.go:507-510 | an evicting Set that fails keeps one owner per cell exactly when it popped one key |
| PoolRuns.StepRefines | pool.go:184-255 | every call of the pooled cache whose Set is harmless is a call of a plain cache on the values |
| PoolRuns.RunRefines | pool.go:184-255 | over every run cells have one owner and the values are those of the plain cache |
| PoolRuns.LatestIsHeld | pool.go:184-255 | after every run the plain cache holds under a key what the trace last left there |
| PoolRuns.GetReturnsOwnValue | pool.go:226-233 | after every run Get returns the value of the latest accepted Set of its key in the trace, unless a later Delete, Clear or expiry took it, whatever cells were recycled |
| PoolExact.StepRightIff | pool.go:184-255 | from a state with one owner per cell, every Get of every harmless continuation is right after a call if and only if the call meets the guard |
| PoolExact.AnswersIff | pool.go:184-255 | all along a run, and ever after, the pooled cache answers as the plain cache if and only if every Set of the run meets the guard |
| PoolExact.EvictingIsWrong | pool.go:184-223 | after an evicting Set that succeeds some continuation answers wrongly |
| PoolExact.FailingIsWrong | pool.go:184-223 | so it does after one that fails having popped two keys or more |
| Pools.CellPool.New | pool.go:166-177 | a fresh cell, counted exactly when the lock could be taken |
| Pools.CellPool.Get | pool.go:166-177 | a cell of the pool, which leaves it and counts nothing, or a new one, counted if the lock could be taken |
| Pools.CellPool.OnEvent | pool.go:184-194 | a Delete or Eviction event with a value puts its cell into the pool, any other nothing; the size counter follows if the lock could be taken |
| Pools.CellPool.Put | pool.go:187-191 | the cell is in the pool, counted exactly when the lock could be taken |
| Pools.CellPool.OtherCalls | pool.go:166-194 | no number of concurrent gets and callbacks moves a counter while the lock is held |
| Pools.TruncateIff | pool.go:281 | the conversion to int64 gives the one integer next to the number on the side of zero |
| Pools.CellPool.ShrinkTo | pool.go:286-291 | the loop terminates with CurrentSize at the target, if it was above, whatever other goroutines do meanwhile, and adds what it takes off to TotalDestroyed |
| Pools.CellPool.Cleanup | pool.go:270-297 | with the lock taken and CurrentSize over MaxSize, CurrentSize ends at the greater of MinSize and the product without its fraction, however floats round, unless that is no less than before; else nothing changes; CurrentSize plus TotalDestroyed is conserved |
| Pools.PooledCache.Get | pool.go:226-233 | refines PoolSpec.Get; the callback ignores the event of the hit |
| Pools.PooledCache.Take | pool.go:220-221 | the cell comes from the pool or is new, and only its value is overwritten |
| Pools.PooledCache.Recycle | pool.go:184-194 | the callback, run over the events of one call, fills the pool by the cells they carry and touches no value |
| Pools.PooledCache.Set | pool.go:219-223 | refines PoolSpec.Set for the cell taken |
| Pools.PooledCache.Delete | pool.go:236-238 | refines PoolSpec.Delete |
| Pools.PooledCache.Clear | pool.go:251-255 | refines PoolSpec.Clear for the events announced |
| Pools.PooledCache.SweepChunk | cache.go:312-325 | refines PoolSpec.Sweep: the callback sees the expirations of a chunk and frees nothing |

## Left out

- container/list and container/heap are part of Go's library: they are modelled from their documented loops, and an element's owner pointer, which Go uses to ignore foreign elements, is not.
- The policy interface is a closed datatype of the three policies; a policy supplied by the user is not modelled, nor are the copies of values, TTLs and timestamps that policies keep and never read.
- Integer widths: counters, sizes and access counts are unbounded, so int64 overflow does not occur.
- Atomicity: a public call is one step, so the windows in which the two Gets upgrade their locks are not modelled; the memory order of atomics is not either.
- Contexts and cancellation in single cache and store calls, Close, closed-cache errors, panics and their recovery.
- The store's statistics and creation times, its options and constructor, its other batch calls, and the ticker that starts a sweep.
- calculateMemoryUsage is any nonnegative function of key and value; the unsafe.Sizeof terms are not computed.
- Callbacks: methods return the events of a call in order instead of calling back inside it, and event times are dropped.
- GetMany and SetMany of batch.go: they have no semaphore and no launcher goroutine, so what DeleteMany shows is harder; metrics other than the success, error and timeout counts.
- A single delete of a batch succeeds or fails at will, and one that fails leaves the cache as it was; a store whose own Delete fails after the memory tier has let the entry go is not modelled, nor are other writers during DeleteMany.
- The rest of store/file.go: files, permissions, JSON, the directory index and its cleanup, and toString for keys that are not strings.
- Paths: only a system whose file separator is the slash is modelled.
- StoreRuns.MemoryLimitHolds: excludes batches that grow keys they overwrite, because for them the limit need not hold; StoreRuns.MemoryLimitIff is the exact condition.
- CacheTransparency.TierTransparent: a second writer to the store is excluded, and clock readings that run backwards; the time a cleanup chunk keeps from its tick is not such a reading.
- PoolRuns.RunRefines: runs without a store whose Sets meet the guard, because otherwise values can be wrong (PoolExact.AnswersIff is the exact condition).
- Pools.CellPool.Cleanup: float64 rounding is any function from real to real; NaN, infinities and a product outside int64 are excluded.
- The background loop of the pool, its option setters, and the pool types of pool.go that only wrap sync.Pool.
- Compression, metrics, exporters and option setters: thin layers over libraries.
