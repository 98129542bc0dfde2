# geecache in Dafny

A model of the geecache read-through cache and of the merge sort that sits
beside it in the repository.

- **LRU store** (`Lru`, from geecache/lru/lru.go).
  - A class with the entry list as a sequence (most recent first), the key map, the byte count `nBytes` and a ghost log of what `OnEvicted` receives.
  - `Add` keeps the source's accounting as written. An update adds the old length and subtracts the new one.
  - The eviction loop runs under the exact precondition that makes it stop.
- **ByteView** (`ByteViews`, from geecache/byteview.go).
  - A value wrapper around a byte sequence.
  - `ByteSlice` and `cloneBytes` return fresh arrays.
- **Main cache** (`MainCache`, from geecache/cache.go).
  - The lazily created LRU cache of a group.
- **Consistent-hash ring** (`ConsistentHash`, from geecache/consistenthash/consistenthash.go).
  - `Add` appends the virtual nodes' hashes, writes `hashMap` and then sorts.
  - `Get` is the binary search followed by the wrap-round.
  - The hash function is a parameter.
- **Groups** (`Groups`, from geecache/geecache.go).
  - `Group` covers `Get`, `load`, `getFromPeer`, `getLocally`, `populateCache` and `RegisterPeers`.
  - The registry of groups is the class `Registry`.
- **HTTP pool** (`Http` and `HttpServer`, from geecache/http.go).
  - `NewHTTPPool`, `Set`, `PickPeer` and the `httpGetter` client.
  - `ServeHTTP`'s routing and the answers it gives.
  - `url.QueryEscape` and the HTTP round trip are the fields of a `Net` value passed in.
- **Merge sort** (`MergeSort`, from Sort/mergeSort.go).
  - The in-place recursive sort on an `array<int>`, proved against a functional specification `Sorting`.
  - `Sorting` is proved sorted, a permutation of its input, and equal to any other sorted permutation. `sort.Ints` in the ring's `Add` is modelled by it.
- **The two tests as scenarios** (`ConsistentHashTest`, `GroupsTest`, from consistenthash_test.go and geecache_test.go).

Three quirks of the code are modelled as written.

- The update branch of `lru.Cache.Add` (lru.go line 83) has the reverse sign:
  - `Lru.UpdateAccounting` shows that the byte count stays exact only when the value keeps its length;
  - `Lru.UpdateDriftExample` shows the drift;
  - `Lru.EvictionSpins` shows that a drifted count can make the eviction loop spin forever.
- The client's fetch URL has no `/` between the group and the key (http.go lines 127-132):
  - `Http.FetchURLAmbiguous` shows two different requests sharing one URL;
  - `HttpServer.PeerFetchRejected` shows that a peer's own `ServeHTTP` answers such a path with 400.
- `NewGroup` accepts a negative budget, but the eviction loop (lru.go lines 96-98) then never stops once a new key is added: `MainCache.NegativeBudgetHangs` shows it. The groups' lookups are modelled for every budget, except that with a negative budget a lookup that would store a loaded value is excluded.

## Model

| member | source | states |
|---|---|---|
| ByteViews.ByteView.Len | geecache/byteview.go:10-12 | the length is the number of bytes held |
| ByteViews.ByteView.ByteSlice | geecache/byteview.go:15-17 | a fresh array whose contents are the view's bytes |
| ByteViews.ByteView.String | geecache/byteview.go:20-22 | a string of the same length whose characters are the bytes |
| ByteViews.CloneBytes | geecache/byteview.go:24-28 | a fresh array of the same length, equal element by element |
| ByteViews.StringBytes | geecache/byteview.go:20-22 | []byte(s) of a byte string: same length, same codes |
| ByteViews.BytesStringRoundTrip | geecache/byteview.go:20-22 | converting a view to a string and back gives its bytes |
| ByteViews.StringBytesRoundTrip | geecache/byteview.go:20-22 | converting a byte string to bytes and back gives the string |
| Lru.Find | geecache/lru/lru.go:42 | the position of the first entry with the key; \|s\| exactly when the key is not listed |
| Lru.TotalSizeAppend | geecache/lru/lru.go:66 | the bytes of a concatenation are the sum of the parts' bytes |
| Lru.HasKeyTouch | geecache/lru/lru.go:77-93 | after Add's first half the listed keys are the old ones plus the key |
| Lru.DistinctTouch | geecache/lru/lru.go:77-93 | Add's first half keeps the keys distinct |
| Lru.MirrorsTouch | geecache/lru/lru.go:77-93 | Add's first half keeps the list and the map in step; the list grows exactly when the key was new |
| Lru.ValuesTouch | geecache/lru/lru.go:77-93 | after Add's first half each listed key maps to its listed value |
| Lru.TouchIsMove | geecache/lru/lru.go:42-47 | re-touching a key with its own value is MoveToFront of its entry |
| Lru.MirrorsDropLast | geecache/lru/lru.go:56-64 | removing the back entry unmaps its key and only its key |
| Lru.MirrorsSize | geecache/lru/lru.go:102-104 | the map has as many keys as the list has entries |
| Lru.TotalSizeReplace | geecache/lru/lru.go:79-85 | moving entry i to the front with a new value changes the bytes by the difference in size |
| Lru.TouchSize | geecache/lru/lru.go:77-93 | the listed bytes after Add's first half: minus the old length plus the new one on an update, plus len(key)+value.Len() on an insert |
| Lru.Kept | geecache/lru/lru.go:96-98 | the number of entries the eviction loop leaves is at most the list length |
| Lru.InsertTerminates | geecache/lru/lru.go:86-98 | inserting a new key into an accounted cache with a non-negative budget lets the eviction loop stop, and nBytes is then the listed bytes |
| Lru.UpdateAccounting | geecache/lru/lru.go:83 | an update shifts nBytes from the listed bytes by twice the old length minus the new; the count stays exact only if the lengths are equal |
| Lru.InsertAccounting | geecache/lru/lru.go:92 | an insert keeps the gap between nBytes and the listed bytes |
| Lru.UpdateDriftExample | geecache/lru/lru.go:83 | a one-byte value under a one-byte key (2 bytes listed) updated to two bytes leaves nBytes at 1 while the list holds 3 bytes: two below, twice the length difference |
| Lru.KeptSpec | geecache/lru/lru.go:96-98 | when the loop stops the count is within the budget, every eviction happened while over budget, and a zero budget evicts nothing |
| Lru.KeptOfSpec | geecache/lru/lru.go:96-98 | KeptSpec for the first j entries |
| Lru.EvictionSpins | geecache/lru/lru.go:54-98 | without the termination condition the loop guard holds after every number of evictions, the empty list included |
| Lru.EvictsNewEntry | geecache/lru/lru.go:88-98 | the eviction loop can remove the entry Add has just inserted |
| Lru.AddThenLookup | geecache/lru/lru.go:75-99 | after Add the key is listed exactly when an entry survives, and then it is the front entry with the new value |
| Lru.MirrorsPrefix | geecache/lru/lru.go:60-64 | cutting the list after j entries and unmapping the cut keys keeps list and map in step |
| Lru.KeptKey | geecache/lru/lru.go:60-64 | after the cut a key stays mapped exactly when it is listed before the cut |
| Lru.NothingEvicted | geecache/lru/lru.go:96 | within the budget, or with a zero budget, every entry stays |
| Lru.Cache.constructor | geecache/lru/lru.go:30-37 | an empty, well-formed, accounted cache with the given budget and callback |
| Lru.Cache.Get | geecache/lru/lru.go:40-51 | a hit returns the mapped value and moves its entry to the front, keeping the others' order; a miss returns the zero value and changes nothing |
| Lru.Cache.Removeoldest | geecache/lru/lru.go:54-72 | the back entry leaves the list and the map, its size leaves nBytes and it is logged if a callback is set; no-op when empty |
| Lru.Cache.DropBack | geecache/lru/lru.go:60-70 | the state change of a removal from a non-empty list |
| Lru.Cache.Add | geecache/lru/lru.go:75-99 | the new list is the touched list cut to the Kept entries, the map loses the cut keys, nBytes is the charge minus the evicted bytes, the evictions are logged, and nBytes ends within the budget |
| Lru.Cache.Store | geecache/lru/lru.go:77-93 | Add's first half: entry to the front with the new value, key mapped, nBytes charged as the source does |
| Lru.Cache.Evict | geecache/lru/lru.go:96-98 | the eviction loop keeps the first Kept entries and unmaps the others' keys |
| Lru.Cache.EvictOne | geecache/lru/lru.go:97 | one pass of the eviction loop keeps the loop's invariant |
| Lru.Cache.Len | geecache/lru/lru.go:102-104 | the entry count equals the number of mapped keys |
| MainCache.Cache.constructor | geecache/cache.go:10-14 | no LRU cache yet, with the given budget |
| MainCache.Cache.Add | geecache/cache.go:16-28 | creates the LRU cache on first use and reuses it later; `Added`: the new list, contents and count are those of Lru.Cache.Add (the pair in front, then the back entries the loop evicts removed); the count is within the budget; the key maps to the value if it is kept |
| MainCache.Cache.Get | geecache/cache.go:30-46 | a hit exactly when the key is cached, with its value, and the hit moves that entry to the front of the list with the others in their order; the zero view and false otherwise, also before the first add, with the list unchanged; contents and count unchanged |
| MainCache.InsertTerminates | geecache/cache.go:27 | adding a key that is not cached to an accounted cache with a non-negative budget terminates |
| MainCache.NegativeBudgetHangs | geecache/lru/lru.go:96-98 | with a negative budget, adding a key that is not cached to an accounted cache never stops evicting |
| ConsistentHash.Digit | geecache/consistenthash/consistenthash.go:43 | the character of a decimal digit |
| ConsistentHash.Itoa | geecache/consistenthash/consistenthash.go:43 | strconv.Itoa: decimal digits with no leading zero |
| ConsistentHash.DecimalItoa | geecache/consistenthash/consistenthash.go:43 | reading Itoa(i) back gives i |
| ConsistentHash.PeerVNodes | geecache/consistenthash/consistenthash.go:41-48 | a peer gets one virtual node per replica |
| ConsistentHash.PeerVNodeAt | geecache/consistenthash/consistenthash.go:43 | replica i of peer p hashes Itoa(i)+p and stands for p |
| ConsistentHash.VNodesLength | geecache/consistenthash/consistenthash.go:39-49 | replicas virtual nodes per peer, none for a negative count |
| ConsistentHash.VNodesAppend | geecache/consistenthash/consistenthash.go:39-49 | the virtual nodes of a concatenation of peer lists are the concatenation of theirs |
| ConsistentHash.WriteSpec | geecache/consistenthash/consistenthash.go:47 | the hashMap keys are the old ones plus the new hashes; each hash maps to the peer of its last virtual node |
| ConsistentHash.WriteValues | geecache/consistenthash/consistenthash.go:47 | every hashMap value is an old one or a virtual node's peer |
| ConsistentHash.VNodesPeers | geecache/consistenthash/consistenthash.go:39-49 | every virtual node stands for one of the peers |
| ConsistentHash.SearchRange | geecache/consistenthash/consistenthash.go:65-67 | sort.Search narrowed to a range: on sorted keys everything before the result is below h and everything from it on is at least h |
| ConsistentHash.Search | geecache/consistenthash/consistenthash.go:65-67 | sort.Search: the first index whose key is at least h |
| ConsistentHash.SuccessorUnique | geecache/consistenthash/consistenthash.go:62-69 | a sorted non-empty ring has one successor index per hash |
| ConsistentHash.SearchSuccessor | geecache/consistenthash/consistenthash.go:65-69 | the search followed by idx % len(keys) picks the successor |
| ConsistentHash.WrapRound | geecache/consistenthash/consistenthash.go:69 | idx % len wraps only idx == len, to 0 |
| ConsistentHash.Map.constructor | geecache/consistenthash/consistenthash.go:21-33 | an empty ring with the replica count and with fn, or the default hash when fn is nil |
| ConsistentHash.Map.Add | geecache/consistenthash/consistenthash.go:37-52 | keys is the sorted old ring plus the new virtual hashes, and hashMap is the old one with the new virtual nodes written in order |
| ConsistentHash.Map.AddPeer | geecache/consistenthash/consistenthash.go:41-48 | the inner loop appends one peer's virtual hashes and writes them |
| ConsistentHash.Map.Get | geecache/consistenthash/consistenthash.go:56-70 | "" on an empty ring; otherwise the owner of the first hash at or after the key's hash, wrapping to index 0 |
| ConsistentHash.Map.EmptyRing | geecache/consistenthash/consistenthash.go:37-59 | the ring is empty exactly when no peer was added or the replica count is not positive |
| ConsistentHash.Map.GetSpec | geecache/consistenthash/consistenthash.go:51-69 | the ring is sorted and Get names the owner of the key's successor |
| ConsistentHash.Map.GetOwner | geecache/consistenthash/consistenthash.go:56-69 | on a non-empty ring Get names an added peer |
| ConsistentHash.AddSorted | geecache/consistenthash/consistenthash.go:51 | sorting the sorted old ring with the new hashes is sorting all the hashes |
| ConsistentHash.RingShape | geecache/consistenthash/consistenthash.go:37-52 | the ring is sorted and holds exactly the virtual hashes, duplicates kept, replicas per peer |
| ConsistentHash.RingIncremental | geecache/consistenthash/consistenthash.go:37-52 | a later Add keeps every earlier hash and adds exactly replicas × len(peers) new ones |
| ConsistentHash.VNodeOf | geecache/consistenthash/consistenthash.go:39-45 | where replica i of peer q sits among the virtual nodes |
| ConsistentHash.OwnerOf | geecache/consistenthash/consistenthash.go:43-47 | hashMap[hash(Itoa(i)+p)] == p unless a later virtual node with the same hash overwrote it |
| ConsistentHash.RingOwned | geecache/consistenthash/consistenthash.go:45-47 | every ring hash is in hashMap and maps to an added peer |
| ConsistentHashTest.TestHash | geecache/consistenthash/consistenthash_test.go:10-13 | the test's hash reads a digit string as its decimal value |
| ConsistentHashTest.TwoDigitHash | geecache/consistenthash/consistenthash_test.go:15 | replica i of a one-digit peer d hashes to 10i + d |
| ConsistentHashTest.FirstRing | geecache/consistenthash/consistenthash_test.go:15-16 | the ring after Add("6", "4", "2") is 2, 4, 6, 12, 14, 16, 22, 24, 26 |
| ConsistentHashTest.SecondRing | geecache/consistenthash/consistenthash_test.go:33-34 | the ring after Add("8") adds 8, 18, 28 |
| ConsistentHashTest.FirstLookups | geecache/consistenthash/consistenthash_test.go:19-31 | "2", "11", "23", "27" are owned by "2", "2", "4", "2" |
| ConsistentHashTest.SecondLookups | geecache/consistenthash/consistenthash_test.go:37-43 | after Add("8") only "27" moves, to "8" |
| ConsistentHashTest.TestHashing | geecache/consistenthash/consistenthash_test.go:8-45 | the lookups of the test before and after Add("8") |
| Http.HttpGetter.FetchURL | geecache/http.go:127-132 | the URL is the base URL, then the escaped group, then the escaped key, with no separator |
| Http.HttpGetter.Get | geecache/http.go:126-150 | the body exactly when the transport succeeds with status 200 and a readable body; a status other than 200 is "server returned: " and the status |
| Http.FetchURLAmbiguous | geecache/http.go:127-132 | group "ab" with key "c" and group "a" with key "bc" are fetched from the same URL |
| Http.MakeGetters | geecache/http.go:98-101 | one getter per peer, with base URL peer + basePath |
| Http.HTTPPool.constructor | geecache/http.go:35-40 | self as given, basePath "/_geecache/", no ring and no getters |
| Http.HTTPPool.Set | geecache/http.go:91-102 | a fresh 50-replica ring holding exactly the peers, and one getter per peer |
| Http.HTTPPool.PickPeer | geecache/http.go:105-115 | a getter exactly when the ring names a peer other than self, and then that peer's getter |
| Http.PickedIsPeer | geecache/http.go:109-111 | a non-empty ring answer is an added peer, which has a getter |
| HttpServer.Slash | geecache/http.go:60 | the position of the first '/' |
| HttpServer.RouteOf | geecache/http.go:51-69 | unexpected exactly when basePath is not a prefix, bad request exactly when the rest has no '/', otherwise the group before the first '/' and the key after it |
| HttpServer.RouteRoundTrip | geecache/http.go:60-69 | a path built from a group without '/' and any key routes back to that group and key |
| HttpServer.PeerFetchRejected | geecache/http.go:60-65 | a fetch path without '/' between group and key is a bad request |
| HttpServer.ServeHTTP | geecache/http.go:49-88 | panic outside basePath, 400 "bad request", 404 "no such group:"+name, otherwise the response for the group's answer; the group stays well formed with its picker, and for "" and for a hit answers and changes as Group.Get does (`Answers`: nothing changed for "", the cached value moved to the front on a hit) |
| HttpServer.Serve | geecache/http.go:79-87 | 500 with the error text or the value's bytes as application/octet-stream, for the answer Group.Get gives; the group stays well formed and changes as Group.Get changes it: nothing for "", a move to the front on a hit, what load does otherwise |
| Groups.Group.constructor | geecache/geecache.go:49-53 | a group with the name, loader and budget (of any sign), an empty main cache and no picker |
| Groups.Group.GetFromPeer | geecache/geecache.go:108-114 | the peer's bytes as a view exactly when its Get succeeds, its error otherwise |
| Groups.Group.RegisterPeers | geecache/geecache.go:84-91 | installs the picker; a second registration is the panic "RegisterPeerPicker called more than once" and changes nothing |
| Groups.Group.Get | geecache/geecache.go:68-81 | `Answers`: "key is required" for "" with the LRU cache, its list, contents and count unchanged; the cached value on a hit without loading, the hit moving the entry to the front of the main cache's list; otherwise what load gives. The picker's ring must be set up only for a miss |
| Groups.Group.Load | geecache/geecache.go:94-105 | a picked peer's success is returned and the cache's list, contents and count are unchanged; otherwise what getLocally gives |
| Groups.Group.GetLocally | geecache/geecache.go:116-129 | the loader's error with the cache's list, contents and count unchanged, or its bytes cloned and returned, and the cache left as MainCache.Cache.Add leaves it (`Added`) |
| Groups.Group.PopulateCache | geecache/geecache.go:131-134 | `Added`: the cache's new list, contents and count are those of MainCache.Cache.Add; hence the key, if kept, maps to the value, no other key is added, and within the budget the contents gain exactly this pair |
| Groups.Registry.constructor | geecache/geecache.go:32-35 | no groups |
| Groups.Registry.NewGroup | geecache/geecache.go:38-58 | the panic "nil Getter" for no loader; otherwise a fresh empty group with the given budget of any sign, registered under its name, replacing any other |
| Groups.Registry.GetGroup | geecache/geecache.go:61-66 | the group of that name exactly when one is registered |
| GroupsTest.SlowDB | geecache/geecache_test.go:34-52 | the row's bytes exactly for a key of the database, otherwise "<key> not exsist" |
| GroupsTest.GetTwice | geecache/geecache_test.go:54-65 | for a key not cached: both Gets give the loaded value, it is loaded once, and the cache gains it |
| GroupsTest.GetRows | geecache/geecache_test.go:54-65 | over distinct uncached keys: both Gets of each give its loaded value and each is loaded exactly once |
| GroupsTest.GetMissing | geecache/geecache_test.go:67-70 | a key the loader fails on gives its error, is loaded once and nothing is cached |
| GroupsTest.OrderIsRows | geecache/geecache_test.go:23-27 | the visiting order lists each row once; "unknow" is not a row |
| GroupsTest.TestGet | geecache/geecache_test.go:30-71 | every row reads back twice as its value, each loaded exactly once, and "unknow" is an error |
| MergeSort.MergeLength | Sort/mergeSort.go:27-47 | the merge takes every remaining element exactly once |
| MergeSort.MergePermutes | Sort/mergeSort.go:27-47 | merging neither loses nor invents elements |
| MergeSort.MergeSorted | Sort/mergeSort.go:27-47 | merging sorted runs gives a sorted run |
| MergeSort.SortingPermutes | Sort/mergeSort.go:10-53 | what recur computes is a permutation of its range |
| MergeSort.SortingSorted | Sort/mergeSort.go:10-53 | what recur computes is sorted ascending |
| MergeSort.SortedPermutationUnique | Sort/mergeSort.go:10-53 | there is one sorted permutation, so any correct sort agrees with the merge sort |
| MergeSort.MergeSort | Sort/mergeSort.go:4-7 | returns the same array, now sorted ascending and a permutation of the input |
| MergeSort.Recur | Sort/mergeSort.go:10-53 | sorts start..end and changes nothing outside it; start >= end changes nothing |
| MergeSort.RecurStep | Sort/mergeSort.go:16-52 | sorting both halves and merging them sorts the range |
| MergeSort.MergeHalves | Sort/mergeSort.go:22-52 | the range becomes the merge of its two halves, nothing else changes |
| MergeSort.MergeRange | Sort/mergeSort.go:22-47 | temp is the merge of the two runs, ties taking the right element |
| MergeSort.CopyBack | Sort/mergeSort.go:50-52 | temp is copied over start..end, nothing else changes |

## Left out

- Concurrency is not modelled. The mutexes of cache.go and http.go and the registry's read-write lock are no-ops: each call runs alone.
- I/O is not modelled: logging, `http.Get`, reading and closing the body, and writes to the `ResponseWriter`. Transport results are the `Net` parameter; a response is an `Outcome` value.
- `crc32.ChecksumIEEE` (the ring's default hash) and `url.QueryEscape` are function parameters rather than implementations.
- `singleflight`, `GetterFunc`, geerpc's codec, the MySQL example and `main/main.go` are not part of this model. The loader is a function value, and `singleflight` is not on the read path.
- The `PeerPicker`/`PeerGetter` interfaces of peers.go are fixed to `HTTPPool` and `httpGetter`. peers.go is not part of this model.
- The LRU `Value` interface is fixed to `ByteView`, the only implementation the cache uses.
- A Go string is a sequence of bytes. A Dafny `string` stands for one here, one character per byte. Nothing in the model keeps a key's characters below 256. For a key with a larger character, `|key|` is not Go's `len(key)`, which counts the bytes of its UTF-8 encoding. The LRU byte accounting (`Lru.Size`, `Lru.Charge`) then undercounts such a key.
- Sizes are unbounded integers, not int64. Overflow of `nBytes` is not modelled.
- `sort.Ints` in the ring's `Add` is modelled by the merge sort's `Sorting`. `MergeSort.SortedPermutationUnique` shows that both give the same result.
- Lru.Cache.Add: requires `AddTerminates`, the exact condition under which the eviction loop stops. Inputs that would make Go spin forever are excluded, not modelled (`Lru.EvictionSpins` describes them).
- MainCache.Cache.Add: requires `AddTerminates`, as Lru.Cache.Add does.
- Groups.Group.Load: requires the key not to be cached, as on its only call path from Get. Only then is the eviction loop sure to stop.
- Groups.Group.Load: with a negative budget, requires that no value is stored (a peer answers or the loader fails). Go accepts a negative budget, but then storing a new key never returns (`MainCache.NegativeBudgetHangs`).
- Groups.Group.GetLocally: requires the key not to be cached, for the same reason. With a negative budget it also requires the loader to fail, for the reason just given.
- Groups.Group.PopulateCache: requires the key not to be cached, for the same reason, and a non-negative budget, without which adding the key never returns.
- Groups.Group.Get: requires `Finishes`. With a negative budget, a lookup whose load would store a value is excluded, because Go never returns from it. Every other lookup of such a group is modelled: the empty key, a hit, a peer's answer and a loader error.
- Groups.Group.Get: does not promise that the peer picker is still set up afterwards. Get never changes the picker, which `peers == old(peers)` states.
- Http.HTTPPool.PickPeer: requires `Set` to have run first. Go would dereference a nil ring otherwise.
- Groups.Group.Get: requires a registered picker's ring to be set up only for a lookup that loads, the one path that calls PickPeer. The empty key and a hit are modelled without it. HttpServer.Serve and HttpServer.ServeHTTP require the same.
- HttpServer.ServeHTTP: requires, through `Ready`, that the group's lookup of the routed key returns, as Groups.Group.Get does. HttpServer.Serve requires the same.
- HttpServer.ServeHTTP: for a key the group does not cache, it leaves what the group answers to `HttpServer.Serve` and `Groups.Group.Get`.
- ConsistentHashTest.TestHash: reads a non-empty unsigned digit string as its decimal value modulo 2^32 and gives 0 for any other string. Go's `strconv.Atoi` also accepts a leading sign, and `uint32` then keeps a negative value's low 32 bits in two's complement. Above 2^63 - 1 it saturates at the largest int64, whose low 32 bits are 0xFFFFFFFF. The test hashes only short digit strings.
- GroupsTest.TestGet: Go ranges over the database map in an unspecified order. The model visits Tom, Jack, Sam.
- Percent-decoding of the request path by `net/http` is outside the code modelled. `ServeHTTP` receives the path as given.
