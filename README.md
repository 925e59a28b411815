# Kademlia routing table (Go and Python variants)

This project models the routing table of a small Kademlia DHT in Dafny. The repository
holds two versions of the table.

- **main.go.** `NodeID` is a 20-byte id with `Equals`, byte-lexicographic `Less`, `Xor` and
  `PrefixLen`. `PrefixLen` is the position of the first set bit, or 159 for the all-zero id.
  `RoutingTable` has 160 buckets of at most 20 contacts, most recently seen first.
  - `Update` moves a known contact to the front of its bucket. It pushes an unknown contact
    to the front when the bucket has room, and drops it otherwise.
  - `FindClosest` reads the target's own bucket, then the buckets `home - r` and `home + r`
    for r = 1, 2, …. It stops once `count` records are held or both ends of the table are
    passed, then sorts the records by XOR distance to the target.
- **node.py and table.py.** `Node` carries 20 bytes of data plus a host and a port.
  `distance_key` is the first set bit of the data, or 140 for all-zero data.
  - The table has 256 buckets. `update` appends an unseen node to the back of its bucket,
    with no capacity limit.
  - `find_closest` reads buckets in the same outward order. It sorts `(key, node)` pairs by
    ascending key and keeps the first 20.

Files:

- `node_ids.dfy` (module `NodeIds`): the 20-byte id. `Less`, `Xor` and `PrefixLen` are
  specification functions, each with a loop method proved equal to it. The loop method
  `ComputeEquals` is proved against plain sequence equality.
- `routing.dfy` (module `Routing`): the Go table. A class holds the bucket array. `Update`
  and `FindClosest` are proved against the functions `UpdatedTable` and `ClosestRecords`.
- `py_nodes.dfy` (module `PyNodes`): the Python `Node`.
- `py_routing.dfy` (module `PyRouting`): the Python table, as a class whose `buckets`
  sequence `Update` reassigns.
- `expansion.dfy` (module `Expansion`): the outward bucket order that both searches share.
  - `Collected(bs, start, rounds)` is what rounds `0 .. rounds-1` read.
  - `StopRound(bs, start, wanted, from)` is the round at whose top the loop stops. The Go
    loop starts at round 1, after reading the home bucket. The Python loop starts at round 0.
- `sorting.dfy` (module `Sorting`): an insertion sort that stands for `sort.Sort` and `sorted`.
  It is proved to return an ordered permutation of its input.
- `wrappers.dfy`: `Option`.

Where the code and its own tests or the usual Kademlia conventions disagree, the model follows the code:

- `distance_key` of all-zero data is `len(data) * 7 = 140` (node.py:32). The test at
  node.py:59-61 expects 160. `PyNodes.ZeroKeyCollides` shows that 140 is also the key of a
  genuine distance.
- The Python table has `32 * 8 = 256` buckets (table.py:12). The test at table.py:62
  expects 160.
- Go `PrefixLen` gives 159 both for equal ids and for ids that differ only in the last bit
  (`NodeIds.LastBitSharesZeroBucket`). So a distinct pair can land in bucket 159, the bucket
  reserved for the all-zero distance, rather than at most 158.
- Go `FindClosest` does not cut its result to `count`, so the model does not cut it either.
  Ties need no tie-break: on a well-placed table distinct contacts have distinct distance
  keys (`Routing.ClosestRecordsOrdered`). Because the home bucket is read before the first
  stop test, a `count` of 0 or less still returns every record of the home bucket, not an
  empty result.
- Python sorts by ascending `distance_key`. A larger key means a longer prefix shared with
  the target, so the farthest nodes come first (`PyRouting.ClosestEntriesFarthestFirst`).
  A node equal to the target is the exception. Its key is 140, so it sorts ahead of every
  node with a key above 140, although it is closer than all of them
  (`PyRouting.ExactMatchSortsAsFar`). When 20 or more pairs sort ahead of it, the cut to
  20 drops it.

The code has three Go defects that stop it from working as written, and one Python 2
quirk. The model does what the code evidently intends:

- `FindNodeInList` (main.go:93-101) never advances, and it compares `*Contact` pointers. The
  model scans the bucket by id.
- `CopyXorToVector` (main.go:133-141) never advances, and it appends to a copy of the slice
  header. The model returns the extended sequence.
- `FindClosest` (main.go:143-169) pre-fills `count` nil records and never increments
  `to_move`. The model starts empty and widens the radius by one per round.
- table.py:37-49 reuses the name `n` in its list comprehensions. Under Python 2 this rebinds
  the parameter `n` to a `Node`, so after the first non-empty bucket the stop test
  `len(result) >= n` compares an int with a `Node` and never fires. The model keeps `n` as the
  parameter.

## Model

| member | source | states |
|---|---|---|
| `NodeIds.ComputeEquals` | main.go:36-43 | returns true exactly when all 20 bytes agree |
| `NodeIds.ComputeLess` | main.go:45-52 | equals `Less`: the first differing byte decides, and equal ids are not less |
| `NodeIds.LessCharacterised` | main.go:45-52 | `Less(a, b)` holds iff the ids agree on a prefix and `a` has the smaller byte right after it |
| `NodeIds.LessIrreflexive` | main.go:45-52 | no id is less than itself |
| `NodeIds.LessTransitive` | main.go:45-52 | `Less` is transitive |
| `NodeIds.LessTrichotomy` | main.go:45-52 | exactly one of `Less(a, b)`, `Less(b, a)`, `a == b` holds |
| `NodeIds.ComputeXor` | main.go:54-60 | the byte-by-byte loop computes the byte-wise XOR `Xor` |
| `NodeIds.XorCommutative` | main.go:54-60 | `Xor(a, b) == Xor(b, a)` |
| `NodeIds.XorSelfInverse` | main.go:54-60 | `Xor(Xor(a, b), b) == a` |
| `NodeIds.XorSelfIsZero` | main.go:54-60 | `Xor(a, a)` is the all-zero id |
| `NodeIds.XorInjective` | main.go:54-60 | XOR with a fixed id maps distinct ids to distinct results |
| `NodeIds.XorBit` | main.go:54-60 | a bit of `Xor(a, b)` is set exactly where `a` and `b` differ |
| `NodeIds.FirstSetBit` | main.go:62-71 | the position found is set and every earlier position is clear, or no position from the start on is set |
| `NodeIds.PrefixLen` | main.go:62-71 | always a valid bucket index, below 160 |
| `NodeIds.PrefixLenIsFirstSetBit` | main.go:62-71 | the all-zero id gives 159; any other id gives its first set bit, MSB first, with all earlier bits clear |
| `NodeIds.ComputePrefixLen` | main.go:62-71 | the nested byte/bit scan with early return computes `PrefixLen` |
| `NodeIds.SharedPrefix` | main.go:62-71 | applied to `Xor(a, b)`: symmetric; the ids agree on every bit before it and, when distinct, differ at it; equal ids give 159 |
| `NodeIds.LastBitSharesZeroBucket` | main.go:70 | the id whose only set bit is the last one gets 159, like the all-zero id |
| `NodeIds.LongerPrefixIsCloser` | main.go:45-71 | of two non-zero distances, the one with the later first set bit is smaller under `Less` |
| `Routing.BucketIndex` | main.go:104-105 | the bucket of an id is a valid index below 160 |
| `Routing.IndexOf` | main.go:93-101 | the position found holds the id and no earlier one does, or no entry holds the id |
| `Routing.FindNodeInList` | main.go:93-101 | the linear scan by id returns `IndexOf` |
| `Routing.UpdatePolicy` | main.go:108-115 | known contact: same length and contents, that contact in front; unknown with room: pushed to the front; unknown and full: bucket unchanged |
| `Routing.UpdatedBucketFrom` | main.go:108-115 | every entry of the updated bucket is the new contact or an old entry |
| `Routing.UpdatedBucketNoDuplicates` | main.go:108-115 | an update never puts an id into a bucket twice |
| `Routing.UpdatePreservesInvariant` | main.go:103-116 | every bucket stays within 20 entries, has no duplicate ids, and holds only contacts that belong in it |
| `Routing.FullBucketDropsNewcomer` | main.go:112-114 | an unknown contact whose bucket is full leaves the table unchanged and is in no bucket |
| `Routing.RoutingTable.constructor` | main.go:84-91 | 160 empty buckets for the given local id |
| `Routing.RoutingTable.Update` | main.go:103-116 | the table becomes `UpdatedTable`; only bucket `PrefixLen(Xor(node, id))` changes; the invariant holds |
| `Routing.CopyXorToVector` | main.go:133-141 | the vector is extended by one record per contact, each carrying `Xor(target, id)` |
| `Routing.RecordOfMember` | main.go:136-139 | every contact of a bucket gets its record with its own distance key |
| `Routing.RecordOrderStrict` | main.go:123-130 | records of distinct contacts are strictly ordered one way; a record is never less than itself |
| `Routing.RecordLeTotalPreorder` | main.go:123-130 | the "not farther" order derived from `Less` is a total preorder |
| `Routing.SortRecords` | main.go:167 | the sort is a permutation of its input |
| `Routing.SortRecordsSorted` | main.go:167 | the sort puts records in ascending distance order |
| `Routing.SortedRecordsStrict` | main.go:167 | sorted records of contacts with distinct ids are strictly increasing |
| `Routing.WellPlacedKeysApart` | main.go:103-116 | in a well-placed table no id occurs twice, within a bucket or across buckets |
| `Routing.RoundRecords` | main.go:154-165 | round `r` appends the records of bucket `home - r` and then of bucket `home + r` |
| `Routing.ReadRound` | main.go:154-165 | reads each side only when its index is in range, and reports a side as passed exactly when it is out of range |
| `Routing.ClosestRecordsOrdered` | main.go:143-169 | the result is a permutation of the gathered records, strictly ordered by distance, and each record carries its own distance |
| `Routing.GatheredReach` | main.go:150-166 | every gathered contact is in the table; a search ending below `count` has gathered every contact |
| `Routing.ClosestRecordsUnderpopulated` | main.go:150-166 | with fewer than `count` contacts, the result holds one record for each contact of the table |
| `Routing.RoutingTable.FindClosest` | main.go:143-169 | returns `ClosestRecords`: the home bucket, then rounds outward until `count` records or both ends are passed, then sorted; the buckets are not modified |
| `Expansion.StopRound` | main.go:150-153 | the first round at whose top the loop stops; no earlier round stops; at most one past the last bucket |
| `Expansion.StopRoundIs` | table.py:29-31 | a stopping round with no earlier stop is the one `StopRound` finds |
| `Expansion.CollectedNext` | table.py:33-50 | round `s > 0` appends the left side and then the right side at distance `s` |
| `Expansion.CollectedHas` | table.py:33-50 | every entry of a bucket within the reached window has been read |
| `Expansion.CollectedFrom` | table.py:33-50 | every entry read comes from a bucket within the reached window |
| `Expansion.CollectedSize` | table.py:33-50 | the rounds done read one contiguous range of buckets, each once |
| `Expansion.CollectedAtMostTotal` | table.py:33-50 | a search never reads more entries than the table holds |
| `Expansion.VisitInjective` | main.go:154-165 | no bucket is read twice |
| `Expansion.ShortSearchGathersAll` | main.go:150-153 | a search ending below the wanted count has read every entry of every bucket |
| `Expansion.ShortSearchReadsAll` | table.py:29-31 | a search ending below the wanted count read exactly as many entries as the table holds |
| `Expansion.SmallTableReadsAll` | table.py:29-31 | a table holding fewer than the wanted count is read in full |
| `Expansion.CollectedDistinct` | main.go:154-165 | buckets whose keys are apart yield entries with distinct keys |
| `Sorting.InsertionSort` | main.go:167 | the sort is a permutation of its input |
| `Sorting.InsertionSortSorted` | table.py:52 | under a total preorder the sort's output is ordered |
| `Sorting.PermutationKeepsNoRepeats` | main.go:167 | a permutation of a repeat-free sequence is repeat-free |
| `PyNodes.NewNode` | node.py:10-14 | a node is built exactly when `data` is 20 bytes, keeping data, host and port; host and port default to `localhost` and 3000 |
| `PyNodes.XorNodeLaws` | node.py:16-17 | `^` is commutative on whole nodes, self-inverse on data, and zero on a node with itself |
| `PyNodes.XorNodeExample` | node.py:48-52 | twenty `'a'` bytes `^` twenty `'b'` bytes is 3 in every byte |
| `PyNodes.EqualityLaws` | node.py:19-23 | `!=` is the complement of `==`; `==` is an equivalence that ignores host and port and holds iff the XOR is zero |
| `PyNodes.DistanceKey` | node.py:25-32 | the key is below 160 |
| `PyNodes.ComputeDistanceKey` | node.py:25-32 | the nested scan (bits `1 << i`, `i` from 7 down) returns `bit_n * 8 + (7 - i)` at the first hit, else 140 |
| `PyNodes.DistanceKeyIsPrefixLen` | node.py:25-32 | for non-zero data the key is the first set bit, equal to Go's `PrefixLen`; all-zero data gives 140 |
| `PyNodes.ZeroKeyCollides` | node.py:32 | all-zero data and data whose first set bit is bit 140 both get key 140 |
| `PyNodes.DistanceKeyExample` | node.py:54-57 | five zero bytes, then 31, then 255s gives key 43 |
| `PyNodes.KeyAboveZeroKeyExample` | node.py:25-32 | a non-zero distance whose only set bit is bit 146 gets key 146, above the all-zero key 140 |
| `PyNodes.XorKeySymmetric` | node.py:16-32 | the key of `a ^ b` equals that of `b ^ a`, and is 140 when `a == b` |
| `PyRouting.EmptyBuckets` | table.py:12 | a fresh table has 256 buckets, all empty |
| `PyRouting.UpdatedBucketFacts` | table.py:18-19 | the old bucket is a prefix of the new one; it grows by one exactly when no equal node was there; the node is then held; still no equal nodes |
| `PyRouting.UpdatePreservesInvariant` | table.py:16-19 | the invariant holds afterwards; only bucket `distance_key(self.node ^ node)` changes; it only grows at the back, with no capacity limit |
| `PyRouting.UpdateIdempotent` | table.py:18-19 | a second `update` with the same node changes nothing |
| `PyRouting.UpdateExample` | table.py:64-67 | local `'a' * 20` updated with `'b' * 20` puts one node in bucket 6 |
| `PyRouting.RoundEntries` | table.py:33-50 | round 0 appends the start bucket's pairs; round `s > 0` appends those of `start - s` and then `start + s` |
| `PyRouting.SortEntries` | table.py:52 | `sorted` is a permutation of its input |
| `PyRouting.SortEntriesSorted` | table.py:52 | `sorted` puts pairs in ascending key order |
| `PyRouting.CutKeepsSmallest` | table.py:52 | `[:20]` of an ordered list keeps at most 20 pairs, in order, none with a larger key than any dropped pair |
| `PyRouting.ClosestEntriesSpec` | table.py:25-52 | at most 20 pairs in ascending key order, drawn from the pairs read, each with its node's key, and keys no larger than any pair left out |
| `PyRouting.ClosestEntriesUnderpopulated` | table.py:25-52 | with fewer than `n` (and at most 20) nodes, every node's pair is in the result |
| `PyRouting.ScenarioTotal` | table.py:72-75 | the test's table holds six nodes, all in buckets |
| `PyRouting.FindClosestScenario` | table.py:69-81 | searching the test's table from bucket 4 returns all six pairs in key order |
| `PyRouting.WellPlacedKeysApart` | table.py:16-19 | in a well-placed table no two equal nodes are stored, within or across buckets |
| `PyRouting.ClosestEntriesDistinct` | table.py:25-52 | on a well-placed table no node appears twice in the result |
| `PyRouting.ClosestEntriesFarthestFirst` | table.py:52 | for nodes other than the target, a later pair with a larger key is strictly closer to the target in XOR distance |
| `PyRouting.ExactMatchSortsAsFar` | table.py:52 | a node equal to the target gets key 140, below the key of any node keyed above 140, although its XOR distance is smaller |
| `PyRouting.RoutingTable.constructor` | table.py:10-14 | 256 empty buckets, then exactly one `update` when a bootstrap node is given |
| `PyRouting.RoutingTable.Update` | table.py:16-19 | the buckets become `UpdatedTable`; every other bucket is unchanged; the invariant holds |
| `PyRouting.RoutingTable.FindClosest` | table.py:21-23 | the search starts at bucket `distance_key(self.node ^ target)`; `n` defaults to 20 |
| `PyRouting.RoutingTable.FindClosestBucket` | table.py:25-52 | the loop returns `ClosestEntries`: rounds outward from `start` until `n` pairs or both sides out of range, then sorted and cut to 20; `n` defaults to 20 |
| `PyRouting.RoutingTable.ReadShift` | table.py:33-50 | round 0 reads the start bucket once; round `s > 0` reads `start - s` and then `start + s`, each only when in range |

## Left out

- dht.py and server.py are not part of this model. They are ZeroMQ and JSON messaging,
  iterative lookups over the network, Flask routes, process management and file reading.
- `NewNodeID` and `String` (main.go:15-22, main.go:32-34) are left out. They are thin wrappers
  over hex encoding.
- `NewRandomNodeID`, `main` and `random_20bits` are left out because they depend on
  randomness. `random_32bytes`, imported at table.py:6, is not defined in node.py.
- `__repr__` and the unittest scaffolding are left out. The test assertions that the code
  satisfies are stated as lemmas (`XorNodeExample`, `DistanceKeyExample`, `UpdateExample`,
  `FindClosestScenario`). The two it fails, node.py:61 and table.py:62, are described above.
- The mutual exclusion between `Update` and `FindClosest` is left out. It is a caller
  concern, and the code has no concurrency.
- `container/list` is modelled as a sequence with the front at index 0. Pointer identity of
  list elements and contacts is not modelled: contacts are compared by id.
- Routing.FindNodeInList: models the evidently intended scan. The Go loop never advances and
  compares pointers, so its non-termination is not reproduced.
- Routing.CopyXorToVector: returns the extended vector. The Go function's appends are lost
  to the caller.
- Routing.RoutingTable.FindClosest: models the intended search (start empty, radius grows by
  one). The nil pre-fill, the immediate exit, the nil dereference in the sort and the panic
  of `make` on a negative `count` are not reproduced. The result is not cut to `count`, as in the code.
- PyRouting.RoutingTable.FindClosestBucket: ties between equal keys keep reading order. Python 2
  breaks them by comparing `Node` objects, and `Node` defines no ordering. So when equal keys
  straddle the cut at 20, the model may keep a different node of the tie than Python would.
- PyRouting.RoutingTable.FindClosestBucket: `n` is the parameter throughout. Python 2's
  comprehension variable would rebind it to a `Node` and disable the early stop.
- PyRouting.RoutingTable.FindClosestBucket: requires `start` to be a bucket index. A larger
  index makes Python raise `IndexError`. `find_closest` always passes a key below 160.
- PyRouting.RoutingTable.constructor: the truthiness test `if bootstrap:` is modelled as
  "a bootstrap node is given". Every `Node` is truthy.
