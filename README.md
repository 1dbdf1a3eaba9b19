# Merkle tree builder and Bloom filter, modelled in Dafny

This project models two independent parts of the `dsalgo` repository and proves
properties of them.

- The Merkle tree builder of `merkle_tree/main.go` is covered in `merkle.dfy`:
  - `NewMerkleNode` hashes the left child's hash, then the right child's hash, then the data.
  - `buildMerkleTree` builds the tree bottom-up. It duplicates the last node of an odd level and pairs each odd-position node as the LEFT child of the node before it.
  - `compareNodes` and `isEqual` compare trees.
- The sequential part of the file-hashing pipeline is in `pipeline.dfy`, with `sorting.dfy`:
  - `hashFiles` rejects an empty list and sorts the paths.
  - `hashFilesWithTimeout` then sorts the collected results by path and keeps only the hashes.
- The lowercase hex text of the root hash (`RootHash`, section 8 of RFC 4648) is in `hex.dfy`.
- The Bloom filter of `bloom-filter/bloomfilter.go` is in `bloom_filter.dfy`. It is a class whose `bitSet` array `Add` and `Clear` update in place and `Contains` queries. Bit indices come from `k` hashers reduced modulo the size.

SHA-256 is the function parameter `H: seq<byte> -> Digest`, where `Digest` is
a 32-byte sequence. Each seeded murmur3 hasher is a parameter
`string -> uint64`. Each hasher is reset after every use, so its output
depends only on the item. A file's content digest is the parameter
`digestOf: string -> seq<byte>`. The worker pool's result channel is the
parameter `received`: one result per path, in completion order.

Two behaviours of the code worth knowing:

- With exactly one input, the code pads the level `[L]` to `[L, L]`. The root is therefore `Node(L, L, H(L.hash ++ L.hash))`, not the leaf itself (`Merkle.SingleInput`).
- The results are sorted with Go's `sort.Slice`, which is not stable. `Sorting.SortedUnique` shows that this cannot change the output, because equal paths carry equal results.

## Model

| member | source | states |
|---|---|---|
| `Merkle.NewMerkleNode` | merkle_tree/main.go:106-120 | the node keeps both children; its hash is H of the left hash, the right hash and the data, each only if present; so a leaf's hash is H(d) and a data-less parent's is H(left.hash ++ right.hash) |
| `Merkle.PadFirst` | merkle_tree/main.go:128-130 | after the first-level duplication the level has even length, and is non-empty when the input is |
| `Merkle.PairNodes` | merkle_tree/main.go:133-138 | pair k's parent has Left = nodes[2k+1], Right = nodes[2k] and hash H(nodes[2k+1].Hash ++ nodes[2k].Hash); there are len/2 parents |
| `Merkle.NextLevel` | merkle_tree/main.go:133-142 | after each iteration the new level is even or of length 1, and a level longer than 1 strictly shrinks but does not vanish |
| `Merkle.Reduce` | merkle_tree/main.go:132-143 | the outer loop ends with exactly one node for a non-empty level and with none for an empty one |
| `Merkle.BuildMerkleTree` | merkle_tree/main.go:122-161 | the imperative builder (leaf loop, first duplication, pairing loop with loop invariants "even or 1" and strictly decreasing length) returns exactly the tree `BuildTree` specifies |
| `Merkle.BuildTreeShape` | merkle_tree/main.go:145-158 | nil tree exactly for empty input; otherwise FileCount == len(data), the root is a node with a 32-byte hash and RootHash is its 64-character hex text |
| `Merkle.BuildTreeSound` | merkle_tree/main.go:122-150 | for non-empty input every internal node of the root has two children and hash H(left.hash ++ right.hash), every leaf is the leaf of an input, and the root covers the leaf of every input |
| `Merkle.PairLevelKeeps` | merkle_tree/main.go:134-137 | pairing an even level keeps every node consistent and neither loses nor adds a leaf |
| `Merkle.ReduceKeeps` | merkle_tree/main.go:132-143 | all levels of the loop stay consistent and cover the same leaves |
| `Merkle.SingleInput` | merkle_tree/main.go:128-137 | one input d gives the root Node(L, L, H(H(d) ++ H(d))) with L = Node(nil, nil, H(d)), FileCount 1, RootHash its hex text |
| `Merkle.ThreeInputs` | merkle_tree/main.go:128-143 | three inputs give A = (L2, L1), B = (L3, L3) and the root (B, A), with the hashes in that order |
| `Merkle.TwoInputsOrderSensitive` | merkle_tree/main.go:134-137 | for [a, b] and [b, a] with different leaf hashes, the roots hash H(H(b) ++ H(a)) and H(H(a) ++ H(b)), whose preimages differ |
| `Merkle.DuplicateLastInputSameRoot` | merkle_tree/main.go:128-130 | an odd input list and the same list with its last input repeated give the same root and are isEqual; only FileCount differs |
| `Merkle.IsEqual` | merkle_tree/main.go:67-69 | true exactly when the RootHash strings are equal; the nodes are not compared |
| `Merkle.IsEqualIffSameRootHash` | merkle_tree/main.go:67-69 | for trees whose RootHash is the hex of the root hash, isEqual holds exactly when the root hash bytes are equal |
| `Merkle.SameBytes` | merkle_tree/main.go:80-87 | the length check and byte loop with early return decide exactly byte-sequence equality |
| `Merkle.CompareNodes` | merkle_tree/main.go:71-91 | compareNodes is true exactly for structurally equal trees: nil/nil is true, one nil is false, otherwise equal hashes and both child pairs equal; hence reflexive and symmetric |
| `Hex.Encode` | merkle_tree/main.go:157 | the hex text has two characters per byte, all lowercase base16 digits |
| `Hex.EncodeAt` | merkle_tree/main.go:157 | characters 2k and 2k+1 encode the high and the low half of byte k |
| `Hex.EncodeInjective` | merkle_tree/main.go:157 | different byte strings get different hex texts |
| `Sorting.StrLeTotal` | merkle_tree/main.go:234 | Go's string order is total |
| `Sorting.StrLeAntisymmetric` | merkle_tree/main.go:234 | Go's string order is antisymmetric |
| `Sorting.StrLeTransitive` | merkle_tree/main.go:234 | Go's string order is transitive |
| `Sorting.SortBy` | merkle_tree/main.go:323-325 | sorting by a string key gives a sorted permutation of the input, of the same length |
| `Sorting.SortedUnique` | merkle_tree/main.go:323-325 | two sorted permutations of the same elements are equal when equal keys mean equal elements, so an unstable sort gives the same result |
| `Pipeline.DispatchOrder` | merkle_tree/main.go:229-236 | an empty list is the error "no files provided" (and only then); otherwise the paths sorted ascending, a permutation of the input |
| `Pipeline.Aggregate` | merkle_tree/main.go:323-331 | the hashes of the results sorted by File, one per result, in that order |
| `Pipeline.SortCommutes` | merkle_tree/main.go:234 | sorting the paths and then pairing each with its digest equals sorting the (path, digest) results by path |
| `Pipeline.CompletionOrderIrrelevant` | merkle_tree/main.go:303-331 | whatever order the results arrive in, the output has one hash per path and its k-th hash is the digest of the k-th path in ascending order |
| `Pipeline.HashFiles` | merkle_tree/main.go:227-237 | empty input returns the error "no files provided"; otherwise success with exactly len(files) hashes ordered by ascending path |
| `Bloom.Indices` | bloom-filter/bloomfilter.go:72-80 | exactly hashCount indices, each below len(bitSet) (which must be positive: the modulus) |
| `Bloom.BloomFilter.ComputeHashes` | bloom-filter/bloomfilter.go:72-80 | the loop returns the hashers' values modulo the size; it changes no state, so repeated calls on one item give the same indices |
| `Bloom.Insert` | bloom-filter/bloomfilter.go:37-42 | setting the bits one after another leaves bit j true exactly when it was true or j is one of the indices, and keeps the length |
| `Bloom.BloomFilter.Add` | bloom-filter/bloomfilter.go:37-42 | every bit at the item's indices becomes true, every other bit keeps its previous value |
| `Bloom.InsertIdempotent` | bloom-filter/bloomfilter.go:37-42 | adding the same item twice equals adding it once |
| `Bloom.InsertMonotone` | bloom-filter/bloomfilter.go:37-42 | Add never turns a true bit false |
| `Bloom.BloomFilter.Contains` | bloom-filter/bloomfilter.go:44-52 | true exactly when every bit at the item's indices is set |
| `Bloom.NoFalseNegatives` | bloom-filter/bloomfilter.go:37-52 | after Add(x) followed by any further Adds and no Clear, x is a member |
| `Bloom.StaysMember` | bloom-filter/bloomfilter.go:37-42 | membership survives any sequence of further Adds |
| `Bloom.BloomFilter.Clear` | bloom-filter/bloomfilter.go:54-58 | every bit is false and the length is unchanged |
| `Bloom.ClearedMembership` | bloom-filter/bloomfilter.go:44-58 | on a cleared bit set no item is a member when hashCount >= 1; with hashCount == 0 every item is |
| `Bloom.BloomFilter.Size` | bloom-filter/bloomfilter.go:60-62 | Size is len(bitSet); the array is a constant field, so no operation changes it |
| `Bloom.BloomFilter.HashCount` | bloom-filter/bloomfilter.go:64-66 | HashCount is hashCount, a constant field no operation changes |
| `Bloom.BloomFilter.BitSet` | bloom-filter/bloomfilter.go:68-70 | returns the filter's own array, not a copy |
| `Bloom.BloomFilter.constructor` | bloom-filter/bloomfilter.go:30-34 | m cleared bits, the given hashers and hashCount == len(hashers) |
| `Bloom.AddedStaysPresent` | bloom-filter/bloomfilter_test.go:40-51 | on the object: after Add(x) and any further Adds, Contains(x) returns true |
| `Bloom.ClearForgets` | bloom-filter/bloomfilter_test.go:65-73 | on the object: Contains is true after Add and false after Clear, given at least one hasher |

## Left out

- Worker pool of `hashFilesWithTimeout` (goroutines, channels, wait group, timeout): this is concurrency. Its successful outcome is the input `received`. Its error outcomes are not modelled: the first worker error, "deadline exceeded" and "not all files processed successfully".
- `Pipeline.HashFiles`: models only the success path of the worker pool. Its `requires` says that `received` holds exactly one result per sorted path.
- `hashFile`, `getAllFilesInDirectory`, `hashDirectFilePaths` and `hashFilesInDirectory`: file-system I/O, replaced by the `digestOf` parameter. So is the oversized-file case, where a file above 50 MiB hashes as empty input.
- `sort.Strings` sorts the caller's slice in place. The model returns a sorted copy instead, so that aliasing is not captured.
- `sort.Strings` and `sort.Slice` are Go library routines. They are modelled by one verified insertion sort on sequences.
- String order: Go compares UTF-8 bytes, while the model compares characters. The two agree for valid text.
- SHA-256 and murmur3 internals: abstract function parameters.
- `CreatedAt` (`time.Now()`): a clock, left out of `MerkleTree`.
- `ToJSON`, `SaveToFile`, `LoadMerkleTreeFromFile`, `Print`, `Compare` and `main`: serialisation, display and flag handling.
- `NewBloomFilter` sizing uses floating-point `math.Log`/`math.Ceil` and random seeds. The constructor takes `m > 0`, `k` and the hashers as parameters instead.
- Go's nil data and empty data passed to `NewMerkleNode` are the same empty sequence. Both write no bytes.
- `uint64` arithmetic needs no wrap-around here: the hasher values are already 64-bit and are only reduced modulo the size.
