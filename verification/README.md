# Verified models of GroveDB's append-only trees, storage flags and codecs

A Dafny 4.11 model of the parts of GroveDB where correctness rests on an argument rather than on a
single function body. `dafny verify dfyconfig.toml` checks the whole project.

## What is modelled

**The Merkle mountain range** (`Bits`, `Positions`, `Mountain`, `Walk`, `PeakWalk`, `Sorting`,
`MerkleProof`, `ProofLength`, `ShortProofs`, `Incremental`, `NewLeaf`, `Verifier`, `Prover`,
`Overlay`, `Fetching`, `RangeReads`, `Mmr`, `Containment`, `TreeProof`, `TreeGenerate`, `Refusals`,
`EndToEnd`, `NodeCodec`, `NodeStorage`, `ByteRange`). A node over the leaves [i·2^h, (i+1)·2^h) is
addressed by its index `i` and height `h`; every position loop is shown to compute something simple
in these coordinates. On top of that stand three layers. `Walk` and `PeakWalk` describe proving and
verifying level by level, as functions. `MerkleProof`, `Incremental`, `NewLeaf`, `ProofLength` and
`ShortProofs` prove what acceptance means. `Verifier`, `Prover` and `Mmr` show that the code's
queues, drained vectors and iterators compute those functions, and that pushes, commits and reads
through the write-ahead batch keep the range what it should be. `Fetching` and `RangeReads` say what
roots and proofs are over any store, complete or not, by the list of positions they read. `Refusals`
says which inputs fail and how. `ByteRange` carries the range down to encoded nodes under their
keys.

Hashes are free terms `Leaf(value)` and `Node(left, right)`, as the two domain tags of the code
allow, and nodes are compared by hash only. The storage of one range is a map with a set of
positions whose reads fail.

**The dense tree** (`DenseHash`, `DenseShape`, `DenseTree`, `DenseProof`, `DenseGenerate`). The tree
is a class over a cache and a storage context that may refuse or defer writes, fail reads and be
changed from outside between any two steps. Its verifier is sound for every proof object, from
injectivity of the value hash and the node hash alone: digests are byte strings of any length, so
that the two functions can be injective.

**Epoch storage flags** (`EpochFlags`, `EpochSplit`, `FlagsCodec`, `FlagsUpdate`, `FlagsMeaning`,
`FlagsLedger`). Removal of bytes from the newest epoch down, combination of flags, their byte form,
and the update step as the step of a run. Library varints are base-128 integers of at most ten
bytes.

**Conditional subqueries** (`QueryRange`, `QueryMerge`). Query items are intervals between bounds
over byte-string keys. `SubqueryBranch::merge` is a function parameter.

**Codecs** (`Endian`, `Framing`, `ChunkBlob`, `ChunkIds`, `Layout`). Chunk blobs in both formats,
nested byte strings and global chunk identifiers; and the layouts of all byte formats, written out.

Loops of the code are methods proved against functions; what those functions mean is stated by the
lemmas and contracts below. Integers are unbounded except where the width matters: positions and
sizes are 64-bit in the loops, byte counts are 32-bit, epochs 16-bit.

Where the crate's README and the code of the mountain range disagree, the model follows the code:
`bag_peaks` hashes the right peak first, and the items of a proof come in the order `gen_proof`
emits them. `serialize_chunk_blob` is documented to pick the most compact format; it does from two
entries on.

## Model

| member | source | states |
|---|---|---|
| `Positions.GetPeakMap` | grovedb-merkle-mountain-range/src/helper.rs:73-91 | for every 64-bit size the shifting loop returns the largest leaf count whose range fits, also for sizes no range has |
| `Positions.LeafCountUnique` | grovedb-merkle-mountain-range/src/helper.rs:73-91 | that largest count is the only one with its size at most, and its successor's size above, the given size |
| `Positions.LeafCountOfSize` | grovedb-merkle-mountain-range/src/helper.rs:18-27 | the peak map inverts the size of a range: a range with n leaves is recognised as one |
| `Positions.PosHeightInTree` | grovedb-merkle-mountain-range/src/helper.rs:32-45 | the height of a position is its distance from the end of the last complete range before it |
| `Positions.PosInBlock` | grovedb-merkle-mountain-range/src/helper.rs:29-45 | the node over leaves [i·2^h, (i+1)·2^h) sits h places after its last leaf, and its height and leaf count are read back from its position |
| `Positions.PosSurjective` | grovedb-merkle-mountain-range/src/helper.rs:29-45 | every position is the position of such a node |
| `Positions.PosInjective` | grovedb-merkle-mountain-range/src/helper.rs:29-45 | and of only one |
| `Positions.LeafIndexToPos` | grovedb-merkle-mountain-range/src/helper.rs:7-10 | the subtraction formula gives the position of the height-zero node of that index |
| `Positions.LeafPositions` | grovedb-merkle-mountain-range/src/helper.rs:7-10 | leaf indices and height-zero positions are in bijection |
| `Positions.LeafArithmeticFits` | grovedb-merkle-mountain-range/src/helper.rs:1-27 | below the documented bound no intermediate value of the two formulas leaves 64 bits |
| `Positions.Family` | grovedb-merkle-mountain-range/src/helper.rs:47-55 | the parent and sibling offsets lead from either child to its sibling and parent |
| `Positions.NextHeight` | grovedb-merkle-mountain-range/src/mmr.rs:190-207 | the test "is the next position higher" tells right children from left ones |
| `Positions.GetPeaks` | grovedb-merkle-mountain-range/src/helper.rs:110-129 | the loop lists the roots of the perfect subtrees given by the binary digits of the leaf count |
| `Mountain.PeaksTile` | grovedb-merkle-mountain-range/src/helper.rs:93-129 | those subtrees are consecutive and cover exactly the leaves of the range |
| `Mountain.PeaksDescend` | grovedb-merkle-mountain-range/src/helper.rs:93-129 | their heights strictly decrease |
| `Mountain.PeakBlock` | grovedb-merkle-mountain-range/src/helper.rs:93-129 | each fills one block of positions of length 2^(h+1) - 1 that ends with its peak, so the peaks tile the positions too |
| `Positions.HashCountForPush` | grovedb-merkle-mountain-range/src/helper.rs:222-224 | the count is exactly how much longer one more leaf makes the range |
| `Mountain.BagPeaks` | grovedb-merkle-mountain-range/src/mmr.rs:284-293 | popping the last two peaks and pushing their hash, right one first, gives the right-to-left bag |
| `Mountain.BagSplit` | grovedb-merkle-mountain-range/src/mmr.rs:284-293 | bagging a suffix early does not change the bag |
| `Mountain.BagInjective` | grovedb-merkle-mountain-range/src/mmr.rs:284-293 | equal bags of equally many peaks have equal peaks |
| `Overlay.MmrBatch.ElementAtPosition` | grovedb-merkle-mountain-range/src/mmr_store.rs:77-95 | with monotone runs the reverse scan with early break reads what the store would hold after all buffered runs were written |
| `Overlay.MmrBatch.Append` | grovedb-merkle-mountain-range/src/mmr_store.rs:51-64 | a further run keeps the order and changes reads at its own positions only |
| `Overlay.MmrBatch.Commit` | grovedb-merkle-mountain-range/src/mmr_store.rs:99-108 | the buffer is drained and the runs are written in order up to the first refused node; a flush that is taken whole changes no read |
| `Overlay.FlushedReads` | grovedb-merkle-mountain-range/src/mmr_store.rs:99-108 | a flush, complete or cut short, leaves every position with what the store had there or with what the buffered runs hold for it |
| `Overlay.ResumeOverlay` | grovedb-merkle-mountain-range/src/mmr_store.rs:25-43 | taking the overlay and resuming with it over the same store changes no read |
| `Mmr.MountainRange.Push` | grovedb-merkle-mountain-range/src/mmr.rs:90-119 | on the range over v a push returns the position of leaf |v| and leaves the range over v + [elem]; every push appends exactly the push count of nodes as one run, and a failed one changes nothing |
| `Mmr.MountainRange.NodesToPush` | grovedb-merkle-mountain-range/src/mmr.rs:96-113 | the merging loop produces the new leaf and the perfect subtrees it completes, reading earlier peaks from the batch or the store |
| `Mmr.PushPreserves` | grovedb-merkle-mountain-range/src/mmr.rs:90-119 | after the run is appended every position of the longer range holds the hash of the perfect subtree it roots |
| `Mmr.MountainRange.GetRoot` | grovedb-merkle-mountain-range/src/mmr.rs:122-153 | over any store the peaks given by the binary digits of the leaf count are read in order and bagged, or the first that cannot be read decides the error; over the range of v the result is its root |
| `RangeReads.RootFromRange` | grovedb-merkle-mountain-range/src/mmr.rs:122-153 | over every store that holds the range of v, reading and bagging the peaks gives the root of v, and an empty range has none |
| `Mmr.MountainRange.RunAll` | grovedb-merkle-mountain-range/src/mmr.rs:90-119 | any run of pushes and commits from the empty range, failing commits included: while commits succeed it is the range of the pushed leaves, with size 2n - popcount(n), and no push fails; at every step the store holds the range of the leaves pushed before the last successful commit |
| `Mmr.MountainRange.Commit` | grovedb-merkle-mountain-range/src/mmr.rs:278-282 | a successful commit keeps the range and puts it into the store; a failed one leaves the store with every range it held before |
| `Mmr.MountainRange.GenProofForPeak` | grovedb-merkle-mountain-range/src/mmr.rs:157-220 | over any store the level-order queue reads exactly the siblings missing on each level, level by level, and stops with the error of the first read that fails |
| `Mmr.MountainRange.GenProof` | grovedb-merkle-mountain-range/src/mmr.rs:227-275 | over any store: the error for empty, non-leaf and out-of-range positions, the error of the first read that fails, or the items read with the trailing peaks bagged, and the positions read in order; over the range of v the specified proof |
| `RangeReads.ProofFromRange` | grovedb-merkle-mountain-range/src/mmr.rs:227-275 | over every store that holds the range of v, what is read and bagged is the proof of v for every list of positions, errors included |
| `Prover.BaggedProof` | grovedb-merkle-mountain-range/src/mmr.rs:243-272 | bagging as many last items as the counter says replaces exactly the trailing peaks without a requested leaf |
| `Walk.ClimbComplete` | grovedb-merkle-mountain-range/src/proof.rs:188-258 | climbing honest nodes with the siblings the prover emits gives the honest nodes above and uses exactly those items |
| `Walk.ClimbSound` | grovedb-merkle-mountain-range/src/proof.rs:188-258 | if climbing ends in honest nodes then every node and every item used was honest |
| `Verifier.CalculatePeakRoot` | grovedb-merkle-mountain-range/src/proof.rs:188-258 | the verifier's queue, which tests for a queued sibling by position, computes the level-by-level climb, including its failure when items run out |
| `Verifier.TakeWhile` | grovedb-merkle-mountain-range/src/proof.rs:330-338 | the drained prefix is the longest one within the bound |
| `Verifier.CalculatePeaks` | grovedb-merkle-mountain-range/src/proof.rs:260-318 | sorting, deduplicating and the pass over the peaks compute the specified peak hashes for every input |
| `Verifier.RecomputeRoot` | grovedb-merkle-mountain-range/src/proof.rs:320-328 | the recomputed root for every input, errors included |
| `MerkleProof.CollectShape` | grovedb-merkle-mountain-range/src/proof.rs:276-318 | which numbers of items are accepted, and what the peak hashes then are |
| `MerkleProof.AcceptsExactly` | grovedb-merkle-mountain-range/src/proof.rs:260-328 | completeness and position soundness: with as many items as the prover emits, the real root is recomputed if and only if every deduplicated claim is the leaf at its position and the items are the prover's |
| `MerkleProof.GenProofValid` | grovedb-merkle-mountain-range/src/mmr.rs:227-275 | a proof exists for every non-empty list of leaf positions, in any order and with repetitions |
| `ProofLength.LongerItems` | grovedb-merkle-mountain-range/src/proof.rs:276-318 | with more items than the claimed peaks need, acceptance still means honest claims, and the surplus must bag to the trailing peaks |
| `ProofLength.SoundUnlessShort` | grovedb-merkle-mountain-range/src/proof.rs:276-318 | position soundness for every number of items, except when peaks follow the last claimed leaf and no item is left for them |
| `ShortProofs.SoundExactly` | grovedb-merkle-mountain-range/src/proof.rs:276-318 | in a range without repeated leaves an accepted proof has true claims if and only if no peak follows the last claimed leaf or the number of items is not the one that leaves none for those peaks |
| `ProofLength.ShortProofMisplaces` | grovedb-merkle-mountain-range/src/proof.rs:276-318 | the exception is real: in a three-leaf range one item makes the last leaf pass at position 0 |
| `Containment.OutsideIsRefused` | grovedb-merkle-mountain-range/src/proof.rs:260-318 | a claim at a position that is no leaf position, or beyond the size, is never accepted, with any items |
| `Refusals.RootAnswers` | grovedb-merkle-mountain-range/src/proof.rs:260-338 | for every input: the recomputation fails exactly on a claim that is no leaf position, a claim beyond the size, too few or too many items, or nothing to bag, with the error named for each; the one leaf of a one-leaf range is its own root whatever the items |
| `Refusals.GenProofAnswers` | grovedb-merkle-mountain-range/src/mmr.rs:227-275 | for every list of positions: not supported if one is no leaf position, invalid leaves if the list is empty or one lies beyond the size, and otherwise a proof |
| `EndToEnd.ProofCompletes` | grovedb-merkle-mountain-range/src/proof.rs:260-328 | prover and verifier agree on every non-empty list of leaf positions |
| `EndToEnd.ProveAfterRun` | grovedb-merkle-mountain-range/src/mmr.rs:90-275 | after any run of pushes and commits the stored range, its proof and its root fit together |
| `Incremental.PeaksNest` | grovedb-merkle-mountain-range/src/proof.rs:126-185 | the peaks of an older and a newer range: shared ones first, then the older range's own, all below one newer peak |
| `Incremental.RunProof` | grovedb-merkle-mountain-range/src/proof.rs:140-172 | the proof of the newest leaves is the shared peaks followed by the older range's own peaks in reverse |
| `Verifier.CheckIncremental` | grovedb-merkle-mountain-range/src/proof.rs:126-185 | the loops compute the specified check for every input |
| `Incremental.IncrementalExactly` | grovedb-merkle-mountain-range/src/proof.rs:118-185 | against the real root of an n-leaf range with m older leaves: an invalid proof unless there is one item per peak of the older range, and otherwise the answer is whether the incremental leaves are the newest n - m leaves, the previous root is the root of the first m, and the items are the prover's |
| `Incremental.IncrementalNothingNew` | grovedb-merkle-mountain-range/src/proof.rs:118-185 | without new leaves: an invalid proof unless there is one item per peak, and otherwise the answer is whether the items are the current peaks and the previous root is the current one |
| `Incremental.IncrementalTooMany` | grovedb-merkle-mountain-range/src/proof.rs:124-129 | as many incremental leaves as the range has, or more, are an invalid proof |
| `Refusals.IncrementalAnswers` | grovedb-merkle-mountain-range/src/proof.rs:118-185 | for every size, root, previous root, items and leaves: there is an answer if and only if leaves are left before the incremental ones and there is one item per peak of their range, and the only error is an invalid proof |
| `Verifier.ExtendRoot` | grovedb-merkle-mountain-range/src/proof.rs:69-110 | the branches compute the specified result for every input |
| `NewLeaf.NextPeaks` | grovedb-merkle-mountain-range/src/proof.rs:79-108 | one more leaf keeps a prefix of the peaks and replaces the rest by one |
| `NewLeaf.NewLeafExactly` | grovedb-merkle-mountain-range/src/proof.rs:64-110 | from an honest proof of any leaves the result is the root after the push when at most one peak follows the last proved leaf's, and otherwise the call is refused, as invalid input if the new leaf merges and two or more trailing peaks stay and as an invalid proof if not; no other root is ever returned |
| `NewLeaf.NewLeafAfterLast` | grovedb-merkle-mountain-range/src/proof.rs:64-110 | so it always is when the last leaf is among the proved ones, merging or not |
| `Refusals.NewLeafRefused` | grovedb-merkle-mountain-range/src/proof.rs:64-99 | a new position outside the new size is invalid input; when the leaf merges, what the old proof is refused for is passed on and a position behind the last peak of the new size is invalid input |
| `TreeGenerate.Generate` | grovedb-merkle-mountain-range/src/proof.rs:392-462 | over any store the first of the index checks, the leaf reads and the prover's reads that fails decides the error, else the proof is made of what was read; over the range of v it is the specified proof or error |
| `TreeGenerate.CheckIndices` | grovedb-merkle-mountain-range/src/proof.rs:396-415 | accepted are exactly distinct indices in range |
| `TreeGenerate.CollectLeaves` | grovedb-merkle-mountain-range/src/proof.rs:420-436 | over any store the requested values in the requested order, or the error of the first index whose read fails, finds nothing or finds no leaf |
| `TreeGenerate.LeafValueMeans` | grovedb-merkle-mountain-range/src/proof.rs:420-436 | a failing read is a store error, a missing node and one that is no leaf are invalid data |
| `TreeProof.Verify` | grovedb-merkle-mountain-range/src/proof.rs:473-538 | for every proof object the checks, the recomputation and the filter give the specified answer |
| `TreeProof.VerifyAndGetRoot` | grovedb-merkle-mountain-range/src/proof.rs:546-600 | the same without comparing the root |
| `TreeProof.FilterFirst` | grovedb-merkle-mountain-range/src/proof.rs:527-537 | the filter with a set keeps exactly the first pair of each index, in order |
| `TreeProof.KeptIsUsed` | grovedb-merkle-mountain-range/src/proof.rs:260-275 | a pair is returned if and only if its leaf hash entered the recomputed root, also with conflicting duplicates |
| `Containment.ClaimsEnterRoot` | grovedb-merkle-mountain-range/src/proof.rs:260-328 | every claim kept by deduplication is a subterm of the recomputed root, for any size and any items |
| `Containment.LeafOfRoot` | grovedb-merkle-mountain-range/src/node.rs:8-16 | the leaf hashes inside the root of a range are its leaves |
| `TreeProof.VerifiedIsLeaf` | grovedb-merkle-mountain-range/src/proof.rs:473-538 | every returned value is a leaf value of the range with the expected root, whatever size, indices and items the proof carries |
| `TreeProof.VerifiesExactly` | grovedb-merkle-mountain-range/src/proof.rs:473-538 | with the true size and the prover's number of items, verification succeeds if and only if every returned pair is the leaf at its index and the items are the prover's |
| `TreeProof.GenerateThenVerify` | grovedb-merkle-mountain-range/src/proof.rs:392-538 | a generated proof verifies and returns the requested pairs in order |
| `Refusals.VerifyAnswers` | grovedb-merkle-mountain-range/src/proof.rs:473-538 | for every proof object: refused exactly without leaves, with an index out of range, with a wrong number of items or with another root, always as an invalid proof |
| `Refusals.GenerateAnswers` | grovedb-merkle-mountain-range/src/proof.rs:392-462 | over a whole range: invalid input exactly for an empty request, an index out of range or a repeated one, invalid data exactly for a node that is no leaf, and no other failure |
| `TreeGenerate.LazyNodeStore.ElementAtPosition` | grovedb-merkle-mountain-range/src/proof.rs:666-688 | the first failing read is remembered, and it and all later reads find nothing; otherwise reads are those of the closure |
| `TreeGenerate.LazyNodeStore.TakeError` | grovedb-merkle-mountain-range/src/proof.rs:656-659 | the remembered failure is handed out once |
| `TreeGenerate.LazyNodeStore.Serve` | grovedb-merkle-mountain-range/src/proof.rs:662-689 | the reads of one proof generation are answered as a store without failures would answer them, and the remembered failure is that of the read that failed |
| `TreeGenerate.QuietProof` | grovedb-merkle-mountain-range/src/proof.rs:438-451 | behind the lazy store the prover asks for the same positions, and differs only in that a failed read looks like an inconsistent store; a read failed if and only if the last one did |
| `TreeGenerate.ProvePositions` | grovedb-merkle-mountain-range/src/proof.rs:438-451 | generation through the lazy store reports the first read that failed, if and only if one failed, and any other failure of the prover as a failed operation |
| `NodeCodec.DecodeOfEncode` | grovedb-merkle-mountain-range/src/node.rs:115-198 | decoding undoes encoding if and only if the node is one the constructors build |
| `NodeCodec.EncodeOfDecode` | grovedb-merkle-mountain-range/src/node.rs:115-198 | every accepted byte string is the encoding of a well-formed node |
| `NodeCodec.SerializedLength` | grovedb-merkle-mountain-range/src/node.rs:101-106 | the announced size is the length of the encoding |
| `Layout.NodeLayout` | grovedb-merkle-mountain-range/src/node.rs:108-137 | an internal node is a zero byte and its hash, a leaf its kind, its hash, four length bytes and its value; a value over 32 bits is invalid data |
| `Layout.NodeRefused` | grovedb-merkle-mountain-range/src/node.rs:142-198 | every refusal of stored bytes is one of invalid data |
| `NodeStorage.KeysCollide` | grovedb-merkle-mountain-range/src/helper.rs:193-216 | two positions share a key if and only if key sizes agree and the positions are equal or, with eight-byte keys, differ by the top bit |
| `Layout.KeyLayout` | grovedb-merkle-mountain-range/src/helper.rs:193-216 | every key has its top bit set and carries the position in the rest of the word; only four-byte keys are limited, to positions below 2^31 |
| `NodeStorage.MmrStore.ElementAtPosition` | grovedb-merkle-mountain-range/src/storage_adapter.rs:52-76 | a read returns the decoded node, nothing, or an error |
| `NodeStorage.MmrStore.Append` | grovedb-merkle-mountain-range/src/storage_adapter.rs:80-110 | below the key limit every written node is read back and no other position is disturbed; a refused write stops after the nodes before it |
| `ByteRange.FlushBytes` | grovedb-merkle-mountain-range/src/storage_adapter.rs:80-110 | flushing runs to the byte store, complete or cut short, is the flush of the nodes: below the key limit every read of the bytes is the encoded read of the nodes |
| `ByteRange.RunOnBytes` | grovedb-merkle-mountain-range/src/mmr.rs:90-282 | after any run of pushes and commits over bytes, also after a commit that failed halfway, the bytes hold every node of the range of the leaves pushed before the last successful commit |
| `ByteRange.FetchBytes` | grovedb-merkle-mountain-range/src/storage_adapter.rs:52-76 | reading a list of positions from the bytes finds the encoded nodes, or stops with the same error |
| `ByteRange.RootOfBytes` | grovedb-merkle-mountain-range/src/mmr.rs:122-153 | the root computed from the bytes, merging digests, is the digest of the root of the nodes |
| `ByteRange.RootAfterRun` | grovedb-merkle-mountain-range/src/mmr.rs:90-282 | what any run leaves in the bytes opens again, by its size, as the range of the leaves pushed before the last successful commit |
| `ByteRange.SmallRanges` | grovedb-merkle-mountain-range/src/mmr.rs:285-291 | the digests of one, two and three leaves written out: children left to right, peaks right to left |
| `DenseHash.RootVisitsAll` | grovedb-dense-fixed-sized-merkle-tree/src/tree.rs:303-360 | hashing from the root visits every filled position once and nothing else |
| `DenseHash.VisitedOnce` | grovedb-dense-fixed-sized-merkle-tree/src/tree.rs:317-360 | hashing from any position visits the filled positions of its subtree once |
| `DenseShape.CapacityIsDepth` | grovedb-dense-fixed-sized-merkle-tree/src/tree.rs:65-69 | the capacity of a height counts exactly the positions fewer than that many steps below the root |
| `DenseShape.RootIsDigest` | grovedb-dense-fixed-sized-merkle-tree/src/tree.rs:306-360 | the root is the fold, value then left then right with 32 zero bytes for a missing child, of the tree grown by putting each value at the end of the way its position spells |
| `DenseTree.DenseTree.HashFrom` | grovedb-dense-fixed-sized-merkle-tree/src/tree.rs:317-360 | succeeds if and only if every visited value can be read, makes two hash calls per visited value, and gives the digest of the values held |
| `DenseTree.DenseTree.RootHash` | grovedb-dense-fixed-sized-merkle-tree/src/tree.rs:215-217 | the root of the values held, with exactly 2·count hash calls |
| `DenseTree.DenseTree.Append` | grovedb-dense-fixed-sized-merkle-tree/src/tree.rs:138-160 | a failed write or a failed hash leaves count, cache and every earlier read as they were; success appends the value and returns the new root |
| `DenseTree.DenseTree.Insert` | grovedb-dense-fixed-sized-merkle-tree/src/tree.rs:127-160 | succeeds if and only if there is room, the write is taken and every value can be read; a full tree is its own error; the storage after it in every case |
| `DenseTree.DenseTree.TryInsert` | grovedb-dense-fixed-sized-merkle-tree/src/tree.rs:164-189 | the same with an absent result for a full tree |
| `DenseTree.DenseTree.Get` | grovedb-dense-fixed-sized-merkle-tree/src/tree.rs:194-212 | nothing beyond the count, an error for a value that cannot be read, else the value |
| `DenseTree.DenseTree.Reset` | grovedb-dense-fixed-sized-merkle-tree/src/tree.rs:234-237 | empties the tree whatever the storage still holds |
| `DenseTree.DenseTree.Run` | grovedb-dense-fixed-sized-merkle-tree/src/tree.rs:127-301 | from any tree, also one reopened with values in the storage, over any interleaving of inserts with refused, visible or deferred writes, reads, root computations, resets and arbitrary outside changes of the storage, every reply is that of a session that knows only the outside's storage and the values added since |
| `DenseTree.StaleNeverRead` | grovedb-dense-fixed-sized-merkle-tree/src/tree.rs:234-301 | after a reset, or from an empty tree, no reply of any run depends on what the storage holds, on failing reads or on when the tree's own writes become visible |
| `DenseTree.RunMatches` | grovedb-dense-fixed-sized-merkle-tree/src/tree.rs:106-301 | while the outside keeps the stored values, readable or not, a session is the bounded sequence of the values that were there and those accepted since the last reset: a value is accepted if and only if there is room, the write is taken and no stored position is unreadable at that moment |
| `DenseTree.DenseTree.RunReads` | grovedb-dense-fixed-sized-merkle-tree/src/tree.rs:106-301 | after any such run the tree reads exactly that sequence, with an error at exactly the stored positions that are unreadable |
| `DenseTree.FromState` | grovedb-dense-fixed-sized-merkle-tree/src/tree.rs:89-121 | accepted are exactly heights 1 to 16 with a count within capacity, anything else is invalid data, and the tree stands for the stored values with nothing added |
| `DenseProof.VerifyInner` | grovedb-dense-fixed-sized-merkle-tree/src/verify.rs:134-287 | for every proof object the loops accept exactly well-shaped proofs and return the recomputed root with the entries |
| `DenseProof.AncestorSet` | grovedb-dense-fixed-sized-merkle-tree/src/verify.rs:245-254 | the set is exactly the proved positions and their ancestors |
| `DenseProof.VerifyAgainstExpectedRoot` | grovedb-dense-fixed-sized-merkle-tree/src/verify.rs:24-46 | the entries are returned if and only if the recomputed root is the expected one |
| `DenseProof.RecomputeHonest` | grovedb-dense-fixed-sized-merkle-tree/src/verify.rs:293-354 | recomputation succeeds if and only if the maps cover what it visits, and over honest maps gives the real hash at every position |
| `DenseProof.PathAgrees` | grovedb-dense-fixed-sized-merkle-tree/src/verify.rs:293-354 | along the path of a proved entry every recomputed hash is the real one |
| `DenseProof.VerifiedIsStored` | grovedb-dense-fixed-sized-merkle-tree/src/verify.rs:134-354 | soundness for every proof object: accepted entries are the stored values, from injectivity of the two hash functions alone |
| `DenseProof.VerifyAnswers` | grovedb-dense-fixed-sized-merkle-tree/src/verify.rs:134-354 | for every proof object, height and count: there is a root if and only if height, count and lists are in range, no position occurs twice in the three lists together, no subtree hash lies on a proved path and everything needed is there; otherwise it is an invalid proof |
| `DenseGenerate.Generate` | grovedb-dense-fixed-sized-merkle-tree/src/proof/mod.rs:165-262 | over a tree holding the values the loop emits the specified proof; positions out of range are refused |
| `DenseGenerate.GenerateThenVerify` | grovedb-dense-fixed-sized-merkle-tree/src/proof/mod.rs:165-262 | a generated proof verifies to the tree's root if and only if a position was asked for or the tree is empty |
| `DenseGenerate.GeneratedEntries` | grovedb-dense-fixed-sized-merkle-tree/src/proof/mod.rs:165-262 | the entries are exactly the requested positions with their values, once each and ascending |
| `EpochFlags.RemoveCharges` | grovedb-epoch-based-storage-flags/src/lib.rs:246-294 | the loop, in any order, succeeds if and only if every charged extra epoch has the bytes, keeps exactly the epochs that stay above the floor, and otherwise reports an epoch that is missing or holds too little |
| `EpochFlags.RemoveBytes` | grovedb-epoch-based-storage-flags/src/lib.rs:234-313 | combining a removal with later flags gives the specified flags or error; with both a missing epoch and one that holds too little, either error |
| `EpochFlags.AddedKeeps` | grovedb-epoch-based-storage-flags/src/lib.rs:346-363 | adding bytes keeps the base epoch and well-formedness |
| `EpochFlags.RemovedKeeps` | grovedb-epoch-based-storage-flags/src/lib.rs:366-385 | removing bytes keeps the base epoch and well-formedness |
| `EpochFlags.OwnerAfter` | grovedb-epoch-based-storage-flags/src/lib.rs:123-151 | which owner combined flags have under each strategy; removing bytes from single-epoch flags keeps the old owner whatever the strategy |
| `EpochFlags.NewerBytesWin` | grovedb-epoch-based-storage-flags/src/lib.rs:153-196 | with equal base epochs the newer byte count of an epoch replaces the older one and nothing else changes |
| `FlagsMeaning.AddedExactly` | grovedb-epoch-based-storage-flags/src/lib.rs:123-232 | for all flags: an earlier epoch, clashing owners and a 32-bit overflow are refused, in this order; otherwise the bytes of every epoch of the result |
| `FlagsMeaning.RemovedExactly` | grovedb-epoch-based-storage-flags/src/lib.rs:234-313 | for all flags and removals in a later epoch: clashing owners or foreign sections, a charge to an epoch that holds nothing and one that holds too little are refused, in this order; otherwise every epoch keeps what it was not charged for if that is more than three bytes, and the single-epoch form results if and only if none is left |
| `FlagsMeaning.RemovedElsewhere` | grovedb-epoch-based-storage-flags/src/lib.rs:366-386 | removals in an earlier epoch are refused, in the same epoch combine, and leave flags without extra epochs as they are |
| `EpochSplit.AddedIsBooked` | grovedb-epoch-based-storage-flags/src/lib.rs:198-232 | bytes added in a later epoch are booked to that epoch only, the extra epochs together gain exactly them, and only a 32-bit overflow is refused |
| `EpochSplit.SectionedStorageRemoval` | grovedb-epoch-based-storage-flags/src/lib.rs:762-825 | the loop from the newest epoch down charges each epoch what the later ones leave, down to its floor, and the base epoch the rest; nothing exactly when the 32-bit addition overflows |
| `EpochSplit.SplitStorageRemovedBytes` | grovedb-epoch-based-storage-flags/src/lib.rs:731-852 | key bytes are charged to the base epoch, value bytes as above, under the owner or the default owner |
| `EpochSplit.SplitCharges` | grovedb-epoch-based-storage-flags/src/lib.rs:731-852 | key bytes, and value bytes of flags without extra epochs, are charged in full to the base epoch; everything goes under the owner or 32 zero bytes; the value entries sum to the removed bytes under the condition of conservation; no bytes, no removal |
| `EpochSplit.Conservation` | grovedb-epoch-based-storage-flags/src/lib.rs:762-811 | the charges add up to the removed bytes if and only if the base epoch is not itself an extra epoch with something to pay that also pays the rest |
| `EpochSplit.BaseAmongExtras` | grovedb-epoch-based-storage-flags/src/lib.rs:793-797 | the exception is real: then the charge of the base epoch is overwritten |
| `EpochSplit.NewestFirst` | grovedb-epoch-based-storage-flags/src/lib.rs:762-811 | a positive charge means every later extra epoch paid down to its floor |
| `EpochSplit.FloorKept` | grovedb-epoch-based-storage-flags/src/lib.rs:762-811 | every extra epoch, the newest and a lone one included, pays at most what it holds above its floor, and the base epoch pays exactly what all of them leave |
| `EpochSplit.SplitThenCombine` | grovedb-epoch-based-storage-flags/src/lib.rs:234-313 | a split removal always combines back: the base stays, surviving epochs keep their bytes minus what they paid, and the single-epoch form results if and only if none survives |
| `FlagsCodec.VarRoundTrip` | grovedb-epoch-based-storage-flags/src/lib.rs:449-476 | a base-128 integer is read back whatever follows it |
| `FlagsCodec.SizeIsLength` | grovedb-epoch-based-storage-flags/src/lib.rs:513-527 | the announced size is the length of the bytes |
| `FlagsCodec.DeserializeFlags` | grovedb-epoch-based-storage-flags/src/lib.rs:530-660 | the loops compute the specified decoding for every input |
| `FlagsCodec.RoundTrip` | grovedb-epoch-based-storage-flags/src/lib.rs:449-660 | flags are read back if and only if they are not a multi-epoch form without epochs |
| `Layout.FlagsLayout` | grovedb-epoch-based-storage-flags/src/lib.rs:431-519 | the kind byte, the owner, and the base epoch in two bytes, in this order, before the extra epochs |
| `Layout.EpochsAscend` | grovedb-epoch-based-storage-flags/src/lib.rs:449-462 | the extra epochs come in ascending order |
| `Layout.OneEpoch` | grovedb-epoch-based-storage-flags/src/lib.rs:449-462 | an extra epoch is its number in two bytes and its bytes as a base-128 integer |
| `Layout.NoEpoch` | grovedb-epoch-based-storage-flags/src/lib.rs:449-462 | no extra epoch, no bytes |
| `Layout.VarLayout` | grovedb-epoch-based-storage-flags/src/lib.rs:449-462 | a base-128 integer: least significant digit first, every byte but the last marked, no byte more than needed |
| `Layout.VarDecodes` | grovedb-epoch-based-storage-flags/src/lib.rs:546-581 | reading takes the bytes up to the first unmarked one and gives their value if it has 32 bits |
| `Layout.VarRefused` | grovedb-epoch-based-storage-flags/src/lib.rs:546-581 | ten marked bytes, or an end before an unmarked one, are no integer |
| `Layout.EntriesRead` | grovedb-epoch-based-storage-flags/src/lib.rs:546-643 | entries in any order and with repetitions are read, the later replacing the earlier, and one or two bytes at the end are ignored |
| `Layout.EntriesBroken` | grovedb-epoch-based-storage-flags/src/lib.rs:546-643 | an entry whose integer cannot be read makes the whole list unreadable |
| `Layout.FlagsRefused` | grovedb-epoch-based-storage-flags/src/lib.rs:530-660 | which bytes are no flags: an unknown kind, or else a wrong size; and what the others read as |
| `FlagsUpdate.ElementFlags.Update` | grovedb-epoch-based-storage-flags/src/update_element_flags.rs:6-142 | the new bytes and the returned flag for every cost and every old and new bytes; an error is the specified one and leaves the bytes alone |
| `FlagsUpdate.UpdateReports` | grovedb-epoch-based-storage-flags/src/update_element_flags.rs:75-139 | the returned flag is true exactly when the bytes were replaced; a same-size update always replaces them |
| `FlagsMeaning.TransitionMeans` | costs/src/storage_cost/transition.rs:59-81 | the transition of every cost: an update if and only if bytes were replaced and not both added and removed, bigger if it adds, smaller if it removes; the other four by the same three numbers |
| `FlagsMeaning.UpdateMeans` | grovedb-epoch-based-storage-flags/src/update_element_flags.rs:43-141 | for all costs and flags: a write that is no update keeps the bytes and reports no change, a same-size one restores the old flags, a bigger or smaller one leaves bytes that read back as the combined flags, with the old base epoch and the owner named, and what is reported |
| `FlagsMeaning.UpdateRefused` | grovedb-epoch-based-storage-flags/src/update_element_flags.rs:12-35 | without old flags the bytes stay; unreadable bytes are refused with the error of reading them, old before new, and empty ones as a removal of flags |
| `FlagsUpdate.StepKeeps` | grovedb-epoch-based-storage-flags/src/update_element_flags.rs:6-142 | one admissible update of stored well-formed flags leaves well-formed flags with the same base epoch |
| `FlagsUpdate.RunKeeps` | grovedb-epoch-based-storage-flags/src/update_element_flags.rs:6-142 | over every run of bigger, smaller and same-size updates the base epoch stays, extra epochs stay after it, a multi-epoch form has epochs, the bytes are read back as the same flags and have the announced size |
| `FlagsUpdate.SplitIsAccepted` | grovedb-epoch-based-storage-flags/src/update_element_flags.rs:86-124 | a smaller update by a removal split from the stored flags is never refused |
| `FlagsUpdate.SplitRemovalBytes` | grovedb-epoch-based-storage-flags/src/split_removal_bytes.rs:8-30 | without flags a basic removal, else the split of the decoded flags, for every number of bytes |
| `FlagsLedger.MoveBooks` | grovedb-epoch-based-storage-flags/src/update_element_flags.rs:6-142 | a write whose removal is the split of the stored flags is refused if and only if its epoch is before the first one or a 32-bit count overflows; else the bytes of the later epochs change by exactly what is booked, paid and dropped at the floor |
| `FlagsLedger.RunBalances` | grovedb-epoch-based-storage-flags/src/update_element_flags.rs:6-142 | over every run of such writes the stored bytes stand for the flags of the run, the base epoch stays, and what the later epochs hold, have paid and have dropped is what they held and what was booked to them |
| `FlagsLedger.NeverRefused` | grovedb-epoch-based-storage-flags/src/update_element_flags.rs:6-142 | while all bytes together stay within 32 bits, no write in or after the first epoch is refused, whatever was written, split and combined before it |
| `QueryRange.CompareMeans` | grovedb-query/src/query_item/intersect.rs:515-562 | the case-by-case comparison is the linear order that puts an exclusive end before, and an exclusive start after, its key |
| `QueryRange.KeyOrder` | grovedb-query/src/query_item/intersect.rs:516-562 | keys are compared byte by byte, a proper prefix first |
| `QueryRange.KeyIn` | grovedb-query/src/query_item/intersect.rs:76-116 | which keys an item holds, for every kind of start and end |
| `QueryRange.IntersectSplits` | grovedb-query/src/query_item/intersect.rs:355-433 | two overlapping items are cut into the shared part and, on each side, what one has alone, point by point |
| `QueryRange.IntersectFinds` | grovedb-query/src/query_item/intersect.rs:355-379 | a shared part is found if and only if the items overlap |
| `QueryMerge.OneHit` | grovedb-query/src/merge.rs:609-630 | an existing item meets at most one piece of the new one |
| `QueryMerge.PassItem` | grovedb-query/src/merge.rs:605-703 | one existing item: its merged parts are added and the pieces it leaves are what the passed items leave of the new item |
| `QueryMerge.MergeBranches` | grovedb-query/src/merge.rs:577-714 | for pairwise-disjoint existing items the result is pairwise disjoint and every key finds the merged branch on the overlap, the old branch elsewhere in the old items, the new branch in the rest of the new item, and nothing outside |
| `ChunkBlob.SerializeChunkBlob` | grovedb-bulk-append-tree/src/chunk.rs:36-157 | the loops compute the specified blob, in the fixed format if and only if all lengths agree |
| `ChunkBlob.DeserializeChunkBlob` | grovedb-bulk-append-tree/src/chunk.rs:54-190 | the loops compute the specified entries or error for every input |
| `ChunkBlob.RoundTrip` | grovedb-bulk-append-tree/src/chunk.rs:36-190 | whatever could be serialized is read back if and only if it has at most 2^20 entries, in both formats |
| `ChunkBlob.FixedIsShorter` | grovedb-bulk-append-tree/src/chunk.rs:28-49 | for entries of equal length the chosen format is no longer than the other one if and only if there are at least two |
| `Layout.BlobLayout` | grovedb-bulk-append-tree/src/chunk.rs:36-157 | both formats byte by byte, which one is used, and that only an overlong entry or too many entries of one length are refused |
| `Layout.BlobAccepted` | grovedb-bulk-append-tree/src/chunk.rs:54-190 | every accepted blob has one of the two layouts, with at most 2^20 entries, of the entries it is read as |
| `Layout.BlobRefused` | grovedb-bulk-append-tree/src/chunk.rs:54-190 | every refusal is one of corrupted data |
| `ChunkIds.PackNestedBytes` | grovedb/src/replication.rs:513-536 | the loop computes the specified packing |
| `ChunkIds.UnpackNestedBytes` | grovedb/src/replication.rs:567-651 | the counted loop computes the specified entries or error for every input |
| `ChunkIds.UnpackOfPack` | grovedb/src/replication.rs:513-651 | unpacking undoes packing |
| `ChunkIds.PackOfUnpack` | grovedb/src/replication.rs:513-651 | every accepted input packs to itself |
| `ChunkIds.DecodeOfEncode` | grovedb/src/replication.rs:341-444 | an encoded identifier decodes with an empty root key read as absent and the parameter of the tree type lost |
| `ChunkIds.ChunkIdRoundTrip` | grovedb/src/replication.rs:341-444 | decoding undoes encoding if and only if the root key is absent or non-empty and the tree type carries no parameter but zero |
| `ChunkIds.DiscriminantRoundTrip` | merk/src/tree_type/mod.rs:53-89 | the byte of a tree type is read back as that type with its parameter forgotten |
| `Layout.TreeBytes` | merk/src/tree_type/mod.rs:53-67 | the byte of each tree type |
| `Layout.PackLayout` | grovedb/src/replication.rs:513-536 | the number of strings in four bytes, then each behind its length; what is refused |
| `Layout.ChunkIdLayout` | grovedb/src/replication.rs:418-444 | prefix, two bytes of key length, key, tree type and nested identifiers, in this order; what is refused |
| `Layout.RootChunk` | grovedb/src/replication.rs:352-355 | the application hash decodes to the root chunk: 32 zero bytes, no key, the normal tree, nothing nested |
| `Layout.EncodeOfDecode` | grovedb/src/replication.rs:341-413 | every other accepted identifier encodes to itself |
| `Layout.DecodeRefused` | grovedb/src/replication.rs:341-413 | an unknown tree type is its own error, everything else is corrupted data |

## Left out

- Blake3 itself: free terms for the mountain range, two injective functions for the dense tree, a
  function parameter in the node codec.
- Cost accounting, except the number of hash calls of the dense tree's root and the number of
  nodes a push appends.
- 64-bit overflow for 2^63 - 1 leaves and beyond, which the helper functions exclude by comment.
- TreeGenerate.ProvePositions: the prover runs over what the lazy store shows, and the lazy store is
  then given the positions the prover read, in order, instead of each read going through it at once.
- TreeProof.VerifiedIsLeaf: says that a returned value is a leaf value, not at which index; the
  index is bound by VerifiesExactly and by SoundUnlessShort.
- EpochFlags.RemoveBytes: the charged epochs come in no particular order, so with two kinds of
  failure which of the two errors is reported is not specified.
- EpochSplit.SectionedStorageRemoval: an addition that overflows gives no result, as in a build with
  overflow checks; without them it would wrap.
- QueryMerge.MergeBranches: for existing items that overlap each other nothing is stated.
- Data leaves with external hashes in the mountain range itself; they appear in the node codec.
- `verify_for_query`, `query_to_positions`, bincode encodings and the decoding of proof operations.
- RocksDB, transactions, storage contexts beyond a map that may fail, batching, cost estimation,
  visualisation, and the Merk tree itself.
- Full meaning of `Query::merge_with` and `SubqueryBranch::merge`.
