# Merkle proof service: a verified model

The Merkle proof service indexes certificate registries. Each registry contract emits logs
that add or revoke certificates; an indexing job turns them into operations on a sparse
Merkle tree, commits tree, value index and progress in one database batch, and the service
answers with Merkle proofs, single or for a simulated batch of operations.

This project models the tree engine, the commit and replay protocol and the reader/writer
protocol, and proves what they promise.

- `Words` — machine integers; `MerkleSpec` — what a stored tree means: a finite map from nodes
  to words, absent nodes reading as empty branches, the reference tree `SpecNode`, the effect
  `Updates` of writing leaves, proof folding. The hash is a parameter without axioms.
- `WriteOrder` — the order and number of node writes of the batched insertion.
- `LeafStorage` — the store, database batches, the read-your-writes overlays. A zero word is
  stored as an empty byte string and reads as "not found"; `Live` keeps that.
- `Simulation` — the meaning of simulating a batch; `SparseTree` — the engine itself, with its
  loops, its lazily filled table of empty branches and its reused array.
- `Registry`, `Job` — commits, the value index, and the path from logs to a commit.
- `Replay` — all runs of a job with crashes, restarts, a lagging stored block and stops.
- `Locking`, `Isolation` — all interleavings of readers, writers and the lock table, and what
  readers see of the commits.
- `Indexer` — the block-range loop; `Configurator` — the set of running jobs; `RegistryIndex` —
  the index allocator; `Keys` — the byte encodings and the flat database.
- `EndToEnd` — what the block-range loop commits, as a run of the job, down to the stored tree.

The main results:

1. `SimulationVerifies`: a verifier that knows only the initial root can replay every simulated
   batch; `SimulationFailsExactly` says when there is no batch to replay.
2. `StoredBlockIsExact` and `CaughtUpIsExact`: whatever crashed and was replayed, the whole
   store is the in-order fold of the log; `IndexedIsExact` carries this to every behaviour of
   the block-range loop.
3. `BatchedIsOneByOne`, on `UpdatesCompose`: the batched insertion is the one-by-one insertion,
   from any stored tree, and hashes every touched node once.
4. `ProofsAreIsolated`: in every interleaving a returned proof belongs to one committed tree,
   although a flush passes through torn ones (`FlushTears`, `TornRun`); that tree is the one of
   the operations committed before it was read (`ProofsAnswerCommits`).
5. `SimulationAgreesWithCommit`, `InverseOverLog`, `LookupProves`: simulation, commit, value
   index and proofs tell the same story; `StoredBlockAnswers` says what callers see of it in
   every run.
6. `ProofUnique`: of every hash, what verifies is the tree's own proof or points at a collision.
7. `StartsAreEntries`, `CommonJobsStay`, `LostWasStopped`: over every sequence of configurations,
   failed reloads included, a job is never started twice at a time, a job common to all goes on
   untouched, and progress is lost only by stopping.

Properties that do not hold without a condition are stated with that condition, both ways.
A commit keeps the database consistent exactly when every recomputed node, as it will read
back, is the hash of its children as they will; with a hash that is never zero and tells a
zero leaf from an empty one, that is exactly when the words it leaves in the leaves are
storable (`CommitConsistentExactly`). The value index stays the inverse of the leaves exactly
when every operation is legal (`InverseKeptExactly`); a block range is nonempty exactly when
its 64-bit end does not overflow (`RangeEndExactly`, `RangeEndWraps`); registry indices are
distinct exactly up to 256 addresses (`IndicesDistinctExactly`); the proof of an index beyond
the tree verifies only by coincidence (`ProofVerifies`).

No result assumes a hash without collisions. What the runs assume of the hash is only that
the words they store read back: `AllReadBack` for the log of a job, `RunSurvives` for the
flushes of an interleaving. A hash that is never zero and storable words are enough for both
(`StorableReadBack`, `StorableRun`).

Random draws, the answers of the Ethereum node, the production of job handlers and the
encoding of job records are parameters. Some long functions of the service appear here as
two or three methods, one per loop. The two implementations of the tree's read/write
interface (the commit buffer and the simulation buffer) are the two constructors of
`LeafStorage.NodeBatch`. Comments in the service call the 34-byte length of a leaf index key
the size of a leaf index; stored indices really do take 34 bytes, of which four are read, and
`Keys` follows the code.

Verify with `dafny verify dfyconfig.toml`.

## Model

| member | source | states |
|---|---|---|
| MerkleSpec.ConsistentIsSpec | internal/zkregistry/sparse_tree.go:323-361 | a stored tree whose inner nodes hash their children is, node by node, the reference tree of its leaves, absent nodes reading as empty branches |
| MerkleSpec.WrittenConsistent | internal/zkregistry/sparse_tree.go:114-157 | writing any leaves and recomputing the touched nodes keeps a tree consistent |
| MerkleSpec.WrittenLeaves | internal/zkregistry/sparse_tree.go:121-126 | the leaves afterwards are the old ones overridden by the last word written to each index |
| MerkleSpec.WrittenRoot | internal/zkregistry/sparse_tree.go:114-157 | the root afterwards is the recursively defined root of the last-write-wins leaf map |
| MerkleSpec.UpdatesCompose | internal/zkregistry/sparse_tree.go:114-184 | two updates in a row write exactly the entries of one update with the overlaid leaf map, from any stored tree |
| MerkleSpec.ProofVerifies | internal/zkregistry/sparse_tree.go:186-238 | on a consistent tree a proof folds to its root if and only if its index lies in the tree or its top node happens to hold the root word |
| MerkleSpec.ProofUnique | internal/zkregistry/sparse_tree.go:76-89 | of every hash, a leaf and a path verify for an index under the root if and only if they are the tree's own, or at some level they hash other words than the tree's children to the same word and follow the tree from there |
| MerkleSpec.PathComputesNextRoot | internal/zkregistry/sparse_tree.go:503-517 | the path that proves the old leaf computes, from the new leaf, the root after the write |
| WriteOrder.LayerHit | internal/zkregistry/sparse_tree.go:131-154 | every level of the batched insertion visits exactly the nodes above the written leaves |
| WriteOrder.LayerShrinks | internal/zkregistry/sparse_tree.go:131-154 | a level never has more entries than there are leaves, and above the leaves no entry twice |
| WriteOrder.InsertWritesLeave | internal/zkregistry/sparse_tree.go:120-157 | the sequence of writes, level by level in first-seen order, leaves exactly the update of those levels |
| WriteOrder.AncestorsOnce | internal/zkregistry/sparse_tree.go:114-119 | above the leaves exactly the proper ancestors are written, each once, so the number of hashes is the sum over the levels of the distinct parents |
| WriteOrder.LevelCost | internal/zkregistry/sparse_tree.go:114-119 | a level costs at most one hash per leaf and at most one per node of that level |
| LeafStorage.FlushKeepsReads | internal/zkregistry/leaf_storage.go:66-92 | after an overlay is written out the database reads like the overlay if and only if every overlaid word reads back |
| LeafStorage.ReadsBackIsLive | internal/zkregistry/leaf_storage.go:66-82 | a stored tree reads as it was written if and only if zero words stand only where the empty branch is zero |
| LeafStorage.Database.GetLeaf | internal/zkregistry/leaf_storage.go:66-82 | a stored nonzero word is found, an absent node and a zero word are not |
| LeafStorage.Database.GetLeafIndex | internal/zkregistry/leaf_storage.go:105-125 | the index recorded for a value, if there is one |
| LeafStorage.NodeBatch.SetLeaf | internal/zkregistry/batch_with_leaves.go:48-59 | the buffer gets the word and, for a commit buffer, the database batch gets the write |
| LeafStorage.NodeBatch.GetLeaf | internal/zkregistry/batch_with_leaves.go:61-75 | own writes first; then nothing for a commit buffer, the database for a simulation |
| SparseTree.XorOneIsSibling | internal/zkregistry/sparse_tree.go:638-640 | flipping the lowest bit of an index names the other child of its parent |
| SparseTree.SparseMerkleTree.CalculateEmptyBranchHashes | internal/zkregistry/sparse_tree.go:367-390 | the table holds the empty branch hash of every level |
| SparseTree.SparseMerkleTree.GetEmptyBranchValue | internal/zkregistry/sparse_tree.go:346-361 | the lazily filled table answers with the empty branch hash of the level |
| SparseTree.SparseMerkleTree.GetLeafFromStorage | internal/zkregistry/sparse_tree.go:323-344 | the stored word, or the empty branch of the level |
| SparseTree.SparseMerkleTree.GetLeafFromBatchOrStorage | internal/zkregistry/sparse_tree.go:304-321 | what the overlay of the batch over the database reads |
| SparseTree.SparseMerkleTree.GetRoot | internal/zkregistry/sparse_tree.go:235-238 | the root of the stored tree |
| SparseTree.SparseMerkleTree.CalculateHashForNode | internal/zkregistry/sparse_tree.go:266-302 | the hash of the pair an index belongs to, in left-right order, with no index overflow |
| SparseTree.SparseMerkleTree.InsertLeaf | internal/zkregistry/sparse_tree.go:159-184 | the buffer grows by exactly the update of one leaf, with one hash per level, and the writes are sent on in order |
| SparseTree.SparseMerkleTree.HashLevel | internal/zkregistry/sparse_tree.go:132-149 | one level read and written in the same array: the entries left are the distinct parents in first-seen order, nothing is overwritten before it is read, and the array does not grow |
| SparseTree.SparseMerkleTree.HashLevels | internal/zkregistry/sparse_tree.go:128-154 | every level follows from the one below, without touching the caller's array |
| SparseTree.SparseMerkleTree.InsertLeaves | internal/zkregistry/sparse_tree.go:114-157 | the buffer grows by exactly the update of the last-write-wins leaf map, the batch by the writes in order, and the hash count by the distinct parents of every level |
| SparseTree.Append | internal/zkregistry/sparse_tree.go:147 | appending writes in place while there is room and copies otherwise |
| SparseTree.SparseMerkleTree.CreateProof | internal/zkregistry/sparse_tree.go:186-233 | leaf, siblings from leaf to root, and root of the stored tree |
| SparseTree.SparseMerkleTree.CreateProofWithBatch | internal/zkregistry/sparse_tree.go:618-660 | the same proof of the overlaid tree, hence the identical proof for an empty overlay |
| SparseTree.SparseMerkleTree.GetRandomEmptyLeafIndex | internal/zkregistry/sparse_tree.go:240-264 | the first of ten drawn indices whose leaf was never written; none if and only if all ten were written |
| SparseTree.SparseMerkleTree.FindEmptyLeafIndexInSimulation | internal/zkregistry/sparse_tree.go:556-585 | the leaf that the first of ten draws, modulo the number of leaves, names among those that read as empty; none if and only if no draw names one |
| SparseTree.SparseMerkleTree.FindLeafByValueInSimulation | internal/zkregistry/sparse_tree.go:587-616 | the least index that holds the value |
| SparseTree.SparseMerkleTree.SimulateOperation | internal/zkregistry/sparse_tree.go:492-550 | the chosen leaf with its proof, the overlay moved on; the two "not empty" and "does not match" checks are unreachable |
| SparseTree.SparseMerkleTree.SimulateBatchOperations | internal/zkregistry/sparse_tree.go:467-554 | the initial root and the proofs of the simulation, or its first error; each addition is placed where its own ten draws say and each revocation at the least leaf holding its word, on the tree the operations before left; an error is returned if and only if it names an operation that cannot be placed there, for that reason; the database is not modified |
| SparseTree.SparseMerkleTree.SimulateAll | internal/zkregistry/sparse_tree.go:492-550 | the operations one after the other, as the simulation says |
| Simulation.PickAddition | internal/zkregistry/sparse_tree.go:495-517 | an addition goes to leaf i if and only if one of ten draws is i modulo the number of leaves, i reads as empty and no earlier draw names an empty leaf; it is refused if and only if none of the ten does |
| Simulation.SimulationPlaces | internal/zkregistry/sparse_tree.go:467-554 | every proof of a successful simulation is for the leaf its operation must go to on the tree left by the operations before |
| Simulation.FinalLeaf | internal/zkregistry/sparse_tree.go:514-540 | a leaf of the final tree holds the word of the last addition there, the empty word after a revocation, else its old word |
| Simulation.FailureBlames | internal/zkregistry/sparse_tree.go:495-544 | a simulation fails with an error if and only if the operations before the one it names go through and that one is refused for the reason the error gives |
| Simulation.FirstVacant | internal/zkregistry/sparse_tree.go:556-585 | a vacant leaf of the tree, or none if and only if no draw hit one |
| Simulation.FirstVacantIsFirst | internal/zkregistry/sparse_tree.go:556-585 | the leaf taken is that of the first draw that hits a vacant leaf |
| Simulation.TreeAfterIsFinal | internal/zkregistry/sparse_tree.go:514-540 | operations go through one by one if and only if their simulation succeeds, ending with its final tree |
| Simulation.LeastHolding | internal/zkregistry/sparse_tree.go:587-616 | the least leaf holding a word, or none if and only if no leaf holds it |
| Simulation.Pick | internal/zkregistry/sparse_tree.go:495-544 | the chosen leaf holds the word the operation expects; no choice if and only if the operation is stuck |
| Simulation.SimulationVerifies | internal/zkregistry/sparse_tree.go:467-554 | from the initial root alone every proof of the batch verifies in turn, each new root computed from the last proof, ending at the root of the final tree |
| Simulation.FinalIsOneUpdate | internal/zkregistry/sparse_tree.go:514-540 | the simulated operations together are one update with the last word of every leaf |
| Simulation.SimulationFailsExactly | internal/zkregistry/sparse_tree.go:495-544 | a simulation fails if and only if some operation, after those before it, is an addition whose ten draws are all occupied, a revocation of a word no leaf holds, or unknown; the error names it |
| Registry.BatchedIsOneByOne | internal/zkregistry/sparse_tree.go:114-184 | inserting each leaf in order leaves the very buffer of the batched insertion, repeated indices included, from any tree and buffer |
| Registry.CommitBatchDoes | internal/zkregistry/zk_certificate_registry.go:80-111 | a commit batch folds the index changes in order and updates the nodes once, on any store |
| Registry.CommitRepresents | internal/zkregistry/zk_certificate_registry.go:80-111 | however the operations were split into batches, the store is the one their fold determines, inner nodes included |
| Registry.RepresentsReads | internal/zkregistry/sparse_tree.go:235-238 | such a store reads as a consistent tree with those leaves and their reference root |
| Registry.FlushConsistentExactly | internal/indexer/ZkCertificateRegistry.go:134-150 | of every hash, writing out an update leaves a consistent database if and only if every recomputed node, as it reads back, is the hash of its children as they read back |
| Registry.FlushedConsistent | internal/indexer/ZkCertificateRegistry.go:134-150 | with a hash that is never zero, writing out storable leaves leaves a consistent database |
| Registry.OnlyLeavesMatter | internal/zkregistry/leaf_storage.go:77-79 | with such a hash only the pairs of leaf words decide |
| Registry.CommitConsistentExactly | internal/zkregistry/zk_certificate_registry.go:80-111 | a commit keeps the database consistent if and only if its recomputed nodes survive storage; with a hash that is never zero and tells a zero leaf from an empty one, if and only if the last word of each leaf is storable |
| Registry.LostLeafTears | internal/zkregistry/leaf_storage.go:77-79 | with such a hash, committing a zero word where empty leaves are not zero leaves an inconsistent database |
| Registry.SeparatingHash | internal/zkregistry/sparse_tree.go:266-280 | for every depth and empty word there is such a hash |
| Registry.StorableReadBack | internal/zkregistry/leaf_storage.go:77-92 | with a hash that is never zero and storable words, every tree that operations can make reads back |
| Registry.StorableSurvives | internal/zkregistry/leaf_storage.go:77-92 | likewise every commit of such operations survives storage |
| Registry.UpdateReadsBackExactly | internal/zkregistry/leaf_storage.go:77-79 | with a hash that is never zero, an update reads back if and only if its leaf words are storable |
| Registry.InverseKeptExactly | internal/zkregistry/zk_certificate_registry.go:84-102 | an operation keeps the value index the inverse of the leaves if and only if it is legal where it comes |
| Registry.InverseOverLog | internal/zkregistry/zk_certificate_registry.go:84-102 | over a whole log the index is the inverse at every point if and only if every operation is legal |
| Registry.LookupProves | internal/zkregistry/zk_certificate_registry.go:113-131 | a value is found if and only if a leaf holds it, and its proof carries that value and verifies under the reference root |
| Registry.SimulationAgreesWithCommit | internal/zkregistry/sparse_tree.go:467-554 | committing the simulated operations at the chosen indices makes the database read like the simulation at every node if and only if the words written read back, and folds the value index over the placed operations in order |
| Registry.OperationsBuffer.AppendAddition | internal/zkregistry/operations_buffer.go:51-64 | the buffer grows by the addition |
| Registry.OperationsBuffer.AppendRevocation | internal/zkregistry/operations_buffer.go:66-79 | the buffer grows by the revocation |
| Registry.ZKCertificateRegistry.CommitOperations | internal/zkregistry/zk_certificate_registry.go:80-111 | refused if and only if an operation is unknown; otherwise the batch grows by index changes, leaves and nodes in that order |
| Registry.ZKCertificateRegistry.CollectLeaves | internal/zkregistry/zk_certificate_registry.go:82-102 | the index change and the leaf of every operation, in order |
| Registry.ZKCertificateRegistry.CreateProof | internal/zkregistry/zk_certificate_registry.go:113-131 | the proof of the leaf the value index names, or nothing for an unknown value |
| Registry.ZKCertificateRegistry.GetRandomEmptyLeafProof | internal/zkregistry/zk_certificate_registry.go:133-152 | a proof, inside the tree, that the first never-written drawn leaf is empty |
| Job.ZkCertificateRegistryJob.HandleEVMLog | internal/indexer/ZkCertificateRegistry.go:77-101 | removed logs are skipped, operation 0 is buffered as an addition and 1 as a revocation of the log's hash at its index modulo 2^32, anything else refused |
| Job.ZkCertificateRegistryJob.Commit | internal/indexer/ZkCertificateRegistry.go:103-141 | operations and progress are written together, or nothing is |
| Job.ZkCertificateRegistryJob.BufferLogs | internal/indexer/indexer.go:297-312 | the operations of all logs in order, or a refusal if and only if some log cannot be read |
| Job.ZkCertificateRegistryJob.HandleLogs | internal/indexer/indexer.go:297-320 | all logs of a range are committed in order with the progress block, or none; afterwards every leaf holds what the last log on it says and every hash is found where its last log put it |
| Job.LeafTold | internal/indexer/ZkCertificateRegistry.go:177-217 | after some logs a leaf holds the hash of the last unremoved log on it, or the empty word if that log is a revocation |
| Job.HashTold | internal/indexer/ZkCertificateRegistry.go:177-217 | after some logs a hash is found at the index of its last unremoved log, or not at all if that log is a revocation |
| Job.CommittedTells | internal/zkregistry/zk_certificate_registry.go:80-111 | the store after a commit holds what the logs say, with everything they do not mention as before, and the progress block |
| Replay.Untouched | internal/zkregistry/zk_certificate_registry.go:84-102 | operations leave every leaf and index entry they do not write |
| Replay.Overwritten | internal/zkregistry/zk_certificate_registry.go:84-102 | what operations leave in an entry they write does not depend on the state before |
| Replay.FilterIsSlice | internal/indexer/indexer.go:160-168 | the logs of a block range are a contiguous piece of the log |
| Replay.StepKeeps | internal/indexer/indexer.go:159-225 | commits, restarts, crashes, sink batches and stops keep the store settled up to the replayed position |
| Replay.SinkLags | internal/indexer/indexer.go:274-292 | the block a sink batch stores may lag behind but never lies beyond what was handled |
| Replay.CaughtUpIsExact | internal/indexer/indexer.go:274-292 | in any run, once replay has again handled as much as was ever handled, the whole store is the direct fold of the log |
| Replay.StoredBlockIsExact | internal/indexer/ZkCertificateRegistry.go:103-141 | in poll mode, whenever the stored block is b, leaves, inner nodes and value index are the direct fold of the logs of all blocks up to b, whatever crashed before |
| Replay.StoredBlockTells | internal/indexer/ZkCertificateRegistry.go:177-217 | whenever block b is stored, every leaf reads as the last log on it up to b says, empty if there is none, and a hash is found exactly where its last log up to b put it |
| Replay.StoredBlockAnswers | internal/zkregistry/zk_certificate_registry.go:113-131 | in every poll run over a legal log, whenever block b is stored, a value is found if and only if the logs up to b leave it in a leaf, and its proof carries it and verifies under the reference root of those logs |
| Locking.WriterIsAlone | internal/zkregistry/mutex.go:51-69 | while a writer holds a registry's lock nobody else is inside |
| Isolation.ReadersSeeCommitted | internal/zkregistry/zk_certificate_registry.go:120-131 | under the read lock the nodes of the registry are the tree that was committed last |
| Locking.StepKeepsLocks | internal/zkregistry/mutex.go:51-93 | every step of every thread keeps table, handles and locks in order, whatever the data |
| Isolation.StepKeeps | internal/indexer/ZkCertificateRegistry.go:143-150 | every step keeps readers, writers and committed trees in order, as long as the flushes under way survive storage |
| Isolation.FlushedIsConsistent | internal/indexer/ZkCertificateRegistry.go:143-150 | a flush that ran to its end leaves a consistent tree if and only if what it wrote survives |
| Isolation.ProofsAreIsolated | internal/indexer/ZkCertificateRegistry.go:143-150 | in every interleaving a returned proof is the proof of one committed, consistent tree and verifies against its own root |
| Isolation.ProofsAnswerCommits | internal/zkregistry/zk_certificate_registry.go:113-131 | and it carries the leaf and the reference root of the operations committed, flush by flush, before it was read, if these read back |
| Isolation.FlushKeepsLog | internal/indexer/ZkCertificateRegistry.go:134-150 | a complete flush leads from the tree of the commits before to the tree with its own operations |
| Isolation.FrozenWhileRead | internal/zkregistry/zk_certificate_registry.go:120-131 | from taking the read lock to giving it back the registry's nodes and commits do not change |
| Isolation.ReadsWhatWasAsked | internal/zkregistry/zk_certificate_registry.go:113-131 | in every run a returned proof is of the registry and the index that were asked for |
| Isolation.CommitsWhatWasAsked | internal/indexer/ZkCertificateRegistry.go:143-150 | in every run a flush that ends has committed the operations it was given |
| Isolation.StorableRun | internal/zkregistry/leaf_storage.go:77-92 | with a hash that is never zero, flushes of storable words survive storage in every run |
| Locking.LocksAreUnique | internal/zkregistry/mutex.go:71-93 | all threads get the same lock for a registry, different registries different ones, and a release acts on the lock that is held |
| Locking.LockNeverReplaced | internal/zkregistry/mutex.go:81-92 | a lock once installed for a registry stays |
| Isolation.FlushTears | internal/indexer/ZkCertificateRegistry.go:143-150 | in the middle of any flush of any run, a node not yet written is the hash of its children if and only if the writes below left that hash unchanged; otherwise the tree is inconsistent |
| Isolation.TornRun | internal/indexer/ZkCertificateRegistry.go:143-150 | for every registry, thread and certificate that changes the hash, there is a run that reaches an inconsistent tree under the write lock |
| Indexer.RangeEndExactly | internal/indexer/indexer.go:160 | the next range is nonempty if and only if its end does not overflow, and then it is short enough and ends by the head |
| Indexer.RangeEndWraps | internal/indexer/indexer.go:160 | a distance near 2^64 gives a range that ends before it begins |
| Indexer.TilesCover | internal/indexer/indexer.go:159-177 | a block is fetched by some range if and only if it lies between the start block and the next block |
| Indexer.TilesOnce | internal/indexer/indexer.go:159-177 | no block is fetched by two ranges |
| Indexer.IndexEVMLogs | internal/indexer/indexer.go:119-237 | for any answers from outside the committed ranges tile the blocks, one per commit, each of the configured length (10000 if none) or up to a reported head; in poll mode the indexer is on head exactly after passing the first head; it stops only if the answers end or the range or head it must ask for is refused; in subscription mode it otherwise hands over at the first block past the head; an unknown mode ends it after one range |
| Indexer.RangesFit | internal/indexer/indexer.go:92-94 | no range is longer than the configured distance, or 10000 if it is zero, and a shorter one ends at a reported head |
| Indexer.FetchRange | internal/indexer/indexer.go:159-177 | the next block is the configured distance further on (10000 if none), or right past the head if that is nearer; trace and head gate kept |
| Indexer.Round | internal/indexer/indexer.go:159-225 | one round, a range and then what the mode asks for, keeps trace and head gate; it ends the loop if the mode is unknown, and otherwise only if a head is asked for and not given |
| Indexer.PollMode | internal/indexer/indexer.go:180-206 | behind the head nothing changes; otherwise on head, reported once and only past the first head, then polling until the next block is reached |
| Indexer.WsMode | internal/indexer/indexer.go:208-219 | the subscription is started if and only if it was not and the head is within reach, and exactly then the head is asked for again |
| Indexer.PollHead | internal/indexer/indexer.go:192-206 | heads are asked for until the next block is reached |
| Indexer.SinkBatch | internal/indexer/indexer.go:274-292 | exactly the logs from the hand-off block on are handled, and the block of the last log is stored |
| Indexer.HandledOnce | internal/indexer/indexer.go:282-288 | nothing the sink handles lies in a range fetched before |
| Indexer.SinkBatchIsStep | internal/indexer/indexer.go:274-292 | the filter drops exactly the logs already handled |
| EndToEnd.TraceIsRun | internal/indexer/indexer.go:159-187 | the ranges the loop commits, each with readable logs only, continue any earlier run of the job, one step per range, and the last block fetched is the stored one |
| EndToEnd.IndexedIsExact | internal/indexer/indexer.go:119-237 | for any earlier crashes and any answers to the loop, after its commits the stored leaves, inner nodes and value index are the direct fold of the logs of all blocks before the next one |
| Keys.EncodeInjective | internal/zkregistry/leaf_storage.go:171-189 | keys of all kinds are encoded without collisions |
| Keys.NodeKeyLayout | internal/zkregistry/leaf_storage.go:171-179 | the bytes of a node's key: prefix 1, registry, level, big-endian index |
| Keys.IndexKeyLayout | internal/zkregistry/leaf_storage.go:181-189 | the bytes of a value's key: prefix 2, registry, the 32-byte value |
| Keys.JobKeyLayout | internal/indexer/job_storage.go:139-147 | the bytes of a job's key: prefix 0, address, contract, start block; and the remaining prefixes |
| Keys.SimKeyInjective | internal/zkregistry/sparse_tree.go:437-440 | the simulation's text keys are distinct for distinct nodes |
| Keys.IndexBytesBack | internal/zkregistry/leaf_storage.go:119-138 | a stored leaf index decodes to itself |
| Keys.MinimalBack | internal/zkregistry/leaf_storage.go:77-92 | a word's minimal bytes decode to the word |
| Keys.FlatBatchRefines | internal/storage/keys.go:23-31 | a batch of one registry does to the flat database what it does to the typed store, the resume block included, and changes no other key |
| Keys.OtherRegistriesKeep | internal/zkregistry/leaf_storage.go:171-189 | another registry and its job read the same nodes, indices and resume block as before |
| Keys.CommitInRange | internal/zkregistry/leaf_storage.go:171-179 | the nodes of every commit fit the key layout |
| Configurator.JobStorage.SelectAllJobs | internal/indexer/job_storage.go:90-120 | every stored job once, with its block |
| Configurator.Configurator.StartJob | internal/indexer/configurator.go:109-148 | the job runs from the given block unless no handler can be produced |
| Configurator.Configurator.InitFromStorage | internal/indexer/configurator.go:72-107 | exactly the stored jobs that are configured run, each from its stored block |
| Configurator.Configurator.ReloadConfig | internal/indexer/configurator.go:168-206 | from any state: configured jobs that ran go on untouched, new starts are of configured jobs that did not run, each once and from its start block; on success exactly the configured jobs run and only the progress of stopped ones is deleted, otherwise none |
| Configurator.Configurator.StartMissing | internal/indexer/configurator.go:172-182 | configured jobs that do not run are started, each once and from its start block, and nothing else happens; all of them if and only if handlers can be produced |
| Configurator.Configurator.StopOthers | internal/indexer/configurator.go:191-203 | every other job is stopped, and progress is deleted for all of them or none |
| Configurator.StartsAreEntries | internal/indexer/configurator.go:168-206 | over any sequence of reloads, failed ones included, and progress reports, a job is started exactly as often as it begins to run |
| Configurator.CommonJobsStay | internal/indexer/configurator.go:168-206 | a job that is in every configuration keeps its one run |
| Configurator.LostWasStopped | internal/indexer/configurator.go:150-166 | progress that is gone was deleted by a successful reload that stopped the job |
| Configurator.StoppedIsLost | internal/indexer/configurator.go:150-166 | a stopped job has no progress as long as it does not run again |
| Configurator.StartUp | pkg/indexer/application.go:225-244 | from any stored jobs and any list, duplicates included, exactly the configured jobs run, each started once, from its stored block if it had one and from its start block otherwise |
| RegistryIndex.IndexStorage.GetNextRegistryIndex | internal/zkregistry/index_storage.go:119-131 | the number of addresses so far, in eight bits |
| RegistryIndex.IndexStorage.ApplyAddressToIndex | internal/zkregistry/index_storage.go:57-88 | indices go to addresses in first-seen order and never change |
| RegistryIndex.IndicesDistinctExactly | internal/zkregistry/index_storage.go:119-139 | the indices are distinct if and only if there are at most 256 addresses |

## Left out

- Poseidon, Keccak and field arithmetic: the hash is any function on words; its range errors are not modelled.
- Tree depths outside 1..32 and the two error paths for them (an invalid level, an invalid depth); database read errors.
- Context cancellation, timers, logging and retries: a job just stops, which is a crash step of `Replay`.
- The gRPC server, query handlers, configuration files, generated code, the contract binding and log topics.
- The msgpack encoding of jobs and metadata: a parameter, and typed values.
- That the subscription delivers every log from the hand-off block on, in order: a hypothesis of `Replay`, since the subscription carries no start block.
- Replay.CaughtUpIsExact: between a restart at a lagging or deleted block and catching up, the store is exact only where the logs still to be replayed do not reach; that is the invariant `Settled`, not a theorem about the whole store.
- Replay.StoredBlockIsExact: assumes that every tree the log's operations can make reads back; `Registry.CommitConsistentExactly` shows what is lost otherwise.
- Isolation.ProofsAreIsolated: one writer per registry at a time, batches written without a crash in the middle, and flushes whose words survive storage.
- EndToEnd.IndexedIsExact: that a range was committed is taken to mean that its logs could all be read (`Handled`), as `Job.ZkCertificateRegistryJob.HandleLogs` shows.
- Isolation does not model the index lookup that precedes the read lock: a proof belongs to a committed tree, but a commit may have moved the value since the lookup.
- SparseTree.SparseMerkleTree.SimulateBatchOperations: a commit during the simulation is not modelled; the batch handler takes no lock.
- Indexer.IndexEVMLogs: the range and gate properties are stated for distances and heads that do not overflow 64 bits; the subscription hands over past the first head only if no later head is reported lower.
- SparseTree.SparseMerkleTree.GetRandomEmptyLeafIndex: uniformity of the draws is not stated.
- Configurator.Configurator.ReloadConfig: a stopping job that commits while it is being waited for is not modelled.
