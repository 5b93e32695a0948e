# Verified model of the Starknet OS runner

This project models the parts of SNOS, the Rust port of the Starknet OS, in which a block is
committed and replayed: the Patricia commitment tree behind every state root, the proofs and facts
the OS is fed with, the replay of recorded calls as answers to syscalls, the polynomial transform of
the data-availability blob, the segmentation of bytecode, and the reader of the OS output.
`dafny verify dfyconfig.toml` checks all of it.

## How to read the model

- **Hashing.** The hash of a node is a parameter `H`. Nothing is assumed of it on all inputs.
  A tree is *collision free* when each of its facts is recovered from its hash by some function
  `open`, which can hold of a hash with finitely many values. `Patricia.FactHash` is the node hash
  of the code over an arbitrary two-to-one hash; `PairingHash` is a hash without any collision,
  which shows that the assumption can be met by any two trees at once.
- **Trees.** `Patricia.Canon` is the reference: the root computed layer by layer from all leaves.
  A tree is given by its leaves, and everything said about the stored tree is said against them.
- **State that changes in place** is a class (`TreeUpdateTraverser`, `FactStorage`, `NodeFactDict`,
  `SharedState`, `OsSingleStarknetStorage`, `ExecutionHelper`, `SyscallHandler`, `VisitedPcs`,
  `FeltIterator`). Each method equates the new state with a function of the old one; the results
  about whole runs are lemmas about that function.
- **Order.** The traversals pick any waiting node at each turn, because the code promises no order.
- **Errors.** A `Result` or an empty `Option` stands for an error or a panic of the code.

| file | models |
|---|---|
| `UpdateTrees`, `TreeTraverser` | the tree of modifications, and the traversal that applies it |
| `Patricia`, `PairingHash` | node facts, canonical nodes, and how a root binds its leaves |
| `VirtualNodes`, `VirtualCalculations`, `PatriciaTree` | reading, combining, updating and storing trees |
| `TreeDiff` | the differences between two stored trees |
| `CommitmentFacts`, `Descents` | the facts gathered by an update, and the descents the OS finds with them |
| `ContractStorage`, `SharedState` | the storage of one contract, and the two-level state over many updates |
| `Bits`, `TrieProofs`, `KeyRepair` | checking storage proofs, and repairing keys shown absent |
| `Congruence`, `FourierTransform`, `BitReversal`, `Blob`, `Limbs` | the transform, the blob and BLS limbs |
| `Segments` | bytecode segment structures and bytecode with skipped segments |
| `Replay`, `Syscalls` | the replay of calls and the syscall segment |
| `OsOutput` | the reader of the OS output |

## Model

| member | source | states |
|---|---|---|
| `UpdateTrees.CollectIsLastWrite` | crates/starknet-os/src/starkware_utils/commitment_tree/update_tree.rs:288-289 | an index is kept exactly when it is modified, with its last modification |
| `UpdateTrees.NextLayer` | crates/starknet-os/src/starkware_utils/commitment_tree/update_tree.rs:291-303 | the loop over parents turns the layer of height h into that of height h + 1 |
| `UpdateTrees.BuildUpdateTree` | crates/starknet-os/src/starkware_utils/commitment_tree/update_tree.rs:277-310 | succeeds exactly when all indices lie in the tree, and then is the tree of the last modifications |
| `UpdateTrees.TreeOfWellformed` | crates/starknet-os/src/starkware_utils/commitment_tree/update_tree.rs:271-276 | leaves occur at height 0 only and no pair has two empty halves |
| `UpdateTrees.LookupTreeOf` | crates/starknet-os/src/starkware_utils/commitment_tree/update_tree.rs:277-310 | walking down the tree by the bits of an index finds its modification, or nothing if there is none |
| `UpdateTrees.LookupDetermines` | crates/starknet-os/src/starkware_utils/commitment_tree/update_tree.rs:277-310 | well-formed trees with the same lookups are equal, so the two lemmas above fix the tree |
| `UpdateTrees.DecodeTreeOf` | crates/starknet-os/src/starkware_utils/commitment_tree/update_tree.rs:356-372 | decoding never fails on a tree of modifications, yields its halves, and names the sides that have modifications |
| `UpdateTrees.EnterScopeDescendEdge` | crates/starknet-os/src/hints/execution.rs:1508-1544 | the loop descends by the bits of the word from the highest, failing on a leaf or a missing node |
| `UpdateTrees.DescendTreeOf` | crates/starknet-os/src/hints/execution.rs:1508-1544 | exactly when the descent succeeds, and that it then ends at the subtree of the node the word names |
| `Frontier.MapPrefixFree` | crates/starknet-os/src/starkware_utils/commitment_tree/update_tree.rs:31-63 | among the finished nodes none lies above another and no two are siblings |
| `Frontier.FailureReachesRoot` | crates/starknet-os/src/starkware_utils/commitment_tree/update_tree.rs:31-63 | if the value of a node cannot be computed, neither can that of the root |
| `TreeTraverser.TreeUpdateTraverser.UpdateNecessary` | crates/starknet-os/src/starkware_utils/commitment_tree/update_tree.rs:31-63 | merging finished siblings upwards restores the invariant of the map, and fails only if the recursion fails |
| `TreeTraverser.TreeUpdateTraverser.Finish` | crates/starknet-os/src/starkware_utils/commitment_tree/update_tree.rs:65-102 | storing the value of a childless node and merging keeps the invariant |
| `TreeTraverser.TreeUpdateTraverser.GetChildren` | crates/starknet-os/src/starkware_utils/commitment_tree/update_tree.rs:150-186 | one visit keeps the invariant and yields exactly the children of the node |
| `TreeTraverser.FrontierCovers` | crates/starknet-os/src/starkware_utils/commitment_tree/update_tree.rs:104-138 | between two visits the map and the queue are a prefix-free cover of the tree in which no siblings wait to be merged |
| `TreeTraverser.CoveredOnce` | crates/starknet-os/src/starkware_utils/commitment_tree/update_tree.rs:104-138 | each childless node lies below exactly one node of that cover |
| `TreeTraverser.VisitOne` | crates/starknet-os/src/starkware_utils/commitment_tree/merkle_tree/traverse_tree.rs:34-44 | visiting any waiting node keeps the invariants, the cover, and makes the work left smaller |
| `TreeTraverser.TraverseTree` | crates/starknet-os/src/starkware_utils/commitment_tree/merkle_tree/traverse_tree.rs:25-48 | in every order only the root is left in the map, with the value of the recursion, and the facts of all updated nodes were read |
| `TreeTraverser.BuildUpdatedCalculation` | crates/starknet-os/src/starkware_utils/commitment_tree/update_tree.rs:189-215 | in every order the result is that of the plain recursion, errors included |
| `Patricia.NodeEmpty` | crates/starknet-os/src/starkware_utils/commitment_tree/patricia_tree/patricia_utils.rs:61-118 | a canonical node is empty exactly when all leaves below it are |
| `Patricia.EdgeLeadsToBottom` | crates/starknet-os/src/starkware_utils/commitment_tree/patricia_tree/nodes.rs:146-166 | an edge leads to the bottom node it names, and there are no leaves beside it |
| `Patricia.HashDeterminesNode` | crates/starknet-os/src/starkware_utils/commitment_tree/patricia_tree/patricia_utils.rs:43-51 | in collision-free trees equal hashes mean equal nodes |
| `Patricia.NodeDeterminesLeaves` | crates/starknet-os/src/starkware_utils/commitment_tree/patricia_tree/patricia_utils.rs:61-118 | equal nodes have equal leaves below them |
| `PairingHash.HashOpens` | crates/starknet-os/src/starkware_utils/commitment_tree/patricia_tree/nodes.rs:101-108 | there is a hash of node facts that can be inverted and never hits the empty hash |
| `PairingHash.StoreTrees` | crates/starknet-os/src/starkware_utils/commitment_tree/update_tree.rs:312-332 | under it any two trees can be stored together, so the assumptions on stored trees can be met |
| `VirtualNodes.OpenJoin` | crates/starknet-os/src/starkware_utils/commitment_tree/patricia_tree/virtual_patricia_node.rs:213-255 | opening a node, written out or given by the hash of its edge, yields its two halves |
| `VirtualNodes.ChildrenReadable` | crates/starknet-os/src/starkware_utils/commitment_tree/patricia_tree/virtual_patricia_node.rs:99-117 | the children of a readable node can be read, and stand for the children of the tree |
| `VirtualNodes.GetLeaves` | crates/starknet-os/src/starkware_utils/commitment_tree/patricia_tree/virtual_patricia_node.rs:257-283 | yields exactly the requested indices, each with its leaf |
| `VirtualNodes.GetBinaryNodeLeaves` | crates/starknet-os/src/starkware_utils/commitment_tree/binary_fact_tree_node.rs:193-226 | the same through the two halves of a node |
| `VirtualNodes.GetEdgeNodeLeaves` | crates/starknet-os/src/starkware_utils/commitment_tree/patricia_tree/virtual_patricia_node.rs:129-157 | the same through an edge, with the empty leaf off the edge |
| `VirtualNodes.Partition` | crates/starknet-os/src/starkware_utils/commitment_tree/patricia_tree/virtual_patricia_node.rs:135-150 | splits the indices into those below the edge, moved by its offset, and the others |
| `VirtualNodes.UnifyLeaves` | crates/starknet-os/src/starkware_utils/commitment_tree/binary_fact_tree_node.rs:271-287 | the union of two maps of leaves, one moved by an offset, keeps every entry |
| `VirtualCalculations.FullCalculate` | crates/starknet-os/src/starkware_utils/commitment_tree/calculation.rs:68-76 | computes the hash of a calculation and adds all its facts to the dictionary |
| `VirtualCalculations.InnerAfterHolds` | crates/starknet-os/src/starkware_utils/commitment_tree/patricia_tree/virtual_calculation_node.rs:72-82 | without collisions, adding facts loses none that were there and none that were added |
| `VirtualCalculations.DecommitStands` | crates/starknet-os/src/starkware_utils/commitment_tree/patricia_tree/virtual_calculation_node.rs:338-371 | decommitting succeeds on a calculation that stands for a node and spells that node out |
| `VirtualCalculations.CombineStands` | crates/starknet-os/src/starkware_utils/commitment_tree/patricia_tree/virtual_calculation_node.rs:449-469 | combining calculations of two siblings gives one of their parent, whichever of them are empty |
| `VirtualCalculations.CombineExact` | crates/starknet-os/src/starkware_utils/commitment_tree/patricia_tree/virtual_calculation_node.rs:373-397 | a combination is the parent node itself, with no edge hidden behind a hash |
| `VirtualCalculations.CombineComputes` | crates/starknet-os/src/starkware_utils/commitment_tree/patricia_tree/virtual_calculation_node.rs:331-336 | the parent's facts are computed and none of the children's is lost |
| `VirtualCalculations.CombineLeaves` | crates/starknet-os/src/starkware_utils/commitment_tree/patricia_tree/virtual_calculation_node.rs:449-469 | no leaf is lost in a combination except empty ones, and none is invented |
| `PatriciaTree.CalcCorrect` | crates/starknet-os/src/starkware_utils/commitment_tree/update_tree.rs:189-215 | applying a tree of modifications to a stored tree calculates the canonical tree of the modified leaves |
| `PatriciaTree.FactStorage.WriteFactNodes` | crates/starknet-os/src/starkware_utils/commitment_tree/update_tree.rs:312-332 | all new facts are stored, and nothing else changes |
| `PatriciaTree.EmptyTree` | crates/starknet-os/src/starkware_utils/commitment_tree/patricia_tree/patricia_tree.rs:30-33 | the empty tree is stored under the empty hash |
| `PatriciaTree.WriteCalculation` | crates/starknet-os/src/starkware_utils/commitment_tree/update_tree.rs:252-267 | hashes a calculation, writes its facts and adds them to those read; fails exactly on a root path that does not fit its length |
| `PatriciaTree.Update` | crates/starknet-os/src/starkware_utils/commitment_tree/patricia_tree/patricia_tree.rs:45-64 | the new root is the canonical root of the modified leaves; the new tree is stored and the old one, and every other tree without collisions, stays stored; an index out of range is an error |
| `PatriciaTree.GetTreeLeaves` | crates/starknet-os/src/starkware_utils/commitment_tree/patricia_tree/patricia_tree.rs:35-43 | a stored tree reads back exactly the requested leaves |
| `PatriciaTree.UpdateThenRead` | crates/starknet-os/src/starkware_utils/commitment_tree/patricia_tree/patricia_tree.rs:202-213 | after an update the tree reads back the modified leaves at the modified indices and the old ones elsewhere |
| `PatriciaTree.ModifiedIsLastWrite` | crates/starknet-os/src/starkware_utils/commitment_tree/update_tree.rs:283-289 | the modified leaves are the last modification of each index and the previous leaf elsewhere |
| `PatriciaTree.TreeStaysStored` | crates/starknet-os/src/starkware_utils/commitment_tree/binary_fact_tree.rs:23-24 | a stored tree stays stored while facts that do not collide with it are added |
| `PatriciaTree.LeavesDetermineRoot` | crates/starknet-os/src/starkware_utils/commitment_tree/patricia_tree/patricia_utils.rs:61-118 | the root depends on the leaves only, not on the updates that led to them |
| `PatriciaTree.RootBindsLeaves` | crates/starknet-os/src/starkware_utils/commitment_tree/patricia_tree/patricia_utils.rs:61-118 | collision-free trees of one height have the same root exactly when they have the same leaves |
| `TreeDiff.DiffOfTrees` | crates/starknet-os/src/starkware_utils/commitment_tree/binary_fact_tree_node.rs:110-136 | the recursion over two stored trees finds the differing leaves in order; at height 0 it reports the pair even if it is equal |
| `TreeDiff.TraverseTrees` | crates/starknet-os/src/starkware_utils/commitment_tree/merkle_tree/traverse_tree.rs:25-48 | in every visiting order the same differences are found, as a multiset |
| `TreeDiff.GetDiffBetweenTrees` | crates/starknet-os/src/starkware_utils/commitment_tree/binary_fact_tree_node.rs:234-252 | trees of different height are refused; else the differences are those of the recursion |
| `TreeDiff.DiffTrees` | crates/starknet-os/src/starkware_utils/commitment_tree/binary_fact_tree_node.rs:234-252 | for stored trees of height 1 to 64 the result has exactly the indices whose leaves differ, each once, with both leaves |
| `TreeDiff.WideTrees` | crates/starknet-os/src/starkware_utils/commitment_tree/binary_fact_tree_node.rs:110-136 | for any greater height there are two stored trees with two differences that are reported under the same path |
| `TreeDiff.ExactUpTo64` | crates/starknet-os/src/starkware_utils/commitment_tree/binary_fact_tree_node.rs:110-136 | the differences are exact for all trees of a height if and only if it is at most 64 |
| `CommitmentFacts.OpenedKnown` | crates/starknet-os/src/starkware_utils/commitment_tree/patricia_tree/virtual_patricia_node.rs:213-255 | the facts read while opening updated nodes are those on the paths to the updates in the previous tree |
| `CommitmentFacts.CalcKnown` | crates/starknet-os/src/starkware_utils/commitment_tree/patricia_tree/virtual_calculation_node.rs:449-469 | the facts calculated are those on the paths to the updates in the new tree |
| `CommitmentFacts.GatheredSuffice` | crates/starknet-os/src/starkware_utils/commitment_tree/update_tree.rs:256-264 | the facts gathered by an update suffice to walk from both roots to all modified leaves |
| `Descents.BottomCoversLeaves` | crates/starknet-os/src/starkware_utils/commitment_tree/patricia_tree/patricia_guess_descents.rs:146-171 | a descent ends at the lowest node above all live leaves below its start |
| `Descents.DescentsExact` | crates/starknet-os/src/starkware_utils/commitment_tree/patricia_tree/patricia_guess_descents.rs:172-275 | the recursion collects exactly the descents to be found, each with its length and path |
| `Descents.PositionChildren` | crates/starknet-os/src/starkware_utils/commitment_tree/patricia_tree/patricia_guess_descents.rs:47-74 | opening three trees at once yields the three pairs of halves |
| `Descents.FindBottom` | crates/starknet-os/src/starkware_utils/commitment_tree/patricia_tree/patricia_guess_descents.rs:196-251 | the loop walks down while one side is empty in all trees and lands at the bottom |
| `Descents.GetDescents` | crates/starknet-os/src/starkware_utils/commitment_tree/patricia_tree/patricia_guess_descents.rs:172-275 | given the facts, the search returns the descents below a position |
| `Descents.PatriciaGuessDescents` | crates/starknet-os/src/starkware_utils/commitment_tree/patricia_tree/patricia_guess_descents.rs:291-305 | given the facts of both trees, the search from the roots returns all descents of the update |
| `Descents.FoundExact` | crates/starknet-os/src/starkware_utils/commitment_tree/patricia_tree/patricia_guess_descents.rs:146-171 | an entry is found if and only if it starts at the root or below a branching node, at a node with updates, and leads to the lowest node above all live leaves |
| `ContractStorage.CreateFromModifications` | crates/starknet-os/src/starknet/starknet_storage.rs:108-144 | commits to the modified leaves with facts that suffice for both trees; refuses exactly when another root was expected |
| `ContractStorage.CommitThenDescend` | crates/starknet-os/src/hints/patricia.rs:311-362 | with the facts of a commitment, the search finds all descents of its update, unconditionally |
| `ContractStorage.CommitChanges` | crates/starknet-os/src/starknet/starknet_storage.rs:235-254 | the same for a map of changes in any order |
| `ContractStorage.CreateFromExpectedUpdatedTree` | crates/starknet-os/src/starknet/starknet_storage.rs:147-174 | the commitment between two trees exists exactly when they have one height and agree outside the accessed indices |
| `ContractStorage.OsSingleStarknetStorage.Read` | crates/starknet-os/src/starknet/starknet_storage.rs:256-267 | a read sees the last write, else the leaf, and remembers it |
| `ContractStorage.OsSingleStarknetStorage.Write` | crates/starknet-os/src/starknet/starknet_storage.rs:269-271 | a write changes one key and keeps the invariant |
| `ContractStorage.OsSingleStarknetStorage.ComputeCommitment` | crates/starknet-os/src/starknet/starknet_storage.rs:235-254 | commits what was read and written; succeeds exactly when it leads to the expected root |
| `ContractStorage.NewStorage` | crates/starknet-os/src/starknet/starknet_storage.rs:201-217 | the storage starts with the leaves of the accessed keys |
| `ContractStorage.ReadsSeeLastWrite` | crates/starknet-os/src/starknet/starknet_storage.rs:256-271 | over every run of reads and writes, a key has the last value written to it, else its leaf |
| `ContractStorage.ReadsDoNotChangeRoot` | crates/starknet-os/src/starknet/starknet_storage.rs:235-254 | committing all that was accessed gives the root of the writes alone |
| `ContractStorage.CommitmentMatches` | crates/starknet-os/src/starknet/starknet_storage.rs:235-254 | the commitment has the expected root exactly when the writes lead to the expected leaves |
| `SharedState.UpdateContract` | crates/starknet-os/src/starknet/business_logic/fact_state/contract_state_objects.rs:54-79 | a contract gets its new storage root, nonce and class hash, and its storage tree is stored |
| `SharedState.UpdateContracts` | crates/starknet-os/src/starknet/business_logic/fact_state/state.rs:256-273 | all touched contracts are updated, in any order, and all their storage trees are stored in the end |
| `SharedState.RecomputeTrees` | crates/starknet-os/src/starknet/business_logic/fact_state/state.rs:237-314 | the two levels together: the new root is that of the updated world, and every version of the history stays stored |
| `SharedState.HistoryStays` | crates/starknet-os/src/starknet/business_logic/fact_state/state.rs:36-52 | all versions of the state stay readable while facts are added |
| `SharedState.SharedState.ApplyStateUpdates` | crates/starknet-os/src/starknet/business_logic/fact_state/state.rs:237-314 | the state moves to the next version of its history, with the addresses touched so far |
| `SharedState.SharedState.GetContractState` | crates/starknet-os/src/starknet/business_logic/fact_state/state.rs:316-333 | reads the contract of the latest version |
| `SharedState.SharedState.GetStorageAt` | crates/starknet-os/src/starknet/business_logic/fact_state/state.rs:428-442 | reads a storage slot of the latest version through both trees |
| `SharedState.AppliedAt` | crates/starknet-os/src/starknet/business_logic/fact_state/state.rs:256-278 | what an update makes of a contract: class hash, nonce and each slot are the updated ones if there are any, and an untouched contract stays as it is |
| `SharedState.ApplyThenRead` | crates/starknet-os/src/starknet/business_logic/fact_state/state.rs:237-333 | after applying updates, class hash, nonce and slots read back as updated, and an untouched address is unchanged |
| `SharedState.EmptySharedState` | crates/starknet-os/src/starknet/business_logic/fact_state/state.rs:97-110 | the empty state stores its first version, under the empty root |
| `SharedState.StarknetLeaves` | crates/starknet-os/src/starknet/business_logic/fact_state/contract_state_objects.rs:89-116 | the leaf hashes of Starknet meet what the state assumes of empty leaves |
| `TrieProofs.VerifyProof` | crates/rpc-client/src/pathfinder/proofs.rs:107-158 | the loop over the proof returns the verdict of the recursion on the bits of the key |
| `TrieProofs.VerifyOnNumbers` | crates/rpc-client/src/pathfinder/proofs.rs:107-158 | comparing slices of bits is comparing the key's digits with the edge's path |
| `TrieProofs.VerifyAgainstTree` | crates/rpc-client/src/pathfinder/proofs.rs:107-158 | a part of the key's true path is accepted, one that extends it where an edge leads elsewhere proves absence, and any other proof is refused |
| `TrieProofs.VerdictTells` | crates/rpc-client/src/pathfinder/proofs.rs:50-58 | what each verdict says about the leaf of the key, for every height |
| `TrieProofs.ProofSound` | crates/rpc-client/src/pathfinder/proofs.rs:107-158 | against the root of a tree of height 251, non-existence means that the key has no leaf, and an accepted proof shows that it has one exactly when it walks down all levels |
| `KeyRepair.ModifiedKey` | crates/bin/prove_block/src/rpc_utils.rs:160-169 | the modified key has the edge's path in its window and agrees with the key elsewhere |
| `KeyRepair.FollowingKeyAccepted` | crates/bin/prove_block/src/rpc_utils.rs:86-112 | a key that agrees above the last edge and follows it is accepted with the same proof |
| `KeyRepair.RepairedKeyAccepted` | crates/bin/prove_block/src/rpc_utils.rs:160-169 | if a proof shows absence at its last node, the modified key is a key of the tree and is accepted with that proof |
| `KeyRepair.VerifyContract` | crates/rpc-client/src/pathfinder/proofs.rs:63-73 | the errors of all keys in order, or a panic |
| `KeyRepair.VerifyStorageProof` | crates/bin/prove_block/src/rpc_utils.rs:86-112 | panics exactly on an invalid proof or a failing check, else returns the keys to fetch in addition |
| `KeyRepair.AdditionalKeysRepair` | crates/bin/prove_block/src/rpc_utils.rs:86-112 | these keys are, one for one and in order, repairs of the keys shown absent |
| `KeyRepair.TreeProofsRepairable` | crates/bin/prove_block/src/rpc_utils.rs:49-79 | proofs taken from a tree show absence only at their last node, so all of them can be repaired |
| `FourierTransform.InnerFft` | crates/starknet-os/src/hints/kzg.rs:66-98 | the recursive transform with its two loops computes the butterfly recursion |
| `FourierTransform.TransformEvaluates` | crates/starknet-os/src/hints/kzg.rs:66-98 | over a subgroup the recursion gives the polynomial's value at every element |
| `FourierTransform.SpectrumExact` | crates/starknet-os/src/hints/kzg.rs:104-135 | the transform evaluates every polynomial of 2^k coefficients if and only if the half power of the generator is -1 |
| `FourierTransform.OrderIsLength` | crates/starknet-os/src/hints/kzg.rs:104-135 | in a field of odd characteristic that says that the generator has order 2^k |
| `FourierTransform.SpectrumIsValue` | crates/starknet-os/src/hints/kzg.rs:66-98 | on non-negative input the outputs are the reduced values themselves |
| `FourierTransform.Fft` | crates/starknet-os/src/hints/kzg.rs:104-135 | accepts exactly the empty list and lengths that are powers of two, and returns the values, reordered if asked to |
| `BitReversal.Reversal` | crates/starknet-os/src/hints/kzg.rs:120-132 | formatting, reversing and parsing an index gives the number with its bits in opposite order |
| `BitReversal.ReversalInvolution` | crates/starknet-os/src/hints/kzg.rs:120-132 | doing so twice gives the index back, so the reordering is a permutation |
| `Blob.GeneratorNegates` | crates/starknet-os/src/hints/kzg.rs:25-28 | the generator of the code satisfies the condition for 4096 coefficients |
| `Blob.FieldElementRoundTrip` | crates/starknet-os/src/hints/kzg.rs:182-192 | a number that fits is written on exactly n bytes and read back |
| `Blob.SerializeBlob` | crates/starknet-os/src/hints/kzg.rs:194-197 | the blob is the concatenation of its elements' bytes |
| `Blob.PolynomialCoefficientsToBlob` | crates/starknet-os/src/hints/kzg.rs:159-175 | refuses exactly more than 4096 coefficients; else the 32-byte chunks are the polynomial's values at the powers of the generator in bit-reversed order |
| `Limbs.Split` | crates/starknet-os/src/hints/bls_utils.rs:15-29 | three limbs within their bounds that add up to the number |
| `Limbs.LowOfValue` | crates/starknet-os/src/hints/bls_field.rs:27-46 | the low part computed from two unreduced limbs is that of the whole number, without wrap-around |
| `Limbs.SplitLow` | crates/starknet-os/src/hints/bls_field.rs:27-46 | splitting and taking the low part gives the low 128 bits |
| `Segments.VisitedPcs.PopSegment` | crates/starknet-os/src/io/classes.rs:132-144 | pops exactly the visited counters of a leaf segment |
| `Segments.CreateInner` | crates/starknet-os/src/io/classes.rs:125-184 | builds the structure of a part of the bytecode and consumes its visited counters, exactly when the part fits |
| `Segments.CreateBytecodeSegmentStructure` | crates/starknet-os/src/io/classes.rs:198-225 | succeeds exactly when the lengths add up, all counters are in range, and each segment with a visited counter has its first one visited |
| `Segments.AllVisitedValid` | crates/starknet-os/src/io/classes.rs:198-225 | without a list of visited counters the lengths alone decide |
| `Segments.LeavesConcatenate` | crates/starknet-os/src/io/classes.rs:125-184 | the leaves of the structure, in order, are the bytecode |
| `Segments.BuildLengthsRight` | crates/starknet-os/src/io/classes.rs:146-182 | every segment records the length of what it holds |
| `Segments.AddBytecodeWithSkippedSegments` | crates/starknet-os/src/starknet/core/os/contract_class/compiled_class_hash_objects.rs:75-87 | appends the bytecode with unused segments left out, failing exactly if one of them is empty |
| `Segments.SkippedLoads` | crates/starknet-os/src/starknet/core/os/contract_class/compiled_class_hash_objects.rs:75-87 | the result has the length of the bytecode and in each cell the word or the placeholder that belongs there |
| `Segments.VisitedLoaded` | crates/starknet-os/src/starknet/core/os/contract_class/compiled_class_hash_objects.rs:75-87 | every visited counter finds its own instruction |
| `Segments.NonemptySkippable` | crates/starknet-os/src/starknet/core/os/contract_class/compiled_class_hash_objects.rs:75-87 | with no empty segment nothing fails |
| `Segments.EmptyNotSkippable` | crates/starknet-os/src/starknet/core/os/contract_class/compiled_class_hash_objects.rs:75-87 | an empty segment always fails |
| `Replay.GenCallTopology` | crates/starknet-os/src/execution/helper.rs:324-335 | the loop yields a call and its inner calls in preorder |
| `Replay.GenCallIterator` | crates/starknet-os/src/execution/helper.rs:286-316 | the calls of a transaction are those of its parts, one after the other |
| `Replay.PreorderIsDepthFirst` | crates/starknet-os/src/execution/helper.rs:324-335 | that is the order of a depth-first walk with a stack |
| `Replay.ExecutionHelper.StartTx` | crates/starknet-os/src/execution/helper.rs:159-166 | takes the next transaction, exactly when none is open |
| `Replay.ExecutionHelper.EndTx` | crates/starknet-os/src/execution/helper.rs:167-173 | closes the transaction, exactly when all its calls were entered |
| `Replay.ExecutionHelper.EnterCall` | crates/starknet-os/src/execution/helper.rs:178-217 | enters the next call and offers its results, addresses and values, exactly when nothing is left of the previous one |
| `Replay.ExecutionHelper.ExitCall` | crates/starknet-os/src/execution/helper.rs:218-224 | leaves the call, exactly when all it offered was consumed |
| `Replay.RunBalanced` | crates/starknet-os/src/execution/helper.rs:159-224 | over every run, what was handed over and what is left make up what the calls entered offer |
| `Replay.CompleteRun` | crates/starknet-os/src/execution/helper.rs:159-224 | whenever nothing is open, the transactions started so far were replayed completely, calls in preorder and all they offer in that order |
| `Replay.ResultsOfCalls` | crates/starknet-os/src/execution/helper.rs:202-212 | there is one result for each call that is not outermost |
| `Replay.ConsumingTakes` | crates/starknet-os/src/execution/syscall_handler.rs:211-234 | syscalls take results, addresses and values from the front, in order |
| `Replay.DeployPairing` | crates/starknet-os/src/execution/syscall_handler.rs:265-329 | a replayed call can be left exactly when none of its constructors failed, and then each deploy got its own address and result |
| `Replay.MispairedAfterFailure` | crates/starknet-os/src/execution/syscall_handler.rs:265-329 | after a failed constructor the next deploy gets the address of the failed one |
| `Syscalls.PutExact` | crates/starknet-os/src/execution/syscall_handler_utils.rs:143-155 | values can be written exactly where cells are free or hold them already, and nothing else changes |
| `Syscalls.SyscallHandler.RunHandler` | crates/starknet-os/src/execution/syscall_handler_utils.rs:293-340 | one request is answered by the frame of its kind, or fails with it |
| `Syscalls.SyscallHandler.ExecuteSyscall` | crates/starknet-os/src/execution/syscall_handler.rs:99-195 | the selector chooses the handler and its price, and the pointer ends behind the answer |
| `Syscalls.SyscallHandler.ValidateAndDiscardSyscallPtr` | crates/starknet-os/src/execution/syscall_handler.rs:91-97 | accepts exactly the pointer where the handler stopped |
| `Syscalls.FrameWritten` | crates/starknet-os/src/execution/syscall_handler_utils.rs:293-340 | a frame adds its answer and the data it loads and nothing else, exactly when the cells of the answer allow it |
| `Syscalls.EarlyExitFails` | crates/starknet-os/src/execution/syscall_handler_utils.rs:312-317 | running out of gas on the fixed price fails on a request whose first cell is not the gas counter |
| `Syscalls.RunTiles` | crates/starknet-os/src/execution/syscall_handler.rs:99-195 | the pointer walks over the frames of a run without gaps |
| `Syscalls.AnswersDisjoint` | crates/starknet-os/src/execution/syscall_handler_utils.rs:293-340 | no cell is part of two answers, however the syscalls end |
| `Syscalls.RequestsUntouchedExactly` | crates/starknet-os/src/execution/syscall_handler_utils.rs:312-319 | over a run no request cell is answered into if and only if every syscall with a request has the gas for its fixed price |
| `Syscalls.RunKeeps` | crates/starknet-os/src/execution/syscall_handler_utils.rs:143-155 | a run changes no cell, and all its frames are in memory in the end |
| `Syscalls.RunWrites` | crates/starknet-os/src/execution/syscall_handler_utils.rs:293-340 | in the segments there were, exactly the answers and the program's own writes are added |
| `Syscalls.RunReplays` | crates/starknet-os/src/execution/syscall_handler.rs:197-613 | the syscalls of a run are a run of the replay |
| `Syscalls.AnswerIsReplayed` | crates/starknet-os/src/execution/syscall_handler.rs:211-350 | an answer says what the replay handed over: return data, error data, the deployed address or the value read |
| `Syscalls.FrameGas` | crates/starknet-os/src/execution/syscall_handler_utils.rs:304-325 | a syscall costs its fixed price, the gas of the call it replays and its rounds of hashing |
| `Syscalls.GasConserved` | crates/starknet-os/src/execution/syscall_handler_utils.rs:293-340 | over a run, the gas counters add up to the gas returned, the fixed prices, the replayed calls and the rounds of hashing |
| `Syscalls.GasOfCall` | crates/starknet-os/src/execution/syscall_handler.rs:211-234 | in a call whose inner calls were all replayed, the calls' share is the gas of those inner calls |
| `Syscalls.DeploysAnswered` | crates/starknet-os/src/execution/syscall_handler.rs:265-350 | if no constructor failed, every deploy syscall of a run was answered with its own address and data, and the call can be left |
| `OsOutput.PackExact` | crates/starknet-os/src/io/output.rs:138-160 | the packed word determines class flag, nonce and count, and is determined by them |
| `OsOutput.ParseExact` | crates/starknet-os/src/io/output.rs:265-313 | exactly the encoded records are accepted, and reading stops exactly at their end |
| `OsOutput.ToMapKeepsAll` | crates/starknet-os/src/io/output.rs:172-189 | with distinct keys no storage change is lost |
| `OsOutput.FeltIterator.NextAsUsize` | crates/starknet-os/src/io/output.rs:129-135 | takes the next felt, exactly when there is one and it fits |
| `OsOutput.FeltIterator.ReadSegment` | crates/starknet-os/src/io/output.rs:247-262 | takes exactly n felts, or fails |
| `OsOutput.DeserializeDaChanges` | crates/starknet-os/src/io/output.rs:172-189 | reads the changes that the grammar describes and leaves what follows |
| `OsOutput.DeserializeContractStateInner` | crates/starknet-os/src/io/output.rs:138-169 | reads one contract in either output mode |
| `OsOutput.DeserializeContractState` | crates/starknet-os/src/io/output.rs:192-204 | reads all contracts and keeps those the source keeps |
| `OsOutput.DeserializeContractClassDaChanges` | crates/starknet-os/src/io/output.rs:207-225 | reads the class changes |
| `OsOutput.DeserializeOsOutput` | crates/starknet-os/src/io/output.rs:265-313 | the reader agrees with the grammar on success, on the output and on what is left |
| `OsOutput.RoundTrip` | crates/starknet-os/src/io/output.rs:265-313 | an encoded record followed by anything is read back, and what follows is left alone |

## Findings

Four places where the code does less than its callers may expect. Each has a lemma with the failing
input and one with the exact condition.

- **Deploy after a failed constructor.** `DeployHandler` takes an address from the list of deployed
  contracts only for constructors that succeed, while the list has an entry for each constructor. After
  a failure the next deploy is answered with the address of the failed one
  (`Replay.MispairedAfterFailure`), and the call cannot be left. It can be left, with every address
  right, exactly when no constructor failed (`Replay.DeployPairing`).
- **Early out-of-gas answer.** When the gas counter is below the fixed price, `run_handler` writes the
  failure right behind the counter, over the cells of the request it did not skip. The write fails
  unless the first of them holds the counter itself (`Syscalls.EarlyExitFails`). Requests stay untouched
  over a run exactly when every syscall with a request has the gas for its fixed price
  (`Syscalls.RequestsUntouchedExactly`).
- **Paths of differences above height 64.** The path of a difference is a 64-bit number that is shifted
  once per level, so in trees of height 251 differences at distinct indices can get one path
  (`TreeDiff.WideTrees`). The differences are exact for all trees of a height exactly when it is at most
  64 (`TreeDiff.ExactUpTo64`). At height 0 a pair is reported even if it is equal
  (`TreeDiff.DiffOfTrees`).
- **Empty segments.** A segment of length 0 contains no visited counter, so it counts as unused, and
  leaving it out fails (`Segments.EmptyNotSkippable`). Without empty segments nothing fails
  (`Segments.NonemptySkippable`); `Segments.AddBytecodeWithSkippedSegments` has the exact condition.

## Left out

- Locks, asynchronous execution and the sharing of one helper between hints; each method is one atomic step.
- The encoding of facts in the database, their prefixes, and reading a fact that does not decode.
- The hash functions themselves (Pedersen, Poseidon, Keccak, SHA-256), elliptic-curve syscalls and the KZG commitment; the syscalls for curves and SHA-256 have an arbitrary outcome.
- Fetching proofs over RPC, merging the proofs of two requests, and proofs of classes.
- The class tree and the global state root that combines it with the contract tree.
- Hashing bytecode segments and compiled classes, and writing classes to memory.
- The class hash of a deprecated class and the conversion of transactions between the two APIs.
- The felt tuples of the commitment facts: the dictionary is modelled on facts, not on the felts they are written as.
- Parsing a syscall selector from its ASCII name; a selector is taken as its kind.
- Deprecated syscalls, whose handler does not meter gas.
- Relocation of temporary segments after a run; a temporary segment is a new segment.
- Arithmetic overflow of `usize` lengths and offsets beyond the checks the code makes.
- ContractStorage.CommitThenDescend: assumes that no stored fact has the empty hash as its key or is an edge of length 0, because the code never writes one; `PatriciaTree.Update` keeps that.
- Segments.CreateBytecodeSegmentStructure: assumes that the list of visited counters is strictly descending, as the caller sorts it.
- FourierTransform.SpectrumIsValue: covers non-negative coefficients, because the code's coefficients are felts.
