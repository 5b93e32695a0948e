/** The storage of one contract during execution: changes on top of a committed tree. */
module ContractStorage {
  import opened Basics
  import opened UpdateTrees
  import opened Patricia
  import opened VirtualNodes
  import opened VirtualCalculations
  import opened PatriciaTree
  import opened CommitmentFacts
  import D = Descents

  datatype StorageLeaf = StorageLeaf(value: nat)

  /** A storage value is its own hash, and zero is the empty leaf. */
  function StorageLeafOps(): LeafOps<StorageLeaf> {
    LeafOps((x: StorageLeaf) => if x.value == 0 then EMPTY else x.value, (x: StorageLeaf) => x.value == 0)
  }

  /** The entries of a map, in any order. */
  method EntriesOf<LF>(m: map<nat, LF>) returns (entries: seq<Modification<LF>>)
    ensures Collect(entries) == m
  {
    entries := [];
    var todo := m.Keys;
    while todo != {}
      invariant todo <= m.Keys
      invariant Collect(entries) == map k | k in m.Keys - todo :: m[k]
      decreases |todo|
    {
      var k :| k in todo;
      assert (entries + [(k, m[k])])[..|entries|] == entries;
      entries := entries + [(k, m[k])];
      todo := todo - {k};
    }
  }

  predicate KeysBelow<LF>(m: map<nat, LF>, bound: nat) {
    forall k | k in m :: k < bound
  }

  lemma EntriesInRange<LF>(entries: seq<Modification<LF>>, height: nat)
    ensures InRange(height, entries) <==> KeysBelow(Collect(entries), Pow2(height))
  {
    CollectKeys(entries);
  }

  /** The two roots between which the OS proves a contract's storage update, and the facts to do so. */
  datatype CommitmentInfo = CommitmentInfo(previousRoot: Hash, updatedRoot: Hash, treeHeight: nat,
                                           commitmentFacts: Store)

  /** `info` has the facts to walk down both trees to the modified leaves. */
  ghost predicate FactsSuffice<LF>(H: HashFunction, leaf: LeafOps<LF>, open: Hash -> Fact, g: nat -> LF,
                                   m: map<nat, LF>, info: CommitmentInfo) {
    && D.RootKnown(info.commitmentFacts, TreeWith(H, leaf, g), open, m, info.treeHeight, info.previousRoot)
    && D.RootKnown(info.commitmentFacts, TreeWith(H, leaf, Overlaid(g, m)), open, m, info.treeHeight, info.updatedRoot)
  }

  /** `info` commits to the leaves `g` overlaid with `m`; if the storage was `sane`, with sufficient facts. */
  ghost predicate Commits<LF>(H: HashFunction, leaf: LeafOps<LF>, open: Hash -> Fact, g: nat -> LF, m: map<nat, LF>,
                              height: nat, root: Hash, sane: bool, info: CommitmentInfo) {
    && info.previousRoot == root && info.treeHeight == height
    && info.updatedRoot == RootOf(H, leaf, Overlaid(g, m), height)
    && (sane ==> FactsSuffice(H, leaf, open, g, m, info))
  }

  method CreateFromModifications<LF(!new)>(
      H: HashFunction, leaf: LeafOps<LF>, storage: FactStorage<LF>, previousRoot: Hash, height: nat,
      expectedUpdatedRoot: Option<Hash>, modifications: seq<Modification<LF>>,
      ghost g: nat -> LF, ghost open: Hash -> Fact, ghost openLeaf: Hash -> LF)
    returns (r: Result<CommitmentInfo>)
    modifies storage
    ensures !InRange(height, modifications) ==> r.Err?
    ensures old(UpdateReady(H, leaf, open, openLeaf, storage.nodes, storage.leaves, g, height, previousRoot,
                            modifications))
      ==> var root := RootOf(H, leaf, Modified(g, modifications), height);
          && (r.Ok? <==> expectedUpdatedRoot.None? || expectedUpdatedRoot.value == root)
          && (r.Ok? ==> Commits(H, leaf, open, g, Collect(modifications), height, previousRoot,
                                old(Sane(storage.nodes)), r.value))
  {
    ghost var nodes, leaves := storage.nodes, storage.leaves;
    var root, facts :- Update(H, leaf, storage, previousRoot, height, modifications, g, open, openLeaf);
    if expectedUpdatedRoot.Some? && root != expectedUpdatedRoot.value {
      return Err;
    }
    r := Ok(CommitmentInfo(previousRoot, root, height, facts));
    if UpdateReady(H, leaf, open, openLeaf, nodes, leaves, g, height, previousRoot, modifications) && Sane(nodes) {
      ghost var hashes :| Gathered(H, leaf, nodes, previousRoot, height, Collect(modifications), hashes, facts);
      GatheredSuffice(H, leaf, open, openLeaf, nodes, leaves, g, height, previousRoot, modifications, hashes, facts);
    }
  }

  /** The facts of a commitment let the OS find all descents of its update. */
  method CommitThenDescend<LF(!new, ==)>(
      H: HashFunction, leaf: LeafOps<LF>, storage: FactStorage<LF>, previousRoot: Hash, height: nat,
      modifications: seq<Modification<LF>>, ghost g: nat -> LF, ghost open: Hash -> Fact, ghost openLeaf: Hash -> LF)
    returns (r: Result<D.DescentMap>)
    modifies storage
    ensures old(Sane(storage.nodes))
            && old(UpdateReady(H, leaf, open, openLeaf, storage.nodes, storage.leaves, g, height, previousRoot,
                               modifications))
      ==> r == Ok(D.Found(Collect(modifications), TreeWith(H, leaf, g), TreeWith(H, leaf, Modified(g, modifications)),
                          height, 0))
  {
    var info :- CreateFromModifications(H, leaf, storage, previousRoot, height, None, modifications, g, open, openLeaf);
    var update :- BuildUpdateTree(height, modifications);
    r := D.PatriciaGuessDescents(info.treeHeight, update, info.commitmentFacts, info.previousRoot, info.updatedRoot,
                                 TreeWith(H, leaf, g), TreeWith(H, leaf, Modified(g, modifications)), open,
                                 Collect(modifications));
  }

  /** The tree is stored, the keys of the changes are in range, and no facts collide. */
  ghost predicate CommitReady<LF>(
      H: HashFunction, leaf: LeafOps<LF>, open: Hash -> Fact, openLeaf: Hash -> LF, nodes: Store, leaves: map<Hash, LF>,
      g: nat -> LF, height: nat, root: Hash, m: map<nat, LF>) {
    && TreeStored(H, leaf, nodes, leaves, g, height, root) && EmptyLeafStored(leaf, leaves, openLeaf)
    && KeysBelow(m, Pow2(height))
    && NoCollisions(H, leaf, open, openLeaf, g, height)
    && NoCollisions(H, leaf, open, openLeaf, Overlaid(g, m), height)
  }

  lemma CommitUpdates<LF>(
      H: HashFunction, leaf: LeafOps<LF>, open: Hash -> Fact, openLeaf: Hash -> LF, nodes: Store, leaves: map<Hash, LF>,
      g: nat -> LF, height: nat, root: Hash, m: map<nat, LF>, entries: seq<Modification<LF>>)
    requires Collect(entries) == m && CommitReady(H, leaf, open, openLeaf, nodes, leaves, g, height, root, m)
    ensures UpdateReady(H, leaf, open, openLeaf, nodes, leaves, g, height, root, entries)
  {
    EntriesInRange(entries, height);
  }

  method CommitChanges<LF(!new)>(
      H: HashFunction, leaf: LeafOps<LF>, storage: FactStorage<LF>, previousRoot: Hash, height: nat,
      expectedUpdatedRoot: Hash, changes: map<nat, LF>,
      ghost g: nat -> LF, ghost open: Hash -> Fact, ghost openLeaf: Hash -> LF)
    returns (r: Result<CommitmentInfo>)
    modifies storage
    ensures !KeysBelow(changes, Pow2(height)) ==> r.Err?
    ensures old(CommitReady(H, leaf, open, openLeaf, storage.nodes, storage.leaves, g, height, previousRoot, changes))
      ==> var root := RootOf(H, leaf, Overlaid(g, changes), height);
          && (r.Ok? <==> root == expectedUpdatedRoot)
          && (r.Ok? ==> Commits(H, leaf, open, g, changes, height, previousRoot, old(Sane(storage.nodes)), r.value))
  {
    ghost var nodes, leaves := storage.nodes, storage.leaves;
    var modifications := EntriesOf(changes);
    EntriesInRange(modifications, height);
    if CommitReady(H, leaf, open, openLeaf, nodes, leaves, g, height, previousRoot, changes) {
      CommitUpdates(H, leaf, open, openLeaf, nodes, leaves, g, height, previousRoot, changes, modifications);
    }
    r := CreateFromModifications(H, leaf, storage, previousRoot, height, Some(expectedUpdatedRoot), modifications,
                                 g, open, openLeaf);
  }

  // ----- Commitments from an expected tree -----

  ghost function Accessed<LF>(expected: nat -> LF, indices: seq<nat>): map<nat, LF> {
    map k | k in indices :: expected(k)
  }

  /** Both trees are stored, and neither they nor the mixture of the two have colliding facts. */
  ghost predicate BothStored<LF>(
      H: HashFunction, leaf: LeafOps<LF>, open: Hash -> Fact, openLeaf: Hash -> LF, nodes: Store, leaves: map<Hash, LF>,
      g: nat -> LF, expected: nat -> LF, height: nat, root: Hash, expectedRoot: Hash, indices: seq<nat>) {
    && CommitReady(H, leaf, open, openLeaf, nodes, leaves, g, height, root, Accessed(expected, indices))
    && TreeStored(H, leaf, nodes, leaves, expected, height, expectedRoot)
    && NoCollisions(H, leaf, open, openLeaf, expected, height)
  }

  /** The trees agree outside the accessed indices. */
  ghost predicate AgreeElsewhere<LF>(g: nat -> LF, expected: nat -> LF, height: nat, indices: seq<nat>) {
    forall k: nat | k < Pow2(height) && k !in indices :: g(k) == expected(k)
  }

  lemma MixtureRoot<LF>(
      H: HashFunction, leaf: LeafOps<LF>, open: Hash -> Fact, openLeaf: Hash -> LF, nodes: Store, leaves: map<Hash, LF>,
      g: nat -> LF, expected: nat -> LF, height: nat, root: Hash, expectedRoot: Hash, indices: seq<nat>)
    requires BothStored(H, leaf, open, openLeaf, nodes, leaves, g, expected, height, root, expectedRoot, indices)
    ensures AllBelow(indices, Pow2(height))
    ensures RootOf(H, leaf, Overlaid(g, Accessed(expected, indices)), height) == expectedRoot
       <==> AgreeElsewhere(g, expected, height, indices)
  {
    var m := Accessed(expected, indices);
    assert forall k | 0 <= k < |indices| :: indices[k] in m;
    RootBindsLeaves(H, leaf, open, openLeaf, Overlaid(g, m), expected, height);
  }

  /** The commitment between two given trees; it exists exactly when they have the same height and
      agree on all leaves that are not among the accessed ones. */
  method CreateFromExpectedUpdatedTree<LF(!new)>(
      H: HashFunction, leaf: LeafOps<LF>, storage: FactStorage<LF>, previousRoot: Hash, previousHeight: nat,
      expectedRoot: Hash, expectedHeight: nat, indices: seq<nat>,
      ghost g: nat -> LF, ghost expected: nat -> LF, ghost open: Hash -> Fact, ghost openLeaf: Hash -> LF)
    returns (r: Result<CommitmentInfo>)
    modifies storage
    ensures previousHeight != expectedHeight ==> r.Err?
    ensures previousHeight == expectedHeight
            && old(BothStored(H, leaf, open, openLeaf, storage.nodes, storage.leaves, g, expected, previousHeight,
                              previousRoot, expectedRoot, indices))
      ==> && (r.Ok? <==> AgreeElsewhere(g, expected, previousHeight, indices))
          && (r.Ok? ==> r.value.updatedRoot == expectedRoot
                        && Commits(H, leaf, open, g, Accessed(expected, indices), previousHeight, previousRoot,
                                   old(Sane(storage.nodes)), r.value))
  {
    if previousHeight != expectedHeight {
      return Err;
    }
    if BothStored(H, leaf, open, openLeaf, storage.nodes, storage.leaves, g, expected, previousHeight, previousRoot,
                  expectedRoot, indices) {
      MixtureRoot(H, leaf, open, openLeaf, storage.nodes, storage.leaves, g, expected, previousHeight, previousRoot,
                  expectedRoot, indices);
    }
    var modifications :- GetTreeLeaves(leaf, storage, expectedRoot, expectedHeight, indices, H, expected, open,
                                       openLeaf);
    r := CommitChanges(H, leaf, storage, previousRoot, previousHeight, expectedRoot, modifications, g, open, openLeaf);
  }

  class OsSingleStarknetStorage {
    const H: HashFunction
    const height: nat
    const previousRoot: Hash
    const expectedUpdatedRoot: Hash
    const leaf: LeafOps<StorageLeaf>
    const storage: FactStorage<StorageLeaf>
    var changes: map<nat, StorageLeaf>
    ghost const previous: nat -> StorageLeaf
    ghost const open: Hash -> Fact
    ghost const openLeaf: Hash -> StorageLeaf

    /** The previous tree is stored, and its facts do not collide. */
    ghost predicate Valid()
      reads this, storage
    {
      && TreeStored(H, leaf, storage.nodes, storage.leaves, previous, height, previousRoot)
      && EmptyLeafStored(leaf, storage.leaves, openLeaf)
      && NoCollisions(H, leaf, open, openLeaf, previous, height)
    }

    /** What a contract sees under each key. */
    ghost function View(): nat -> StorageLeaf
      reads this
    {
      Overlaid<StorageLeaf>(previous, changes)
    }

    constructor (H: HashFunction, height: nat, previousRoot: Hash, expectedUpdatedRoot: Hash,
                 storage: FactStorage<StorageLeaf>, initial: map<nat, StorageLeaf>,
                 ghost previous: nat -> StorageLeaf, ghost open: Hash -> Fact, ghost openLeaf: Hash -> StorageLeaf)
      ensures this.H == H && this.height == height && this.previousRoot == previousRoot
      ensures this.expectedUpdatedRoot == expectedUpdatedRoot && this.storage == storage && changes == initial
      ensures this.leaf == StorageLeafOps() && this.previous == previous && this.open == open
              && this.openLeaf == openLeaf
    {
      this.H, this.height, this.previousRoot, this.expectedUpdatedRoot := H, height, previousRoot, expectedUpdatedRoot;
      this.leaf, this.storage, this.changes := StorageLeafOps(), storage, initial;
      this.previous, this.open, this.openLeaf := previous, open, openLeaf;
    }

    /** The value under a key, remembered once it has been read. */
    method Read(key: nat) returns (r: Result<StorageLeaf>)
      modifies this
      ensures old(Valid()) && key < Pow2(height) ==>
        && r == Ok(old(View()(key))) && Valid()
        && changes == old(changes)[key := r.value]
    {
      if key in changes {
        return Ok(changes[key]);
      }
      var leaves :- GetTreeLeaves(leaf, storage, previousRoot, height, [key], H, previous, open, openLeaf);
      if key !in leaves {
        return Err;
      }
      changes := changes[key := leaves[key]];
      r := Ok(leaves[key]);
    }

    method Write(key: nat, value: StorageLeaf)
      modifies this
      ensures changes == old(changes)[key := value] && (old(Valid()) ==> Valid())
    {
      changes := changes[key := value];
    }

    ghost predicate CanCommit()
      reads this, storage
    {
      CommitReady<StorageLeaf>(H, leaf, open, openLeaf, storage.nodes, storage.leaves, previous, height, previousRoot,
                               changes)
    }

    ghost function UpdatedRoot(): Hash
      reads this
    {
      RootOf<StorageLeaf>(H, leaf, View(), height)
    }

    /** Commits what was read and written. */
    method ComputeCommitment() returns (r: Result<CommitmentInfo>)
      modifies storage
      ensures !KeysBelow(changes, Pow2(height)) ==> r.Err?
      ensures old(CanCommit()) ==>
        && (r.Ok? <==> UpdatedRoot() == expectedUpdatedRoot)
        && (r.Ok? ==> Commits<StorageLeaf>(H, leaf, open, previous, changes, height, previousRoot,
                                           old(Sane(storage.nodes)), r.value))
    {
      r := CommitChanges<StorageLeaf>(H, leaf, storage, previousRoot, height, expectedUpdatedRoot, changes,
                         previous, open, openLeaf);
    }
  }

  /** Opens the storage of a contract, with the values at the given keys read ahead. */
  method NewStorage(H: HashFunction, height: nat, previousRoot: Hash, updatedRoot: Hash,
                    storage: FactStorage<StorageLeaf>, accessed: seq<nat>,
                    ghost g: nat -> StorageLeaf, ghost open: Hash -> Fact, ghost openLeaf: Hash -> StorageLeaf)
    returns (r: Result<OsSingleStarknetStorage>)
    ensures TreeStored(H, StorageLeafOps(), storage.nodes, storage.leaves, g, height, previousRoot)
            && EmptyLeafStored(StorageLeafOps(), storage.leaves, openLeaf)
            && NoCollisions(H, StorageLeafOps(), open, openLeaf, g, height) && AllBelow(accessed, Pow2(height)) ==>
      r.Ok? && fresh(r.value) && r.value.Valid() && r.value.changes == map k | k in accessed :: g(k)
  {
    var leaf := StorageLeafOps();
    var initial :- GetTreeLeaves(leaf, storage, previousRoot, height, accessed, H, g, open, openLeaf);
    var overlay := new OsSingleStarknetStorage(H, height, previousRoot, updatedRoot, storage, initial, g, open,
                                               openLeaf);
    r := Ok(overlay);
  }

  // ----- Sequences of reads and writes -----

  datatype Access = Read(key: nat) | Write(key: nat, value: StorageLeaf)

  /** The changes after an access, as the two operations leave them. */
  ghost function After(g: nat -> StorageLeaf, m: map<nat, StorageLeaf>, a: Access): map<nat, StorageLeaf> {
    match a
    case Read(key) => m[key := Overlaid(g, m)(key)]
    case Write(key, value) => m[key := value]
  }

  ghost function AfterAll(g: nat -> StorageLeaf, m: map<nat, StorageLeaf>, run: seq<Access>): map<nat, StorageLeaf> {
    if run == [] then m else After(g, AfterAll(g, m, run[..|run| - 1]), run[|run| - 1])
  }

  /** The last value written to each key. */
  function Written(run: seq<Access>): map<nat, StorageLeaf> {
    if run == [] then map[]
    else
      var last := run[|run| - 1];
      var before := Written(run[..|run| - 1]);
      if last.Write? then before[last.key := last.value] else before
  }

  /** The changes so far agree with the tree wherever nothing was written. */
  ghost predicate Faithful(g: nat -> StorageLeaf, m: map<nat, StorageLeaf>) {
    forall k | k in m :: m[k] == g(k)
  }

  /** Whatever was read in between, a key has the last value written to it, else its leaf. */
  lemma {:induction false} ReadsSeeLastWrite(g: nat -> StorageLeaf, m: map<nat, StorageLeaf>, run: seq<Access>, k: nat)
    requires Faithful(g, m)
    ensures Overlaid(g, AfterAll(g, m, run))(k) == Overlaid(g, Written(run))(k)
    decreases |run|
  {
    if run != [] {
      ReadsSeeLastWrite(g, m, run[..|run| - 1], k);
    }
  }

  /** Committing all that was read or written gives the root of the tree with the writes alone. */
  lemma ReadsDoNotChangeRoot(H: HashFunction, leaf: LeafOps<StorageLeaf>, g: nat -> StorageLeaf,
                             m: map<nat, StorageLeaf>, run: seq<Access>, height: nat)
    requires Faithful(g, m)
    ensures RootOf(H, leaf, Overlaid(g, AfterAll(g, m, run)), height)
            == RootOf(H, leaf, Overlaid(g, Written(run)), height)
  {
    var all, writes := Overlaid(g, AfterAll(g, m, run)), Overlaid(g, Written(run));
    forall k: nat | k < Pow2(height)
      ensures all(k) == writes(k)
    {
      ReadsSeeLastWrite(g, m, run, k);
    }
    LeavesDetermineRoot(H, leaf, all, writes, height);
  }

  /** The commitment has the expected root exactly when the writes lead to the expected leaves. */
  lemma CommitmentMatches(H: HashFunction, leaf: LeafOps<StorageLeaf>, open: Hash -> Fact,
                          openLeaf: Hash -> StorageLeaf,
                          g: nat -> StorageLeaf, m: map<nat, StorageLeaf>, run: seq<Access>,
                          expected: nat -> StorageLeaf, height: nat)
    requires Faithful(g, m)
    requires NoCollisions(H, leaf, open, openLeaf, Overlaid(g, AfterAll(g, m, run)), height)
    requires NoCollisions(H, leaf, open, openLeaf, expected, height)
    ensures RootOf(H, leaf, Overlaid(g, AfterAll(g, m, run)), height) == RootOf(H, leaf, expected, height)
       <==> forall k: nat | k < Pow2(height) :: expected(k) == Overlaid(g, Written(run))(k)
  {
    var all := Overlaid(g, AfterAll(g, m, run));
    RootBindsLeaves(H, leaf, open, openLeaf, all, expected, height);
    forall k: nat
      ensures all(k) == Overlaid(g, Written(run))(k)
    {
      ReadsSeeLastWrite(g, m, run, k);
    }
  }
}
