/** The state of all contracts: a tree of contract states, each with the root of a storage tree. */
module SharedState {
  import opened Basics
  import opened UpdateTrees
  import opened Patricia
  import opened VirtualNodes
  import opened VirtualCalculations
  import opened PatriciaTree
  import opened ContractStorage

  datatype ContractState = ContractState(classHash: nat, storageRoot: Hash, nonce: nat)

  const UNINITIALIZED_CLASS_HASH: nat := 0
  const CONTRACT_STATE_HASH_VERSION: nat := 0

  predicate IsEmptyState(x: ContractState) {
    x.storageRoot == EMPTY && x.classHash == UNINITIALIZED_CLASS_HASH && x.nonce == 0
  }

  function StateHash(hash2: (nat, nat) -> Hash, x: ContractState): Hash {
    if IsEmptyState(x) then EMPTY
    else hash2(hash2(hash2(x.classHash, x.storageRoot), x.nonce), CONTRACT_STATE_HASH_VERSION)
  }

  function ContractLeafOps(hash2: (nat, nat) -> Hash): LeafOps<ContractState> {
    LeafOps((x: ContractState) => StateHash(hash2, x), (x: ContractState) => IsEmptyState(x))
  }

  /** How trees are hashed, and their height. */
  datatype Scheme = Scheme(
    H: HashFunction, storage: LeafOps<StorageLeaf>, contract: LeafOps<ContractState>, height: nat)

  /** Inverses of the hashes, which exist as long as there are no collisions. */
  datatype Openings = Openings(fact: Hash -> Fact, storage: Hash -> StorageLeaf, contract: Hash -> ContractState)

  // ----- What the state means -----

  datatype Contract = Contract(classHash: nat, nonce: nat, storage: nat -> StorageLeaf)

  type World = nat -> Contract

  ghost function StateOf(s: Scheme, c: Contract): ContractState {
    ContractState(c.classHash, RootOf(s.H, s.storage, c.storage, s.height), c.nonce)
  }

  ghost predicate StorageStored(s: Scheme, nodes: Store, leaves: map<Hash, StorageLeaf>, c: Contract) {
    TreeStored(s.H, s.storage, nodes, leaves, c.storage, s.height, RootOf(s.H, s.storage, c.storage, s.height))
  }

  ghost predicate StorageSound(s: Scheme, o: Openings, c: Contract) {
    NoCollisions(s.H, s.storage, o.fact, o.storage, c.storage, s.height)
  }

  ghost predicate InTree(s: Scheme, a: nat) {
    a < Pow2(s.height)
  }

  /** `states` are the leaves of the contract tree for this world. */
  ghost predicate Represents(s: Scheme, states: nat -> ContractState, world: World) {
    forall a: nat {:trigger InTree(s, a)} | InTree(s, a) :: states(a) == StateOf(s, world(a))
  }

  ghost predicate AllStored(s: Scheme, nodes: Store, leaves: map<Hash, StorageLeaf>, world: World) {
    forall a: nat {:trigger InTree(s, a)} | InTree(s, a) :: StorageStored(s, nodes, leaves, world(a))
  }

  ghost predicate AllSound(s: Scheme, o: Openings, world: World) {
    forall a: nat {:trigger InTree(s, a)} | InTree(s, a) :: StorageSound(s, o, world(a))
  }

  // ----- Updating one contract -----

  function LeavesOf(updates: map<nat, nat>): map<nat, StorageLeaf> {
    map k | k in updates :: StorageLeaf(updates[k])
  }

  function OrElse<T>(o: Option<T>, x: T): T {
    if o.Some? then o.value else x
  }

  ghost function UpdatedContract(c: Contract, updates: map<nat, nat>, nonce: Option<nat>, classHash: Option<nat>)
    : Contract
  {
    Contract(OrElse(classHash, c.classHash), OrElse(nonce, c.nonce), Overlaid(c.storage, LeavesOf(updates)))
  }

  /** What updating a contract assumes. */
  ghost predicate ContractReady(s: Scheme, o: Openings, nodes: Store, leaves: map<Hash, StorageLeaf>, c: Contract,
                                updates: map<nat, nat>) {
    && StorageStored(s, nodes, leaves, c) && EmptyLeafStored(s.storage, leaves, o.storage)
    && KeysBelow(updates, Pow2(s.height)) && StorageSound(s, o, c)
    && NoCollisions(s.H, s.storage, o.fact, o.storage, Overlaid(c.storage, LeavesOf(updates)), s.height)
  }

  /** What it guarantees: the new contract is stored, and nothing is lost. */
  ghost predicate ContractDone(s: Scheme, o: Openings, nodes: Store, leaves: map<Hash, StorageLeaf>, nodes': Store,
                               leaves': map<Hash, StorageLeaf>, c: Contract) {
    && StorageStored(s, nodes', leaves', c) && EmptyLeafStored(s.storage, leaves', o.storage)
    && NodesKept(s.H, o.fact, nodes, nodes') && LeavesKept(s.storage, o.storage, leaves, leaves')
  }

  method UpdateContract(s: Scheme, storage: FactStorage<StorageLeaf>, state: ContractState, updates: map<nat, nat>,
                        nonce: Option<nat>, classHash: Option<nat>, ghost c: Contract, ghost o: Openings)
    returns (r: Result<ContractState>)
    modifies storage
    ensures var c' := UpdatedContract(c, updates, nonce, classHash);
            state == StateOf(s, c) && old(ContractReady(s, o, storage.nodes, storage.leaves, c, updates)) ==>
              && r == Ok(StateOf(s, c'))
              && ContractDone(s, o, old(storage.nodes), old(storage.leaves), storage.nodes, storage.leaves, c')
  {
    ghost var nodes, leaves := storage.nodes, storage.leaves;
    var newClassHash := if classHash.Some? then classHash.value else state.classHash;
    var newNonce := if nonce.Some? then nonce.value else state.nonce;
    var modifications := EntriesOf(LeavesOf(updates));
    EntriesInRange(modifications, s.height);
    if state == StateOf(s, c) && ContractReady(s, o, nodes, leaves, c, updates) {
      assert KeysBelow(LeavesOf(updates), Pow2(s.height));
      assert UpdateReady(s.H, s.storage, o.fact, o.storage, nodes, leaves, c.storage, s.height, state.storageRoot,
                         modifications);
    }
    var root, _ :- Update(s.H, s.storage, storage, state.storageRoot, s.height, modifications, c.storage, o.fact,
                          o.storage);
    r := Ok(ContractState(newClassHash, root, newNonce));
  }

  // ----- Updating many contracts -----

  datatype Updates = Updates(classHashes: map<nat, nat>, nonces: map<nat, nat>, storage: map<nat, map<nat, nat>>)

  function Touched(u: Updates): set<nat> {
    u.classHashes.Keys + u.nonces.Keys + u.storage.Keys
  }

  function StorageUpdates(u: Updates, a: nat): map<nat, nat> {
    if a in u.storage then u.storage[a] else map[]
  }

  ghost function UpdatedAt(world: World, u: Updates, a: nat): Contract {
    UpdatedContract(world(a), StorageUpdates(u, a), Get(u.nonces, a), Get(u.classHashes, a))
  }

  /** The world after the updates; contracts that are not touched stay the same. */
  ghost function Applied(world: World, u: Updates): World {
    (a: nat) => if a in Touched(u) then UpdatedAt(world, u, a) else world(a)
  }

  ghost function Tabulate(f: nat -> ContractState, addresses: set<nat>): map<nat, ContractState> {
    map a | a in addresses :: f(a)
  }

  ghost function NewState(s: Scheme, world: World, u: Updates): nat -> ContractState {
    (a: nat) => StateOf(s, UpdatedAt(world, u, a))
  }

  ghost function NewStates(s: Scheme, world: World, u: Updates, done: set<nat>): map<nat, ContractState> {
    Tabulate(NewState(s, world, u), done)
  }

  predicate KeysInTree(u: Updates, bound: nat) {
    && (forall a | a in Touched(u) :: a < bound)
    && (forall a | a in u.storage :: KeysBelow(u.storage[a], bound))
  }

  lemma StorageStays(s: Scheme, o: Openings, nodes: Store, nodes': Store, leaves: map<Hash, StorageLeaf>,
                     leaves': map<Hash, StorageLeaf>, c: Contract)
    requires StorageStored(s, nodes, leaves, c) && StorageSound(s, o, c)
    requires NodesKept(s.H, o.fact, nodes, nodes') && LeavesKept(s.storage, o.storage, leaves, leaves')
    ensures StorageStored(s, nodes', leaves', c)
  {
    TreeStaysStored(s.H, s.storage, o.fact, o.storage, nodes, nodes', leaves, leaves', c.storage, s.height,
                    RootOf(s.H, s.storage, c.storage, s.height));
  }

  // ----- The storage while contracts are updated -----

  ghost predicate Member(addresses: set<nat>, a: nat) {
    a in addresses
  }

  /** What the updates of the contracts assume of the storage they start from. */
  ghost predicate ContractsReady(s: Scheme, o: Openings, nodes: Store, leaves: map<Hash, StorageLeaf>, world: World,
                                 states: nat -> ContractState, u: Updates) {
    && AllStored(s, nodes, leaves, world) && Represents(s, states, world) && KeysInTree(u, Pow2(s.height))
    && AllSound(s, o, world)
    && forall a: nat {:trigger Member(Touched(u), a)} | Member(Touched(u), a) ::
       StorageSound(s, o, UpdatedAt(world, u, a))
  }

  /** Nothing is lost between two storages. */
  ghost predicate Kept(s: Scheme, o: Openings, nodes: Store, leaves: map<Hash, StorageLeaf>, nodes': Store,
                       leaves': map<Hash, StorageLeaf>) {
    && NodesKept(s.H, o.fact, nodes, nodes') && LeavesKept(s.storage, o.storage, leaves, leaves')
    && EmptyLeafStored(s.storage, leaves', o.storage)
  }

  /** Starting from the storage `nodes0`, `leaves0`, the contracts of `done` have been updated. */
  ghost predicate Underway(s: Scheme, o: Openings, nodes0: Store, leaves0: map<Hash, StorageLeaf>, nodes: Store,
                           leaves: map<Hash, StorageLeaf>, world: World, u: Updates, done: seq<nat>) {
    if done == [] then Kept(s, o, nodes0, leaves0, nodes, leaves)
    else
      var n := |done| - 1;
      && done[n] in Touched(u) && StorageStored(s, nodes, leaves, UpdatedAt(world, u, done[n]))
      && Underway(s, o, nodes0, leaves0, nodes, leaves, world, u, done[..n])
  }

  lemma {:induction false} UnderwayKept(
      s: Scheme, o: Openings, nodes0: Store, leaves0: map<Hash, StorageLeaf>, nodes: Store,
      leaves: map<Hash, StorageLeaf>, world: World, u: Updates, done: seq<nat>)
    requires Underway(s, o, nodes0, leaves0, nodes, leaves, world, u, done)
    ensures Kept(s, o, nodes0, leaves0, nodes, leaves)
    decreases |done|
  {
    if done != [] {
      UnderwayKept(s, o, nodes0, leaves0, nodes, leaves, world, u, done[..|done| - 1]);
    }
  }

  lemma {:induction false} UnderwayStored(
      s: Scheme, o: Openings, nodes0: Store, leaves0: map<Hash, StorageLeaf>, nodes: Store,
      leaves: map<Hash, StorageLeaf>, world: World, u: Updates, done: seq<nat>, a: nat)
    requires Underway(s, o, nodes0, leaves0, nodes, leaves, world, u, done) && a in done
    ensures StorageStored(s, nodes, leaves, UpdatedAt(world, u, a))
    decreases |done|
  {
    if done[|done| - 1] != a {
      UnderwayStored(s, o, nodes0, leaves0, nodes, leaves, world, u, done[..|done| - 1], a);
    }
  }

  lemma UpdatedSound(s: Scheme, o: Openings, nodes: Store, leaves: map<Hash, StorageLeaf>, world: World,
                     states: nat -> ContractState, u: Updates, a: nat)
    requires ContractsReady(s, o, nodes, leaves, world, states, u) && a in Touched(u)
    ensures StorageSound(s, o, UpdatedAt(world, u, a)) && InTree(s, a) && StorageSound(s, o, world(a))
  {
    assert InTree(s, a);
    assert Member(Touched(u), a);
  }

  lemma NextReady(s: Scheme, o: Openings, nodes0: Store, leaves0: map<Hash, StorageLeaf>, nodes: Store,
                  leaves: map<Hash, StorageLeaf>, world: World, states: nat -> ContractState, u: Updates,
                  done: seq<nat>, a: nat)
    requires ContractsReady(s, o, nodes0, leaves0, world, states, u) && a in Touched(u)
    requires Underway(s, o, nodes0, leaves0, nodes, leaves, world, u, done)
    ensures ContractReady(s, o, nodes, leaves, world(a), StorageUpdates(u, a)) && states(a) == StateOf(s, world(a))
  {
    UpdatedSound(s, o, nodes0, leaves0, world, states, u, a);
    UnderwayKept(s, o, nodes0, leaves0, nodes, leaves, world, u, done);
    StorageStays(s, o, nodes0, nodes, leaves0, leaves, world(a));
  }

  lemma {:induction false} StaysUnderway(
      s: Scheme, o: Openings, nodes0: Store, leaves0: map<Hash, StorageLeaf>, nodes: Store,
      leaves: map<Hash, StorageLeaf>, nodes': Store, leaves': map<Hash, StorageLeaf>, world: World,
      states: nat -> ContractState, u: Updates, done: seq<nat>)
    requires ContractsReady(s, o, nodes0, leaves0, world, states, u) && Kept(s, o, nodes, leaves, nodes', leaves')
    requires Underway(s, o, nodes0, leaves0, nodes, leaves, world, u, done)
    ensures Underway(s, o, nodes0, leaves0, nodes', leaves', world, u, done)
    decreases |done|
  {
    if done != [] {
      var a := done[|done| - 1];
      StaysUnderway(s, o, nodes0, leaves0, nodes, leaves, nodes', leaves', world, states, u, done[..|done| - 1]);
      UpdatedSound(s, o, nodes0, leaves0, world, states, u, a);
      StorageStays(s, o, nodes, nodes', leaves, leaves', UpdatedAt(world, u, a));
    }
  }

  lemma NextDone(s: Scheme, o: Openings, nodes0: Store, leaves0: map<Hash, StorageLeaf>, nodes: Store,
                 leaves: map<Hash, StorageLeaf>, nodes': Store, leaves': map<Hash, StorageLeaf>, world: World,
                 states: nat -> ContractState, u: Updates, done: seq<nat>, a: nat)
    requires ContractsReady(s, o, nodes0, leaves0, world, states, u) && a in Touched(u)
    requires Underway(s, o, nodes0, leaves0, nodes, leaves, world, u, done)
    requires ContractDone(s, o, nodes, leaves, nodes', leaves', UpdatedAt(world, u, a))
    ensures Underway(s, o, nodes0, leaves0, nodes', leaves', world, u, done + [a])
  {
    StaysUnderway(s, o, nodes0, leaves0, nodes, leaves, nodes', leaves', world, states, u, done);
    assert (done + [a])[..|done|] == done;
  }

  /** The new states of the contracts in the list. */
  ghost function TabulateList(f: nat -> ContractState, done: seq<nat>): map<nat, ContractState> {
    if done == [] then map[]
    else var n := |done| - 1; TabulateList(f, done[..n])[done[n] := f(done[n])]
  }

  lemma {:induction false} TabulateListKeys(f: nat -> ContractState, done: seq<nat>)
    ensures forall a :: a in TabulateList(f, done) <==> a in done
    ensures forall a | a in done :: TabulateList(f, done)[a] == f(a)
    decreases |done|
  {
    if done != [] {
      TabulateListKeys(f, done[..|done| - 1]);
    }
  }

  ghost function RemoveAll(m: map<nat, ContractState>, done: seq<nat>): map<nat, ContractState> {
    if done == [] then m else var n := |done| - 1; RemoveAll(m, done[..n]) - {done[n]}
  }

  lemma {:induction false} RemoveAllKeeps(m: map<nat, ContractState>, done: seq<nat>, a: nat)
    requires a in m && a !in done
    ensures a in RemoveAll(m, done) && RemoveAll(m, done)[a] == m[a]
    decreases |done|
  {
    if done != [] {
      RemoveAllKeeps(m, done[..|done| - 1], a);
    }
  }

  method UpdateNext(s: Scheme, storage: FactStorage<StorageLeaf>, u: Updates, a: nat, state: ContractState,
                    ghost nodes0: Store, ghost leaves0: map<Hash, StorageLeaf>, ghost world: World,
                    ghost states: nat -> ContractState, ghost o: Openings, ghost done: seq<nat>)
    returns (r: Result<ContractState>)
    requires a in Touched(u)
    modifies storage
    ensures ContractsReady(s, o, nodes0, leaves0, world, states, u) && state == states(a)
            && old(Underway(s, o, nodes0, leaves0, storage.nodes, storage.leaves, world, u, done)) ==>
      && r == Ok(NewState(s, world, u)(a))
      && Underway(s, o, nodes0, leaves0, storage.nodes, storage.leaves, world, u, done + [a])
  {
    ghost var nodes, leaves := storage.nodes, storage.leaves;
    ghost var ready := ContractsReady(s, o, nodes0, leaves0, world, states, u) && state == states(a)
                       && Underway(s, o, nodes0, leaves0, nodes, leaves, world, u, done);
    if ready {
      NextReady(s, o, nodes0, leaves0, nodes, leaves, world, states, u, done, a);
    }
    r := UpdateContract(s, storage, state, StorageUpdates(u, a), Get(u.nonces, a), Get(u.classHashes, a), world(a), o);
    if ready {
      NextDone(s, o, nodes0, leaves0, nodes, leaves, storage.nodes, storage.leaves, world, states, u, done, a);
    }
  }

  predicate Distinct(addresses: seq<nat>) {
    forall i, j :: 0 <= i < j < |addresses| ==> addresses[i] != addresses[j]
  }

  /** `addresses` lists the elements of a set. */
  ghost predicate Lists(addresses: seq<nat>, all: set<nat>) {
    Distinct(addresses) && forall a :: a in addresses <==> a in all
  }

  /** The elements of a set, in any order. */
  method ElementsOf(all: set<nat>) returns (addresses: seq<nat>)
    ensures Lists(addresses, all)
  {
    addresses := [];
    var todo := all;
    while todo != {}
      invariant todo <= all && Lists(addresses, all - todo)
      decreases |todo|
    {
      var a :| a in todo;
      addresses := addresses + [a];
      todo := todo - {a};
    }
  }

  lemma AppendDone(m: map<nat, ContractState>, f: nat -> ContractState, done: seq<nat>, a: nat)
    ensures RemoveAll(m, done + [a]) == RemoveAll(m, done) - {a}
    ensures TabulateList(f, done + [a]) == TabulateList(f, done)[a := f(a)]
  {
    assert (done + [a])[..|done|] == done;
  }

  lemma NextAddress(addresses: seq<nat>, i: nat)
    requires Distinct(addresses) && i < |addresses|
    ensures addresses[i] !in addresses[..i] && addresses[..i + 1] == addresses[..i] + [addresses[i]]
  {
  }

  /** Updates the listed contracts one by one. */
  method UpdateContracts(s: Scheme, storage: FactStorage<StorageLeaf>, u: Updates, addresses: seq<nat>,
                         fetched: map<nat, ContractState>, ghost nodes0: Store, ghost leaves0: map<Hash, StorageLeaf>,
                         ghost world: World, ghost states: nat -> ContractState, ghost o: Openings)
    returns (r: Result<map<nat, ContractState>>)
    requires Lists(addresses, Touched(u))
    modifies storage
    ensures ContractsReady(s, o, nodes0, leaves0, world, states, u) && fetched == Tabulate(states, Touched(u))
            && old(Underway(s, o, nodes0, leaves0, storage.nodes, storage.leaves, world, u, [])) ==>
      && r == Ok(TabulateList(NewState(s, world, u), addresses))
      && Underway(s, o, nodes0, leaves0, storage.nodes, storage.leaves, world, u, addresses)
  {
    ghost var ready := ContractsReady(s, o, nodes0, leaves0, world, states, u)
                       && fetched == Tabulate(states, Touched(u))
                       && Underway(s, o, nodes0, leaves0, storage.nodes, storage.leaves, world, u, []);
    ghost var new' := NewState(s, world, u);
    var current, updated := fetched, map[];
    for i := 0 to |addresses|
      invariant current == RemoveAll(fetched, addresses[..i])
      invariant ready ==> updated == TabulateList(new', addresses[..i])
      invariant ready ==> Underway(s, o, nodes0, leaves0, storage.nodes, storage.leaves, world, u, addresses[..i])
    {
      var a := addresses[i];
      NextAddress(addresses, i);
      AppendDone(fetched, new', addresses[..i], a);
      if a in fetched {
        RemoveAllKeeps(fetched, addresses[..i], a);
      }
      if a !in current {
        return Err;
      }
      var state :- UpdateNext(s, storage, u, a, current[a], nodes0, leaves0, world, states, o, addresses[..i]);
      current, updated := current - {a}, updated[a := state];
    }
    assert addresses[..|addresses|] == addresses;
    r := Ok(updated);
  }

  // ----- The versions of the state in the storage -----

  /** The facts of all trees; inner nodes are shared. */
  datatype Trees = Trees(nodes: Store, storageLeaves: map<Hash, StorageLeaf>, contractLeaves: map<Hash, ContractState>)

  /** A world, the leaves of its contract tree, and the root of that tree. */
  datatype Version = Version(world: World, states: nat -> ContractState, root: Hash)

  ghost predicate VersionStored(s: Scheme, t: Trees, v: Version) {
    && TreeStored(s.H, s.contract, t.nodes, t.contractLeaves, v.states, s.height, v.root)
    && AllStored(s, t.nodes, t.storageLeaves, v.world) && Represents(s, v.states, v.world)
  }

  ghost predicate VersionSound(s: Scheme, o: Openings, v: Version) {
    NoCollisions(s.H, s.contract, o.fact, o.contract, v.states, s.height) && AllSound(s, o, v.world)
  }

  /** The storage contains all versions of the state so far. */
  ghost predicate HistoryStored(s: Scheme, o: Openings, t: Trees, history: seq<Version>) {
    if history == [] then
      && EmptyLeafStored(s.storage, t.storageLeaves, o.storage)
      && EmptyLeafStored(s.contract, t.contractLeaves, o.contract)
    else
      var n := |history| - 1;
      VersionStored(s, t, history[n]) && VersionSound(s, o, history[n]) && HistoryStored(s, o, t, history[..n])
  }

  lemma {:induction false} HistoryEmptyLeaves(s: Scheme, o: Openings, t: Trees, history: seq<Version>)
    requires HistoryStored(s, o, t, history)
    ensures EmptyLeafStored(s.storage, t.storageLeaves, o.storage)
    ensures EmptyLeafStored(s.contract, t.contractLeaves, o.contract)
    decreases |history|
  {
    if history != [] {
      HistoryEmptyLeaves(s, o, t, history[..|history| - 1]);
    }
  }

  ghost predicate TreesKept(s: Scheme, o: Openings, t: Trees, t': Trees) {
    && NodesKept(s.H, o.fact, t.nodes, t'.nodes)
    && LeavesKept(s.storage, o.storage, t.storageLeaves, t'.storageLeaves)
    && LeavesKept(s.contract, o.contract, t.contractLeaves, t'.contractLeaves)
    && EmptyLeafStored(s.storage, t'.storageLeaves, o.storage)
    && EmptyLeafStored(s.contract, t'.contractLeaves, o.contract)
  }

  lemma VersionStays(s: Scheme, o: Openings, t: Trees, t': Trees, v: Version)
    requires VersionStored(s, t, v) && VersionSound(s, o, v) && TreesKept(s, o, t, t')
    ensures VersionStored(s, t', v)
  {
    TreeStaysStored(s.H, s.contract, o.fact, o.contract, t.nodes, t'.nodes, t.contractLeaves, t'.contractLeaves,
                    v.states, s.height, v.root);
    forall a: nat | InTree(s, a)
      ensures StorageStored(s, t'.nodes, t'.storageLeaves, v.world(a))
    {
      StorageStays(s, o, t.nodes, t'.nodes, t.storageLeaves, t'.storageLeaves, v.world(a));
    }
  }

  lemma {:induction false} HistoryStays(s: Scheme, o: Openings, t: Trees, t': Trees, history: seq<Version>)
    requires HistoryStored(s, o, t, history) && TreesKept(s, o, t, t')
    ensures HistoryStored(s, o, t', history)
    decreases |history|
  {
    if history != [] {
      var n := |history| - 1;
      HistoryStays(s, o, t, t', history[..n]);
      VersionStays(s, o, t, t', history[n]);
    }
  }

  /** The version after the updates. */
  ghost function NextVersion(s: Scheme, v: Version, u: Updates): Version {
    var states := Overlaid(v.states, NewStates(s, v.world, u, Touched(u)));
    Version(Applied(v.world, u), states, RootOf(s.H, s.contract, states, s.height))
  }

  ghost function Latest(history: seq<Version>): Version
    requires history != []
  {
    history[|history| - 1]
  }

  /** What updating the state assumes: it is the latest version, addresses and keys are in range,
      and the facts of the next version do not collide. */
  ghost predicate UpdatesReady(s: Scheme, o: Openings, t: Trees, history: seq<Version>, root: Hash, u: Updates) {
    && history != [] && Latest(history).root == root && HistoryStored(s, o, t, history)
    && KeysInTree(u, Pow2(s.height)) && VersionSound(s, o, NextVersion(s, Latest(history), u))
  }

  lemma StartUpdates(s: Scheme, o: Openings, t: Trees, history: seq<Version>, root: Hash, u: Updates)
    requires UpdatesReady(s, o, t, history, root, u)
    ensures var v := Latest(history);
            && ContractsReady(s, o, t.nodes, t.storageLeaves, v.world, v.states, u)
            && Underway(s, o, t.nodes, t.storageLeaves, t.nodes, t.storageLeaves, v.world, u, [])
  {
    var v := Latest(history);
    HistoryEmptyLeaves(s, o, t, history);
    forall a: nat | Member(Touched(u), a)
      ensures StorageSound(s, o, UpdatedAt(v.world, u, a))
    {
      assert InTree(s, a);
      assert StorageSound(s, o, Applied(v.world, u)(a));
    }
  }

  lemma ListedStates(f: nat -> ContractState, addresses: seq<nat>, all: set<nat>)
    requires Lists(addresses, all)
    ensures TabulateList(f, addresses) == Tabulate(f, all)
    ensures (map a | a in addresses :: f(a)) == Tabulate(f, all)
  {
    TabulateListKeys(f, addresses);
  }

  /** Once all contracts are updated, so can be their tree. */
  lemma TreeReady(s: Scheme, o: Openings, t: Trees, history: seq<Version>, root: Hash, u: Updates, nodes': Store,
                  storageLeaves': map<Hash, StorageLeaf>, done: seq<nat>, entries: seq<Modification<ContractState>>)
    requires UpdatesReady(s, o, t, history, root, u)
    requires Underway(s, o, t.nodes, t.storageLeaves, nodes', storageLeaves', Latest(history).world, u, done)
    requires Collect(entries) == NewStates(s, Latest(history).world, u, Touched(u))
    ensures UpdateReady(s.H, s.contract, o.fact, o.contract, nodes', t.contractLeaves, Latest(history).states, s.height,
                        root, entries)
  {
    var v := Latest(history);
    HistoryEmptyLeaves(s, o, t, history);
    UnderwayKept(s, o, t.nodes, t.storageLeaves, nodes', storageLeaves', v.world, u, done);
    TreeStaysStored(s.H, s.contract, o.fact, o.contract, t.nodes, nodes', t.contractLeaves, t.contractLeaves, v.states,
                    s.height, root);
    EntriesInRange(entries, s.height);
    assert KeysBelow(Collect(entries), Pow2(s.height));
  }

  /** What the update of the contract tree leaves behind. */
  ghost predicate TreeDone(s: Scheme, o: Openings, nodes: Store, contractLeaves: map<Hash, ContractState>,
                           nodes': Store,
                           contractLeaves': map<Hash, ContractState>, states': nat -> ContractState, root': Hash) {
    && TreeStored(s.H, s.contract, nodes', contractLeaves', states', s.height, root')
    && EmptyLeafStored(s.contract, contractLeaves', o.contract)
    && NodesKept(s.H, o.fact, nodes, nodes') && LeavesKept(s.contract, o.contract, contractLeaves, contractLeaves')
  }

  /** Every contract of the new world is stored after the update of the tree. */
  lemma ContractsStored(s: Scheme, o: Openings, nodes: Store, storageLeaves: map<Hash, StorageLeaf>, nodes': Store,
                        storageLeaves': map<Hash, StorageLeaf>, nodes'': Store, world: World,
                        states: nat -> ContractState, u: Updates, done: seq<nat>)
    requires ContractsReady(s, o, nodes, storageLeaves, world, states, u) && Lists(done, Touched(u))
    requires Underway(s, o, nodes, storageLeaves, nodes', storageLeaves', world, u, done)
    requires NodesKept(s.H, o.fact, nodes', nodes'')
    ensures AllStored(s, nodes'', storageLeaves', Applied(world, u))
  {
    UnderwayKept(s, o, nodes, storageLeaves, nodes', storageLeaves', world, u, done);
    forall a: nat | InTree(s, a)
      ensures StorageStored(s, nodes'', storageLeaves', Applied(world, u)(a))
    {
      if a in Touched(u) {
        UnderwayStored(s, o, nodes, storageLeaves, nodes', storageLeaves', world, u, done, a);
        UpdatedSound(s, o, nodes, storageLeaves, world, states, u, a);
        StorageStays(s, o, nodes', nodes'', storageLeaves', storageLeaves', UpdatedAt(world, u, a));
      } else {
        StorageStays(s, o, nodes, nodes', storageLeaves, storageLeaves', world(a));
        StorageStays(s, o, nodes', nodes'', storageLeaves', storageLeaves', world(a));
      }
    }
  }

  lemma NewStatesRepresent(s: Scheme, world: World, states: nat -> ContractState, u: Updates)
    requires Represents(s, states, world)
    ensures Represents(s, Overlaid(states, NewStates(s, world, u, Touched(u))), Applied(world, u))
  {
  }

  /** Nothing is lost by the two phases of the update. */
  lemma PhasesKeep(s: Scheme, o: Openings, t: Trees, nodes': Store, storageLeaves': map<Hash, StorageLeaf>, t'': Trees,
                   world: World, u: Updates, done: seq<nat>, states'': nat -> ContractState, root'': Hash)
    requires Underway(s, o, t.nodes, t.storageLeaves, nodes', storageLeaves', world, u, done)
    requires TreeDone(s, o, nodes', t.contractLeaves, t''.nodes, t''.contractLeaves, states'', root'')
    requires t''.storageLeaves == storageLeaves'
    ensures TreesKept(s, o, t, t'')
  {
    UnderwayKept(s, o, t.nodes, t.storageLeaves, nodes', storageLeaves', world, u, done);
  }

  /** After the update the storage contains one version more. */
  lemma NextVersionStored(s: Scheme, o: Openings, t: Trees, history: seq<Version>, root: Hash, u: Updates,
                          nodes': Store,
                          storageLeaves': map<Hash, StorageLeaf>, done: seq<nat>, t'': Trees, root'': Hash)
    requires UpdatesReady(s, o, t, history, root, u) && Lists(done, Touched(u)) && t''.storageLeaves == storageLeaves'
    requires Underway(s, o, t.nodes, t.storageLeaves, nodes', storageLeaves', Latest(history).world, u, done)
    requires TreeDone(s, o, nodes', t.contractLeaves, t''.nodes, t''.contractLeaves,
                      NextVersion(s, Latest(history), u).states, root'')
    ensures root'' == NextVersion(s, Latest(history), u).root
    ensures HistoryStored(s, o, t'', history + [NextVersion(s, Latest(history), u)])
  {
    var v := Latest(history);
    var next := NextVersion(s, v, u);
    PhasesKeep(s, o, t, nodes', storageLeaves', t'', v.world, u, done, next.states, root'');
    HistoryStays(s, o, t, t'', history);
    StartUpdates(s, o, t, history, root, u);
    ContractsStored(s, o, t.nodes, t.storageLeaves, nodes', storageLeaves', t''.nodes, v.world, v.states, u, done);
    NewStatesRepresent(s, v.world, v.states, u);
    assert (history + [next])[..|history|] == history;
  }

  // ----- The operations -----

  lemma AddressesBelow(u: Updates, addresses: seq<nat>, bound: nat)
    requires KeysInTree(u, bound) && Lists(addresses, Touched(u))
    ensures AllBelow(addresses, bound)
  {
    forall k | 0 <= k < |addresses|
      ensures addresses[k] < bound
    {
      assert addresses[k] in addresses;
    }
  }

  /** Reads the touched contracts and updates them. */
  method UpdateTouched(s: Scheme, storage: FactStorage<StorageLeaf>, contractLeaves: map<Hash, ContractState>,
                       root: Hash, u: Updates, ghost t: Trees, ghost history: seq<Version>, ghost o: Openings)
    returns (r: Result<map<nat, ContractState>>, ghost done: seq<nat>)
    requires history != [] && t == Trees(storage.nodes, storage.leaves, contractLeaves)
    modifies storage
    ensures UpdatesReady(s, o, t, history, root, u) ==>
      && r == Ok(NewStates(s, Latest(history).world, u, Touched(u))) && Lists(done, Touched(u))
      && Underway(s, o, t.nodes, t.storageLeaves, storage.nodes, storage.leaves, Latest(history).world, u, done)
  {
    ghost var v := Latest(history);
    var addresses := ElementsOf(Touched(u));
    done := addresses;
    if UpdatesReady(s, o, t, history, root, u) {
      StartUpdates(s, o, t, history, root, u);
      AddressesBelow(u, addresses, Pow2(s.height));
    }
    ListedStates(v.states, addresses, Touched(u));
    ListedStates(NewState(s, v.world, u), addresses, Touched(u));
    var contracts := new FactStorage(storage.nodes, contractLeaves);
    var fetched := GetTreeLeaves(s.contract, contracts, root, s.height, addresses, s.H, v.states, o.fact, o.contract);
    if fetched.Err? {
      return Err, done;
    }
    r := UpdateContracts(s, storage, u, addresses, fetched.value, t.nodes, t.storageLeaves, v.world, v.states, o);
  }

  /** Writes the new states of the contracts into their tree. */
  method UpdateStates(s: Scheme, contracts: FactStorage<ContractState>, root: Hash, updated: map<nat, ContractState>,
                      ghost u: Updates, ghost t: Trees, ghost history: seq<Version>, ghost o: Openings,
                      ghost storageLeaves: map<Hash, StorageLeaf>, ghost done: seq<nat>)
    returns (r: Result<Hash>)
    requires history != [] && contracts.leaves == t.contractLeaves
    modifies contracts
    ensures UpdatesReady(s, o, t, history, root, u) && Lists(done, Touched(u))
            && Underway(s, o, t.nodes, t.storageLeaves, old(contracts.nodes), storageLeaves, Latest(history).world, u,
                        done)
            && updated == NewStates(s, Latest(history).world, u, Touched(u)) ==>
      && r == Ok(NextVersion(s, Latest(history), u).root)
      && HistoryStored(s, o, Trees(contracts.nodes, storageLeaves, contracts.leaves),
                       history + [NextVersion(s, Latest(history), u)])
  {
    ghost var v, nodes := Latest(history), contracts.nodes;
    ghost var ready := UpdatesReady(s, o, t, history, root, u) && Lists(done, Touched(u))
                       && Underway(s, o, t.nodes, t.storageLeaves, nodes, storageLeaves, v.world, u, done)
                       && updated == NewStates(s, v.world, u, Touched(u));
    var entries := EntriesOf(updated);
    if ready {
      TreeReady(s, o, t, history, root, u, nodes, storageLeaves, done, entries);
    }
    var facts;
    r, facts := Update(s.H, s.contract, contracts, root, s.height, entries, v.states, o.fact, o.contract);
    if ready {
      NextVersionStored(s, o, t, history, root, u, nodes, storageLeaves, done,
                        Trees(contracts.nodes, storageLeaves, contracts.leaves), r.value);
    }
  }

  /** Updates the touched contracts and then their tree. */
  method RecomputeTrees(s: Scheme, t: Trees, root: Hash, u: Updates, ghost history: seq<Version>, ghost o: Openings)
    returns (r: Result<(Trees, Hash)>)
    requires history != []
    ensures UpdatesReady(s, o, t, history, root, u) ==>
      && r.Ok? && r.value.1 == NextVersion(s, Latest(history), u).root
      && HistoryStored(s, o, r.value.0, history + [NextVersion(s, Latest(history), u)])
  {
    var storage := new FactStorage(t.nodes, t.storageLeaves);
    ghost var done;
    var updated;
    updated, done := UpdateTouched(s, storage, t.contractLeaves, root, u, t, history, o);
    if updated.Err? {
      return Err;
    }
    var contracts := new FactStorage(storage.nodes, t.contractLeaves);
    var updatedRoot :- UpdateStates(s, contracts, root, updated.value, u, t, history, o, storage.leaves, done);
    r := Ok((Trees(contracts.nodes, storage.leaves, contracts.leaves), updatedRoot));
  }

  class SharedState {
    const scheme: Scheme
    var contractStates: Hash
    var contractAddresses: set<nat>
    var nodes: Store
    var storageLeaves: map<Hash, StorageLeaf>
    var contractLeaves: map<Hash, ContractState>

    constructor (scheme: Scheme, root: Hash, addresses: set<nat>, t: Trees)
      ensures this.scheme == scheme && contractStates == root && contractAddresses == addresses && Stored() == t
    {
      this.scheme, contractStates, contractAddresses := scheme, root, addresses;
      this.nodes, this.storageLeaves, this.contractLeaves := t.nodes, t.storageLeaves, t.contractLeaves;
    }

    function Stored(): Trees
      reads this
    {
      Trees(nodes, storageLeaves, contractLeaves)
    }

    /** Applies updates to contracts and recomputes the trees. */
    method ApplyStateUpdates(u: Updates, ghost history: seq<Version>, ghost o: Openings) returns (r: Result<()>)
      requires history != []
      modifies this
      ensures old(UpdatesReady(scheme, o, Stored(), history, contractStates, u)) ==>
        && r.Ok? && contractAddresses == old(contractAddresses) + Touched(u)
        && contractStates == NextVersion(scheme, Latest(history), u).root
        && HistoryStored(scheme, o, Stored(), history + [NextVersion(scheme, Latest(history), u)])
    {
      var after :- RecomputeTrees(scheme, Stored(), contractStates, u, history, o);
      var t := after.0;
      nodes, storageLeaves, contractLeaves := t.nodes, t.storageLeaves, t.contractLeaves;
      contractStates := after.1;
      contractAddresses := contractAddresses + Touched(u);
      assert Stored() == t;
      r := Ok(());
    }

    method GetContractState(a: nat, ghost history: seq<Version>, ghost o: Openings) returns (r: Result<ContractState>)
      requires history != []
      ensures HistoryStored(scheme, o, Stored(), history) && Latest(history).root == contractStates
              && InTree(scheme, a) ==>
        r == Ok(StateOf(scheme, Latest(history).world(a)))
    {
      var contracts := new FactStorage(nodes, contractLeaves);
      var leaves :- GetTreeLeaves(scheme.contract, contracts, contractStates, scheme.height, [a], scheme.H,
                                  Latest(history).states, o.fact, o.contract);
      r := if a in leaves then Ok(leaves[a]) else Err;
    }

    method GetStorageAt(a: nat, key: nat, ghost history: seq<Version>, ghost o: Openings) returns (r: Result<nat>)
      requires history != []
      ensures HistoryStored(scheme, o, Stored(), history) && Latest(history).root == contractStates
              && InTree(scheme, a) && InTree(scheme, key) ==>
        r == Ok(Latest(history).world(a).storage(key).value)
    {
      var state :- GetContractState(a, history, o);
      var storage := new FactStorage(nodes, storageLeaves);
      var leaves :- GetTreeLeaves(scheme.storage, storage, state.storageRoot, scheme.height, [key], scheme.H,
                                  Latest(history).world(a).storage, o.fact, o.storage);
      r := if key in leaves then Ok(leaves[key].value) else Err;
    }
  }

  /** The value of a storage slot: the update if there is one, else the previous value. */
  ghost function SlotAfter(world: World, u: Updates, a: nat, key: nat): nat {
    if a in u.storage && key in u.storage[a] then u.storage[a][key] else world(a).storage(key).value
  }

  lemma UpdatedSlot(storage: nat -> StorageLeaf, updates: map<nat, nat>, key: nat)
    ensures Overlaid(storage, LeavesOf(updates))(key).value 
            == if key in updates then updates[key] else storage(key).value
  {
  }

  /** Each part of each contract is as updated or, without an update, as before. */
  lemma AppliedAt(world: World, u: Updates, a: nat, key: nat)
    ensures var c := Applied(world, u)(a);
            && c.classHash == (if a in u.classHashes then u.classHashes[a] else world(a).classHash)
            && c.nonce == (if a in u.nonces then u.nonces[a] else world(a).nonce)
            && c.storage(key).value == SlotAfter(world, u, a, key)
            && (a !in Touched(u) ==> c == world(a))
  {
    if a in Touched(u) {
      assert Applied(world, u)(a) == UpdatedAt(world, u, a);
      UpdatedSlot(world(a).storage, StorageUpdates(u, a), key);
    }
  }

  /** After the updates a contract's class hash, its nonce and every slot read as updated or,
      without an update, as before; a contract that is not touched has the same state. */
  method ApplyThenRead(state: SharedState, u: Updates, a: nat, key: nat, ghost history: seq<Version>, ghost o: Openings)
    returns (r: Result<(ContractState, nat)>)
    requires history != []
    modifies state
    ensures old(UpdatesReady(state.scheme, o, state.Stored(), history, state.contractStates, u))
            && InTree(state.scheme, a) && InTree(state.scheme, key) ==>
      var c := Latest(history).world(a);
      && r.Ok?
      && r.value.0.classHash == (if a in u.classHashes then u.classHashes[a] else c.classHash)
      && r.value.0.nonce == (if a in u.nonces then u.nonces[a] else c.nonce)
      && r.value.1 == SlotAfter(Latest(history).world, u, a, key)
      && (a !in Touched(u) ==> r.value.0 == StateOf(state.scheme, c))
  {
    ghost var next := NextVersion(state.scheme, Latest(history), u);
    AppliedAt(Latest(history).world, u, a, key);
    var _ :- state.ApplyStateUpdates(u, history, o);
    var contract :- state.GetContractState(a, history + [next], o);
    var slot :- state.GetStorageAt(a, key, history + [next], o);
    r := Ok((contract, slot));
  }

  // ----- The empty state -----

  const EMPTY_STATE: ContractState := ContractState(UNINITIALIZED_CLASS_HASH, EMPTY, 0)

  ghost function EmptyContract(): Contract {
    Contract(UNINITIALIZED_CLASS_HASH, 0, Everywhere(StorageLeaf(0)))
  }

  ghost function EmptyVersion(): Version {
    Version((a: nat) => EmptyContract(), Everywhere(EMPTY_STATE), EMPTY)
  }

  ghost predicate EmptyLeaves(s: Scheme, o: Openings) {
    EmptyLeaf(s.storage, o.storage, StorageLeaf(0)) && EmptyLeaf(s.contract, o.contract, EMPTY_STATE)
  }

  /** Starknet's trees: 251 levels, hashed by a two-to-one hash. */
  function StarknetScheme(hash2: (nat, nat) -> Hash): Scheme {
    Scheme(FactHash(hash2), StorageLeafOps(), ContractLeafOps(hash2), 251)
  }

  /** Their leaves are of this kind. */
  lemma StarknetLeaves(hash2: (nat, nat) -> Hash, o: Openings)
    requires o.storage(EMPTY) == StorageLeaf(0) && o.contract(EMPTY) == EMPTY_STATE
    ensures EmptyLeaves(StarknetScheme(hash2), o)
  {
  }

  lemma EmptyStateStored(s: Scheme, o: Openings, t: Trees)
    requires EmptyLeaves(s, o)
    requires Get(t.storageLeaves, EMPTY) == Some(StorageLeaf(0)) && Get(t.contractLeaves, EMPTY) == Some(EMPTY_STATE)
    ensures HistoryStored(s, o, t, [EmptyVersion()])
  {
    var v := EmptyVersion();
    EmptyTreeStored(s.H, s.storage, o.fact, o.storage, t.nodes, t.storageLeaves, s.height, StorageLeaf(0));
    EmptyTreeStored(s.H, s.contract, o.fact, o.contract, t.nodes, t.contractLeaves, s.height, EMPTY_STATE);
    forall a: nat | InTree(s, a)
      ensures StorageStored(s, t.nodes, t.storageLeaves, v.world(a)) && StorageSound(s, o, v.world(a))
      ensures v.states(a) == StateOf(s, v.world(a))
    {
      assert v.world(a) == EmptyContract();
    }
    assert [v][..0] == [];
  }

  /** The state before the first block. */
  method EmptySharedState(s: Scheme, ghost o: Openings) returns (state: SharedState)
    ensures fresh(state) && state.scheme == s && state.contractAddresses == {}
    ensures EmptyLeaves(s, o) ==>
      state.contractStates == EMPTY && HistoryStored(s, o, state.Stored(), [EmptyVersion()])
  {
    var storage := new FactStorage<StorageLeaf>(map[], map[]);
    var contracts := new FactStorage<ContractState>(map[], map[]);
    var storageRoot := EmptyTree(s.storage, storage, s.height, StorageLeaf(0), s.H, o.fact, o.storage);
    var empty := ContractState(UNINITIALIZED_CLASS_HASH, storageRoot, 0);
    var root := EmptyTree(s.contract, contracts, s.height, empty, s.H, o.fact, o.contract);
    state := new SharedState(s, root, {}, Trees(map[], storage.leaves, contracts.leaves));
    if EmptyLeaves(s, o) {
      EmptyStateStored(s, o, state.Stored());
    }
  }
}
