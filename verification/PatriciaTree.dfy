/** Updating and reading a Patricia tree through the fact storage. */
module PatriciaTree {
  import opened Basics
  import opened UpdateTrees
  import opened TreeTraverser
  import opened Patricia
  import opened VirtualNodes
  import opened VirtualCalculations

  function TreeOps<LF>(store: Store, leaf: LeafOps<LF>): Ops<VirtualNode, LF, CalculationNode<LF>> {
    Ops((v: VirtualNode) => GetChildren(store, v),
        (v: VirtualNode) => CreateFromNode(v),
        (fact: LF) => CreateFromFact(fact),
        (l: CalculationNode<LF>, r: CalculationNode<LF>) => Combine(store, leaf, l, r),
        (v: VirtualNode) => ChildFacts(v),
        (l: CalculationNode<LF>, r: CalculationNode<LF>) => CombineFacts(leaf, l, r))
  }

  /** `t'` has the modified leaves where there are modifications, and those of `t` elsewhere. */
  ghost predicate Updated<LF>(t: Tree, t': Tree, leaf: LeafOps<LF>, m: map<nat, LF>) {
    && Built(t) && Built(t') && t.hash == t'.hash
    && (forall j: nat :: t'.leaf(j) == if j in m then leaf.hash(m[j]) else t.leaf(j))
  }

  ghost predicate EmptyByHash<LF>(leaf: LeafOps<LF>, m: map<nat, LF>) {
    forall j | j in m :: leaf.isEmpty(m[j]) <==> leaf.hash(m[j]) == EMPTY
  }

  /** `c` stands for node `i` of height `h` of the tree, and its facts are at hand. */
  ghost predicate Calculated<LF>(store: Store, leaf: LeafOps<LF>, open: Hash -> Fact, t: Tree, h: nat, i: nat,
                                 c: CalculationNode<LF>) {
    && c.height == h && Stands(t.hash, open, store, leaf, c, t.node(h, i))
    && AllOpened(t.hash, open, leaf, c.bottom) && ProperEdges(c.bottom)
    && AllFacts(t, h, i, Available(t.hash, store, leaf, c.bottom))
  }

  lemma UnmodifiedCalculated<LF>(store: Store, leaf: LeafOps<LF>, open: Hash -> Fact, t: Tree, t': Tree,
                                 v: VirtualNode, h: nat, i: nat)
    requires Built(t) && Built(t') && t.hash == t'.hash && SameLeaves(t.leaf, t'.leaf, h, i)
    requires Readable(store, v, t, open, h, i)
    ensures Calculated(store, leaf, open, t', h, i, CreateFromNode<LF>(v))
  {
    var c := CreateFromNode<LF>(v);
    NodeDepends(t, t', h, i);
    NodeProper(t, open, h, i);
    FactsDepend(t, t', h, i, HeldBy(t.hash, store));
    FactsImply(t', h, i, HeldBy(t.hash, store), HeldBy(t.hash, store), Available(t.hash, store, leaf, c.bottom));
    if h > 0 {
      Halves(t, open, h, i);
    }
  }

  lemma ModifiedLeafCalculated<LF>(store: Store, leaf: LeafOps<LF>, open: Hash -> Fact, t: Tree, i: nat, fact: LF)
    requires Built(t) && t.leaf(i) == leaf.hash(fact)
    requires leaf.isEmpty(fact) <==> leaf.hash(fact) == EMPTY
    ensures Calculated(store, leaf, open, t, 0, i, CreateFromFact(fact))
  {
    Opened(t, 0, i);
  }

  lemma CombinedCalculated<LF(!new)>(store: Store, leaf: LeafOps<LF>, open: Hash -> Fact, t: Tree, h: nat, i: nat,
                                     l: CalculationNode<LF>, r: CalculationNode<LF>)
    requires h > 0 && Built(t) && AllFacts(t, h, i, OpenedBy(t.hash, open))
    requires Calculated(store, leaf, open, t, h - 1, 2 * i, l)
    requires Calculated(store, leaf, open, t, h - 1, 2 * i + 1, r)
    ensures var c := Combine(store, leaf, l, r);
            c.Ok? && Calculated(store, leaf, open, t, h, i, c.value)
  {
    Halves(t, open, h, i);
    CombineStands(t.hash, open, store, leaf, l, r, Lower(t, h, i), Upper(t, h, i), h - 1);
    CombineComputes(t.hash, open, store, leaf, l, r, Lower(t, h, i), Upper(t, h, i), h - 1);
    CombineExact(t.hash, open, store, leaf, l, r, Lower(t, h, i), Upper(t, h, i), h - 1);
    var c := Combine(store, leaf, l, r).value;
    var p := Available(t.hash, store, leaf, c.bottom);
    FactsImply(t, h - 1, 2 * i, Available(t.hash, store, leaf, l.bottom), Available(t.hash, store, leaf, l.bottom), p);
    FactsImply(t, h - 1, 2 * i + 1, Available(t.hash, store, leaf, r.bottom),
               Available(t.hash, store, leaf, r.bottom), p);
  }

  /** A node with no modification under it keeps its leaves. */
  lemma UnmodifiedLeaves<LF>(t: Tree, t': Tree, leaf: LeafOps<LF>, m: map<nat, LF>, h: nat, i: nat)
    requires Updated(t, t', leaf, m) && TreeOf(m, h, i) == NoUpdate
    ensures SameLeaves(t.leaf, t'.leaf, h, i)
  {
    TreeOfEmpty(m, h, i);
  }

  lemma CalcTuple<LF>(store: Store, leaf: LeafOps<LF>, v: VirtualNode, u: UpdateTree<LF>,
                      vl: VirtualNode, vr: VirtualNode, l: CalculationNode<LF>, r: CalculationNode<LF>)
    requires u.Tuple? && GetChildren(store, v) == Ok((vl, vr))
    requires Calc(TreeOps(store, leaf), vl, u.left) == Ok(l)
    requires Calc(TreeOps(store, leaf), vr, u.right) == Ok(r)
    ensures Calc(TreeOps(store, leaf), v, u) == Combine(store, leaf, l, r)
  {
  }

  /** `v` is node `i` of height `h` of the old tree, `t'` is the new tree, and facts do not collide. */
  ghost predicate Updating<LF>(store: Store, leaf: LeafOps<LF>, open: Hash -> Fact, t: Tree, t': Tree,
                               m: map<nat, LF>, v: VirtualNode, h: nat, i: nat) {
    && Updated(t, t', leaf, m) && EmptyByHash(leaf, m)
    && Readable(store, v, t, open, h, i) && AllFacts(t', h, i, OpenedBy(t'.hash, open))
  }

  lemma UpdatingChildren<LF>(store: Store, leaf: LeafOps<LF>, open: Hash -> Fact, t: Tree, t': Tree,
                             m: map<nat, LF>, v: VirtualNode, h: nat, i: nat)
    requires h > 0 && Updating(store, leaf, open, t, t', m, v, h, i)
    ensures GetChildren(store, v).Ok?
    ensures Updating(store, leaf, open, t, t', m, GetChildren(store, v).value.0, h - 1, 2 * i)
    ensures Updating(store, leaf, open, t, t', m, GetChildren(store, v).value.1, h - 1, 2 * i + 1)
  {
    ChildrenReadable(store, v, t, open, h, i);
  }

  /** The modified leaves below a node are computed, except empty ones, and no others. */
  ghost predicate LeavesComputed<LF(!new)>(leaf: LeafOps<LF>, m: map<nat, LF>, h: nat, i: nat, c: HashCalculation<LF>) {
    && (forall j | j in m && Below(h, i, j) && !leaf.isEmpty(m[j]) :: ComputesLeaf(c, m[j]))
    && (forall x | ComputesLeaf(c, x) :: exists j :: j in m && m[j] == x)
  }

  ghost predicate CalculatedWithLeaves<LF(!new)>(store: Store, leaf: LeafOps<LF>, open: Hash -> Fact, t: Tree,
                                                 m: map<nat, LF>, h: nat, i: nat, c: CalculationNode<LF>) {
    Calculated(store, leaf, open, t, h, i, c) && LeavesComputed(leaf, m, h, i, c.bottom)
  }

  lemma CombinedLeaves<LF(!new)>(store: Store, leaf: LeafOps<LF>, open: Hash -> Fact, t: Tree, m: map<nat, LF>,
                                 h: nat, i: nat, l: CalculationNode<LF>, r: CalculationNode<LF>)
    requires h > 0 && Built(t) && AllFacts(t, h, i, OpenedBy(t.hash, open))
    requires Calculated(store, leaf, open, t, h - 1, 2 * i, l)
    requires Calculated(store, leaf, open, t, h - 1, 2 * i + 1, r)
    requires LeavesComputed(leaf, m, h - 1, 2 * i, l.bottom)
    requires LeavesComputed(leaf, m, h - 1, 2 * i + 1, r.bottom)
    ensures var c := Combine(store, leaf, l, r);
            c.Ok? && LeavesComputed(leaf, m, h, i, c.value.bottom)
  {
    Halves(t, open, h, i);
    CombineLeaves(t.hash, open, store, leaf, l, r, Lower(t, h, i), Upper(t, h, i), h - 1);
    var c := Combine(store, leaf, l, r).value;
    forall j | j in m && Below(h, i, j) && !leaf.isEmpty(m[j])
      ensures ComputesLeaf(c.bottom, m[j])
    {
      BelowChild(h, i, j);
    }
  }

  lemma BaseCalculated<LF(!new)>(store: Store, leaf: LeafOps<LF>, open: Hash -> Fact, t: Tree, t': Tree,
                                 m: map<nat, LF>, v: VirtualNode, h: nat, i: nat)
    returns (c: CalculationNode<LF>)
    requires Updating(store, leaf, open, t, t', m, v, h, i) && (h == 0 || TreeOf(m, h, i) == NoUpdate)
    ensures Calc(TreeOps(store, leaf), v, TreeOf(m, h, i)) == Ok(c)
    ensures CalculatedWithLeaves(store, leaf, open, t', m, h, i, c)
  {
    TreeOfEmpty(m, h, i);
    if TreeOf(m, h, i) == NoUpdate {
      UnmodifiedLeaves(t, t', leaf, m, h, i);
      UnmodifiedCalculated(store, leaf, open, t, t', v, h, i);
      c := CreateFromNode(v);
    } else {
      ModifiedLeafCalculated(store, leaf, open, t', i, m[i]);
      c := CreateFromFact(m[i]);
      assert forall j: nat :: Below(0, i, j) <==> j == i;
    }
  }

  lemma StepCalculated<LF(!new)>(store: Store, leaf: LeafOps<LF>, open: Hash -> Fact, t: Tree, m: map<nat, LF>,
                                 h: nat, i: nat, l: CalculationNode<LF>, r: CalculationNode<LF>)
    requires h > 0 && Built(t) && AllFacts(t, h, i, OpenedBy(t.hash, open))
    requires CalculatedWithLeaves(store, leaf, open, t, m, h - 1, 2 * i, l)
    requires CalculatedWithLeaves(store, leaf, open, t, m, h - 1, 2 * i + 1, r)
    ensures Combine(store, leaf, l, r).Ok?
    ensures CalculatedWithLeaves(store, leaf, open, t, m, h, i, Combine(store, leaf, l, r).value)
  {
    CombinedCalculated(store, leaf, open, t, h, i, l, r);
    CombinedLeaves(store, leaf, open, t, m, h, i, l, r);
  }

  /** Applying an update tree to a readable tree calculates the updated tree. */
  lemma {:induction false} CalcCorrect<LF(!new)>(store: Store, leaf: LeafOps<LF>, open: Hash -> Fact, t: Tree, t': Tree,
                                                 m: map<nat, LF>, v: VirtualNode, h: nat, i: nat)
    returns (c: CalculationNode<LF>)
    requires Updating(store, leaf, open, t, t', m, v, h, i)
    ensures Calc(TreeOps(store, leaf), v, TreeOf(m, h, i)) == Ok(c)
    ensures CalculatedWithLeaves(store, leaf, open, t', m, h, i, c)
    decreases h
  {
    if h == 0 || TreeOf(m, h, i) == NoUpdate {
      c := BaseCalculated(store, leaf, open, t, t', m, v, h, i);
    } else {
      UpdatingChildren(store, leaf, open, t, t', m, v, h, i);
      var (vl, vr) := GetChildren(store, v).value;
      var l := CalcCorrect(store, leaf, open, t, t', m, vl, h - 1, 2 * i);
      var r := CalcCorrect(store, leaf, open, t, t', m, vr, h - 1, 2 * i + 1);
      StepCalculated(store, leaf, open, t', m, h, i, l, r);
      CalcTuple(store, leaf, v, TreeOf(m, h, i), vl, vr, l, r);
      c := Combine(store, leaf, l, r).value;
    }
  }

  // ----- Trees in the storage -----

  /** The leaf hashes of a tree of leaf facts. */
  ghost function HashesOf<LF>(leaf: LeafOps<LF>, g: nat -> LF): Leaves {
    (j: nat) => leaf.hash(g(j))
  }

  ghost function TreeWith<LF>(H: HashFunction, leaf: LeafOps<LF>, g: nat -> LF): Tree {
    CanonicalTree(H, HashesOf(leaf, g))
  }

  /** The leaves `m` on top of the leaves `g`. */
  ghost function Overlaid<LF>(g: nat -> LF, m: map<nat, LF>): nat -> LF {
    (j: nat) => if j in m then m[j] else g(j)
  }

  /** The leaves after applying modifications in order. */
  ghost function Modified<LF>(g: nat -> LF, modifications: seq<Modification<LF>>): nat -> LF {
    Overlaid(g, Collect(modifications))
  }

  /** The root hash of the full tree over the given leaves, computed layer by layer. */
  ghost function RootOf<LF>(H: HashFunction, leaf: LeafOps<LF>, g: nat -> LF, height: nat): Hash {
    Root(H, HashesOf(leaf, g), height)
  }

  /** The storage holds the tree with these leaves under its root hash. */
  ghost predicate TreeStored<LF>(H: HashFunction, leaf: LeafOps<LF>, nodes: Store, leaves: map<Hash, LF>,
                                 g: nat -> LF, height: nat, root: Hash) {
    && root == RootOf(H, leaf, g, height)
    && TreeFacts(TreeWith(H, leaf, g), height, HeldBy(H, nodes))
    && LeavesHeld(leaves, HashesOf(leaf, g), g, height, 0)
  }

  /** The storage holds the empty leaf, as creating an empty tree leaves it. */
  ghost predicate EmptyLeafStored<LF>(leaf: LeafOps<LF>, leaves: map<Hash, LF>, openLeaf: Hash -> LF) {
    EMPTY in leaves && leaves[EMPTY] == openLeaf(EMPTY) && leaf.hash(openLeaf(EMPTY)) == EMPTY
  }

  /** No two facts of the tree collide: each is recovered from its hash by `open` and
      each leaf by `openLeaf`; and exactly the empty leaves have the empty hash. */
  ghost predicate NoCollisions<LF>(H: HashFunction, leaf: LeafOps<LF>, open: Hash -> Fact, openLeaf: Hash -> LF,
                                   g: nat -> LF, height: nat) {
    CollisionFree(TreeWith(H, leaf, g), height, open) && LeavesRecovered(leaf, openLeaf, g, height)
  }

  /** Inserts the entries of `facts` one by one. */
  method SetAll<K, V>(stored: map<K, V>, facts: map<K, V>) returns (r: map<K, V>)
    ensures r == stored + facts
  {
    r := stored;
    var todo := facts.Keys;
    while todo != {}
      invariant todo <= facts.Keys
      invariant r.Keys == stored.Keys + (facts.Keys - todo)
      invariant forall k | k in r :: r[k] == if k in facts && k !in todo then facts[k] else stored[k]
      decreases |todo|
    {
      var k :| k in todo;
      r := r[k := facts[k]];
      todo := todo - {k};
    }
  }

  class FactStorage<LF> {
    var nodes: Store
    var leaves: map<Hash, LF>

    constructor (storedNodes: Store, storedLeaves: map<Hash, LF>)
      ensures nodes == storedNodes && leaves == storedLeaves
    {
      nodes, leaves := storedNodes, storedLeaves;
    }

    method WriteFactNodes(facts: NodeFactDict<LF>)
      modifies this
      ensures nodes == old(nodes) + facts.innerNodes
      ensures leaves == old(leaves) + facts.leaves
    {
      nodes := SetAll(nodes, facts.innerNodes);
      leaves := SetAll(leaves, facts.leaves);
    }
  }

  // ----- The facts in the storage after an update -----

  /** The storage after writing the facts of the calculation and the edge the root may be. */
  function NodesAfter<LF>(H: HashFunction, leaf: LeafOps<LF>, nodes: Store, c: CalculationNode<LF>): Store {
    var written := nodes + InnerAfter(H, leaf, c.bottom, map[]);
    if c.length == 0 then written
    else
      var edge := Edge(CalcHash(H, leaf, c.bottom), c.path, c.length);
      written[H(edge) := edge]
  }

  /** The facts with the given hashes. */
  function ReadFacts(nodes: Store, hashes: set<Hash>): Store {
    map k | k in hashes && k in nodes :: nodes[k]
  }

  /** The facts gathered by an update that read those with the given hashes: what it read and what it wrote. */
  ghost predicate Gathered<LF>(H: HashFunction, leaf: LeafOps<LF>, nodes: Store, root: Hash, height: nat,
                               m: map<nat, LF>, hashes: set<Hash>, facts: Store) {
    var ops, v, u := TreeOps(nodes, leaf), FromHash(root, height), TreeOf(m, height, 0);
    var c := Calc(ops, v, u);
    c.Ok? && FactsOpened(ops, v, u) <= hashes && facts == NodesAfter(H, leaf, ReadFacts(nodes, hashes), c.value)
  }

  lemma NodesAfterHold<LF>(H: HashFunction, open: Hash -> Fact, leaf: LeafOps<LF>, nodes: Store, c: CalculationNode<LF>,
                           fact: Fact)
    requires AllOpened(H, open, leaf, c.bottom) && Opens(H, open, fact)
    requires c.length > 0 ==> Opens(H, open, Edge(CalcHash(H, leaf, c.bottom), c.path, c.length))
    requires Holds(H, nodes, fact) || Computes(H, leaf, c.bottom, fact)
    ensures Holds(H, NodesAfter(H, leaf, nodes, c), fact)
  {
    InnerAfterMerge(H, leaf, c.bottom, nodes, map[]);
    assert nodes + map[] == nodes;
    InnerAfterHolds(H, open, leaf, c.bottom, nodes, fact);
  }

  /** Facts that were stored or calculated are stored after the update. */
  lemma FactsAfter<LF>(H: HashFunction, open: Hash -> Fact, leaf: LeafOps<LF>, nodes: Store, c: CalculationNode<LF>,
                       t: Tree, h: nat, i: nat)
    requires t.hash == H && AllOpened(H, open, leaf, c.bottom)
    requires c.length > 0 ==> Opens(H, open, Edge(CalcHash(H, leaf, c.bottom), c.path, c.length))
    requires AllFacts(t, h, i, OpenedBy(H, open)) && AllFacts(t, h, i, Available(H, nodes, leaf, c.bottom))
    ensures AllFacts(t, h, i, HeldBy(H, NodesAfter(H, leaf, nodes, c)))
  {
    forall a | Opens(H, open, a) && (Holds(H, nodes, a) || Computes(H, leaf, c.bottom, a))
      ensures Holds(H, NodesAfter(H, leaf, nodes, c), a)
    {
      NodesAfterHold(H, open, leaf, nodes, c, a);
    }
    FactsImply(t, h, i, OpenedBy(H, open), Available(H, nodes, leaf, c.bottom),
               HeldBy(H, NodesAfter(H, leaf, nodes, c)));
  }

  /** After the update the storage holds the facts of the new tree and still those of the old one. */
  lemma TreesAfter<LF>(open: Hash -> Fact, leaf: LeafOps<LF>, nodes: Store, c: CalculationNode<LF>,
                       t: Tree, t': Tree, height: nat)
    requires t.hash == t'.hash && Calculated(nodes, leaf, open, t', height, 0, c)
    requires TreeFacts(t, height, HeldBy(t.hash, nodes))
    requires CollisionFree(t, height, open) && CollisionFree(t', height, open)
    ensures TreeFacts(t, height, HeldBy(t.hash, NodesAfter(t.hash, leaf, nodes, c)))
    ensures TreeFacts(t', height, HeldBy(t.hash, NodesAfter(t.hash, leaf, nodes, c)))
    ensures CalcHash(t.hash, leaf, Commit(c)) == NodeHash(t.hash, t'.node(height, 0))
  {
    var H := t.hash;
    CommitHash(H, open, nodes, leaf, c, t'.node(height, 0));
    FactsAfter(H, open, leaf, nodes, c, t', height, 0);
    FactsImply(t, height, 0, HeldBy(H, nodes), HeldBy(H, nodes), Available(H, nodes, leaf, c.bottom));
    FactsAfter(H, open, leaf, nodes, c, t, height, 0);
    EdgeAfter(H, open, leaf, nodes, c, t.node(height, 0));
    if NodeOf(H, leaf, c) != t'.node(height, 0) {
      EdgeAfter(H, open, leaf, nodes, c, t'.node(height, 0));
    }
  }

  lemma EdgeAfter<LF>(H: HashFunction, open: Hash -> Fact, leaf: LeafOps<LF>, nodes: Store, c: CalculationNode<LF>,
                      n: Node)
    requires AllOpened(H, open, leaf, c.bottom)
    requires c.length > 0 ==> Opens(H, open, Edge(CalcHash(H, leaf, c.bottom), c.path, c.length))
    requires EdgeFact(n, HeldBy(H, nodes)) && EdgeFact(n, OpenedBy(H, open))
    ensures EdgeFact(n, HeldBy(H, NodesAfter(H, leaf, nodes, c)))
  {
    if n.length > 0 {
      NodesAfterHold(H, open, leaf, nodes, c, Edge(n.bottom, n.path, n.length));
    }
  }

  lemma LeafAfter<LF(!new)>(leaf: LeafOps<LF>, openLeaf: Hash -> LF, leaves: map<Hash, LF>, c: HashCalculation<LF>,
                            x: LF)
    requires forall y | ComputesLeaf(c, y) :: openLeaf(leaf.hash(y)) == y
    requires openLeaf(leaf.hash(x)) == x
    requires (leaf.hash(x) in leaves && leaves[leaf.hash(x)] == x) || ComputesLeaf(c, x)
    ensures var after := leaves + LeavesAfter(leaf, c, map[]);
            leaf.hash(x) in after && after[leaf.hash(x)] == x
  {
    LeavesAfterMerge(leaf, c, leaves, map[]);
    assert leaves + map[] == leaves;
    LeavesAfterHolds(leaf, openLeaf, c, leaves, x);
  }

  /** Facts that do not collide stay in the storage. */
  ghost predicate NodesKept(H: HashFunction, open: Hash -> Fact, nodes: Store, nodes': Store) {
    forall a | Opens(H, open, a) && Holds(H, nodes, a) :: Holds(H, nodes', a)
  }

  ghost predicate LeafStored<LF>(leaf: LeafOps<LF>, leaves: map<Hash, LF>, x: LF) {
    leaf.hash(x) in leaves && leaves[leaf.hash(x)] == x
  }

  ghost predicate LeavesKept<LF(!new)>(leaf: LeafOps<LF>, openLeaf: Hash -> LF, leaves: map<Hash, LF>,
                                       leaves': map<Hash, LF>) {
    forall x | openLeaf(leaf.hash(x)) == x && LeafStored(leaf, leaves, x) :: LeafStored(leaf, leaves', x)
  }

  /** A tree stays stored while facts that do not collide with it are added. */
  lemma TreeStaysStored<LF(!new)>(H: HashFunction, leaf: LeafOps<LF>, open: Hash -> Fact, openLeaf: Hash -> LF,
                                  nodes: Store, nodes': Store, leaves: map<Hash, LF>, leaves': map<Hash, LF>,
                                  g: nat -> LF, height: nat, root: Hash)
    requires TreeStored(H, leaf, nodes, leaves, g, height, root) && NoCollisions(H, leaf, open, openLeaf, g, height)
    requires NodesKept(H, open, nodes, nodes') && LeavesKept(leaf, openLeaf, leaves, leaves')
    ensures TreeStored(H, leaf, nodes', leaves', g, height, root)
  {
    var t := TreeWith(H, leaf, g);
    FactsImply(t, height, 0, OpenedBy(H, open), HeldBy(H, nodes), HeldBy(H, nodes'));
    forall j: nat | Below(height, 0, j)
      ensures LeafStored(leaf, leaves', g(j))
    {
      assert HashesOf(leaf, g)(j) in leaves;
      assert LeafStored(leaf, leaves, g(j));
    }
  }

  lemma NodesAreKept<LF>(H: HashFunction, open: Hash -> Fact, leaf: LeafOps<LF>, nodes: Store, c: CalculationNode<LF>)
    requires AllOpened(H, open, leaf, c.bottom)
    requires c.length > 0 ==> Opens(H, open, Edge(CalcHash(H, leaf, c.bottom), c.path, c.length))
    ensures NodesKept(H, open, nodes, NodesAfter(H, leaf, nodes, c))
  {
    forall a | Opens(H, open, a) && Holds(H, nodes, a)
      ensures Holds(H, NodesAfter(H, leaf, nodes, c), a)
    {
      NodesAfterHold(H, open, leaf, nodes, c, a);
    }
  }

  lemma StaysSane<LF>(H: HashFunction, open: Hash -> Fact, leaf: LeafOps<LF>, nodes: Store, c: CalculationNode<LF>)
    requires AllOpened(H, open, leaf, c.bottom) && ProperEdges(c.bottom) && Sane(nodes)
    requires c.length > 0 ==> Opens(H, open, Edge(CalcHash(H, leaf, c.bottom), c.path, c.length))
    ensures Sane(NodesAfter(H, leaf, nodes, c))
  {
    InnerAfterMerge(H, leaf, c.bottom, nodes, map[]);
    assert nodes + map[] == nodes;
    InnerAfterSane(H, open, leaf, c.bottom, nodes);
  }

  /** After the update the leaves of the new tree and those of the old one can be fetched. */
  lemma LeavesAfterUpdate<LF(!new)>(leaf: LeafOps<LF>, openLeaf: Hash -> LF, leaves: map<Hash, LF>,
                                    c: HashCalculation<LF>,
                                    g: nat -> LF, modifications: seq<Modification<LF>>, height: nat)
    requires LeavesComputed(leaf, Collect(modifications), height, 0, c) && InRange(height, modifications)
    requires LeavesHeld(leaves, HashesOf(leaf, g), g, height, 0) && EmptyLeafStored(leaf, leaves, openLeaf)
    requires LeavesRecovered(leaf, openLeaf, g, height)
    requires LeavesRecovered(leaf, openLeaf, Modified(g, modifications), height)
    ensures var g' := Modified(g, modifications);
            var after := leaves + LeavesAfter(leaf, c, map[]);
            && LeavesHeld(after, HashesOf(leaf, g), g, height, 0)
            && LeavesHeld(after, HashesOf(leaf, g'), g', height, 0)
            && EmptyLeafStored(leaf, after, openLeaf) && LeavesKept(leaf, openLeaf, leaves, after)
  {
    var m, g' := Collect(modifications), Modified(g, modifications);
    var after := leaves + LeavesAfter(leaf, c, map[]);
    forall y | ComputesLeaf(c, y)
      ensures openLeaf(leaf.hash(y)) == y
    {
      var j :| j in m && m[j] == y;
      ModifiedBelow(modifications, height, j);
      assert g'(j) == y;
    }
    forall j: nat | Below(height, 0, j)
      ensures leaf.hash(g(j)) in after && after[leaf.hash(g(j))] == g(j)
      ensures leaf.hash(g'(j)) in after && after[leaf.hash(g'(j))] == g'(j)
    {
      LeafAfter(leaf, openLeaf, leaves, c, g(j));
      assert HashesOf(leaf, g)(j) in leaves;
      LeafAfter(leaf, openLeaf, leaves, c, g'(j));
    }
    LeafAfter(leaf, openLeaf, leaves, c, openLeaf(EMPTY));
    forall x | openLeaf(leaf.hash(x)) == x && LeafStored(leaf, leaves, x)
      ensures LeafStored(leaf, after, x)
    {
      LeafAfter(leaf, openLeaf, leaves, c, x);
    }
  }

  lemma ModifiedBelow<LF>(modifications: seq<Modification<LF>>, height: nat, j: nat)
    requires InRange(height, modifications) && j in Collect(modifications)
    ensures Below(height, 0, j)
  {
    CollectKeys(modifications);
    DivModUnique(j, Pow2(height), 0, j);
  }

  ghost predicate LeavesRecovered<LF>(leaf: LeafOps<LF>, openLeaf: Hash -> LF, g: nat -> LF, height: nat) {
    forall j: nat | Below(height, 0, j) ::
      openLeaf(leaf.hash(g(j))) == g(j) && (leaf.isEmpty(g(j)) <==> leaf.hash(g(j)) == EMPTY)
  }

  // ----- The operations -----

  /** What an update assumes: the tree is stored, its indices are in range, and neither
      it nor the updated tree has colliding facts. */
  ghost predicate UpdateReady<LF>(H: HashFunction, leaf: LeafOps<LF>, open: Hash -> Fact, openLeaf: Hash -> LF,
                                  nodes: Store, leaves: map<Hash, LF>, g: nat -> LF, height: nat, root: Hash,
                                  modifications: seq<Modification<LF>>) {
    && TreeStored(H, leaf, nodes, leaves, g, height, root) && EmptyLeafStored(leaf, leaves, openLeaf)
    && InRange(height, modifications)
    && NoCollisions(H, leaf, open, openLeaf, g, height)
    && NoCollisions(H, leaf, open, openLeaf, Modified(g, modifications), height)
  }

  lemma ReadyToUpdate<LF>(H: HashFunction, leaf: LeafOps<LF>, open: Hash -> Fact, openLeaf: Hash -> LF,
                          nodes: Store, leaves: map<Hash, LF>, g: nat -> LF, height: nat, root: Hash,
                          modifications: seq<Modification<LF>>)
    requires UpdateReady(H, leaf, open, openLeaf, nodes, leaves, g, height, root, modifications)
    ensures Updating(nodes, leaf, open, TreeWith(H, leaf, g), TreeWith(H, leaf, Modified(g, modifications)),
                     Collect(modifications), FromHash(root, height), height, 0)
  {
    var t, t' := TreeWith(H, leaf, g), TreeWith(H, leaf, Modified(g, modifications));
    ModifiedEmptyByHash(leaf, openLeaf, g, height, modifications);
    var n := Canon(H, HashesOf(leaf, g), height, 0);
    assert t.node(height, 0) == n;
  }

  lemma ModifiedEmptyByHash<LF>(leaf: LeafOps<LF>, openLeaf: Hash -> LF, g: nat -> LF, height: nat,
                                modifications: seq<Modification<LF>>)
    requires InRange(height, modifications) && LeavesRecovered(leaf, openLeaf, Modified(g, modifications), height)
    ensures EmptyByHash(leaf, Collect(modifications))
  {
    var m := Collect(modifications);
    forall j | j in m
      ensures leaf.isEmpty(m[j]) <==> leaf.hash(m[j]) == EMPTY
    {
      ModifiedBelow(modifications, height, j);
      assert Modified(g, modifications)(j) == m[j];
    }
  }

  ghost function Everywhere<LF>(x: LF): nat -> LF {
    (j: nat) => x
  }

  /** A tree without leaves has no facts either. */
  lemma {:induction false} EmptyFacts(t: Tree, h: nat, i: nat, p: FactPredicate)
    requires Built(t) && forall j: nat :: t.leaf(j) == EMPTY
    ensures t.node(h, i) == EMPTY_NODE && AllFacts(t, h, i, p)
    decreases h
  {
    Opened(t, h, i);
    if h > 0 {
      EmptyFacts(t, h - 1, 2 * i, p);
      EmptyFacts(t, h - 1, 2 * i + 1, p);
    }
  }

  /** The empty leaf is recovered from the empty hash. */
  ghost predicate EmptyLeaf<LF>(leaf: LeafOps<LF>, openLeaf: Hash -> LF, empty: LF) {
    leaf.hash(empty) == EMPTY && leaf.isEmpty(empty) && openLeaf(EMPTY) == empty
  }

  lemma EmptyTreeStored<LF>(H: HashFunction, leaf: LeafOps<LF>, open: Hash -> Fact, openLeaf: Hash -> LF, nodes: Store,
                            leaves: map<Hash, LF>, height: nat, empty: LF)
    requires EmptyLeaf(leaf, openLeaf, empty) && EMPTY in leaves && leaves[EMPTY] == empty
    ensures TreeStored(H, leaf, nodes, leaves, Everywhere(empty), height, EMPTY)
    ensures EmptyLeafStored(leaf, leaves, openLeaf) && NoCollisions(H, leaf, open, openLeaf, Everywhere(empty), height)
  {
    var t := TreeWith(H, leaf, Everywhere(empty));
    EmptyFacts(t, height, 0, HeldBy(H, nodes));
    EmptyFacts(t, height, 0, OpenedBy(H, open));
    var n := Canon(H, HashesOf(leaf, Everywhere(empty)), height, 0);
    assert t.node(height, 0) == n;
  }

  /** Creates an empty tree, whose root is the hash of the empty leaf. */
  method EmptyTree<LF(!new)>(leaf: LeafOps<LF>, storage: FactStorage<LF>, height: nat, empty: LF,
                             ghost H: HashFunction, ghost open: Hash -> Fact, ghost openLeaf: Hash -> LF)
    returns (root: Hash)
    modifies storage
    ensures EmptyLeaf(leaf, openLeaf, empty) ==>
      && root == EMPTY && EmptyLeafStored(leaf, storage.leaves, openLeaf)
      && TreeStored(H, leaf, storage.nodes, storage.leaves, Everywhere(empty), height, root)
      && NoCollisions(H, leaf, open, openLeaf, Everywhere(empty), height)
  {
    root := leaf.hash(empty);
    storage.leaves := storage.leaves[root := empty];
    if EmptyLeaf(leaf, openLeaf, empty) {
      EmptyTreeStored(H, leaf, open, openLeaf, storage.nodes, storage.leaves, height, empty);
    }
  }

  /** Hashes a calculation, writes its facts to the storage and adds them to those read; a root that
      is an edge has a fact of its own. */
  method WriteCalculation<LF>(H: HashFunction, leaf: LeafOps<LF>, storage: FactStorage<LF>, c: CalculationNode<LF>,
                              read: Store)
    returns (r: Result<Hash>, facts: Store)
    modifies storage
    ensures r.Ok? <==> c.length == 0 || c.path < Pow2(c.length)
    ensures r.Ok? ==>
      && r.value == CalcHash(H, leaf, Commit(c)) && facts == NodesAfter(H, leaf, read, c)
      && storage.nodes == NodesAfter(H, leaf, old(storage.nodes), c)
      && storage.leaves == old(storage.leaves) + LeavesAfter(leaf, c.bottom, map[])
  {
    var newFacts := new NodeFactDict<LF>();
    var bottom := FullCalculate(H, leaf, c.bottom, newFacts);
    storage.WriteFactNodes(newFacts);
    facts := SetAll(read, newFacts.innerNodes);
    if c.length == 0 {
      return Ok(bottom), facts;
    }
    if c.path >= Pow2(c.length) {
      return Err, map[];
    }
    var edge := Edge(bottom, c.path, c.length);
    storage.nodes, facts := storage.nodes[H(edge) := edge], facts[H(edge) := edge];
    r := Ok(H(edge));
  }

  method Update<LF(!new)>(H: HashFunction, leaf: LeafOps<LF>, storage: FactStorage<LF>, root: Hash, height: nat,
                          modifications: seq<Modification<LF>>,
                          ghost g: nat -> LF, ghost open: Hash -> Fact, ghost openLeaf: Hash -> LF)
    returns (r: Result<Hash>, facts: Store)
    modifies storage
    ensures !InRange(height, modifications) ==> r.Err?
    ensures var g' := Modified(g, modifications);
            old(UpdateReady(H, leaf, open, openLeaf, storage.nodes, storage.leaves, g, height, root, modifications)) ==>
              && r == Ok(RootOf(H, leaf, g', height))
              && TreeStored(H, leaf, storage.nodes, storage.leaves, g', height, r.value)
              && TreeStored(H, leaf, storage.nodes, storage.leaves, g, height, root)
              && EmptyLeafStored(leaf, storage.leaves, openLeaf)
              && NodesKept(H, open, old(storage.nodes), storage.nodes)
              && LeavesKept(leaf, openLeaf, old(storage.leaves), storage.leaves)
              && (old(Sane(storage.nodes)) ==> Sane(storage.nodes))
              && exists hashes ::
                   Gathered(H, leaf, old(storage.nodes), root, height, Collect(modifications), hashes, facts)
  {
    ghost var ready := UpdateReady(H, leaf, open, openLeaf, storage.nodes, storage.leaves, g, height, root,
                                   modifications);
    ghost var nodes, leaves := storage.nodes, storage.leaves;
    var built, hashes := BuildUpdatedCalculation(TreeOps(storage.nodes, leaf), FromHash(root, height), height,
                                                 modifications);
    if ready {
      ghost var c := Calculation(H, leaf, open, openLeaf, nodes, leaves, g, height, root, modifications);
      UpdateStores(H, leaf, open, openLeaf, nodes, leaves, g, height, root, modifications, c);
      assert built == Ok(c);
    }
    if built.Err? {
      return Err, map[];
    }
    r, facts := WriteCalculation(H, leaf, storage, built.value, ReadFacts(storage.nodes, hashes));
    assert ready && r.Ok? ==> Gathered(H, leaf, nodes, root, height, Collect(modifications), hashes, facts);
  }

  lemma Calculation<LF(!new)>(H: HashFunction, leaf: LeafOps<LF>, open: Hash -> Fact, openLeaf: Hash -> LF,
                              nodes: Store, leaves: map<Hash, LF>, g: nat -> LF, height: nat, root: Hash,
                              modifications: seq<Modification<LF>>)
    returns (c: CalculationNode<LF>)
    requires UpdateReady(H, leaf, open, openLeaf, nodes, leaves, g, height, root, modifications)
    ensures Calc(TreeOps(nodes, leaf), FromHash(root, height), TreeOf(Collect(modifications), height, 0)) == Ok(c)
    ensures CalculatedWithLeaves(nodes, leaf, open, TreeWith(H, leaf, Modified(g, modifications)),
                                 Collect(modifications), height, 0, c)
  {
    ReadyToUpdate(H, leaf, open, openLeaf, nodes, leaves, g, height, root, modifications);
    c := CalcCorrect(nodes, leaf, open, TreeWith(H, leaf, g), TreeWith(H, leaf, Modified(g, modifications)),
                     Collect(modifications), FromHash(root, height), height, 0);
  }

  lemma UpdateStores<LF(!new)>(H: HashFunction, leaf: LeafOps<LF>, open: Hash -> Fact, openLeaf: Hash -> LF,
                               nodes: Store, leaves: map<Hash, LF>, g: nat -> LF, height: nat, root: Hash,
                               modifications: seq<Modification<LF>>, c: CalculationNode<LF>)
    requires UpdateReady(H, leaf, open, openLeaf, nodes, leaves, g, height, root, modifications)
    requires CalculatedWithLeaves(nodes, leaf, open, TreeWith(H, leaf, Modified(g, modifications)),
                                  Collect(modifications), height, 0, c)
    ensures var g' := Modified(g, modifications);
            var nodes' := NodesAfter(H, leaf, nodes, c);
            var leaves' := leaves + LeavesAfter(leaf, c.bottom, map[]);
            var root' := CalcHash(H, leaf, Commit(c));
            && c.path < Pow2(c.length)
            && root' == RootOf(H, leaf, g', height)
            && TreeStored(H, leaf, nodes', leaves', g', height, root')
            && TreeStored(H, leaf, nodes', leaves', g, height, root)
            && EmptyLeafStored(leaf, leaves', openLeaf)
            && NodesKept(H, open, nodes, nodes') && LeavesKept(leaf, openLeaf, leaves, leaves')
            && (Sane(nodes) ==> Sane(nodes'))
  {
    var t, t' := TreeWith(H, leaf, g), TreeWith(H, leaf, Modified(g, modifications));
    TreesAfter(open, leaf, nodes, c, t, t', height);
    LeavesAfterUpdate(leaf, openLeaf, leaves, c.bottom, g, modifications, height);
    var n := Canon(H, HashesOf(leaf, Modified(g, modifications)), height, 0);
    assert t'.node(height, 0) == n;
    NodeProper(t', open, height, 0);
    NodesAreKept(H, open, leaf, nodes, c);
    if Sane(nodes) {
      StaysSane(H, open, leaf, nodes, c);
    }
  }

  /** Reads leaves of a stored tree: exactly the requested indices, each with its leaf. */
  method GetTreeLeaves<LF(!new)>(leaf: LeafOps<LF>, storage: FactStorage<LF>, root: Hash, height: nat,
                                 indices: seq<nat>, ghost H: HashFunction, ghost g: nat -> LF, ghost open: Hash -> Fact,
                                 ghost openLeaf: Hash -> LF)
    returns (r: Result<map<nat, LF>>)
    ensures TreeStored(H, leaf, storage.nodes, storage.leaves, g, height, root)
            && NoCollisions(H, leaf, open, openLeaf, g, height) && AllBelow(indices, Pow2(height))
        ==> r == Ok(map k | k in indices :: g(k))
  {
    ghost var t := TreeWith(H, leaf, g);
    r := GetLeaves(storage.nodes, storage.leaves, FromHash(root, height), indices, t, open, g, 0);
    if TreeStored(H, leaf, storage.nodes, storage.leaves, g, height, root)
       && NoCollisions(H, leaf, open, openLeaf, g, height) && AllBelow(indices, Pow2(height)) {
      RootReadable(H, leaf, storage.nodes, storage.leaves, g, height, root, open, openLeaf);
      assert LeafMap(indices, Base(0, height), g) == map k | k in indices :: g(k);
    }
  }

  lemma RootReadable<LF>(H: HashFunction, leaf: LeafOps<LF>, nodes: Store, leaves: map<Hash, LF>, g: nat -> LF,
                         height: nat, root: Hash, open: Hash -> Fact, openLeaf: Hash -> LF)
    requires TreeStored(H, leaf, nodes, leaves, g, height, root) && NoCollisions(H, leaf, open, openLeaf, g, height)
    ensures Fetchable(nodes, leaves, FromHash(root, height), TreeWith(H, leaf, g), open, g, 0)
  {
    var n := Canon(H, HashesOf(leaf, g), height, 0);
    assert TreeWith(H, leaf, g).node(height, 0) == n;
  }

  /** The modified leaves are the last modification of each index and the previous leaf elsewhere. */
  lemma ModifiedIsLastWrite<LF>(g: nat -> LF, modifications: seq<Modification<LF>>, j: nat)
    ensures forall n: nat | LastWrite(modifications, j, n) :: Modified(g, modifications)(j) == modifications[n].1
    ensures (forall n: nat :: !LastWrite(modifications, j, n)) ==> Modified(g, modifications)(j) == g(j)
  {
    CollectIsLastWrite(modifications, j);
  }

  /** Read after write: an updated tree reads back its modified leaves at the requested indices. */
  method UpdateThenRead<LF(!new)>(H: HashFunction, leaf: LeafOps<LF>, storage: FactStorage<LF>, root: Hash, height: nat,
                                  modifications: seq<Modification<LF>>, indices: seq<nat>,
                                  ghost g: nat -> LF, ghost open: Hash -> Fact, ghost openLeaf: Hash -> LF)
    returns (r: Result<map<nat, LF>>)
    modifies storage
    ensures old(UpdateReady(H, leaf, open, openLeaf, storage.nodes, storage.leaves, g, height, root, modifications))
            && AllBelow(indices, Pow2(height))
        ==> r == Ok(map k | k in indices :: Modified(g, modifications)(k))
  {
    var updated, _ := Update(H, leaf, storage, root, height, modifications, g, open, openLeaf);
    if updated.Err? {
      return Err;
    }
    r := GetTreeLeaves(leaf, storage, updated.value, height, indices, H, Modified(g, modifications), open, openLeaf);
  }

  /** The root depends only on the leaves, not on the updates they came from. */
  lemma LeavesDetermineRoot<LF>(H: HashFunction, leaf: LeafOps<LF>, g: nat -> LF, g': nat -> LF, height: nat)
    requires forall j: nat | j < Pow2(height) :: g(j) == g'(j)
    ensures RootOf(H, leaf, g, height) == RootOf(H, leaf, g', height)
  {
    var t, t' := TreeWith(H, leaf, g), TreeWith(H, leaf, g');
    NodeDepends(t, t', height, 0);
    var n, n' := Canon(H, t.leaf, height, 0), Canon(H, t'.leaf, height, 0);
  }

  lemma SameRootSameLeaf<LF>(H: HashFunction, leaf: LeafOps<LF>, open: Hash -> Fact, openLeaf: Hash -> LF,
                             g: nat -> LF, g': nat -> LF, height: nat, j: nat)
    requires NoCollisions(H, leaf, open, openLeaf, g, height) && NoCollisions(H, leaf, open, openLeaf, g', height)
    requires RootOf(H, leaf, g, height) == RootOf(H, leaf, g', height) && j < Pow2(height)
    ensures g(j) == g'(j)
  {
    var t, t' := TreeWith(H, leaf, g), TreeWith(H, leaf, g');
    var n, n' := Canon(H, t.leaf, height, 0), Canon(H, t'.leaf, height, 0);
    assert t.node(height, 0) == n && t'.node(height, 0) == n';
    HashDeterminesNode(t, t', open, height, 0);
    NodeDeterminesLeaves(t, t', open, height, 0);
    DivModUnique(j, Pow2(height), 0, j);
    assert Below(height, 0, j);
    assert t.leaf(j) == t'.leaf(j);
  }

  /** The root binds the leaves: trees without collisions among their facts that share a root have the same leaves. */
  lemma RootBindsLeaves<LF>(H: HashFunction, leaf: LeafOps<LF>, open: Hash -> Fact, openLeaf: Hash -> LF,
                            g: nat -> LF, g': nat -> LF, height: nat)
    requires NoCollisions(H, leaf, open, openLeaf, g, height) && NoCollisions(H, leaf, open, openLeaf, g', height)
    ensures RootOf(H, leaf, g, height) == RootOf(H, leaf, g', height)
       <==> forall j: nat | j < Pow2(height) :: g(j) == g'(j)
  {
    if RootOf(H, leaf, g, height) == RootOf(H, leaf, g', height) {
      forall j: nat | j < Pow2(height)
        ensures g(j) == g'(j)
      {
        SameRootSameLeaf(H, leaf, open, openLeaf, g, g', height, j);
      }
    }
    if forall j: nat | j < Pow2(height) :: g(j) == g'(j) {
      LeavesDetermineRoot(H, leaf, g, g', height);
    }
  }
}
