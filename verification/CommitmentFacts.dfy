/** The facts gathered by an update are those the OS needs to walk down both trees
    to the modified leaves. */
module CommitmentFacts {
  import opened Basics
  import opened UpdateTrees
  import opened TreeTraverser
  import opened Patricia
  import opened VirtualNodes
  import opened VirtualCalculations
  import opened PatriciaTree
  import D = Descents

  // ----- The previous tree: every node with updates below it was read -----

  /** A fact whose hash was read is among the facts read. */
  lemma ReadHolds(H: HashFunction, nodes: Store, hashes: set<Hash>, fact: Fact)
    requires Holds(H, nodes, fact) && H(fact) in hashes
    ensures Holds(H, ReadFacts(nodes, hashes), fact)
  {
  }

  lemma OpenedTuple<LF>(store: Store, leaf: LeafOps<LF>, v: VirtualNode, m: map<nat, LF>, h: nat, i: nat,
                        hashes: set<Hash>)
    requires h > 0 && Under(m, h, i) && GetChildren(store, v).Ok?
    requires FactsOpened(TreeOps(store, leaf), v, TreeOf(m, h, i)) <= hashes
    ensures ChildFacts(v) <= hashes
    ensures var (vl, vr) := GetChildren(store, v).value;
            && FactsOpened(TreeOps(store, leaf), vl, TreeOf(m, h - 1, 2 * i)) <= hashes
            && FactsOpened(TreeOps(store, leaf), vr, TreeOf(m, h - 1, 2 * i + 1)) <= hashes
  {
    TreeOfEmpty(m, h, i);
  }

  /** A node that was opened below its hash has its own fact read. */
  lemma OpenedFact(store: Store, v: VirtualNode, t: Tree, open: Hash -> Fact, h: nat, i: nat, hashes: set<Hash>)
    requires h > 0 && Built(t) && Readable(store, v, t, open, h, i) && ChildFacts(v) <= hashes
    ensures var p, l, r := HeldBy(t.hash, ReadFacts(store, hashes)), Lower(t, h, i), Upper(t, h, i);
            && (l != EMPTY_NODE && r != EMPTY_NODE ==> p(Binary(NodeHash(t.hash, l), NodeHash(t.hash, r))))
            && (v.node != t.node(h, i) ==> EdgeFact(t.node(h, i), p))
  {
    Halves(t, open, h, i);
    var n, l, r := t.node(h, i), Lower(t, h, i), Upper(t, h, i);
    if l != EMPTY_NODE && r != EMPTY_NODE {
      ReadHolds(t.hash, store, hashes, Binary(NodeHash(t.hash, l), NodeHash(t.hash, r)));
    }
    if v.node != n {
      ReadHolds(t.hash, store, hashes, Edge(n.bottom, n.path, n.length));
    }
  }

  lemma {:induction false} OpenedKnown<LF>(store: Store, leaf: LeafOps<LF>, v: VirtualNode, t: Tree, open: Hash -> Fact,
                                           m: map<nat, LF>, h: nat, i: nat, hashes: set<Hash>)
    requires Built(t) && Readable(store, v, t, open, h, i)
    requires FactsOpened(TreeOps(store, leaf), v, TreeOf(m, h, i)) <= hashes
    ensures D.Known(HeldBy(t.hash, ReadFacts(store, hashes)), t, m, h, i)
    ensures v.node != t.node(h, i) ==> D.EdgeKnown(HeldBy(t.hash, ReadFacts(store, hashes)), t, m, h, i)
    decreases h
  {
    if h > 0 && Under(m, h, i) {
      ChildrenReadable(store, v, t, open, h, i);
      var (vl, vr) := GetChildren(store, v).value;
      OpenedTuple(store, leaf, v, m, h, i, hashes);
      OpenedFact(store, v, t, open, h, i, hashes);
      OpenedKnown(store, leaf, vl, t, open, m, h - 1, 2 * i, hashes);
      OpenedKnown(store, leaf, vr, t, open, m, h - 1, 2 * i + 1, hashes);
      if Lower(t, h, i) != EMPTY_NODE && Upper(t, h, i) != EMPTY_NODE {
        OpenedChildren(store, v, t, open, h, i);
      }
    }
  }

  /** Below a binary node edges are given by their hash. */
  lemma OpenedChildren(store: Store, v: VirtualNode, t: Tree, open: Hash -> Fact, h: nat, i: nat)
    requires h > 0 && Built(t) && Readable(store, v, t, open, h, i) && GetChildren(store, v).Ok?
    requires Lower(t, h, i) != EMPTY_NODE && Upper(t, h, i) != EMPTY_NODE
    ensures var (vl, vr) := GetChildren(store, v).value;
            && (Lower(t, h, i).length > 0 ==> vl.node != Lower(t, h, i))
            && (Upper(t, h, i).length > 0 ==> vr.node != Upper(t, h, i))
  {
    Halves(t, open, h, i);
  }

  // ----- The new tree: every node with updates below it was calculated -----

  lemma {:induction false} KnownImplies<LF>(t: Tree, m: map<nat, LF>, h: nat, i: nat, o: FactPredicate,
                                            p: FactPredicate, q: FactPredicate)
    requires AllFacts(t, h, i, o) && D.Known(p, t, m, h, i)
    requires forall a | o(a) && p(a) :: q(a)
    ensures D.Known(q, t, m, h, i)
    decreases h
  {
    if h > 0 && Under(m, h, i) {
      KnownImplies(t, m, h - 1, 2 * i, o, p, q);
      KnownImplies(t, m, h - 1, 2 * i + 1, o, p, q);
    }
  }

  /** `c` calculates the node at `(h, i)` and the facts on the paths from it to the updates. */
  ghost predicate Calculates<LF>(leaf: LeafOps<LF>, t: Tree, m: map<nat, LF>, h: nat, i: nat, c: CalculationNode<LF>) {
    && (h > 0 && Under(m, h, i) ==> NodeOf(t.hash, leaf, c) == t.node(h, i))
    && D.Known(ComputedBy(t.hash, leaf, c.bottom), t, m, h, i)
  }

  lemma CombinedKnown<LF(!new)>(store: Store, leaf: LeafOps<LF>, open: Hash -> Fact, t: Tree, m: map<nat, LF>, h: nat,
                                i: nat, l: CalculationNode<LF>, r: CalculationNode<LF>)
    requires h > 0 && Built(t) && AllFacts(t, h, i, OpenedBy(t.hash, open))
    requires Calculated(store, leaf, open, t, h - 1, 2 * i, l) && Calculated(store, leaf, open, t, h - 1, 2 * i + 1, r)
    requires Calculates(leaf, t, m, h - 1, 2 * i, l) && Calculates(leaf, t, m, h - 1, 2 * i + 1, r)
    ensures Combine(store, leaf, l, r).Ok? && Calculates(leaf, t, m, h, i, Combine(store, leaf, l, r).value)
  {
    var nl, nr := Lower(t, h, i), Upper(t, h, i);
    Halves(t, open, h, i);
    CombineExact(t.hash, open, store, leaf, l, r, nl, nr, h - 1);
    CombineComputes(t.hash, open, store, leaf, l, r, nl, nr, h - 1);
    var c := Combine(store, leaf, l, r).value;
    var p := ComputedBy(t.hash, leaf, c.bottom);
    KnownImplies(t, m, h - 1, 2 * i, OpenedBy(t.hash, open), ComputedBy(t.hash, leaf, l.bottom), p);
    KnownImplies(t, m, h - 1, 2 * i + 1, OpenedBy(t.hash, open), ComputedBy(t.hash, leaf, r.bottom), p);
    if nl != EMPTY_NODE && nr != EMPTY_NODE {
      CombineComputesEdges(t.hash, open, store, leaf, l, r, nl, nr);
    }
  }

  lemma {:induction false} CalcKnown<LF(!new)>(store: Store, leaf: LeafOps<LF>, open: Hash -> Fact, t: Tree, t': Tree,
                                               m: map<nat, LF>, v: VirtualNode, h: nat, i: nat)
    returns (c: CalculationNode<LF>)
    requires Updating(store, leaf, open, t, t', m, v, h, i)
    ensures Calc(TreeOps(store, leaf), v, TreeOf(m, h, i)) == Ok(c)
    ensures Calculated(store, leaf, open, t', h, i, c) && Calculates(leaf, t', m, h, i, c)
    decreases h
  {
    TreeOfEmpty(m, h, i);
    if h == 0 || TreeOf(m, h, i) == NoUpdate {
      c := CalcCorrect(store, leaf, open, t, t', m, v, h, i);
    } else {
      UpdatingChildren(store, leaf, open, t, t', m, v, h, i);
      var (vl, vr) := GetChildren(store, v).value;
      var l := CalcKnown(store, leaf, open, t, t', m, vl, h - 1, 2 * i);
      var r := CalcKnown(store, leaf, open, t, t', m, vr, h - 1, 2 * i + 1);
      CombinedCalculated(store, leaf, open, t', h, i, l, r);
      CombinedKnown(store, leaf, open, t', m, h, i, l, r);
      CalcTuple(store, leaf, v, TreeOf(m, h, i), vl, vr, l, r);
      c := Combine(store, leaf, l, r).value;
    }
  }

  // ----- Both -----

  /** Facts of a tree that were read or calculated are among the gathered ones. */
  lemma GatheredKnown<LF>(H: HashFunction, open: Hash -> Fact, leaf: LeafOps<LF>, read: Store, c: CalculationNode<LF>,
                          t: Tree, m: map<nat, LF>, height: nat, p: FactPredicate)
    requires t.hash == H && AllOpened(H, open, leaf, c.bottom) && CollisionFree(t, height, open)
    requires c.length > 0 ==> Opens(H, open, Edge(CalcHash(H, leaf, c.bottom), c.path, c.length))
    requires D.Known(p, t, m, height, 0)
    requires forall a | p(a) :: Holds(H, read, a) || Computes(H, leaf, c.bottom, a)
    ensures var q := HeldBy(H, NodesAfter(H, leaf, read, c));
            && D.Known(q, t, m, height, 0)
            && (D.EdgeKnown(p, t, m, height, 0) ==> D.EdgeKnown(q, t, m, height, 0))
  {
    var q := HeldBy(H, NodesAfter(H, leaf, read, c));
    forall a | Opens(H, open, a) && p(a)
      ensures q(a)
    {
      NodesAfterHold(H, open, leaf, read, c, a);
    }
    KnownImplies(t, m, height, 0, OpenedBy(H, open), p, q);
  }

  ghost predicate Writable<LF>(H: HashFunction, open: Hash -> Fact, leaf: LeafOps<LF>, c: CalculationNode<LF>) {
    && AllOpened(H, open, leaf, c.bottom) && ProperEdges(c.bottom)
    && (c.length > 0 ==> Opens(H, open, Edge(CalcHash(H, leaf, c.bottom), c.path, c.length)))
  }

  lemma PreviousKnown<LF>(nodes: Store, leaf: LeafOps<LF>, open: Hash -> Fact, t: Tree, m: map<nat, LF>, height: nat,
                          hashes: set<Hash>, c: CalculationNode<LF>)
    requires Built(t) && CollisionFree(t, height, open) && Writable(t.hash, open, leaf, c) && Sane(nodes)
    requires var v := FromHash(NodeHash(t.hash, t.node(height, 0)), height);
             && Readable(nodes, v, t, open, height, 0)
             && FactsOpened(TreeOps(nodes, leaf), v, TreeOf(m, height, 0)) <= hashes
    ensures D.RootKnown(NodesAfter(t.hash, leaf, ReadFacts(nodes, hashes), c), t, open, m, height,
                        NodeHash(t.hash, t.node(height, 0)))
  {
    var v, read := FromHash(NodeHash(t.hash, t.node(height, 0)), height), ReadFacts(nodes, hashes);
    OpenedKnown(nodes, leaf, v, t, open, m, height, 0, hashes);
    GatheredKnown(t.hash, open, leaf, read, c, t, m, height, HeldBy(t.hash, read));
    StaysSane(t.hash, open, leaf, read, c);
  }

  lemma NextKnown<LF>(read: Store, leaf: LeafOps<LF>, open: Hash -> Fact, t: Tree, m: map<nat, LF>, height: nat,
                      c: CalculationNode<LF>)
    requires Built(t) && CollisionFree(t, height, open) && Writable(t.hash, open, leaf, c) && Sane(read)
    requires Calculates(leaf, t, m, height, 0, c)
    ensures D.RootKnown(NodesAfter(t.hash, leaf, read, c), t, open, m, height, NodeHash(t.hash, t.node(height, 0)))
  {
    GatheredKnown(t.hash, open, leaf, read, c, t, m, height, ComputedBy(t.hash, leaf, c.bottom));
    StaysSane(t.hash, open, leaf, read, c);
  }

  /** What is calculated for the root of a tree without collisions can be written. */
  lemma RootWritable<LF>(store: Store, leaf: LeafOps<LF>, open: Hash -> Fact, t: Tree, height: nat,
                         c: CalculationNode<LF>)
    requires Calculated(store, leaf, open, t, height, 0, c) && CollisionFree(t, height, open)
    ensures Writable(t.hash, open, leaf, c)
  {
  }

  /** The gathered facts suffice to walk down the previous tree and the new one. */
  lemma GatheredSuffice<LF(!new)>(H: HashFunction, leaf: LeafOps<LF>, open: Hash -> Fact, openLeaf: Hash -> LF,
                                  nodes: Store, leaves: map<Hash, LF>, g: nat -> LF, height: nat, root: Hash,
                                  modifications: seq<Modification<LF>>, hashes: set<Hash>, facts: Store)
    requires UpdateReady(H, leaf, open, openLeaf, nodes, leaves, g, height, root, modifications) && Sane(nodes)
    requires Gathered(H, leaf, nodes, root, height, Collect(modifications), hashes, facts)
    ensures var m, g' := Collect(modifications), Modified(g, modifications);
            && D.RootKnown(facts, TreeWith(H, leaf, g), open, m, height, root)
            && D.RootKnown(facts, TreeWith(H, leaf, g'), open, m, height, RootOf(H, leaf, g', height))
  {
    var m := Collect(modifications);
    var t, t' := TreeWith(H, leaf, g), TreeWith(H, leaf, Modified(g, modifications));
    ReadyToUpdate(H, leaf, open, openLeaf, nodes, leaves, g, height, root, modifications);
    var c := CalcKnown(nodes, leaf, open, t, t', m, FromHash(root, height), height, 0);
    RootWritable(nodes, leaf, open, t', height, c);
    RootIsNode(H, leaf, g, height);
    RootIsNode(H, leaf, Modified(g, modifications), height);
    PreviousKnown(nodes, leaf, open, t, m, height, hashes, c);
    NextKnown(ReadFacts(nodes, hashes), leaf, open, t', m, height, c);
  }

  lemma RootIsNode<LF>(H: HashFunction, leaf: LeafOps<LF>, g: nat -> LF, height: nat)
    ensures RootOf(H, leaf, g, height) == NodeHash(H, TreeWith(H, leaf, g).node(height, 0))
  {
    var n := Canon(H, HashesOf(leaf, g), height, 0);
    assert TreeWith(H, leaf, g).node(height, 0) == n;
  }
}
