/** Nodes of the updated tree before hashing: calculations that are combined
    bottom-up and hashed once the whole tree is known. */
module VirtualCalculations {
  import opened Basics
  import opened Patricia
  import opened VirtualNodes

  datatype HashCalculation<LF> =
    | BinaryCalculation(left: HashCalculation<LF>, right: HashCalculation<LF>)
    | EdgeCalculation(bottom: HashCalculation<LF>, path: nat, length: nat)
    | LeafFactCalculation(fact: LF)
    | ConstantCalculation(hash: Hash)

  /** A calculation below an edge of possibly zero length, at some height. */
  datatype CalculationNode<LF> =
    CalculationNode(bottom: HashCalculation<LF>, path: nat, length: nat, height: nat)

  /** How leaf facts are hashed and which of them are empty. */
  datatype LeafOps<!LF> = LeafOps(hash: LF -> Hash, isEmpty: LF -> bool)

  // ----- The calculated hash and the facts written on the way -----

  function CalcHash<LF>(H: HashFunction, leaf: LeafOps<LF>, c: HashCalculation<LF>): Hash {
    match c
    case BinaryCalculation(l, r) => H(Binary(CalcHash(H, leaf, l), CalcHash(H, leaf, r)))
    case EdgeCalculation(b, path, length) => H(Edge(CalcHash(H, leaf, b), path, length))
    case LeafFactCalculation(fact) => leaf.hash(fact)
    case ConstantCalculation(hash) => hash
  }

  /** `fact` is among the inner facts of the calculation. */
  ghost predicate Computes<LF>(H: HashFunction, leaf: LeafOps<LF>, c: HashCalculation<LF>, fact: Fact) {
    match c
    case BinaryCalculation(l, r) =>
      || fact == Binary(CalcHash(H, leaf, l), CalcHash(H, leaf, r))
      || Computes(H, leaf, l, fact) || Computes(H, leaf, r, fact)
    case EdgeCalculation(b, path, length) =>
      fact == Edge(CalcHash(H, leaf, b), path, length) || Computes(H, leaf, b, fact)
    case _ => false
  }

  /** `fact` is among the leaves of the calculation. */
  ghost predicate ComputesLeaf<LF>(c: HashCalculation<LF>, fact: LF) {
    match c
    case BinaryCalculation(l, r) => ComputesLeaf(l, fact) || ComputesLeaf(r, fact)
    case EdgeCalculation(b, _, _) => ComputesLeaf(b, fact)
    case LeafFactCalculation(f) => fact == f
    case ConstantCalculation(_) => false
  }

  class NodeFactDict<LF> {
    var innerNodes: Store
    var leaves: map<Hash, LF>

    constructor ()
      ensures innerNodes == map[] && leaves == map[]
    {
      innerNodes, leaves := map[], map[];
    }
  }

  function InnerAfter<LF>(H: HashFunction, leaf: LeafOps<LF>, c: HashCalculation<LF>, m: Store): Store {
    match c
    case BinaryCalculation(l, r) =>
      var fact := Binary(CalcHash(H, leaf, l), CalcHash(H, leaf, r));
      InnerAfter(H, leaf, r, InnerAfter(H, leaf, l, m))[H(fact) := fact]
    case EdgeCalculation(b, path, length) =>
      var fact := Edge(CalcHash(H, leaf, b), path, length);
      InnerAfter(H, leaf, b, m)[H(fact) := fact]
    case _ => m
  }

  function LeavesAfter<LF>(leaf: LeafOps<LF>, c: HashCalculation<LF>, m: map<Hash, LF>): map<Hash, LF> {
    match c
    case BinaryCalculation(l, r) => LeavesAfter(leaf, r, LeavesAfter(leaf, l, m))
    case EdgeCalculation(b, _, _) => LeavesAfter(leaf, b, m)
    case LeafFactCalculation(fact) => m[leaf.hash(fact) := fact]
    case ConstantCalculation(_) => m
  }

  method FullCalculate<LF>(H: HashFunction, leaf: LeafOps<LF>, c: HashCalculation<LF>, facts: NodeFactDict<LF>)
    returns (hash: Hash)
    modifies facts
    ensures hash == CalcHash(H, leaf, c)
    ensures facts.innerNodes == InnerAfter(H, leaf, c, old(facts.innerNodes))
    ensures facts.leaves == LeavesAfter(leaf, c, old(facts.leaves))
    decreases c
  {
    match c
    case BinaryCalculation(l, r) =>
      var left := FullCalculate(H, leaf, l, facts);
      var right := FullCalculate(H, leaf, r, facts);
      var fact := Binary(left, right);
      hash := H(fact);
      facts.innerNodes := facts.innerNodes[hash := fact];
    case EdgeCalculation(b, path, length) =>
      var bottom := FullCalculate(H, leaf, b, facts);
      var fact := Edge(bottom, path, length);
      hash := H(fact);
      facts.innerNodes := facts.innerNodes[hash := fact];
    case LeafFactCalculation(fact) =>
      hash := leaf.hash(fact);
      facts.leaves := facts.leaves[hash := fact];
    case ConstantCalculation(h) =>
      hash := h;
  }

  /** Without collisions, writing the facts of a calculation keeps every fact that
      was there and adds the new ones. */
  lemma {:induction false} InnerAfterHolds<LF>(H: HashFunction, open: Hash -> Fact, leaf: LeafOps<LF>,
                                               c: HashCalculation<LF>, m: Store, fact: Fact)
    requires forall a | Computes(H, leaf, c, a) :: Opens(H, open, a)
    requires Opens(H, open, fact)
    requires Holds(H, m, fact) || Computes(H, leaf, c, fact)
    ensures Holds(H, InnerAfter(H, leaf, c, m), fact)
    decreases c
  {
    match c
    case BinaryCalculation(l, r) =>
      var top := Binary(CalcHash(H, leaf, l), CalcHash(H, leaf, r));
      assert Computes(H, leaf, c, top);
      if fact != top {
        if Holds(H, m, fact) || Computes(H, leaf, l, fact) {
          InnerAfterHolds(H, open, leaf, l, m, fact);
        }
        InnerAfterHolds(H, open, leaf, r, InnerAfter(H, leaf, l, m), fact);
      }
    case EdgeCalculation(b, path, length) =>
      var top := Edge(CalcHash(H, leaf, b), path, length);
      assert Computes(H, leaf, c, top);
      if fact != top {
        InnerAfterHolds(H, open, leaf, b, m, fact);
      }
    case _ =>
  }

  // ----- Combining -----

  function IsEmpty<LF>(leaf: LeafOps<LF>, v: CalculationNode<LF>): bool {
    match v.bottom
    case ConstantCalculation(hash) => hash == EMPTY
    case LeafFactCalculation(fact) => leaf.isEmpty(fact)
    case _ => false
  }

  function CreateFromNode<LF>(v: VirtualNode): CalculationNode<LF> {
    CalculationNode(ConstantCalculation(v.node.bottom), v.node.path, v.node.length, v.height)
  }

  function CreateFromFact<LF>(fact: LF): CalculationNode<LF> {
    CalculationNode(LeafFactCalculation(fact), 0, 0, 0)
  }

  function Commit<LF>(v: CalculationNode<LF>): HashCalculation<LF> {
    if v.length == 0 then v.bottom else EdgeCalculation(v.bottom, v.path, v.length)
  }

  /** Spells out the edge a node stands for, reading its fact if need be. */
  function Decommit<LF>(store: Store, leaf: LeafOps<LF>, v: CalculationNode<LF>): Result<CalculationNode<LF>> {
    if v.height == 0 || IsEmpty(leaf, v) || v.length > 0 then Ok(v)
    else
      match v.bottom
      case EdgeCalculation(b, path, length) => Ok(CalculationNode(b, path, length, v.height))
      case ConstantCalculation(hash) =>
        if hash !in store then Err
        else if store[hash].Edge? then
          var e := store[hash];
          Ok(CalculationNode(ConstantCalculation(e.bottom), e.path, e.length, v.height))
        else Ok(v)
      case _ => Ok(v)
  }

  /** The hashes of the facts that decommitting a node reads. */
  function DecommitFacts<LF>(leaf: LeafOps<LF>, v: CalculationNode<LF>): set<Hash> {
    if v.height == 0 || IsEmpty(leaf, v) || v.length > 0 || !v.bottom.ConstantCalculation? then {}
    else {v.bottom.hash}
  }

  function CombineToVirtualEdge<LF>(child: CalculationNode<LF>, leftIsEmpty: bool): CalculationNode<LF> {
    CalculationNode(child.bottom, if leftIsEmpty then child.path + Pow2(child.length) else child.path,
                    child.length + 1, child.height + 1)
  }

  function Combine<LF>(store: Store, leaf: LeafOps<LF>, l: CalculationNode<LF>, r: CalculationNode<LF>)
    : Result<CalculationNode<LF>>
  {
    if l.height != r.height then Err
    else if IsEmpty(leaf, l) && IsEmpty(leaf, r) then
      Ok(CalculationNode(ConstantCalculation(EMPTY), 0, 0, r.height + 1))
    else if !IsEmpty(leaf, l) && !IsEmpty(leaf, r) then
      Ok(CalculationNode(BinaryCalculation(Commit(l), Commit(r)), 0, 0, r.height + 1))
    else
      var child := Decommit(store, leaf, if IsEmpty(leaf, l) then r else l);
      if child.Err? then Err else Ok(CombineToVirtualEdge(child.value, IsEmpty(leaf, l)))
  }

  /** The hashes of the facts that a combination reads. */
  function CombineFacts<LF>(leaf: LeafOps<LF>, l: CalculationNode<LF>, r: CalculationNode<LF>): set<Hash> {
    if l.height != r.height || IsEmpty(leaf, l) == IsEmpty(leaf, r) then {}
    else DecommitFacts(leaf, if IsEmpty(leaf, l) then r else l)
  }

  /** Edges of the calculation have a length. */
  ghost predicate ProperEdges<LF>(c: HashCalculation<LF>) {
    match c
    case BinaryCalculation(l, r) => ProperEdges(l) && ProperEdges(r)
    case EdgeCalculation(b, _, length) => length > 0 && ProperEdges(b)
    case _ => true
  }

  ghost function NodeOf<LF>(H: HashFunction, leaf: LeafOps<LF>, v: CalculationNode<LF>): Node {
    Node(CalcHash(H, leaf, v.bottom), v.path, v.length)
  }

  /** `v` stands for node `n`: it will hash to it, it is recognised as empty exactly
      when `n` is, and if it stands for an edge by its hash the edge can be looked up. */
  ghost predicate Stands<LF>(H: HashFunction, open: Hash -> Fact, store: Store, leaf: LeafOps<LF>,
                             v: CalculationNode<LF>, n: Node) {
    && Represents(H, NodeOf(H, leaf, v), n)
    && (IsEmpty(leaf, v) <==> n == EMPTY_NODE)
    && (n == EMPTY_NODE ==> NodeOf(H, leaf, v) == n)
    && !v.bottom.EdgeCalculation?
    && (NodeOf(H, leaf, v) != n ==>
          v.bottom.ConstantCalculation? && v.height > 0
          && EdgeFact(n, HeldBy(H, store)) && EdgeFact(n, OpenedBy(H, open)))
    && (NodeOf(H, leaf, v) == n && v.bottom.ConstantCalculation? && n.length == 0 && v.height > 0 && n != EMPTY_NODE ==>
          n.bottom in store && store[n.bottom].Binary?)
  }

  lemma CommitHash<LF>(H: HashFunction, open: Hash -> Fact, store: Store, leaf: LeafOps<LF>, v: CalculationNode<LF>,
                       n: Node)
    requires Stands(H, open, store, leaf, v, n)
    ensures CalcHash(H, leaf, Commit(v)) == NodeHash(H, n)
  {
  }

  lemma DecommitStands<LF>(H: HashFunction, open: Hash -> Fact, store: Store, leaf: LeafOps<LF>, v: CalculationNode<LF>,
                           n: Node)
    requires Stands(H, open, store, leaf, v, n)
    ensures var d := Decommit(store, leaf, v);
            && d.Ok? && d.value.height == v.height
            && NodeOf(H, leaf, d.value) == n && !d.value.bottom.EdgeCalculation?
            && (d.value.bottom == v.bottom || d.value.bottom.ConstantCalculation?)
            && (IsEmpty(leaf, d.value) <==> IsEmpty(leaf, v) || (d.value.bottom != v.bottom && n.bottom == EMPTY))
  {
    if NodeOf(H, leaf, v) != n {
      assert Holds(H, store, Edge(n.bottom, n.path, n.length));
    }
  }

  /** Combining calculations of two siblings gives one of their parent. */
  lemma CombineStands<LF>(H: HashFunction, open: Hash -> Fact, store: Store, leaf: LeafOps<LF>,
                          l: CalculationNode<LF>, r: CalculationNode<LF>, nl: Node, nr: Node, h: nat)
    requires l.height == r.height == h && Proper(nl, h) && Proper(nr, h)
    requires Stands(H, open, store, leaf, l, nl) && Stands(H, open, store, leaf, r, nr)
    requires JoinFacts(H, nl, nr, OpenedBy(H, open))
    ensures var c := Combine(store, leaf, l, r);
            c.Ok? && c.value.height == h + 1 && Stands(H, open, store, leaf, c.value, Join(H, nl, nr))
  {
    JoinProper(H, open, nl, nr, h);
    if nl == EMPTY_NODE && nr == EMPTY_NODE {
    } else if nl != EMPTY_NODE && nr != EMPTY_NODE {
      CommitHash(H, open, store, leaf, l, nl);
      CommitHash(H, open, store, leaf, r, nr);
    } else if nl == EMPTY_NODE {
      DecommitStands(H, open, store, leaf, r, nr);
    } else {
      DecommitStands(H, open, store, leaf, l, nl);
    }
  }

  /** A combination is its parent node itself, with no edge hidden behind a hash. */
  lemma CombineExact<LF>(H: HashFunction, open: Hash -> Fact, store: Store, leaf: LeafOps<LF>,
                         l: CalculationNode<LF>, r: CalculationNode<LF>, nl: Node, nr: Node, h: nat)
    requires l.height == r.height == h && Proper(nl, h) && Proper(nr, h)
    requires Stands(H, open, store, leaf, l, nl) && Stands(H, open, store, leaf, r, nr)
    requires ProperEdges(l.bottom) && ProperEdges(r.bottom)
    ensures var c := Combine(store, leaf, l, r);
            c.Ok? && NodeOf(H, leaf, c.value) == Join(H, nl, nr) && ProperEdges(c.value.bottom)
  {
    if nl != EMPTY_NODE && nr != EMPTY_NODE {
      CommitHash(H, open, store, leaf, l, nl);
      CommitHash(H, open, store, leaf, r, nr);
    } else if nl == EMPTY_NODE && nr != EMPTY_NODE {
      DecommitStands(H, open, store, leaf, r, nr);
    } else if nl != EMPTY_NODE {
      DecommitStands(H, open, store, leaf, l, nl);
    }
  }

  // ----- The facts of a combination -----

  /** Held by the storage already, or about to be written. */
  ghost function Available<LF>(H: HashFunction, store: Store, leaf: LeafOps<LF>, c: HashCalculation<LF>)
    : FactPredicate
  {
    (fact: Fact) => Holds(H, store, fact) || Computes(H, leaf, c, fact)
  }

  ghost function ComputedBy<LF>(H: HashFunction, leaf: LeafOps<LF>, c: HashCalculation<LF>): FactPredicate {
    (fact: Fact) => Computes(H, leaf, c, fact)
  }

  /** Combining two nonempty calculations computes their common fact, and the edges they are. */
  lemma CombineComputesEdges<LF>(H: HashFunction, open: Hash -> Fact, store: Store, leaf: LeafOps<LF>,
                                 l: CalculationNode<LF>, r: CalculationNode<LF>, nl: Node, nr: Node)
    requires l.height == r.height && nl != EMPTY_NODE && nr != EMPTY_NODE
    requires Stands(H, open, store, leaf, l, nl) && Stands(H, open, store, leaf, r, nr)
    ensures var c := Combine(store, leaf, l, r);
            && c.Ok? && Computes(H, leaf, c.value.bottom, Binary(NodeHash(H, nl), NodeHash(H, nr)))
            && (NodeOf(H, leaf, l) == nl ==> EdgeFact(nl, ComputedBy(H, leaf, c.value.bottom)))
            && (NodeOf(H, leaf, r) == nr ==> EdgeFact(nr, ComputedBy(H, leaf, c.value.bottom)))
  {
    CommitHash(H, open, store, leaf, l, nl);
    CommitHash(H, open, store, leaf, r, nr);
    var c := Combine(store, leaf, l, r).value.bottom;
    if NodeOf(H, leaf, l) == nl && nl.length > 0 {
      assert Computes(H, leaf, Commit(l), Edge(nl.bottom, nl.path, nl.length));
    }
    if NodeOf(H, leaf, r) == nr && nr.length > 0 {
      assert Computes(H, leaf, Commit(r), Edge(nr.bottom, nr.path, nr.length));
    }
  }

  ghost predicate AllOpened<LF>(H: HashFunction, open: Hash -> Fact, leaf: LeafOps<LF>, c: HashCalculation<LF>) {
    forall a | Computes(H, leaf, c, a) :: Opens(H, open, a)
  }

  lemma CommitComputes<LF(!new)>(H: HashFunction, open: Hash -> Fact, store: Store, leaf: LeafOps<LF>,
                           v: CalculationNode<LF>, n: Node)
    requires Stands(H, open, store, leaf, v, n) && AllOpened(H, open, leaf, v.bottom)
    requires EdgeFact(n, OpenedBy(H, open))
    ensures EdgeFact(n, Available(H, store, leaf, Commit(v)))
    ensures AllOpened(H, open, leaf, Commit(v))
    ensures forall a | Computes(H, leaf, v.bottom, a) :: Computes(H, leaf, Commit(v), a)
    ensures forall x | ComputesLeaf(v.bottom, x) :: ComputesLeaf(Commit(v), x)
    ensures forall x | ComputesLeaf(Commit(v), x) :: ComputesLeaf(v.bottom, x)
  {
  }

  /** A combination computes what its parts compute and the facts of their parent. */
  lemma CombineComputes<LF(!new)>(H: HashFunction, open: Hash -> Fact, store: Store, leaf: LeafOps<LF>,
                            l: CalculationNode<LF>, r: CalculationNode<LF>, nl: Node, nr: Node, h: nat)
    requires l.height == r.height == h && Proper(nl, h) && Proper(nr, h)
    requires Stands(H, open, store, leaf, l, nl) && Stands(H, open, store, leaf, r, nr)
    requires AllOpened(H, open, leaf, l.bottom) && AllOpened(H, open, leaf, r.bottom)
    requires JoinFacts(H, nl, nr, OpenedBy(H, open))
    ensures var c := Combine(store, leaf, l, r);
            && c.Ok? && AllOpened(H, open, leaf, c.value.bottom)
            && JoinFacts(H, nl, nr, Available(H, store, leaf, c.value.bottom))
            && (forall a | Computes(H, leaf, l.bottom, a) || Computes(H, leaf, r.bottom, a) ::
                  Computes(H, leaf, c.value.bottom, a))
  {
    CombineStands(H, open, store, leaf, l, r, nl, nr, h);
    if nl != EMPTY_NODE && nr != EMPTY_NODE {
      CommitHash(H, open, store, leaf, l, nl);
      CommitHash(H, open, store, leaf, r, nr);
      CommitComputes(H, open, store, leaf, l, nl);
      CommitComputes(H, open, store, leaf, r, nr);
    } else if nl == EMPTY_NODE && nr != EMPTY_NODE {
      DecommitStands(H, open, store, leaf, r, nr);
    } else if nl != EMPTY_NODE {
      DecommitStands(H, open, store, leaf, l, nl);
    }
  }

  /** No leaf fact is lost in a combination except empty ones, and none is invented. */
  lemma CombineLeaves<LF(!new)>(H: HashFunction, open: Hash -> Fact, store: Store, leaf: LeafOps<LF>,
                          l: CalculationNode<LF>, r: CalculationNode<LF>, nl: Node, nr: Node, h: nat)
    requires l.height == r.height == h && Proper(nl, h) && Proper(nr, h)
    requires Stands(H, open, store, leaf, l, nl) && Stands(H, open, store, leaf, r, nr)
    requires JoinFacts(H, nl, nr, OpenedBy(H, open))
    ensures var c := Combine(store, leaf, l, r);
            && c.Ok?
            && (forall x | (ComputesLeaf(l.bottom, x) || ComputesLeaf(r.bottom, x)) && !leaf.isEmpty(x) ::
                  ComputesLeaf(c.value.bottom, x))
            && (forall x | ComputesLeaf(c.value.bottom, x) :: ComputesLeaf(l.bottom, x) || ComputesLeaf(r.bottom, x))
  {
    CombineStands(H, open, store, leaf, l, r, nl, nr, h);
    if nl == EMPTY_NODE && nr != EMPTY_NODE {
      DecommitStands(H, open, store, leaf, r, nr);
    } else if nl != EMPTY_NODE && nr == EMPTY_NODE {
      DecommitStands(H, open, store, leaf, l, nl);
    }
  }

  lemma {:induction false} LeavesAfterHolds<LF(!new)>(leaf: LeafOps<LF>, openLeaf: Hash -> LF, c: HashCalculation<LF>,
                                                m: map<Hash, LF>, x: LF)
    requires forall y | ComputesLeaf(c, y) :: openLeaf(leaf.hash(y)) == y
    requires openLeaf(leaf.hash(x)) == x
    requires (leaf.hash(x) in m && m[leaf.hash(x)] == x) || ComputesLeaf(c, x)
    ensures leaf.hash(x) in LeavesAfter(leaf, c, m) && LeavesAfter(leaf, c, m)[leaf.hash(x)] == x
    decreases c
  {
    match c
    case BinaryCalculation(l, r) =>
      if (leaf.hash(x) in m && m[leaf.hash(x)] == x) || ComputesLeaf(l, x) {
        LeavesAfterHolds(leaf, openLeaf, l, m, x);
      }
      LeavesAfterHolds(leaf, openLeaf, r, LeavesAfter(leaf, l, m), x);
    case EdgeCalculation(b, _, _) =>
      LeavesAfterHolds(leaf, openLeaf, b, m, x);
    case _ =>
  }

  lemma {:induction false} InnerAfterSane<LF>(H: HashFunction, open: Hash -> Fact, leaf: LeafOps<LF>,
                                              c: HashCalculation<LF>, m: Store)
    requires AllOpened(H, open, leaf, c) && ProperEdges(c) && Sane(m)
    ensures Sane(InnerAfter(H, leaf, c, m))
    decreases c
  {
    match c
    case BinaryCalculation(l, r) =>
      assert Computes(H, leaf, c, Binary(CalcHash(H, leaf, l), CalcHash(H, leaf, r)));
      InnerAfterSane(H, open, leaf, l, m);
      InnerAfterSane(H, open, leaf, r, InnerAfter(H, leaf, l, m));
    case EdgeCalculation(b, path, length) =>
      assert Computes(H, leaf, c, Edge(CalcHash(H, leaf, b), path, length));
      InnerAfterSane(H, open, leaf, b, m);
    case _ =>
  }

  lemma {:induction false} InnerAfterMerge<LF>(H: HashFunction, leaf: LeafOps<LF>, c: HashCalculation<LF>, m: Store,
                                               m': Store)
    ensures InnerAfter(H, leaf, c, m + m') == m + InnerAfter(H, leaf, c, m')
    decreases c
  {
    match c
    case BinaryCalculation(l, r) =>
      InnerAfterMerge(H, leaf, l, m, m');
      InnerAfterMerge(H, leaf, r, m, InnerAfter(H, leaf, l, m'));
    case EdgeCalculation(b, _, _) =>
      InnerAfterMerge(H, leaf, b, m, m');
    case _ =>
  }

  lemma {:induction false} LeavesAfterMerge<LF>(leaf: LeafOps<LF>, c: HashCalculation<LF>, m: map<Hash, LF>,
                                                m': map<Hash, LF>)
    ensures LeavesAfter(leaf, c, m + m') == m + LeavesAfter(leaf, c, m')
    decreases c
  {
    match c
    case BinaryCalculation(l, r) =>
      LeavesAfterMerge(leaf, l, m, m');
      LeavesAfterMerge(leaf, r, m, LeavesAfter(leaf, l, m'));
    case EdgeCalculation(b, _, _) =>
      LeavesAfterMerge(leaf, b, m, m');
    case _ =>
  }
}
