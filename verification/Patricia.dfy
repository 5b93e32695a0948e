/** Merkle-Patricia commitments: the facts a tree is made of, and the canonical
    node that commits to a block of leaves. */
module Patricia {
  import opened Basics

  /** Hash values as numbers; 0 is the hash of anything empty. */
  type Hash = nat

  const EMPTY: Hash := 0

  /** 2^251 + 17 * 2^192 + 1. */
  const FELT_PRIME: nat := 0x800000000000011000000000000000000000000000000000000000000000001

  /** The field element of an integer. */
  function ToFelt(x: int): nat {
    x % FELT_PRIME
  }

  datatype Fact =
    | Binary(left: Hash, right: Hash)
    | Edge(bottom: Hash, path: nat, length: nat)

  /** How facts are hashed; everything below holds for any such function. */
  type HashFunction = Fact -> Hash

  /** The hashing of facts by a two-to-one hash such as Pedersen or Poseidon. */
  function FactHash(hash2: (nat, nat) -> Hash): HashFunction {
    (fact: Fact) =>
      match fact
      case Binary(left, right) => hash2(left, right)
      case Edge(bottom, path, length) => (hash2(bottom, path) + length) % FELT_PRIME
  }

  /** `open` recovers the fact from its hash, and the hash is not the empty one. Holding
      for each fact of a collection, this says that no two of them collide. */
  predicate Opens(H: HashFunction, open: Hash -> Fact, fact: Fact) {
    H(fact) != EMPTY && open(H(fact)) == fact
  }

  /** A node as an edge of possibly zero length above its bottom. */
  datatype Node = Node(bottom: Hash, path: nat, length: nat)

  const EMPTY_NODE := Node(EMPTY, 0, 0)

  function NodeHash(H: HashFunction, n: Node): Hash {
    if n.length == 0 then n.bottom else H(Edge(n.bottom, n.path, n.length))
  }

  /** Leaf hashes by index. */
  type Leaves = nat -> Hash

  /** The node above two siblings. */
  function Join(H: HashFunction, l: Node, r: Node): Node {
    if l == EMPTY_NODE && r == EMPTY_NODE then EMPTY_NODE
    else if l == EMPTY_NODE then Node(r.bottom, r.path + Pow2(r.length), r.length + 1)
    else if r == EMPTY_NODE then Node(l.bottom, l.path, l.length + 1)
    else Node(H(Binary(NodeHash(H, l), NodeHash(H, r))), 0, 0)
  }

  /** The node of height `h` and layer index `i` of the tree with these leaves,
      computed layer by layer from all of them. */
  function Canon(H: HashFunction, f: Leaves, h: nat, i: nat): (n: Node)
    decreases h
  {
    if h == 0 then Node(f(i), 0, 0)
    else Join(H, Canon(H, f, h - 1, 2 * i), Canon(H, f, h - 1, 2 * i + 1))
  }

  function Root(H: HashFunction, f: Leaves, height: nat): Hash {
    NodeHash(H, Canon(H, f, height, 0))
  }

  // ----- Trees -----

  /** A tree given by all its nodes, by height and layer index. */
  datatype Tree = Tree(hash: HashFunction, leaf: Leaves, node: (nat, nat) -> Node)

  /** The nodes are the canonical ones of the leaves. The trigger keeps this from
      being unfolded except where a proof opens a node, with `Opened` below. */
  ghost predicate Built(t: Tree) {
    forall h: nat, i: nat {:trigger Canon(t.hash, t.leaf, h, i)} :: t.node(h, i) == Canon(t.hash, t.leaf, h, i)
  }

  ghost function CanonicalTree(H: HashFunction, f: Leaves): (t: Tree)
    ensures Built(t) && t.hash == H && t.leaf == f
  {
    Tree(H, f, (h: nat, i: nat) => Canon(H, f, h, i))
  }

  ghost function Lower(t: Tree, h: nat, i: nat): Node
    requires h > 0
  {
    t.node(h - 1, 2 * i)
  }

  ghost function Upper(t: Tree, h: nat, i: nat): Node
    requires h > 0
  {
    t.node(h - 1, 2 * i + 1)
  }

  lemma Opened(t: Tree, h: nat, i: nat)
    requires Built(t)
    ensures h == 0 ==> t.node(h, i) == Node(t.leaf(i), 0, 0)
    ensures h > 0 ==> t.node(h, i) == Join(t.hash, Lower(t, h, i), Upper(t, h, i))
  {
    var n := Canon(t.hash, t.leaf, h, i);
    if h > 0 {
      var l, r := Canon(t.hash, t.leaf, h - 1, 2 * i), Canon(t.hash, t.leaf, h - 1, 2 * i + 1);
    }
  }

  // ----- The facts of a tree -----

  type FactPredicate = Fact -> bool

  ghost predicate EdgeFact(n: Node, p: FactPredicate) {
    n.length > 0 ==> p(Edge(n.bottom, n.path, n.length))
  }

  ghost predicate JoinFacts(H: HashFunction, l: Node, r: Node, p: FactPredicate) {
    l != EMPTY_NODE && r != EMPTY_NODE ==>
      p(Binary(NodeHash(H, l), NodeHash(H, r))) && EdgeFact(l, p) && EdgeFact(r, p)
  }

  /** `p` holds of the facts below a node: those it takes to open it down to its leaves. */
  ghost predicate AllFacts(t: Tree, h: nat, i: nat, p: FactPredicate)
    decreases h
  {
    h > 0 ==>
      && JoinFacts(t.hash, Lower(t, h, i), Upper(t, h, i), p)
      && AllFacts(t, h - 1, 2 * i, p)
      && AllFacts(t, h - 1, 2 * i + 1, p)
  }

  /** `p` holds of the facts of a whole tree, with the edge its root may be. */
  ghost predicate TreeFacts(t: Tree, height: nat, p: FactPredicate) {
    AllFacts(t, height, 0, p) && EdgeFact(t.node(height, 0), p)
  }

  /** No two facts of the tree collide, and none hashes to the empty hash. */
  ghost predicate CollisionFree(t: Tree, height: nat, open: Hash -> Fact) {
    TreeFacts(t, height, OpenedBy(t.hash, open))
  }

  ghost function OpenedBy(H: HashFunction, open: Hash -> Fact): FactPredicate {
    (fact: Fact) => Opens(H, open, fact)
  }

  type Store = map<Hash, Fact>

  predicate Holds(H: HashFunction, store: Store, fact: Fact) {
    H(fact) in store && store[H(fact)] == fact
  }

  /** Nothing is stored under the empty hash, and edges have a length. */
  predicate Sane(store: Store) {
    EMPTY !in store && forall k | k in store :: store[k].Edge? ==> store[k].length > 0
  }

  ghost function HeldBy(H: HashFunction, store: Store): FactPredicate {
    (fact: Fact) => Holds(H, store, fact)
  }

  // ----- Shape of canonical nodes -----

  /** `j` is the index of a leaf below node `i` of height `h`. */
  predicate Below(h: nat, i: nat, j: nat) {
    j / Pow2(h) == i
  }

  lemma BelowChild(h: nat, i: nat, j: nat)
    requires h > 0
    ensures Below(h, i, j) <==> Below(h - 1, 2 * i, j) || Below(h - 1, 2 * i + 1, j)
  {
    DivDiv(j, Pow2(h - 1), 2);
  }

  /** A node that is not empty has a bottom, and its path fits its length. */
  predicate Proper(n: Node, h: nat) {
    n.length <= h && n.path < Pow2(n.length) && (n.bottom == EMPTY ==> n == EMPTY_NODE)
  }

  lemma JoinProper(H: HashFunction, open: Hash -> Fact, l: Node, r: Node, h: nat)
    requires Proper(l, h) && Proper(r, h) && JoinFacts(H, l, r, OpenedBy(H, open))
    ensures Proper(Join(H, l, r), h + 1)
    ensures Join(H, l, r) == EMPTY_NODE <==> l == EMPTY_NODE && r == EMPTY_NODE
  {
  }

  lemma {:induction false} NodeProper(t: Tree, open: Hash -> Fact, h: nat, i: nat)
    requires Built(t) && AllFacts(t, h, i, OpenedBy(t.hash, open))
    ensures Proper(t.node(h, i), h)
    decreases h
  {
    Opened(t, h, i);
    if h > 0 {
      NodeProper(t, open, h - 1, 2 * i);
      NodeProper(t, open, h - 1, 2 * i + 1);
      JoinProper(t.hash, open, Lower(t, h, i), Upper(t, h, i), h - 1);
    }
  }

  /** What opening a node gives. */
  lemma Halves(t: Tree, open: Hash -> Fact, h: nat, i: nat)
    requires h > 0 && Built(t) && AllFacts(t, h, i, OpenedBy(t.hash, open))
    ensures Proper(t.node(h, i), h)
    ensures Proper(Lower(t, h, i), h - 1) && Proper(Upper(t, h, i), h - 1)
    ensures t.node(h, i) == Join(t.hash, Lower(t, h, i), Upper(t, h, i))
    ensures t.node(h, i) == EMPTY_NODE <==> Lower(t, h, i) == EMPTY_NODE && Upper(t, h, i) == EMPTY_NODE
  {
    Opened(t, h, i);
    NodeProper(t, open, h - 1, 2 * i);
    NodeProper(t, open, h - 1, 2 * i + 1);
    JoinProper(t.hash, open, Lower(t, h, i), Upper(t, h, i), h - 1);
  }

  /** All the leaves below a node are empty. */
  ghost predicate NoLeaves(f: Leaves, h: nat, i: nat) {
    forall j: nat | Below(h, i, j) :: f(j) == EMPTY
  }

  lemma NoLeavesHalves(f: Leaves, h: nat, i: nat)
    requires h > 0
    ensures NoLeaves(f, h, i) <==> NoLeaves(f, h - 1, 2 * i) && NoLeaves(f, h - 1, 2 * i + 1)
  {
    forall j: nat
      ensures Below(h, i, j) <==> Below(h - 1, 2 * i, j) || Below(h - 1, 2 * i + 1, j)
    {
      BelowChild(h, i, j);
    }
  }

  /** A node is empty exactly when all the leaves below it are. */
  lemma {:induction false} NodeEmpty(t: Tree, open: Hash -> Fact, h: nat, i: nat)
    requires Built(t) && AllFacts(t, h, i, OpenedBy(t.hash, open))
    ensures t.node(h, i) == EMPTY_NODE <==> NoLeaves(t.leaf, h, i)
    decreases h
  {
    if h == 0 {
      Opened(t, h, i);
      assert Below(0, i, i);
    } else {
      Halves(t, open, h, i);
      NodeEmpty(t, open, h - 1, 2 * i);
      NodeEmpty(t, open, h - 1, 2 * i + 1);
      NoLeavesHalves(t.leaf, h, i);
    }
  }

  /** The leaves below a node are the same in both trees. */
  ghost predicate SameLeaves(f: Leaves, f': Leaves, h: nat, i: nat) {
    forall j: nat | Below(h, i, j) :: f(j) == f'(j)
  }

  lemma SameLeavesHalves(f: Leaves, f': Leaves, h: nat, i: nat)
    requires h > 0
    ensures SameLeaves(f, f', h, i) <==> SameLeaves(f, f', h - 1, 2 * i) && SameLeaves(f, f', h - 1, 2 * i + 1)
  {
    forall j: nat
      ensures Below(h, i, j) <==> Below(h - 1, 2 * i, j) || Below(h - 1, 2 * i + 1, j)
    {
      BelowChild(h, i, j);
    }
  }

  /** Only the leaves below a node matter to it. */
  lemma {:induction false} NodeDepends(t: Tree, t': Tree, h: nat, i: nat)
    requires Built(t) && Built(t') && t.hash == t'.hash && SameLeaves(t.leaf, t'.leaf, h, i)
    ensures t.node(h, i) == t'.node(h, i)
    decreases h
  {
    Opened(t, h, i);
    Opened(t', h, i);
    if h == 0 {
      assert Below(0, i, i);
    } else {
      SameLeavesHalves(t.leaf, t'.leaf, h, i);
      NodeDepends(t, t', h - 1, 2 * i);
      NodeDepends(t, t', h - 1, 2 * i + 1);
    }
  }

  lemma {:induction false} FactsDepend(t: Tree, t': Tree, h: nat, i: nat, p: FactPredicate)
    requires Built(t) && Built(t') && t.hash == t'.hash && SameLeaves(t.leaf, t'.leaf, h, i)
    requires AllFacts(t, h, i, p)
    ensures AllFacts(t', h, i, p)
    decreases h
  {
    if h > 0 {
      SameLeavesHalves(t.leaf, t'.leaf, h, i);
      NodeDepends(t, t', h - 1, 2 * i);
      NodeDepends(t, t', h - 1, 2 * i + 1);
      FactsDepend(t, t', h - 1, 2 * i, p);
      FactsDepend(t, t', h - 1, 2 * i + 1, p);
    }
  }

  /** If `p` and `q` hold of the facts below a node, so does anything they imply. */
  lemma {:induction false} FactsImply(t: Tree, h: nat, i: nat, p: FactPredicate, q: FactPredicate, r: FactPredicate)
    requires AllFacts(t, h, i, p) && AllFacts(t, h, i, q) && forall a | p(a) && q(a) :: r(a)
    ensures AllFacts(t, h, i, r)
    decreases h
  {
    if h > 0 {
      FactsImply(t, h - 1, 2 * i, p, q, r);
      FactsImply(t, h - 1, 2 * i + 1, p, q, r);
    }
  }

  // ----- Binding -----

  /** Two nodes at the same place with the same hash are the same node. */
  lemma HashDeterminesNode(t: Tree, t': Tree, open: Hash -> Fact, h: nat, i: nat)
    requires Built(t) && Built(t') && t.hash == t'.hash
    requires AllFacts(t, h, i, OpenedBy(t.hash, open)) && AllFacts(t', h, i, OpenedBy(t.hash, open))
    requires EdgeFact(t.node(h, i), OpenedBy(t.hash, open)) && EdgeFact(t'.node(h, i), OpenedBy(t.hash, open))
    requires NodeHash(t.hash, t.node(h, i)) == NodeHash(t.hash, t'.node(h, i))
    ensures t.node(h, i) == t'.node(h, i)
  {
    NodeProper(t, open, h, i);
    NodeProper(t', open, h, i);
    if h > 0 {
      Halves(t, open, h, i);
      Halves(t', open, h, i);
    }
  }

  /** Equal nodes at the same place have the same leaves below them. */
  lemma {:induction false} NodeDeterminesLeaves(t: Tree, t': Tree, open: Hash -> Fact, h: nat, i: nat)
    requires Built(t) && Built(t') && t.hash == t'.hash
    requires AllFacts(t, h, i, OpenedBy(t.hash, open)) && AllFacts(t', h, i, OpenedBy(t.hash, open))
    requires t.node(h, i) == t'.node(h, i)
    ensures SameLeaves(t.leaf, t'.leaf, h, i)
    decreases h
  {
    if h == 0 {
      Opened(t, 0, i);
      Opened(t', 0, i);
      assert forall j: nat :: Below(0, i, j) <==> j == i;
    } else {
      SameHalves(t, t', open, h, i);
      NodeDeterminesLeaves(t, t', open, h - 1, 2 * i);
      NodeDeterminesLeaves(t, t', open, h - 1, 2 * i + 1);
      SameLeavesHalves(t.leaf, t'.leaf, h, i);
    }
  }

  lemma SameHalves(t: Tree, t': Tree, open: Hash -> Fact, h: nat, i: nat)
    requires h > 0 && Built(t) && Built(t') && t.hash == t'.hash
    requires AllFacts(t, h, i, OpenedBy(t.hash, open)) && AllFacts(t', h, i, OpenedBy(t.hash, open))
    requires t.node(h, i) == t'.node(h, i)
    ensures Lower(t, h, i) == Lower(t', h, i) && Upper(t, h, i) == Upper(t', h, i)
  {
    Halves(t, open, h, i);
    Halves(t', open, h, i);
    JoinDetermines(t.hash, open, Lower(t, h, i), Upper(t, h, i), Lower(t', h, i), Upper(t', h, i), h - 1);
    if Lower(t, h, i) != EMPTY_NODE && Upper(t, h, i) != EMPTY_NODE {
      HashDeterminesNode(t, t', open, h - 1, 2 * i);
      HashDeterminesNode(t, t', open, h - 1, 2 * i + 1);
    }
  }

  /** Equal parents have equal children, or children with equal hashes. */
  lemma JoinDetermines(H: HashFunction, open: Hash -> Fact, l: Node, r: Node, l': Node, r': Node, h: nat)
    requires Proper(l, h) && Proper(r, h) && Proper(l', h) && Proper(r', h)
    requires JoinFacts(H, l, r, OpenedBy(H, open)) && JoinFacts(H, l', r', OpenedBy(H, open))
    requires Join(H, l, r) == Join(H, l', r')
    ensures l == EMPTY_NODE <==> l' == EMPTY_NODE
    ensures r == EMPTY_NODE <==> r' == EMPTY_NODE
    ensures l == EMPTY_NODE || r == EMPTY_NODE ==> l == l' && r == r'
    ensures l != EMPTY_NODE && r != EMPTY_NODE
            ==> NodeHash(H, l) == NodeHash(H, l') && NodeHash(H, r) == NodeHash(H, r')
  {
    JoinProper(H, open, l, r, h);
    JoinProper(H, open, l', r', h);
    if l != EMPTY_NODE && r != EMPTY_NODE && l' != EMPTY_NODE && r' != EMPTY_NODE {
      assert Opens(H, open, Binary(NodeHash(H, l), NodeHash(H, r)));
      assert Opens(H, open, Binary(NodeHash(H, l'), NodeHash(H, r')));
    }
  }

  // ----- Edges -----

  /** The layer index of the bottom of an edge that starts at index `i`. */
  function BottomIndex(i: nat, n: Node): nat {
    i * Pow2(n.length) + n.path
  }

  lemma EdgeIndex(i: nat, b: nat, length: nat, path: nat)
    requires b <= 1
    ensures (2 * i + b) * Pow2(length) + path == i * Pow2(length + 1) + (path + b * Pow2(length))
  {
    assert (2 * i + b) * Pow2(length) == i * (2 * Pow2(length)) + b * Pow2(length);
  }

  /** The first step of an edge: the child it continues in, and the rest of the edge. */
  lemma EdgeStep(t: Tree, open: Hash -> Fact, h: nat, i: nat) returns (b: nat)
    requires Built(t) && AllFacts(t, h, i, OpenedBy(t.hash, open)) && t.node(h, i).length > 0
    ensures h > 0 && b <= 1
    ensures var n, n' := t.node(h, i), t.node(h - 1, 2 * i + b);
            && n.length == n'.length + 1 <= h && n.bottom == n'.bottom != EMPTY
            && n.path == n'.path + b * Pow2(n'.length)
            && BottomIndex(2 * i + b, n') == BottomIndex(i, n)
    ensures t.node(h - 1, 2 * i + 1 - b) == EMPTY_NODE
  {
    NodeProper(t, open, h, i);
    Halves(t, open, h, i);
    b := if Lower(t, h, i) == EMPTY_NODE then 1 else 0;
    var n' := t.node(h - 1, 2 * i + b);
    EdgeIndex(i, b, n'.length, n'.path);
  }

  lemma BesideEdge(t: Tree, h: nat, i: nat, b: nat, j: nat)
    requires h > 0 && b <= 1 && Below(h, i, j) && NoLeaves(t.leaf, h - 1, 2 * i + 1 - b)
    requires Below(h - 1, 2 * i + b, j) ==> t.leaf(j) == EMPTY
    ensures t.leaf(j) == EMPTY
  {
    BelowChild(h, i, j);
  }

  /** An edge leads to the bottom node it names, and past it there are no leaves. */
  lemma {:induction false} EdgeLeadsToBottom(t: Tree, open: Hash -> Fact, h: nat, i: nat)
    requires Built(t) && AllFacts(t, h, i, OpenedBy(t.hash, open))
    ensures var n := t.node(h, i);
            && n.length <= h
            && t.node(h - n.length, BottomIndex(i, n)) == Node(n.bottom, 0, 0)
            && (forall j: nat | Below(h, i, j) && !Below(h - n.length, BottomIndex(i, n), j) :: t.leaf(j) == EMPTY)
    decreases h
  {
    var n := t.node(h, i);
    if n.length > 0 {
      var b := EdgeStep(t, open, h, i);
      EdgeLeadsToBottom(t, open, h - 1, 2 * i + b);
      NodeEmpty(t, open, h - 1, 2 * i + 1 - b);
      forall j: nat | Below(h, i, j) && !Below(h - n.length, BottomIndex(i, n), j)
        ensures t.leaf(j) == EMPTY
      {
        BesideEdge(t, h, i, b, j);
      }
    } else {
      NodeProper(t, open, h, i);
      assert BottomIndex(i, n) == i;
    }
  }

  /** The facts below an edge are those below its bottom. */
  lemma {:induction false} EdgeFactsBelow(t: Tree, open: Hash -> Fact, h: nat, i: nat, p: FactPredicate)
    requires Built(t) && AllFacts(t, h, i, OpenedBy(t.hash, open)) && AllFacts(t, h, i, p)
    ensures var n := t.node(h, i);
            n.length <= h && AllFacts(t, h - n.length, BottomIndex(i, n), p)
    decreases h
  {
    var n := t.node(h, i);
    if n.length > 0 {
      var b := EdgeStep(t, open, h, i);
      EdgeFactsBelow(t, open, h - 1, 2 * i + b, p);
    } else {
      NodeProper(t, open, h, i);
      assert BottomIndex(i, n) == i;
    }
  }
}
