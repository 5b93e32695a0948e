/** Tree nodes as they are read from the fact storage: opening a node, and reading leaves. */
module VirtualNodes {
  import opened Basics
  import opened Patricia

  /** A node with the height of its subtree. The same node can occur with its edge
      spelled out or, once committed, as the bare hash of that edge. */
  datatype VirtualNode = VirtualNode(node: Node, height: nat)

  function FromHash(hash: Hash, height: nat): VirtualNode {
    VirtualNode(Node(hash, 0, 0), height)
  }

  /** The children of an edge: an empty node, and the edge without its first step. */
  function VirtualEdgeChildren(n: Node, height: nat): (VirtualNode, VirtualNode)
    requires n.length > 0 && height > 0
  {
    var empty := VirtualNode(EMPTY_NODE, height - 1);
    var child := VirtualNode(Node(n.bottom, n.path % Pow2(n.length - 1), n.length - 1), height - 1);
    if n.path / Pow2(n.length - 1) == 0 then (child, empty) else (empty, child)
  }

  /** Fails on leaves and when a fact is missing from the storage. */
  function GetChildren(store: Store, v: VirtualNode): Result<(VirtualNode, VirtualNode)> {
    if v.height == 0 then Err
    else if v.node.bottom == EMPTY then
      Ok((VirtualNode(EMPTY_NODE, v.height - 1), VirtualNode(EMPTY_NODE, v.height - 1)))
    else if v.node.length > 0 then Ok(VirtualEdgeChildren(v.node, v.height))
    else if v.node.bottom !in store then Err
    else
      match store[v.node.bottom]
      case Edge(bottom, path, length) =>
        if length == 0 then Err else Ok(VirtualEdgeChildren(Node(bottom, path, length), v.height))
      case Binary(left, right) => Ok((FromHash(left, v.height - 1), FromHash(right, v.height - 1)))
  }

  /** The hashes of the facts that opening a node reads. */
  function ChildFacts(v: VirtualNode): set<Hash> {
    if v.node.bottom == EMPTY || v.node.length > 0 then {} else {v.node.bottom}
  }

  /** `n` is `c`, either as it is or as the hash of its edge. */
  predicate Represents(H: HashFunction, n: Node, c: Node) {
    n == c || (c.length > 0 && n == Node(NodeHash(H, c), 0, 0))
  }

  /** Opening a node yields its two halves, whichever way it was written. */
  lemma OpenJoin(H: HashFunction, open: Hash -> Fact, store: Store, l: Node, r: Node, n: Node, h: nat)
    requires Proper(l, h) && Proper(r, h)
    requires JoinFacts(H, l, r, OpenedBy(H, open)) && JoinFacts(H, l, r, HeldBy(H, store))
    requires Represents(H, n, Join(H, l, r))
    requires n != Join(H, l, r) ==>
               EdgeFact(Join(H, l, r), HeldBy(H, store)) && EdgeFact(Join(H, l, r), OpenedBy(H, open))
    ensures var c := GetChildren(store, VirtualNode(n, h + 1));
            && c.Ok? && c.value.0.height == h && c.value.1.height == h
            && Represents(H, c.value.0.node, l) && Represents(H, c.value.1.node, r)
            && (c.value.0.node != l ==> EdgeFact(l, HeldBy(H, store)) && EdgeFact(l, OpenedBy(H, open)))
            && (c.value.1.node != r ==> EdgeFact(r, HeldBy(H, store)) && EdgeFact(r, OpenedBy(H, open)))
  {
    var c := Join(H, l, r);
    JoinProper(H, open, l, r, h);
    if l == EMPTY_NODE && r == EMPTY_NODE {
    } else if l == EMPTY_NODE {
      DivModUnique(c.path, Pow2(r.length), 1, r.path);
    } else if r == EMPTY_NODE {
      DivModUnique(c.path, Pow2(l.length), 0, l.path);
    } else {
      assert Holds(H, store, Binary(NodeHash(H, l), NodeHash(H, r)));
    }
  }

  /** The storage lets `v` be read as node `i` of height `h` of the tree. */
  ghost predicate Readable(store: Store, v: VirtualNode, t: Tree, open: Hash -> Fact, h: nat, i: nat) {
    && v.height == h && Represents(t.hash, v.node, t.node(h, i))
    && AllFacts(t, h, i, HeldBy(t.hash, store)) && AllFacts(t, h, i, OpenedBy(t.hash, open))
    && (v.node != t.node(h, i) ==>
          EdgeFact(t.node(h, i), HeldBy(t.hash, store)) && EdgeFact(t.node(h, i), OpenedBy(t.hash, open)))
  }

  lemma ChildrenReadable(store: Store, v: VirtualNode, t: Tree, open: Hash -> Fact, h: nat, i: nat)
    requires h > 0 && Built(t) && Readable(store, v, t, open, h, i)
    ensures var c := GetChildren(store, v);
            && c.Ok?
            && Readable(store, c.value.0, t, open, h - 1, 2 * i)
            && Readable(store, c.value.1, t, open, h - 1, 2 * i + 1)
  {
    Halves(t, open, h, i);
    OpenJoin(t.hash, open, store, Lower(t, h, i), Upper(t, h, i), v.node, h - 1);
  }

  /** A readable node has the empty hash as its bottom exactly when it has no leaves. */
  lemma ReadableEmpty(store: Store, v: VirtualNode, t: Tree, open: Hash -> Fact, h: nat, i: nat)
    requires Built(t) && Readable(store, v, t, open, h, i)
    ensures v.node.bottom == EMPTY <==> NoLeaves(t.leaf, h, i)
    ensures v.node.bottom == EMPTY ==> t.node(h, i) == EMPTY_NODE
  {
    NodeProper(t, open, h, i);
    NodeEmpty(t, open, h, i);
  }

  /** The bottom of an edge that is spelled out can be read by its hash. */
  lemma BottomReadable(store: Store, v: VirtualNode, t: Tree, open: Hash -> Fact, h: nat, i: nat)
    requires Built(t) && Readable(store, v, t, open, h, i) && v.node.length > 0
    ensures v.node == t.node(h, i) && v.node.length <= h
    ensures Readable(store, FromHash(v.node.bottom, h - v.node.length), t, open,
                     h - v.node.length, BottomIndex(i, v.node))
    ensures forall j: nat | Below(h, i, j) && !Below(h - v.node.length, BottomIndex(i, v.node), j) ::
              t.leaf(j) == EMPTY
  {
    EdgeLeadsToBottom(t, open, h, i);
    EdgeFactsBelow(t, open, h, i, HeldBy(t.hash, store));
    EdgeFactsBelow(t, open, h, i, OpenedBy(t.hash, open));
  }

  // ----- Reading leaves -----

  /** Each leaf of the tree below node `i` can be fetched by its hash. */
  ghost predicate LeavesHeld<LF>(leaves: map<Hash, LF>, f: Leaves, g: nat -> LF, h: nat, i: nat) {
    forall j: nat | Below(h, i, j) :: f(j) in leaves && leaves[f(j)] == g(j)
  }

  predicate AllBelow(indices: seq<nat>, bound: nat) {
    forall k | 0 <= k < |indices| :: indices[k] < bound
  }

  /** The leaves at the given offsets from `base`. */
  ghost function LeafMap<LF>(indices: seq<nat>, base: nat, g: nat -> LF): map<nat, LF> {
    map k | k in indices :: g(base + k)
  }

  ghost predicate Fetched<LF>(r: Result<map<nat, LF>>, indices: seq<nat>, base: nat, g: nat -> LF) {
    r == Ok(LeafMap(indices, base, g))
  }

  function GetEmptyLeaves<LF>(leaves: map<Hash, LF>, indices: seq<nat>): Result<map<nat, LF>> {
    if indices == [] then Ok(map[])
    else if EMPTY !in leaves then Err
    else Ok(map k | k in indices :: leaves[EMPTY])
  }

  lemma EmptyLeafMap<LF>(leaves: map<Hash, LF>, indices: seq<nat>, base: nat, g: nat -> LF)
    requires forall k | k in indices :: EMPTY in leaves && leaves[EMPTY] == g(base + k)
    ensures Fetched(GetEmptyLeaves(leaves, indices), indices, base, g)
  {
    if indices == [] {
      assert LeafMap(indices, base, g) == map[];
    } else {
      assert indices[0] in indices;
      assert (map k | k in indices :: leaves[EMPTY]) == LeafMap(indices, base, g);
    }
  }

  function Shift(k: nat, offset: nat): nat {
    k + offset
  }

  /** `inside` holds the indices that satisfy `p`, relative to `offset`, and `outside` the others. */
  ghost predicate Partitioned(indices: seq<nat>, p: nat -> bool, offset: nat, inside: seq<nat>, outside: seq<nat>) {
    && (forall k | k in indices :: if p(k) then k >= offset && k - offset in inside else k in outside)
    && (forall k: nat {:trigger Shift(k, offset)} | k in inside :: Shift(k, offset) in indices && p(Shift(k, offset)))
    && (forall k | k in outside :: k in indices && !p(k))
  }

  method Partition(indices: seq<nat>, p: nat -> bool, offset: nat) returns (inside: seq<nat>, outside: seq<nat>)
    requires forall k: nat | p(k) :: k >= offset
    ensures Partitioned(indices, p, offset, inside, outside)
  {
    inside, outside := [], [];
    for n := 0 to |indices|
      invariant Partitioned(indices[..n], p, offset, inside, outside)
    {
      PartitionStep(indices[..n], p, offset, inside, outside, indices[n]);
      if p(indices[n]) {
        inside := inside + [indices[n] - offset];
      } else {
        outside := outside + [indices[n]];
      }
      assert indices[..n + 1] == indices[..n] + [indices[n]];
    }
    assert indices[..|indices|] == indices;
  }

  lemma PartitionStep(indices: seq<nat>, p: nat -> bool, offset: nat, inside: seq<nat>, outside: seq<nat>, x: nat)
    requires Partitioned(indices, p, offset, inside, outside) && (p(x) ==> x >= offset)
    ensures p(x) ==> Partitioned(indices + [x], p, offset, inside + [x - offset], outside)
    ensures !p(x) ==> Partitioned(indices + [x], p, offset, inside, outside + [x])
  {
    assert p(x) ==> Shift(x - offset, offset) == x;
  }

  ghost predicate Unified<LF>(r: map<nat, LF>, offset: nat, left: map<nat, LF>, right: map<nat, LF>) {
    && (forall k: nat :: k in r <==> k in left || (k >= offset && k - offset in right))
    && (forall k: nat {:trigger Shift(k, offset)} | k in right :: r[Shift(k, offset)] == right[k])
    && (forall k: nat | k in left && !(k >= offset && k - offset in right) :: r[k] == left[k])
  }

  /** Puts the leaves of the right half behind those of the left half. */
  method UnifyLeaves<LF>(offset: nat, left: map<nat, LF>, right: map<nat, LF>) returns (leaves: map<nat, LF>)
    ensures Unified(leaves, offset, left, right)
  {
    leaves := left;
    var todo := right.Keys;
    while todo != {}
      invariant todo <= right.Keys
      invariant forall k: nat :: k in leaves <==> k in left || (k >= offset && k - offset in right.Keys - todo)
      invariant forall k: nat | k in right.Keys - todo :: leaves[k + offset] == right[k]
      invariant forall k: nat | k in left && !(k >= offset && k - offset in right.Keys - todo) :: leaves[k] == left[k]
      decreases |todo|
    {
      var k :| k in todo;
      leaves := leaves[k + offset := right[k]];
      todo := todo - {k};
    }
  }

  /** The storage holds node `v` of the tree together with the leaves below it. */
  ghost predicate Fetchable<LF>(store: Store, leaves: map<Hash, LF>, v: VirtualNode,
                                t: Tree, open: Hash -> Fact, g: nat -> LF, i: nat) {
    && Built(t) && Readable(store, v, t, open, v.height, i)
    && LeavesHeld(leaves, t.leaf, g, v.height, i)
  }

  lemma FetchableChildren<LF>(store: Store, leaves: map<Hash, LF>, v: VirtualNode,
                              t: Tree, open: Hash -> Fact, g: nat -> LF, i: nat)
    requires v.height > 0 && Fetchable(store, leaves, v, t, open, g, i)
    ensures var c := GetChildren(store, v);
            && c.Ok?
            && Fetchable(store, leaves, c.value.0, t, open, g, 2 * i)
            && Fetchable(store, leaves, c.value.1, t, open, g, 2 * i + 1)
  {
    ChildrenReadable(store, v, t, open, v.height, i);
    forall j: nat
      ensures Below(v.height, i, j) <==> Below(v.height - 1, 2 * i, j) || Below(v.height - 1, 2 * i + 1, j)
    {
      BelowChild(v.height, i, j);
    }
  }

  lemma FetchableBottom<LF>(store: Store, leaves: map<Hash, LF>, v: VirtualNode,
                            t: Tree, open: Hash -> Fact, g: nat -> LF, i: nat)
    requires v.node.length > 0 && Fetchable(store, leaves, v, t, open, g, i)
    ensures v.node.length <= v.height
    ensures Fetchable(store, leaves, FromHash(v.node.bottom, v.height - v.node.length), t, open, g,
                      BottomIndex(i, v.node))
  {
    BottomReadable(store, v, t, open, v.height, i);
    var w := v.height - v.node.length;
    NodeProper(t, open, v.height, i);
    forall j: nat | Below(w, BottomIndex(i, v.node), j)
      ensures Below(v.height, i, j)
    {
      Pow2Add(w, v.node.length);
      DivDiv(j, Pow2(w), Pow2(v.node.length));
      DivModUnique(BottomIndex(i, v.node), Pow2(v.node.length), i, v.node.path);
    }
  }

  lemma BlockOffset(i: nat, a: nat, d: nat, path: nat, k: nat)
    requires d > 0
    ensures (i * (a * d) + k) / d == i * a + k / d
    ensures i * (a * d) + path * d == (i * a + path) * d
  {
    var q, r := k / d, k % d;
    calc {
      i * (a * d) + k;
      i * (a * d) + (q * d + r);
      { assert i * (a * d) == (i * a) * d; }
      (i * a + q) * d + r;
    }
    DivModUnique(i * (a * d) + k, d, i * a + q, r);
    assert (i * a) * d == i * (a * d);
  }

  lemma QuotientPart(k: nat, d: nat, q: nat)
    requires d > 0 && k / d == q
    ensures k >= q * d && k - q * d < d
  {
  }

  /** The index of the first leaf below node `i` of height `h`. */
  function Base(i: nat, h: nat): nat {
    i * Pow2(h)
  }

  /** Offsets into the block of an edge that lead to its bottom, and their position there. */
  lemma EdgeOffset(h: nat, i: nat, n: Node, k: nat)
    requires n.length <= h && k < Pow2(h)
    ensures Below(h, i, Base(i, h) + k)
    ensures Below(h - n.length, BottomIndex(i, n), Base(i, h) + k) <==> k / Pow2(h - n.length) == n.path
    ensures Base(i, h) + Base(n.path, h - n.length) == Base(BottomIndex(i, n), h - n.length)
  {
    Pow2Add(n.length, h - n.length);
    BlockOffset(i, Pow2(n.length), Pow2(h - n.length), n.path, k);
    DivModUnique(i * Pow2(h) + k, Pow2(h), i, k);
  }

  /** Reads the leaves at `indices`, halving the tree or following its edges. */
  method GetLeaves<LF>(store: Store, leaves: map<Hash, LF>, v: VirtualNode, indices: seq<nat>,
                       ghost t: Tree, ghost open: Hash -> Fact, ghost g: nat -> LF, ghost i: nat)
    returns (r: Result<map<nat, LF>>)
    ensures Fetchable(store, leaves, v, t, open, g, i) && AllBelow(indices, Pow2(v.height))
        ==> Fetched(r, indices, Base(i, v.height), g)
    decreases v.height, 1
  {
    if indices == [] {
      return Ok(map[]);
    }
    if v.node.bottom == EMPTY {
      r := GetEmptyLeaves(leaves, indices);
      if Fetchable(store, leaves, v, t, open, g, i) && AllBelow(indices, Pow2(v.height)) {
        EmptyFetched(store, leaves, v, indices, t, open, g, i);
      }
      return;
    }
    if v.height == 0 {
      if v.node.bottom !in leaves {
        r := Err;
      } else {
        r := Ok(map[0 := leaves[v.node.bottom]]);
      }
      if Fetchable(store, leaves, v, t, open, g, i) && AllBelow(indices, Pow2(v.height)) {
        LeafFetched(store, leaves, v, indices, t, open, g, i);
      }
      return;
    }
    if v.node.length > 0 {
      r := GetEdgeNodeLeaves(store, leaves, v, indices, t, open, g, i);
      return;
    }
    r := GetBinaryNodeLeaves(store, leaves, v, indices, t, open, g, i);
  }

  lemma EmptyFetched<LF>(store: Store, leaves: map<Hash, LF>, v: VirtualNode, indices: seq<nat>,
                         t: Tree, open: Hash -> Fact, g: nat -> LF, i: nat)
    requires Fetchable(store, leaves, v, t, open, g, i) && AllBelow(indices, Pow2(v.height))
    requires v.node.bottom == EMPTY && indices != []
    ensures Fetched(GetEmptyLeaves(leaves, indices), indices, Base(i, v.height), g)
  {
    ReadableEmpty(store, v, t, open, v.height, i);
    forall k | k in indices
      ensures EMPTY in leaves && leaves[EMPTY] == g(Base(i, v.height) + k)
    {
      DivModUnique(Base(i, v.height) + k, Pow2(v.height), i, k);
      assert Below(v.height, i, Base(i, v.height) + k);
    }
    EmptyLeafMap(leaves, indices, Base(i, v.height), g);
  }

  lemma LeafFetched<LF>(store: Store, leaves: map<Hash, LF>, v: VirtualNode, indices: seq<nat>,
                        t: Tree, open: Hash -> Fact, g: nat -> LF, i: nat)
    requires Fetchable(store, leaves, v, t, open, g, i) && AllBelow(indices, Pow2(v.height))
    requires v.height == 0 && indices != []
    ensures v.node.bottom in leaves
    ensures map[0 := leaves[v.node.bottom]] == LeafMap(indices, Base(i, v.height), g)
  {
    Opened(t, 0, i);
    assert Below(0, i, i);
    assert indices[0] == 0;
    assert forall k: nat :: k in indices <==> k == 0;
    assert Base(i, 0) + 0 == i;
  }

  method GetBinaryNodeLeaves<LF>(store: Store, leaves: map<Hash, LF>, v: VirtualNode, indices: seq<nat>,
                                 ghost t: Tree, ghost open: Hash -> Fact, ghost g: nat -> LF, ghost i: nat)
    returns (r: Result<map<nat, LF>>)
    requires v.height > 0
    ensures Fetchable(store, leaves, v, t, open, g, i) && AllBelow(indices, Pow2(v.height))
        ==> Fetched(r, indices, Base(i, v.height), g)
    decreases v.height, 0
  {
    ghost var readable := Fetchable(store, leaves, v, t, open, g, i) && AllBelow(indices, Pow2(v.height));
    var mid := Pow2(v.height - 1);
    var p := (k: nat) => k >= mid;
    var rightIndices, leftIndices := Partition(indices, p, mid);
    var children := GetChildren(store, v);
    if readable {
      FetchableChildren(store, leaves, v, t, open, g, i);
      HalvesInRange(indices, v.height, p, rightIndices, leftIndices);
    }
    if children.Err? {
      return Err;
    }
    var (left, right) := children.value;
    ChildHeights(store, v);
    var leftLeaves := GetLeaves(store, leaves, left, leftIndices, t, open, g, 2 * i);
    var rightLeaves := GetLeaves(store, leaves, right, rightIndices, t, open, g, 2 * i + 1);
    if leftLeaves.Err? || rightLeaves.Err? {
      return Err;
    }
    var unified := UnifyLeaves(mid, leftLeaves.value, rightLeaves.value);
    r := Ok(unified);
    if readable {
      HalfIndex(v.height, i);
      UnifyFetched(indices, p, mid, rightIndices, leftIndices, rightLeaves, leftLeaves, r,
                   Base(2 * i + 1, right.height), Base(2 * i, left.height), Base(i, v.height), g);
    }
  }

  lemma HalfIndex(h: nat, i: nat)
    requires h > 0
    ensures Base(2 * i, h - 1) == Base(i, h)
    ensures Base(2 * i + 1, h - 1) == Base(i, h) + Pow2(h - 1)
  {
    var half := Pow2(h - 1);
    assert i * (2 * half) == 2 * i * half;
  }

  lemma ChildHeights(store: Store, v: VirtualNode)
    requires GetChildren(store, v).Ok?
    ensures var (l, r) := GetChildren(store, v).value; l.height == r.height == v.height - 1
  {
  }

  lemma HalvesInRange(indices: seq<nat>, h: nat, p: nat -> bool, rightIndices: seq<nat>, leftIndices: seq<nat>)
    requires h > 0 && AllBelow(indices, Pow2(h)) && forall k: nat :: p(k) <==> k >= Pow2(h - 1)
    requires Partitioned(indices, p, Pow2(h - 1), rightIndices, leftIndices)
    ensures AllBelow(leftIndices, Pow2(h - 1)) && AllBelow(rightIndices, Pow2(h - 1))
  {
    forall k | 0 <= k < |leftIndices|
      ensures leftIndices[k] < Pow2(h - 1)
    {
      assert leftIndices[k] in leftIndices;
    }
    forall k | 0 <= k < |rightIndices|
      ensures rightIndices[k] < Pow2(h - 1)
    {
      assert rightIndices[k] in rightIndices;
      assert Shift(rightIndices[k], Pow2(h - 1)) in indices;
    }
  }

  /** Reading the two parts of a partition and unifying them reads the whole. */
  lemma UnifyFetched<LF>(indices: seq<nat>, p: nat -> bool, offset: nat, inside: seq<nat>, outside: seq<nat>,
                         i: Result<map<nat, LF>>, o: Result<map<nat, LF>>, r: Result<map<nat, LF>>,
                         inner: nat, outer: nat, base: nat, g: nat -> LF)
    requires Partitioned(indices, p, offset, inside, outside)
    requires inner == base + offset && outer == base
    requires Fetched(i, inside, inner, g) && Fetched(o, outside, outer, g)
    requires r.Ok? && Unified(r.value, offset, o.value, i.value)
    ensures Fetched(r, indices, base, g)
  {
    forall k
      ensures k in r.value <==> k in indices
    {
      if k in indices && p(k) {
        assert k - offset in inside;
      }
      if k in r.value && k >= offset && k - offset in i.value {
        assert Shift(k - offset, offset) == k;
      }
    }
    forall k | k in r.value
      ensures r.value[k] == g(base + k)
    {
      if k >= offset && k - offset in i.value {
        assert Shift(k - offset, offset) == k;
      }
    }
    assert r.value == LeafMap(indices, base, g);
  }

  /** Offset `k` into the block of an edge leads to its bottom. */
  predicate OnEdge(v: VirtualNode, k: nat)
    requires v.node.length <= v.height
  {
    k / Pow2(v.height - v.node.length) == v.node.path
  }

  lemma BottomInRange(v: VirtualNode, indices: seq<nat>, p: nat -> bool, bottomIndices: seq<nat>,
                      emptyIndices: seq<nat>)
    requires v.node.length <= v.height && forall k: nat :: p(k) <==> OnEdge(v, k)
    requires Partitioned(indices, p, Base(v.node.path, v.height - v.node.length),
                         bottomIndices, emptyIndices)
    ensures AllBelow(bottomIndices, Pow2(v.height - v.node.length))
  {
    var d := Pow2(v.height - v.node.length);
    forall n | 0 <= n < |bottomIndices|
      ensures bottomIndices[n] < d
    {
      assert bottomIndices[n] in bottomIndices;
      assert p(Shift(bottomIndices[n], v.node.path * d));
      QuotientPart(bottomIndices[n] + v.node.path * d, d, v.node.path);
    }
  }

  /** Indices off the edge read the empty leaf. */
  lemma OffEdge<LF>(store: Store, leaves: map<Hash, LF>, v: VirtualNode, k: nat,
                    t: Tree, open: Hash -> Fact, g: nat -> LF, i: nat)
    requires v.node.length > 0 && Fetchable(store, leaves, v, t, open, g, i) && k < Pow2(v.height)
    requires v.node.length <= v.height && !OnEdge(v, k)
    ensures EMPTY in leaves && leaves[EMPTY] == g(Base(i, v.height) + k)
  {
    BottomReadable(store, v, t, open, v.height, i);
    EdgeOffset(v.height, i, v.node, k);
  }

  lemma AllOffEdge<LF>(store: Store, leaves: map<Hash, LF>, v: VirtualNode, indices: seq<nat>, p: nat -> bool,
                       bottomIndices: seq<nat>, emptyIndices: seq<nat>,
                       t: Tree, open: Hash -> Fact, g: nat -> LF, i: nat)
    requires v.node.length > 0 && Fetchable(store, leaves, v, t, open, g, i) && AllBelow(indices, Pow2(v.height))
    requires v.node.length <= v.height && forall k: nat :: p(k) <==> OnEdge(v, k)
    requires Partitioned(indices, p, Base(v.node.path, v.height - v.node.length), bottomIndices, emptyIndices)
    ensures Fetched(GetEmptyLeaves(leaves, emptyIndices), emptyIndices, Base(i, v.height), g)
  {
    forall k | k in emptyIndices
      ensures EMPTY in leaves && leaves[EMPTY] == g(Base(i, v.height) + k)
    {
      OffEdge(store, leaves, v, k, t, open, g, i);
    }
    EmptyLeafMap(leaves, emptyIndices, Base(i, v.height), g);
  }

  method GetEdgeNodeLeaves<LF>(store: Store, leaves: map<Hash, LF>, v: VirtualNode, indices: seq<nat>,
                               ghost t: Tree, ghost open: Hash -> Fact, ghost g: nat -> LF, ghost i: nat)
    returns (r: Result<map<nat, LF>>)
    requires v.node.length > 0
    ensures Fetchable(store, leaves, v, t, open, g, i) && AllBelow(indices, Pow2(v.height))
        ==> Fetched(r, indices, Base(i, v.height), g)
    decreases v.height, 0
  {
    ghost var readable := Fetchable(store, leaves, v, t, open, g, i) && AllBelow(indices, Pow2(v.height));
    if readable {
      FetchableBottom(store, leaves, v, t, open, g, i);
    }
    if v.node.length > v.height {
      return Err;
    }
    var width := v.height - v.node.length;
    var prefix := Base(v.node.path, width);
    var p := (k: nat) => OnEdge(v, k);
    forall k: nat | p(k)
      ensures k >= prefix
    {
      QuotientPart(k, Pow2(width), v.node.path);
    }
    var bottomIndices, emptyIndices := Partition(indices, p, prefix);
    BottomInRange(v, indices, p, bottomIndices, emptyIndices);
    if readable {
      AllOffEdge(store, leaves, v, indices, p, bottomIndices, emptyIndices, t, open, g, i);
    }
    var bottomLeaves :=
      GetLeaves(store, leaves, FromHash(v.node.bottom, width), bottomIndices, t, open, g, BottomIndex(i, v.node));
    var emptyLeaves := GetEmptyLeaves(leaves, emptyIndices);
    if bottomLeaves.Err? || emptyLeaves.Err? {
      return Err;
    }
    var unified := UnifyLeaves(prefix, emptyLeaves.value, bottomLeaves.value);
    r := Ok(unified);
    if readable {
      EdgeOffset(v.height, i, v.node, 0);
      UnifyFetched(indices, p, prefix, bottomIndices, emptyIndices, bottomLeaves, emptyLeaves, r,
                   Base(BottomIndex(i, v.node), width), Base(i, v.height), Base(i, v.height), g);
    }
  }
}
