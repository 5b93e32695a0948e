/** Checking a storage proof against a root, and what its verdict says about the tree. */
module TrieProofs {
  import opened Basics
  import opened Bits
  import opened Patricia

  const TREE_HEIGHT: nat := 251

  /** The first bits of a key that lie above the tree. */
  const START: nat := WIDTH - TREE_HEIGHT

  /** `Panic` stands for a failed `expect` on a malformed node or an index out of range. */
  datatype Verdict = Accepted | NonExistence(height: nat) | InvalidChildNodeHash | Panic

  /** What the constructors of the node facts demand. */
  predicate WellFormed(node: Fact) {
    match node
    case Binary(left, right) => left != EMPTY && right != EMPTY
    case Edge(_, path, length) => path < Pow2(length)
  }

  /** The check of the nodes from `index` on, whose first must hash to `parent`. */
  function Verify(H: HashFunction, bits: seq<bool>, index: nat, parent: Hash, proof: seq<Fact>): (v: Verdict)
    requires |bits| == WIDTH
    decreases |proof|
  {
    if proof == [] then Accepted
    else if !WellFormed(proof[0]) then Panic
    else if H(proof[0]) != parent then InvalidChildNodeHash
    else
      match proof[0]
      case Binary(left, right) =>
        if index >= WIDTH then Panic
        else Verify(H, bits, index + 1, if bits[index] then right else left, proof[1..])
      case Edge(child, path, length) =>
        if length > WIDTH || index + length > WIDTH then Panic
        else if ToBitsBe(path)[WIDTH - length..] != bits[index..index + length] then
          if index + length < START then Panic else NonExistence(TREE_HEIGHT - (index + length - START))
        else Verify(H, bits, index + length, child, proof[1..])
  }

  method VerifyProof(H: HashFunction, key: nat, commitment: Hash, proof: seq<Fact>) returns (v: Verdict)
    ensures v == Verify(H, ToBitsBe(key), START, commitment, proof)
  {
    var bits := ToBitsBe(key);
    var parent, index := commitment, START;
    for n := 0 to |proof|
      invariant index >= START
      invariant Verify(H, bits, index, parent, proof[n..]) == Verify(H, bits, START, commitment, proof)
    {
      assert proof[n..][1..] == proof[n + 1..];
      if !WellFormed(proof[n]) {
        return Panic;
      }
      if H(proof[n]) != parent {
        return InvalidChildNodeHash;
      }
      match proof[n]
      case Binary(left, right) =>
        if index >= WIDTH {
          return Panic;
        }
        parent := if bits[index] then right else left;
        index := index + 1;
      case Edge(child, path, length) =>
        if length > WIDTH || index + length > WIDTH {
          return Panic;
        }
        var relevantPathBits := ToBitsBe(path)[WIDTH - length..];
        var keyBitsSlice := bits[index..index + length];
        parent := child;
        index := index + length;
        if relevantPathBits != keyBitsSlice {
          return NonExistence(TREE_HEIGHT - (index - START));
        }
    }
    v := Accepted;
  }

  // ----- The same check on numbers -----

  /** The check of the nodes of height `h` and below, for a key given as a number. */
  function VerifyBelow(H: HashFunction, key: nat, h: nat, parent: Hash, proof: seq<Fact>): (v: Verdict)
    decreases |proof|
  {
    if proof == [] then Accepted
    else if !WellFormed(proof[0]) then Panic
    else if H(proof[0]) != parent then InvalidChildNodeHash
    else
      match proof[0]
      case Binary(left, right) =>
        if h == 0 then Panic
        else VerifyBelow(H, key, h - 1, if Bit(key, h - 1) then right else left, proof[1..])
      case Edge(child, path, length) =>
        if length > h then Panic
        else if path != Window(key, h - length, length) then NonExistence(h - length)
        else VerifyBelow(H, key, h - length, child, proof[1..])
  }

  lemma {:induction false} VerifyOnNumbers(H: HashFunction, key: nat, h: nat, parent: Hash, proof: seq<Fact>)
    requires h <= TREE_HEIGHT
    ensures Verify(H, ToBitsBe(key), WIDTH - h, parent, proof) == VerifyBelow(H, key, h, parent, proof)
    decreases |proof|
  {
    if proof != [] && WellFormed(proof[0]) && H(proof[0]) == parent {
      match proof[0]
      case Binary(left, right) =>
        if h > 0 {
          VerifyOnNumbers(H, key, h - 1, if Bit(key, h - 1) then right else left, proof[1..]);
        }
      case Edge(child, path, length) =>
        if length <= h {
          EdgeBits(key, h, path, length);
          VerifyOnNumbers(H, key, h - length, child, proof[1..]);
        }
    }
  }

  lemma EdgeBits(key: nat, h: nat, path: nat, length: nat)
    requires length <= h <= WIDTH && path < Pow2(length)
    ensures ToBitsBe(path)[WIDTH - length..] == ToBitsBe(key)[WIDTH - h..WIDTH - h + length]
       <==> path == Window(key, h - length, length)
  {
    SliceIsWindow(path, key, WIDTH - length, WIDTH - h, length);
    assert ToBitsBe(path)[WIDTH - length..] == ToBitsBe(path)[WIDTH - length..WIDTH - length + length];
    assert Pow2(0) == 1;
    DivModUnique(path, Pow2(length), 0, path);
  }

  // ----- The path of a key in a tree -----

  /** The index of the node of height `h` above a key. */
  function IndexAt(key: nat, h: nat): nat {
    Quotient(key, Pow2(h))
  }

  ghost function NodeAt(t: Tree, h: nat, key: nat): Node {
    t.node(h, IndexAt(key, h))
  }

  ghost predicate FollowsEdge(n: Node, h: nat, key: nat) {
    n.length <= h && n.path == Window(key, h - n.length, n.length)
  }

  ghost function BinaryAt(t: Tree, h: nat, key: nat): Fact
    requires h > 0
  {
    Binary(NodeHash(t.hash, Lower(t, h, IndexAt(key, h))), NodeHash(t.hash, Upper(t, h, IndexAt(key, h))))
  }

  /** The nodes met on the way from height `h` down to the key's leaf, or to the edge
      that leads elsewhere. */
  ghost function TruePath(t: Tree, h: nat, key: nat): seq<Fact>
    decreases h
  {
    var n := NodeAt(t, h, key);
    if h == 0 || n == EMPTY_NODE then []
    else if n.length == 0 then [BinaryAt(t, h, key)] + TruePath(t, h - 1, key)
    else [Edge(n.bottom, n.path, n.length)] + if FollowsEdge(n, h, key) then TruePath(t, h - n.length, key) else []
  }

  /** How that way ends: `NonExistence` where an edge leads elsewhere. */
  ghost function TrueEnd(t: Tree, h: nat, key: nat): Verdict
    decreases h
  {
    var n := NodeAt(t, h, key);
    if h == 0 || n == EMPTY_NODE then Accepted
    else if n.length == 0 then TrueEnd(t, h - 1, key)
    else if FollowsEdge(n, h, key) then TrueEnd(t, h - n.length, key)
    else NonExistence(if n.length <= h then h - n.length else 0)
  }

  /** The tree's facts from height `h` down on the key's side do not collide. */
  ghost predicate SoundAt(t: Tree, open: Hash -> Fact, h: nat, key: nat) {
    && Built(t) && AllFacts(t, h, IndexAt(key, h), OpenedBy(t.hash, open))
    && EdgeFact(NodeAt(t, h, key), OpenedBy(t.hash, open))
  }

  lemma ChildOnPath(t: Tree, open: Hash -> Fact, h: nat, key: nat)
    requires h > 0 && SoundAt(t, open, h, key)
    requires NodeAt(t, h, key) != EMPTY_NODE && NodeAt(t, h, key).length == 0
    ensures SoundAt(t, open, h - 1, key)
    ensures NodeAt(t, h - 1, key)
            == if Bit(key, h - 1) then Upper(t, h, IndexAt(key, h)) else Lower(t, h, IndexAt(key, h))
    ensures NodeAt(t, h - 1, key) != EMPTY_NODE
    ensures Opens(t.hash, open, BinaryAt(t, h, key)) && WellFormed(BinaryAt(t, h, key))
    ensures t.hash(BinaryAt(t, h, key)) == NodeHash(t.hash, NodeAt(t, h, key))
  {
    var i := IndexAt(key, h);
    Halves(t, open, h, i);
    DivDiv(key, Pow2(h - 1), 2);
    assert IndexAt(key, h - 1) == 2 * i + if Bit(key, h - 1) then 1 else 0;
    NodeHashNotEmpty(t.hash, open, Lower(t, h, i), h - 1);
    NodeHashNotEmpty(t.hash, open, Upper(t, h, i), h - 1);
  }

  lemma NodeHashNotEmpty(H: HashFunction, open: Hash -> Fact, n: Node, h: nat)
    requires Proper(n, h) && n != EMPTY_NODE && EdgeFact(n, OpenedBy(H, open))
    ensures NodeHash(H, n) != EMPTY
  {
  }

  lemma BottomOnPath(t: Tree, open: Hash -> Fact, h: nat, key: nat)
    requires SoundAt(t, open, h, key) && NodeAt(t, h, key).length > 0
    ensures var n := NodeAt(t, h, key);
            && n.length <= h && n.bottom != EMPTY
            && Opens(t.hash, open, Edge(n.bottom, n.path, n.length)) && WellFormed(Edge(n.bottom, n.path, n.length))
            && (FollowsEdge(n, h, key) ==>
                SoundAt(t, open, h - n.length, key) && NodeAt(t, h - n.length, key) == Node(n.bottom, 0, 0))
            && (!FollowsEdge(n, h, key) ==> t.leaf(key) == EMPTY)
  {
    var n := NodeAt(t, h, key);
    var i := IndexAt(key, h);
    NodeProper(t, open, h, i);
    EdgeLeadsToBottom(t, open, h, i);
    EdgeFactsBelow(t, open, h, i, OpenedBy(t.hash, open));
    EdgeTarget(key, h, n);
  }

  /** A key follows an edge exactly when it lies below the edge's bottom. */
  lemma EdgeTarget(key: nat, h: nat, n: Node)
    requires n.length <= h && n.path < Pow2(n.length)
    ensures FollowsEdge(n, h, key) <==> IndexAt(key, h - n.length) == BottomIndex(IndexAt(key, h), n)
  {
    var q, d := IndexAt(key, h - n.length), Pow2(n.length);
    DropBits(key, h - n.length, n.length);
    SplitTarget(q, IndexAt(key, h), n.path, d);
  }

  lemma SplitTarget(q: nat, i: nat, path: nat, d: nat)
    requires d > 0 && path < d && i == q / d
    ensures path == q % d <==> q == i * d + path
  {
    if q == i * d + path {
      DivModUnique(q, d, i, path);
    }
  }

  // ----- What a verdict says -----

  /** Nodes of a proof neither collide with the tree's facts nor hash to one of its leaves. */
  ghost predicate Separated(t: Tree, open: Hash -> Fact, proof: seq<Fact>) {
    forall a | a in proof :: Opens(t.hash, open, a) && forall j: nat :: t.hash(a) != t.leaf(j)
  }

  ghost predicate Malformed(proof: seq<Fact>) {
    exists a :: a in proof && !WellFormed(a)
  }

  /** The verdict on a proof, given the path of the key and how it ends. */
  ghost predicate RightVerdict(v: Verdict, proof: seq<Fact>, path: seq<Fact>, end: Verdict) {
    && (path <= proof && end.NonExistence? ==> v == end)
    && (proof <= path && !(end.NonExistence? && proof == path) ==> v == Accepted)
    && (!(proof <= path) && !(path <= proof && end.NonExistence?) ==>
          v == InvalidChildNodeHash || (v == Panic && Malformed(proof)))
  }

  lemma RightVerdictCons(v: Verdict, a: Fact, proof: seq<Fact>, path: seq<Fact>, end: Verdict)
    requires RightVerdict(v, proof, path, end)
    ensures RightVerdict(v, [a] + proof, [a] + path, end)
  {
    assert ([a] + path <= [a] + proof) <==> path <= proof by {
      assert ([a] + proof)[1..] == proof && ([a] + path)[1..] == path;
    }
    assert ([a] + proof <= [a] + path) <==> proof <= path by {
      assert ([a] + proof)[1..] == proof && ([a] + path)[1..] == path;
    }
    assert [a] + proof == [a] + path <==> proof == path by {
      assert ([a] + proof)[1..] == proof && ([a] + path)[1..] == path;
    }
    if Malformed(proof) {
      var b :| b in proof && !WellFormed(b);
      assert b in [a] + proof;
    }
  }

  /** A first node that is not the true one is refused. */
  lemma WrongHead(v: Verdict, proof: seq<Fact>, path: seq<Fact>, end: Verdict)
    requires proof != [] && (path == [] ==> end == Accepted) && (path != [] ==> proof[0] != path[0])
    requires v == InvalidChildNodeHash || (v == Panic && !WellFormed(proof[0]))
    ensures RightVerdict(v, proof, path, end)
  {
    assert proof[0] in proof;
  }

  /** The verdict follows the key's true path: a proof that extends it where an edge leads
      elsewhere proves absence, one that is part of it is accepted, and any other is refused. */
  lemma {:induction false} VerifyAgainstTree(t: Tree, open: Hash -> Fact, h: nat, key: nat, proof: seq<Fact>)
    requires SoundAt(t, open, h, key) && Separated(t, open, proof)
    ensures RightVerdict(VerifyBelow(t.hash, key, h, NodeHash(t.hash, NodeAt(t, h, key)), proof), proof,
                         TruePath(t, h, key), TrueEnd(t, h, key))
    decreases h
  {
    var n := NodeAt(t, h, key);
    var parent := NodeHash(t.hash, n);
    var v := VerifyBelow(t.hash, key, h, parent, proof);
    var path, end := TruePath(t, h, key), TrueEnd(t, h, key);
    if proof == [] {
    } else if h == 0 || n == EMPTY_NODE {
      if h == 0 {
        Opened(t, 0, key);
        assert NodeAt(t, 0, key) == Node(t.leaf(key), 0, 0);
      }
      assert proof[0] in proof;
      WrongHead(v, proof, path, end);
    } else if n.length == 0 {
      VerifyBinary(t, open, h, key, proof);
    } else {
      VerifyEdge(t, open, h, key, proof);
    }
  }

  lemma {:induction false} VerifyBinary(t: Tree, open: Hash -> Fact, h: nat, key: nat, proof: seq<Fact>)
    requires h > 0 && SoundAt(t, open, h, key) && Separated(t, open, proof) && proof != []
    requires NodeAt(t, h, key) != EMPTY_NODE && NodeAt(t, h, key).length == 0
    ensures RightVerdict(VerifyBelow(t.hash, key, h, NodeHash(t.hash, NodeAt(t, h, key)), proof), proof,
                         TruePath(t, h, key), TrueEnd(t, h, key))
    decreases h, 0
  {
    var a := BinaryAt(t, h, key);
    var v := VerifyBelow(t.hash, key, h, NodeHash(t.hash, NodeAt(t, h, key)), proof);
    ChildOnPath(t, open, h, key);
    assert proof[0] in proof;
    if proof[0] == a {
      assert Separated(t, open, proof[1..]);
      VerifyAgainstTree(t, open, h - 1, key, proof[1..]);
      RightVerdictCons(v, a, proof[1..], TruePath(t, h - 1, key), TrueEnd(t, h - 1, key));
      assert proof == [a] + proof[1..];
    } else {
      WrongHead(v, proof, TruePath(t, h, key), TrueEnd(t, h, key));
    }
  }

  lemma {:induction false} VerifyEdge(t: Tree, open: Hash -> Fact, h: nat, key: nat, proof: seq<Fact>)
    requires h > 0 && SoundAt(t, open, h, key) && Separated(t, open, proof) && proof != []
    requires NodeAt(t, h, key).length > 0
    ensures RightVerdict(VerifyBelow(t.hash, key, h, NodeHash(t.hash, NodeAt(t, h, key)), proof), proof,
                         TruePath(t, h, key), TrueEnd(t, h, key))
    decreases h, 0
  {
    var n := NodeAt(t, h, key);
    var a := Edge(n.bottom, n.path, n.length);
    var v := VerifyBelow(t.hash, key, h, NodeHash(t.hash, n), proof);
    BottomOnPath(t, open, h, key);
    assert proof[0] in proof;
    if proof[0] == a {
      assert proof == [a] + proof[1..];
      if FollowsEdge(n, h, key) {
        assert Separated(t, open, proof[1..]);
        VerifyAgainstTree(t, open, h - n.length, key, proof[1..]);
        RightVerdictCons(v, a, proof[1..], TruePath(t, h - n.length, key), TrueEnd(t, h - n.length, key));
      } else {
        RightVerdictCons(v, a, proof[1..], [], TrueEnd(t, h, key));
      }
    } else {
      WrongHead(v, proof, TruePath(t, h, key), TrueEnd(t, h, key));
    }
  }

  /** The way of a key ends at an edge leading elsewhere exactly when its leaf is empty. */
  lemma {:induction false} EndTellsLeaf(t: Tree, open: Hash -> Fact, h: nat, key: nat)
    requires SoundAt(t, open, h, key) && NodeAt(t, h, key) != EMPTY_NODE
    ensures TrueEnd(t, h, key).NonExistence? <==> t.leaf(key) == EMPTY
    ensures TrueEnd(t, h, key) == Accepted <==> t.leaf(key) != EMPTY
    decreases h
  {
    var n := NodeAt(t, h, key);
    if h == 0 {
      Opened(t, 0, key);
    } else if n.length == 0 {
      ChildOnPath(t, open, h, key);
      EndTellsLeaf(t, open, h - 1, key);
    } else {
      BottomOnPath(t, open, h, key);
      if FollowsEdge(n, h, key) {
        EndTellsLeaf(t, open, h - n.length, key);
      }
    }
  }

  function LevelsOf(a: Fact): nat {
    match a
    case Binary(_, _) => 1
    case Edge(_, _, length) => length
  }

  /** The levels of the tree a proof walks down. */
  function Levels(proof: seq<Fact>): nat {
    if proof == [] then 0 else LevelsOf(proof[0]) + Levels(proof[1..])
  }

  /** A path walks all the way down exactly when it ends at a leaf, and every proper part
      of it walks less far. */
  lemma {:induction false} PathLevels(t: Tree, open: Hash -> Fact, h: nat, key: nat, proof: seq<Fact>)
    requires SoundAt(t, open, h, key) && NodeAt(t, h, key) != EMPTY_NODE && proof <= TruePath(t, h, key)
    requires TrueEnd(t, h, key).NonExistence? ==> proof != TruePath(t, h, key)
    ensures Levels(proof) <= h
    ensures Levels(proof) == h <==> TrueEnd(t, h, key) == Accepted && proof == TruePath(t, h, key)
    decreases h
  {
    var n := NodeAt(t, h, key);
    if h == 0 {
      assert proof == [];
    } else if n.length == 0 {
      ChildOnPath(t, open, h, key);
      PrefixTail(proof, BinaryAt(t, h, key), TruePath(t, h - 1, key));
      if proof != [] {
        PathLevels(t, open, h - 1, key, proof[1..]);
      }
    } else {
      BottomOnPath(t, open, h, key);
      if FollowsEdge(n, h, key) {
        PrefixTail(proof, Edge(n.bottom, n.path, n.length), TruePath(t, h - n.length, key));
        if proof != [] {
          PathLevels(t, open, h - n.length, key, proof[1..]);
        }
      } else {
        PrefixTail(proof, Edge(n.bottom, n.path, n.length), []);
        assert proof == [];
      }
    }
  }

  lemma PrefixTail(proof: seq<Fact>, a: Fact, rest: seq<Fact>)
    requires proof <= [a] + rest
    ensures proof != [] ==> proof[0] == a && proof[1..] <= rest && (proof == [a] + rest <==> proof[1..] == rest)
  {
    if proof != [] {
      assert ([a] + rest)[1..] == rest;
      assert proof == [proof[0]] + proof[1..];
    }
  }

  /** What a verdict on a proof from height `h` says about the tree. */
  ghost predicate Tells(v: Verdict, t: Tree, h: nat, key: nat, proof: seq<Fact>) {
    && RightVerdict(v, proof, TruePath(t, h, key), TrueEnd(t, h, key))
    && (v.NonExistence? ==> t.leaf(key) == EMPTY)
    && (v == Accepted ==>
        && proof <= TruePath(t, h, key)
        && (Levels(proof) == h <==> proof == TruePath(t, h, key) && t.leaf(key) != EMPTY))
  }

  /** A `NonExistence` verdict means that the key has no leaf. An accepted proof is part of
      the key's path; it shows that the key has a leaf exactly when it walks down all levels. */
  lemma VerdictTells(t: Tree, open: Hash -> Fact, h: nat, key: nat, proof: seq<Fact>)
    requires Built(t) && CollisionFree(t, h, open) && Separated(t, open, proof)
    requires h > 0 && key < Pow2(h)
    ensures Tells(VerifyBelow(t.hash, key, h, NodeHash(t.hash, t.node(h, 0)), proof), t, h, key, proof)
  {
    DivModUnique(key, Pow2(h), 0, key);
    assert IndexAt(key, h) == 0;
    VerifyAgainstTree(t, open, h, key, proof);
    var path := TruePath(t, h, key);
    var v := VerifyBelow(t.hash, key, h, NodeHash(t.hash, t.node(h, 0)), proof);
    if NodeAt(t, h, key) == EMPTY_NODE {
      NodeEmpty(t, open, h, 0);
      assert Below(h, 0, key);
      assert path == [];
    } else {
      EndTellsLeaf(t, open, h, key);
      if v == Accepted {
        PathLevels(t, open, h, key, proof);
      }
    }
  }

  /** Soundness of proof checking against the root of a tree of height 251. */
  lemma ProofSound(t: Tree, open: Hash -> Fact, h: nat, key: nat, proof: seq<Fact>)
    requires h == TREE_HEIGHT
    requires Built(t) && CollisionFree(t, h, open) && Separated(t, open, proof) && key < Pow2(h)
    ensures Tells(Verify(t.hash, ToBitsBe(key), START, NodeHash(t.hash, t.node(h, 0)), proof), t, h, key, proof)
  {
    VerifyOnNumbers(t.hash, key, h, NodeHash(t.hash, t.node(h, 0)), proof);
    VerdictTells(t, open, h, key, proof);
  }
}
