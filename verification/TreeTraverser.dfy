/** The bookkeeping of finished nodes, for any tree shape: nodes are numbered with
    the root at 1 and the children of `k` at `2k` and `2k + 1`. */
module Frontier {
  import opened Basics

  /** Which indices are nodes, which of them have children, and the value each
      node gets in the end. */
  datatype Shape<!V> = Shape(present: nat -> bool, inner: nat -> bool, value: nat -> Result<V>)

  function LeftOf(i: nat): nat { 2 * i }

  function RightOf(i: nat): nat { 2 * i + 1 }

  function ParentOf(i: nat): nat { i / 2 }

  function Sibling(i: nat): nat {
    if i % 2 == 0 then i + 1 else i - 1
  }

  lemma Family(i: nat)
    ensures i == LeftOf(ParentOf(i)) || i == RightOf(ParentOf(i))
    ensures ParentOf(LeftOf(i)) == i == ParentOf(RightOf(i))
    ensures i > 0 ==> ParentOf(Sibling(i)) == ParentOf(i) || i == 1
    ensures i == LeftOf(ParentOf(i)) ==> Sibling(i) == RightOf(ParentOf(i))
    ensures i == RightOf(ParentOf(i)) ==> Sibling(i) == LeftOf(ParentOf(i))
  {
  }

  function Combined<V>(combine: (V, V) -> Result<V>, l: Result<V>, r: Result<V>): Result<V> {
    if l.Ok? && r.Ok? then combine(l.value, r.value) else Err
  }

  /** Both children of an inner node are nodes, and so is the parent of any node;
      the value of an inner node combines those of its children. */
  ghost predicate IsTree<V>(s: Shape<V>, combine: (V, V) -> Result<V>) {
    && s.present(1) && !s.present(0) && !s.inner(0)
    && (forall i: nat {:trigger LeftOf(i)} {:trigger RightOf(i)} :: s.inner(i) ==>
          && s.present(i) && s.present(LeftOf(i)) && s.present(RightOf(i))
          && s.value(i) == Combined(combine, s.value(LeftOf(i)), s.value(RightOf(i))))
    && (forall i: nat {:trigger ParentOf(i)} :: i > 1 && s.present(i) ==> s.inner(ParentOf(i)))
  }

  /** A failure anywhere below fails the root. */
  lemma {:induction false} FailureReachesRoot<V>(s: Shape<V>, combine: (V, V) -> Result<V>, i: nat)
    requires IsTree(s, combine) && s.present(i) && s.value(i).Err?
    ensures s.value(1).Err?
  {
    if i > 1 {
      var p := ParentOf(i);
      Family(i);
      assert s.inner(p);
      assert s.value(p) == Combined(combine, s.value(LeftOf(p)), s.value(RightOf(p)));
      FailureReachesRoot(s, combine, p);
    }
  }

  /** Finished nodes are nodes, and their children are finished. */
  ghost predicate DoneBelow<V>(s: Shape<V>, done: set<nat>) {
    && (forall i | i in done :: s.present(i))
    && (forall i: nat {:trigger LeftOf(i)} {:trigger RightOf(i)} :: i in done && s.inner(i) ==>
          LeftOf(i) in done && RightOf(i) in done)
  }

  /** `nodes` holds exactly the topmost finished nodes, each with its value. */
  ghost predicate Merged<V>(s: Shape<V>, nodes: map<nat, V>, done: set<nat>) {
    && DoneBelow(s, done)
    && (forall i | i in nodes :: i in done && ParentOf(i) !in done && s.value(i) == Ok(nodes[i]))
    && (forall i: nat {:trigger ParentOf(i)} :: i in done && ParentOf(i) !in done ==> i in nodes)
  }

  /** A visited node is finished once its children are. */
  ghost predicate Complete<V>(s: Shape<V>, visited: set<nat>, done: set<nat>) {
    forall i: nat {:trigger LeftOf(i)} {:trigger RightOf(i)} :: i in visited ==>
      (s.inner(i) ==> LeftOf(i) in done && RightOf(i) in done) ==> i in done
  }

  /** A visited node other than the root was reached through its parent. */
  ghost predicate Reached<V>(s: Shape<V>, visited: set<nat>) {
    && (forall i | i in visited :: s.present(i))
    && (forall i: nat {:trigger ParentOf(i)} :: i in visited ==> i == 1 || ParentOf(i) in visited)
  }

  /** `a` is node `i` or lies above it. */
  predicate IsAbove(a: nat, i: nat)
    decreases i
  {
    i == a || (i > a > 0 && IsAbove(a, ParentOf(i)))
  }

  lemma {:induction false} AboveBoth(a: nat, b: nat, i: nat)
    requires IsAbove(a, i) && IsAbove(b, i)
    ensures IsAbove(a, b) || IsAbove(b, a)
    decreases i
  {
    if a != i && b != i {
      AboveBoth(a, b, ParentOf(i));
    }
  }

  /** Everything below a finished node is finished. */
  lemma {:induction false} BelowDone<V>(s: Shape<V>, combine: (V, V) -> Result<V>, done: set<nat>, a: nat, i: nat)
    requires IsTree(s, combine) && DoneBelow(s, done) && a in done && IsAbove(a, i) && s.present(i)
    ensures i in done
    decreases i
  {
    if i != a {
      Family(i);
      assert s.present(a);
      BelowDone(s, combine, done, a, ParentOf(i));
    }
  }

  /** Everything above a visited node is visited. */
  lemma {:induction false} AboveVisited<V>(s: Shape<V>, visited: set<nat>, a: nat, i: nat)
    requires Reached(s, visited) && i in visited && IsAbove(a, i)
    ensures a in visited
    decreases i
  {
    if i != a {
      AboveVisited(s, visited, a, ParentOf(i));
    }
  }

  /** A finished node lies below a node of the map. */
  lemma {:induction false} BelowKey<V>(s: Shape<V>, nodes: map<nat, V>, done: set<nat>, i: nat) returns (a: nat)
    requires Merged(s, nodes, done) && i in done && 0 !in done
    ensures a in nodes && IsAbove(a, i)
    decreases i
  {
    if ParentOf(i) in done {
      a := BelowKey(s, nodes, done, ParentOf(i));
      Above(a, ParentOf(i), i);
    } else {
      a := i;
    }
  }

  lemma Above(a: nat, p: nat, i: nat)
    requires IsAbove(a, p) && p == ParentOf(i) && 0 < a <= p && i > p
    ensures IsAbove(a, i)
  {
  }

  /** No node of the map lies above another, and no two of them are siblings. */
  lemma MapPrefixFree<V>(s: Shape<V>, combine: (V, V) -> Result<V>, nodes: map<nat, V>, visited: set<nat>,
                         done: set<nat>, i: nat, j: nat)
    requires IsTree(s, combine) && Merged(s, nodes, done) && Complete(s, visited, done) && Reached(s, visited)
    requires done <= visited && i in nodes && j in nodes
    ensures IsAbove(i, j) ==> i == j
    ensures i > 1 ==> Sibling(i) !in nodes
  {
    if IsAbove(i, j) && i != j {
      assert s.inner(ParentOf(j));
      BelowDone(s, combine, done, i, ParentOf(j));
    }
    Family(i);
    assert LeftOf(ParentOf(i)) == 2 * ParentOf(i);
  }

  /** When a sibling of `cur` is in the map, so is `cur`, and their parent can be merged. */
  lemma MergeReady<V>(s: Shape<V>, combine: (V, V) -> Result<V>, nodes: map<nat, V>, visited: set<nat>, done: set<nat>,
                      cur: nat)
    requires IsTree(s, combine) && cur in done && ParentOf(cur) !in done
    requires Merged(s, nodes, done) && Sibling(cur) in nodes
    requires done <= visited && Reached(s, visited)
    ensures var p := ParentOf(cur);
            && p in visited && s.inner(p) && LeftOf(p) in nodes && RightOf(p) in nodes
            && s.value(p) == combine(nodes[LeftOf(p)], nodes[RightOf(p)])
            && ParentOf(p) !in done + {p}
  {
    var p := ParentOf(cur);
    Family(cur);
    assert s.inner(p);
    assert s.value(p) == Combined(combine, s.value(LeftOf(p)), s.value(RightOf(p)));
    NotBelowDone(s, combine, done, p);
  }

  lemma NotBelowDone<V>(s: Shape<V>, combine: (V, V) -> Result<V>, done: set<nat>, p: nat)
    requires IsTree(s, combine) && DoneBelow(s, done) && s.inner(p) && p !in done
    ensures ParentOf(p) !in done + {p}
  {
    Family(p);
  }

  lemma KeepsComplete<V>(s: Shape<V>, visited: set<nat>, done: set<nat>, p: nat)
    requires Complete(s, visited - {p}, done)
    ensures Complete(s, visited - {ParentOf(p)}, done + {p})
  {
    forall i: nat | i in visited - {ParentOf(p)} && (s.inner(i) ==> LeftOf(i) in done + {p} && RightOf(i) in done + {p})
      ensures i in done + {p}
    {
      Family(i);
    }
  }

  lemma KeepsMerged<V>(s: Shape<V>, combine: (V, V) -> Result<V>, nodes: map<nat, V>, done: set<nat>, p: nat)
    requires IsTree(s, combine) && Merged(s, nodes, done) && s.inner(p) && p !in done
    requires LeftOf(p) in nodes && RightOf(p) in nodes && s.value(p).Ok?
    ensures Merged(s, nodes[p := s.value(p).value] - {LeftOf(p)} - {RightOf(p)}, done + {p})
  {
    var nodes' := nodes[p := s.value(p).value] - {LeftOf(p)} - {RightOf(p)};
    Family(p);
    NotBelowDone(s, combine, done, p);
    forall i | i in nodes'
      ensures i in done + {p} && ParentOf(i) !in done + {p} && s.value(i) == Ok(nodes'[i])
    {
      Family(i);
    }
  }

  /** When the loop stops, the parent of the last merged node is not finished. */
  lemma LastMerge<V>(s: Shape<V>, combine: (V, V) -> Result<V>, nodes: map<nat, V>, visited: set<nat>, done: set<nat>,
                     cur: nat)
    requires IsTree(s, combine) && cur in done && ParentOf(cur) !in done
    requires Merged(s, nodes, done) && Sibling(cur) !in nodes
    requires Reached(s, visited) && done <= visited
    requires Complete(s, visited - {ParentOf(cur)}, done)
    ensures Complete(s, visited, done)
  {
    var p := ParentOf(cur);
    Family(cur);
    forall i: nat | i in visited && (s.inner(i) ==> LeftOf(i) in done && RightOf(i) in done)
      ensures i in done
    {
      assert ParentOf(Sibling(cur)) == p || cur == 1;
      assert LeftOf(i) == 2 * i;
    }
  }

  /** Visiting a node without children finishes it. */
  lemma FinishLeaf<V>(s: Shape<V>, combine: (V, V) -> Result<V>, nodes: map<nat, V>, visited: set<nat>, done: set<nat>,
                      i: nat, value: V)
    requires IsTree(s, combine) && Merged(s, nodes, done) && Reached(s, visited) && done <= visited
    requires Complete(s, visited, done)
    requires s.present(i) && !s.inner(i) && s.value(i) == Ok(value)
    requires i !in visited && (i == 1 || ParentOf(i) in visited)
    ensures ParentOf(i) !in done + {i}
    ensures Merged(s, nodes[i := value], done + {i})
    ensures Reached(s, visited + {i})
    ensures Complete(s, visited + {i} - {ParentOf(i)}, done + {i})
  {
    Family(i);
    assert i > 1 ==> s.inner(ParentOf(i));
    FinishedSet(s, combine, nodes, done, i, value);
    forall j: nat | j in visited && j != ParentOf(i)
                    && (s.inner(j) ==> LeftOf(j) in done + {i} && RightOf(j) in done + {i})
      ensures j in done
    {
      Family(j);
    }
  }

  lemma FinishedSet<V>(s: Shape<V>, combine: (V, V) -> Result<V>, nodes: map<nat, V>, done: set<nat>, i: nat, value: V)
    requires IsTree(s, combine) && Merged(s, nodes, done)
    requires s.present(i) && !s.inner(i) && s.value(i) == Ok(value)
    requires i !in done && ParentOf(i) !in done + {i}
    ensures Merged(s, nodes[i := value], done + {i})
  {
    forall j: nat | j in nodes
      ensures ParentOf(j) != i
    {
      assert j > 0;
    }
    assert DoneBelow(s, done + {i});
  }

  /** Visiting an inner node leaves the finished nodes as they were. */
  lemma OpenInner<V>(s: Shape<V>, combine: (V, V) -> Result<V>, visited: set<nat>, done: set<nat>, i: nat)
    requires IsTree(s, combine) && Reached(s, visited) && done <= visited && Complete(s, visited, done)
    requires s.inner(i) && i !in visited && (i == 1 || ParentOf(i) in visited)
    ensures Reached(s, visited + {i}) && Complete(s, visited + {i}, done)
  {
    Family(i);
    assert i > 0 && LeftOf(i) !in done;
    forall j: nat | j in visited + {i} && (s.inner(j) ==> LeftOf(j) in done && RightOf(j) in done)
      ensures j in done
    {
      Family(j);
    }
  }
}

/** The traversal that applies an update tree to a commitment tree: pending nodes
    are visited in any parent-before-child order while `updatedNodes` merges
    finished siblings, and the outcome is that of the plain recursion. */
module TreeTraverser {
  import opened Basics
  import opened UpdateTrees
  import opened Frontier

  /** The tree nodes `N` and the calculations `CN` are abstract. Opening a node
      and combining two calculations read facts, with the hashes `childFacts` and
      `combineFacts`, so they can fail. */
  datatype Ops<!N, !LF, !CN> = Ops(
    children: N -> Result<(N, N)>,
    fromNode: N -> CN,
    fromFact: LF -> CN,
    combine: (CN, CN) -> Result<CN>,
    childFacts: N -> set<nat>,
    combineFacts: (CN, CN) -> set<nat>)

  /** A node to visit, with its heap-style index: the root is 1, and the children
      of `k` are `2k` and `2k + 1`. */
  datatype NodeType<!N, !LF> = NodeType(index: nat, tree: N, update: UpdateTree<LF>)

  // ----- The specification -----

  /** The updated subtree, computed bottom-up by recursion. */
  function Calc<N, LF, CN>(ops: Ops<N, LF, CN>, n: N, u: UpdateTree<LF>): (r: Result<CN>)
    decreases u
  {
    match u
    case NoUpdate => Ok(ops.fromNode(n))
    case Leaf(fact) => Ok(ops.fromFact(fact))
    case Tuple(ul, ur) =>
      var c := ops.children(n);
      if c.Err? then Err
      else Combined(ops.combine, Calc(ops, c.value.0, ul), Calc(ops, c.value.1, ur))
  }

  /** The hashes of the facts read to open the nodes with updates below them. */
  function FactsOpened<N, LF, CN>(ops: Ops<N, LF, CN>, n: N, u: UpdateTree<LF>): set<nat>
    decreases u
  {
    match u
    case Tuple(ul, ur) =>
      var c := ops.children(n);
      if c.Err? then {}
      else ops.childFacts(n) + FactsOpened(ops, c.value.0, ul) + FactsOpened(ops, c.value.1, ur)
    case _ => {}
  }

  predicate HasChildren<N, LF, CN>(ops: Ops<N, LF, CN>, p: NodeType<N, LF>) {
    p.update.Tuple? && ops.children(p.tree).Ok?
  }

  function Children<N, LF, CN>(ops: Ops<N, LF, CN>, p: NodeType<N, LF>): (NodeType<N, LF>, NodeType<N, LF>)
    requires HasChildren(ops, p)
  {
    var (l, r) := ops.children(p.tree).value;
    (NodeType(LeftOf(p.index), l, p.update.left), NodeType(RightOf(p.index), r, p.update.right))
  }

  /** The node the recursion meets at index `i`, if any. */
  function At<N, LF, CN>(ops: Ops<N, LF, CN>, n: N, u: UpdateTree<LF>, i: nat): (r: Option<NodeType<N, LF>>)
    ensures r.Some? ==> i > 0 && r.value.index == i
  {
    if i == 0 then None
    else if i == 1 then Some(NodeType(1, n, u))
    else
      var p := At(ops, n, u, ParentOf(i));
      if p.None? || !HasChildren(ops, p.value) then None
      else
        var (l, r) := Children(ops, p.value);
        Some(if i % 2 == 0 then l else r)
  }

  function ValueAt<N, LF, CN>(ops: Ops<N, LF, CN>, n: N, u: UpdateTree<LF>, i: nat): Result<CN> {
    var p := At(ops, n, u, i);
    if p.None? then Err else Calc(ops, p.value.tree, p.value.update)
  }

  /** `node` and `shape` describe one recursion over one tree. */
  ghost predicate Describes<N, LF, CN>(ops: Ops<N, LF, CN>, node: nat -> Option<NodeType<N, LF>>, shape: Shape<CN>) {
    && IsTree(shape, ops.combine)
    && (forall i: nat :: shape.present(i) <==> node(i).Some?)
    && (forall i: nat {:trigger node(i)} | node(i).Some? ::
          && node(i).value.index == i
          && shape.value(i) == Calc(ops, node(i).value.tree, node(i).value.update)
          && (shape.inner(i) <==> HasChildren(ops, node(i).value)))
    && (forall i: nat {:trigger LeftOf(i)} {:trigger RightOf(i)} | shape.inner(i) ::
          node(i).Some? && HasChildren(ops, node(i).value)
          && (node(LeftOf(i)), node(RightOf(i)))
          == (Some(Children(ops, node(i).value).0), Some(Children(ops, node(i).value).1)))
  }

  ghost function NodesOf<N, LF, CN>(ops: Ops<N, LF, CN>, n: N, u: UpdateTree<LF>): nat -> Option<NodeType<N, LF>> {
    (i: nat) => At(ops, n, u, i)
  }

  ghost function ShapeOf<N, LF, CN>(ops: Ops<N, LF, CN>, n: N, u: UpdateTree<LF>): Shape<CN> {
    Shape((i: nat) => At(ops, n, u, i).Some?,
          (i: nat) => At(ops, n, u, i).Some? && HasChildren(ops, At(ops, n, u, i).value),
          (i: nat) => ValueAt(ops, n, u, i))
  }

  lemma InnerAt<N, LF, CN>(ops: Ops<N, LF, CN>, n: N, u: UpdateTree<LF>, i: nat)
    requires At(ops, n, u, i).Some? && HasChildren(ops, At(ops, n, u, i).value)
    ensures At(ops, n, u, LeftOf(i)) == Some(Children(ops, At(ops, n, u, i).value).0)
    ensures At(ops, n, u, RightOf(i)) == Some(Children(ops, At(ops, n, u, i).value).1)
    ensures ValueAt(ops, n, u, i)
         == Combined(ops.combine, ValueAt(ops, n, u, LeftOf(i)), ValueAt(ops, n, u, RightOf(i)))
  {
    Family(i);
    var p := At(ops, n, u, i).value;
    var (l, r) := Children(ops, p);
    assert Calc(ops, p.tree, p.update)
        == Combined(ops.combine, Calc(ops, l.tree, l.update), Calc(ops, r.tree, r.update));
  }

  lemma ShapeIsTree<N, LF, CN>(ops: Ops<N, LF, CN>, n: N, u: UpdateTree<LF>)
    ensures IsTree(ShapeOf(ops, n, u), ops.combine)
  {
    var s := ShapeOf(ops, n, u);
    forall i: nat | s.inner(i)
      ensures s.present(LeftOf(i)) && s.present(RightOf(i))
      ensures s.value(i) == Combined(ops.combine, s.value(LeftOf(i)), s.value(RightOf(i)))
    {
      InnerAt(ops, n, u, i);
    }
  }

  lemma ShapeDescribes<N, LF, CN>(ops: Ops<N, LF, CN>, n: N, u: UpdateTree<LF>)
    ensures Describes(ops, NodesOf(ops, n, u), ShapeOf(ops, n, u))
    ensures NodesOf(ops, n, u)(1) == Some(NodeType(1, n, u))
    ensures ShapeOf(ops, n, u).value(1) == Calc(ops, n, u)
  {
    ShapeIsTree(ops, n, u);
    var s, node := ShapeOf(ops, n, u), NodesOf(ops, n, u);
    forall i: nat | s.inner(i)
      ensures node(LeftOf(i)) == Some(Children(ops, node(i).value).0)
      ensures node(RightOf(i)) == Some(Children(ops, node(i).value).1)
    {
      InnerAt(ops, n, u, i);
    }
  }

  // ----- The work left in the queue -----

  function Size<LF>(u: UpdateTree<LF>): (n: nat)
    ensures n > 0
  {
    match u
    case Tuple(l, r) => 1 + Size(l) + Size(r)
    case _ => 1
  }

  function TotalSize<N, LF>(queue: seq<NodeType<N, LF>>): (n: nat)
    ensures queue != [] ==> n > 0
  {
    if queue == [] then 0 else Size(queue[0].update) + TotalSize(queue[1..])
  }

  lemma {:induction false} TotalSizeAppend<N, LF>(q: seq<NodeType<N, LF>>, q': seq<NodeType<N, LF>>)
    ensures TotalSize(q + q') == TotalSize(q) + TotalSize(q')
  {
    if q == [] {
      assert q + q' == q';
    } else {
      assert (q + q')[1..] == q[1..] + q';
      TotalSizeAppend(q[1..], q');
    }
  }

  lemma TotalSizeRemove<N, LF>(q: seq<NodeType<N, LF>>, k: nat)
    requires k < |q|
    ensures TotalSize(q) == Size(q[k].update) + TotalSize(RemoveAt(q, k))
  {
    assert q == q[..k] + q[k..];
    TotalSizeAppend(q[..k], q[k..]);
    TotalSizeAppend(q[..k], q[k + 1..]);
  }

  /** `i` has not been visited but its parent has. */
  ghost predicate Waiting<N, LF>(node: nat -> Option<NodeType<N, LF>>, visited: set<nat>, i: nat) {
    node(i).Some? && i !in visited && (i == 1 || ParentOf(i) in visited)
  }

  ghost predicate AllWaiting<N, LF>(node: nat -> Option<NodeType<N, LF>>, visited: set<nat>,
                                    queue: seq<NodeType<N, LF>>) {
    forall k | 0 <= k < |queue| ::
      Waiting(node, visited, queue[k].index) && node(queue[k].index) == Some(queue[k])
  }

  ghost predicate Distinct<N, LF>(queue: seq<NodeType<N, LF>>) {
    forall j, k | 0 <= j < k < |queue| :: queue[j].index != queue[k].index
  }

  ghost predicate Queued<N, LF>(queue: seq<NodeType<N, LF>>, i: nat) {
    exists k :: 0 <= k < |queue| && queue[k].index == i
  }

  /** The queue holds exactly the nodes waiting to be visited, once each. */
  ghost predicate Pending<N, LF>(node: nat -> Option<NodeType<N, LF>>, visited: set<nat>, queue: seq<NodeType<N, LF>>) {
    && AllWaiting(node, visited, queue)
    && Distinct(queue)
    && (forall i: nat | Waiting(node, visited, i) :: Queued(queue, i))
  }

  lemma RemovePending<N, LF>(node: nat -> Option<NodeType<N, LF>>, visited: set<nat>, queue: seq<NodeType<N, LF>>,
                             k: nat)
    requires k < |queue| && Pending(node, visited, queue)
    ensures var i, rest := queue[k].index, RemoveAt(queue, k);
            && AllWaiting(node, visited, rest) && Distinct(rest)
            && (forall w: nat :: Queued(rest, w) <==> Waiting(node, visited, w) && w != i)
  {
    var i, rest := queue[k].index, RemoveAt(queue, k);
    forall w: nat
      ensures Queued(rest, w) <==> Waiting(node, visited, w) && w != i
    {
      if Queued(rest, w) {
        var j :| 0 <= j < |rest| && rest[j].index == w;
        assert rest[j] == queue[if j < k then j else j + 1];
      }
      if Waiting(node, visited, w) && w != i {
        assert Queued(queue, w);
        var q :| 0 <= q < |queue| && queue[q].index == w;
        assert rest[if q < k then q else q - 1] == queue[q];
      }
    }
  }

  lemma QueuedAppend<N, LF>(q: seq<NodeType<N, LF>>, q': seq<NodeType<N, LF>>, w: nat)
    ensures Queued(q + q', w) <==> Queued(q, w) || Queued(q', w)
  {
    if Queued(q, w) {
      var k :| 0 <= k < |q| && q[k].index == w;
      assert (q + q')[k].index == w;
    }
    if Queued(q', w) {
      var k :| 0 <= k < |q'| && q'[k].index == w;
      assert (q + q')[|q| + k].index == w;
    }
  }

  /** Visiting the node at position `k` replaces it in the queue by its children. */
  lemma VisitPending<N, LF, CN>(ops: Ops<N, LF, CN>, node: nat -> Option<NodeType<N, LF>>, shape: Shape<CN>,
                                visited: set<nat>, queue: seq<NodeType<N, LF>>, k: nat,
                                children: seq<NodeType<N, LF>>)
    requires Describes(ops, node, shape) && k < |queue| && Pending(node, visited, queue)
    requires Reached(shape, visited)
    requires children
             == if HasChildren(ops, queue[k]) then [Children(ops, queue[k]).0, Children(ops, queue[k]).1] else []
    ensures Pending(node, visited + {queue[k].index}, RemoveAt(queue, k) + children)
  {
    var i, rest := queue[k].index, RemoveAt(queue, k);
    RemovePending(node, visited, queue, k);
    ChildrenWait(ops, node, shape, visited, i);
    assert node(i) == Some(queue[k]);
    assert shape.inner(i) <==> HasChildren(ops, queue[k]);
    assert LeftOf(i) == 2 * i;
    forall j | 0 <= j < |rest|
      ensures forall c | 0 <= c < |children| :: rest[j].index != children[c].index
      ensures Waiting(node, visited + {i}, rest[j].index)
    {
      assert Queued(rest, rest[j].index);
    }
    forall w: nat | Waiting(node, visited + {i}, w)
      ensures Queued(rest + children, w)
    {
      QueuedAppend(rest, children, w);
      if !Waiting(node, visited, w) {
        Family(w);
        assert shape.inner(ParentOf(w));
        assert children[if w == LeftOf(i) then 0 else 1].index == w;
      }
    }
  }

  lemma ChildrenWait<N, LF, CN>(ops: Ops<N, LF, CN>, node: nat -> Option<NodeType<N, LF>>, shape: Shape<CN>,
                                visited: set<nat>, i: nat)
    requires Describes(ops, node, shape) && Reached(shape, visited) && Waiting(node, visited, i)
    ensures shape.inner(i) ==>
              && Waiting(node, visited + {i}, LeftOf(i)) && Waiting(node, visited + {i}, RightOf(i))
              && !Waiting(node, visited, LeftOf(i)) && !Waiting(node, visited, RightOf(i))
  {
    Family(i);
    if shape.inner(i) {
      assert shape.present(LeftOf(i)) && shape.present(RightOf(i));
      assert i > 0;
    }
  }

  /** The facts of the visited nodes have been read. */
  ghost predicate FactsRead<N, LF, CN>(ops: Ops<N, LF, CN>, node: nat -> Option<NodeType<N, LF>>, visited: set<nat>,
                                       facts: set<nat>) {
    forall i | i in visited && node(i).Some? && HasChildren(ops, node(i).value) ::
      ops.childFacts(node(i).value.tree) <= facts
  }

  // ----- The traverser -----

  class TreeUpdateTraverser<N(!new), LF(!new), CN> {
    const ops: Ops<N, LF, CN>
    var updatedNodes: map<nat, CN>
    /** The hashes of the facts read so far. */
    var facts: set<nat>
    /** The recursion this traversal carries out. */
    ghost const node: nat -> Option<NodeType<N, LF>>
    ghost const shape: Shape<CN>
    /** Indices visited so far. */
    ghost var visited: set<nat>
    /** Indices whose whole subtree has been visited. */
    ghost var done: set<nat>

    constructor (ops: Ops<N, LF, CN>, ghost node: nat -> Option<NodeType<N, LF>>, ghost shape: Shape<CN>)
      requires Describes(ops, node, shape)
      ensures this.ops == ops && this.node == node && this.shape == shape
      ensures Valid() && updatedNodes == map[] && facts == {} && visited == {}
    {
      this.ops, this.node, this.shape := ops, node, shape;
      updatedNodes, facts, visited, done := map[], {}, {}, {};
    }

    /** The invariant of `updatedNodes` between two visits. */
    ghost predicate Valid()
      reads this
    {
      && Merged(shape, updatedNodes, done)
      && done <= visited
      && Complete(shape, visited, done)
      && Reached(shape, visited)
      && FactsRead(ops, node, visited, facts)
    }

    /** Merges upwards from `nodeIndex`, which has just become finished. */
    method UpdateNecessary(nodeIndex: nat) returns (r: Result<()>)
      requires IsTree(shape, ops.combine)
      requires nodeIndex in done && ParentOf(nodeIndex) !in done
      requires Merged(shape, updatedNodes, done)
      requires done <= visited && Reached(shape, visited) && FactsRead(ops, node, visited, facts)
      requires Complete(shape, visited - {ParentOf(nodeIndex)}, done)
      modifies this`updatedNodes, this`facts, this`done
      ensures r.Ok? ==> Valid()
      ensures r.Err? ==> shape.value(1).Err?
    {
      var cur := nodeIndex;
      while Sibling(cur) in updatedNodes
        invariant cur in done && ParentOf(cur) !in done
        invariant done <= visited && FactsRead(ops, node, visited, facts)
        invariant Merged(shape, updatedNodes, done)
        invariant Complete(shape, visited - {ParentOf(cur)}, done)
        decreases cur
      {
        MergeReady(shape, ops.combine, updatedNodes, visited, done, cur);
        cur := ParentOf(cur);
        KeepsComplete(shape, visited, done, cur);
        var left, right := updatedNodes[LeftOf(cur)], updatedNodes[RightOf(cur)];
        var c := ops.combine(left, right);
        if c.Err? {
          FailureReachesRoot(shape, ops.combine, cur);
          return Err;
        }
        facts := facts + ops.combineFacts(left, right);
        KeepsMerged(shape, ops.combine, updatedNodes, done, cur);
        updatedNodes := updatedNodes[cur := c.value];
        updatedNodes := updatedNodes - {LeftOf(cur)} - {RightOf(cur)};
        done := done + {cur};
      }
      LastMerge(shape, ops.combine, updatedNodes, visited, done, cur);
      r := Ok(());
    }

    /** Stores the value of a node without children and merges. */
    method Finish(nodeIndex: nat, calculationNode: CN) returns (r: Result<()>)
      requires Describes(ops, node, shape) && Valid() && Waiting(node, visited, nodeIndex)
      requires !shape.inner(nodeIndex) && shape.value(nodeIndex) == Ok(calculationNode)
      modifies this
      ensures r.Ok? ==> Valid() && visited == old(visited) + {nodeIndex}
      ensures r.Err? ==> shape.value(1).Err?
    {
      FinishLeaf(shape, ops.combine, updatedNodes, visited, done, nodeIndex, calculationNode);
      updatedNodes := updatedNodes[nodeIndex := calculationNode];
      visited, done := visited + {nodeIndex}, done + {nodeIndex};
      r := UpdateNecessary(nodeIndex);
    }

    /** Visits one node: a node without update keeps its value, an updated leaf gets
        its new one, and any other node is replaced by its two children. */
    method GetChildren(n: NodeType<N, LF>) returns (r: Result<seq<NodeType<N, LF>>>)
      requires Describes(ops, node, shape) && Valid()
      requires Waiting(node, visited, n.index) && node(n.index) == Some(n)
      modifies this
      ensures r.Ok? ==> Valid() && visited == old(visited) + {n.index}
      ensures r.Ok? ==> r.value == if HasChildren(ops, n) then [Children(ops, n).0, Children(ops, n).1] else []
      ensures r.Err? ==> shape.value(1).Err?
    {
      if n.update.Tuple? {
        var c := ops.children(n.tree);
        if c.Err? {
          FailureReachesRoot(shape, ops.combine, n.index);
          return Err;
        }
        OpenInner(shape, ops.combine, visited, done, n.index);
        visited := visited + {n.index};
        facts := facts + ops.childFacts(n.tree);
        var (left, right) := c.value;
        return Ok([NodeType(2 * n.index, left, n.update.left), NodeType(2 * n.index + 1, right, n.update.right)]);
      }
      var finished := Finish(n.index, if n.update.NoUpdate? then ops.fromNode(n.tree) else ops.fromFact(n.update.fact));
      r := if finished.Ok? then Ok([]) else Err;
    }
  }

  // ----- The map and the queue together -----

  /** `i` is in the map or waits to be visited. */
  ghost predicate OnFrontier<N, LF, CN>(nodes: map<nat, CN>, queue: seq<NodeType<N, LF>>, i: nat) {
    i in nodes || Queued(queue, i)
  }

  /** No node on the frontier lies above another, none is both in the map and in the queue, no two
      siblings are left in the map, and each node without children lies below the frontier. */
  ghost predicate IsFrontier<N, LF, CN>(shape: Shape<CN>, nodes: map<nat, CN>, queue: seq<NodeType<N, LF>>) {
    && (forall i, j | OnFrontier(nodes, queue, i) && OnFrontier(nodes, queue, j) :: IsAbove(i, j) ==> i == j)
    && (forall i | i in nodes :: !Queued(queue, i) && (i > 1 ==> Sibling(i) !in nodes))
    && (forall x: nat | shape.present(x) && !shape.inner(x) :: exists i :: OnFrontier(nodes, queue, i) && IsAbove(i, x))
  }

  /** A node that is not visited lies below one that waits. */
  lemma {:induction false} BelowWaiting<N, LF, CN>(ops: Ops<N, LF, CN>, node: nat -> Option<NodeType<N, LF>>,
                                                   shape: Shape<CN>, visited: set<nat>, x: nat)
    returns (w: nat)
    requires Describes(ops, node, shape) && node(x).Some? && x !in visited
    ensures Waiting(node, visited, w) && IsAbove(w, x)
    decreases x
  {
    if x == 1 || ParentOf(x) in visited {
      w := x;
    } else {
      assert shape.present(x) && !shape.present(0);
      assert shape.inner(ParentOf(x)) && LeftOf(ParentOf(x)) == 2 * ParentOf(x);
      w := BelowWaiting(ops, node, shape, visited, ParentOf(x));
      assert shape.present(w);
      AboveLess(w, ParentOf(x));
      Above(w, ParentOf(x), x);
    }
  }

  lemma {:induction false} AboveLess(a: nat, i: nat)
    requires IsAbove(a, i)
    ensures a <= i
    decreases i
  {
  }

  /** Two nodes on the frontier are not above one another. */
  lemma FrontierPrefixFree<N, LF, CN>(ops: Ops<N, LF, CN>, node: nat -> Option<NodeType<N, LF>>, shape: Shape<CN>,
                                      nodes: map<nat, CN>, visited: set<nat>, done: set<nat>,
                                      queue: seq<NodeType<N, LF>>, i: nat, j: nat)
    requires Describes(ops, node, shape) && Pending(node, visited, queue)
    requires Merged(shape, nodes, done) && Complete(shape, visited, done) && Reached(shape, visited) && done <= visited
    requires OnFrontier(nodes, queue, i) && OnFrontier(nodes, queue, j) && IsAbove(i, j)
    ensures i == j
  {
    if i in nodes && j in nodes {
      MapPrefixFree(shape, ops.combine, nodes, visited, done, i, j);
    } else if i in nodes {
      assert Waiting(node, visited, j);
      BelowDone(shape, ops.combine, done, i, j);
    } else if i != j {
      assert Waiting(node, visited, i);
      if j in nodes {
        AboveVisited(shape, visited, i, j);
      } else {
        assert Waiting(node, visited, j);
        AboveVisited(shape, visited, i, ParentOf(j));
      }
    }
  }

  /** Between two visits the map and the queue form a prefix-free cover of the tree without
      siblings to be merged. */
  lemma FrontierCovers<N, LF, CN>(ops: Ops<N, LF, CN>, node: nat -> Option<NodeType<N, LF>>, shape: Shape<CN>,
                                  nodes: map<nat, CN>, visited: set<nat>, done: set<nat>, queue: seq<NodeType<N, LF>>)
    requires Describes(ops, node, shape) && Pending(node, visited, queue)
    requires Merged(shape, nodes, done) && Complete(shape, visited, done) && Reached(shape, visited) && done <= visited
    ensures IsFrontier(shape, nodes, queue)
  {
    forall i, j | OnFrontier(nodes, queue, i) && OnFrontier(nodes, queue, j) && IsAbove(i, j)
      ensures i == j
    {
      FrontierPrefixFree(ops, node, shape, nodes, visited, done, queue, i, j);
    }
    forall i | i in nodes
      ensures !Queued(queue, i) && (i > 1 ==> Sibling(i) !in nodes)
    {
      MapPrefixFree(shape, ops.combine, nodes, visited, done, i, i);
      assert Queued(queue, i) ==> Waiting(node, visited, i);
    }
    forall x: nat | shape.present(x) && !shape.inner(x)
      ensures exists i :: OnFrontier(nodes, queue, i) && IsAbove(i, x)
    {
      if x in visited {
        assert LeftOf(x) == 2 * x;
        var i := BelowKey(shape, nodes, done, x);
        assert OnFrontier(nodes, queue, i);
      } else {
        var w := BelowWaiting(ops, node, shape, visited, x);
        assert OnFrontier(nodes, queue, w);
      }
    }
  }

  /** So each node without children lies below exactly one node of the frontier. */
  lemma CoveredOnce<N, LF, CN>(shape: Shape<CN>, nodes: map<nat, CN>, queue: seq<NodeType<N, LF>>, i: nat, j: nat,
                               x: nat)
    requires IsFrontier(shape, nodes, queue) && OnFrontier(nodes, queue, i) && OnFrontier(nodes, queue, j)
    requires IsAbove(i, x) && IsAbove(j, x)
    ensures i == j
  {
    AboveBoth(i, j, x);
  }

  /** With nothing waiting, only the root is left in the map. */
  lemma {:induction false} AllFinished<N, LF, CN>(ops: Ops<N, LF, CN>, node: nat -> Option<NodeType<N, LF>>,
                                                  shape: Shape<CN>,
                                                  nodes: map<nat, CN>, visited: set<nat>, done: set<nat>)
    requires Describes(ops, node, shape) && Pending(node, visited, [])
    requires Merged(shape, nodes, done) && Complete(shape, visited, done) && Reached(shape, visited)
    requires done <= visited
    ensures nodes.Keys == {1} && shape.value(1) == Ok(nodes[1])
  {
    assert 1 in visited by {
      assert !Waiting(node, visited, 1);
    }
    EverythingDone(ops, node, shape, visited, done, 1);
    assert ParentOf(1) == 0 && 0 !in done;
    forall i | i in nodes
      ensures i == 1
    {
      EverythingDone(ops, node, shape, visited, done, ParentOf(i));
    }
  }

  /** With nothing waiting, every visited node is finished. */
  lemma {:induction false} EverythingDone<N, LF, CN>(ops: Ops<N, LF, CN>, node: nat -> Option<NodeType<N, LF>>,
                                                     shape: Shape<CN>, visited: set<nat>, done: set<nat>, i: nat)
    requires Describes(ops, node, shape) && Pending(node, visited, [])
    requires Complete(shape, visited, done) && Reached(shape, visited)
    ensures i in visited ==> i in done
    decreases if node(i).Some? then Size(node(i).value.update) else 0
  {
    assert LeftOf(i) == 2 * i;
    if i in visited && shape.inner(i) {
      Family(i);
      assert node(LeftOf(i)) == Some(Children(ops, node(i).value).0);
      assert node(RightOf(i)) == Some(Children(ops, node(i).value).1);
      assert !Waiting(node, visited, LeftOf(i)) && !Waiting(node, visited, RightOf(i));
      EverythingDone(ops, node, shape, visited, done, LeftOf(i));
      EverythingDone(ops, node, shape, visited, done, RightOf(i));
    }
  }

  /** With nothing waiting, the facts of all nodes with updates have been read. */
  lemma {:induction false} AllFactsRead<N, LF, CN>(ops: Ops<N, LF, CN>, node: nat -> Option<NodeType<N, LF>>,
                                                   shape: Shape<CN>, visited: set<nat>, facts: set<nat>, i: nat)
    requires Describes(ops, node, shape) && Pending(node, visited, []) && Reached(shape, visited)
    requires FactsRead(ops, node, visited, facts) && i in visited && node(i).Some?
    ensures FactsOpened(ops, node(i).value.tree, node(i).value.update) <= facts
    decreases Size(node(i).value.update)
  {
    if shape.inner(i) {
      Family(i);
      assert LeftOf(i) == 2 * i;
      assert node(LeftOf(i)) == Some(Children(ops, node(i).value).0);
      assert node(RightOf(i)) == Some(Children(ops, node(i).value).1);
      assert !Waiting(node, visited, LeftOf(i)) && !Waiting(node, visited, RightOf(i));
      AllFactsRead(ops, node, shape, visited, facts, LeftOf(i));
      AllFactsRead(ops, node, shape, visited, facts, RightOf(i));
    }
  }

  /** Visits the node at position `k` of the queue. */
  method VisitOne<N(!new), LF(!new), CN>(traverser: TreeUpdateTraverser<N, LF, CN>, queue: seq<NodeType<N, LF>>, k: nat)
    returns (r: Result<seq<NodeType<N, LF>>>)
    requires Describes(traverser.ops, traverser.node, traverser.shape)
    requires traverser.Valid() && k < |queue| && Pending(traverser.node, traverser.visited, queue)
    modifies traverser
    ensures r.Ok? ==> traverser.Valid() && Pending(traverser.node, traverser.visited, r.value)
    ensures r.Ok? ==> IsFrontier(traverser.shape, traverser.updatedNodes, r.value)
    ensures r.Ok? ==> TotalSize(r.value) < TotalSize(queue)
    ensures r.Err? ==> traverser.shape.value(1).Err?
  {
    ghost var visited := traverser.visited;
    assert Waiting(traverser.node, visited, queue[k].index);
    var children := traverser.GetChildren(queue[k]);
    if children.Err? {
      return Err;
    }
    VisitPending(traverser.ops, traverser.node, traverser.shape, visited, queue, k, children.value);
    VisitSize(traverser.ops, queue, k);
    r := Ok(RemoveAt(queue, k) + children.value);
    FrontierCovers(traverser.ops, traverser.node, traverser.shape, traverser.updatedNodes, traverser.visited,
                   traverser.done, r.value);
  }

  lemma VisitSize<N, LF, CN>(ops: Ops<N, LF, CN>, queue: seq<NodeType<N, LF>>, k: nat)
    requires k < |queue|
    ensures var children :=
              if HasChildren(ops, queue[k]) then [Children(ops, queue[k]).0, Children(ops, queue[k]).1] else [];
            TotalSize(RemoveAt(queue, k) + children) < TotalSize(queue)
  {
    TotalSizeRemove(queue, k);
    if HasChildren(ops, queue[k]) {
      ChildrenSize(ops, queue[k]);
      TotalSizeAppend(RemoveAt(queue, k), [Children(ops, queue[k]).0, Children(ops, queue[k]).1]);
    } else {
      assert RemoveAt(queue, k) + [] == RemoveAt(queue, k);
    }
  }

  /** Visits the pending nodes in any order; each turn picks an arbitrary one. */
  method TraverseTree<N(!new), LF(!new), CN>(traverser: TreeUpdateTraverser<N, LF, CN>, root: NodeType<N, LF>)
    returns (r: Result<()>)
    requires Describes(traverser.ops, traverser.node, traverser.shape)
    requires traverser.Valid() && traverser.visited == {} && traverser.node(1) == Some(root)
    modifies traverser
    ensures r.Ok? ==> traverser.updatedNodes.Keys == {1}
                      && traverser.shape.value(1) == Ok(traverser.updatedNodes[1])
                      && FactsOpened(traverser.ops, root.tree, root.update) <= traverser.facts
    ensures r.Err? ==> traverser.shape.value(1).Err?
  {
    var queue := [root];
    FirstPending(traverser.node, root);
    while queue != []
      invariant traverser.Valid()
      invariant Pending(traverser.node, traverser.visited, queue)
      decreases TotalSize(queue)
    {
      var k :| 0 <= k < |queue|;
      var rest := VisitOne(traverser, queue, k);
      if rest.Err? {
        return Err;
      }
      queue := rest.value;
    }
    AllFinished(traverser.ops, traverser.node, traverser.shape, traverser.updatedNodes, traverser.visited,
                traverser.done);
    assert 1 in traverser.visited by {
      assert !Waiting(traverser.node, traverser.visited, 1);
    }
    AllFactsRead(traverser.ops, traverser.node, traverser.shape, traverser.visited, traverser.facts, 1);
    r := Ok(());
  }

  lemma FirstPending<N, LF>(node: nat -> Option<NodeType<N, LF>>, root: NodeType<N, LF>)
    requires node(1) == Some(root) && root.index == 1
    ensures Pending(node, {}, [root])
  {
    assert [root][0].index == 1;
  }

  lemma ChildrenSize<N, LF, CN>(ops: Ops<N, LF, CN>, n: NodeType<N, LF>)
    requires HasChildren(ops, n)
    ensures TotalSize([Children(ops, n).0, Children(ops, n).1]) < Size(n.update)
  {
    var (l, r) := Children(ops, n);
    TotalSizeAppend([l], [r]);
    assert [l] + [r] == [l, r];
    assert TotalSize([l]) == Size(l.update) && TotalSize([r]) == Size(r.update);
  }

  /** In every visiting order the result is that of the recursion, or a failure
      exactly when the recursion fails or an index lies outside the tree; and
      the facts of all nodes with updates below them have been read. */
  method BuildUpdatedCalculation<N(!new), LF(!new), CN>(
      ops: Ops<N, LF, CN>, tree: N, height: nat, modifications: seq<Modification<LF>>)
    returns (r: Result<CN>, facts: set<nat>)
    ensures InRange(height, modifications) ==> r == Calc(ops, tree, TreeOf(Collect(modifications), height, 0))
    ensures r.Ok? ==> FactsOpened(ops, tree, TreeOf(Collect(modifications), height, 0)) <= facts
    ensures !InRange(height, modifications) ==> r.Err?
  {
    var updateTree := BuildUpdateTree(height, modifications);
    if updateTree.Err? {
      return Err, {};
    }
    var update := updateTree.value;
    ShapeDescribes(ops, tree, update);
    var traverser := new TreeUpdateTraverser(ops, NodesOf(ops, tree, update), ShapeOf(ops, tree, update));
    var traversed := TraverseTree(traverser, NodeType(1, tree, update));
    if traversed.Err? {
      return Err, {};
    }
    r, facts := Ok(traverser.updatedNodes[1]), traverser.facts;
  }
}
