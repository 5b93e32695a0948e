/** The difference between two trees of one storage, found by walking both at once. */
module TreeDiff {
  import opened Basics
  import opened Patricia
  import opened VirtualNodes
  import PairingHash

  /** Paths are 64-bit numbers: shifting them left drops the high bits. */
  datatype Difference<LF> = Difference(path: nat, previous: LF, current: LF)

  /** Two nodes at the same place of the two trees. */
  datatype DiffNode = DiffNode(path: nat, previous: VirtualNode, current: VirtualNode)

  type Step<!LF> = Result<(seq<Difference<LF>>, seq<DiffNode>)>

  function Differing(path: nat, previous: VirtualNode, current: VirtualNode): seq<DiffNode> {
    if previous != current then [DiffNode(path, previous, current)] else []
  }

  /** Visiting a pair of leaves reports a difference; visiting a pair of inner nodes
      leads to those children that are written differently. */
  function GetDiffChildren<LF>(store: Store, leaves: map<Hash, LF>, n: DiffNode): Step<LF> {
    if n.previous.height == 0 then
      if n.current.height == 0 && n.previous.node.bottom in leaves && n.current.node.bottom in leaves then
        Ok(([Difference(n.path, leaves[n.previous.node.bottom], leaves[n.current.node.bottom])], []))
      else Err
    else
      var p, c := GetChildren(store, n.previous), GetChildren(store, n.current);
      if p.Err? || c.Err? then Err
      else
        Ok(([], Differing((n.path * 2) % USIZE, p.value.0, c.value.0)
              + Differing((n.path * 2 + 1) % USIZE, p.value.1, c.value.1)))
  }

  // ----- The walk as a recursion -----

  function Append<T>(a: Result<seq<T>>, b: Result<seq<T>>): Result<seq<T>> {
    if a.Ok? && b.Ok? then Ok(a.value + b.value) else Err
  }

  /** All differences found from one pair of nodes, left before right. */
  function DiffOf<LF>(store: Store, leaves: map<Hash, LF>, n: DiffNode): Result<seq<Difference<LF>>>
    decreases n.previous.height, 0
  {
    if n.previous.height == 0 then
      var step := GetDiffChildren(store, leaves, n);
      if step.Err? then Err else Ok(step.value.0)
    else
      var p, c := GetChildren(store, n.previous), GetChildren(store, n.current);
      if p.Err? || c.Err? then Err
      else
        ChildHeights(store, n.previous);
        Append(DiffOfChild(store, leaves, DiffNode((n.path * 2) % USIZE, p.value.0, c.value.0)),
               DiffOfChild(store, leaves, DiffNode((n.path * 2 + 1) % USIZE, p.value.1, c.value.1)))
  }

  function DiffOfChild<LF>(store: Store, leaves: map<Hash, LF>, n: DiffNode): Result<seq<Difference<LF>>>
    decreases n.previous.height, 1
  {
    if n.previous == n.current then Ok([]) else DiffOf(store, leaves, n)
  }

  // ----- The reference: comparing leaf by leaf -----

  /** The differences among the `n` leaves from index `lo` on, in order. */
  ghost function LeafDiff<LF>(g: nat -> LF, g': nat -> LF, lo: nat, n: nat): seq<Difference<LF>>
    decreases n
  {
    if n == 0 then []
    else
      var j := lo + n - 1;
      LeafDiff(g, g', lo, n - 1) + if g(j) == g'(j) then [] else [Difference(j % USIZE, g(j), g'(j))]
  }

  lemma {:induction false} LeafDiffSplit<LF>(g: nat -> LF, g': nat -> LF, lo: nat, a: nat, b: nat)
    ensures LeafDiff(g, g', lo, a + b) == LeafDiff(g, g', lo, a) + LeafDiff(g, g', lo + a, b)
    decreases b
  {
    if b == 0 {
      assert LeafDiff(g, g', lo, a) + [] == LeafDiff(g, g', lo, a);
    } else {
      LeafDiffSplit(g, g', lo, a, b - 1);
    }
  }

  lemma {:induction false} LeafDiffEmpty<LF>(g: nat -> LF, g': nat -> LF, lo: nat, n: nat)
    requires forall j: nat | lo <= j < lo + n :: g(j) == g'(j)
    ensures LeafDiff(g, g', lo, n) == []
    decreases n
  {
    if n > 0 {
      LeafDiffEmpty(g, g', lo, n - 1);
    }
  }

  /** `d` reports the difference at one index of the range. */
  ghost predicate Reports<LF>(g: nat -> LF, g': nat -> LF, lo: nat, n: nat, d: Difference<LF>) {
    lo <= d.path < lo + n && g(d.path) != g'(d.path) && d == Difference(d.path, g(d.path), g'(d.path))
  }

  /** `d` contains the difference at each differing index of the tree once, and nothing else. */
  ghost predicate Exact<LF(!new)>(g: nat -> LF, g': nat -> LF, lo: nat, n: nat, d: seq<Difference<LF>>) {
    forall x :: multiset(d)[x] == if Reports(g, g', lo, n, x) then 1 else 0
  }

  /** Where 64 bits hold every index, the paths are the indices themselves. */
  lemma {:induction false} LeafDiffExact<LF(!new)>(g: nat -> LF, g': nat -> LF, lo: nat, n: nat)
    returns (d: seq<Difference<LF>>)
    requires lo + n <= USIZE
    ensures d == LeafDiff(g, g', lo, n) && Exact(g, g', lo, n, d)
    decreases n
  {
    d := [];
    if n > 0 {
      var front := LeafDiffExact(g, g', lo, n - 1);
      LeafDiffLast(g, g', lo, n - 1);
      d := ExactStep(g, g', lo, n - 1, front);
    }
  }

  lemma {:induction false} LeafDiffLast<LF>(g: nat -> LF, g': nat -> LF, lo: nat, n: nat)
    requires lo + n < USIZE
    ensures var j := lo + n;
            LeafDiff(g, g', lo, n + 1)
            == LeafDiff(g, g', lo, n) + if g(j) == g'(j) then [] else [Difference(j, g(j), g'(j))]
  {
    DivModUnique(lo + n, USIZE, 0, lo + n);
  }

  lemma ExactStep<LF(!new)>(g: nat -> LF, g': nat -> LF, lo: nat, n: nat, front: seq<Difference<LF>>)
    returns (d: seq<Difference<LF>>)
    requires Exact(g, g', lo, n, front)
    ensures var j := lo + n; d == front + if g(j) == g'(j) then [] else [Difference(j, g(j), g'(j))]
    ensures Exact(g, g', lo, n + 1, d)
  {
    var j := lo + n;
    var last := if g(j) == g'(j) then [] else [Difference(j, g(j), g'(j))];
    d := front + last;
    forall x
      ensures multiset(d)[x] == if Reports(g, g', lo, n + 1, x) then 1 else 0
    {
      assert multiset(d) == multiset(front) + multiset(last);
      assert multiset(front)[x] == if Reports(g, g', lo, n, x) then 1 else 0;
    }
  }

  /** `D` is the reference. The trigger keeps it from being unfolded where it is only passed around. */
  ghost predicate IsLeafDiff<LF>(g: nat -> LF, g': nat -> LF, D: (nat, nat) -> seq<Difference<LF>>) {
    forall lo: nat, n: nat {:trigger LeafDiff(g, g', lo, n)} :: D(lo, n) == LeafDiff(g, g', lo, n)
  }

  // ----- The walk finds the differing leaves -----

  /** The leaf facts below a node differ exactly where their hashes do. */
  ghost predicate HashesIdentify<LF>(f: Leaves, f': Leaves, g: nat -> LF, g': nat -> LF, h: nat, i: nat) {
    forall j: nat | Below(h, i, j) :: f(j) == f'(j) <==> g(j) == g'(j)
  }

  /** Both nodes of `n` are node `i` of their trees, and the storage holds both trees. */
  ghost predicate Comparable<LF>(store: Store, leaves: map<Hash, LF>, n: DiffNode, t: Tree, t': Tree,
                                 open: Hash -> Fact, g: nat -> LF, g': nat -> LF, h: nat, i: nat) {
    && n.path == i % USIZE && n.previous.height == n.current.height == h && t.hash == t'.hash
    && Fetchable(store, leaves, n.previous, t, open, g, i)
    && Fetchable(store, leaves, n.current, t', open, g', i)
    && HashesIdentify(t.leaf, t'.leaf, g, g', h, i)
  }

  lemma PathStep(i: nat, b: nat)
    ensures ((i % USIZE) * 2 + b) % USIZE == (2 * i + b) % USIZE
  {
    var q, r := i / USIZE, i % USIZE;
    var q', r' := (r * 2 + b) / USIZE, (r * 2 + b) % USIZE;
    assert 2 * i + b == (2 * q + q') * USIZE + r';
    DivModUnique(2 * i + b, USIZE, 2 * q + q', r');
  }

  lemma ComparableChildren<LF>(store: Store, leaves: map<Hash, LF>, n: DiffNode, t: Tree, t': Tree,
                               open: Hash -> Fact, g: nat -> LF, g': nat -> LF, h: nat, i: nat)
    requires h > 0 && Comparable(store, leaves, n, t, t', open, g, g', h, i)
    ensures var p, c := GetChildren(store, n.previous), GetChildren(store, n.current);
            && p.Ok? && c.Ok?
            && Comparable(store, leaves, DiffNode((n.path * 2) % USIZE, p.value.0, c.value.0),
                          t, t', open, g, g', h - 1, 2 * i)
            && Comparable(store, leaves, DiffNode((n.path * 2 + 1) % USIZE, p.value.1, c.value.1),
                          t, t', open, g, g', h - 1, 2 * i + 1)
  {
    FetchableChildren(store, leaves, n.previous, t, open, g, i);
    FetchableChildren(store, leaves, n.current, t', open, g', i);
    ChildHeights(store, n.previous);
    ChildHeights(store, n.current);
    PathStep(i, 0);
    PathStep(i, 1);
    forall j: nat
      ensures Below(h, i, j) <==> Below(h - 1, 2 * i, j) || Below(h - 1, 2 * i + 1, j)
    {
      BelowChild(h, i, j);
    }
  }

  /** Nodes that are written the same have the same leaves. */
  lemma SameNodeSameLeaves(store: Store, v: VirtualNode, t: Tree, t': Tree, open: Hash -> Fact, h: nat, i: nat)
    requires Built(t) && Built(t') && t.hash == t'.hash
    requires Readable(store, v, t, open, h, i) && Readable(store, v, t', open, h, i)
    ensures SameLeaves(t.leaf, t'.leaf, h, i)
  {
    NodeProper(t, open, h, i);
    NodeProper(t', open, h, i);
    if h > 0 {
      Halves(t, open, h, i);
      Halves(t', open, h, i);
    }
    assert t.node(h, i) == t'.node(h, i);
    NodeDeterminesLeaves(t, t', open, h, i);
  }

  /** At the leaves there is only one way to write a node. */
  lemma DifferentLeaves(store: Store, v: VirtualNode, w: VirtualNode, t: Tree, t': Tree, open: Hash -> Fact, i: nat)
    requires Built(t) && Built(t') && t.hash == t'.hash
    requires Readable(store, v, t, open, 0, i) && Readable(store, w, t', open, 0, i)
    ensures v == w <==> t.leaf(i) == t'.leaf(i)
  {
    Opened(t, 0, i);
    Opened(t', 0, i);
  }

  lemma SameBlock<LF>(store: Store, leaves: map<Hash, LF>, n: DiffNode, t: Tree, t': Tree,
                      open: Hash -> Fact, g: nat -> LF, g': nat -> LF, h: nat, i: nat,
                      D: (nat, nat) -> seq<Difference<LF>>)
    requires IsLeafDiff(g, g', D) && Comparable(store, leaves, n, t, t', open, g, g', h, i) && n.previous == n.current
    ensures D(Base(i, h), Pow2(h)) == []
  {
    SameNodeSameLeaves(store, n.previous, t, t', open, h, i);
    forall j: nat | Base(i, h) <= j < Base(i, h) + Pow2(h)
      ensures g(j) == g'(j)
    {
      DivModUnique(j, Pow2(h), i, j - Base(i, h));
      assert Below(h, i, j);
    }
    LeafDiffEmpty(g, g', Base(i, h), Pow2(h));
  }

  /** A pair of inner nodes, or of different leaves, yields exactly the differences below it. */
  lemma {:induction false} DiffOfCorrect<LF>(store: Store, leaves: map<Hash, LF>, n: DiffNode, t: Tree, t': Tree,
                                             open: Hash -> Fact, g: nat -> LF, g': nat -> LF, h: nat, i: nat,
                                             D: (nat, nat) -> seq<Difference<LF>>)
    returns (d: seq<Difference<LF>>)
    requires IsLeafDiff(g, g', D) && Comparable(store, leaves, n, t, t', open, g, g', h, i)
    requires h > 0 || n.previous != n.current
    ensures DiffOf(store, leaves, n) == Ok(d) && d == D(Base(i, h), Pow2(h))
    decreases h, 0
  {
    if h == 0 {
      LeafPair(store, leaves, n, t, t', open, g, g', i, D);
      d := [Difference(i % USIZE, g(i), g'(i))];
    } else {
      ComparableChildren(store, leaves, n, t, t', open, g, g', h, i);
      var p, c := GetChildren(store, n.previous).value, GetChildren(store, n.current).value;
      var l := DiffNode((n.path * 2) % USIZE, p.0, c.0);
      var r := DiffNode((n.path * 2 + 1) % USIZE, p.1, c.1);
      var dl := ChildCorrect(store, leaves, l, t, t', open, g, g', h - 1, 2 * i, D);
      var dr := ChildCorrect(store, leaves, r, t, t', open, g, g', h - 1, 2 * i + 1, D);
      InnerPair(store, leaves, n, p.0, p.1, c.0, c.1, dl, dr);
      LeafDiffHalves(g, g', h, i, dl, dr, D);
      d := dl + dr;
    }
  }

  lemma InnerPair<LF>(store: Store, leaves: map<Hash, LF>, n: DiffNode, pl: VirtualNode, pr: VirtualNode,
                      cl: VirtualNode, cr: VirtualNode, dl: seq<Difference<LF>>, dr: seq<Difference<LF>>)
    requires n.previous.height > 0
    requires GetChildren(store, n.previous) == Ok((pl, pr)) && GetChildren(store, n.current) == Ok((cl, cr))
    requires DiffOfChild(store, leaves, DiffNode((n.path * 2) % USIZE, pl, cl)) == Ok(dl)
    requires DiffOfChild(store, leaves, DiffNode((n.path * 2 + 1) % USIZE, pr, cr)) == Ok(dr)
    ensures DiffOf(store, leaves, n) == Ok(dl + dr)
  {
  }

  lemma LeafDiffHalves<LF>(g: nat -> LF, g': nat -> LF, h: nat, i: nat, dl: seq<Difference<LF>>,
                           dr: seq<Difference<LF>>, D: (nat, nat) -> seq<Difference<LF>>)
    requires h > 0
    requires IsLeafDiff(g, g', D)
    requires dl == D(Base(2 * i, h - 1), Pow2(h - 1)) && dr == D(Base(2 * i + 1, h - 1), Pow2(h - 1))
    ensures dl + dr == D(Base(i, h), Pow2(h))
  {
    HalfIndex(h, i);
    DiffHalves(g, g', Base(i, h), Pow2(h - 1), D);
  }

  lemma {:induction false} DiffHalves<LF>(
      g: nat -> LF, g': nat -> LF, lo: nat, n: nat, D: (nat, nat) -> seq<Difference<LF>>)
    requires IsLeafDiff(g, g', D)
    ensures D(lo, n) + D(lo + n, n) == D(lo, n + n)
  {
    LeafDiffSplit(g, g', lo, n, n);
  }

  lemma {:induction false} ChildCorrect<LF>(store: Store, leaves: map<Hash, LF>, n: DiffNode, t: Tree, t': Tree,
                                            open: Hash -> Fact, g: nat -> LF, g': nat -> LF, h: nat, i: nat,
                                            D: (nat, nat) -> seq<Difference<LF>>)
    returns (d: seq<Difference<LF>>)
    requires IsLeafDiff(g, g', D) && Comparable(store, leaves, n, t, t', open, g, g', h, i)
    ensures DiffOfChild(store, leaves, n) == Ok(d) && d == D(Base(i, h), Pow2(h))
    decreases h, 1
  {
    if n.previous == n.current {
      SameBlock(store, leaves, n, t, t', open, g, g', h, i, D);
      d := [];
    } else {
      d := DiffOfCorrect(store, leaves, n, t, t', open, g, g', h, i, D);
    }
  }

  lemma LeafPair<LF>(store: Store, leaves: map<Hash, LF>, n: DiffNode, t: Tree, t': Tree,
                     open: Hash -> Fact, g: nat -> LF, g': nat -> LF, i: nat, D: (nat, nat) -> seq<Difference<LF>>)
    requires IsLeafDiff(g, g', D) && Comparable(store, leaves, n, t, t', open, g, g', 0, i)
    ensures DiffOf(store, leaves, n) == Ok([Difference(i % USIZE, g(i), g'(i))])
    ensures n.previous != n.current ==> D(Base(i, 0), Pow2(0)) == [Difference(i % USIZE, g(i), g'(i))]
  {
    DifferentLeaves(store, n.previous, n.current, t, t', open, i);
    Opened(t, 0, i);
    Opened(t', 0, i);
    assert Below(0, i, i);
    assert LeafDiff(g, g', Base(i, 0), 1)
        == LeafDiff(g, g', Base(i, 0), 0) + if g(i) == g'(i) then [] else [Difference(i % USIZE, g(i), g'(i))];
  }

  // ----- The walk with a queue, in any order -----

  type Bag<!LF(==)> = Result<multiset<Difference<LF>>>

  ghost function Add<LF>(a: Bag<LF>, b: Bag<LF>): Bag<LF> {
    if a.Ok? && b.Ok? then Ok(a.value + b.value) else Err
  }

  ghost function ToBag<LF>(r: Result<seq<Difference<LF>>>): Bag<LF> {
    if r.Ok? then Ok(multiset(r.value)) else Err
  }

  lemma AddLaws<LF>(a: Bag<LF>, b: Bag<LF>, c: Bag<LF>)
    ensures Add(Ok(multiset{}), a) == a == Add(a, Ok(multiset{}))
    ensures Add(a, b) == Add(b, a)
    ensures Add(Add(a, b), c) == Add(a, Add(b, c))
  {
    if a.Ok? {
      assert multiset{} + a.value == a.value == a.value + multiset{};
    }
    if a.Ok? && b.Ok? {
      assert a.value + b.value == b.value + a.value;
    }
    if a.Ok? && b.Ok? && c.Ok? {
      assert a.value + b.value + c.value == a.value + (b.value + c.value);
    }
  }

  /** All differences still to be found from the queue, in no particular order, where `bag`
      gives those of one pair. */
  ghost function Outstanding<LF>(bag: DiffNode -> Bag<LF>, queue: seq<DiffNode>): Bag<LF> {
    if queue == [] then Ok(multiset{}) else Add(bag(queue[0]), Outstanding(bag, queue[1..]))
  }

  lemma OutstandingOne<LF>(bag: DiffNode -> Bag<LF>, n: DiffNode)
    ensures Outstanding(bag, [n]) == bag(n)
  {
    assert [n][1..] == [];
    AddLaws(bag(n), bag(n), bag(n));
  }

  lemma {:induction false} OutstandingAppend<LF>(bag: DiffNode -> Bag<LF>, q: seq<DiffNode>, q': seq<DiffNode>)
    ensures Outstanding(bag, q + q') == Add(Outstanding(bag, q), Outstanding(bag, q'))
  {
    if q == [] {
      assert q + q' == q';
      AddLaws(Outstanding(bag, q'), Outstanding(bag, q'), Outstanding(bag, q'));
    } else {
      assert (q + q')[1..] == q[1..] + q';
      OutstandingAppend(bag, q[1..], q');
      AddLaws(bag(q[0]), Outstanding(bag, q[1..]), Outstanding(bag, q'));
    }
  }

  lemma OutstandingRemove<LF>(bag: DiffNode -> Bag<LF>, q: seq<DiffNode>, k: nat)
    requires k < |q|
    ensures Outstanding(bag, q) == Add(bag(q[k]), Outstanding(bag, RemoveAt(q, k)))
  {
    var l, r := q[..k], q[k + 1..];
    assert q == l + ([q[k]] + r);
    OutstandingAppend(bag, l, [q[k]] + r);
    OutstandingAppend(bag, [q[k]], r);
    OutstandingOne(bag, q[k]);
    OutstandingAppend(bag, l, r);
    AddLaws(Outstanding(bag, l), bag(q[k]), Outstanding(bag, r));
    AddLaws(bag(q[k]), Outstanding(bag, l), Outstanding(bag, r));
  }

  /** Work left in the queue, bounded by the number of nodes below it. */
  ghost function Weight(queue: seq<DiffNode>): nat {
    if queue == [] then 0 else Pow2(queue[0].previous.height + 1) - 1 + Weight(queue[1..])
  }

  lemma {:induction false} WeightAppend(q: seq<DiffNode>, q': seq<DiffNode>)
    ensures Weight(q + q') == Weight(q) + Weight(q')
  {
    if q == [] {
      assert q + q' == q';
    } else {
      assert (q + q')[1..] == q[1..] + q';
      WeightAppend(q[1..], q');
    }
  }

  lemma WeightRemove(q: seq<DiffNode>, k: nat)
    requires k < |q|
    ensures Weight(q) == Pow2(q[k].previous.height + 1) - 1 + Weight(RemoveAt(q, k))
  {
    assert q == q[..k] + q[k..];
    WeightAppend(q[..k], q[k..]);
    WeightAppend(q[..k], q[k + 1..]);
  }

  ghost function BagOf<LF>(store: Store, leaves: map<Hash, LF>): (bag: DiffNode -> Bag<LF>)
    ensures IsBag(store, leaves, bag)
  {
    (n: DiffNode) => ToBag(DiffOf(store, leaves, n))
  }

  /** `bag` gives the differences of the recursion; the trigger keeps it folded. */
  ghost predicate IsBag<LF>(store: Store, leaves: map<Hash, LF>, bag: DiffNode -> Bag<LF>) {
    forall n: DiffNode {:trigger DiffOf(store, leaves, n)} :: bag(n) == ToBag(DiffOf(store, leaves, n))
  }

  lemma BagUnfold<LF>(store: Store, leaves: map<Hash, LF>, bag: DiffNode -> Bag<LF>, n: DiffNode)
    requires IsBag(store, leaves, bag)
    ensures var step := GetDiffChildren(store, leaves, n);
            if step.Err? then bag(n).Err?
            else if n.previous.height == 0 then bag(n) == Ok(multiset(step.value.0))
            else
              var p, c := GetChildren(store, n.previous).value, GetChildren(store, n.current).value;
              bag(n) == Add(ChildBag(bag, DiffNode((n.path * 2) % USIZE, p.0, c.0)),
                            ChildBag(bag, DiffNode((n.path * 2 + 1) % USIZE, p.1, c.1)))
  {
    var d := DiffOf(store, leaves, n);
    var step := GetDiffChildren(store, leaves, n);
    if step.Ok? && n.previous.height > 0 {
      var p, c := GetChildren(store, n.previous).value, GetChildren(store, n.current).value;
      var l := DiffNode((n.path * 2) % USIZE, p.0, c.0);
      var r := DiffNode((n.path * 2 + 1) % USIZE, p.1, c.1);
      ChildBagIs(store, leaves, bag, l);
      ChildBagIs(store, leaves, bag, r);
      AppendBag(DiffOfChild(store, leaves, l), DiffOfChild(store, leaves, r));
    }
  }

  lemma ChildBagIs<LF>(store: Store, leaves: map<Hash, LF>, bag: DiffNode -> Bag<LF>, n: DiffNode)
    requires IsBag(store, leaves, bag)
    ensures ToBag(DiffOfChild(store, leaves, n)) == ChildBag(bag, n)
  {
    var d := DiffOf(store, leaves, n);
  }

  ghost function ChildBag<LF>(bag: DiffNode -> Bag<LF>, n: DiffNode): Bag<LF> {
    if n.previous == n.current then Ok(multiset{}) else bag(n)
  }

  lemma StepOutstanding<LF>(store: Store, leaves: map<Hash, LF>, bag: DiffNode -> Bag<LF>, n: DiffNode)
    requires IsBag(store, leaves, bag)
    ensures var step := GetDiffChildren(store, leaves, n);
            if step.Err? then bag(n).Err?
            else bag(n) == Add(Ok(multiset(step.value.0)), Outstanding(bag, step.value.1))
  {
    BagUnfold(store, leaves, bag, n);
    var step := GetDiffChildren(store, leaves, n);
    if step.Ok? && n.previous.height > 0 {
      var p, c := GetChildren(store, n.previous).value, GetChildren(store, n.current).value;
      InnerOutstanding(bag, DiffNode((n.path * 2) % USIZE, p.0, c.0), DiffNode((n.path * 2 + 1) % USIZE, p.1, c.1));
      AddLaws(Outstanding(bag, step.value.1), Ok(multiset{}), Ok(multiset{}));
    } else if step.Ok? {
      AddLaws(Ok(multiset(step.value.0)), Ok(multiset{}), Ok(multiset{}));
    }
  }

  lemma InnerOutstanding<LF>(bag: DiffNode -> Bag<LF>, l: DiffNode, r: DiffNode)
    ensures Outstanding(bag, Differing(l.path, l.previous, l.current) + Differing(r.path, r.previous, r.current))
         == Add(ChildBag(bag, l), ChildBag(bag, r))
  {
    OutstandingOne(bag, l);
    OutstandingOne(bag, r);
    OutstandingAppend(bag, Differing(l.path, l.previous, l.current), Differing(r.path, r.previous, r.current));
  }

  lemma AppendBag<LF>(a: Result<seq<Difference<LF>>>, b: Result<seq<Difference<LF>>>)
    ensures ToBag(Append(a, b)) == Add(ToBag(a), ToBag(b))
  {
  }

  lemma StepWeight<LF>(store: Store, leaves: map<Hash, LF>, n: DiffNode)
    requires GetDiffChildren(store, leaves, n).Ok?
    ensures Weight(GetDiffChildren(store, leaves, n).value.1) < Pow2(n.previous.height + 1) - 1
  {
    if n.previous.height > 0 {
      var p, c := GetChildren(store, n.previous).value, GetChildren(store, n.current).value;
      ChildHeights(store, n.previous);
      var l, r := Differing((n.path * 2) % USIZE, p.0, c.0), Differing((n.path * 2 + 1) % USIZE, p.1, c.1);
      WeightAppend(l, r);
      assert l != [] ==> l[1..] == [];
      assert r != [] ==> r[1..] == [];
    }
  }

  /** Visits the pending pairs in any order; each turn picks an arbitrary one. */
  method TraverseTrees<LF(==)>(store: Store, leaves: map<Hash, LF>, root: DiffNode, ghost bag: DiffNode -> Bag<LF>)
    returns (r: Result<seq<Difference<LF>>>)
    requires IsBag(store, leaves, bag)
    ensures ToBag(r) == bag(root)
  {
    var queue, result := [root], [];
    OutstandingOne(bag, root);
    AddLaws(bag(root), bag(root), bag(root));
    while queue != []
      invariant bag(root) == Add(Ok(multiset(result)), Outstanding(bag, queue))
      decreases Weight(queue)
    {
      var k :| 0 <= k < |queue|;
      StepOutstanding(store, leaves, bag, queue[k]);
      var step := GetDiffChildren(store, leaves, queue[k]);
      if step.Err? {
        OutstandingRemove(bag, queue, k);
        return Err;
      }
      StepWeight(store, leaves, queue[k]);
      WeightRemove(queue, k);
      WeightAppend(RemoveAt(queue, k), step.value.1);
      VisitKeepsTotal(bag, result, queue, k, step.value.0, step.value.1);
      queue, result := RemoveAt(queue, k) + step.value.1, result + step.value.0;
    }
    AddLaws(Ok(multiset(result)), Ok(multiset{}), Ok(multiset{}));
    r := Ok(result);
  }

  /** Fails if the heights differ or a fact is missing; otherwise, in every visiting
      order, finds the differences of the recursion. */
  method GetDiffBetweenTrees<LF(==)>(store: Store, leaves: map<Hash, LF>, previous: VirtualNode, current: VirtualNode)
    returns (r: Result<seq<Difference<LF>>>)
    ensures previous.height != current.height ==> r.Err?
    ensures previous.height == current.height
            ==> ToBag(r) == ToBag(DiffOf(store, leaves, DiffNode(0, previous, current)))
  {
    if previous.height != current.height {
      return Err;
    }
    r := TraverseTrees(store, leaves, DiffNode(0, previous, current), BagOf(store, leaves));
  }

  /** Moving what a visit finds from the queue to the result keeps the total. */
  lemma VisitKeepsTotal<LF>(bag: DiffNode -> Bag<LF>, result: seq<Difference<LF>>, queue: seq<DiffNode>, k: nat,
                            found: seq<Difference<LF>>, children: seq<DiffNode>)
    requires k < |queue| && bag(queue[k]) == Add(Ok(multiset(found)), Outstanding(bag, children))
    ensures Add(Ok(multiset(result)), Outstanding(bag, queue))
         == Add(Ok(multiset(result + found)), Outstanding(bag, RemoveAt(queue, k) + children))
  {
    OutstandingRemove(bag, queue, k);
    OutstandingAppend(bag, RemoveAt(queue, k), children);
    Reorder(Ok(multiset(result)), Ok(multiset(found)), Outstanding(bag, children),
            Outstanding(bag, RemoveAt(queue, k)));
    assert multiset(result + found) == multiset(result) + multiset(found);
  }

  lemma Reorder<LF>(a: Bag<LF>, b: Bag<LF>, c: Bag<LF>, d: Bag<LF>)
    ensures Add(a, Add(Add(b, c), d)) == Add(Add(a, b), Add(d, c))
  {
    if a.Ok? && b.Ok? && c.Ok? && d.Ok? {
      assert a.value + ((b.value + c.value) + d.value) == (a.value + b.value) + (d.value + c.value);
    }
  }

  /** Between two trees of one storage with height at least 1, the walk finds exactly the
      differing leaves; of two leaves it always reports the pair, equal or not. */
  lemma DiffOfTrees<LF>(store: Store, leaves: map<Hash, LF>, previous: VirtualNode, current: VirtualNode, t: Tree,
                        t': Tree, open: Hash -> Fact, g: nat -> LF, g': nat -> LF, height: nat)
    requires Comparable(store, leaves, DiffNode(0, previous, current), t, t', open, g, g', height, 0)
    ensures DiffOf(store, leaves, DiffNode(0, previous, current))
         == Ok(if height == 0 then [Difference(0, g(0), g'(0))] else LeafDiff(g, g', 0, Pow2(height)))
  {
    var D := (lo: nat, n: nat) => LeafDiff(g, g', lo, n);
    if height == 0 {
      LeafPair(store, leaves, DiffNode(0, previous, current), t, t', open, g, g', 0, D);
    } else {
      var d := DiffOfCorrect(store, leaves, DiffNode(0, previous, current), t, t', open, g, g', height, 0, D);
    }
  }

  /** The differences between two stored trees, found in any visiting order: with height 1 to 64
      exactly the differing indices, each once. */
  method DiffTrees<LF(==,!new)>(
      store: Store, leaves: map<Hash, LF>, previous: VirtualNode, current: VirtualNode,
      ghost t: Tree, ghost t': Tree, ghost open: Hash -> Fact, ghost g: nat -> LF, ghost g': nat -> LF,
      ghost height: nat)
    returns (r: Result<seq<Difference<LF>>>)
    ensures Comparable(store, leaves, DiffNode(0, previous, current), t, t', open, g, g', height, 0) && height > 0 ==>
      && r.Ok? && multiset(r.value) == multiset(LeafDiff(g, g', 0, Pow2(height)))
      && (height <= 64 ==> Exact(g, g', 0, Pow2(height), r.value))
  {
    r := GetDiffBetweenTrees(store, leaves, previous, current);
    if Comparable(store, leaves, DiffNode(0, previous, current), t, t', open, g, g', height, 0) && height > 0 {
      DiffOfTrees(store, leaves, previous, current, t, t', open, g, g', height);
      if height <= 64 {
        IndicesFit(height);
        var _ := LeafDiffExact(g, g', 0, Pow2(height));
      }
    }
  }

  lemma IndicesFit(height: nat)
    ensures height <= 64 <==> Pow2(height) <= USIZE
  {
    UsizeIsPow2();
    if height < 64 {
      Pow2Grows(height, 64);
    } else if height > 64 {
      Pow2Grows(64, height);
    }
  }

  // ----- Trees of more than 64 levels -----

  lemma {:induction false} DifferenceFound<LF>(g: nat -> LF, g': nat -> LF, lo: nat, n: nat, j: nat)
    requires lo <= j < lo + n && g(j) != g'(j)
    ensures Difference(j % USIZE, g(j), g'(j)) in LeafDiff(g, g', lo, n)
    decreases n
  {
    if j < lo + n - 1 {
      DifferenceFound(g, g', lo, n - 1, j);
    }
  }

  /** Two trees that differ at index 0 and at index 2^64. */
  ghost function Blank(): nat -> nat {
    (j: nat) => 0
  }

  ghost function TwoLeaves(): nat -> nat {
    (j: nat) => if j == 0 then 1 else if j == USIZE then 2 else 0
  }

  /** Both differences are reported with path 0. */
  lemma WideTrees(height: nat) returns (store: Store, leaves: map<Hash, nat>, n: DiffNode, t: Tree, t': Tree)
    requires height > 64
    ensures n.path == 0 && Comparable(store, leaves, n, t, t', PairingHash.Unhash, Blank(), TwoLeaves(), height, 0)
    ensures DiffOf(store, leaves, n).Ok?
    ensures Difference(0, 0, 1) in DiffOf(store, leaves, n).value
            && Difference(0, 0, 2) in DiffOf(store, leaves, n).value
  {
    t, t' := CanonicalTree(PairingHash.HashPairs, Blank()), CanonicalTree(PairingHash.HashPairs, TwoLeaves());
    store := PairingHash.StoreTrees(t, t', height);
    leaves := map[0 := 0, 1 := 1, 2 := 2];
    PairingHash.NoTreeCollides(t, height, 0);
    PairingHash.NoTreeCollides(t', height, 0);
    n := DiffNode(0, VirtualNode(t.node(height, 0), height), VirtualNode(t'.node(height, 0), height));
    DiffOfTrees(store, leaves, n.previous, n.current, t, t', PairingHash.Unhash, Blank(), TwoLeaves(), height);
    IndicesFit(height);
    DivModUnique(USIZE, USIZE, 1, 0);
    DifferenceFound(Blank(), TwoLeaves(), 0, Pow2(height), 0);
    DifferenceFound(Blank(), TwoLeaves(), 0, Pow2(height), USIZE);
  }

  /** The walk is exact on all pairs of stored trees of this height. */
  ghost predicate AlwaysExact(height: nat) {
    forall store: Store, leaves: map<Hash, nat>, n: DiffNode, t: Tree, t': Tree, open: Hash -> Fact, g: nat -> nat,
           g': nat -> nat | n.path == 0 && Comparable(store, leaves, n, t, t', open, g, g', height, 0) ::
      DiffOf(store, leaves, n).Ok? && Exact(g, g', 0, Pow2(height), DiffOf(store, leaves, n).value)
  }

  /** The walk reports exactly the differing indices if and only if the trees have at most 64 levels. */
  lemma ExactUpTo64(height: nat)
    requires height > 0
    ensures AlwaysExact(height) <==> height <= 64
  {
    IndicesFit(height);
    if height <= 64 {
      forall store: Store, leaves: map<Hash, nat>, n: DiffNode, t: Tree, t': Tree, open: Hash -> Fact, g: nat -> nat,
             g': nat -> nat | n.path == 0 && Comparable(store, leaves, n, t, t', open, g, g', height, 0)
        ensures DiffOf(store, leaves, n).Ok? && Exact(g, g', 0, Pow2(height), DiffOf(store, leaves, n).value)
      {
        DiffOfTrees(store, leaves, n.previous, n.current, t, t', open, g, g', height);
        var _ := LeafDiffExact(g, g', 0, Pow2(height));
      }
    } else {
      var store, leaves, n, t, t' := WideTrees(height);
      var d, x := DiffOf(store, leaves, n).value, Difference(0, 0, 2);
      assert multiset(d)[x] > 0 && !Reports(Blank(), TwoLeaves(), 0, Pow2(height), x);
      assert !Exact(Blank(), TwoLeaves(), 0, Pow2(height), d);
    }
  }
}
